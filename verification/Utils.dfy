/** Small things that several parts of the model share. */
module Utils {

  /** A null pointer where pointers are indices. */
  const NULL := -1

  /** The value of an out-of-range conversion to a C `int`. */
  function Int32(x: int): int {
    var m := x % 0x1_0000_0000;
    if m < 0x8000_0000 then m else m - 0x1_0000_0000
  }

  /** And to a 64-bit signed integer. */
  function Int64(x: int): int {
    var m := x % 0x1_0000_0000_0000_0000;
    if m < 0x8000_0000_0000_0000 then m else m - 0x1_0000_0000_0000_0000
  }

  ghost predicate NoDuplicates<T>(s: seq<T>) {
    forall i, j :: 0 <= i < j < |s| ==> s[i] != s[j]
  }

  /** `s` is what is left of `t` after some elements have been taken from its front. */
  ghost predicate Suffix<T>(s: seq<T>, t: seq<T>) {
    |s| <= |t| && s == t[|t| - |s|..]
  }

  lemma SuffixFacts<T>(s: seq<T>, t: seq<T>)
    requires Suffix(s, t)
    ensures (forall x :: x in s ==> x in t) && (NoDuplicates(t) ==> NoDuplicates(s))
  {
  }

  lemma SuffixTransitive<T>(s: seq<T>, t: seq<T>, u: seq<T>)
    requires Suffix(s, t) && Suffix(t, u)
    ensures Suffix(s, u)
  {
  }

  lemma SuffixAfter<T>(t: seq<T>, n: nat)
    requires n <= |t|
    ensures Suffix(t[n..], t)
  {
  }
}
