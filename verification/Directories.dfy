/** What the parent links and the directory listing of sys/tarfs.c mean in terms of path names. */
module Directories {
  import opened Archive
  import opened Tarfs

  /** `d` is the path of a directory that `name` lies in, at any depth. */
  predicate DirPrefix(d: string, name: string) {
    2 <= |d| < |name| && d <= name && d[|d| - 1] == '/'
  }

  /** `d` is the directory that `name` lies in. */
  predicate IsChild(name: string, d: string) {
    DirPrefix(d, name) && forall i :: |d| <= i < |name| - 1 ==> name[i] != '/'
  }

  /** Directories are named with a closing slash, files without. */
  predicate Slashed(e: TarEntry) {
    e.name != "" && (e.typeflag == DIRECTORY <==> e.name[|e.name| - 1] == '/')
  }

  /** The first `n` entries are an index, and the rest are unnamed. */
  ghost predicate Forest(fs: seq<TarEntry>, n: nat) {
    && n <= |fs| && n <= 99
    && (forall k :: 0 <= k < n ==> Linked(fs[..k], fs[k]) && Slashed(fs[k]))
    && forall k :: n <= k < |fs| ==> fs[k].name == ""
  }

  /** tarfs_init leaves such an index when the archive's names are slashed that way. */
  lemma IndexIsForest(a: string, base: nat, fs: seq<TarEntry>)
    requires IndexOf(a, base, fs)
    requires forall k :: 0 <= k < |Offsets(a, 0)| ==> Slashed(fs[k])
    ensures Forest(fs, |Offsets(a, 0)|)
  {
    forall k | 0 <= k < |Offsets(a, 0)| ensures Linked(fs[..k], fs[k]) {
      assert IsEntry(a, base, fs[..k], Offsets(a, 0)[k], fs[k]);
    }
  }

  /** `d` is the longest directory prefix of `name`. */
  ghost predicate Longest(d: string, name: string) {
    DirPrefix(d, name) && forall e :: DirPrefix(e, name) ==> |e| <= |d|
  }

  ghost predicate TopLevel(name: string) {
    forall d :: !DirPrefix(d, name)
  }

  predicate FirstNamed(fs: seq<TarEntry>, k: nat)
    requires k < |fs|
  {
    forall j :: 0 <= j < k ==> fs[j].name != fs[k].name
  }

  /** The parent's name is the longest directory prefix, if there is one. */
  lemma ParentNameIsLongest(e: TarEntry)
    requires Slashed(e) && SearchFrom(e.name, e.typeflag) >= 1
    ensures var parent := ParentName(e.name, e.typeflag);
      if parent == "" then TopLevel(e.name) else Longest(parent, e.name)
  {
    var name := e.name;
    var p := LastSlash(name, SearchFrom(name, e.typeflag));
    forall d | DirPrefix(d, name) ensures |d| - 1 <= p {
      assert name[|d| - 1] == d[|d| - 1] == '/';
    }
  }

  lemma ForestEntry(fs: seq<TarEntry>, n: nat, k: nat)
    requires k < n <= |fs| && Forest(fs, n)
    ensures Linked(fs[..k], fs[k]) && Slashed(fs[k]) && n <= 99
  {
    hide Linked, Slashed;
  }

  lemma FirstOfName(fs: seq<TarEntry>, k: nat, name: string)
    requires k <= |fs| && name in NamesOf(fs[..k])
    ensures var i := IndexOfName(NamesOf(fs[..k]), name, 0); i < k && fs[i].name == name && FirstNamed(fs, i)
  {
    var names := NamesOf(fs[..k]);
    var i := IndexOfName(names, name, 0);
    FoundIn(names, name);
    assert fs[i].name == names[i];
    forall j | 0 <= j < i ensures fs[j].name != fs[i].name {
      assert names[j] == fs[j].name;
    }
  }

  lemma SlashedDirectory(d: TarEntry, name: string)
    requires Slashed(d) && Longest(d.name, name)
    ensures d.typeflag == DIRECTORY
  {
  }

  /** Every parent link is 999, when no directory prefix exists, or an earlier index, that of the
      longest directory prefix. */
  lemma ParentLinks(fs: seq<TarEntry>, n: nat, k: nat)
    requires k < n <= |fs| && Forest(fs, n)
    ensures var par := fs[k].parInd;
      if par == 999 then TopLevel(fs[k].name)
      else 0 <= par < k && fs[par].typeflag == 5 && Longest(fs[par].name, fs[k].name) && FirstNamed(fs, par)
  {
    hide TopLevel, LastSlash, IndexOfName, Forest, Slashed, Longest, FirstNamed, ParentName, SearchFrom, NamesOf;
    ForestEntry(fs, n, k);
    ParentNameIsLongest(fs[k]);
    var parent := ParentName(fs[k].name, fs[k].typeflag);
    if parent != "" {
      FirstOfName(fs, k, parent);
      ForestEntry(fs, n, fs[k].parInd);
      SlashedDirectory(fs[fs[k].parInd], fs[k].name);
    }
  }

  /** The parent of an entry, its parent, and so on to the top. */
  ghost function Ancestors(fs: seq<TarEntry>, n: nat, k: nat): seq<nat>
    requires k < n <= |fs| && Forest(fs, n)
    decreases k
  {
    hide Forest, Longest, TopLevel, FirstNamed;
    ParentLinks(fs, n, k);
    if fs[k].parInd == NO_PARENT then [] else [fs[k].parInd] + Ancestors(fs, n, fs[k].parInd)
  }

  lemma PrefixUpwards(d: string, parent: string, name: string)
    requires Longest(parent, name)
    ensures DirPrefix(d, name) <==> d == parent || DirPrefix(d, parent)
  {
    assert name[..|parent|] == parent;
    if |d| <= |parent| {
      assert parent[..|d|] == name[..|parent|][..|d|] == name[..|d|];
    }
  }

  /** The entries `up` are earlier ones, named by the directory prefixes of `name`. */
  ghost predicate Above(fs: seq<TarEntry>, up: seq<nat>, k: nat, name: string) {
    && (forall j :: j in up ==> j < k && j < |fs|)
    && forall d :: DirPrefix(d, name) <==> exists j :: j in up && j < |fs| && fs[j].name == d
  }

  lemma AboveStep(fs: seq<TarEntry>, up: seq<nat>, par: nat, k: nat, name: string)
    requires par < k < |fs| && Above(fs, up, par, fs[par].name) && Longest(fs[par].name, name)
    ensures Above(fs, [par] + up, k, name)
  {
    hide DirPrefix, Longest;
    var all := [par] + up;
    assert forall j :: j in all <==> j == par || j in up;
    forall d ensures DirPrefix(d, name) <==> exists j :: j in all && j < |fs| && fs[j].name == d {
      PrefixUpwards(d, fs[par].name, name);
      if d == fs[par].name { assert par in all; }
    }
  }

  /** Going up from an entry visits earlier entries, and they are exactly its directory prefixes. */
  lemma {:induction false} AncestorsArePrefixes(fs: seq<TarEntry>, n: nat, k: nat)
    requires k < n <= |fs| && Forest(fs, n)
    ensures Above(fs, Ancestors(fs, n, k), k, fs[k].name)
    decreases k
  {
    ParentLinks(fs, n, k);
    hide Forest, Longest, DirPrefix, FirstNamed;
    var par := fs[k].parInd;
    if par != NO_PARENT {
      AncestorsArePrefixes(fs, n, par);
      hide Above;
      AboveStep(fs, Ancestors(fs, n, par), par, k, fs[k].name);
    }
  }

  // ---- readdirect --------------------------------------------------------------------------

  /** The entries that lie in `direct`, by their names in it, in archive order. */
  function Children(fs: seq<TarEntry>, direct: string, i: nat): seq<string>
    requires i <= |fs|
    decreases |fs| - i
  {
    if i == |fs| || fs[i].name == "" then []
    else if IsChild(fs[i].name, direct) then [fs[i].name[|direct|..]] + Children(fs, direct, i + 1)
    else Children(fs, direct, i + 1)
  }

  lemma ChildOfLongest(name: string, parent: string, direct: string)
    requires Longest(parent, name)
    ensures IsChild(name, direct) <==> direct == parent
  {
    if parent == direct {
      forall i | |direct| <= i < |name| - 1 ensures name[i] != '/' {
        assert !DirPrefix(name[..i + 1], name);
      }
    } else {
      assert DirPrefix(direct, name) ==> |direct| < |parent|;
      assert name[|parent| - 1] == parent[|parent| - 1] == '/';
    }
  }

  lemma ChildShape(name: string, direct: string)
    ensures TopLevel(name) ==> !IsChild(name, direct)
    ensures IsChild(name, direct) ==> direct <= name && direct != name
  {
  }

  /** The child relation is the parent link. */
  lemma ChildIffParent(fs: seq<TarEntry>, n: nat, k: nat, direct: string)
    requires k < n <= |fs| && Forest(fs, n)
    ensures IsChild(fs[k].name, direct) <==>
      fs[k].parInd != NO_PARENT && 0 <= fs[k].parInd < k && fs[fs[k].parInd].name == direct
  {
    hide IsChild, Longest, TopLevel, DirPrefix, FirstNamed;
    ParentLinks(fs, n, k);
    hide Forest;
    if fs[k].parInd == NO_PARENT {
      ChildShape(fs[k].name, direct);
    } else {
      ChildOfLongest(fs[k].name, fs[fs[k].parInd].name, direct);
    }
  }

  /** An entry that readdirect lists if it lies in `direct`: `direct` has one header before it. */
  predicate OneHeaderBefore(fs: seq<TarEntry>, direct: string, k: nat)
    requires k < |fs|
  {
    IsChild(fs[k].name, direct) ==> forall j :: 0 <= j < k && fs[j].name == direct ==> j == fs[k].parInd
  }

  /** `parent` is the last entry before `i` named `direct`. */
  predicate LastNamed(fs: seq<TarEntry>, direct: string, i: nat, parent: int)
    requires i <= |fs|
  {
    && -1 <= parent < i && (parent >= 0 ==> fs[parent].name == direct)
    && forall j :: parent < j < i && j >= 0 ==> fs[j].name != direct
  }

  /** readdirect prints an entry exactly when it is such a child. */
  lemma ListedIff(fs: seq<TarEntry>, n: nat, direct: string, i: nat, parent: int)
    requires Forest(fs, n) && i < n && LastNamed(fs, direct, i, parent)
    ensures direct <= fs[i].name && fs[i].parInd == parent <==>
      IsChild(fs[i].name, direct) && OneHeaderBefore(fs, direct, i)
    ensures fs[i].name == direct ==> !IsChild(fs[i].name, direct)
    ensures LastNamed(fs, direct, i + 1, if fs[i].name == direct then i else parent)
  {
    hide IsChild, Longest, TopLevel, DirPrefix;
    ChildIffParent(fs, n, i, direct);
    ChildShape(fs[i].name, direct);
    ParentLinks(fs, n, i);
    hide Forest;
  }

  /** Every child of `direct` from entry `i` on is one of those. */
  predicate OneHeaderEach(fs: seq<TarEntry>, direct: string, i: nat, n: nat)
    requires n <= |fs|
  {
    forall k :: i <= k < n ==> OneHeaderBefore(fs, direct, k)
  }

  lemma OneHeaderStep(fs: seq<TarEntry>, direct: string, i: nat, n: nat)
    requires i < n <= |fs|
    ensures OneHeaderEach(fs, direct, i, n) <==> OneHeaderBefore(fs, direct, i) && OneHeaderEach(fs, direct, i + 1, n)
  {
    hide OneHeaderBefore;
  }

  lemma SameTail<T>(x: T, s: seq<T>, t: seq<T>)
    ensures [x] + s == [x] + t <==> s == t
  {
    assert ([x] + s)[1..] == s && ([x] + t)[1..] == t;
  }

  lemma {:induction false} ListingStep(fs: seq<TarEntry>, n: nat, direct: string, i: nat, parent: int)
    requires Forest(fs, n) && i <= n && LastNamed(fs, direct, i, parent)
    ensures |Listing(fs, direct, i, parent)| <= |Children(fs, direct, i)|
    ensures Listing(fs, direct, i, parent) == Children(fs, direct, i) <==> OneHeaderEach(fs, direct, i, n)
    decreases n - i
  {
    if i < n {
      assert Slashed(fs[i]);
      ListedIff(fs, n, direct, i, parent);
      OneHeaderStep(fs, direct, i, n);
      var was := if fs[i].name == direct then i else parent;
      assert !IsChild(fs[i].name, direct) ==> OneHeaderBefore(fs, direct, i);
      hide Forest, IsChild, OneHeaderBefore, OneHeaderEach, LastNamed, Slashed;
      ListingStep(fs, n, direct, i + 1, was);
      if direct <= fs[i].name {
        SameTail(fs[i].name[|direct|..], Listing(fs, direct, i + 1, was), Children(fs, direct, i + 1));
      }
    }
  }

  lemma {:induction false} NothingInEmptyName(fs: seq<TarEntry>, i: nat)
    requires i <= |fs|
    ensures Children(fs, "", i) == []
    decreases |fs| - i
  {
    if i < |fs| { NothingInEmptyName(fs, i + 1); }
  }

  /** readdirect prints exactly the immediate children of `direct`, in archive order, if and only if
      none of them comes after a second header for `direct`, and `direct` is not empty: then it
      prints a fixed text. */
  lemma ListsChildrenIff(fs: seq<TarEntry>, n: nat, direct: string)
    requires Forest(fs, n)
    ensures Printed(fs, direct) == Children(fs, direct, 0) <==> direct != "" && OneHeaderEach(fs, direct, 0, n)
  {
    if direct == "" {
      NothingInEmptyName(fs, 0);
    } else {
      ListingStep(fs, n, direct, 0, -1);
    }
  }

  /** With one header per name it always does, but for the empty name. */
  lemma UniqueNamesListChildren(fs: seq<TarEntry>, n: nat, direct: string)
    requires Forest(fs, n) && forall j, k :: 0 <= j < k < n ==> fs[j].name != fs[k].name
    ensures Printed(fs, direct) == Children(fs, direct, 0) <==> direct != ""
  {
    forall k | 0 <= k < n ensures OneHeaderBefore(fs, direct, k) {
      ChildIffParent(fs, n, k, direct);
    }
    ListsChildrenIff(fs, n, direct);
  }
}
