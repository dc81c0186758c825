/** The string routines with real loops: the overlap-safe memcpy (one body in libc/string.c and
    sys/string1.c) and the stateful strtok of libc/string.c. */
module Strings {
  import opened Utils

  // ---- memcpy ----------------------------------------------------------------------------

  /** `s` with the `n` elements from `src` written over those from `dest`. */
  ghost function Moved<T>(s: seq<T>, dest: nat, src: nat, n: nat): seq<T>
    requires dest + n <= |s| && src + n <= |s|
  {
    s[..dest] + s[src..src + n] + s[dest + n..]
  }

  lemma MovedIs<T>(s: seq<T>, dest: nat, src: nat, n: nat, r: seq<T>)
    requires dest + n <= |s| && src + n <= |s| && |r| == |s|
    requires forall i :: dest <= i < dest + n ==> r[i] == s[src + (i - dest)]
    requires forall i :: 0 <= i < dest || dest + n <= i < |s| ==> r[i] == s[i]
    ensures r == Moved(s, dest, src, n)
  {
  }

  /** memcpy has memmove semantics, however the two ranges overlap. */
  method Memcpy<T>(buffer: array<T>, dest: nat, src: nat, n: nat)
    requires dest + n <= buffer.Length && src + n <= buffer.Length
    modifies buffer
    ensures buffer[..] == Moved(old(buffer[..]), dest, src, n)
  {
    if src < dest {
      var pd, ps, left := dest + n, src + n, n;
      while left != 0
        invariant 0 <= left <= n && pd == dest + left && ps == src + left
        invariant forall i :: dest + left <= i < dest + n ==> buffer[i] == old(buffer[src + (i - dest)])
        invariant forall i :: 0 <= i < dest + left || dest + n <= i < buffer.Length ==> buffer[i] == old(buffer[i])
      {
        left := left - 1;
        pd, ps := pd - 1, ps - 1;
        buffer[pd] := buffer[ps];
      }
    } else {
      var pd, ps, left := dest, src, n;
      while left != 0
        invariant 0 <= left <= n && pd == dest + (n - left) && ps == src + (n - left)
        invariant forall i :: dest <= i < pd ==> buffer[i] == old(buffer[src + (i - dest)])
        invariant forall i :: 0 <= i < dest || pd <= i < buffer.Length ==> buffer[i] == old(buffer[i])
      {
        left := left - 1;
        buffer[pd] := buffer[ps];
        pd, ps := pd + 1, ps + 1;
      }
    }
    MovedIs(old(buffer[..]), dest, src, n, buffer[..]);
  }

  // ---- What strtok is for ----------------------------------------------------------------

  /** A maximal non-empty stretch of `s` without delimiters. */
  ghost predicate IsRun(s: string, delims: string, a: nat, b: nat) {
    && a < b <= |s|
    && (forall i :: a <= i < b ==> s[i] !in delims)
    && (a == 0 || s[a - 1] in delims)
    && (b == |s| || s[b] in delims)
  }

  datatype Span = Span(from: nat, to: nat)

  /** Where the first character at or after `i` that is (not) a delimiter stands. */
  ghost function Find(s: string, delims: string, i: nat, wanted: bool): (r: nat)
    requires i <= |s|
    ensures i <= r <= |s|
    decreases |s| - i
  {
    if i == |s| || (s[i] in delims) == wanted then i else Find(s, delims, i + 1, wanted)
  }

  lemma {:induction false} FindIs(s: string, delims: string, i: nat, wanted: bool)
    requires i <= |s|
    ensures var r := Find(s, delims, i, wanted);
            && (r < |s| ==> (s[r] in delims) == wanted)
            && (forall j :: i <= j < r ==> (s[j] in delims) != wanted)
    decreases |s| - i
  {
    if i < |s| && (s[i] in delims) != wanted { FindIs(s, delims, i + 1, wanted); }
  }

  /** The tokens of `s` from position `i` on, as strtok takes them. */
  ghost function Tokens(s: string, delims: string, i: nat): seq<Span>
    requires i <= |s|
    decreases |s| - i
  {
    var a := Find(s, delims, i, false);
    if a == |s| then []
    else
      var b := Find(s, delims, a, true);
      [Span(a, b)] + if b == |s| then [] else Tokens(s, delims, b + 1)
  }

  lemma NextSpan(s: string, delims: string, i: nat)
    requires i <= |s|
    ensures var a := Find(s, delims, i, false);
            if a == |s| then Tokens(s, delims, i) == []
            else
              var b := Find(s, delims, a, true);
              a < b && Tokens(s, delims, i) == [Span(a, b)] + Tokens(s, delims, if b == |s| then b else b + 1)
  {
    FindIs(s, delims, i, false);
    FindIs(s, delims, Find(s, delims, i, false), true);
  }

  /** Where the tokens after the first are looked for. */
  ghost function AfterFirst(s: string, delims: string, i: nat): (r: nat)
    requires i <= |s|
    ensures r <= |s|
  {
    var b := Find(s, delims, Find(s, delims, i, false), true);
    if b == |s| then b else b + 1
  }

  lemma TokenAt(s: string, delims: string, i: nat, k: nat)
    requires i <= |s| && k < |Tokens(s, delims, i)|
    ensures Find(s, delims, i, false) < |s|
    ensures |Tokens(s, delims, i)| == 1 + |Tokens(s, delims, AfterFirst(s, delims, i))|
    ensures Tokens(s, delims, i)[k] ==
      if k == 0 then Span(Find(s, delims, i, false), Find(s, delims, Find(s, delims, i, false), true))
      else Tokens(s, delims, AfterFirst(s, delims, i))[k - 1]
  {
    NextSpan(s, delims, i);
  }

  /** Every token is a run. */
  lemma {:induction false} TokensSound(s: string, delims: string, i: nat, k: nat)
    requires i <= |s| && (i == 0 || i == |s| || s[i - 1] in delims) && k < |Tokens(s, delims, i)|
    ensures var t := Tokens(s, delims, i)[k]; i <= t.from && IsRun(s, delims, t.from, t.to)
    decreases k
  {
    TokenAt(s, delims, i, k);
    FirstSpanIsRun(s, delims, i);
    var rest := AfterFirst(s, delims, i);
    FindIs(s, delims, Find(s, delims, i, false), true);
    assert i <= rest && (rest == |s| || s[rest - 1] in delims);
    hide Tokens, AfterFirst, IsRun, Find;
    if k > 0 {
      TokensSound(s, delims, rest, k - 1);
    }
  }

  /** The tokens come in order, at least a delimiter apart. */
  lemma {:induction false} TokensOrdered(s: string, delims: string, i: nat, k: nat)
    requires i <= |s| && (i == 0 || i == |s| || s[i - 1] in delims) && k + 1 < |Tokens(s, delims, i)|
    ensures Tokens(s, delims, i)[k].to < Tokens(s, delims, i)[k + 1].from
    decreases k
  {
    TokenAt(s, delims, i, k);
    TokenAt(s, delims, i, k + 1);
    var rest := AfterFirst(s, delims, i);
    FindIs(s, delims, Find(s, delims, i, false), true);
    assert rest == |s| || s[rest - 1] in delims;
    if k > 0 {
      hide Tokens, AfterFirst, Find;
      TokensOrdered(s, delims, rest, k - 1);
    } else {
      TokensSound(s, delims, rest, 0);
    }
  }

  lemma FirstSpanIsRun(s: string, delims: string, i: nat)
    requires i <= |s| && (i == 0 || i == |s| || s[i - 1] in delims) && Find(s, delims, i, false) < |s|
    ensures IsRun(s, delims, Find(s, delims, i, false), Find(s, delims, Find(s, delims, i, false), true))
  {
    var a := Find(s, delims, i, false);
    FindIs(s, delims, i, false);
    FindIs(s, delims, a, true);
    assert i < a ==> s[a - 1] in delims;
  }

  lemma InTokens(s: string, delims: string, i: nat, t: Span)
    requires i <= |s| && Find(s, delims, i, false) < |s|
    requires t == Span(Find(s, delims, i, false), Find(s, delims, Find(s, delims, i, false), true))
          || t in Tokens(s, delims, AfterFirst(s, delims, i))
    ensures t in Tokens(s, delims, i)
  {
    NextSpan(s, delims, i);
    hide Tokens, Find;
  }

  lemma FirstOrLater(s: string, delims: string, i: nat, a: nat, b: nat)
    requires i <= a && IsRun(s, delims, a, b)
    ensures var a0 := Find(s, delims, i, false); var b0 := Find(s, delims, a0, true);
            a0 < |s| && ((a0 == a && b0 == b) || (a0 < b0 < a && s[b0] in delims))
  {
    var a0 := Find(s, delims, i, false);
    FindIs(s, delims, i, false);
    FindIs(s, delims, a0, true);
    assert s[a] !in delims;
    if a0 == a {
      assert b < |s| ==> s[b] in delims;
    } else {
      assert s[a - 1] in delims;
    }
  }

  /** Every run is a token. */
  lemma {:induction false} TokensComplete(s: string, delims: string, i: nat, a: nat, b: nat)
    requires i <= a && IsRun(s, delims, a, b)
    ensures Span(a, b) in Tokens(s, delims, i)
    decreases |s| - i
  {
    FirstOrLater(s, delims, i, a, b);
    var b0 := Find(s, delims, Find(s, delims, i, false), true);
    assert b0 < a ==> AfterFirst(s, delims, i) == b0 + 1;
    hide Tokens, Find, IsRun, AfterFirst;
    if b0 < a {
      TokensComplete(s, delims, b0 + 1, a, b);
    }
    InTokens(s, delims, i, Span(a, b));
  }

  // ---- strtok ----------------------------------------------------------------------------

  /** The buffer holds the rest `s[from..]` of a string that ends at its terminator. */
  ghost predicate Holds(buffer: seq<char>, s: string, from: nat) {
    from <= |s| < |buffer| && '\0' !in s && buffer[|s|] == '\0' && forall i :: from <= i < |s| ==> buffer[i] == s[i]
  }

  /** From `t.from` on, the buffer reads as the token `t` of `s`. */
  ghost predicate ReadsAs(buffer: seq<char>, s: string, t: Span) {
    t.from < t.to <= |s| < |buffer| && buffer[t.from..t.to] == s[t.from..t.to] && buffer[t.to] == '\0'
  }

  class Tokenizer {
    const buffer: array<char>
    var token: int   // the static of strtok, as a position in the buffer, or NULL

    constructor (buffer: array<char>)
      ensures this.buffer == buffer && token == NULL
    {
      this.buffer, token := buffer, NULL;
    }

    /** The innermost loops of strtok: the first delimiter equal to `c`, or the number of them. */
    method FindDelim(c: char, delims: string) returns (index: nat)
      ensures index <= |delims| && (index < |delims| <==> c in delims)
    {
      index := 0;
      while index < |delims|
        invariant index <= |delims| && c !in delims[..index]
      {
        if c == delims[index] {
          break;
        }
        index := index + 1;
      }
    }

    /** strtok. A string is only taken up when the static is idle. */
    method Strtok(parseStr: int, delims: string, ghost s: string) returns (result: int)
      requires '\0' !in delims
      requires var start := if token != NULL then token else parseStr;
               start == NULL || (0 <= start && Holds(buffer[..], s, start))
      modifies this`token, buffer
      ensures var start := if old(token) != NULL then old(token) else parseStr;
              if start == NULL then result == NULL && token == NULL && buffer[..] == old(buffer[..])
              else Called(s, delims, start, old(buffer[..]), result, token, buffer[..])
    {
      if parseStr == NULL && token == NULL {
        return NULL;
      }
      if parseStr != NULL && token == NULL {
        token := parseStr;
      }
      ghost var start, before := token, buffer[..];
      var strPtr := token;
      while true
        invariant start <= strPtr <= |s| && buffer[..] == before && token == start
        invariant Find(s, delims, start, false) == Find(s, delims, strPtr, false)
        decreases |s| - strPtr
      {
        var index := FindDelim(buffer[strPtr], delims);
        if index < |delims| {
          strPtr := strPtr + 1;
        } else {
          token := strPtr;
          break;
        }
      }
      if buffer[token] == '\0' {
        token := NULL;
        return token;
      }
      while buffer[token] != '\0'
        invariant strPtr <= token <= |s| && buffer[..] == before
        invariant Find(s, delims, strPtr, true) == Find(s, delims, token, true)
        decreases |s| - token
      {
        var index := FindDelim(buffer[token], delims);
        if index < |delims| {
          buffer[token] := '\0';
        }
        token := token + 1;
        if index < |delims| {
          break;
        }
      }
      result := strPtr;
    }

    /** The protocol strtok is made for: first with the string, then with NULL until NULL comes
        back. The results point at the tokens of the string, in order, and each reads as exactly
        its token; only delimiters have been overwritten, with terminators; the static is idle. */
    method TokenizeAll(s: string, delims: string) returns (results: seq<int>)
      requires token == NULL && '\0' !in delims && Holds(buffer[..], s, 0)
      modifies this`token, buffer
      ensures token == NULL && |results| == |Tokens(s, delims, 0)|
      ensures forall k :: 0 <= k < |results| ==>
        results[k] == Tokens(s, delims, 0)[k].from && ReadsAs(buffer[..], s, Tokens(s, delims, 0)[k])
      ensures OnlyCut(old(buffer[..]), buffer[..], s, delims)
    {
      hide Tokens, Find, ReadsAs, Called;
      results := [];
      ghost var spans: seq<Span>, rest: nat, before := [], 0, buffer[..];
      var p := Strtok(0, delims, s);
      while p != NULL
        invariant |spans| == |results|
        invariant forall k :: 0 <= k < |results| ==>
          results[k] == spans[k].from && ReadsAs(before, s, spans[k]) && spans[k].to <= rest
        invariant |before| == buffer.Length && Holds(before, s, rest) && OnlyCut(old(buffer[..]), before, s, delims)
        invariant Tokens(s, delims, 0) == spans + Tokens(s, delims, rest)
        invariant Called(s, delims, rest, before, p, token, buffer[..])
        decreases if p == NULL then 0 else |s| - rest
      {
        NextSpan(s, delims, rest);
        CallCuts(s, delims, rest, old(buffer[..]), before, p, token, buffer[..]);
        forall k | 0 <= k < |spans|
          ensures ReadsAs(buffer[..], s, spans[k])
        {
          CallKeepsEarlier(s, delims, rest, before, p, token, buffer[..], spans[k]);
        }
        results := results + [p];
        ghost var b := Find(s, delims, p, true);
        assert spans + ([Span(p, b)] + Tokens(s, delims, token)) == spans + [Span(p, b)] + Tokens(s, delims, token);
        spans := spans + [Span(p, b)];
        rest := token;
        before := buffer[..];
        p := Strtok(NULL, delims, s);
      }
      CallEnds(s, delims, rest, before, p, token, buffer[..]);
    }
  }

  /** Only delimiters of `s` have been overwritten, with terminators. */
  ghost predicate OnlyCut(original: seq<char>, buffer: seq<char>, s: string, delims: string) {
    && |buffer| == |original| > |s|
    && (forall i :: 0 <= i < |s| && buffer[i] != s[i] ==> s[i] in delims && buffer[i] == '\0')
    && (forall i :: |s| <= i < |buffer| ==> buffer[i] == original[i])
  }

  lemma CallCuts(s: string, delims: string, rest: nat, original: seq<char>, before: seq<char>, p: int, token: int,
                 after: seq<char>)
    requires Holds(before, s, rest) && OnlyCut(original, before, s, delims) && p != NULL
    requires Called(s, delims, rest, before, p, token, after)
    ensures 0 <= p && rest < token && Holds(after, s, token) && OnlyCut(original, after, s, delims)
    ensures p == Find(s, delims, rest, false) < |s| && ReadsAs(after, s, Span(p, Find(s, delims, p, true)))
    ensures var b := Find(s, delims, p, true); b <= token == if b == |s| then |s| else b + 1
  {
    FindIs(s, delims, rest, false);
    FindIs(s, delims, p, true);
  }

  lemma CallKeepsEarlier(s: string, delims: string, rest: nat, before: seq<char>, p: int, token: int,
                         after: seq<char>, t: Span)
    requires Holds(before, s, rest) && p != NULL && Called(s, delims, rest, before, p, token, after)
    requires ReadsAs(before, s, t) && t.to <= rest
    ensures ReadsAs(after, s, t)
  {
  }

  lemma CallEnds(s: string, delims: string, rest: nat, before: seq<char>, p: int, token: int, after: seq<char>)
    requires Holds(before, s, rest) && p == NULL && Called(s, delims, rest, before, p, token, after)
    ensures token == NULL && after == before && Tokens(s, delims, rest) == []
  {
    NextSpan(s, delims, rest);
  }

  /** What one strtok call does when the static stands, or is set, at `from`. */
  ghost predicate Called(s: string, delims: string, from: nat, before: seq<char>, result: int, token: int,
                         after: seq<char>)
    requires from <= |s| < |before|
  {
    var a := Find(s, delims, from, false);
    if a == |s| then result == NULL && token == NULL && after == before
    else
      var b := Find(s, delims, a, true);
      result == a && token == (if b == |s| then b else b + 1) && after == before[b := '\0']
  }
}
