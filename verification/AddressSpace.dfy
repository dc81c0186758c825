/** What map_process, set_user_AddrSpace and copy_page_tables_forchild promise, stated on walks,
    and the steps by which their loops get there. */
module AddressSpace {
  import opened Paging

  // ---- map_process -----------------------------------------------------------------------

  /** Roots `r` and `c` reach the same top-level table under PML4 index `i`. */
  ghost predicate SameSlot(t: Tables, r: nat, c: nat, i: nat)
    requires r in t && c in t && i < 512
  {
    r == c || (t[r][i].Present() && t[c][i].Present() && t[r][i].frame == t[c][i].frame)
  }

  /** Tables were only added: old links, and every old walk, are kept. */
  ghost predicate Grows(t: Tables, own: Owner, t': Tables, own': Owner) {
    && (forall f :: f in own ==> f in own' && own'[f] == own[f])
    && (forall f :: f in own' && f !in own ==> own'[f].path != [])
    && (forall f, i :: f in own && 0 <= i < 512 ==> EntryKept(t, t', f, i))
    && (forall f, p :: f in own && WalkFrom(own, f, p) ==> Get(t', f, p) == Get(t, f, p))
  }

  ghost predicate WalkFrom(own: Owner, f: nat, p: seq<nat>)
    requires f in own
    ensures WalkFrom(own, f, p) ==> Indices(p) && |own[f].path| + |p| == 4
  {
    p != [] && Indices(p) && |own[f].path| + |p| == 4
  }

  ghost predicate EntryKept(t: Tables, t': Tables, f: nat, i: nat)
    requires i < 512
  {
    f in t && f in t' && (t[f][i].Present() ==> t'[f][i] == t[f][i])
  }

  /** The PML4 entries are as before, except that index `i` of root `c` may have been filled. */
  ghost predicate RootsKept(t: Tables, own: Owner, t': Tables, c: nat, i: nat) {
    forall r, j :: IsRoot(own, r) && 0 <= j < 512 && (r != c || j != i) ==> EntrySame(t, t', r, j)
  }

  ghost predicate EntrySame(t: Tables, t': Tables, f: nat, i: nat)
    requires i < 512
  {
    f in t && f in t' && t'[f][i] == t[f][i]
  }

  /** map_process: under root `c`, and under every root sharing its top-level table for that
      address, page `q` translates to `e`; every other translation is as before. */
  ghost predicate MapStep(t: Tables, own: Owner, t': Tables, own': Owner, c: nat, q: seq<nat>, e: Entry)
    requires IsPath(q)
  {
    && TreeShaped(t, own) && TreeShaped(t', own') && IsRoot(own, c)
    && (forall r :: IsRoot(own', r) <==> IsRoot(own, r))
    && (forall r, p :: IsRoot(own, r) && IsPath(p) ==>
          Get(t', r, p) == if p == q && SameSlot(t, r, c, q[0]) then e else Get(t, r, p))
    && RootsKept(t, own, t', c, q[0])
    && t'[c][q[0]].Present()
    && (if t[c][q[0]].Present() then t'[c][q[0]] == t[c][q[0]] else t'[c][q[0]].frame !in own)
  }

  lemma GrowsTransitive(t: Tables, own: Owner, t1: Tables, own1: Owner, t2: Tables, own2: Owner)
    requires Grows(t, own, t1, own1) && Grows(t1, own1, t2, own2)
    ensures Grows(t, own, t2, own2)
  {
    forall f, i | f in own && 0 <= i < 512
      ensures EntryKept(t, t2, f, i)
    {
      assert EntryKept(t, t1, f, i) && EntryKept(t1, t2, f, i);
    }
    forall f, p | f in own && WalkFrom(own, f, p)
      ensures Get(t2, f, p) == Get(t, f, p)
    {
      assert WalkFrom(own1, f, p);
    }
  }

  lemma RootsTransitive(t: Tables, own: Owner, c: nat, i: nat, t1: Tables, own1: Owner, f: nat, j: nat, t2: Tables)
    requires Grows(t, own, t1, own1) && RootsKept(t, own, t1, c, i)
    requires RootsKept(t1, own1, t2, f, j) && !IsRoot(own1, f)
    ensures RootsKept(t, own, t2, c, i)
  {
    forall r, k | IsRoot(own, r) && 0 <= k < 512 && (r != c || k != i)
      ensures EntrySame(t, t2, r, k)
    {
      assert EntrySame(t, t1, r, k) && EntrySame(t1, t2, r, k);
    }
  }

  lemma GrowsByLink(t: Tables, own: Owner, g: nat, i: nat, n: nat)
    requires TreeShaped(t, own) && IsInner(own, g) && i < 512 && !t[g][i].Present()
    requires n !in own && n in t && t[n] == EMPTY
    ensures Grows(t, own, t[g := t[g][i := Entry(n, LINK)]], own[n := ChildPlace(own[g], n, i)])
  {
    forall f, p | f in own && WalkFrom(own, f, p)
      ensures Get(t[g := t[g][i := Entry(n, LINK)]], f, p) == Get(t, f, p)
    {
      GetAfterLink(t, own, f, p, g, i, n);
    }
  }

  /** Root `c` leads along `q` through tables `pdpt` and `pdt` to the last-level table `pt`. */
  ghost predicate Linked(t: Tables, own: Owner, c: nat, q: seq<nat>, pdpt: nat, pdt: nat, pt: nat)
    requires TreeShaped(t, own) && IsRoot(own, c) && IsPath(q)
  {
    t[c][q[0]].Present() && t[c][q[0]].frame == pdpt && LinkedBelow(t, own, q, pdpt, pdt, pt)
  }

  ghost predicate LinkedBelow(t: Tables, own: Owner, q: seq<nat>, pdpt: nat, pdt: nat, pt: nat)
    requires TreeShaped(t, own) && IsPath(q)
  {
    && pdpt in own && own[pdpt] == Place(pdpt, q[..1]) && t[pdpt][q[1]].Present() && t[pdpt][q[1]].frame == pdt
    && pdt in own && own[pdt] == Place(pdpt, q[..2]) && t[pdt][q[2]].Present() && t[pdt][q[2]].frame == pt
    && pt in own && own[pt] == Place(pdpt, q[..3])
  }

  /** How many tables map_process has to allocate to reach the end of `path` from table `f`. */
  ghost function Missing(t: Tables, f: nat, path: seq<nat>): nat
    requires path != [] && Indices(path)
    decreases |path|
  {
    if |path| == 1 then 0
    else if f in t && t[f][path[0]].Present() then Missing(t, t[f][path[0]].frame, path[1..])
    else |path| - 1
  }

  /** Wherever a walk finds a present entry, no table is missing on the way. */
  lemma {:induction false} PresentNotMissing(t: Tables, f: nat, path: seq<nat>)
    requires path != [] && Indices(path) && Get(t, f, path) != ZERO
    ensures Missing(t, f, path) == 0
    decreases |path|
  {
    if |path| > 1 { PresentNotMissing(t, t[f][path[0]].frame, path[1..]); }
  }

  /** A walk from a root ends in the table below `pdpt` at `q` exactly when it follows `q` and
      the root holds `pdpt`. */
  lemma VisitsLast(t: Tables, own: Owner, c: nat, r: nat, p: seq<nat>, pdpt: nat, pdt: nat, pt: nat, q: seq<nat>)
    requires TreeShaped(t, own) && IsRoot(own, c) && IsRoot(own, r) && IsPath(p) && IsPath(q) && p[3] == q[3]
    requires Linked(t, own, c, q, pdpt, pdt, pt)
    ensures Visits(t, r, p, pt) <==> p == q && t[r][q[0]].Present() && t[r][q[0]].frame == pdpt
  {
    assert ChildOwned(t, own, r, p[0]);
    if Visits(t, r, p, pt) {
      VisitsPlaced(t, own, r, p, pt);
      assert p == q;
      VisitsPlaced(t, own, t[r][p[0]].frame, p[1..], pt);
    }
    if p == q && t[r][q[0]].Present() && t[r][q[0]].frame == pdpt {
      assert Visits(t, pt, q[3..], pt);
      assert q[2..][1..] == q[3..] && q[1..][1..] == q[2..];
      assert Visits(t, pdt, q[2..], pt);
      assert Visits(t, pdpt, q[1..], pt);
    }
  }

  /** Writing the last-level entry after the three levels have been found or filled. */
  lemma LeafWriteIsMapStep(t: Tables, own: Owner, t3: Tables, own3: Owner, c: nat,
                           pdpt: nat, pdt: nat, pt: nat, q: seq<nat>, e: Entry)
    requires TreeShaped(t, own) && TreeShaped(t3, own3) && Grows(t, own, t3, own3)
    requires IsRoot(own, c) && IsPath(q) && RootsKept(t, own, t3, c, q[0])
    requires IsRoot(own3, c) && Linked(t3, own3, c, q, pdpt, pdt, pt) && (!t[c][q[0]].Present() ==> pdpt !in own)
    ensures MapStep(t, own, t3[pt := t3[pt][q[3] := e]], own3, c, q, e)
  {
    var t' := t3[pt := t3[pt][q[3] := e]];
    TreeIsInner(t3, t', own3);
    assert EntryKept(t, t3, c, q[0]);
    forall r, j | IsRoot(own, r) && 0 <= j < 512 && (r != c || j != q[0])
      ensures EntrySame(t, t', r, j)
    {
      assert EntrySame(t, t3, r, j) && own3[r] == own[r];
    }
    forall r, p | IsRoot(own, r) && IsPath(p)
      ensures Get(t', r, p) == if p == q && SameSlot(t, r, c, q[0]) then e else Get(t, r, p)
    {
      assert WalkFrom(own, r, p) && own3[r] == own[r];
      GetAfterLeafWrite(t3, own3, r, p, pt, q[3], e);
      if p[3] == q[3] {
        VisitsLast(t3, own3, c, r, p, pdpt, pdt, pt, q);
        assert EntryKept(t, t3, r, q[0]) && ChildOwned(t, own, r, q[0]);
        assert r == c || EntrySame(t, t3, r, q[0]);
      }
    }
  }

  // ---- Fork ------------------------------------------------------------------------------

  /** What fork leaves in the parent's last-level entry, and what it puts in the child's. */
  function Marked(e: Entry): Entry { if e.Present() then Entry(e.frame, SHARED) else e }
  function Copied(e: Entry): Entry { if e.Present() then Entry(e.frame, SHARED) else ZERO }

  /** Interior tables hanging below the first `k` entries of `f`, with `n` levels from `f` down. */
  ghost function TablesBelow(t: Tables, f: nat, n: nat, k: nat): nat
    requires k <= 512
    decreases n, k
  {
    if n <= 1 || k == 0 || f !in t then 0
    else
      TablesBelow(t, f, n, k - 1)
      + if t[f][k - 1].Present() then 1 + TablesBelow(t, t[f][k - 1].frame, n - 1, 512) else 0
  }

  /** copy_page_tables_forchild, from root `p` into the new root `c`. */
  ghost predicate ForkStep(t: Tables, own: Owner, t': Tables, own': Owner, p: nat, c: nat) {
    && TreeShaped(t, own) && TreeShaped(t', own') && IsRoot(own, p) && c !in own
    && (forall r :: IsRoot(own', r) <==> IsRoot(own, r) || r == c)
    && (forall r, i :: IsRoot(own, r) && 0 <= i < 512 ==> EntrySame(t, t', r, i))
    && (forall r, x :: IsRoot(own, r) && IsPath(x) ==>
          Get(t', r, x) == if x[0] < 510 && SameSlot(t, r, p, x[0]) then Marked(Get(t, r, x)) else Get(t, r, x))
    && (forall x :: IsPath(x) ==> Get(t', c, x) == if x[0] < 510 then Copied(Get(t, p, x)) else Get(t, p, x))
    && (forall i :: 0 <= i < 512 ==> ChildSlot(t, own, t', p, c, i))
  }

  /** What map_process leaves in the entry of its page: the frame it was given, with P, W and U. */
  lemma MappedFlags(t: Tables, own: Owner, t': Tables, own': Owner, c: nat, q: seq<nat>, word: Entry)
    requires IsPath(q) && MapStep(t, own, t', own', c, q, word.Or(LINK))
    ensures Get(t', c, q).frame == word.frame && Get(t', c, q).flags & 0x007 == 0x007
    ensures word.flags == 0 ==> Get(t', c, q).flags == 0x007
  {
    var f := word.flags;
    assert (f | 0x007) & 0x007 == 0x007;
    assert f == 0 ==> f | 0x007 == 0x007;
    FlagBits(word.Or(LINK));
    hide TreeShaped, Get;
  }

  /** What fork leaves in parent and child: every page present below PML4 index 510 is in both
      afterwards, in its old frame, present, for the user, copy-on-write, and not writable. */
  lemma ForkedFlags(t: Tables, own: Owner, t': Tables, own': Owner, p: nat, c: nat, x: seq<nat>)
    requires ForkStep(t, own, t', own', p, c) && IsPath(x) && x[0] < 510
    ensures Get(t, p, x).Present() ==>
      && Get(t', p, x).frame == Get(t', c, x).frame == Get(t, p, x).frame
      && Get(t', p, x).flags == Get(t', c, x).flags == 0x105
    ensures !Get(t, p, x).Present() ==> Get(t', p, x) == Get(t, p, x) && !Get(t', c, x).Present()
  {
    FlagBits(ZERO);
    hide TreeShaped, Get;
  }

  /** PML4 entries of the child: fresh tables below 510, the parent's own entries from there on. */
  ghost predicate ChildSlot(t: Tables, own: Owner, t': Tables, p: nat, c: nat, i: nat)
    requires i < 512
  {
    && p in t && c in t'
    && if i < 510 then t'[c][i].Present() == t[p][i].Present() && (t'[c][i].Present() ==> t'[c][i].frame !in own)
       else t'[c][i] == t[p][i]
  }

  /** From PML4 index 510 on, fork leaves both with what the parent had, entry by entry and page by page. */
  lemma ForkedKernelHalf(t: Tables, own: Owner, t': Tables, own': Owner, p: nat, c: nat, x: seq<nat>)
    requires ForkStep(t, own, t', own', p, c) && IsPath(x) && x[0] >= 510
    ensures p in t && c in t' && p in t'
    ensures t'[c][510] == t'[p][510] == t[p][510] && t'[c][511] == t'[p][511] == t[p][511]
    ensures Get(t', c, x) == Get(t', p, x) == Get(t, p, x)
  {
    hide TreeShaped, Get;
    assert ChildSlot(t, own, t', p, c, 510) && ChildSlot(t, own, t', p, c, 511);
    assert EntrySame(t, t', p, 510) && EntrySame(t, t', p, 511);
  }

  /** Table `f` hangs at or below index `i` of `g`. */
  ghost predicate Under(own: Owner, f: nat, g: nat, i: nat)
    requires f in own && g in own
  {
    own[f].top == own[g].top && own[g].path + [i] <= own[f].path
  }

  /** A walk through index `x[0]` of `g` is kept when that entry and the tables under it are. */
  lemma BranchKept(t: Tables, t': Tables, own: Owner, g: nat, x: seq<nat>)
    requires TreeShaped(t, own) && g in own && own[g].path != [] && WalkFrom(own, g, x)
    requires g in t' && t'[g][x[0]] == t[g][x[0]]
    requires forall f :: f in own && Under(own, f, g, x[0]) ==> f in t' && t'[f] == t[f]
    ensures Get(t', g, x) == Get(t, g, x)
  {
    if |x| > 1 && t[g][x[0]].Present() {
      assert ChildOwned(t, own, g, x[0]);
      var c := t[g][x[0]].frame;
      forall f | f in own && Visits(t, c, x[1..], f)
        ensures f in t' && t'[f] == t[f]
      {
        VisitsPlaced(t, own, c, x[1..], f);
        assert Under(own, f, g, x[0]);
      }
      GetDependsOnVisited(t, t', own, c, x[1..]);
    }
  }

  lemma {:induction false} TablesBelowKept(t: Tables, t': Tables, own: Owner, f: nat, n: nat, k: nat)
    requires TreeShaped(t, own) && f in own && own[f].path != [] && |own[f].path| + n == 4 && k <= 512
    requires forall g :: IsInner(own, g) && own[g].path != [] && own[g].top == own[f].top ==> g in t' && t'[g] == t[g]
    ensures TablesBelow(t', f, n, k) == TablesBelow(t, f, n, k)
    decreases n, k
  {
    if n > 1 && k > 0 {
      assert ChildOwned(t, own, f, k - 1);
      TablesBelowKept(t, t', own, f, n, k - 1);
      if t[f][k - 1].Present() {
        TablesBelowKept(t, t', own, t[f][k - 1].frame, n - 1, 512);
      }
    }
  }

  /** New tables come off the free list and hang strictly below `c`. */
  ghost predicate CopyGrows(own: Owner, own': Owner, c: nat, path: seq<nat>, free: seq<nat>)
    requires c in own
  {
    && (forall f :: f in own ==> f in own' && own'[f] == own[f])
    && (forall f :: f in own' && f !in own ==> f in free && own'[f].top == own[c].top && path <= own'[f].path)
  }

  /** Table `f` is as it was, unless it is a last-level table below one of the first `k` entries
      of `p` (or `p` itself, when `p` is a last-level table). */
  ghost predicate CopyKeeps(t: Tables, t': Tables, own: Owner, f: nat, p: nat, k: nat)
    requires f in own && p in own
  {
    && f in t && f in t'
    && (t'[f] == t[f]
        || (|own[f].path| == 3 && own[f].top == own[p].top && own[p].path <= own[f].path
            && (|own[p].path| < 3 ==> own[f].path[|own[p].path|] < k)))
  }

  /** The same for the one entry `i` of an inner table `p`. */
  ghost predicate EntryKeeps(t: Tables, t': Tables, own: Owner, f: nat, p: nat, i: nat)
    requires f in own && p in own
  {
    f in t && f in t' && (t'[f] == t[f] || (|own[f].path| == 3 && Under(own, f, p, i)))
  }

  /** The walk `x` has been copied from `p` to `c`. */
  ghost predicate CopiedWalk(t: Tables, t': Tables, p: nat, c: nat, x: seq<nat>)
    requires x != [] && Indices(x)
  {
    Get(t', p, x) == Marked(Get(t, p, x)) && Get(t', c, x) == Copied(Get(t, p, x))
  }

  /** Everything but entry `i` of `p` and of its copy `c` is left alone, and that entry is copied. */
  ghost predicate EntryCopied(t: Tables, own: Owner, t': Tables, own': Owner, p: nat, c: nat, i: nat, free: seq<nat>)
    requires p in own && c in own && i < 512
  {
    && c in t && c in t'
    && CopyGrows(own, own', c, own[c].path + [i], free)
    && (forall f :: f in own && f != c ==> EntryKeeps(t, t', own, f, p, i))
    && (forall j :: 0 <= j < 512 && j != i ==> t'[c][j] == t[c][j])
    && (forall x :: WalkFrom(own, p, x) && x[0] == i ==> CopiedWalk(t, t', p, c, x))
  }

  /** The first `k` entries of `p` have been copied to `c`. */
  ghost predicate PrefixCopied(t: Tables, own: Owner, t': Tables, own': Owner, p: nat, c: nat, k: nat, free: seq<nat>)
    requires p in own && c in own
  {
    && c in t && c in t'
    && CopyGrows(own, own', c, own[c].path, free)
    && (forall f :: f in own && f != c ==> CopyKeeps(t, t', own, f, p, k))
    && (forall j :: k <= j < 512 ==> t'[c][j] == ZERO)
    && (forall x :: WalkFrom(own, p, x) && x[0] < k ==> CopiedWalk(t, t', p, c, x))
  }

  /** Tables needed to copy entry `i` of `f`. */
  ghost function TablesAt(t: Tables, f: nat, n: nat, i: nat): nat
    requires i < 512
  {
    if n > 1 && f in t && t[f][i].Present() then 1 + TablesBelow(t, t[f][i].frame, n - 1, 512) else 0
  }

  lemma {:induction false} TablesBelowMonotone(t: Tables, f: nat, n: nat, i: nat, k: nat)
    requires i <= k <= 512
    ensures TablesBelow(t, f, n, i) <= TablesBelow(t, f, n, k)
    decreases k
  {
    if i < k { TablesBelowMonotone(t, f, n, i, k - 1); }
  }

  ghost function Drop<T>(s: seq<T>, n: nat): seq<T> {
    if n <= |s| then s[n..] else []
  }

  lemma DropNone<T>(s: seq<T>)
    ensures Drop(s, 0) == s
  {
  }

  lemma DropOne<T>(s: seq<T>, n: nat)
    requires s != []
    ensures Drop(s[1..], n) == Drop(s, 1 + n)
  {
  }

  /** Hanging a table under `c` leaves what is below entry `i` of `p` to be copied. */
  lemma BudgetAfterLink(t: Tables, own: Owner, p: nat, i: nat, c: nat, n: nat, cc: nat)
    requires TreeShaped(t, own) && IsInner(own, p) && IsInner(own, c) && i < 512 && t[p][i].Present()
    requires |own[p].path| + n == 4 && p != c
    requires if own[p].path == [] then own[c].path == [] else own[c].path != [] && own[c].top != own[p].top
    ensures TablesAt(t[c := t[c][i := Entry(cc, LINK)]], p, n, i) == TablesAt(t, p, n, i)
         == 1 + TablesBelow(t[c := t[c][i := Entry(cc, LINK)]], t[p][i].frame, n - 1, 512)
  {
    assert ChildOwned(t, own, p, i);
    TablesBelowKept(t, t[c := t[c][i := Entry(cc, LINK)]], own, t[p][i].frame, n - 1, 512);
  }

  lemma TablesAtKept(t0: Tables, own0: Owner, t: Tables, own: Owner, p: nat, c: nat, i: nat, level: nat, free: seq<nat>)
    requires TreeShaped(t0, own0) && CopyPair(own0, p, c, level) && level >= 2 && i < 512
    requires PrefixCopied(t0, own0, t, own, p, c, i, free)
    ensures CopyPair(own, p, c, level) && c in t && t[c][i] == ZERO
    ensures TablesBelow(t0, p, level, i) + TablesAt(t, p, level, i) == TablesBelow(t0, p, level, i + 1)
    ensures TablesBelow(t0, p, level, i + 1) <= TablesBelow(t0, p, level, 512)
  {
    TablesBelowMonotone(t0, p, level, i + 1, 512);
    assert CopyKeeps(t0, t, own0, p, p, i) && ChildOwned(t0, own0, p, i);
    if t0[p][i].Present() {
      forall g | IsInner(own0, g) && own0[g].path != [] && own0[g].top == own0[p].top
        ensures g in t && t[g] == t0[g]
      {
        assert CopyKeeps(t0, t, own0, g, p, i);
      }
      TablesBelowKept(t0, t, own0, t0[p][i].frame, level - 1, 512);
    }
  }

  ghost predicate CopyPair(own: Owner, p: nat, c: nat, level: nat) {
    && p in own && c in own && 1 <= level <= 3
    && |own[p].path| == |own[c].path| == 4 - level && own[p].top != own[c].top
  }

  lemma AbsentEntryCopied(t: Tables, own: Owner, p: nat, c: nat, i: nat, level: nat, free: seq<nat>)
    requires TreeShaped(t, own) && CopyPair(own, p, c, level) && level >= 2 && i < 512
    requires !t[p][i].Present() && t[c][i] == ZERO
    ensures EntryCopied(t, own, t, own, p, c, i, free)
  {
  }

  lemma PresentEntryCopied(t: Tables, own: Owner, t1: Tables, own1: Owner, t2: Tables, own2: Owner,
                           p: nat, c: nat, i: nat, level: nat, cc: nat, free: seq<nat>)
    requires TreeShaped(t, own) && CopyPair(own, p, c, level) && level >= 2 && i < 512
    requires t[p][i].Present() && t[c][i] == ZERO && free != [] && cc == free[0]
    requires cc !in own && cc in t && t[cc] == EMPTY
    requires t1 == t[c := t[c][i := Entry(cc, LINK)]] && own1 == own[cc := ChildPlace(own[c], cc, i)]
    requires t[p][i].frame in own1 && PrefixCopied(t1, own1, t2, own2, t[p][i].frame, cc, 512, free[1..])
    ensures EntryCopied(t, own, t2, own2, p, c, i, free)
  {
    var e := t[p][i].frame;
    assert ChildOwned(t, own, p, i);
    assert CopyKeeps(t1, t2, own1, c, e, 512) && CopyKeeps(t1, t2, own1, p, e, 512);
    assert Entry(cc, LINK).Present();
    forall f | f in own && f != c
      ensures EntryKeeps(t, t2, own, f, p, i)
    {
      assert CopyKeeps(t1, t2, own1, f, e, 512);
    }
    forall x | WalkFrom(own, p, x) && x[0] == i
      ensures CopiedWalk(t, t2, p, c, x)
    {
      assert WalkFrom(own1, e, x[1..]);
      assert CopiedWalk(t1, t2, e, cc, x[1..]);
      GetAfterLink(t, own, e, x[1..], c, i, cc);
    }
  }

  lemma NothingCopied(t: Tables, own: Owner, p: nat, c: nat, level: nat, free: seq<nat>)
    requires TreeShaped(t, own) && p in own && c in own && t[c] == EMPTY
    ensures PrefixCopied(t, own, t, own, p, c, 0, free) && TablesBelow(t, p, level, 0) == 0
  {
  }

  lemma PtCopied(t: Tables, t': Tables, own: Owner, p: nat, c: nat, free: seq<nat>)
    requires TreeShaped(t, own) && CopyPair(own, p, c, 1) && t'.Keys == t.Keys
    requires forall l :: 0 <= l < 512 ==> t'[p][l] == Marked(t[p][l])
    requires forall l :: 0 <= l < 512 ==> t'[c][l] == Copied(t[p][l])
    requires forall f :: f in t && f != p && f != c ==> t'[f] == t[f]
    ensures PrefixCopied(t, own, t', own, p, c, 512, free)
  {
  }

  lemma PrefixExtended(t0: Tables, own0: Owner, t: Tables, own: Owner, t': Tables, own': Owner,
                       p: nat, c: nat, i: nat, level: nat, free0: seq<nat>, free: seq<nat>)
    requires TreeShaped(t0, own0) && TreeShaped(t, own) && CopyPair(own0, p, c, level) && level >= 2 && i < 512
    requires PrefixCopied(t0, own0, t, own, p, c, i, free0)
    requires EntryCopied(t, own, t', own', p, c, i, free) && forall f :: f in free ==> f in free0
    ensures PrefixCopied(t0, own0, t', own', p, c, i + 1, free0)
  {
    forall f | f in own0 && f != c
      ensures CopyKeeps(t0, t', own0, f, p, i + 1)
    {
      assert CopyKeeps(t0, t, own0, f, p, i) && EntryKeeps(t, t', own, f, p, i);
    }
    assert CopyKeeps(t0, t, own0, p, p, i) && EntryKeeps(t, t', own, p, p, i);
    forall x | WalkFrom(own0, p, x) && x[0] <= i
      ensures CopiedWalk(t0, t', p, c, x)
    {
      assert WalkFrom(own, p, x) && WalkFrom(own, c, x);
      if x[0] == i {
        forall f | f in own0 && Under(own0, f, p, i)
          ensures f in t && t[f] == t0[f]
        {
          assert CopyKeeps(t0, t, own0, f, p, i);
        }
        BranchKept(t0, t, own0, p, x);
        assert CopiedWalk(t, t', p, c, x);
      } else {
        forall f | f in own && (Under(own, f, p, x[0]) || Under(own, f, c, x[0]))
          ensures f in t' && t'[f] == t[f]
        {
          assert EntryKeeps(t, t', own, f, p, i);
        }
        BranchKept(t, t', own, p, x);
        BranchKept(t, t', own, c, x);
        assert CopiedWalk(t0, t, p, c, x);
      }
    }
  }

  /** The first `k` PML4 entries of root `p` have been copied to root `c`. */
  ghost predicate RootPrefixCopied(t: Tables, own: Owner, t': Tables, own': Owner, p: nat, c: nat, k: nat,
                                   free: seq<nat>) {
    && c in t && c in t'
    && (forall f :: f in own ==> f in own' && own'[f] == own[f])
    && (forall f :: f in own' && f !in own ==> f in free && own'[f].path != [])
    && (forall f :: f in own && f != c ==> RootKeeps(t, t', own, p, f, k))
    && (forall j :: 0 <= j < k && j < 510 ==> ChildSlot(t, own, t', p, c, j))
    && (forall j :: k <= j < 512 ==> t'[c][j] == ZERO)
    && (forall x :: IsPath(x) && x[0] < k ==> CopiedWalk(t, t', p, c, x))
  }

  /** Table `f` is as it was, unless it is a last-level table under one of the first `k` entries of `p`. */
  ghost predicate RootKeeps(t: Tables, t': Tables, own: Owner, p: nat, f: nat, k: nat)
    requires f in own
  {
    && f in t && f in t' && p in t
    && (t'[f] == t[f] || (|own[f].path| == 3 && own[f].path[0] < k && HangsFrom(t, own, p, f)))
  }

  /** The top-level table above `f` is the one root `r` holds for that index. */
  ghost predicate HangsFrom(t: Tables, own: Owner, r: nat, f: nat)
    requires f in own && r in t
  {
    && own[f].path != [] && own[f].path[0] < 512
    && t[r][own[f].path[0]].Present() && t[r][own[f].path[0]].frame == own[f].top
  }

  /** A walk from a root is kept when the tables it can reach for that PML4 index are. */
  lemma RootBranchKept(t: Tables, t': Tables, own: Owner, r: nat, x: seq<nat>)
    requires TreeShaped(t, own) && IsRoot(own, r) && IsPath(x)
    requires r in t' && t'[r][x[0]] == t[r][x[0]]
    requires forall f :: f in own && HangsFrom(t, own, r, f) && own[f].path[0] == x[0] ==> f in t' && t'[f] == t[f]
    ensures Get(t', r, x) == Get(t, r, x)
  {
    assert ChildOwned(t, own, r, x[0]);
    if t[r][x[0]].Present() {
      var c := t[r][x[0]].frame;
      forall f | f in own && Visits(t, c, x[1..], f)
        ensures f in t' && t'[f] == t[f]
      {
        VisitsPlaced(t, own, c, x[1..], f);
        assert HangsFrom(t, own, r, f);
      }
      GetDependsOnVisited(t, t', own, c, x[1..]);
    }
  }

  /** What one PML4 entry's copy leaves alone. */
  ghost predicate SlotCopied(t: Tables, own: Owner, t': Tables, own': Owner, p: nat, c: nat, i: nat, free: seq<nat>)
    requires i < 510
  {
    && c in t && c in t' && p in t
    && (forall f :: f in own ==> f in own' && own'[f] == own[f])
    && (forall f :: f in own' && f !in own ==> f in free && own'[f].path != [])
    && (forall f :: f in own && f != c ==>
          && f in t && f in t'
          && (t'[f] == t[f] || (|own[f].path| == 3 && own[f].path[0] == i && HangsFrom(t, own, p, f))))
    && (forall j :: 0 <= j < 512 && j != i ==> t'[c][j] == t[c][j])
    && ChildSlot(t, own, t', p, c, i)
    && (forall x :: IsPath(x) && x[0] == i ==> CopiedWalk(t, t', p, c, x))
  }

  lemma PresentSlotCopied(t: Tables, own: Owner, t1: Tables, own1: Owner, t2: Tables, own2: Owner,
                          p: nat, c: nat, i: nat, cc: nat, free: seq<nat>)
    requires TreeShaped(t, own) && IsRoot(own, p) && IsRoot(own, c) && p != c && i < 510
    requires t[p][i].Present() && t[c][i] == ZERO && free != [] && cc == free[0]
    requires cc !in own && cc in t && t[cc] == EMPTY
    requires t1 == t[c := t[c][i := Entry(cc, LINK)]] && own1 == own[cc := ChildPlace(own[c], cc, i)]
    requires t[p][i].frame in own1 && PrefixCopied(t1, own1, t2, own2, t[p][i].frame, cc, 512, free[1..])
    ensures SlotCopied(t, own, t2, own2, p, c, i, free)
  {
    var e := t[p][i].frame;
    assert ChildOwned(t, own, p, i);
    assert CopyKeeps(t1, t2, own1, c, e, 512) && CopyKeeps(t1, t2, own1, p, e, 512);
    assert Entry(cc, LINK).Present();
    forall f | f in own && f != c
      ensures f in t && f in t2
      ensures t2[f] == t[f] || (|own[f].path| == 3 && own[f].path[0] == i && HangsFrom(t, own, p, f))
    {
      assert CopyKeeps(t1, t2, own1, f, e, 512);
    }
    forall x | IsPath(x) && x[0] == i
      ensures CopiedWalk(t, t2, p, c, x)
    {
      assert WalkFrom(own1, e, x[1..]);
      assert CopiedWalk(t1, t2, e, cc, x[1..]);
      GetAfterLink(t, own, e, x[1..], c, i, cc);
    }
  }

  lemma RootPrefixExtended(t0: Tables, own0: Owner, t: Tables, own: Owner, t': Tables, own': Owner,
                           p: nat, c: nat, i: nat, free0: seq<nat>, free: seq<nat>)
    requires TreeShaped(t0, own0) && TreeShaped(t, own) && IsRoot(own0, p) && IsRoot(own0, c) && p != c && i < 510
    requires RootPrefixCopied(t0, own0, t, own, p, c, i, free0)
    requires SlotCopied(t, own, t', own', p, c, i, free) && forall f :: f in free ==> f in free0
    ensures RootPrefixCopied(t0, own0, t', own', p, c, i + 1, free0)
  {
    assert RootKeeps(t0, t, own0, p, p, i);
    forall j | 0 <= j < i + 1 && j < 510
      ensures ChildSlot(t0, own0, t', p, c, j)
    {
      assert j < i ==> ChildSlot(t0, own0, t, p, c, j);
    }
    forall f | f in own0 && f != c
      ensures RootKeeps(t0, t', own0, p, f, i + 1)
    {
      assert RootKeeps(t0, t, own0, p, f, i);
    }
    forall x | IsPath(x) && x[0] < i + 1
      ensures CopiedWalk(t0, t', p, c, x)
    {
      if x[0] == i {
        forall f | f in own0 && HangsFrom(t0, own0, p, f) && own0[f].path[0] == i
          ensures f in t && t[f] == t0[f]
        {
          assert RootKeeps(t0, t, own0, p, f, i);
        }
        RootBranchKept(t0, t, own0, p, x);
        assert CopiedWalk(t, t', p, c, x);
      } else {
        RootBranchKept(t, t', own, p, x);
        RootBranchKept(t, t', own, c, x);
        assert CopiedWalk(t0, t, p, c, x);
      }
    }
  }

  lemma RootNothingCopied(t: Tables, own: Owner, p: nat, c: nat, free: seq<nat>)
    requires TreeShaped(t, own) && IsRoot(own, p) && IsRoot(own, c) && t[c] == EMPTY
    ensures RootPrefixCopied(t, own, t, own, p, c, 0, free) && TablesBelow(t, p, 4, 0) == 0
  {
  }

  lemma AbsentSlotCopied(t: Tables, own: Owner, p: nat, c: nat, i: nat, free: seq<nat>)
    requires TreeShaped(t, own) && IsRoot(own, p) && IsRoot(own, c) && p != c && i < 510
    requires !t[p][i].Present() && t[c][i] == ZERO
    ensures SlotCopied(t, own, t, own, p, c, i, free)
  {
  }

  lemma RootPrefixBudget(t0: Tables, own0: Owner, t: Tables, own: Owner, p: nat, c: nat, i: nat, free: seq<nat>)
    requires TreeShaped(t0, own0) && IsRoot(own0, p) && IsRoot(own0, c) && p != c && i < 510
    requires RootPrefixCopied(t0, own0, t, own, p, c, i, free)
    ensures c in t && t[c][i] == ZERO && IsRoot(own, c)
    ensures TablesBelow(t0, p, 4, i) + TablesAt(t, p, 4, i) == TablesBelow(t0, p, 4, i + 1)
    ensures TablesBelow(t0, p, 4, i + 1) <= TablesBelow(t0, p, 4, 510)
  {
    TablesBelowMonotone(t0, p, 4, i + 1, 510);
    assert RootKeeps(t0, t, own0, p, p, i) && ChildOwned(t0, own0, p, i);
    if t0[p][i].Present() {
      forall g | IsInner(own0, g) && own0[g].path != [] && own0[g].top == t0[p][i].frame
        ensures g in t && t[g] == t0[g]
      {
        assert RootKeeps(t0, t, own0, p, g, i);
      }
      TablesBelowKept(t0, t, own0, t0[p][i].frame, 3, 512);
    }
  }

  /** All 510 slots copied, then the two shared ones. */
  lemma ForkStepDone(t0: Tables, own0: Owner, t: Tables, own: Owner, p: nat, c: nat, free: seq<nat>)
    requires TreeShaped(t0, own0) && TreeShaped(t, own) && IsRoot(own0, p) && c !in own0 && c in t0
    requires TreeShaped(t0, own0[c := Place(c, [])])
    requires RootPrefixCopied(t0, own0[c := Place(c, [])], t, own, p, c, 510, free)
    ensures p in t && c in t && IsRoot(own, c) && forall f :: f in own && f !in own0 && f != c ==> f in free
    ensures TreeShaped(t[c := t[c][511 := t[p][511]][510 := t[p][510]]], own)
    ensures ForkStep(t0, own0, t[c := t[c][511 := t[p][511]][510 := t[p][510]]], own, p, c)
  {
    assert p in t;
    var t' := t[c := t[c][511 := t[p][511]][510 := t[p][510]]];
    var own1 := own0[c := Place(c, [])];
    assert RootKeeps(t0, t, own1, p, p, 510);
    forall f, j | IsInner(own, f) && 0 <= j < 512
      ensures ChildOwned(t', own, f, j)
    {
      assert ChildOwned(t, own, f, j) && ChildOwned(t, own, p, j);
    }
    forall r, i | IsRoot(own0, r) && 0 <= i < 512
      ensures EntrySame(t0, t', r, i)
    {
      assert RootKeeps(t0, t, own1, p, r, 510);
    }
    forall i | 0 <= i < 512
      ensures ChildSlot(t0, own0, t', p, c, i)
    {
      assert i < 510 ==> ChildSlot(t0, own1, t, p, c, i);
    }
    forall r, x | IsRoot(own0, r) && IsPath(x)
      ensures Get(t', r, x) == if x[0] < 510 && SameSlot(t0, r, p, x[0]) then Marked(Get(t0, r, x)) else Get(t0, r, x)
    {
      ForkedWalk(t0, own1, t, own, t', p, c, r, x, free);
    }
    forall x | IsPath(x)
      ensures Get(t', c, x) == if x[0] < 510 then Copied(Get(t0, p, x)) else Get(t0, p, x)
    {
      if x[0] < 510 {
        RootBranchKept(t, t', own, c, x);
        assert CopiedWalk(t0, t, p, c, x);
      } else {
        ForkedWalk(t0, own1, t, own, t', p, c, p, x, free);
      }
    }
  }

  lemma ForkedWalk(t0: Tables, own1: Owner, t: Tables, own: Owner, t': Tables, p: nat, c: nat, r: nat,
                   x: seq<nat>, free: seq<nat>)
    requires TreeShaped(t0, own1) && TreeShaped(t, own) && IsRoot(own1, p) && IsRoot(own1, c) && p != c
    requires RootPrefixCopied(t0, own1, t, own, p, c, 510, free)
    requires t' == t[c := t[c][511 := t[p][511]][510 := t[p][510]]]
    requires IsRoot(own1, r) && r != c && IsPath(x)
    ensures Get(t', r, x) == if x[0] < 510 && SameSlot(t0, r, p, x[0]) then Marked(Get(t0, r, x)) else Get(t0, r, x)
  {
    assert RootKeeps(t0, t, own1, p, p, 510) && RootKeeps(t0, t, own1, p, r, 510);
    RootBranchKept(t, t', own, r, x);
    if x[0] < 510 && SameSlot(t0, r, p, x[0]) {
      assert CopiedWalk(t0, t, p, c, x);
      assert Get(t, r, x) == Get(t, p, x) && Get(t0, r, x) == Get(t0, p, x);
    } else {
      forall f | f in own1 && HangsFrom(t0, own1, r, f) && own1[f].path[0] == x[0]
        ensures f in t && t[f] == t0[f]
      {
        assert RootKeeps(t0, t, own1, p, f, 510);
      }
      RootBranchKept(t0, t, own1, r, x);
    }
  }

  // ---- set_user_AddrSpace ----------------------------------------------------------------

  /** The new root `n` holds root `c`'s entries, all 512 of them. */
  ghost predicate CloneStep(t: Tables, own: Owner, t': Tables, own': Owner, c: nat, n: nat) {
    && TreeShaped(t, own) && TreeShaped(t', own') && IsRoot(own, c) && n !in own
    && t' == t[n := t[c]] && own' == own[n := Place(n, [])]
  }

  /** Cloning changes no translation and gives the new root the old one's. */
  lemma CloneTranslates(t: Tables, own: Owner, t': Tables, own': Owner, c: nat, n: nat, r: nat, x: seq<nat>)
    requires CloneStep(t, own, t', own', c, n) && IsRoot(own, r) && IsPath(x)
    ensures Get(t', r, x) == Get(t, r, x) && Get(t', n, x) == Get(t, c, x)
  {
    RootBranchKept(t, t', own, r, x);
    RootBranchKept(t, t', own, c, x);
  }

  lemma TreeWithClone(t: Tables, own: Owner, c: nat, n: nat)
    requires TreeShaped(t, own) && IsRoot(own, c) && n !in own
    ensures CloneStep(t, own, t[n := t[c]], own[n := Place(n, [])], c, n)
  {
    var t', own' := t[n := t[c]], own[n := Place(n, [])];
    forall f, j | IsInner(own', f) && 0 <= j < 512
      ensures ChildOwned(t', own', f, j)
    {
      assert ChildOwned(t, own, if f == n then c else f, j);
    }
  }
}
