/** Four-level page tables as values: the walk (section 4.5 of the Intel 64 and IA-32
    Architectures SDM, Volume 3A), the shape that sys/phymap.c keeps, and what single table
    writes do to every translation. */
module Paging {

  const PTE_P: bv12 := 0x001
  const PTE_W: bv12 := 0x002
  const PTE_U: bv12 := 0x004
  const PTE_COW: bv12 := 0x100

  /** A 64-bit entry: the frame number (bits 12 up) and the low twelve bits. */
  datatype Entry = Entry(frame: nat, flags: bv12) {
    predicate Present() { flags & PTE_P != 0 }
    predicate Writable() { flags & PTE_W != 0 }
    predicate User() { flags & PTE_U != 0 }
    predicate Cow() { flags & PTE_COW != 0 }
    /** Present, writable and for the user. */
    predicate Open() { flags & LINK == LINK }
    function Or(bits: bv12): Entry { Entry(frame, flags | bits) }
  }

  const ZERO := Entry(0, 0)
  const LINK: bv12 := PTE_P | PTE_W | PTE_U
  const SHARED: bv12 := PTE_P | PTE_U | PTE_COW

  type Table = s: seq<Entry> | |s| == 512 witness seq(512, _ => ZERO)
  type Tables = map<nat, Table>

  /** The flag bits of sys/phymap.h, as numbers: an entry is present, writable, for the user or
      copy-on-write by bits 0, 1, 2 and 8. */
  lemma FlagBits(e: Entry)
    ensures e.Present() <==> e.flags & 0x001 == 0x001
    ensures e.Writable() <==> e.flags & 0x002 == 0x002
    ensures e.User() <==> e.flags & 0x004 == 0x004
    ensures e.Cow() <==> e.flags & 0x100 == 0x100
    ensures e.Open() <==> e.Present() && e.Writable() && e.User()
    ensures LINK == 0x007 && SHARED == 0x105
  {
    var f := e.flags;
    assert f & 0x001 == 0 || f & 0x001 == 0x001;
    assert f & 0x002 == 0 || f & 0x002 == 0x002;
    assert f & 0x004 == 0 || f & 0x004 == 0x004;
    assert f & 0x100 == 0 || f & 0x100 == 0x100;
    assert f & 0x007 == 0x007 <==> f & 0x001 == 0x001 && f & 0x002 == 0x002 && f & 0x004 == 0x004;
  }

  lemma LinkIsOpen(f: nat)
    ensures Entry(f, LINK).Open() && Entry(f, LINK).Present() && Entry(f, LINK).Writable() && Entry(f, LINK).User()
  {
    FlagBits(Entry(f, LINK));
  }

  const EMPTY: Table := seq(512, _ => ZERO)

  // ---- Addresses -------------------------------------------------------------------------

  /** getPML4Index, getPDPTIndex, getPDTIndex and getPTIndex of an address, in walking order. */
  function PathOf(addr: nat): (path: seq<nat>)
    ensures IsPath(path)
  {
    [addr / 0x80_0000_0000 % 512, addr / 0x4000_0000 % 512, addr / 0x20_0000 % 512, addr / 0x1000 % 512]
  }

  predicate IsPath(path: seq<nat>) {
    |path| == 4 && Indices(path)
  }

  predicate Indices(path: seq<nat>) {
    forall i :: 0 <= i < |path| ==> path[i] < 512
  }

  /** Bits 12 to 47 of any address with these indices. */
  function PageNumber(path: seq<nat>): (n: nat)
    requires IsPath(path)
    ensures n < 0x10_0000_0000
  {
    ((path[0] * 512 + path[1]) * 512 + path[2]) * 512 + path[3]
  }

  lemma DigitsUnique(x: nat, a: nat, y: nat, b: nat)
    requires a < 512 && b < 512 && x * 512 + a == y * 512 + b
    ensures x == y && a == b
  {
  }

  lemma NestedDivision(addr: nat)
    ensures addr / 0x20_0000 == addr / 0x1000 / 512
    ensures addr / 0x4000_0000 == addr / 0x20_0000 / 512
    ensures addr / 0x80_0000_0000 == addr / 0x4000_0000 / 512
  {
  }

  lemma LowBits(z: nat, p: nat)
    requires p < 0x10_0000_0000
    ensures (z * 0x10_0000_0000 + p) % 0x10_0000_0000 == p
  {
  }

  /** The four indices spell bits 12 to 47 of the address. */
  lemma PathIsPageNumber(addr: nat)
    ensures PageNumber(PathOf(addr)) == addr / 0x1000 % 0x10_0000_0000
  {
    NestedDivision(addr);
    LowBits(addr / 0x80_0000_0000 / 512, PageNumber(PathOf(addr)));
  }

  lemma PathUnique(p: seq<nat>, q: seq<nat>)
    requires IsPath(p) && IsPath(q) && PageNumber(p) == PageNumber(q)
    ensures p == q
  {
    DigitsUnique((p[0] * 512 + p[1]) * 512 + p[2], p[3], (q[0] * 512 + q[1]) * 512 + q[2], q[3]);
    DigitsUnique(p[0] * 512 + p[1], p[2], q[0] * 512 + q[1], q[2]);
    DigitsUnique(p[0], p[1], q[0], q[1]);
  }

  lemma SamePathIffSamePage(a: nat, b: nat)
    ensures PathOf(a) == PathOf(b) <==> a / 0x1000 % 0x10_0000_0000 == b / 0x1000 % 0x10_0000_0000
  {
    PathIsPageNumber(a);
    PathIsPageNumber(b);
    if PageNumber(PathOf(a)) == PageNumber(PathOf(b)) {
      PathUnique(PathOf(a), PathOf(b));
    }
  }

  // ---- The walk --------------------------------------------------------------------------

  /** The entry reached from table `f` along `path`; ZERO when an upper level is absent. */
  ghost function Get(t: Tables, f: nat, path: seq<nat>): Entry
    requires path != [] && Indices(path)
    decreases |path|
  {
    if f !in t then ZERO
    else if |path| == 1 then t[f][path[0]]
    else if !t[f][path[0]].Present() then ZERO
    else Get(t, t[f][path[0]].frame, path[1..])
  }

  /** The walk from `f` along `path` reads table `g`. */
  ghost predicate Visits(t: Tables, f: nat, path: seq<nat>, g: nat)
    requires path != [] && Indices(path)
    decreases |path|
  {
    f == g || (f in t && |path| > 1 && t[f][path[0]].Present() && Visits(t, t[f][path[0]].frame, path[1..], g))
  }

  // ---- Tree shape ------------------------------------------------------------------------

  /** Where a table hangs: below which top-level (PDPT) table, and the indices leading to it,
      the PML4 index first. A root has no indices. PDPTs may be shared between roots, but only
      under one PML4 index; everything below a PDPT hangs in one place. */
  datatype Place = Place(top: nat, path: seq<nat>)

  type Owner = map<nat, Place>

  ghost function ChildPlace(p: Place, child: nat, i: nat): Place {
    Place(if p.path == [] then child else p.top, p.path + [i])
  }

  ghost predicate IsRoot(own: Owner, f: nat) {
    f in own && own[f].path == []
  }

  ghost predicate IsInner(own: Owner, f: nat) {
    f in own && |own[f].path| < 3
  }

  ghost predicate ChildOwned(t: Tables, own: Owner, f: nat, i: nat)
    requires f in own && f in t && i < 512
  {
    var e := t[f][i];
    e.Present() ==> e.Open() && e.frame in own && own[e.frame] == ChildPlace(own[f], e.frame, i)
  }

  ghost predicate TreeShaped(t: Tables, own: Owner) {
    && (forall f :: f in own ==> f in t && |own[f].path| <= 3 && Indices(own[f].path))
    && (forall f, i :: IsInner(own, f) && 0 <= i < 512 ==> ChildOwned(t, own, f, i))
  }

  lemma OwnsChild(t: Tables, own: Owner, f: nat, i: nat)
    requires TreeShaped(t, own) && IsInner(own, f) && i < 512
    ensures f in t && ChildOwned(t, own, f, i)
  {
    hide ChildOwned;
  }

  /** A walk only reads tables placed along it. */
  lemma {:induction false} VisitsPlaced(t: Tables, own: Owner, f: nat, path: seq<nat>, g: nat)
    requires TreeShaped(t, own) && f in own && path != [] && Indices(path)
    requires |own[f].path| + |path| == 4 && Visits(t, f, path, g)
    ensures g in own && own[f].path <= own[g].path <= own[f].path + path
    ensures own[f].path != [] ==> own[g].top == own[f].top
    decreases |path|
  {
    if f != g {
      assert ChildOwned(t, own, f, path[0]);
      VisitsPlaced(t, own, t[f][path[0]].frame, path[1..], g);
      assert own[f].path + [path[0]] + path[1..] == own[f].path + path;
    }
  }

  /** A walk depends only on the tables it reads. */
  lemma {:induction false} GetDependsOnVisited(t: Tables, t': Tables, own: Owner, f: nat, path: seq<nat>)
    requires TreeShaped(t, own) && f in own && path != [] && Indices(path)
    requires |own[f].path| + |path| == 4
    requires forall g :: g in own && Visits(t, f, path, g) ==> g in t' && t'[g] == t[g]
    ensures Get(t', f, path) == Get(t, f, path)
    decreases |path|
  {
    assert Visits(t, f, path, f);
    if |path| > 1 && t[f][path[0]].Present() {
      assert ChildOwned(t, own, f, path[0]);
      var c := t[f][path[0]].frame;
      forall g | g in own && Visits(t, c, path[1..], g)
        ensures g in t' && t'[g] == t[g]
      {
        assert Visits(t, f, path, g);
      }
      GetDependsOnVisited(t, t', own, c, path[1..]);
    }
  }

  /** Writing one entry of a last-level table changes exactly the walks that end in it. */
  lemma {:induction false} GetAfterLeafWrite(t: Tables, own: Owner, f: nat, path: seq<nat>, g: nat, l: nat, e: Entry)
    requires TreeShaped(t, own) && f in own && path != [] && Indices(path)
    requires |own[f].path| + |path| == 4
    requires g in own && |own[g].path| == 3 && l < 512
    ensures Get(t[g := t[g][l := e]], f, path)
         == if Visits(t, f, path, g) && path[|path| - 1] == l then e else Get(t, f, path)
    decreases |path|
  {
    if |path| > 1 && t[f][path[0]].Present() {
      assert ChildOwned(t, own, f, path[0]);
      GetAfterLeafWrite(t, own, t[f][path[0]].frame, path[1..], g, l, e);
    }
  }

  /** Hanging an empty table under an absent entry changes no walk. */
  lemma {:induction false} GetAfterLink(t: Tables, own: Owner, f: nat, path: seq<nat>, g: nat, i: nat, n: nat)
    requires TreeShaped(t, own) && f in own && path != [] && Indices(path)
    requires |own[f].path| + |path| == 4
    requires IsInner(own, g) && i < 512 && !t[g][i].Present()
    requires n !in own && n in t && t[n] == EMPTY
    ensures Get(t[g := t[g][i := Entry(n, LINK)]], f, path) == Get(t, f, path)
    decreases |path|
  {
    var t' := t[g := t[g][i := Entry(n, LINK)]];
    if |path| > 1 {
      if f == g && path[0] == i {
        assert t'[f][path[0]].Present();
        assert Get(t', n, path[1..]) == ZERO;
      } else if t[f][path[0]].Present() {
        assert ChildOwned(t, own, f, path[0]);
        GetAfterLink(t, own, t[f][path[0]].frame, path[1..], g, i, n);
      }
    }
  }

  lemma TreeAfterLink(t: Tables, own: Owner, g: nat, i: nat, n: nat)
    requires TreeShaped(t, own)
    requires IsInner(own, g) && i < 512
    requires n !in own && n in t && t[n] == EMPTY
    ensures TreeShaped(t[g := t[g][i := Entry(n, LINK)]], own[n := ChildPlace(own[g], n, i)])
  {
    var t', own' := t[g := t[g][i := Entry(n, LINK)]], own[n := ChildPlace(own[g], n, i)];
    LinkIsOpen(n);
    forall f, j | IsInner(own', f) && 0 <= j < 512
      ensures ChildOwned(t', own', f, j)
    {
      if f != n {
        assert ChildOwned(t, own, f, j);
      }
    }
  }

  /** An empty table becomes a root. */
  lemma TreeWithRoot(t: Tables, own: Owner, n: nat)
    requires TreeShaped(t, own) && n !in own && n in t && t[n] == EMPTY
    ensures TreeShaped(t, own[n := Place(n, [])])
  {
    var own' := own[n := Place(n, [])];
    forall f, j | IsInner(own', f) && 0 <= j < 512
      ensures ChildOwned(t, own', f, j)
    {
      assert f != n ==> ChildOwned(t, own, f, j);
    }
  }

  /** Last-level tables may hold anything. */
  lemma TreeIsInner(t: Tables, t': Tables, own: Owner)
    requires TreeShaped(t, own) && t'.Keys == t.Keys
    requires forall f :: IsInner(own, f) ==> t'[f] == t[f]
    ensures TreeShaped(t', own)
  {
    forall f, j | IsInner(own, f) && 0 <= j < 512
      ensures ChildOwned(t', own, f, j)
    {
      assert ChildOwned(t, own, f, j);
    }
  }

  // ---- Access ----------------------------------------------------------------------------

  /** Every entry that the walk from `f` along `path` reads carries all of `bits`: what the processor
      asks of all four levels before it lets an access through. */
  ghost predicate Allows(t: Tables, f: nat, path: seq<nat>, bits: bv12)
    requires path != [] && Indices(path)
    decreases |path|
  {
    f in t && t[f][path[0]].flags & bits == bits && (|path| == 1 || Allows(t, t[f][path[0]].frame, path[1..], bits))
  }

  lemma FewerBits(flags: bv12, bits: bv12)
    requires flags & 0x007 == 0x007 && bits & 0x007 == bits
    ensures flags & bits == bits
  {
    assert flags & bits == flags & (bits & 0x007) == (flags & 0x007) & bits;
  }

  /** Interior entries let everything through, so access is decided by the last level. */
  lemma {:induction false} LastLevelDecides(t: Tables, own: Owner, f: nat, path: seq<nat>, bits: bv12)
    requires TreeShaped(t, own) && f in own && path != [] && Indices(path) && |own[f].path| + |path| == 4
    requires Get(t, f, path).Present() && Get(t, f, path).flags & bits == bits && bits & 0x007 == bits
    ensures Allows(t, f, path, bits)
    decreases |path|
  {
    FlagBits(ZERO);
    if |path| > 1 {
      assert ChildOwned(t, own, f, path[0]);
      FlagBits(t[f][path[0]]);
      FewerBits(t[f][path[0]].flags, bits);
      hide TreeShaped;
      LastLevelDecides(t, own, t[f][path[0]].frame, path[1..], bits);
    }
  }
}
