/** The kernel overwriting user pages: states and runs in which text loaded at 0x400000 meets frame
    0x400 coming off the free list. */
module Clobber {
  import opened Frames
  import opened Utils
  import opened Paging
  import opened AddressSpace
  import opened Phymap
  import opened Cow
  import opened Launch

  // ---- One state ---------------------------------------------------------------------------

  const TEXT: seq<nat> := [0, 0, 2, 0]
  const OTHER: seq<nat> := [0, 0, 2, 1]

  function Ones(): Bytes { seq(4096, _ => 1) }

  function Zeros(): Bytes { seq(4096, _ => 0) }

  function Blank(): Table { seq(512, _ => ZERO) }

  ghost function TwoPages(): Pages { iset{TEXT, OTHER} }

  /** A process with its own text at 0x400000, in frame 10, and a page shared copy-on-write after it,
      in frame 11. The next free frame is 0x400. */
  ghost function Start(): Snap {
    Snap(map[1 := Blank()[0 := Entry(2, LINK)], 2 := Blank()[0 := Entry(3, LINK)], 3 := Blank()[2 := Entry(4, LINK)],
             4 := Blank()[0 := Entry(10, LINK)][1 := Entry(11, SHARED)]],
         map[1 := Place(1, []), 2 := Place(2, [0]), 3 := Place(2, [0, 0]), 4 := Place(2, [0, 0, 2])],
         map[10 := Ones(), 11 := Zeros(), 0x400 := Zeros()],
         [0x400])
  }

  lemma Flags()
    ensures Entry(0, LINK).Present() && Entry(0, LINK).Writable()
    ensures Entry(0, SHARED).Present() && !Entry(0, SHARED).Writable() && Entry(0, SHARED).Cow() && !ZERO.Present()
    ensures LINK | LINK == LINK
  {
    assert SHARED & PTE_P != 0 && SHARED & PTE_W == 0 && SHARED & PTE_COW != 0;
    assert LINK & PTE_P != 0 && LINK & PTE_W != 0;
  }

  lemma StartTree()
    ensures TreeShaped(Start().t, Start().own)
  {
    var t, own := Start().t, Start().own;
    forall f, i | IsInner(own, f) && 0 <= i < 512
      ensures ChildOwned(t, own, f, i)
    {
      assert t[f][i] == ZERO || (f < 4 && t[f][i] == Entry(f + 1, LINK));
      Flags();
    }
  }

  lemma StartWalk(l: nat)
    requires l < 512
    ensures Get(Start().t, 1, [0, 0, 2, l]) == Start().t[4][l]
  {
    var t := Start().t;
    Flags();
    assert [0, 0, 2, l][1..] == [0, 2, l] && [0, 2, l][1..] == [2, l] && [2, l][1..] == [l];
    assert Get(t, 4, [l]) == t[4][l];
    assert Get(t, 3, [2, l]) == Get(t, 4, [l]);
    assert Get(t, 2, [0, 2, l]) == Get(t, 3, [2, l]);
  }

  lemma FrameAddress()
    ensures PathOf(0x400 * PAGE_SIZE) == TEXT
  {
  }

  lemma StartFacts()
    ensures var s := Start();
      && s.free == [0x400] && s.own.Keys == {1, 2, 3, 4} && s.data.Keys == {10, 11, 0x400} && IsRoot(s.own, 1)
      && s.data[10] == Ones() && s.data[11] == Zeros()
    ensures At(Start(), 1, TEXT) == Window(Start(), 1, 0x400) == Entry(10, LINK)
    ensures At(Start(), 1, OTHER) == Entry(11, SHARED)
  {
    hide TreeShaped, Get, PathOf;
    StartWalk(0);
    StartWalk(1);
    FrameAddress();
  }

  /** The state is sound, and the kernel can reach the address of the fresh frame. */
  lemma StartIsSound()
    ensures Inv(Start(), {1}, TwoPages()) && WindowOpen(Start(), 1)
  {
    hide Start, TreeShaped, Get, PathOf;
    var s := Start();
    StartTree();
    StartFacts();
    Flags();
    forall x | x in TwoPages()
      ensures PageSound(s, 1, x)
    {
      assert x == TEXT || x == OTHER;
    }
    forall x, y | x in TwoPages() && y in TwoPages()
      ensures Exclusive(s, 1, x, 1, y)
    {
      assert x == TEXT || x == OTHER;
      assert y == TEXT || y == OTHER;
    }
  }

  /** The state after a fault on the shared page. */
  ghost function Faulted(): Snap {
    var s := Start();
    Snap(s.t[4 := s.t[4][1 := Entry(10, LINK)]], s.own, s.data[10 := Zeros()], [])
  }

  lemma FaultedIsMapped()
    ensures MapStep(Start().t, Start().own, Faulted().t, Faulted().own, 1, OTHER, Entry(10, LINK))
  {
    var t, own := Start().t, Start().own;
    StartTree();
    Flags();
    assert Grows(t, own, t, own) && RootsKept(t, own, t, 1, 0);
    assert LinkedBelow(t, own, OTHER, 2, 3, 4);
    LeafWriteIsMapStep(t, own, t, own, 1, 2, 3, 4, OTHER, Entry(10, LINK));
  }

  lemma FaultedIsFaulted()
    ensures FaultSnap(Start(), Faulted(), 1, OTHER) && TextShown(Start())
  {
    hide Start, Faulted, Get, MapStep, Inv, PathOf, TreeShaped, Ones, Zeros;
    DifferentBytes();
    StartIsSound();
    StartFacts();
    FaultedIsMapped();
    Flags();
    FaultedFacts();
  }

  lemma FaultedFacts()
    ensures Faulted().own == Start().own && Faulted().data == Start().data[10 := Zeros()] && Faulted().free == []
  {
  }

  /** The text's frame is on a user page other than the shared one, and does not hold the same bytes. */
  ghost predicate TextShown(s: Snap) {
    !Elsewhere(s, 1, TEXT, 10) && 10 in s.data && 11 in s.data && s.data[10] != s.data[11]
  }

  /** From that state the fault handler puts the shared page into the text's frame: the invariant is
      lost, and the text reads as the other page. */
  lemma FaultClobbersText(m: Spaces)
    requires Refines(Start(), {1}, TwoPages(), m)
    ensures FaultSnap(Start(), Faulted(), 1, OTHER)
    ensures !Inv(Faulted(), {1}, TwoPages()) && !Refines(Faulted(), {1}, TwoPages(), m)
  {
    hide Start, Faulted, Get, FaultSnap, Inv, PathOf, Refines, Ones, Zeros;
    DifferentBytes();
    StartIsSound();
    StartFacts();
    FaultedIsFaulted();
    FaultKeepsInvIff(Start(), Faulted(), {1}, TwoPages(), 1, OTHER);
    FaultRefinesIff(Start(), Faulted(), {1}, TwoPages(), 1, OTHER, m);
  }

  lemma DifferentBytes()
    ensures Ones() != Zeros()
  {
    assert Ones()[0] != Zeros()[0];
  }

  /** So does a structure of the kernel's own, if it takes that frame: its fields land in the text. */
  lemma StructureClobbersText(m: Spaces)
    requires Refines(Start(), {1}, TwoPages(), m)
    ensures var s' := Start().(data := Start().data[10 := Zeros()], free := []);
      KernelSnap(Start(), s', 1, {TEXT}) && !Refines(s', {1}, TwoPages(), m)
  {
    hide Start, Get, Inv, PathOf, Refines, Ones, Zeros, TreeShaped;
    var s := Start();
    var s' := s.(data := s.data[10 := Zeros()], free := []);
    DifferentBytes();
    StartIsSound();
    StartFacts();
    Flags();
    assert TEXT in {TEXT} && Reached(s, 1, {TEXT}, 10);
    assert KernelSnap(s, s', 1, {TEXT});
    KernelRefinesIff(s, s', {1}, TwoPages(), 1, {TEXT}, m);
    assert !Elsewhere(s, 1, TEXT, 10);
  }

  // ---- Every run ---------------------------------------------------------------------------

  /** Load a program, fork it, write to a page `x` of the parent. If by then the next free frame's
      address is another page `w` of the program, the handler puts the parent's copy of `x` where both
      processes have `w`, and the child finds the parent's write there. */
  lemma LoadForkWriteClobbers(s: Snap, s1: Snap, s2: Snap, s3: Snap, p: nat, n: nat, c: nat, image: Image,
                              at: Addresses, pages: Pages, x: seq<nat>, w: seq<nat>, off: nat, b: bv8, m: Spaces)
    requires ExecSnap(s, s1, p, n, image, at) && forall y :: y in pages ==> y in image || !At(s, p, y).Present()
    requires Refines(s1, {n}, pages, m) && ForkSnap(s1, s2, n, c)
    requires x in pages && x in image && w in pages && w in image && w != x
    requires s2.free != [] && w == PathOf(s2.free[0] * PAGE_SIZE) && WriteSnap(s2, s3, n, x, off, b)
    ensures !Inv(s3, {n, c}, pages)
    ensures off < PAGE_SIZE && At(s3, c, w).Present() && At(s3, c, w).frame in s3.data
    ensures s3.data[At(s3, c, w).frame] == image[x][off := b]
    ensures image[w] != image[x][off := b] ==>
      !Refines(s3, {n, c}, pages, EagerStep(EagerStep(m, Fork(n, c)), Write(n, x, off, b)))
  {
    hide PathOf, Inv, ExecSnap, ForkSnap, FaultSnap, EagerStep, Refines, Get, Unshared;
    LoadedProcessIsSound(s, s1, p, n, image, at, pages);
    ForkKeepsInv(s1, s2, {n}, pages, n, c);
    assert {n} + {c} == {n, c};
    ForkedApart(s1, s2, n, c, pages);
    Forked(s, s1, s2, p, n, c, image, at, pages, x);
    Forked(s, s1, s2, p, n, c, image, at, pages, w);
    var mid :| FaultSnap(s2, mid, n, x) && StoreSnap(mid, s3, n, x, off, b);
    Handled(s2, mid, {n, c}, pages, n, c, x, w);
    FaultKeepsInvIff(s2, mid, {n, c}, pages, n, x);
    if Inv(s3, {n, c}, pages) {
      InvFree(s3, {n, c}, pages);
      SameFramesKeepInv(s3, mid, {n, c}, pages);
    }
    EagerText(m, n, c, x, w, off, b, s1, pages);
    if image[w] != image[x][off := b] {
      Unseen(s3, {n, c}, pages, EagerStep(EagerStep(m, Fork(n, c)), Write(n, x, off, b)), c, w);
    }
  }

  lemma ForkedApart(s1: Snap, s2: Snap, n: nat, c: nat, pages: Pages)
    requires Inv(s1, {n}, pages) && ForkSnap(s1, s2, n, c)
    ensures n != c
  {
    hide TreeShaped;
  }

  lemma Forked(s: Snap, s1: Snap, s2: Snap, p: nat, n: nat, c: nat, image: Image, at: Addresses, pages: Pages,
               x: seq<nat>)
    requires ExecSnap(s, s1, p, n, image, at) && Inv(s1, {n}, pages) && ForkSnap(s1, s2, n, c)
    requires x in pages && x in image
    ensures At(s2, n, x).Present() && !At(s2, n, x).Writable() && At(s2, c, x) == At(s2, n, x)
    ensures At(s2, n, x).frame in s2.data && s2.data[At(s2, n, x).frame] == image[x]
    ensures At(s1, n, x).Present() && At(s1, n, x).frame in s1.data && s1.data[At(s1, n, x).frame] == image[x]
  {
    assert ExecPage(s, s1, p, n, image, x);
    hide ExecSnap, TreeShaped, Get;
    ForkEntries(s1, s2, {n}, pages, n, c, n, x);
    ForkEntries(s1, s2, {n}, pages, n, c, c, x);
    FlagFacts(At(s1, n, x));
  }

  lemma Handled(s2: Snap, mid: Snap, procs: set<nat>, pages: Pages, n: nat, c: nat, x: seq<nat>, w: seq<nat>)
    requires Inv(s2, procs, pages) && procs == {n, c} && x in pages && w in pages && w != x && n != c
    requires FaultSnap(s2, mid, n, x) && w == PathOf(s2.free[0] * PAGE_SIZE)
    requires At(s2, c, w) == At(s2, n, w) && At(s2, n, w).Present()
    ensures var g := At(s2, n, w).frame;
      && At(mid, n, x).frame == g && At(mid, c, w).Present() && At(mid, c, w).frame == g
      && g in mid.data && mid.data[g] == s2.data[At(s2, n, x).frame]
      && !Unshared(s2, procs, pages, n, x, g)
  {
    FaultEntries(s2, mid, procs, pages, n, x, n, x);
    FaultEntries(s2, mid, procs, pages, n, x, c, w);
    assert !Elsewhere(s2, c, w, At(s2, n, w).frame);
  }

  lemma EagerText(m: Spaces, n: nat, c: nat, x: seq<nat>, w: seq<nat>, off: nat, b: bv8, s1: Snap, pages: Pages)
    requires Refines(s1, {n}, pages, m) && x in pages && w in pages && w != x && n != c
    requires At(s1, n, w).Present() && At(s1, n, w).frame in s1.data
    ensures var m' := EagerStep(EagerStep(m, Fork(n, c)), Write(n, x, off, b));
      Loc(c, w) in m' && m'[Loc(c, w)] == s1.data[At(s1, n, w).frame]
  {
    assert SamePage(s1, m, n, w);
    assert Loc(c, w) != Loc(n, x);
  }

  lemma Unseen(s: Snap, procs: set<nat>, pages: Pages, m: Spaces, q: nat, y: seq<nat>)
    requires q in procs && y in pages && At(s, q, y).Present() && Loc(q, y) in m && At(s, q, y).frame in s.data
    requires m[Loc(q, y)] != s.data[At(s, q, y).frame]
    ensures !Refines(s, procs, pages, m)
  {
    assert !SamePage(s, m, q, y);
  }
}
