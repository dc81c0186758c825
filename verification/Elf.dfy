/** elf_load (sys/elf.c): segments mapped page by page to fresh frames and filled through the new
    tables, then the heap, the stack and the arguments. */
module Elf {
  import opened Frames
  import opened Utils
  import opened Paging
  import opened AddressSpace
  import opened Phymap

  const PT_LOAD := 1
  const PERM_X := 1
  const PERM_W := 2
  const PERM_R := 4

  /** The fields of Elf64_Phdr that the loader reads. */
  datatype Phdr = Phdr(ptype: nat, flags: nat, offset: nat, vaddr: nat, filesz: nat, memsz: nat)

  function FirstPage(h: Phdr): nat { h.vaddr / 0x1000 }

  /** The loader's page count; a segment that ends on a page boundary gets one page more. */
  function PageCount(h: Phdr): int {
    var end := h.vaddr + h.memsz;
    ((end / 0x1000 * 0x1000 + 0x1000) - h.vaddr / 0x1000 * 0x1000) / 0x1000
  }

  predicate Covers(h: Phdr, page: nat) {
    h.ptype == PT_LOAD && FirstPage(h) <= page < FirstPage(h) + PageCount(h)
  }

  /** Whether the loader copies file bytes into the segment. */
  predicate Filled(h: Phdr) {
    h.flags == PERM_R + PERM_X || h.flags == PERM_R + PERM_W
  }

  /** A program header as the ELF specification has it, in the lower half of the address space. */
  predicate WellFormed(h: Phdr, image: seq<bv8>) {
    h.ptype == PT_LOAD ==>
      h.filesz <= h.memsz && h.offset + h.filesz <= |image| && h.vaddr + h.memsz < 0x8000_0000_0000
  }

  ghost predicate DisjointPages(hs: seq<Phdr>) {
    forall i, j, page :: 0 <= i < j < |hs| && Covers(hs[i], page) ==> !Covers(hs[j], page)
  }

  /** Every byte of a segment lies on a covered page. */
  lemma BytesCovered(h: Phdr, a: nat)
    requires h.ptype == PT_LOAD && h.vaddr <= a <= h.vaddr + h.memsz
    ensures Covers(h, a / 0x1000)
  {
    PagesSpanned(h);
  }

  lemma PagesSpanned(h: Phdr)
    ensures PageCount(h) == (h.vaddr + h.memsz) / 0x1000 - h.vaddr / 0x1000 + 1 >= 1
  {
  }

  // ---- Placement -------------------------------------------------------------------------

  /** Page number to the frame that holds it. */
  type Placement = map<nat, nat>

  function PagePath(page: nat): (q: seq<nat>)
    ensures IsPath(q)
  {
    PathOf(page * 0x1000)
  }

  lemma PagePathUnique(a: nat, b: nat)
    requires a < 0x10_0000_0000 && b < 0x10_0000_0000 && PagePath(a) == PagePath(b)
    ensures a == b
  {
    hide PathOf;
    SamePathIffSamePage(a * 0x1000, b * 0x1000);
  }

  lemma PathOfPage(a: nat)
    ensures PathOf(a) == PagePath(a / 0x1000)
  {
    SamePathIffSamePage(a, a / 0x1000 * 0x1000);
  }

  ghost predicate IsPlaced(t: Tables, root: nat, page: nat, frame: nat) {
    page < 0x10_0000_0000 && Get(t, root, PagePath(page)) == Entry(frame, LINK)
  }

  ghost predicate FrameSound(s0: Snap, s: Snap, f: nat) {
    f in s.data && f !in s.own && f in s0.free && f !in s.free
  }

  /** `placed` is exactly what loading has changed in the translations of `root` since `s0`: its
      pages go, writable and for the user, to distinct frames that came off the free list. */
  ghost predicate Placed(s0: Snap, s: Snap, root: nat, placed: Placement, at: Addresses) {
    && (forall page :: page in placed ==> IsPlaced(s.t, root, page, placed[page]))
    && (forall page :: page in placed ==> FrameSound(s0, s, placed[page]))
    && (forall a, b :: a in placed && b in placed && placed[a] == placed[b] ==> a == b)
    && (forall x :: IsPath(x) && (forall page :: page in placed ==> x != PagePath(page)) ==>
          Get(s.t, root, x) == Get(s0.t, root, x))
    && Suffix(s.free, s0.free)
    && Beside(s0, s, root, at)
  }

  /** Loading touches nothing else, no root but those that share a slot and no frame in use before,
      except those that `root` showed at `at`, where the kernel stored into its vma structures. */
  ghost predicate Beside(s0: Snap, s: Snap, root: nat, at: Addresses) {
    && (forall f :: f in s0.data && f !in s0.free ==> f in s.data)
    && (forall f :: f in s0.data && f !in s0.free && !Reached(s0, root, at, f) ==> s.data[f] == s0.data[f])
    && (forall f :: f in s0.own ==> f in s.own) && (forall f :: f in s.own && f !in s0.own ==> f in s0.free)
    && (forall r :: IsRoot(s.own, r) <==> IsRoot(s0.own, r))
    && (forall r, i :: IsRoot(s0.own, r) && r != root && 0 <= i < 512 ==> SlotBeside(s0, s, root, r, i))
  }

  /** A slot of root `r` that it does not share with `root` is kept, and stays unshared. */
  ghost predicate SlotBeside(s0: Snap, s: Snap, root: nat, r: nat, i: nat)
    requires i < 512
  {
    && r in s0.t && root in s0.t && r in s.t && root in s.t
    && (!SameSlot(s0.t, r, root, i) ==>
          && !SameSlot(s.t, r, root, i) && EntrySame(s0.t, s.t, r, i)
          && forall x :: IsPath(x) && x[0] == i ==> Get(s.t, r, x) == Get(s0.t, r, x))
  }

  lemma BesideItself(s: Snap, root: nat)
    requires TreeShaped(s.t, s.own) && IsRoot(s.own, root)
    ensures Beside(s, s, root, {})
  {
    hide SameSlot, Get;
  }

  lemma SlotBesideAfterMap(s0: Snap, s: Snap, s': Snap, root: nat, q: seq<nat>, e: Entry, r: nat, i: nat)
    requires IsRoot(s.own, r) && r != root && i < 512 && SlotBeside(s0, s, root, r, i)
    requires IsPath(q) && MapStep(s.t, s.own, s'.t, s'.own, root, q, e)
    ensures SlotBeside(s0, s', root, r, i)
  {
    assert EntrySame(s.t, s'.t, r, i) && ChildOwned(s.t, s.own, r, i);
    assert i != q[0] ==> EntrySame(s.t, s'.t, root, i);
  }

  lemma BesideAfterMap(s0: Snap, s: Snap, s': Snap, root: nat, at: Addresses, q: seq<nat>, e: Entry)
    requires Beside(s0, s, root, at) && s'.data == s.data && forall f :: f in s.free ==> f in s0.free
    requires IsPath(q) && MapStep(s.t, s.own, s'.t, s'.own, root, q, e)
    requires (forall f :: f in s.own ==> f in s'.own) && forall f :: f in s'.own && f !in s.own ==> f in s.free
    ensures Beside(s0, s', root, at)
  {
    forall r, i | IsRoot(s0.own, r) && r != root && 0 <= i < 512
      ensures SlotBeside(s0, s', root, r, i)
    {
      SlotBesideAfterMap(s0, s, s', root, q, e, r, i);
    }
    assert forall r :: IsRoot(s'.own, r) <==> IsRoot(s.own, r);
    hide MapStep, SlotBeside, Reached;
  }

  /** The byte at address `a` of the placed pages. */
  ghost function ByteAt(data: map<nat, Bytes>, placed: Placement, a: nat): bv8 {
    if a / 0x1000 in placed && placed[a / 0x1000] in data then data[placed[a / 0x1000]][a % 0x1000] else 0
  }

  /** What segment `h` puts at `a`, a byte of one of its pages. */
  function SegmentByte(h: Phdr, image: seq<bv8>, a: nat): bv8
    requires WellFormed(h, image)
  {
    if h.ptype == PT_LOAD && Filled(h) && h.vaddr <= a < h.vaddr + h.filesz then image[h.offset + (a - h.vaddr)] else 0
  }

  /** The pages of the segment are placed and, where the kernel has not stored, hold its bytes. */
  ghost predicate SegmentLoaded(data: map<nat, Bytes>, placed: Placement, h: Phdr, image: seq<bv8>, at: Addresses)
    requires WellFormed(h, image)
  {
    forall a: nat :: Covers(h, a / 0x1000) ==>
      && a / 0x1000 in placed
      && (PagePath(a / 0x1000) !in at ==> ByteAt(data, placed, a) == SegmentByte(h, image, a))
  }

  lemma PlacedAfterMap(s0: Snap, s: Snap, s': Snap, root: nat, placed: Placement, at: Addresses, page: nat, f: nat)
    requires Placed(s0, s, root, placed, at) && s'.data == s.data
    requires page !in placed && page < 0x10_0000_0000 && f in s.free && f in s.data
    requires MapStep(s.t, s.own, s'.t, s'.own, root, PagePath(page), Entry(f, 0).Or(LINK))
    requires f !in s'.own && f !in s'.free && Suffix(s'.free, s.free)
    requires (forall g :: g in s.own ==> g in s'.own) && forall g :: g in s'.own && g !in s.own ==> g in s.free
    ensures Placed(s0, s', root, placed[page := f], at)
  {
    hide PathOf, TreeShaped, Get, Beside, RootsKept, EntrySame, Suffix, Reached;
    var placed' := placed[page := f];
    SuffixTransitive(s'.free, s.free, s0.free);
    SuffixFacts(s.free, s0.free);
    SuffixFacts(s'.free, s.free);
    BesideAfterMap(s0, s, s', root, at, PagePath(page), Entry(f, 0).Or(LINK));
    assert Entry(f, 0).Or(LINK) == Entry(f, LINK);
    forall p | p in placed'
      ensures IsPlaced(s'.t, root, p, placed'[p])
    {
      if p != page {
        assert IsPlaced(s.t, root, p, placed[p]);
        if PagePath(p) == PagePath(page) { PagePathUnique(p, page); }
      }
    }
    forall p | p in placed'
      ensures FrameSound(s0, s', placed'[p])
    {
      assert p != page ==> FrameSound(s0, s, placed[p]);
    }
    forall x | IsPath(x) && (forall p :: p in placed' ==> x != PagePath(p))
      ensures Get(s'.t, root, x) == Get(s0.t, root, x)
    {
      assert page in placed';
      forall p | p in placed
        ensures x != PagePath(p)
      {
        assert p in placed';
      }
    }
  }

  // ---- Loading ---------------------------------------------------------------------------

  /** Frames that surely suffice: the vma's, and per page its own and three tables. */
  function Need(hs: seq<Phdr>, i: nat): nat
    requires i <= |hs|
    decreases |hs| - i
  {
    if i == |hs| then 0
    else (if hs[i].ptype == PT_LOAD && PageCount(hs[i]) > 0 then 1 + 4 * PageCount(hs[i]) else 0) + Need(hs, i + 1)
  }

  lemma {:induction false} MissingAtMost(t: Tables, f: nat, path: seq<nat>)
    requires path != [] && Indices(path)
    ensures Missing(t, f, path) < |path|
    decreases |path|
  {
    if |path| > 1 && f in t && t[f][path[0]].Present() { MissingAtMost(t, t[f][path[0]].frame, path[1..]); }
  }

  lemma DistinctFree(m: Machine)
    requires m.Valid()
    ensures NoDuplicates(m.frames.free)
  {
  }

  lemma TakenIsGone(free: seq<nat>)
    requires free != []
    ensures NoDuplicates(free) ==> free[0] !in free[1..]
    ensures forall g :: g !in free ==> g !in free[1..]
  {
  }

  /** page_alloc, and map_process of its result. */
  method TakeAndMap(m: Machine, page: nat) returns (f: nat)
    requires m.Valid() && |m.frames.free| >= 4
    modifies m`tables, m`own, m.frames`freeList, m.frames`free
    ensures m.Valid() && f == old(m.frames.free)[0] && f in m.data && m.data[f] == ZEROS
    ensures f !in m.own && f !in m.frames.free
    ensures Suffix(m.frames.free, old(m.frames.free)) && |m.frames.free| >= old(|m.frames.free|) - 4
    ensures MapStep(old(m.tables), old(m.own), m.tables, m.own, m.cr3, PagePath(page), Entry(f, 0).Or(LINK))
    ensures forall g :: g in old(m.own) ==> g in m.own
    ensures forall g :: g in m.own && g !in old(m.own) ==> g in old(m.frames.free)
  {
    hide TreeShaped, MapStep, PathOf, Suffix, Missing, Get;
    ghost var free := m.frames.free;
    f := m.frames.PageAlloc();
    MissingAtMost(m.tables, m.cr3, PagePath(page));
    ghost var after, k := m.frames.free, Missing(m.tables, m.cr3, PagePath(page));
    m.MapProcess(page * 0x1000, Entry(f, 0));
    SuffixAfter(free, 1);
    SuffixAfter(after, k);
    SuffixTransitive(m.frames.free, after, free);
  }

  /** One page of a segment: a fresh frame, mapped. */
  method MapFresh(m: Machine, page: nat, ghost s0: Snap, ghost placed: Placement, ghost at: Addresses)
    returns (ghost placed': Placement)
    requires m.Valid() && |m.frames.free| >= 4 && page < 0x10_0000_0000 && page !in placed
    requires Placed(s0, SnapOf(m), m.cr3, placed, at)
    modifies m`tables, m`own, m.frames`freeList, m.frames`free
    ensures m.Valid() && |m.frames.free| >= old(|m.frames.free|) - 4
    ensures Placed(s0, SnapOf(m), m.cr3, placed', at)
    ensures placed'.Keys == placed.Keys + {page} && forall p :: p in placed ==> placed'[p] == placed[p]
    ensures page in placed' && placed'[page] in m.data && m.data[placed'[page]] == ZEROS
  {
    hide Placed, TreeShaped, MapStep, PathOf, Suffix, Get, Chain;
    ghost var s := SnapOf(m);
    var f := TakeAndMap(m, page);
    placed' := placed[page := f];
    PlacedAfterMap(s0, s, SnapOf(m), m.cr3, placed, at, page, f);
  }

  /** The page loop of one segment. */
  method MapSegment(m: Machine, h: Phdr, ghost s0: Snap, ghost placed0: Placement, ghost at: Addresses)
    returns (ghost placed: Placement)
    requires m.Valid() && h.ptype == PT_LOAD && h.vaddr + h.memsz < 0x8000_0000_0000
    requires |m.frames.free| >= 4 * PageCount(h) && forall page :: page in placed0 ==> !Covers(h, page)
    requires Placed(s0, SnapOf(m), m.cr3, placed0, at)
    modifies m`tables, m`own, m.frames`freeList, m.frames`free
    ensures m.Valid() && |m.frames.free| >= old(|m.frames.free|) - 4 * PageCount(h)
    ensures Placed(s0, SnapOf(m), m.cr3, placed, at)
    ensures forall page: nat :: page in placed <==> page in placed0 || Covers(h, page)
    ensures forall page :: page in placed0 ==> placed[page] == placed0[page]
    ensures forall page: nat :: Covers(h, page) ==> placed[page] in m.data && m.data[placed[page]] == ZEROS
  {
    PagesSpanned(h);
    hide Placed, Chain, TreeShaped;
    placed := placed0;
    var size := ((h.vaddr + h.memsz) / 0x1000 * 0x1000 + 0x1000) - h.vaddr / 0x1000 * 0x1000;
    var itr := size / 0x1000;
    var start := h.vaddr / 0x1000;
    while itr > 0
      invariant 0 <= itr <= PageCount(h) && start + itr == FirstPage(h) + PageCount(h)
      invariant m.Valid() && |m.frames.free| >= old(|m.frames.free|) - 4 * (PageCount(h) - itr)
      invariant Placed(s0, SnapOf(m), m.cr3, placed, at)
      invariant forall page: nat :: page in placed <==> page in placed0 || FirstPage(h) <= page < start
      invariant forall page :: page in placed0 ==> placed[page] == placed0[page]
      invariant forall page: nat :: FirstPage(h) <= page < start ==>
        placed[page] in m.data && m.data[placed[page]] == ZEROS
    {
      placed := MapFresh(m, start, s0, placed, at);
      itr := itr - 1;
      start := start + 1;
    }
  }

  /** Storing one byte changes that byte of the placed pages and no other. */
  lemma ByteStored(data: map<nat, Bytes>, placed: Placement, a: nat, b: bv8, c: nat)
    requires forall p, q :: p in placed && q in placed && placed[p] == placed[q] ==> p == q
    requires a / 0x1000 in placed && c / 0x1000 in placed
    requires placed[a / 0x1000] in data && placed[c / 0x1000] in data
    ensures ByteAt(data[placed[a / 0x1000] := data[placed[a / 0x1000]][a % 0x1000 := b]], placed, c)
         == if c == a then b else ByteAt(data, placed, c)
  {
  }

  /** Storing into a placed page disturbs nothing. */
  lemma PlacedAfterStore(s0: Snap, s: Snap, root: nat, placed: Placement, at: Addresses, page: nat, bytes: Bytes)
    requires Placed(s0, s, root, placed, at) && page in placed
    ensures Placed(s0, s.(data := s.data[placed[page] := bytes]), root, placed, at)
  {
    var s' := s.(data := s.data[placed[page] := bytes]);
    assert FrameSound(s0, s, placed[page]);
    forall p | p in placed
      ensures FrameSound(s0, s', placed[p])
    {
      assert FrameSound(s0, s, placed[p]);
    }
    forall r, i | IsRoot(s0.own, r) && r != root && 0 <= i < 512
      ensures SlotBeside(s0, s', root, r, i)
    {
      assert SlotBeside(s0, s, root, r, i);
    }
    hide SlotBeside;
  }

  /** Where address `a` of a placed page is stored. */
  lemma PlacedAddress(s0: Snap, s: Snap, root: nat, placed: Placement, at: Addresses, a: nat)
    requires Placed(s0, s, root, placed, at) && a / 0x1000 in placed
    ensures Get(s.t, root, PathOf(a)) == Entry(placed[a / 0x1000], LINK) && Missing(s.t, root, PathOf(a)) == 0
    ensures placed[a / 0x1000] in s.data && placed[a / 0x1000] !in s.free
  {
    hide PathOf, Beside;
    PathOfPage(a);
    assert IsPlaced(s.t, root, a / 0x1000, placed[a / 0x1000]);
    assert FrameSound(s0, s, placed[a / 0x1000]);
    PresentNotMissing(s.t, root, PathOf(a));
  }

  /** One byte stored through the tables. */
  method StoreByte(m: Machine, a: nat, b: bv8, ghost s0: Snap, ghost placed: Placement, ghost at: Addresses)
    requires m.Valid() && Placed(s0, SnapOf(m), m.cr3, placed, at) && a / 0x1000 in placed
    modifies m`data
    ensures m.Valid() && Placed(s0, SnapOf(m), m.cr3, placed, at)
    ensures forall c: nat :: c / 0x1000 in placed ==>
      ByteAt(m.data, placed, c) == if c == a then b else old(ByteAt(m.data, placed, c))
  {
    PlacedAddress(s0, SnapOf(m), m.cr3, placed, at, a);
    ghost var data := m.data;
    forall c: nat | c / 0x1000 in placed
      ensures ByteAt(data[placed[a / 0x1000] := data[placed[a / 0x1000]][a % 0x1000 := b]], placed, c)
           == if c == a then b else ByteAt(data, placed, c)
    {
      PlacedAddress(s0, SnapOf(m), m.cr3, placed, at, c);
      ByteStored(data, placed, a, b, c);
    }
    hide PathOf, ByteAt, TreeShaped;
    var e := m.PhyAddr(a);
    PlacedAfterStore(s0, SnapOf(m), m.cr3, placed, at, a / 0x1000, m.data[e.frame][a % 0x1000 := b]);
    m.data := m.data[e.frame := m.data[e.frame][a % 0x1000 := b]];
  }

  /** memcpy into the new address space (the source lies above it, so it runs upwards). */
  method CopyIn(m: Machine, vaddr: nat, bytes: seq<bv8>, ghost s0: Snap, ghost placed: Placement, ghost at: Addresses)
    requires m.Valid() && Placed(s0, SnapOf(m), m.cr3, placed, at)
    requires forall a: nat :: vaddr <= a < vaddr + |bytes| ==> a / 0x1000 in placed
    modifies m`data
    ensures m.Valid() && Placed(s0, SnapOf(m), m.cr3, placed, at)
    ensures forall a: nat :: a / 0x1000 in placed ==>
      ByteAt(m.data, placed, a)
      == if vaddr <= a < vaddr + |bytes| then bytes[a - vaddr] else old(ByteAt(m.data, placed, a))
  {
    hide Placed, ByteAt, TreeShaped, Chain;
    for k := 0 to |bytes|
      invariant m.Valid() && Placed(s0, SnapOf(m), m.cr3, placed, at)
      invariant forall a: nat :: a / 0x1000 in placed ==>
        ByteAt(m.data, placed, a)
        == if vaddr <= a < vaddr + k then bytes[a - vaddr] else old(ByteAt(m.data, placed, a))
    {
      StoreByte(m, vaddr + k, bytes[k], s0, placed, at);
    }
  }

  /** The copy of one segment's file bytes into its zeroed pages. */
  method FillSegment(m: Machine, h: Phdr, image: seq<bv8>, ghost s0: Snap, ghost placed: Placement, ghost at: Addresses)
    requires m.Valid() && h.ptype == PT_LOAD && WellFormed(h, image)
    requires Placed(s0, SnapOf(m), m.cr3, placed, at)
    requires forall page: nat :: Covers(h, page) ==>
      page in placed && placed[page] in m.data && m.data[placed[page]] == ZEROS
    modifies m`data
    ensures m.Valid() && Placed(s0, SnapOf(m), m.cr3, placed, at)
    ensures SegmentLoaded(m.data, placed, h, image, at)
    ensures forall a: nat :: a / 0x1000 in placed && !Covers(h, a / 0x1000) ==>
      ByteAt(m.data, placed, a) == old(ByteAt(m.data, placed, a))
  {
    hide Placed, TreeShaped, Chain;
    forall a: nat | h.vaddr <= a < h.vaddr + h.filesz
      ensures Covers(h, a / 0x1000)
    {
      BytesCovered(h, a);
    }
    hide Covers;
    if Filled(h) {
      CopyIn(m, h.vaddr, image[h.offset..h.offset + h.filesz], s0, placed, at);
    }
  }

  /** What is behind the pages placed is kept, except where the kernel has stored. */
  ghost predicate PagesKept(data: map<nat, Bytes>, data': map<nat, Bytes>, placed: Placement, at: Addresses) {
    forall page :: page in placed && PagePath(page) !in at && placed[page] in data ==>
      placed[page] in data' && data'[placed[page]] == data[placed[page]]
  }

  lemma BytesKept(data: map<nat, Bytes>, data': map<nat, Bytes>, placed: Placement, at: Addresses)
    requires PagesKept(data, data', placed, at) && data'.Keys == data.Keys
    ensures forall a: nat :: a / 0x1000 in placed && PagePath(a / 0x1000) !in at ==>
      ByteAt(data', placed, a) == ByteAt(data, placed, a)
  {
    hide PathOf;
  }

  /** What the kernel finds at the address of a free frame whose window was open before loading. */
  lemma WindowWhileLoading(s0: Snap, s: Snap, root: nat, placed: Placement, at: Addresses, f: nat)
    requires Placed(s0, s, root, placed, at) && OpenWindow(s0, root, f)
    requires f in s.free && f in s.data && f !in s.own
    ensures var x := PathOf(f * PAGE_SIZE); var g := At(s, root, x).frame;
      && Storable(s, root, x) && (g == f || g !in s.free)
      && (forall page :: page in placed && PagePath(page) == x ==> g == placed[page])
      && ((forall page :: page in placed ==> PagePath(page) != x) ==>
            g == At(s0, root, x).frame && forall page :: page in placed ==> placed[page] != g)
  {
    hide PathOf, Get;
    var x := PathOf(f * PAGE_SIZE);
    SuffixFacts(s.free, s0.free);
    forall page | page in placed
      ensures FrameSound(s0, s, placed[page]) && IsPlaced(s.t, root, page, placed[page])
    {
    }
    if page :| page in placed && PagePath(page) == x {
      LinkIsPresent(placed[page]);
    }
  }

  lemma LinkIsPresent(f: nat)
    ensures Entry(f, LINK).Present() && Entry(f, LINK).Writable()
  {
  }

  /** The kernel has taken the first free frame of `s` for a structure and stored at its address. */
  ghost predicate StructureStored(s0: Snap, s: Snap, s': Snap, root: nat) {
    && s.free != [] && OpenWindow(s0, root, s.free[0]) && s.free[0] in s.data && s.free[0] !in s.own
    && s' == s.(data := s'.data, free := s.free[1..]) && s'.data.Keys == s.data.Keys
    && forall g :: g in s.data && g != Window(s, root, s.free[0]).frame ==> s'.data[g] == s.data[g]
  }

  lemma PlacedAfterStructure(s0: Snap, s: Snap, s': Snap, root: nat, placed: Placement, at: Addresses)
    requires Placed(s0, s, root, placed, at) && StructureStored(s0, s, s', root)
    ensures Placed(s0, s', root, placed, at + {PathOf(s.free[0] * PAGE_SIZE)})
    ensures PagesKept(s.data, s'.data, placed, at + {PathOf(s.free[0] * PAGE_SIZE)})
  {
    hide PathOf, Get, Beside;
    BesideAfterStructure(s0, s, s', root, placed, at);
    WindowWhileLoading(s0, s, root, placed, at, s.free[0]);
    SuffixAfter(s.free, 1);
    SuffixFacts(s'.free, s.free);
    SuffixTransitive(s'.free, s.free, s0.free);
    hide Suffix, OpenWindow, Storable;
    forall p | p in placed
      ensures FrameSound(s0, s', placed[p])
    {
      assert FrameSound(s0, s, placed[p]);
    }
    forall p | p in placed
      ensures IsPlaced(s'.t, root, p, placed[p])
    {
      assert IsPlaced(s.t, root, p, placed[p]);
    }
  }

  lemma BesideAfterStructure(s0: Snap, s: Snap, s': Snap, root: nat, placed: Placement, at: Addresses)
    requires Placed(s0, s, root, placed, at) && StructureStored(s0, s, s', root)
    ensures Beside(s0, s', root, at + {PathOf(s.free[0] * PAGE_SIZE)})
  {
    hide PathOf, Get, SameSlot, EntrySame, Suffix, OpenWindow, IsPlaced, FrameSound;
    var at' := at + {PathOf(s.free[0] * PAGE_SIZE)};
    forall r, i | IsRoot(s0.own, r) && r != root && 0 <= i < 512
      ensures SlotBeside(s0, s', root, r, i)
    {
      assert SlotBeside(s0, s, root, r, i);
    }
    forall g | g in s0.data && g !in s0.free && !Reached(s0, root, at', g)
      ensures s'.data[g] == s0.data[g]
    {
      assert Reached(s0, root, at, g) ==> Reached(s0, root, at', g);
      if Window(s, root, s.free[0]).frame == g { StoredBefore(s0, s, root, placed, at, s.free[0], g); }
    }
  }

  /** A frame in use before that the store reaches was shown at that address before. */
  lemma StoredBefore(s0: Snap, s: Snap, root: nat, placed: Placement, at: Addresses, f: nat, g: nat)
    requires Placed(s0, s, root, placed, at) && OpenWindow(s0, root, f) && f in s.free && f in s.data && f !in s.own
    requires g !in s0.free && Window(s, root, f).frame == g
    ensures Reached(s0, root, at + {PathOf(f * PAGE_SIZE)}, g)
  {
    hide PathOf, Get;
    WindowWhileLoading(s0, s, root, placed, at, f);
    var x := PathOf(f * PAGE_SIZE);
    assert x in at + {x};
    forall page | page in placed
      ensures PagePath(page) != x
    {
      assert FrameSound(s0, s, placed[page]);
    }
  }

  /** The frame that addVMA takes, and the stores into its structure. The frame is among the first
      `|s0.free| - base` of the free list that loading started with. */
  method TakeVma(m: Machine, ghost base: nat, ghost s0: Snap, ghost placed: Placement, ghost at: Addresses)
    returns (ghost at': Addresses)
    requires m.Valid() && base < |m.frames.free| && Placed(s0, SnapOf(m), m.cr3, placed, at)
    requires base <= |s0.free| && OpenWindows(s0, m.cr3, |s0.free| - base)
    modifies m`data, m.frames`freeList, m.frames`free
    ensures m.Valid() && Placed(s0, SnapOf(m), m.cr3, placed, at') && |m.frames.free| == old(|m.frames.free|) - 1
    ensures at <= at' && m.data.Keys == old(m.data).Keys && PagesKept(old(m.data), m.data, placed, at')
  {
    hide Placed, TreeShaped, Chain, FramesFor, PathOf, Get, PagesKept, Missing;
    OnePage();
    ghost var s := SnapOf(m);
    DistinctFree(m);
    FirstFree(s0, s, m.cr3, base, placed, at);
    WindowWhileLoading(s0, s, m.cr3, placed, at, s.free[0]);
    var vma := m.frames.Kmalloc(PAGE_SIZE);
    TakenIsGone(s.free);
    assert vma == s.free[0] * PAGE_SIZE && m.frames.free == s.free[1..];
    m.StoreStructure(vma);
    at' := at + {PathOf(vma)};
    PlacedAfterStructure(s0, s, SnapOf(m), m.cr3, placed, at);
  }

  lemma FirstFree(s0: Snap, s: Snap, root: nat, base: nat, placed: Placement, at: Addresses)
    requires base < |s.free| && Placed(s0, s, root, placed, at)
    requires base <= |s0.free| && OpenWindows(s0, root, |s0.free| - base)
    ensures OpenWindow(s0, root, s.free[0])
  {
    assert s.free[0] == s0.free[|s0.free| - |s.free|];
  }

  /** One program header: the vma, the pages, the file bytes. */
  method LoadSegment(m: Machine, h: Phdr, image: seq<bv8>, ghost base: nat, ghost s0: Snap, ghost placed0: Placement,
                     ghost at: Addresses)
    returns (ghost placed: Placement, ghost at': Addresses)
    requires m.Valid() && h.ptype == PT_LOAD && WellFormed(h, image)
    requires |m.frames.free| >= base + 1 + 4 * PageCount(h) && forall page :: page in placed0 ==> !Covers(h, page)
    requires Placed(s0, SnapOf(m), m.cr3, placed0, at)
    requires base <= |s0.free| && OpenWindows(s0, m.cr3, |s0.free| - base)
    modifies m`tables, m`own, m`data, m.frames`freeList, m.frames`free
    ensures m.Valid() && |m.frames.free| >= old(|m.frames.free|) - (1 + 4 * PageCount(h))
    ensures at <= at' && Placed(s0, SnapOf(m), m.cr3, placed, at')
    ensures forall page: nat :: page in placed <==> page in placed0 || Covers(h, page)
    ensures SegmentLoaded(m.data, placed, h, image, at')
    ensures forall a: nat :: a / 0x1000 in placed0 && PagePath(a / 0x1000) !in at' ==>
      ByteAt(m.data, placed, a) == old(ByteAt(m.data, placed0, a))
  {
    PagesSpanned(h);
    hide Placed, TreeShaped, Chain, Covers, PageCount, SegmentLoaded, PathOf, PagesKept, OpenWindows;
    ghost var data := m.data;
    at' := TakeVma(m, base, s0, placed0, at);
    BytesKept(data, m.data, placed0, at');
    placed := MapSegment(m, h, s0, placed0, at');
    FillSegment(m, h, image, s0, placed, at');
  }

  ghost predicate SomeCovers(hs: seq<Phdr>, n: nat, page: nat) {
    exists i :: 0 <= i < |hs| && i < n && Covers(hs[i], page)
  }

  /** The first `n` segments are loaded, and nothing else is placed. */
  ghost predicate LoadedUpTo(data: map<nat, Bytes>, placed: Placement, hs: seq<Phdr>, n: nat, image: seq<bv8>,
                             at: Addresses)
    requires n <= |hs|
  {
    && (forall page: nat :: page in placed <==> SomeCovers(hs, n, page))
    && (forall j :: 0 <= j < n ==> WellFormed(hs[j], image) && SegmentLoaded(data, placed, hs[j], image, at))
  }

  lemma NothingLoaded(s: Snap, root: nat, hs: seq<Phdr>, image: seq<bv8>)
    requires TreeShaped(s.t, s.own) && IsRoot(s.own, root)
    ensures Placed(s, s, root, map[], {}) && LoadedUpTo(s.data, map[], hs, 0, image, {})
  {
    BesideItself(s, root);
    hide TreeShaped, Beside, Get;
  }

  lemma NewPages(data: map<nat, Bytes>, placed: Placement, hs: seq<Phdr>, i: nat, image: seq<bv8>, at: Addresses)
    requires DisjointPages(hs) && i < |hs| && LoadedUpTo(data, placed, hs, i, image, at)
    ensures forall page :: page in placed ==> !Covers(hs[i], page)
  {
  }

  lemma SkippedSegment(data: map<nat, Bytes>, placed: Placement, hs: seq<Phdr>, i: nat, image: seq<bv8>, at: Addresses)
    requires i < |hs| && hs[i].ptype != PT_LOAD && LoadedUpTo(data, placed, hs, i, image, at)
    ensures LoadedUpTo(data, placed, hs, i + 1, image, at)
  {
    forall page: nat
      ensures page in placed <==> SomeCovers(hs, i + 1, page)
    {
      assert SomeCovers(hs, i + 1, page) <==> SomeCovers(hs, i, page) || Covers(hs[i], page);
    }
  }

  lemma AddedSegment(data: map<nat, Bytes>, placed: Placement, at: Addresses, data': map<nat, Bytes>,
                     placed': Placement, at': Addresses, hs: seq<Phdr>, i: nat, image: seq<bv8>)
    requires i < |hs| && WellFormed(hs[i], image) && LoadedUpTo(data, placed, hs, i, image, at) && at <= at'
    requires forall page: nat :: page in placed' <==> page in placed || Covers(hs[i], page)
    requires SegmentLoaded(data', placed', hs[i], image, at')
    requires forall a: nat :: a / 0x1000 in placed && PagePath(a / 0x1000) !in at' ==>
      ByteAt(data', placed', a) == ByteAt(data, placed, a)
    ensures LoadedUpTo(data', placed', hs, i + 1, image, at')
  {
    hide PathOf;
    forall page: nat
      ensures page in placed' <==> SomeCovers(hs, i + 1, page)
    {
      assert SomeCovers(hs, i + 1, page) <==> SomeCovers(hs, i, page) || Covers(hs[i], page);
    }
    forall j | 0 <= j < i + 1
      ensures WellFormed(hs[j], image) && SegmentLoaded(data', placed', hs[j], image, at')
    {
      if j < i { assert SegmentLoaded(data, placed, hs[j], image, at); }
    }
  }

  /** One turn of the segment loop of elf_load. `spare` frames are left for later. */
  method LoadNext(m: Machine, hs: seq<Phdr>, i: nat, image: seq<bv8>, ghost spare: nat, ghost base: nat,
                  ghost s0: Snap, ghost placed0: Placement, ghost at: Addresses)
    returns (ghost placed: Placement, ghost at': Addresses)
    requires m.Valid() && i < |hs| && DisjointPages(hs) && WellFormed(hs[i], image)
    requires |m.frames.free| >= Need(hs, i) + spare && base <= spare
    requires base <= |s0.free| && OpenWindows(s0, m.cr3, |s0.free| - base)
    requires Placed(s0, SnapOf(m), m.cr3, placed0, at)
    requires LoadedUpTo(m.data, placed0, hs, i, image, at)
    modifies m`tables, m`own, m`data, m.frames`freeList, m.frames`free
    ensures m.Valid() && |m.frames.free| >= Need(hs, i + 1) + spare
    ensures Placed(s0, SnapOf(m), m.cr3, placed, at')
    ensures LoadedUpTo(m.data, placed, hs, i + 1, image, at')
  {
    hide Placed, LoadedUpTo, SegmentLoaded, Covers, TreeShaped, Chain, PageCount, DisjointPages, OpenWindows, PathOf;
    ghost var data := m.data;
    if hs[i].ptype == PT_LOAD {
      PagesSpanned(hs[i]);
      NewPages(data, placed0, hs, i, image, at);
      placed, at' := LoadSegment(m, hs[i], image, base, s0, placed0, at);
      AddedSegment(data, placed0, at, m.data, placed, at', hs, i, image);
    } else {
      SkippedSegment(data, placed0, hs, i, image, at);
      placed, at' := placed0, at;
    }
  }

  /** The segment loop of elf_load, under the current root. The frames it may take, and `extra` more,
      must have open windows. */
  method LoadSegments(m: Machine, hs: seq<Phdr>, image: seq<bv8>, ghost extra: nat)
    returns (ghost placed: Placement, ghost at: Addresses)
    requires m.Valid() && DisjointPages(hs) && OpenWindows(SnapOf(m), m.cr3, Need(hs, 0) + extra)
    requires forall i :: 0 <= i < |hs| ==> WellFormed(hs[i], image)
    modifies m`tables, m`own, m`data, m.frames`freeList, m.frames`free
    ensures m.Valid() && |m.frames.free| >= old(|m.frames.free|) - Need(hs, 0)
    ensures Placed(old(SnapOf(m)), SnapOf(m), m.cr3, placed, at)
    ensures LoadedUpTo(m.data, placed, hs, |hs|, image, at)
  {
    hide Placed, LoadedUpTo, TreeShaped, Chain;
    ghost var s0 := SnapOf(m);
    ghost var base := |s0.free| - (Need(hs, 0) + extra);
    placed, at := map[], {};
    NothingLoaded(s0, m.cr3, hs, image);
    hide OpenWindow, PathOf;
    for i := 0 to |hs|
      invariant m.Valid() && |m.frames.free| >= Need(hs, i) + extra + base
      invariant Placed(s0, SnapOf(m), m.cr3, placed, at)
      invariant LoadedUpTo(m.data, placed, hs, i, image, at)
    {
      placed, at := LoadNext(m, hs, i, image, extra + base, base, s0, placed, at);
    }
  }

  /** elf_load loads correctly: after LoadSegments, every byte of every segment is mapped for the
      user to a frame fresh from the free list, distinct pages to distinct frames, and what is read
      through the tables is the file's byte, or zero past it, except on pages that the kernel has
      stored to. */
  lemma LoadedReads(s0: Snap, s: Snap, root: nat, placed: Placement, at: Addresses, h: Phdr, image: seq<bv8>,
                    a: nat, b: nat)
    requires Placed(s0, s, root, placed, at)
    requires h.ptype == PT_LOAD && WellFormed(h, image) && SegmentLoaded(s.data, placed, h, image, at)
    requires h.vaddr <= a < h.vaddr + h.memsz && b / 0x1000 in placed
    ensures var e := Get(s.t, root, PathOf(a));
            && e.Present() && e.Writable() && e.frame in s0.free && e.frame !in s.free && e.frame !in s.own
            && e.frame in s.data && (PathOf(a) !in at ==> s.data[e.frame][a % 0x1000] == SegmentByte(h, image, a))
            && (Get(s.t, root, PathOf(b)).frame == e.frame <==> a / 0x1000 == b / 0x1000)
  {
    hide PathOf, Beside;
    BytesCovered(h, a);
    PathOfPage(a);
    PlacedAddress(s0, s, root, placed, at, a);
    PlacedAddress(s0, s, root, placed, at, b);
    assert FrameSound(s0, s, placed[a / 0x1000]);
    assert PathOf(a) !in at ==> ByteAt(s.data, placed, a) == SegmentByte(h, image, a);
    LinkIsPresent(placed[a / 0x1000]);
  }

  // ---- Heap and stack --------------------------------------------------------------------

  const HEAP_START := 0x0800_0000
  const USER_STACK_TOP := 0xF000_0000
  const HEAP_PAGE := HEAP_START / 0x1000
  const STACK_PAGE := (USER_STACK_TOP - 0x1000) / 0x1000

  /** A page of zeros, unless the kernel has stored there. */
  ghost predicate ZeroPage(data: map<nat, Bytes>, placed: Placement, page: nat, at: Addresses) {
    && page in placed && placed[page] in data
    && (PagePath(page) !in at ==> forall i :: 0 <= i < 0x1000 ==> data[placed[page]][i] == 0)
  }

  /** The first page of the heap and the page of the stack, each followed by its vma. */
  method MapHeapAndStack(m: Machine, ghost base: nat, ghost s0: Snap, ghost placed0: Placement, ghost at: Addresses)
    returns (ghost placed: Placement, ghost at': Addresses)
    requires m.Valid() && |m.frames.free| >= base + 10 && HEAP_PAGE !in placed0 && STACK_PAGE !in placed0
    requires base <= |s0.free| && OpenWindows(s0, m.cr3, |s0.free| - base)
    requires Placed(s0, SnapOf(m), m.cr3, placed0, at)
    modifies m`tables, m`own, m`data, m.frames`freeList, m.frames`free
    ensures m.Valid() && at <= at' && Placed(s0, SnapOf(m), m.cr3, placed, at')
    ensures placed.Keys == placed0.Keys + {HEAP_PAGE, STACK_PAGE}
    ensures forall p :: p in placed0 ==> placed[p] == placed0[p]
    ensures ZeroPage(m.data, placed, HEAP_PAGE, at') && ZeroPage(m.data, placed, STACK_PAGE, at')
    ensures m.data.Keys == old(m.data).Keys && PagesKept(old(m.data), m.data, placed0, at')
  {
    hide Placed, TreeShaped, Chain, PathOf, OpenWindows;
    placed := MapFresh(m, HEAP_PAGE, s0, placed0, at);
    at' := TakeVma(m, base, s0, placed, at);
    placed := MapFresh(m, STACK_PAGE, s0, placed, at');
    at' := TakeVma(m, base, s0, placed, at');
  }

  // ---- Arguments -------------------------------------------------------------------------

  /** The byte that a program under `root` reads at `a`. */
  ghost function ByteThrough(s: Snap, root: nat, a: nat): bv8 {
    var g := Get(s.t, root, PathOf(a)).frame;
    if g in s.data then s.data[g][a % 0x1000] else 0
  }

  /** The caller's pages hold `n` bytes at `argv`. */
  ghost predicate Readable(s: Snap, root: nat, argv: nat, n: nat) {
    forall a: nat :: argv <= a < argv + n ==> ReadableAt(s, root, a)
  }

  ghost predicate ReadableAt(s: Snap, root: nat, a: nat) {
    var e := At(s, root, PathOf(a));
    e.Present() && e.frame in s.data && e.frame !in s.free
  }

  /** An address readable before loading is readable while loading: on a page placed since, it shows
      that page; elsewhere what it showed before, unless the kernel has stored there. */
  lemma ReadsWhileLoading(s0: Snap, s: Snap, root: nat, placed: Placement, at: Addresses, a: nat)
    requires Placed(s0, s, root, placed, at) && ReadableAt(s0, root, a)
    ensures Missing(s.t, root, PathOf(a)) == 0 && Get(s.t, root, PathOf(a)).frame in s.data
    ensures a / 0x1000 in placed ==> ByteThrough(s, root, a) == ByteAt(s.data, placed, a)
    ensures a < 0x1_0000_0000_0000 && a / 0x1000 !in placed && !Reached(s0, root, at, At(s0, root, PathOf(a)).frame) ==>
      ByteThrough(s, root, a) == ByteThrough(s0, root, a)
  {
    hide PathOf, Get, Reached;
    PathOfPage(a);
    if page :| page in placed && PagePath(page) == PathOf(a) {
      assert IsPlaced(s.t, root, page, placed[page]) && FrameSound(s0, s, placed[page]);
      LinkIsPresent(placed[page]);
      if a < 0x1_0000_0000_0000 { PagePathUnique(page, a / 0x1000); }
    }
    if a / 0x1000 in placed {
      assert IsPlaced(s.t, root, a / 0x1000, placed[a / 0x1000]) && FrameSound(s0, s, placed[a / 0x1000]);
    }
    PresentNotMissing(s.t, root, PathOf(a));
  }

  /** The source of the argument copy, read through the current tables. */
  method ReadBytes(m: Machine, argv: nat, n: nat, ghost s0: Snap, ghost placed: Placement, ghost at: Addresses)
    returns (bytes: seq<bv8>)
    requires m.Valid() && Placed(s0, SnapOf(m), m.cr3, placed, at) && Readable(s0, m.cr3, argv, n)
    ensures |bytes| == n && forall i :: 0 <= i < n ==> bytes[i] == ByteThrough(SnapOf(m), m.cr3, argv + i)
  {
    hide Placed, TreeShaped, Chain, PathOf, Get;
    bytes := [];
    for i := 0 to n
      invariant |bytes| == i && forall j :: 0 <= j < i ==> bytes[j] == ByteThrough(SnapOf(m), m.cr3, argv + j)
    {
      assert ReadableAt(s0, m.cr3, argv + i);
      ReadsWhileLoading(s0, SnapOf(m), m.cr3, placed, at, argv + i);
      var e := m.PhyAddr(argv + i);
      bytes := bytes + [m.data[e.frame][(argv + i) % 0x1000]];
    }
  }

  function ArgumentsAt(argc: nat): (a: nat)
    requires argc < 64
    ensures a / 0x1000 == STACK_PAGE
  {
    USER_STACK_TOP - 16 - 64 * argc
  }

  /** The argument count as a 64-bit word, then 64 bytes for each argument. */
  function Arguments(argc: nat, args: seq<bv8>): seq<bv8>
    requires argc < 64
  {
    if argc == 0 then [] else [argc as bv8, 0, 0, 0, 0, 0, 0, 0] + args
  }

  /** What elf_load leaves on the stack page. */
  function StackByte(argc: nat, args: seq<bv8>, a: nat): bv8
    requires argc < 64
  {
    var bytes := Arguments(argc, args);
    if ArgumentsAt(argc) <= a < ArgumentsAt(argc) + |bytes| then bytes[a - ArgumentsAt(argc)] else 0
  }

  lemma StackBytes(argc: nat, args: seq<bv8>)
    requires argc < 64 && |args| == 64 * argc
    ensures argc == 0 ==> forall a :: StackByte(argc, args, a) == 0
    ensures var ptr := ArgumentsAt(argc);
      && (ptr + 8 + |args|) / 0x1000 == STACK_PAGE
      && (argc > 0 ==> forall a: nat :: ptr + 8 <= a < ptr + 8 + |args| ==>
            StackByte(argc, args, a) == args[a - (ptr + 8)])
      && (argc > 0 ==> forall a: nat :: !(ptr + 8 <= a < ptr + 8 + |args|) ==>
            StackByte(argc, args, a) == if ptr <= a < ptr + 8 then [argc as bv8, 0, 0, 0, 0, 0, 0, 0][a - ptr] else 0)
  {
  }

  lemma ZeroPageReads(data: map<nat, Bytes>, placed: Placement, page: nat, at: Addresses)
    requires ZeroPage(data, placed, page, at)
    ensures PagePath(page) !in at ==> forall a: nat :: a / 0x1000 == page ==> ByteAt(data, placed, a) == 0
  {
    hide PathOf;
  }

  /** What the argument copy finds at address `a`, given what it leaves on the pages placed: the
      program's own new page if there is one, else the caller's byte. */
  ghost predicate Argument(s0: Snap, root: nat, data: map<nat, Bytes>, placed: Placement, at: Addresses, argc: nat,
                           a: nat, b: bv8)
    requires argc < 64
  {
    && (a / 0x1000 in placed && a / 0x1000 != STACK_PAGE ==> b == ByteAt(data, placed, a))
    && (a / 0x1000 == STACK_PAGE && PagePath(STACK_PAGE) !in at ==> b == StackByte(argc, [], a))
    && (a < 0x1_0000_0000_0000 && a / 0x1000 !in placed && !Reached(s0, root, at, At(s0, root, PathOf(a)).frame) ==>
          b == ByteThrough(s0, root, a))
  }

  lemma CountBytes(argc: nat)
    requires 0 < argc < 64
    ensures forall a: nat :: 0 <= a - ArgumentsAt(argc) < 8 ==>
      StackByte(argc, [], a) == [argc as bv8, 0, 0, 0, 0, 0, 0, 0][a - ArgumentsAt(argc)]
    ensures forall a: nat :: !(0 <= a - ArgumentsAt(argc) < 8) ==> StackByte(argc, [], a) == 0
  {
  }

  lemma ArgumentsFound(s0: Snap, s: Snap, root: nat, placed: Placement, at: Addresses, argc: nat, argv: nat,
                       args: seq<bv8>)
    requires argc < 64 && Placed(s0, s, root, placed, at) && Readable(s0, root, argv, |args|) && STACK_PAGE in placed
    requires forall i :: 0 <= i < |args| ==> args[i] == ByteThrough(s, root, argv + i)
    requires PagePath(STACK_PAGE) !in at ==>
      forall a: nat :: a / 0x1000 == STACK_PAGE ==> ByteAt(s.data, placed, a) == StackByte(argc, [], a)
    ensures forall i :: 0 <= i < |args| ==> Argument(s0, root, s.data, placed, at, argc, argv + i, args[i])
  {
    hide PathOf, Get, Placed, ReadableAt, ByteThrough, ByteAt, StackByte, Reached;
    forall i | 0 <= i < |args|
      ensures Argument(s0, root, s.data, placed, at, argc, argv + i, args[i])
    {
      assert ReadableAt(s0, root, argv + i);
      ReadsWhileLoading(s0, s, root, placed, at, argv + i);
    }
  }

  lemma ArgumentsKept(s0: Snap, root: nat, data: map<nat, Bytes>, data': map<nat, Bytes>, placed: Placement,
                      at: Addresses, argc: nat, argv: nat, args: seq<bv8>)
    requires argc < 64
    requires forall i :: 0 <= i < |args| ==> Argument(s0, root, data, placed, at, argc, argv + i, args[i])
    requires forall a: nat :: a / 0x1000 in placed && a / 0x1000 != STACK_PAGE ==>
      ByteAt(data', placed, a) == ByteAt(data, placed, a)
    ensures forall i :: 0 <= i < |args| ==> Argument(s0, root, data', placed, at, argc, argv + i, args[i])
  {
    hide PathOf, ByteThrough, ByteAt, StackByte, Reached;
    forall i | 0 <= i < |args|
      ensures Argument(s0, root, data', placed, at, argc, argv + i, args[i])
    {
      assert Argument(s0, root, data, placed, at, argc, argv + i, args[i]);
    }
  }

  /** The argument copy. The count is stored first; `argv` is read only then, and through the new
      tables. More than 63 arguments would run off the stack page. */
  method PushArguments(m: Machine, argc: nat, argv: nat, ghost s0: Snap, ghost placed: Placement, ghost at: Addresses)
    returns (args: seq<bv8>)
    requires m.Valid() && Placed(s0, SnapOf(m), m.cr3, placed, at) && ZeroPage(m.data, placed, STACK_PAGE, at)
    requires argc < 64 && Readable(s0, m.cr3, argv, 64 * argc)
    modifies m`data
    ensures m.Valid() && Placed(s0, SnapOf(m), m.cr3, placed, at) && |args| == 64 * argc
    ensures forall a: nat :: a / 0x1000 in placed && a / 0x1000 != STACK_PAGE ==>
      ByteAt(m.data, placed, a) == old(ByteAt(m.data, placed, a))
    ensures PagePath(STACK_PAGE) !in at ==>
      forall a: nat :: a / 0x1000 == STACK_PAGE ==> ByteAt(m.data, placed, a) == StackByte(argc, args, a)
    ensures forall i :: 0 <= i < |args| ==> Argument(s0, m.cr3, m.data, placed, at, argc, argv + i, args[i])
  {
    hide Placed, TreeShaped, Chain, ByteAt, Arguments, ArgumentsAt, StackByte, PathOf, Get, Reached;
    ZeroPageReads(m.data, placed, STACK_PAGE, at);
    args := [];
    StackBytes(argc, seq(64 * argc, _ => 0));
    if argc == 0 {
      StackBytes(argc, args);
    } else {
      var ptr := ArgumentsAt(argc);
      CopyIn(m, ptr, [argc as bv8, 0, 0, 0, 0, 0, 0, 0], s0, placed, at);
      args := ReadBytes(m, argv, 64 * argc, s0, placed, at);
      ghost var s := SnapOf(m);
      CountBytes(argc);
      StackBytes(argc, args);
      ArgumentsFound(s0, s, m.cr3, placed, at, argc, argv, args);
      CopyIn(m, ptr + 8, args, s0, placed, at);
      ArgumentsKept(s0, m.cr3, s.data, m.data, placed, at, argc, argv, args);
    }
  }

  /** The pages and bytes of a loaded process, where the kernel has not stored: its segments, an
      empty heap page, the arguments. */
  ghost predicate ImageLoaded(data: map<nat, Bytes>, placed: Placement, hs: seq<Phdr>, image: seq<bv8>,
                              argc: nat, args: seq<bv8>, at: Addresses)
    requires argc < 64
  {
    && (forall page: nat :: page in placed <==> SomeCovers(hs, |hs|, page) || page == HEAP_PAGE || page == STACK_PAGE)
    && (forall j :: 0 <= j < |hs| ==> WellFormed(hs[j], image) && SegmentLoaded(data, placed, hs[j], image, at))
    && (PagePath(HEAP_PAGE) !in at ==> forall a: nat :: a / 0x1000 == HEAP_PAGE ==> ByteAt(data, placed, a) == 0)
    && (PagePath(STACK_PAGE) !in at ==>
          forall a: nat :: a / 0x1000 == STACK_PAGE ==> ByteAt(data, placed, a) == StackByte(argc, args, a))
  }

  /** The segments stay as loaded when the heap and stack pages are added and the stack is filled. */
  lemma ImageComplete(data: map<nat, Bytes>, placed: Placement, at: Addresses, data1: map<nat, Bytes>,
                      data': map<nat, Bytes>, placed': Placement, at': Addresses,
                      hs: seq<Phdr>, image: seq<bv8>, argc: nat, args: seq<bv8>)
    requires argc < 64 && LoadedUpTo(data, placed, hs, |hs|, image, at) && at <= at'
    requires !SomeCovers(hs, |hs|, HEAP_PAGE) && !SomeCovers(hs, |hs|, STACK_PAGE)
    requires placed'.Keys == placed.Keys + {HEAP_PAGE, STACK_PAGE}
    requires forall p :: p in placed ==> placed'[p] == placed[p]
    requires PagesKept(data, data1, placed, at') && data1.Keys == data.Keys && ZeroPage(data1, placed', HEAP_PAGE, at')
    requires forall a: nat :: a / 0x1000 in placed' && a / 0x1000 != STACK_PAGE ==>
      ByteAt(data', placed', a) == ByteAt(data1, placed', a)
    requires PagePath(STACK_PAGE) !in at' ==>
      forall a: nat :: a / 0x1000 == STACK_PAGE ==> ByteAt(data', placed', a) == StackByte(argc, args, a)
    ensures ImageLoaded(data', placed', hs, image, argc, args, at')
  {
    hide StackByte, PathOf;
    BytesKept(data, data1, placed, at');
    ZeroPageReads(data1, placed', HEAP_PAGE, at');
    forall j | 0 <= j < |hs|
      ensures SegmentLoaded(data', placed', hs[j], image, at')
    {
      assert SegmentLoaded(data, placed, hs[j], image, at);
      forall a: nat | Covers(hs[j], a / 0x1000)
        ensures a / 0x1000 in placed'
        ensures PagePath(a / 0x1000) !in at' ==> ByteAt(data', placed', a) == SegmentByte(hs[j], image, a)
      {
        assert SomeCovers(hs, |hs|, a / 0x1000);
      }
    }
  }

  lemma PagesLoaded(data: map<nat, Bytes>, placed: Placement, hs: seq<Phdr>, image: seq<bv8>, at: Addresses)
    requires LoadedUpTo(data, placed, hs, |hs|, image, at)
    ensures forall page: nat :: page in placed <==> SomeCovers(hs, |hs|, page)
  {
  }

  /** elf_load, from the program headers on: `placed` are the pages it maps, `at` those to which the
      kernel stored its vma structures, `args` what it copied as arguments. */
  method ElfLoad(m: Machine, hs: seq<Phdr>, image: seq<bv8>, argc: nat, argv: nat)
    returns (ghost placed: Placement, ghost at: Addresses, args: seq<bv8>)
    requires m.Valid() && DisjointPages(hs) && OpenWindows(SnapOf(m), m.cr3, Need(hs, 0) + 10)
    requires forall i :: 0 <= i < |hs| ==> WellFormed(hs[i], image)
    requires !SomeCovers(hs, |hs|, HEAP_PAGE) && !SomeCovers(hs, |hs|, STACK_PAGE)
    requires argc < 64 && Readable(SnapOf(m), m.cr3, argv, 64 * argc)
    modifies m`tables, m`own, m`data, m.frames`freeList, m.frames`free
    ensures m.Valid()
    ensures Placed(old(SnapOf(m)), SnapOf(m), m.cr3, placed, at)
    ensures |args| == 64 * argc && ImageLoaded(m.data, placed, hs, image, argc, args, at)
    ensures forall i :: 0 <= i < |args| ==> Argument(old(SnapOf(m)), m.cr3, m.data, placed, at, argc, argv + i, args[i])
  {
    hide Placed, TreeShaped, Chain, LoadedUpTo, SomeCovers, ImageLoaded, StackByte, ByteAt, DisjointPages, OpenWindow;
    hide PagesKept, ZeroPage, Argument, PathOf, Readable;
    ghost var s0 := SnapOf(m);
    ghost var base := |s0.free| - (Need(hs, 0) + 10);
    ghost var loaded, stored;
    loaded, stored := LoadSegments(m, hs, image, 10);
    ghost var data := m.data;
    PagesLoaded(data, loaded, hs, image, stored);
    placed, at := MapHeapAndStack(m, base, s0, loaded, stored);
    ghost var data1 := m.data;
    args := PushArguments(m, argc, argv, s0, placed, at);
    ImageComplete(data, loaded, stored, data1, m.data, placed, at, hs, image, argc, args);
  }

  lemma ReadsPlaced(s0: Snap, s: Snap, root: nat, placed: Placement, at: Addresses, a: nat)
    requires Placed(s0, s, root, placed, at) && a / 0x1000 in placed
    ensures ByteThrough(s, root, a) == ByteAt(s.data, placed, a) && Get(s.t, root, PathOf(a)).flags == 0x007
  {
    hide PathOf, Beside;
    PlacedAddress(s0, s, root, placed, at, a);
    FlagBits(ZERO);
  }

  /** What the new program reads of its segments. Of a loadable header (type 1) with flags 5 (R and X)
      or 6 (R and W), byte `k` is the file's, up to p_filesz; all else up to p_memsz is zero, and so is
      all of a loadable header with other flags. User mode can reach and write every byte. Pages that
      the kernel stored to are left out. */
  lemma SegmentReads(s0: Snap, s: Snap, root: nat, placed: Placement, at: Addresses, hs: seq<Phdr>, image: seq<bv8>,
                     argc: nat, args: seq<bv8>, j: nat, k: nat)
    requires Placed(s0, s, root, placed, at) && argc < 64 && ImageLoaded(s.data, placed, hs, image, argc, args, at)
    requires TreeShaped(s.t, s.own) && IsRoot(s.own, root)
    requires j < |hs| && hs[j].ptype == 1 && k < hs[j].memsz
    ensures Allows(s.t, root, PathOf(hs[j].vaddr + k), 0x007)
    ensures k < hs[j].filesz ==> hs[j].offset + k < |image|
    ensures PathOf(hs[j].vaddr + k) !in at ==>
      ByteThrough(s, root, hs[j].vaddr + k) ==
        if (hs[j].flags == 5 || hs[j].flags == 6) && k < hs[j].filesz then image[hs[j].offset + k] else 0
  {
    hide PathOf, Placed, TreeShaped, ByteAt, ByteThrough, Get;
    var a := hs[j].vaddr + k;
    assert WellFormed(hs[j], image) && SegmentLoaded(s.data, placed, hs[j], image, at);
    BytesCovered(hs[j], a);
    PathOfPage(a);
    ReadsPlaced(s0, s, root, placed, at, a);
    FlagBits(Get(s.t, root, PathOf(a)));
    LastLevelDecides(s.t, s.own, root, PathOf(a), 0x007);
  }

  /** And of its heap and stack pages: zeros, except that with arguments the 64-bit count stands
      16 + 64 * argc bytes below 0xF0000000, and the arguments right after it. */
  lemma HeapAndStackRead(s0: Snap, s: Snap, root: nat, placed: Placement, at: Addresses, hs: seq<Phdr>, image: seq<bv8>,
                         argc: nat, args: seq<bv8>, k: nat)
    requires Placed(s0, s, root, placed, at) && argc < 64 && ImageLoaded(s.data, placed, hs, image, argc, args, at)
    requires |args| == 64 * argc && k < 0x1000
    ensures PathOf(0x0800_0000) !in at ==> ByteThrough(s, root, 0x0800_0000 + k) == 0
    ensures PathOf(0xEFFF_F000) !in at ==>
      var i := k - (0x1000 - 16 - 64 * argc);
      ByteThrough(s, root, 0xEFFF_F000 + k) ==
        if argc > 0 && i == 0 then argc as bv8 else if argc > 0 && 8 <= i < 8 + 64 * argc then args[i - 8] else 0
  {
    hide PathOf, Placed, ByteAt, ByteThrough, Get, SegmentLoaded, SomeCovers;
    PathOfPage(0x0800_0000);
    PathOfPage(0xEFFF_F000);
    ReadsPlaced(s0, s, root, placed, at, 0x0800_0000 + k);
    ReadsPlaced(s0, s, root, placed, at, 0xEFFF_F000 + k);
    assert (0x0800_0000 + k) / 0x1000 == HEAP_PAGE && (0xEFFF_F000 + k) / 0x1000 == STACK_PAGE;
  }

  /** What the new program finds in an argument byte at `a`, as far as the caller is concerned. */
  ghost function Found(data: map<nat, Bytes>, placed: Placement, argc: nat, a: nat): bv8
    requires argc < 64
  {
    if a / 0x1000 == STACK_PAGE then StackByte(argc, [], a) else ByteAt(data, placed, a)
  }

  /** The arguments arrive if and only if the pages that loading put over them hold the same bytes
      there; in particular when it put none. */
  lemma ArgumentsArriveIff(s0: Snap, root: nat, data: map<nat, Bytes>, placed: Placement, at: Addresses, argc: nat,
                           argv: nat, args: seq<bv8>)
    requires argc < 64 && |args| == 64 * argc && argv + |args| <= 0x1_0000_0000_0000
    requires STACK_PAGE in placed && PagePath(STACK_PAGE) !in at
    requires forall i :: 0 <= i < |args| ==> Argument(s0, root, data, placed, at, argc, argv + i, args[i])
    requires forall a: nat :: argv <= a < argv + |args| ==> !Reached(s0, root, at, At(s0, root, PathOf(a)).frame)
    ensures (forall i :: 0 <= i < |args| ==> args[i] == ByteThrough(s0, root, argv + i)) <==>
      (forall a: nat :: argv <= a < argv + |args| && a / 0x1000 in placed ==>
         Found(data, placed, argc, a) == ByteThrough(s0, root, a))
  {
    hide StackByte, ByteAt, ByteThrough, Reached, PathOf;
    if forall a: nat :: argv <= a < argv + |args| && a / 0x1000 in placed ==>
        Found(data, placed, argc, a) == ByteThrough(s0, root, a) {
      forall i | 0 <= i < |args|
        ensures args[i] == ByteThrough(s0, root, argv + i)
      {
        assert Argument(s0, root, data, placed, at, argc, argv + i, args[i]);
      }
    }
    if forall i :: 0 <= i < |args| ==> args[i] == ByteThrough(s0, root, argv + i) {
      forall a: nat | argv <= a < argv + |args| && a / 0x1000 in placed
        ensures Found(data, placed, argc, a) == ByteThrough(s0, root, a)
      {
        assert Argument(s0, root, data, placed, at, argc, argv + (a - argv), args[a - argv]);
      }
    }
  }
}
