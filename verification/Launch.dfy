/** Programs in memory: create_process and sanexecve clone the address space and load into the clone.
    What that makes of the address spaces, and where copy-on-write starts from. */
module Launch {
  import opened Frames
  import opened Utils
  import opened Paging
  import opened AddressSpace
  import opened Phymap
  import opened Elf
  import opened Cow

  // ---- Loading into a clone ----------------------------------------------------------------

  lemma PageOfPath(page: nat)
    requires page < 0x10_0000_0000
    ensures PageNumber(PagePath(page)) == page
  {
    hide PathOf, PageNumber;
    PathIsPageNumber(page * 0x1000);
  }

  /** The pages that loading has placed, with their contents. */
  ghost function ImageOf(data: map<nat, Bytes>, placed: Placement): Image {
    map x | x in (set page | page in placed :: PagePath(page)) && ContentAt(data, placed, x).Some? ::
      ContentAt(data, placed, x).bytes
  }

  datatype Content = None | Some(bytes: Bytes)

  ghost function ContentAt(data: map<nat, Bytes>, placed: Placement, x: seq<nat>): Content {
    if IsPath(x) && PageNumber(x) in placed && placed[PageNumber(x)] in data
    then Some(data[placed[PageNumber(x)]]) else None
  }

  lemma InImage(s0: Snap, s: Snap, root: nat, placed: Placement, at: Addresses, x: seq<nat>)
    requires Placed(s0, s, root, placed, at) && IsPath(x)
    ensures x in ImageOf(s.data, placed) <==> PageNumber(x) in placed && x == PagePath(PageNumber(x))
    ensures x in ImageOf(s.data, placed) ==>
      && Get(s.t, root, x) == Entry(placed[PageNumber(x)], LINK) && FrameSound(s0, s, placed[PageNumber(x)])
      && ImageOf(s.data, placed)[x] == s.data[placed[PageNumber(x)]]
    ensures x !in ImageOf(s.data, placed) ==> Get(s.t, root, x) == Get(s0.t, root, x)
  {
    hide PathOf, Get, Beside, PageNumber;
    forall page | page in placed
      ensures IsPlaced(s.t, root, page, placed[page]) && FrameSound(s0, s, placed[page])
      ensures PageNumber(PagePath(page)) == page
    {
      assert IsPlaced(s.t, root, page, placed[page]);
      PageOfPath(page);
    }
  }

  lemma LoadedPage(s: Snap, s1: Snap, s': Snap, p: nat, n: nat, placed: Placement, at: Addresses, x: seq<nat>)
    requires CloneStep(s.t, s.own, s1.t, s1.own, p, n) && (forall f :: f in s1.free ==> f in s.free)
    requires Placed(s1, s', n, placed, at) && IsPath(x)
    ensures ExecPage(s, s', p, n, ImageOf(s'.data, placed), x)
  {
    hide PathOf, Get, Beside, PageNumber, ImageOf, Placed, TreeShaped;
    InImage(s1, s', n, placed, at, x);
    CloneTranslates(s.t, s.own, s1.t, s1.own, p, n, p, x);
    LinkFlags(At(s', n, x));
  }

  lemma LinkFlags(e: Entry)
    ensures e.flags == LINK ==> e.Present() && e.Writable()
  {
  }

  lemma LoadedBeside(s: Snap, s1: Snap, s': Snap, p: nat, n: nat, at: Addresses, r: nat, i: nat)
    requires CloneStep(s.t, s.own, s1.t, s1.own, p, n) && IsRoot(s.own, r) && i < 510
    requires TreeShaped(s'.t, s'.own) && Beside(s1, s', n, at)
    ensures ExecBeside(s, s', p, n, r, i)
  {
    assert IsRoot(s1.own, r) && IsRoot(s1.own, n) && IsRoot(s'.own, r) && IsRoot(s'.own, n);
    assert SlotBeside(s1, s', n, r, i);
    forall x | IsPath(x) && x[0] == i && !SameSlot(s.t, r, p, i)
      ensures At(s', r, x) == At(s, r, x)
    {
      assert !SameSlot(s1.t, r, n, i);
      CloneTranslates(s.t, s.own, s1.t, s1.own, p, n, r, x);
    }
  }

  /** The clone shows at every address what the original shows. */
  lemma CloneReaches(s: Snap, s1: Snap, p: nat, n: nat, at: Addresses, g: nat)
    requires CloneStep(s.t, s.own, s1.t, s1.own, p, n)
    ensures Reached(s1, n, at, g) <==> Reached(s, p, at, g)
  {
    hide Get, CloneStep;
    forall x | x in at && IsPath(x)
      ensures At(s1, n, x) == At(s, p, x)
    {
      CloneStart(s.t, s.own, s1.t, s1.own, p, n);
      CloneTranslates(s.t, s.own, s1.t, s1.own, p, n, p, x);
    }
  }

  lemma CloneStart(t: Tables, own: Owner, t': Tables, own': Owner, p: nat, n: nat)
    requires CloneStep(t, own, t', own', p, n)
    ensures IsRoot(own, p) && TreeShaped(t, own)
  {
    hide TreeShaped;
  }

  /** Cloning and then loading into the clone is the exec step. */
  lemma LoadIsExecSnap(s: Snap, s1: Snap, s': Snap, p: nat, n: nat, placed: Placement, at: Addresses)
    requires CloneStep(s.t, s.own, s1.t, s1.own, p, n) && s1.data == s.data && n in s.free
    requires (forall f :: f in s1.free ==> f in s.free) && Placed(s1, s', n, placed, at)
    requires TreeShaped(s'.t, s'.own) && NoDuplicates(s'.free)
    requires forall f :: f in s'.free ==> f in s'.data && f !in s'.own
    ensures ExecSnap(s, s', p, n, ImageOf(s'.data, placed), at)
  {
    var image := ImageOf(s'.data, placed);
    hide PathOf, Get, PageNumber, ImageOf, TreeShaped, ExecPage, ExecBeside, SlotBeside, Reached;
    SuffixFacts(s'.free, s1.free);
    forall f | f in s.data && f !in s.free
      ensures Reached(s1, n, at, f) <==> Reached(s, p, at, f)
    {
      CloneReaches(s, s1, p, n, at, f);
    }
    forall x | IsPath(x)
      ensures ExecPage(s, s', p, n, image, x)
    {
      LoadedPage(s, s1, s', p, n, placed, at, x);
    }
    forall r, i | IsRoot(s.own, r) && 0 <= i < 510
      ensures ExecBeside(s, s', p, n, r, i)
    {
      LoadedBeside(s, s1, s', p, n, at, r, i);
    }
    forall x, y | x in image && y in image && IsPath(x) && IsPath(y) && x != y
      ensures At(s', n, x).frame != At(s', n, y).frame
    {
      InImage(s1, s', n, placed, at, x);
      InImage(s1, s', n, placed, at, y);
    }
  }

  lemma CloneRoot(s: Snap, s1: Snap, p: nat, n: nat)
    requires CloneStep(s.t, s.own, s1.t, s1.own, p, n)
    ensures IsRoot(s1.own, p) && IsRoot(s1.own, n)
  {
    hide TreeShaped;
  }

  lemma KeptRoot(s0: Snap, s: Snap, root: nat, placed: Placement, at: Addresses, r: nat)
    requires Placed(s0, s, root, placed, at) && IsRoot(s0.own, r)
    ensures IsRoot(s.own, r)
  {
  }

  /** What can be stored to before cloning can be stored to under the clone. */
  lemma CloneWindows(s: Snap, s1: Snap, p: nat, n: nat, k: nat)
    requires CloneStep(s.t, s.own, s1.t, s1.own, p, n) && s1.data == s.data && NoDuplicates(s.free)
    requires OpenWindows(s, p, k + 1) && n == s.free[0] && s1.free == s.free[1..]
    ensures OpenWindows(s1, n, k)
  {
    hide PathOf, Get, TreeShaped;
    forall i | 0 <= i < k
      ensures OpenWindow(s1, n, s1.free[i])
    {
      assert s1.free[i] == s.free[i + 1] && OpenWindow(s, p, s.free[i + 1]);
      CloneTranslates(s.t, s.own, s1.t, s1.own, p, n, p, PathOf(s1.free[i] * PAGE_SIZE));
    }
  }

  lemma CloneReads(s: Snap, s1: Snap, p: nat, n: nat, argv: nat, size: nat)
    requires CloneStep(s.t, s.own, s1.t, s1.own, p, n) && s1.data == s.data && s.free != [] && s1.free == s.free[1..]
    requires Readable(s, p, argv, size)
    ensures Readable(s1, n, argv, size)
    ensures forall a: nat :: argv <= a < argv + size ==> ByteThrough(s1, n, a) == ByteThrough(s, p, a)
  {
    hide PathOf, Get, CloneStep;
    CloneStart(s.t, s.own, s1.t, s1.own, p, n);
    forall a: nat | argv <= a < argv + size
      ensures ReadableAt(s1, n, a) && ByteThrough(s1, n, a) == ByteThrough(s, p, a)
    {
      assert ReadableAt(s, p, a);
      CloneTranslates(s.t, s.own, s1.t, s1.own, p, n, p, PathOf(a));
    }
  }

  lemma CloneArgument(s: Snap, s1: Snap, p: nat, n: nat, data: map<nat, Bytes>, placed: Placement, at: Addresses,
                      argc: nat, a: nat, b: bv8)
    requires CloneStep(s.t, s.own, s1.t, s1.own, p, n) && ByteThrough(s1, n, a) == ByteThrough(s, p, a) && argc < 64
    requires Argument(s1, n, data, placed, at, argc, a, b)
    ensures Argument(s, p, data, placed, at, argc, a, b)
  {
    hide PathOf, Get, CloneStep, ByteThrough, ByteAt, StackByte, Reached;
    CloneStart(s.t, s.own, s1.t, s1.own, p, n);
    CloneTranslates(s.t, s.own, s1.t, s1.own, p, n, p, PathOf(a));
    CloneReaches(s, s1, p, n, at, At(s, p, PathOf(a)).frame);
  }

  lemma CloneArguments(s: Snap, s1: Snap, p: nat, n: nat, data: map<nat, Bytes>, placed: Placement, at: Addresses,
                       argc: nat, argv: nat, args: seq<bv8>)
    requires CloneStep(s.t, s.own, s1.t, s1.own, p, n) && argc < 64
    requires forall a: nat :: argv <= a < argv + |args| ==> ByteThrough(s1, n, a) == ByteThrough(s, p, a)
    requires forall i :: 0 <= i < |args| ==> Argument(s1, n, data, placed, at, argc, argv + i, args[i])
    ensures forall i :: 0 <= i < |args| ==> Argument(s, p, data, placed, at, argc, argv + i, args[i])
  {
    hide Argument, CloneStep, ByteThrough;
    forall i | 0 <= i < |args|
      ensures Argument(s, p, data, placed, at, argc, argv + i, args[i])
    {
      CloneArgument(s, s1, p, n, data, placed, at, argc, argv + i, args[i]);
    }
  }

  /** The address-space work that create_process and sanexecve share. */
  method LoadProcess(m: Machine, hs: seq<Phdr>, file: seq<bv8>, argc: nat, argv: nat)
    returns (root: nat, ghost placed: Placement, ghost at: Addresses, args: seq<bv8>)
    requires m.Valid() && DisjointPages(hs) && OpenWindows(SnapOf(m), m.cr3, Need(hs, 0) + 11)
    requires forall i :: 0 <= i < |hs| ==> WellFormed(hs[i], file)
    requires !SomeCovers(hs, |hs|, HEAP_PAGE) && !SomeCovers(hs, |hs|, STACK_PAGE)
    requires argc < 64 && Readable(SnapOf(m), m.cr3, argv, 64 * argc)
    modifies m`tables, m`own, m`data, m`cr3, m.frames`freeList, m.frames`free
    ensures m.Valid() && m.cr3 == old(m.cr3)
    ensures |args| == 64 * argc && ImageLoaded(m.data, placed, hs, file, argc, args, at)
    ensures forall i :: 0 <= i < |args| ==> Argument(old(SnapOf(m)), m.cr3, m.data, placed, at, argc, argv + i, args[i])
    ensures ExecSnap(old(SnapOf(m)), SnapOf(m), m.cr3, root, ImageOf(m.data, placed), at)
  {
    hide Placed, TreeShaped, ImageLoaded, SomeCovers, DisjointPages, ExecSnap, CloneStep, ImageOf, IsRoot, Argument;
    hide Readable, ByteThrough, OpenWindow, PathOf, Get;
    ghost var s := SnapOf(m);
    root := m.SetUserAddrSpace();
    var current := m.cr3;
    ghost var s1 := SnapOf(m);
    CloneRoot(s, s1, current, root);
    CloneWindows(s, s1, current, root, Need(hs, 0) + 10);
    CloneReads(s, s1, current, root, argv, 64 * argc);
    m.cr3 := root;
    placed, at, args := ElfLoad(m, hs, file, argc, argv);
    m.cr3 := current;
    KeptRoot(s1, SnapOf(m), root, placed, at, current);
    LoadIsExecSnap(s, s1, SnapOf(m), current, root, placed, at);
    CloneArguments(s, s1, current, root, m.data, placed, at, argc, argv, args);
  }

  // ---- Where copy-on-write starts ----------------------------------------------------------

  /** A process loaded into a space that shows nothing on the user pages it does not load satisfies
      the copy-on-write invariant on its own: every user page writable, in a frame that no other
      page, no table and no free-list entry uses. */
  lemma LoadedProcessIsSound(s: Snap, s': Snap, p: nat, n: nat, image: Image, at: Addresses, pages: Pages)
    requires ExecSnap(s, s', p, n, image, at)
    requires forall x :: x in pages ==> x in image || !At(s, p, x).Present()
    ensures Inv(s', {n}, pages)
    ensures forall x :: x in pages && At(s', n, x).Present() ==> x in image && At(s', n, x).Writable()
  {
    hide TreeShaped, Get;
    forall x | x in pages
      ensures PageSound(s', n, x) && (At(s', n, x).Present() ==> x in image && At(s', n, x).Writable())
    {
      assert ExecPage(s, s', p, n, image, x);
    }
    forall x, y | x in pages && y in pages
      ensures Exclusive(s', n, x, n, y)
    {
      assert ExecPage(s, s', p, n, image, x) && ExecPage(s, s', p, n, image, y);
    }
  }

  /** What each process owns in the eager machine to begin with: what it sees. */
  ghost function Contents(s: Snap, procs: set<nat>, pages: Pages): Spaces {
    imap l: Loc | SeenAt(s, procs, pages, l).Some? :: SeenAt(s, procs, pages, l).bytes
  }

  ghost function SeenAt(s: Snap, procs: set<nat>, pages: Pages, l: Loc): Content {
    if l.proc in procs && l.page in pages && At(s, l.proc, l.page).Present() && At(s, l.proc, l.page).frame in s.data
    then Some(s.data[At(s, l.proc, l.page).frame]) else None
  }

  lemma RefinesOwnContents(s: Snap, procs: set<nat>, pages: Pages)
    requires Inv(s, procs, pages)
    ensures Refines(s, procs, pages, Contents(s, procs, pages))
  {
    hide TreeShaped, Get;
    forall p, x | p in procs && x in pages
      ensures SamePage(s, Contents(s, procs, pages), p, x)
    {
      assert PageSound(s, p, x);
    }
  }

  /** So from loading on, whatever forks, execs, kernel stores and user writes follow, as long as they
      are safe, every process reads exactly what it would read had each fork copied every page at once. */
  lemma ForkedFromLoaded(s: Snap, p: nat, n: nat, image: Image, at: Addresses, ss: seq<Snap>, pages: Pages,
                         evs: seq<Event>, k: nat, q: nat, x: seq<nat>)
    requires Cow.Run(ss, {n}, pages, evs) && k <= |evs|
    requires forall j :: 0 <= j < k ==> Safe(ss[j], ProcsAt({n}, evs, j), pages, evs[j])
    requires ExecSnap(s, ss[0], p, n, image, at)
    requires forall y :: y in pages ==> y in image || !At(s, p, y).Present()
    requires q in ProcsAt({n}, evs, k) && x in pages
    ensures SamePage(ss[k], EagerAt(Contents(ss[0], {n}, pages), evs, k), q, x)
  {
    hide Cow.Step, SamePage, Inv, EagerAt, ProcsAt, Contents, ExecSnap, Safe, At;
    LoadedProcessIsSound(s, ss[0], p, n, image, at, pages);
    RefinesOwnContents(ss[0], {n}, pages);
    CowRefinesEagerCopy(ss, {n}, pages, evs, Contents(ss[0], {n}, pages), k);
  }
}
