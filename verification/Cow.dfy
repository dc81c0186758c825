/** Copy-on-write fork refines eager copying: over every interleaving of forks, execs, user writes and
    the kernel's stores into its own structures, each process reads what it would read had fork
    copied every user page at once. And exactly when the kernel gets that wrong. */
module Cow {
  import opened Frames
  import opened Utils
  import opened Paging
  import opened AddressSpace
  import opened Phymap

  /** The pages that count as the users': any below the two kernel PML4 slots. */
  type Pages = x: iset<seq<nat>> | AllUserPaths(x) witness iset{}

  ghost predicate AllUserPaths(pages: iset<seq<nat>>) {
    forall x :: x in pages ==> IsPath(x) && x[0] < 510
  }

  // ---- The machine and its invariant -----------------------------------------------------

  ghost predicate IdentityMapped(s: Snap, p: nat, f: nat) {
    Window(s, p, f).Present() && Window(s, p, f).frame == f
  }

  ghost predicate PageSound(s: Snap, p: nat, x: seq<nat>)
    requires IsPath(x)
  {
    var e := At(s, p, x);
    e.Present() ==>
      e.User() && e.frame in s.data && e.frame !in s.free && e.frame !in s.own && (e.Writable() || e.Cow())
  }

  /** A writable user frame is reachable from one page of one process only. */
  ghost predicate Exclusive(s: Snap, p: nat, x: seq<nat>, q: nat, y: seq<nat>)
    requires IsPath(x) && IsPath(y)
  {
    At(s, p, x).Present() && At(s, p, x).Writable() && At(s, q, y).Present() && At(s, q, y).frame == At(s, p, x).frame
    ==> p == q && x == y
  }

  ghost predicate Inv(s: Snap, procs: set<nat>, pages: Pages) {
    && TreeShaped(s.t, s.own) && NoDuplicates(s.free)
    && (forall f :: f in s.free ==> f in s.data && f !in s.own)
    && (forall p :: p in procs ==> IsRoot(s.own, p))
    && (forall p, q, i :: p in procs && q in procs && p != q && 0 <= i < 510 ==> !SameSlot(s.t, p, q, i))
    && (forall p, x :: p in procs && x in pages ==> PageSound(s, p, x))
    && (forall p, x, q, y :: p in procs && q in procs && x in pages && y in pages ==> Exclusive(s, p, x, q, y))
  }

  // ---- Steps -----------------------------------------------------------------------------

  /** proc_fork's address-space work, from process `p` to the new process `c`. */
  ghost predicate ForkSnap(s: Snap, s': Snap, p: nat, c: nat) {
    && ForkStep(s.t, s.own, s'.t, s'.own, p, c) && s'.data == s.data
    && Suffix(s'.free, s.free)
    && (forall f :: f in s'.own && f !in s.own ==> f in s.free && f !in s'.free)
  }

  /** The kernel, under root `p`, takes frames for structures of its own and stores at pages `at`:
      Task and vma fields, wherever those structures live. Each store goes to the frame that the
      current root shows there. */
  ghost predicate KernelSnap(s: Snap, s': Snap, p: nat, at: Addresses) {
    && s'.t == s.t && s'.own == s.own && Suffix(s'.free, s.free) && s'.data.Keys == s.data.Keys
    && (forall x :: x in at ==> IsPath(x) && Storable(s, p, x) && At(s, p, x).frame !in s'.free)
    && (forall g :: g in s.data && !Reached(s, p, at, g) ==> s'.data[g] == s.data[g])
  }

  /** What the handler finds at the address of the first free frame: a frame that it may write. */
  ghost predicate WindowOpen(s: Snap, p: nat) {
    && s.free != []
    && var e := Window(s, p, s.free[0]);
       e.Present() && e.frame in s.data && e.frame !in s.own && e.frame !in s.free[1..]
  }

  /** pg_fault_handler on page `x` of process `p`, whose entry has PTE_COW: a copy in whatever frame
      is mapped at the address of the first free frame, itself mapped with that entry's flags. */
  ghost predicate FaultSnap(s: Snap, s': Snap, p: nat, x: seq<nat>) {
    && IsPath(x) && At(s, p, x).Cow() && At(s, p, x).frame in s.data && WindowOpen(s, p)
    && var e := Window(s, p, s.free[0]);
       && MapStep(s.t, s.own, s'.t, s'.own, p, x, e.Or(LINK))
       && s'.own == s.own
       && s'.data == s.data[e.frame := s.data[At(s, p, x).frame]]
       && s'.free == s.free[1..]
  }

  /** A store that the processor lets through. */
  ghost predicate StoreSnap(s: Snap, s': Snap, p: nat, x: seq<nat>, off: nat, b: bv8) {
    && IsPath(x) && off < PAGE_SIZE
    && At(s, p, x).Present() && At(s, p, x).Writable() && At(s, p, x).frame in s.data
    && s' == s.(data := s.data[At(s, p, x).frame := s.data[At(s, p, x).frame][off := b]])
  }

  /** A user store: straight through when the page is writable, after the fault handler when not. */
  ghost predicate WriteSnap(s: Snap, s': Snap, p: nat, x: seq<nat>, off: nat, b: bv8) {
    && IsPath(x) && At(s, p, x).Present()
    && if At(s, p, x).Writable() then StoreSnap(s, s', p, x, off, b)
       else exists m :: FaultSnap(s, m, p, x) && StoreSnap(m, s', p, x, off, b)
  }

  /** What exec loads: the contents of the pages it maps. */
  type Image = map<seq<nat>, Bytes>

  /** sanexecve's address-space work in process `p`: a clone `n` of the root, loaded with `image`.
      On the way the kernel stores into vma structures at pages `at`. Where the image lies there by
      then, the stores spoil it, which `image` reflects; elsewhere they go to what `p` shows there. */
  ghost predicate ExecSnap(s: Snap, s': Snap, p: nat, n: nat, image: Image, at: Addresses) {
    && TreeShaped(s'.t, s'.own) && IsRoot(s.own, p) && n !in s.own && IsRoot(s'.own, n)
    && (forall r :: IsRoot(s.own, r) ==> IsRoot(s'.own, r))
    && (forall f :: f in s'.own && f !in s.own ==> f in s.free)
    && NoDuplicates(s'.free) && (forall f :: f in s'.free ==> f in s.free && f in s'.data && f !in s'.own)
    && (forall f :: f in s.data && f !in s.free ==> f in s'.data)
    && (forall f :: f in s.data && f !in s.free && !Reached(s, p, at, f) ==> s'.data[f] == s.data[f])
    && (forall x :: IsPath(x) ==> ExecPage(s, s', p, n, image, x))
    && (forall x, y :: x in image && y in image && IsPath(x) && IsPath(y) && x != y ==>
          At(s', n, x).frame != At(s', n, y).frame)
    && (forall r, i :: IsRoot(s.own, r) && 0 <= i < 510 ==> ExecBeside(s, s', p, n, r, i))
  }

  /** Page `x` of the new space: loaded into a fresh frame, or what the old space has there. */
  ghost predicate ExecPage(s: Snap, s': Snap, p: nat, n: nat, image: Image, x: seq<nat>)
    requires IsPath(x)
  {
    var e := At(s', n, x);
    if x in image then
      && e.Present() && e.Writable() && e.User() && e.frame in s.free && e.frame !in s'.free && e.frame !in s'.own
      && e.frame in s'.data && s'.data[e.frame] == image[x]
    else e == At(s, p, x)
  }

  /** Slots of other roots, unless shared with `p`, are kept, and not shared with `n`. */
  ghost predicate ExecBeside(s: Snap, s': Snap, p: nat, n: nat, r: nat, i: nat)
    requires i < 512
  {
    && r in s.t && p in s.t && r in s'.t && n in s'.t
    && (!SameSlot(s.t, r, p, i) ==>
          && !SameSlot(s'.t, r, n, i) && EntrySame(s.t, s'.t, r, i)
          && forall x :: IsPath(x) && x[0] == i ==> At(s', r, x) == At(s, r, x))
  }

  datatype Event =
    | Fork(parent: nat, child: nat)
    | Exec(caller: nat, root: nat, image: Image, at: Addresses)
    | Kernel(proc: nat, at: Addresses)
    | Write(proc: nat, page: seq<nat>, off: nat, byte: bv8)

  ghost predicate Step(s: Snap, s': Snap, procs: set<nat>, pages: Pages, ev: Event) {
    match ev
    case Fork(p, c) => p in procs && ForkSnap(s, s', p, c)
    case Exec(p, n, image, at) => p in procs && ExecSnap(s, s', p, n, image, at)
    case Kernel(p, at) => p in procs && KernelSnap(s, s', p, at)
    case Write(p, x, off, b) => p in procs && x in pages && WriteSnap(s, s', p, x, off, b)
  }

  /** The processes afterwards; the caller of exec has ended. */
  function Procs(procs: set<nat>, ev: Event): set<nat> {
    match ev
    case Fork(_, c) => procs + {c}
    case Exec(p, n, _, _) => procs - {p} + {n}
    case _ => procs
  }

  /** Page `y` of process `q` does not show frame `g`. */
  ghost predicate Elsewhere(s: Snap, q: nat, y: seq<nat>, g: nat)
    requires IsPath(y)
  {
    At(s, q, y).Present() ==> At(s, q, y).frame != g
  }

  /** No user page but page `x` of process `p` shows frame `g`. */
  ghost predicate Unshared(s: Snap, procs: set<nat>, pages: Pages, p: nat, x: seq<nat>, g: nat) {
    forall q, y :: q in procs && y in pages && (q != p || y != x) ==> Elsewhere(s, q, y, g)
  }

  /** No user page shows frame `g`. */
  ghost predicate Unshown(s: Snap, procs: set<nat>, pages: Pages, g: nat) {
    forall q, y :: q in procs && y in pages ==> Elsewhere(s, q, y, g)
  }

  /** No user page will show frame `g` once process `p` has been replaced by `image`. */
  ghost predicate UnshownBeside(s: Snap, procs: set<nat>, pages: Pages, p: nat, image: Image, g: nat) {
    forall q, y :: q in procs && y in pages && (q == p ==> y !in image) ==> Elsewhere(s, q, y, g)
  }

  /** When the event is a store that faults, no other user page shows the frame that the handler
      finds at the address of the fresh one. */
  ghost predicate FaultSafe(s: Snap, procs: set<nat>, pages: Pages, ev: Event) {
    ev.Write? && IsPath(ev.page) && !At(s, ev.proc, ev.page).Writable() ==>
      s.free != [] && Unshared(s, procs, pages, ev.proc, ev.page, Window(s, ev.proc, s.free[0]).frame)
  }

  /** And when the kernel stores into its structures, no user page shows the frames that it stores to. */
  ghost predicate Safe(s: Snap, procs: set<nat>, pages: Pages, ev: Event) {
    && FaultSafe(s, procs, pages, ev)
    && (ev.Kernel? ==> forall x :: x in ev.at && IsPath(x) ==> Unshown(s, procs, pages, At(s, ev.proc, x).frame))
    && (ev.Exec? ==> forall x :: x in ev.at && IsPath(x) && At(s, ev.caller, x).Present() ==>
          UnshownBeside(s, procs, pages, ev.caller, ev.image, At(s, ev.caller, x).frame))
  }

  // ---- The eager machine -----------------------------------------------------------------

  datatype Loc = Loc(proc: nat, page: seq<nat>)

  /** Every process owns the contents of its pages. */
  type Spaces = imap<Loc, Bytes>

  ghost function EagerStep(m: Spaces, ev: Event): Spaces {
    match ev
    case Fork(p, c) =>
      imap l: Loc | (if l.proc == c then Loc(p, l.page) in m else l in m) ::
        (if l.proc == c then m[Loc(p, l.page)] else m[l])
    case Kernel(_, _) => m
    case Exec(p, n, image, _) =>
      imap l: Loc | (if l.proc == n then l.page in image || Loc(p, l.page) in m else l in m) ::
        (if l.proc == n then if l.page in image then image[l.page] else m[Loc(p, l.page)] else m[l])
    case Write(p, x, off, b) =>
      if Loc(p, x) in m && off < PAGE_SIZE then m[Loc(p, x) := m[Loc(p, x)][off := b]] else m
  }

  /** Process `p` sees on page `x` of the machine what it owns in the eager one. */
  ghost predicate SamePage(s: Snap, m: Spaces, p: nat, x: seq<nat>)
    requires IsPath(x)
  {
    && (Loc(p, x) in m <==> At(s, p, x).Present())
    && (At(s, p, x).Present() ==> At(s, p, x).frame in s.data && m[Loc(p, x)] == s.data[At(s, p, x).frame])
  }

  ghost predicate Refines(s: Snap, procs: set<nat>, pages: Pages, m: Spaces) {
    forall p, x :: p in procs && x in pages ==> SamePage(s, m, p, x)
  }

  // ---- Preservation ----------------------------------------------------------------------

  lemma FlagFacts(e: Entry)
    ensures e.Or(LINK).Present() && e.Or(LINK).Writable() && e.Or(LINK).User()
    ensures Marked(e).Present() == e.Present() && Copied(e).Present() == e.Present()
    ensures e.Present() ==> Marked(e).frame == Copied(e).frame == e.frame
    ensures e.Present() ==> !Marked(e).Writable() && Marked(e).Cow() && Marked(e).User() && Marked(e) == Copied(e)
  {
    var g := e.flags;
    assert (g | LINK) & PTE_P != 0 && (g | LINK) & PTE_W != 0 && (g | LINK) & PTE_U != 0;
    assert SHARED & PTE_P != 0 && SHARED & PTE_W == 0 && SHARED & PTE_COW != 0 && SHARED & PTE_U != 0;
  }

  /** Under the invariant, user mode can read every user page that is present: all four levels of its
      walk are present and for the user. Where the page is writable it can write it. */
  lemma UserAccess(s: Snap, procs: set<nat>, pages: Pages, p: nat, x: seq<nat>)
    requires Inv(s, procs, pages) && p in procs && x in pages && At(s, p, x).Present()
    ensures Allows(s.t, p, x, 0x005)
    ensures At(s, p, x).Writable() ==> Allows(s.t, p, x, 0x007)
  {
    var e := At(s, p, x);
    assert PageSound(s, p, x) && IsRoot(s.own, p);
    FlagBits(e);
    var f := e.flags;
    assert f & 0x001 == 0x001 && f & 0x004 == 0x004 ==> f & 0x005 == 0x005;
    assert f & 0x005 == 0x005 && f & 0x002 == 0x002 ==> f & 0x007 == 0x007;
    assert 0x005 & 0x007 as bv12 == 0x005;
    hide TreeShaped, Get;
    LastLevelDecides(s.t, s.own, p, x, 0x005);
    if e.Writable() { LastLevelDecides(s.t, s.own, p, x, 0x007); }
  }

  /** After a fork, every process reads its old entries; parent and child lose write access. */
  lemma ForkEntries(s: Snap, s': Snap, procs: set<nat>, pages: Pages, p: nat, c: nat, r: nat, x: seq<nat>)
    requires Inv(s, procs, pages) && p in procs && ForkSnap(s, s', p, c) && IsPath(x) && x[0] < 510
    requires r in procs || r == c
    ensures var e := At(s, if r == c then p else r, x);
            At(s', r, x) == if r == c then Copied(e) else if r == p then Marked(e) else e
  {
    assert r in procs ==> IsRoot(s.own, r);
  }

  lemma ForkKeepsPage(s: Snap, s': Snap, procs: set<nat>, pages: Pages, p: nat, c: nat, r: nat, x: seq<nat>)
    requires Inv(s, procs, pages) && p in procs && ForkSnap(s, s', p, c)
    requires r in procs + {c} && x in pages
    ensures PageSound(s', r, x)
  {
    var o := if r == c then p else r;
    assert PageSound(s, o, x);
    ForkEntries(s, s', procs, pages, p, c, r, x);
    FlagFacts(At(s, o, x));
  }

  lemma ForkKeepsExclusive(s: Snap, s': Snap, procs: set<nat>, pages: Pages, p: nat, c: nat, q: nat, x: seq<nat>,
                           r: nat, y: seq<nat>)
    requires Inv(s, procs, pages) && p in procs && ForkSnap(s, s', p, c)
    requires q in procs + {c} && r in procs + {c} && x in pages && y in pages
    ensures Exclusive(s', q, x, r, y)
  {
    var o, o' := if q == c then p else q, if r == c then p else r;
    assert Exclusive(s, o, x, o', y);
    ForkEntries(s, s', procs, pages, p, c, q, x);
    ForkEntries(s, s', procs, pages, p, c, r, y);
    FlagFacts(At(s, o, x));
    FlagFacts(At(s, o', y));
  }

  lemma ForkKeepsInv(s: Snap, s': Snap, procs: set<nat>, pages: Pages, p: nat, c: nat)
    requires Inv(s, procs, pages) && p in procs && ForkSnap(s, s', p, c)
    ensures Inv(s', procs + {c}, pages)
  {
    hide PageSound, Exclusive, SameSlot;
    forall q, r, i | q in procs + {c} && r in procs + {c} && q != r && 0 <= i < 510
      ensures q in s'.t && r in s'.t && !SameSlot(s'.t, q, r, i)
    {
      ForkKeepsApart(s, s', procs, pages, p, c, q, r, i);
    }
    forall r, x | r in procs + {c} && x in pages
      ensures PageSound(s', r, x)
    {
      ForkKeepsPage(s, s', procs, pages, p, c, r, x);
    }
    forall q, x, r, y | q in procs + {c} && r in procs + {c} && x in pages && y in pages
      ensures Exclusive(s', q, x, r, y)
    {
      ForkKeepsExclusive(s, s', procs, pages, p, c, q, x, r, y);
    }
  }

  lemma ForkKeepsApart(s: Snap, s': Snap, procs: set<nat>, pages: Pages, p: nat, c: nat, q: nat, r: nat, i: nat)
    requires Inv(s, procs, pages) && p in procs && ForkSnap(s, s', p, c) && i < 510
    requires q in procs + {c} && r in procs + {c} && q != r
    ensures q in s'.t && r in s'.t && !SameSlot(s'.t, q, r, i)
  {
    assert IsRoot(s'.own, q) && IsRoot(s'.own, r);
    assert ChildSlot(s.t, s.own, s'.t, p, c, i);
    if q != c { assert IsRoot(s.own, q) && EntrySame(s.t, s'.t, q, i) && ChildOwned(s.t, s.own, q, i); }
    if r != c { assert IsRoot(s.own, r) && EntrySame(s.t, s'.t, r, i) && ChildOwned(s.t, s.own, r, i); }
    if q != c && r != c { assert !SameSlot(s.t, q, r, i); }
  }

  lemma ForkRefines(s: Snap, s': Snap, procs: set<nat>, pages: Pages, p: nat, c: nat, m: Spaces)
    requires Inv(s, procs, pages) && p in procs && ForkSnap(s, s', p, c) && Refines(s, procs, pages, m)
    ensures Refines(s', procs + {c}, pages, EagerStep(m, Fork(p, c)))
  {
    forall r, x | r in procs + {c} && x in pages
      ensures SamePage(s', EagerStep(m, Fork(p, c)), r, x)
    {
      var o := if r == c then p else r;
      assert SamePage(s, m, o, x) && IsRoot(s.own, o);
      ForkEntries(s, s', procs, pages, p, c, r, x);
      FlagFacts(At(s, o, x));
    }
  }

  /** The fault handler changes one entry. */
  lemma FaultEntries(s: Snap, s': Snap, procs: set<nat>, pages: Pages, p: nat, x: seq<nat>, r: nat, y: seq<nat>)
    requires Inv(s, procs, pages) && p in procs && x in pages && FaultSnap(s, s', p, x)
    requires r in procs && IsPath(y) && y[0] < 510
    ensures At(s', r, y) == if r == p && y == x then Window(s, p, s.free[0]).Or(LINK) else At(s, r, y)
  {
    assert IsRoot(s.own, r);
    assert r != p ==> !SameSlot(s.t, r, p, x[0]);
  }

  lemma FaultKeepsApart(s: Snap, s': Snap, procs: set<nat>, pages: Pages, p: nat, x: seq<nat>, q: nat, r: nat, i: nat)
    requires Inv(s, procs, pages) && p in procs && x in pages && FaultSnap(s, s', p, x) && i < 510
    requires q in procs && r in procs && q != r
    ensures q in s'.t && r in s'.t && !SameSlot(s'.t, q, r, i)
  {
    assert IsRoot(s'.own, q) && IsRoot(s'.own, r) && !SameSlot(s.t, q, r, i);
    assert ChildOwned(s.t, s.own, q, i) && ChildOwned(s.t, s.own, r, i);
    if q != p || i != x[0] { assert EntrySame(s.t, s'.t, q, i); }
    if r != p || i != x[0] { assert EntrySame(s.t, s'.t, r, i); }
  }

  lemma FaultKeepsPage(s: Snap, s': Snap, procs: set<nat>, pages: Pages, p: nat, x: seq<nat>, r: nat, y: seq<nat>)
    requires Inv(s, procs, pages) && p in procs && x in pages && FaultSnap(s, s', p, x) && r in procs && y in pages
    ensures PageSound(s', r, y)
  {
    assert PageSound(s, r, y);
    FaultEntries(s, s', procs, pages, p, x, r, y);
    FlagFacts(Window(s, p, s.free[0]));
  }

  lemma FaultKeepsExclusive(s: Snap, s': Snap, procs: set<nat>, pages: Pages, p: nat, x: seq<nat>,
                            q: nat, y: seq<nat>, r: nat, z: seq<nat>)
    requires Inv(s, procs, pages) && p in procs && x in pages && FaultSnap(s, s', p, x)
    requires Unshared(s, procs, pages, p, x, Window(s, p, s.free[0]).frame)
    requires q in procs && r in procs && y in pages && z in pages
    ensures Exclusive(s', q, y, r, z)
  {
    assert Exclusive(s, q, y, r, z);
    FaultEntries(s, s', procs, pages, p, x, q, y);
    FaultEntries(s, s', procs, pages, p, x, r, z);
    assert q != p || y != x ==> Elsewhere(s, q, y, Window(s, p, s.free[0]).frame);
    assert r != p || z != x ==> Elsewhere(s, r, z, Window(s, p, s.free[0]).frame);
  }

  /** The handler keeps the invariant if and only if no other user page shows the frame it writes to. */
  lemma FaultKeepsInvIff(s: Snap, s': Snap, procs: set<nat>, pages: Pages, p: nat, x: seq<nat>)
    requires Inv(s, procs, pages) && p in procs && x in pages && FaultSnap(s, s', p, x)
    ensures Inv(s', procs, pages) <==> Unshared(s, procs, pages, p, x, Window(s, p, s.free[0]).frame)
  {
    var g := Window(s, p, s.free[0]).frame;
    FlagFacts(Window(s, p, s.free[0]));
    FaultEntries(s, s', procs, pages, p, x, p, x);
    if Unshared(s, procs, pages, p, x, g) {
      FaultKeepsInv(s, s', procs, pages, p, x);
    } else {
      var q, y :| q in procs && y in pages && (q != p || y != x) && !Elsewhere(s, q, y, g);
      FaultEntries(s, s', procs, pages, p, x, q, y);
      assert !Exclusive(s', p, x, q, y);
    }
  }

  lemma FaultKeepsInv(s: Snap, s': Snap, procs: set<nat>, pages: Pages, p: nat, x: seq<nat>)
    requires Inv(s, procs, pages) && p in procs && x in pages && FaultSnap(s, s', p, x)
    requires Unshared(s, procs, pages, p, x, Window(s, p, s.free[0]).frame)
    ensures Inv(s', procs, pages)
  {
    hide PageSound, Exclusive, SameSlot, Unshared;
    assert s.free == [s.free[0]] + s'.free;
    forall q, r, i | q in procs && r in procs && q != r && 0 <= i < 510
      ensures q in s'.t && r in s'.t && !SameSlot(s'.t, q, r, i)
    {
      FaultKeepsApart(s, s', procs, pages, p, x, q, r, i);
    }
    forall r, y | r in procs && y in pages
      ensures PageSound(s', r, y)
    {
      FaultKeepsPage(s, s', procs, pages, p, x, r, y);
    }
    forall q, y, r, z | q in procs && r in procs && y in pages && z in pages
      ensures Exclusive(s', q, y, r, z)
    {
      FaultKeepsExclusive(s, s', procs, pages, p, x, q, y, r, z);
    }
  }

  /** A free frame mapped at its own address is shown by no user page, so the fault is safe. */
  lemma IdentityIsUnshared(s: Snap, procs: set<nat>, pages: Pages, p: nat, x: seq<nat>)
    requires Inv(s, procs, pages) && s.free != [] && IdentityMapped(s, p, s.free[0])
    ensures Unshared(s, procs, pages, p, x, Window(s, p, s.free[0]).frame)
  {
    FreshIsUnshown(s, procs, pages, s.free[0]);
  }

  /** What the kernel mapped at the fresh frame's address is that frame, unless the address is a
      user page by now. Then the handler keeps the invariant if and only if it is not one, or the
      fault is on that very page and no other page shows its frame. */
  lemma FaultSafeIff(s: Snap, s': Snap, procs: set<nat>, pages: Pages, p: nat, x: seq<nat>)
    requires Inv(s, procs, pages) && p in procs && x in pages && FaultSnap(s, s', p, x)
    requires PathOf(s.free[0] * PAGE_SIZE) !in pages ==> IdentityMapped(s, p, s.free[0])
    ensures Inv(s', procs, pages) <==>
      PathOf(s.free[0] * PAGE_SIZE) !in pages
      || (PathOf(s.free[0] * PAGE_SIZE) == x && Unshared(s, procs, pages, p, x, At(s, p, x).frame))
  {
    hide PathOf;
    FaultKeepsInvIff(s, s', procs, pages, p, x);
    var w := PathOf(s.free[0] * PAGE_SIZE);
    if w !in pages {
      IdentityIsUnshared(s, procs, pages, p, x);
    } else if w != x {
      assert !Elsewhere(s, p, w, Window(s, p, s.free[0]).frame);
    }
  }

  /** What every process reads survives the handler if and only if no other user page shows the
      frame it writes to, or that frame happened to hold the very same bytes. */
  lemma FaultRefinesIff(s: Snap, s': Snap, procs: set<nat>, pages: Pages, p: nat, x: seq<nat>, m: Spaces)
    requires Inv(s, procs, pages) && p in procs && x in pages && FaultSnap(s, s', p, x) && Refines(s, procs, pages, m)
    requires At(s, p, x).Present()
    ensures var g := Window(s, p, s.free[0]).frame;
      Refines(s', procs, pages, m) <==> Unshared(s, procs, pages, p, x, g) || s.data[g] == s.data[At(s, p, x).frame]
  {
    var g := Window(s, p, s.free[0]).frame;
    if Unshared(s, procs, pages, p, x, g) || s.data[g] == s.data[At(s, p, x).frame] {
      FaultRefines(s, s', procs, pages, p, x, m);
    } else {
      var q, y :| q in procs && y in pages && (q != p || y != x) && !Elsewhere(s, q, y, g);
      assert SamePage(s, m, q, y);
      FaultEntries(s, s', procs, pages, p, x, q, y);
      assert !SamePage(s', m, q, y);
    }
  }

  lemma FaultRefines(s: Snap, s': Snap, procs: set<nat>, pages: Pages, p: nat, x: seq<nat>, m: Spaces)
    requires Inv(s, procs, pages) && p in procs && x in pages && FaultSnap(s, s', p, x) && Refines(s, procs, pages, m)
    requires At(s, p, x).Present()
    requires var g := Window(s, p, s.free[0]).frame;
      Unshared(s, procs, pages, p, x, g) || s.data[g] == s.data[At(s, p, x).frame]
    ensures Refines(s', procs, pages, m)
  {
    forall r, y | r in procs && y in pages
      ensures SamePage(s', m, r, y)
    {
      assert SamePage(s, m, r, y) && PageSound(s, r, y) && SamePage(s, m, p, x);
      assert Unshared(s, procs, pages, p, x, Window(s, p, s.free[0]).frame) && (r != p || y != x) ==>
        Elsewhere(s, r, y, Window(s, p, s.free[0]).frame);
      FaultEntries(s, s', procs, pages, p, x, r, y);
      FlagFacts(Window(s, p, s.free[0]));
    }
  }

  lemma StoreKeepsInv(s: Snap, s': Snap, procs: set<nat>, pages: Pages, p: nat, x: seq<nat>, off: nat, b: bv8)
    requires Inv(s, procs, pages) && p in procs && x in pages && StoreSnap(s, s', p, x, off, b)
    ensures Inv(s', procs, pages)
  {
    SameFramesKeepInv(s, s', procs, pages);
  }

  /** The invariant does not depend on what the frames hold. */
  lemma SameFramesKeepInv(s: Snap, s': Snap, procs: set<nat>, pages: Pages)
    requires Inv(s, procs, pages) && s'.t == s.t && s'.own == s.own && s'.data.Keys == s.data.Keys
    requires NoDuplicates(s'.free) && forall f :: f in s'.free ==> f in s.free
    ensures Inv(s', procs, pages)
  {
    forall r, y | r in procs && y in pages
      ensures PageSound(s', r, y)
    {
      assert PageSound(s, r, y);
    }
    forall q, y, r, z | q in procs && r in procs && y in pages && z in pages
      ensures Exclusive(s', q, y, r, z)
    {
      assert Exclusive(s, q, y, r, z);
    }
  }

  lemma StoreRefines(s: Snap, s': Snap, procs: set<nat>, pages: Pages, p: nat, x: seq<nat>, off: nat, b: bv8, m: Spaces)
    requires Inv(s, procs, pages) && p in procs && x in pages && StoreSnap(s, s', p, x, off, b)
    requires Refines(s, procs, pages, m)
    ensures Refines(s', procs, pages, EagerStep(m, Write(p, x, off, b)))
  {
    assert SamePage(s, m, p, x);
    forall r, y | r in procs && y in pages
      ensures SamePage(s', EagerStep(m, Write(p, x, off, b)), r, y)
    {
      assert SamePage(s, m, r, y) && Exclusive(s, p, x, r, y);
    }
  }

  // ---- Exec ------------------------------------------------------------------------------

  /** After exec, the other processes read their old entries. */
  lemma ExecOthers(s: Snap, s': Snap, procs: set<nat>, pages: Pages, p: nat, n: nat, image: Image, at: Addresses,
                   r: nat, x: seq<nat>)
    requires Inv(s, procs, pages) && p in procs && ExecSnap(s, s', p, n, image, at)
    requires r in procs && r != p && IsPath(x) && x[0] < 510
    ensures At(s', r, x) == At(s, r, x)
  {
    assert IsRoot(s.own, r) && ExecBeside(s, s', p, n, r, x[0]);
  }

  lemma ExecKeepsPage(s: Snap, s': Snap, procs: set<nat>, pages: Pages, p: nat, n: nat, image: Image,
                      at: Addresses, r: nat, x: seq<nat>)
    requires Inv(s, procs, pages) && p in procs && ExecSnap(s, s', p, n, image, at)
    requires r in procs - {p} + {n} && x in pages
    ensures PageSound(s', r, x)
  {
    assert n !in procs by { assert n in procs ==> IsRoot(s.own, n); }
    if r == n {
      assert ExecPage(s, s', p, n, image, x) && PageSound(s, p, x);
    } else {
      ExecOthers(s, s', procs, pages, p, n, image, at, r, x);
      assert PageSound(s, r, x);
    }
  }

  lemma ExecKeepsExclusive(s: Snap, s': Snap, procs: set<nat>, pages: Pages, p: nat, n: nat, image: Image,
                           at: Addresses, q: nat, x: seq<nat>, r: nat, y: seq<nat>)
    requires Inv(s, procs, pages) && p in procs && ExecSnap(s, s', p, n, image, at)
    requires q in procs - {p} + {n} && r in procs - {p} + {n} && x in pages && y in pages
    ensures Exclusive(s', q, x, r, y)
  {
    assert n !in procs by { assert n in procs ==> IsRoot(s.own, n); }
    var o, o' := if q == n then p else q, if r == n then p else r;
    assert Exclusive(s, o, x, o', y) && PageSound(s, o, x) && PageSound(s, o', y);
    assert ExecPage(s, s', p, n, image, x) && ExecPage(s, s', p, n, image, y);
    if q != n { ExecOthers(s, s', procs, pages, p, n, image, at, q, x); }
    if r != n { ExecOthers(s, s', procs, pages, p, n, image, at, r, y); }
  }

  lemma ExecKeepsApart(s: Snap, s': Snap, procs: set<nat>, pages: Pages, p: nat, n: nat, image: Image,
                       at: Addresses, q: nat, r: nat, i: nat)
    requires Inv(s, procs, pages) && p in procs && ExecSnap(s, s', p, n, image, at) && i < 510
    requires q in procs - {p} + {n} && r in procs - {p} + {n} && q != r
    ensures q in s'.t && r in s'.t && !SameSlot(s'.t, q, r, i)
  {
    assert IsRoot(s.own, p);
    if q != n { assert IsRoot(s.own, q) && !SameSlot(s.t, q, p, i) && ExecBeside(s, s', p, n, q, i); }
    if r != n { assert IsRoot(s.own, r) && !SameSlot(s.t, r, p, i) && ExecBeside(s, s', p, n, r, i); }
    if q != n && r != n { assert !SameSlot(s.t, q, r, i); }
  }

  lemma ExecKeepsInv(s: Snap, s': Snap, procs: set<nat>, pages: Pages, p: nat, n: nat, image: Image, at: Addresses)
    requires Inv(s, procs, pages) && p in procs && ExecSnap(s, s', p, n, image, at)
    ensures Inv(s', procs - {p} + {n}, pages)
  {
    hide PageSound, Exclusive, SameSlot, ExecPage, ExecBeside;
    forall q, r, i | q in procs - {p} + {n} && r in procs - {p} + {n} && q != r && 0 <= i < 510
      ensures q in s'.t && r in s'.t && !SameSlot(s'.t, q, r, i)
    {
      ExecKeepsApart(s, s', procs, pages, p, n, image, at, q, r, i);
    }
    forall r, x | r in procs - {p} + {n} && x in pages
      ensures PageSound(s', r, x)
    {
      ExecKeepsPage(s, s', procs, pages, p, n, image, at, r, x);
    }
    forall q, x, r, y | q in procs - {p} + {n} && r in procs - {p} + {n} && x in pages && y in pages
      ensures Exclusive(s', q, x, r, y)
    {
      ExecKeepsExclusive(s, s', procs, pages, p, n, image, at, q, x, r, y);
    }
  }

  /** What a user page shows after exec, and whether its bytes survive. */
  lemma ExecSeen(s: Snap, s': Snap, procs: set<nat>, pages: Pages, p: nat, n: nat, image: Image, at: Addresses,
                 m: Spaces, r: nat, x: seq<nat>)
    requires Inv(s, procs, pages) && p in procs && ExecSnap(s, s', p, n, image, at) && Refines(s, procs, pages, m)
    requires r in procs - {p} + {n} && x in pages
    ensures var o := if r == n then p else r;
      SamePage(s', EagerStep(m, Exec(p, n, image, at)), r, x) <==>
        ((r == n && x in image) || !At(s, o, x).Present()
         || s'.data[At(s, o, x).frame] == s.data[At(s, o, x).frame])
  {
    assert n !in procs by { assert n in procs ==> IsRoot(s.own, n); }
    var o := if r == n then p else r;
    assert SamePage(s, m, o, x) && PageSound(s, o, x) && ExecPage(s, s', p, n, image, x);
    if r != n { ExecOthers(s, s', procs, pages, p, n, image, at, r, x); }
    hide Inv, Refines, TreeShaped;
  }

  /** A store of the kernel's left the frame behind page `x` as it was. */
  ghost predicate SameBytes(s: Snap, s': Snap, p: nat, x: seq<nat>)
    requires IsPath(x)
  {
    var g := At(s, p, x).frame;
    g in s.data && g in s'.data && s'.data[g] == s.data[g]
  }

  /** A store at page `x` during exec goes to a frame that no user page will show, or changes nothing. */
  ghost predicate Spared(s: Snap, s': Snap, procs: set<nat>, pages: Pages, p: nat, image: Image, x: seq<nat>)
    requires IsPath(x)
  {
    At(s, p, x).Present() ==>
      UnshownBeside(s, procs, pages, p, image, At(s, p, x).frame) || SameBytes(s, s', p, x)
  }

  /** The new process reads its image and, on every other page, what the caller read, and the other
      processes read what they did, if and only if the vma stores went to frames that none of these
      pages show, or changed nothing there. */
  lemma ExecRefinesIff(s: Snap, s': Snap, procs: set<nat>, pages: Pages, p: nat, n: nat, image: Image,
                       at: Addresses, m: Spaces)
    requires Inv(s, procs, pages) && p in procs && ExecSnap(s, s', p, n, image, at) && Refines(s, procs, pages, m)
    ensures Refines(s', procs - {p} + {n}, pages, EagerStep(m, Exec(p, n, image, at))) <==>
      forall x :: x in at && IsPath(x) ==> Spared(s, s', procs, pages, p, image, x)
  {
    hide Inv, EagerStep, ExecSnap, Unshown;
    if forall x :: x in at && IsPath(x) ==> Spared(s, s', procs, pages, p, image, x) {
      forall r, y | r in procs - {p} + {n} && y in pages
        ensures SamePage(s', EagerStep(m, Exec(p, n, image, at)), r, y)
      {
        ExecSeen(s, s', procs, pages, p, n, image, at, m, r, y);
        if !(r == n && y in image) {
          ExecKeepsFrame(s, s', procs, pages, p, n, image, at, r, y);
        }
      }
    }
    if x :| x in at && IsPath(x) && !Spared(s, s', procs, pages, p, image, x) {
      var q, y :| q in procs && y in pages && (q == p ==> y !in image) && !Elsewhere(s, q, y, At(s, p, x).frame);
      FrameInUse(s, s', procs, pages, p, n, image, at, q, y);
      ExecSeen(s, s', procs, pages, p, n, image, at, m, if q == p then n else q, y);
    }
  }

  lemma FrameInUse(s: Snap, s': Snap, procs: set<nat>, pages: Pages, p: nat, n: nat, image: Image,
                   at: Addresses, q: nat, y: seq<nat>)
    requires Inv(s, procs, pages) && p in procs && ExecSnap(s, s', p, n, image, at) && q in procs && y in pages
    requires At(s, q, y).Present()
    ensures At(s, q, y).frame in s.data && At(s, q, y).frame in s'.data && n !in procs
  {
    assert PageSound(s, q, y);
    assert n in procs ==> IsRoot(s.own, n);
  }

  lemma ExecKeepsFrame(s: Snap, s': Snap, procs: set<nat>, pages: Pages, p: nat, n: nat, image: Image,
                       at: Addresses, r: nat, y: seq<nat>)
    requires Inv(s, procs, pages) && p in procs && ExecSnap(s, s', p, n, image, at)
    requires r in procs - {p} + {n} && y in pages && !(r == n && y in image)
    requires forall x :: x in at && IsPath(x) ==> Spared(s, s', procs, pages, p, image, x)
    ensures var o := if r == n then p else r; At(s, o, y).Present() ==> SameBytes(s, s', o, y)
  {
    assert n !in procs by { assert n in procs ==> IsRoot(s.own, n); }
    var o := if r == n then p else r;
    assert PageSound(s, o, y);
    if At(s, o, y).Present() && Reached(s, p, at, At(s, o, y).frame) {
      var x :| x in at && IsPath(x) && At(s, p, x).Present() && At(s, p, x).frame == At(s, o, y).frame;
      assert !Elsewhere(s, o, y, At(s, p, x).frame);
    }
  }

  // ---- The kernel's own stores ---------------------------------------------------------------

  lemma KernelKeepsInv(s: Snap, s': Snap, procs: set<nat>, pages: Pages, p: nat, at: Addresses)
    requires Inv(s, procs, pages) && KernelSnap(s, s', p, at)
    ensures Inv(s', procs, pages)
  {
    SuffixFacts(s'.free, s.free);
    SameFramesKeepInv(s, s', procs, pages);
  }

  /** Every process goes on reading what it read if and only if the kernel's stores went to frames
      that no user page shows, or changed nothing there. */
  lemma KernelRefinesIff(s: Snap, s': Snap, procs: set<nat>, pages: Pages, p: nat, at: Addresses, m: Spaces)
    requires Inv(s, procs, pages) && KernelSnap(s, s', p, at) && Refines(s, procs, pages, m)
    ensures Refines(s', procs, pages, m) <==>
      forall x :: x in at ==> Unshown(s, procs, pages, At(s, p, x).frame) || SameBytes(s, s', p, x)
  {
    if forall x :: x in at ==> Unshown(s, procs, pages, At(s, p, x).frame) || SameBytes(s, s', p, x) {
      forall q, y | q in procs && y in pages
        ensures SamePage(s', m, q, y)
      {
        assert SamePage(s, m, q, y);
        if At(s, q, y).Present() && Reached(s, p, at, At(s, q, y).frame) {
          var x :| x in at && IsPath(x) && At(s, p, x).Present() && At(s, p, x).frame == At(s, q, y).frame;
          assert !Elsewhere(s, q, y, At(s, p, x).frame);
        }
      }
    }
    if x :| x in at && !Unshown(s, procs, pages, At(s, p, x).frame) && !SameBytes(s, s', p, x) {
      var q, y :| q in procs && y in pages && !Elsewhere(s, q, y, At(s, p, x).frame);
      assert SamePage(s, m, q, y) && !SamePage(s', m, q, y);
    }
  }

  /** For a kernel whose own addresses show no user's frames, the stores are safe if and only if none
      of those addresses is a user page by now. */
  lemma KernelSafeIff(s: Snap, procs: set<nat>, pages: Pages, p: nat, at: Addresses)
    requires p in procs && forall x :: x in at ==> IsPath(x) && At(s, p, x).Present()
    requires forall x :: x in at && x !in pages ==> Unshown(s, procs, pages, At(s, p, x).frame)
    ensures Safe(s, procs, pages, Kernel(p, at)) <==> forall x :: x in at ==> x !in pages
  {
    if x :| x in at && x in pages {
      assert !Elsewhere(s, p, x, At(s, p, x).frame);
    }
  }

  /** A frame fresh off the list and mapped at its own address is such a place. */
  lemma FreshIsUnshown(s: Snap, procs: set<nat>, pages: Pages, f: nat)
    requires Inv(s, procs, pages) && f in s.free
    ensures Unshown(s, procs, pages, f)
  {
    forall q, y | q in procs && y in pages
      ensures Elsewhere(s, q, y, f)
    {
      assert PageSound(s, q, y);
    }
  }

  // ---- Runs ------------------------------------------------------------------------------

  /** A step keeps the invariant if and only if its fault, if it has one, is safe. */
  lemma StepKeepsInvIff(s: Snap, s': Snap, procs: set<nat>, pages: Pages, ev: Event)
    requires Inv(s, procs, pages) && Step(s, s', procs, pages, ev)
    ensures Inv(s', Procs(procs, ev), pages) <==> FaultSafe(s, procs, pages, ev)
  {
    hide Inv, ForkSnap, FaultSnap, ExecSnap, KernelSnap, Unshared;
    match ev
    case Fork(p, c) => ForkKeepsInv(s, s', procs, pages, p, c);
    case Exec(p, n, image, at) => ExecKeepsInv(s, s', procs, pages, p, n, image, at);
    case Kernel(p, at) => KernelKeepsInv(s, s', procs, pages, p, at);
    case Write(p, x, off, b) =>
      if At(s, p, x).Writable() {
        StoreKeepsInv(s, s', procs, pages, p, x, off, b);
      } else {
        var mid :| FaultSnap(s, mid, p, x) && StoreSnap(mid, s', p, x, off, b);
        FaultTakes(s, mid, p, x);
        FaultKeepsInvIff(s, mid, procs, pages, p, x);
        assert s'.data.Keys == mid.data.Keys && s'.free == mid.free;
        if Inv(mid, procs, pages) {
          InvFree(mid, procs, pages);
          SameFramesKeepInv(mid, s', procs, pages);
        }
        if Inv(s', procs, pages) {
          InvFree(s', procs, pages);
          SameFramesKeepInv(s', mid, procs, pages);
        }
      }
  }

  lemma InvFree(s: Snap, procs: set<nat>, pages: Pages)
    requires Inv(s, procs, pages)
    ensures NoDuplicates(s.free)
  {
  }

  lemma FaultTakes(s: Snap, s': Snap, p: nat, x: seq<nat>)
    requires FaultSnap(s, s', p, x)
    ensures s.free != []
  {
  }

  lemma StepRefines(s: Snap, s': Snap, procs: set<nat>, pages: Pages, ev: Event, m: Spaces)
    requires Inv(s, procs, pages) && Step(s, s', procs, pages, ev) && Refines(s, procs, pages, m)
    requires Safe(s, procs, pages, ev)
    ensures Inv(s', Procs(procs, ev), pages) && Refines(s', Procs(procs, ev), pages, EagerStep(m, ev))
  {
    hide Inv, Refines, ForkSnap, FaultSnap, StoreSnap, ExecSnap, Unshared, Unshown, UnshownBeside;
    StepKeepsInvIff(s, s', procs, pages, ev);
    match ev
    case Fork(p, c) => ForkRefines(s, s', procs, pages, p, c, m);
    case Exec(p, n, image, at) => ExecRefinesIff(s, s', procs, pages, p, n, image, at, m);
    case Kernel(p, at) => KernelRefinesIff(s, s', procs, pages, p, at, m);
    case Write(p, x, off, b) =>
      var mid := s;
      if !At(s, p, x).Writable() {
        mid :| FaultSnap(s, mid, p, x) && StoreSnap(mid, s', p, x, off, b);
        FaultKeepsInv(s, mid, procs, pages, p, x);
        FaultRefines(s, mid, procs, pages, p, x, m);
      }
      StoreRefines(mid, s', procs, pages, p, x, off, b, m);
  }

  ghost function ProcsAt(procs: set<nat>, evs: seq<Event>, k: nat): set<nat>
    requires k <= |evs|
  {
    if k == 0 then procs else Procs(ProcsAt(procs, evs, k - 1), evs[k - 1])
  }

  ghost function EagerAt(m: Spaces, evs: seq<Event>, k: nat): Spaces
    requires k <= |evs|
  {
    if k == 0 then m else EagerStep(EagerAt(m, evs, k - 1), evs[k - 1])
  }

  ghost predicate Run(ss: seq<Snap>, procs: set<nat>, pages: Pages, evs: seq<Event>) {
    && |ss| == |evs| + 1
    && forall k :: 0 <= k < |evs| ==> Step(ss[k], ss[k + 1], ProcsAt(procs, evs, k), pages, evs[k])
  }

  /** The invariant holds throughout a run if and only if every fault in it is safe. */
  lemma InvThroughoutIff(ss: seq<Snap>, procs: set<nat>, pages: Pages, evs: seq<Event>)
    requires Run(ss, procs, pages, evs) && Inv(ss[0], procs, pages)
    ensures (forall k :: 0 <= k <= |evs| ==> Inv(ss[k], ProcsAt(procs, evs, k), pages))
       <==> (forall k :: 0 <= k < |evs| ==> FaultSafe(ss[k], ProcsAt(procs, evs, k), pages, evs[k]))
  {
    hide Inv, Step, FaultSafe;
    if forall k :: 0 <= k < |evs| ==> FaultSafe(ss[k], ProcsAt(procs, evs, k), pages, evs[k]) {
      forall k | 0 <= k <= |evs|
        ensures Inv(ss[k], ProcsAt(procs, evs, k), pages)
      {
        SafeKeepsInv(ss, procs, pages, evs, k);
      }
    }
    if forall k :: 0 <= k <= |evs| ==> Inv(ss[k], ProcsAt(procs, evs, k), pages) {
      forall k | 0 <= k < |evs|
        ensures FaultSafe(ss[k], ProcsAt(procs, evs, k), pages, evs[k])
      {
        assert Step(ss[k], ss[k + 1], ProcsAt(procs, evs, k), pages, evs[k]);
        StepKeepsInvIff(ss[k], ss[k + 1], ProcsAt(procs, evs, k), pages, evs[k]);
        assert Inv(ss[k + 1], ProcsAt(procs, evs, k + 1), pages);
      }
    }
  }

  lemma {:induction false} SafeKeepsInv(ss: seq<Snap>, procs: set<nat>, pages: Pages, evs: seq<Event>, k: nat)
    requires Run(ss, procs, pages, evs) && Inv(ss[0], procs, pages) && k <= |evs|
    requires forall j :: 0 <= j < k ==> FaultSafe(ss[j], ProcsAt(procs, evs, j), pages, evs[j])
    ensures Inv(ss[k], ProcsAt(procs, evs, k), pages)
  {
    hide Inv, Step, FaultSafe;
    if k > 0 {
      SafeKeepsInv(ss, procs, pages, evs, k - 1);
      assert Step(ss[k - 1], ss[k - 1 + 1], ProcsAt(procs, evs, k - 1), pages, evs[k - 1]);
      StepKeepsInvIff(ss[k - 1], ss[k], ProcsAt(procs, evs, k - 1), pages, evs[k - 1]);
    }
  }

  /** Whatever forks, execs, stores of the kernel's and user writes follow each other, as long as they
      are safe, each process reads on every user page exactly what it would read had each fork copied every page. */
  lemma {:induction false} CowRefinesEagerCopy(ss: seq<Snap>, procs: set<nat>, pages: Pages, evs: seq<Event>,
                                               m: Spaces, k: nat)
    requires Run(ss, procs, pages, evs) && k <= |evs|
    requires forall j :: 0 <= j < k ==> Safe(ss[j], ProcsAt(procs, evs, j), pages, evs[j])
    requires Inv(ss[0], procs, pages) && Refines(ss[0], procs, pages, m)
    ensures Inv(ss[k], ProcsAt(procs, evs, k), pages)
    ensures Refines(ss[k], ProcsAt(procs, evs, k), pages, EagerAt(m, evs, k))
  {
    hide Inv, Refines, Step, EagerStep, Safe;
    if k > 0 {
      CowRefinesEagerCopy(ss, procs, pages, evs, m, k - 1);
      assert Step(ss[k - 1], ss[k - 1 + 1], ProcsAt(procs, evs, k - 1), pages, evs[k - 1]);
      StepRefines(ss[k - 1], ss[k], ProcsAt(procs, evs, k - 1), pages, evs[k - 1], EagerAt(m, evs, k - 1));
    }
  }
}
