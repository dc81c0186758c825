/** pg_fault_handler of sys/isr.c, and a user store as the processor and the handler carry it
    out, on the machine of sys/phymap.c. */
module Isr {
  import opened Frames
  import opened Utils
  import opened Paging
  import opened AddressSpace
  import opened Phymap
  import opened Cow

  /** The kernel's memcpy between two whole pages, through the current tables. */
  method CopyPage(m: Machine, to: nat, from: nat)
    requires m.Valid() && Get(m.tables, m.cr3, PathOf(to)).frame in m.data
    requires Get(m.tables, m.cr3, PathOf(from)).frame in m.data
    requires Get(m.tables, m.cr3, PathOf(to)).frame !in m.frames.free
    requires Missing(m.tables, m.cr3, PathOf(to)) == 0 && Missing(m.tables, m.cr3, PathOf(from)) == 0
    modifies m`data
    ensures m.Valid()
    ensures m.data == old(m.data)[Get(m.tables, m.cr3, PathOf(to)).frame :=
                                  old(m.data)[Get(m.tables, m.cr3, PathOf(from)).frame]]
  {
    var dst := m.PhyAddr(to);
    var src := m.PhyAddr(from);
    m.data := m.data[dst.frame := m.data[src.frame]];
  }

  /** kmalloc of one page: the first free frame is taken, and what is mapped at its address found. */
  method TakeMappedFrame(m: Machine) returns (temp: nat, paddr: Entry)
    requires m.Valid() && WindowOpen(SnapOf(m), m.cr3)
    modifies m.frames`freeList, m.frames`free
    ensures m.Valid() && temp == old(m.frames.free)[0] * PAGE_SIZE && m.frames.free == old(m.frames.free)[1..]
    ensures paddr == Get(m.tables, m.cr3, PathOf(temp)) && Missing(m.tables, m.cr3, PathOf(temp)) == 0
    ensures paddr.frame in m.data && paddr.frame !in m.frames.free
  {
    OnePage();
    hide FramesFor, TreeShaped;
    temp := m.frames.Kmalloc(PAGE_SIZE);
    PresentNotMissing(m.tables, m.cr3, PathOf(temp));
    paddr := m.PhyAddr(temp);
  }

  /** pg_fault_handler. It fills, and then maps, whatever frame it finds mapped at the address of the
      free frame it takes; an entry without PTE_COW is left as is. */
  method PageFault(m: Machine, faultAddr: nat)
    requires m.Valid() && Missing(m.tables, m.cr3, PathOf(faultAddr)) == 0
    requires Get(m.tables, m.cr3, PathOf(faultAddr)).Cow() ==>
               WindowOpen(SnapOf(m), m.cr3) && Get(m.tables, m.cr3, PathOf(faultAddr)).frame in m.data
    modifies m`tables, m`own, m`data, m.frames`freeList, m.frames`free
    ensures m.Valid()
    ensures if old(Get(m.tables, m.cr3, PathOf(faultAddr))).Cow() then
              FaultSnap(old(SnapOf(m)), SnapOf(m), m.cr3, PathOf(faultAddr))
            else SnapOf(m) == old(SnapOf(m))
  {
    hide TreeShaped, MapStep, PathOf, Chain, Missing, Get, IsRoot;
    var pte := m.PhyAddr(faultAddr);
    if pte.Cow() {
      var page := faultAddr / PAGE_SIZE * PAGE_SIZE;
      SamePathIffSamePage(page, faultAddr);
      var tempVaddr, paddr := TakeMappedFrame(m);
      CopyPage(m, tempVaddr, page);
      m.MapProcess(page, paddr);
    }
  }

  /** A store of `b` to user address `vaddr`: the walk, the fault when the page is read-only, and
      the retried store. */
  method UserStore(m: Machine, vaddr: nat, b: bv8)
    requires m.Valid() && Get(m.tables, m.cr3, PathOf(vaddr)).Present()
    requires PageSound(SnapOf(m), m.cr3, PathOf(vaddr))
    requires !Get(m.tables, m.cr3, PathOf(vaddr)).Writable() ==> WindowOpen(SnapOf(m), m.cr3)
    modifies m`tables, m`own, m`data, m.frames`freeList, m.frames`free
    ensures m.Valid()
    ensures WriteSnap(old(SnapOf(m)), SnapOf(m), m.cr3, PathOf(vaddr), vaddr % PAGE_SIZE, b)
  {
    var q := PathOf(vaddr);
    PresentNotMissing(m.tables, m.cr3, q);
    var pte := m.PhyAddr(vaddr);
    if !pte.Writable() {
      PageFault(m, vaddr);
      FlagFacts(Get(old(m.tables), m.cr3, PathOf(old(m.frames.free)[0] * PAGE_SIZE)));
      PresentNotMissing(m.tables, m.cr3, q);
      pte := m.PhyAddr(vaddr);
    }
    ghost var mid := SnapOf(m);
    m.data := m.data[pte.frame := m.data[pte.frame][vaddr % PAGE_SIZE := b]];
    assert StoreSnap(mid, SnapOf(m), m.cr3, q, vaddr % PAGE_SIZE, b);
  }

  // ---- Fork --------------------------------------------------------------------------------

  const TASK_SIZE := 4456
  const VMA_SIZE := 64

  lemma StructureFrames()
    ensures FramesFor(TASK_SIZE) == 2 && FramesFor(VMA_SIZE) == 1
  {
  }

  /** Page `i` of a structure at frame `f`. */
  function StructurePage(f: nat, i: nat): (x: seq<nat>)
    ensures IsPath(x)
  {
    PathOf((f + i) * PAGE_SIZE)
  }

  /** Pages of a structure of `n` frames at frame `f`. */
  ghost function StructureAt(f: nat, n: nat): Addresses {
    set i: nat | 0 <= i < n :: StructurePage(f, i)
  }

  lemma StructureGrows(f: nat, n: nat)
    ensures StructureAt(f, 0) == {} && StructureAt(f, n + 1) == StructureAt(f, n) + {StructurePage(f, n)}
  {
    hide PathOf;
  }

  /** One more store keeps it one step of the kernel's. */
  lemma KernelAgain(s: Snap, s1: Snap, s': Snap, p: nat, at: Addresses, x: seq<nat>)
    requires KernelSnap(s, s1, p, at) && IsPath(x) && Storable(s1, p, x) && At(s1, p, x).frame !in s1.free
    requires s' == s1.(data := s'.data) && s'.data.Keys == s1.data.Keys
    requires forall g :: g in s1.data && g != At(s1, p, x).frame ==> s'.data[g] == s1.data[g]
    ensures KernelSnap(s, s', p, at + {x})
  {
    hide Suffix;
    forall g | g in s.data && !Reached(s, p, at + {x}, g)
      ensures s'.data[g] == s.data[g]
    {
      assert x in at + {x};
      assert Reached(s, p, at, g) ==> Reached(s, p, at + {x}, g);
    }
  }

  /** Each page of the structure can be stored to, without hitting a frame that stays free. */
  ghost predicate StructureOpen(s: Snap, p: nat, f: nat, n: nat, free: seq<nat>) {
    forall i: nat :: i < n ==> StorableBeside(s, p, StructurePage(f, i), free)
  }

  ghost predicate StorableBeside(s: Snap, p: nat, x: seq<nat>, free: seq<nat>) {
    IsPath(x) && Storable(s, p, x) && At(s, p, x).frame !in free
  }

  /** Stores into a structure of `n` frames that starts at `addr`. */
  method FillStructure(m: Machine, addr: nat, n: nat)
    requires m.Valid() && addr % PAGE_SIZE == 0
    requires StructureOpen(SnapOf(m), m.cr3, addr / PAGE_SIZE, n, m.frames.free)
    modifies m`data
    ensures m.Valid() && KernelSnap(old(SnapOf(m)), SnapOf(m), m.cr3, StructureAt(addr / PAGE_SIZE, n))
  {
    hide PathOf, Get, TreeShaped, Chain;
    ghost var s, f := SnapOf(m), addr / PAGE_SIZE;
    StructureGrows(f, 0);
    SuffixAfter(s.free, 0);
    for i := 0 to n
      invariant m.Valid() && KernelSnap(s, SnapOf(m), m.cr3, StructureAt(f, i))
      invariant SnapOf(m) == s.(data := m.data)
    {
      ghost var s1 := SnapOf(m);
      assert StorableBeside(s, m.cr3, StructurePage(f, i), m.frames.free);
      assert addr + i * PAGE_SIZE == (f + i) * PAGE_SIZE;
      m.StoreStructure(addr + i * PAGE_SIZE);
      KernelAgain(s, s1, SnapOf(m), m.cr3, StructureAt(f, i), StructurePage(f, i));
      StructureGrows(f, i);
    }
  }

  /** kmalloc of a structure, and the stores into it. */
  method TakeStructure(m: Machine, size: nat) returns (addr: nat)
    requires m.Valid() && size > 0 && FramesFor(size) <= |m.frames.free| && m.frames.free != []
    requires StructureOpen(SnapOf(m), m.cr3, m.frames.free[0], FramesFor(size), m.frames.free[FramesFor(size)..])
    modifies m`data, m.frames`freeList, m.frames`free
    ensures m.Valid() && addr == old(m.frames.free)[0] * PAGE_SIZE
    ensures m.frames.free == old(m.frames.free)[FramesFor(size)..]
    ensures KernelSnap(old(SnapOf(m)), SnapOf(m), m.cr3, StructureAt(old(m.frames.free)[0], FramesFor(size)))
  {
    hide PathOf, Get, TreeShaped, Chain, FramesFor, KernelSnap;
    ghost var s := SnapOf(m);
    var n := FramesFor(size);
    addr := m.frames.Kmalloc(size);
    ghost var s1 := SnapOf(m);
    SameEntries(s, s1, m.cr3, s.free[0], n, m.frames.free);
    FillStructure(m, addr, n);
    TakenBefore(s, s1, SnapOf(m), m.cr3, StructureAt(s.free[0], n), n);
  }

  lemma SameEntries(s: Snap, s1: Snap, p: nat, f: nat, n: nat, free: seq<nat>)
    requires StructureOpen(s, p, f, n, free) && s1.t == s.t && s1.own == s.own && s1.data == s.data
    ensures StructureOpen(s1, p, f, n, free)
  {
    hide PathOf;
    forall i: nat | i < n
      ensures StorableBeside(s1, p, StructurePage(f, i), free)
    {
      assert StorableBeside(s, p, StructurePage(f, i), free);
    }
  }

  lemma TakenBefore(s: Snap, s1: Snap, s': Snap, p: nat, at: Addresses, n: nat)
    requires n <= |s.free| && s1 == s.(free := s.free[n..]) && KernelSnap(s1, s', p, at)
    ensures KernelSnap(s, s', p, at)
  {
    SuffixAfter(s.free, n);
    SuffixTransitive(s'.free, s1.free, s.free);
    hide Suffix;
    forall g ensures Reached(s1, p, at, g) <==> Reached(s, p, at, g) {
    }
  }

  /** What the child shows at a structure's page is what the parent showed. */
  lemma ChildWindow(s: Snap, s1: Snap, s2: Snap, p: nat, c: nat, at: Addresses, x: seq<nat>, free: seq<nat>)
    requires KernelSnap(s, s1, p, at) && ForkSnap(s1, s2, p, c) && IsPath(x) && x[0] < 510
    requires Storable(s, p, x) && (At(s, p, x).frame !in s.free || At(s, p, x).frame !in s2.own)
    requires At(s, p, x).frame !in free
    ensures StorableBeside(s2, c, x, free) && At(s2, c, x).frame == At(s, p, x).frame
  {
    SuffixFacts(s1.free, s.free);
    hide Suffix, TreeShaped;
    assert At(s2, c, x) == Copied(At(s1, p, x));
    FlagFacts(At(s1, p, x));
  }

  /** What fork needs of the memory it starts from: the first `k` free frames can be stored to at
      their own addresses, in the lower half, and the Task's two frames lie side by side. */
  ghost predicate ForkReady(s: Snap, p: nat, k: nat) {
    && OpenWindows(s, p, k) && k >= 2 && s.free[1] == s.free[0] + 1
    && forall i :: 0 <= i < k ==> PathOf(s.free[i] * PAGE_SIZE)[0] < 510
  }

  lemma TaskOpen(s: Snap, p: nat, k: nat)
    requires ForkReady(s, p, k) && NoDuplicates(s.free)
    ensures StructureOpen(s, p, s.free[0], 2, s.free[2..])
  {
    hide PathOf, Get;
    assert OpenWindow(s, p, s.free[0]) && OpenWindow(s, p, s.free[1]);
    forall i: nat | i < 2
      ensures StorableBeside(s, p, StructurePage(s.free[0], i), s.free[2..])
    {
      assert s.free[i] == s.free[0] + i;
    }
  }

  /** The Task's pages again, seen from the child. */
  lemma TaskOpenInChild(s: Snap, s1: Snap, s2: Snap, p: nat, c: nat, at: Addresses, k: nat)
    requires ForkReady(s, p, k) && NoDuplicates(s.free) && KernelSnap(s, s1, p, at) && s1.free == s.free[2..]
    requires ForkSnap(s1, s2, p, c)
    ensures StructureOpen(s2, c, s.free[0], 2, s2.free)
  {
    hide PathOf, Get, KernelSnap, ForkSnap;
    forall i: nat | i < 2
      ensures StorableBeside(s2, c, StructurePage(s.free[0], i), s2.free)
    {
      assert s.free[i] == s.free[0] + i;
      TaskPageInChild(s, s1, s2, p, c, at, s.free[i], k, i);
    }
  }

  lemma TaskPageInChild(s: Snap, s1: Snap, s2: Snap, p: nat, c: nat, at: Addresses, f: nat, k: nat, i: nat)
    requires ForkReady(s, p, k) && NoDuplicates(s.free) && KernelSnap(s, s1, p, at) && s1.free == s.free[2..]
    requires ForkSnap(s1, s2, p, c) && i < 2 && f == s.free[i]
    ensures StorableBeside(s2, c, PathOf(f * PAGE_SIZE), s2.free)
  {
    hide PathOf, Get, ForkStep, TreeShaped;
    assert OpenWindow(s, p, s.free[i]);
    SuffixFacts(s1.free, s.free);
    SuffixFacts(s2.free, s1.free);
    assert f !in s1.free;
    if Window(s, p, f).frame == f { TakenNotOwned(s1, s2, p, c, f); }
    ChildWindow(s, s1, s2, p, c, at, PathOf(f * PAGE_SIZE), s2.free);
  }

  lemma TakenNotOwned(s1: Snap, s2: Snap, p: nat, c: nat, f: nat)
    requires ForkSnap(s1, s2, p, c) && f !in s1.free && f !in s1.own
    ensures f !in s2.own
  {
  }

  /** A frame still free after the copy can be stored to from the child as it could from the parent. */
  lemma VmaOpenInChild(s: Snap, s1: Snap, s2: Snap, p: nat, c: nat, at: Addresses, k: nat, i: nat)
    requires ForkReady(s, p, k) && NoDuplicates(s.free) && KernelSnap(s, s1, p, at)
    requires ForkSnap(s1, s2, p, c) && i < k && s.free[i] in s2.free && s.free[i] !in s2.own
    ensures OpenWindow(s2, c, s.free[i])
  {
    hide PathOf, Get;
    assert OpenWindow(s, p, s.free[i]);
    SuffixFacts(s1.free, s.free);
    SuffixFacts(s2.free, s1.free);
    hide Suffix, ForkStep, TreeShaped;
    var others := if Window(s, p, s.free[i]).frame == s.free[i] then [] else s2.free;
    ChildWindow(s, s1, s2, p, c, at, PathOf(s.free[i] * PAGE_SIZE), others);
  }

  lemma VmaOpen(s: Snap, s1: Snap, p: nat, at: Addresses, i: nat)
    requires i < |s.free| && OpenWindow(s, p, s.free[i]) && KernelSnap(s, s1, p, at) && s1.free == s.free[i..]
    requires NoDuplicates(s1.free)
    ensures StructureOpen(s1, p, s.free[i], 1, s1.free[1..])
  {
    hide PathOf, Get, Suffix;
    assert s1.free[0] == s.free[i];
    forall j: nat | j < 1
      ensures StorableBeside(s1, p, StructurePage(s.free[i], j), s1.free[1..])
    {
      assert s.free[i] + j == s.free[i];
    }
  }

  lemma DistinctFree(m: Machine)
    requires m.Valid()
    ensures NoDuplicates(m.frames.free)
  {
  }

  lemma KernelTransitive(s: Snap, s1: Snap, s2: Snap, p: nat, at1: Addresses, at2: Addresses)
    requires KernelSnap(s, s1, p, at1) && KernelSnap(s1, s2, p, at2)
    ensures KernelSnap(s, s2, p, at1 + at2)
  {
    SuffixTransitive(s2.free, s1.free, s.free);
    SuffixFacts(s2.free, s1.free);
    hide Suffix;
    forall g | g in s.data && !Reached(s, p, at1 + at2, g)
      ensures s2.data[g] == s.data[g]
    {
      assert Reached(s, p, at1, g) ==> Reached(s, p, at1 + at2, g);
      assert Reached(s1, p, at2, g) ==> Reached(s, p, at1 + at2, g);
    }
  }

  /** The loop over the parent's vmas: each gets a copy, made while the child's tables are current. */
  method CopyVmas(m: Machine, vmas: nat) returns (ghost at: Addresses)
    requires m.Valid() && OpenWindows(SnapOf(m), m.cr3, vmas)
    modifies m`data, m.frames`freeList, m.frames`free
    ensures m.Valid() && KernelSnap(old(SnapOf(m)), SnapOf(m), m.cr3, at)
    ensures m.frames.free == old(m.frames.free)[vmas..]
  {
    StructureFrames();
    hide PathOf, Get, TreeShaped, FramesFor, OpenWindow, Chain, Suffix;
    ghost var s := SnapOf(m);
    at := {};
    SuffixAfter(s.free, 0);
    for i := 0 to vmas
      invariant m.Valid() && KernelSnap(s, SnapOf(m), m.cr3, at)
      invariant m.frames.free == s.free[i..]
    {
      ghost var s1 := SnapOf(m);
      DistinctFree(m);
      VmaOpen(s, s1, m.cr3, at, i);
      var addr := TakeStructure(m, VMA_SIZE);
      KernelTransitive(s, s1, SnapOf(m), m.cr3, at, StructureAt(s.free[i], 1));
      at := at + StructureAt(s.free[i], 1);
    }
  }

  /** The child's root and page tables. */
  method CopyTables(m: Machine) returns (child: nat)
    requires m.Valid() && |m.frames.free| > TablesBelow(m.tables, m.cr3, 4, 510)
    modifies m`tables, m`own, m.frames`freeList, m.frames`free
    ensures m.Valid() && ForkSnap(old(SnapOf(m)), SnapOf(m), m.cr3, child) && IsRoot(m.own, child)
    ensures m.frames.free == old(m.frames.free)[1 + TablesBelow(old(m.tables), m.cr3, 4, 510)..]
  {
    hide ForkStep, TreeShaped, Suffix, TablesBelow;
    SuffixAfter(m.frames.free, 1 + TablesBelow(m.tables, m.cr3, 4, 510));
    child := m.ForkAddressSpace();
    ForkRoots(old(m.tables), old(m.own), m.tables, m.own, m.cr3, child);
  }

  lemma ForkRoots(t: Tables, own: Owner, t': Tables, own': Owner, p: nat, c: nat)
    requires ForkStep(t, own, t', own', p, c)
    ensures IsRoot(own', c)
  {
    hide TreeShaped;
  }

  lemma ChildReady(s: Snap, s1: Snap, s2: Snap, p: nat, c: nat, at: Addresses, k: nat, vmas: nat)
    requires ForkReady(s, p, k) && NoDuplicates(s.free) && KernelSnap(s, s1, p, at) && ForkSnap(s1, s2, p, c)
    requires vmas <= k && s2.free == s.free[k - vmas..] && forall f :: f in s2.free ==> f !in s2.own
    ensures OpenWindows(s2, c, vmas)
  {
    hide PathOf, Get, OpenWindow, KernelSnap, ForkSnap, NoDuplicates;
    forall i | 0 <= i < vmas
      ensures OpenWindow(s2, c, s2.free[i])
    {
      assert s2.free[i] == s.free[k - vmas + i];
      VmaOpenInChild(s, s1, s2, p, c, at, k, k - vmas + i);
    }
  }

  lemma StillOpen(s: Snap, s': Snap, p: nat, at: Addresses, f: nat, n: nat)
    requires StructureOpen(s, p, f, n, s.free) && KernelSnap(s, s', p, at)
    ensures StructureOpen(s', p, f, n, s'.free)
  {
    hide PathOf, Get;
    SuffixFacts(s'.free, s.free);
    forall i: nat | i < n
      ensures StorableBeside(s', p, StructurePage(f, i), s'.free)
    {
      assert StorableBeside(s, p, StructurePage(f, i), s.free);
    }
  }

  /** copyParentToChild: the child's Task under the parent's tables, the child's root and page tables,
      then, under those, the vma copies and the rest of the Task. As steps: the kernel's stores, the
      fork, the kernel's stores. */
  method ForkProcess(m: Machine, vmas: nat)
    returns (child: nat, ghost s1: Snap, ghost s2: Snap, ghost at1: Addresses, ghost at2: Addresses)
    requires m.Valid() && ForkReady(SnapOf(m), m.cr3, 3 + TablesBelow(m.tables, m.cr3, 4, 510) + vmas)
    modifies m`tables, m`own, m`data, m`cr3, m.frames`freeList, m.frames`free
    ensures m.Valid() && m.cr3 == old(m.cr3)
    ensures KernelSnap(old(SnapOf(m)), s1, m.cr3, at1) && ForkSnap(s1, s2, m.cr3, child)
    ensures KernelSnap(s2, SnapOf(m), child, at2)
  {
    StructureFrames();
    hide PathOf, Get, TreeShaped, FramesFor, Chain, Suffix, ForkStep, KernelSnap, ForkSnap, TablesBelow, StructureOpen;
    ghost var s, k := SnapOf(m), 3 + TablesBelow(m.tables, m.cr3, 4, 510) + vmas;
    var parent := m.cr3;
    DistinctFree(m);
    TaskOpen(s, parent, k);
    var task := TakeStructure(m, TASK_SIZE);
    at1 := StructureAt(s.free[0], 2);
    s1 := SnapOf(m);
    child := CopyTables(m);
    s2 := SnapOf(m);
    ChildReady(s, s1, s2, parent, child, at1, k, vmas);
    TaskOpenInChild(s, s1, s2, parent, child, at1, k);
    m.cr3 := child;
    ghost var copied := CopyVmas(m, vmas);
    ghost var s3 := SnapOf(m);
    StillOpen(s2, s3, child, copied, s.free[0], 2);
    FillStructure(m, task, 2);
    at2 := copied + StructureAt(s.free[0], 2);
    KernelTransitive(s2, s3, SnapOf(m), child, copied, StructureAt(s.free[0], 2));
    m.cr3 := parent;
  }
}
