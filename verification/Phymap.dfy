/** The page-table operations of sys/phymap.c on the machine's memory. */
module Phymap {
  import opened Frames
  import opened Utils
  import opened Paging
  import opened AddressSpace

  type Bytes = s: seq<bv8> | |s| == 4096 witness seq(4096, _ => 0)

  const ZEROS: Bytes := seq(4096, _ => 0)

  /** What the machine holds at one moment. */
  datatype Snap = Snap(t: Tables, own: Owner, data: map<nat, Bytes>, free: seq<nat>)

  ghost function SnapOf(m: Machine): Snap
    reads m, m.frames
  {
    Snap(m.tables, m.own, m.data, m.frames.free)
  }

  ghost function At(s: Snap, p: nat, x: seq<nat>): Entry
    requires IsPath(x)
  {
    Get(s.t, p, x)
  }

  /** The entry through which the kernel reaches frame `f`: the one at the frame's own address. */
  ghost function Window(s: Snap, p: nat, f: nat): Entry {
    At(s, p, PathOf(f * PAGE_SIZE))
  }

  /** Pages at which the kernel stores into structures of its own. */
  type Addresses = set<seq<nat>>

  /** One of the addresses `at` shows frame `g`. */
  ghost predicate Reached(s: Snap, p: nat, at: Addresses, g: nat) {
    exists x :: x in at && IsPath(x) && At(s, p, x).Present() && At(s, p, x).frame == g
  }

  /** The kernel can store at page `x` under root `p`, and no page table takes the store. */
  ghost predicate Storable(s: Snap, p: nat, x: seq<nat>)
    requires IsPath(x)
  {
    At(s, p, x).Present() && At(s, p, x).frame in s.data && At(s, p, x).frame !in s.own
  }

  /** The same at free frame `f`'s own address, without hitting another free frame. */
  ghost predicate OpenWindow(s: Snap, p: nat, f: nat) {
    Storable(s, p, PathOf(f * PAGE_SIZE)) && (Window(s, p, f).frame == f || Window(s, p, f).frame !in s.free)
  }

  /** And at the addresses of the first `k` free frames. */
  ghost predicate OpenWindows(s: Snap, p: nat, k: nat) {
    k <= |s.free| && forall i :: 0 <= i < k ==> OpenWindow(s, p, s.free[i])
  }

  class Machine {
    const frames: FrameAllocator
    var tables: Tables          // frames read as page tables
    var data: map<nat, Bytes>   // frames read as page contents
    var cr3: nat                // frame of the current PML4
    ghost var own: Owner

    /** `free` frames are untouched: they read as zero and hang nowhere. */
    ghost predicate Valid()
      reads this, frames
    {
      && frames.Valid()
      && TreeShaped(tables, own) && IsRoot(own, cr3)
      && forall f :: f in frames.free ==>
           f !in own && f in data && data[f] == ZEROS && f in tables && tables[f] == EMPTY
    }

    /** Zeroed memory, and the first frame taken as the PML4 (pagetable_init's first step). */
    constructor (frames: FrameAllocator)
      requires frames.Valid() && frames.free != []
      modifies frames`freeList, frames`free
      ensures Valid() && this.frames == frames && frames.free == old(frames.free)[1..]
      ensures cr3 == old(frames.free)[0] && own == map[cr3 := Place(cr3, [])]
      ensures forall p :: IsPath(p) ==> Get(tables, cr3, p) == ZERO
    {
      this.frames := frames;
      var page := frames.PageAlloc();
      cr3 := page;
      tables := map f: nat {:trigger f in frames.free} | f < |frames.next| :: EMPTY;
      data := map f: nat {:trigger f in frames.free} | f < |frames.next| :: ZEROS;
      own := map[page := Place(page, [])];
    }

    /** pdpt_alloc, pdt_alloc and pt_alloc: one body, at three levels. */
    method AllocTable(parent: nat, i: nat) returns (child: nat)
      requires Valid() && frames.free != []
      requires IsInner(own, parent) && i < 512
      modifies this`tables, this`own, frames`freeList, frames`free
      ensures Valid()
      ensures child == old(frames.free)[0] && frames.free == old(frames.free)[1..] && child !in old(own)
      ensures tables == old(tables)[parent := old(tables)[parent][i := Entry(child, LINK)]]
      ensures own == old(own)[child := ChildPlace(old(own)[parent], child, i)]
    {
      var page := frames.PageAlloc();
      child := page;
      TreeAfterLink(tables, own, parent, i, child);
      tables := tables[parent := tables[parent][i := Entry(child, LINK)]];
      own := own[child := ChildPlace(own[parent], child, i)];
      assert forall f :: f in frames.free ==> f in old(frames.free) && f != child;
    }

    /** One level of map_process: the table below an entry, allocated when the entry is absent. */
    method Descend(parent: nat, i: nat) returns (child: nat)
      requires Valid() && IsInner(own, parent) && i < 512
      requires !tables[parent][i].Present() ==> frames.free != []
      modifies this`tables, this`own, frames`freeList, frames`free
      ensures Valid() && Grows(old(tables), old(own), tables, own)
      ensures child in own && own[child] == ChildPlace(own[parent], child, i)
      ensures tables[parent][i].Present() && tables[parent][i].frame == child
      ensures RootsKept(old(tables), old(own), tables, parent, i)
      ensures forall f :: f in own && f !in old(own) ==> f in old(frames.free)
      ensures frames.free == old(frames.free)[if old(tables)[parent][i].Present() then 0 else 1..]
      ensures if old(tables)[parent][i].Present() then tables == old(tables) && own == old(own)
              else child !in old(own) && tables[child] == EMPTY
    {
      var e := tables[parent][i];
      assert ChildOwned(tables, own, parent, i);
      if e.Present() {
        child := e.frame;
      } else {
        GrowsByLink(tables, own, parent, i, frames.free[0]);
        child := AllocTable(parent, i);
      }
    }

    /** The last two levels of map_process below `pdpt`. */
    method FindLowerTables(pdpt: nat, q: seq<nat>) returns (pdt: nat, pt: nat)
      requires Valid() && IsPath(q) && pdpt in own && own[pdpt] == Place(pdpt, q[..1])
      requires |frames.free| >= Missing(tables, pdpt, q[1..])
      modifies this`tables, this`own, frames`freeList, frames`free
      ensures Valid() && Grows(old(tables), old(own), tables, own)
      ensures RootsKept(old(tables), old(own), tables, pdpt, q[1])
      ensures LinkedBelow(tables, own, q, pdpt, pdt, pt)
      ensures frames.free == old(frames.free)[Missing(old(tables), pdpt, q[1..])..]
      ensures Missing(old(tables), pdpt, q[1..]) == 0 ==> own == old(own)
      ensures forall f :: f in own && f !in old(own) ==> f in old(frames.free)
    {
      assert q[1..][1..] == q[2..] && q[2..][1..] == q[3..];
      assert q[..1] + [q[1]] == q[..2] && q[..2] + [q[2]] == q[..3];
      ghost var k1 := if tables[pdpt][q[1]].Present() then 0 else 1;
      pdt := Descend(pdpt, q[1]);
      ghost var t1, own1 := tables, own;
      ghost var k2 := if tables[pdt][q[2]].Present() then 0 else 1;
      assert Missing(t1, pdt, q[2..]) == k2;
      assert Missing(old(tables), pdpt, q[1..]) == k1 + k2;
      pt := Descend(pdt, q[2]);
      GrowsTransitive(old(tables), old(own), t1, own1, tables, own);
      RootsTransitive(old(tables), old(own), pdpt, q[1], t1, own1, pdt, q[2], tables);
      assert EntryKept(t1, tables, pdpt, q[1]);
    }

    /** The first half of map_process: the tables on the way to page `q`, each found or allocated. */
    method FindTables(q: seq<nat>) returns (pdpt: nat, pdt: nat, pt: nat)
      requires Valid() && IsPath(q) && |frames.free| >= Missing(tables, cr3, q)
      modifies this`tables, this`own, frames`freeList, frames`free
      ensures Valid() && Grows(old(tables), old(own), tables, own)
      ensures RootsKept(old(tables), old(own), tables, cr3, q[0])
      ensures Linked(tables, own, cr3, q, pdpt, pdt, pt)
      ensures !old(tables)[cr3][q[0]].Present() ==> pdpt !in old(own)
      ensures frames.free == old(frames.free)[Missing(old(tables), cr3, q)..]
      ensures Missing(old(tables), cr3, q) == 0 ==> own == old(own)
      ensures forall f :: f in own && f !in old(own) ==> f in old(frames.free)
    {
      ghost var k := if tables[cr3][q[0]].Present() then 0 else 1;
      pdpt := Descend(cr3, q[0]);
      ghost var t1, own1 := tables, own;
      assert own[pdpt].path == q[..1];
      assert Missing(old(tables), cr3, q) == k + Missing(t1, pdpt, q[1..]);
      pdt, pt := FindLowerTables(pdpt, q);
      GrowsTransitive(old(tables), old(own), t1, own1, tables, own);
      RootsTransitive(old(tables), old(own), cr3, q[0], t1, own1, pdpt, q[1], tables);
      assert EntryKept(t1, tables, cr3, q[0]);
    }

    /** map_process on the indices of its address. `word` is the physical address as the caller
        passes it: a frame number with whatever low bits come along. */
    method MapPage(q: seq<nat>, word: Entry)
      requires Valid() && IsPath(q) && |frames.free| >= Missing(tables, cr3, q)
      modifies this`tables, this`own, frames`freeList, frames`free
      ensures Valid()
      ensures MapStep(old(tables), old(own), tables, own, cr3, q, word.Or(LINK))
      ensures frames.free == old(frames.free)[Missing(old(tables), cr3, q)..]
      ensures Missing(old(tables), cr3, q) == 0 ==> own == old(own)
      ensures forall f :: f in old(own) ==> f in own
      ensures forall f :: f in own && f !in old(own) ==> f in old(frames.free)
    {
      var pdpt, pdt, pt := FindTables(q);
      var e := word.Or(LINK);
      LeafWriteIsMapStep(old(tables), old(own), tables, own, cr3, pdpt, pdt, pt, q, e);
      assert pt !in frames.free;
      tables := tables[pt := tables[pt][q[3] := e]];
    }

    /** map_process. */
    method MapProcess(vaddr: nat, word: Entry)
      requires Valid() && |frames.free| >= Missing(tables, cr3, PathOf(vaddr))
      modifies this`tables, this`own, frames`freeList, frames`free
      ensures Valid()
      ensures MapStep(old(tables), old(own), tables, own, cr3, PathOf(vaddr), word.Or(LINK))
      ensures frames.free == old(frames.free)[Missing(old(tables), cr3, PathOf(vaddr))..]
      ensures Missing(old(tables), cr3, PathOf(vaddr)) == 0 ==> own == old(own)
      ensures forall f :: f in old(own) ==> f in own
      ensures forall f :: f in own && f !in old(own) ==> f in old(frames.free)
    {
      MapPage(PathOf(vaddr), word);
    }

    /** phyAddr: the last-level entry, flags included. The upper levels must be present: the C
        code goes on through a null table pointer otherwise. */
    method PhyAddr(vaddr: nat) returns (entry: Entry)
      requires Valid() && Missing(tables, cr3, PathOf(vaddr)) == 0
      ensures entry == Get(tables, cr3, PathOf(vaddr))
    {
      var q := PathOf(vaddr);
      assert q[1..][1..] == q[2..] && q[2..][1..] == q[3..];
      var pdpt := tables[cr3][q[0]].frame;
      assert ChildOwned(tables, own, cr3, q[0]) && Missing(tables, pdpt, q[1..]) == 0;
      var pdt := tables[pdpt][q[1]].frame;
      assert ChildOwned(tables, own, pdpt, q[1]) && Missing(tables, pdt, q[2..]) == 0;
      var pt := tables[pdt][q[2]].frame;
      assert ChildOwned(tables, own, pdt, q[2]) && Get(tables, pt, q[3..]) == tables[pt][q[3]];
      assert Get(tables, pdpt, q[1..]) == Get(tables, pdt, q[2..]) == Get(tables, pt, q[3..]);
      entry := tables[pt][q[3]];
    }

    /** The kernel fills in a structure of its own, at an address on page `vaddr / 4096`. What it
        stores there is left open. */
    method StoreStructure(vaddr: nat)
      requires Valid() && Storable(SnapOf(this), cr3, PathOf(vaddr))
      requires Get(tables, cr3, PathOf(vaddr)).frame !in frames.free
      modifies this`data
      ensures Valid()
      ensures data.Keys == old(data).Keys
      ensures forall g :: g in data && g != Get(tables, cr3, PathOf(vaddr)).frame ==> data[g] == old(data)[g]
    {
      PresentNotMissing(tables, cr3, PathOf(vaddr));
      var e := PhyAddr(vaddr);
      var page: Bytes := *;
      data := data[e.frame := page];
    }

    /** The innermost loop of copy_page_tables_forchild. */
    method CopyPt(p: nat, c: nat)
      requires Valid() && p != c && tables.Keys >= {p, c} && tables[c] == EMPTY
      requires p in own && c in own && |own[p].path| == |own[c].path| == 3
      modifies this`tables
      ensures Valid() && tables.Keys == old(tables).Keys
      ensures forall l :: 0 <= l < 512 ==> tables[p][l] == Marked(old(tables)[p][l])
      ensures forall l :: 0 <= l < 512 ==> tables[c][l] == Copied(old(tables)[p][l])
      ensures forall f :: f in old(tables) && f != p && f != c ==> tables[f] == old(tables)[f]
    {
      for l := 0 to 512
        invariant tables.Keys == old(tables).Keys
        invariant forall k :: 0 <= k < 512 ==>
          tables[p][k] == if k < l then Marked(old(tables)[p][k]) else old(tables)[p][k]
        invariant forall k :: 0 <= k < 512 ==>
          tables[c][k] == if k < l then Copied(old(tables)[p][k]) else ZERO
        invariant forall f :: f in old(tables) && f != p && f != c ==> tables[f] == old(tables)[f]
      {
        var e := tables[p][l];
        if e.Present() {
          tables := tables[c := tables[c][l := Entry(e.frame, SHARED)]];
          tables := tables[p := tables[p][l := Entry(e.frame, SHARED)]];
        }
      }
      TreeIsInner(old(tables), tables, own);
    }

    /** One entry of the copying loop over an inner table `p` into `c`. */
    method CopyEntry(level: nat, p: nat, c: nat, i: nat)
      requires Valid() && CopyPair(own, p, c, level) && level >= 2 && i < 512
      requires tables[c][i] == ZERO
      requires |frames.free| >= TablesAt(tables, p, level, i)
      modifies this`tables, this`own, frames`freeList, frames`free
      ensures Valid()
      ensures EntryCopied(old(tables), old(own), tables, own, p, c, i, old(frames.free))
      ensures frames.free == Drop(old(frames.free), TablesAt(old(tables), p, level, i))
      decreases level, 0
    {
      hide PrefixCopied, EntryCopied, TreeShaped, TablesBelow, Drop, Chain;
      OwnsChild(tables, own, p, i);
      var e := tables[p][i];
      if e.Present() {
        ghost var t, own0, free := tables, own, frames.free;
        var cc := AllocTable(c, i);
        BudgetAfterLink(t, own0, p, i, c, level, cc);
        DropOne(free, TablesBelow(tables, e.frame, level - 1, 512));
        ghost var t1, own1 := tables, own;
        CopyTable(level - 1, e.frame, cc);
        PresentEntryCopied(t, own0, t1, own1, tables, own, p, c, i, level, cc, free);
      } else {
        DropNone(frames.free);
        AbsentEntryCopied(tables, own, p, c, i, level, frames.free);
      }
    }

    /** The loop of copy_page_tables_forchild over a PDPT (level 3), a PDT (level 2) or a
        PT (level 1) `p`, whose copy goes to the empty table `c` of the same level. */
    method CopyTable(level: nat, p: nat, c: nat)
      requires Valid() && CopyPair(own, p, c, level)
      requires tables[c] == EMPTY && |frames.free| >= TablesBelow(tables, p, level, 512)
      modifies this`tables, this`own, frames`freeList, frames`free
      ensures Valid()
      ensures PrefixCopied(old(tables), old(own), tables, own, p, c, 512, old(frames.free))
      ensures frames.free == Drop(old(frames.free), TablesBelow(old(tables), p, level, 512))
      decreases level, 3
    {
      if level == 1 {
        CopyPt(p, c);
        PtCopied(old(tables), tables, own, p, c, old(frames.free));
      } else {
        CopyInner(level, p, c);
      }
    }

    method CopyInner(level: nat, p: nat, c: nat)
      requires Valid() && CopyPair(own, p, c, level) && level >= 2
      requires tables[c] == EMPTY && |frames.free| >= TablesBelow(tables, p, level, 512)
      modifies this`tables, this`own, frames`freeList, frames`free
      ensures Valid()
      ensures PrefixCopied(old(tables), old(own), tables, own, p, c, 512, old(frames.free))
      ensures frames.free == Drop(old(frames.free), TablesBelow(old(tables), p, level, 512))
      decreases level, 2
    {
      ghost var t0, own0, free0 := tables, own, frames.free;
      NothingCopied(t0, own0, p, c, level, free0);
      hide PrefixCopied, TablesBelow;
      for i := 0 to 512
        invariant Valid()
        invariant PrefixCopied(t0, own0, tables, own, p, c, i, free0)
        invariant frames.free == Drop(free0, TablesBelow(t0, p, level, i))
      {
        CopyNextEntry(level, p, c, i, t0, own0, free0);
      }
    }

    /** CopyEntry, seen from the start (`t0`, `own0`, `free0`) of that loop. */
    method CopyNextEntry(level: nat, p: nat, c: nat, i: nat, ghost t0: Tables, ghost own0: Owner, ghost free0: seq<nat>)
      requires Valid() && i < 512 && level >= 2
      requires TreeShaped(t0, own0) && CopyPair(own0, p, c, level)
      requires PrefixCopied(t0, own0, tables, own, p, c, i, free0)
      requires TablesBelow(t0, p, level, 512) <= |free0| && frames.free == Drop(free0, TablesBelow(t0, p, level, i))
      modifies this`tables, this`own, frames`freeList, frames`free
      ensures Valid()
      ensures PrefixCopied(t0, own0, tables, own, p, c, i + 1, free0)
      ensures frames.free == Drop(free0, TablesBelow(t0, p, level, i + 1))
      decreases level, 1
    {
      hide EntryCopied, PrefixCopied, TreeShaped, TablesBelow, TablesAt;
      ghost var t, own1, free := tables, own, frames.free;
      TablesAtKept(t0, own0, t, own, p, c, i, level, free0);
      CopyEntry(level, p, c, i);
      PrefixExtended(t0, own0, t, own1, tables, own, p, c, i, level, free0, free);
    }

    /** One slot of the outermost loop. */
    method CopySlot(c: nat, i: nat)
      requires Valid() && IsRoot(own, c) && c != cr3 && i < 510
      requires tables[c][i] == ZERO && |frames.free| >= TablesAt(tables, cr3, 4, i)
      modifies this`tables, this`own, frames`freeList, frames`free
      ensures Valid()
      ensures SlotCopied(old(tables), old(own), tables, own, cr3, c, i, old(frames.free))
      ensures frames.free == Drop(old(frames.free), TablesAt(old(tables), cr3, 4, i))
    {
      hide PrefixCopied, SlotCopied, TreeShaped, TablesBelow, Drop, Chain;
      OwnsChild(tables, own, cr3, i);
      var e := tables[cr3][i];
      if e.Present() {
        ghost var t, own0, free := tables, own, frames.free;
        var cc := AllocTable(c, i);
        BudgetAfterLink(t, own0, cr3, i, c, 4, cc);
        DropOne(free, TablesBelow(tables, e.frame, 3, 512));
        ghost var t1, own1 := tables, own;
        CopyTable(3, e.frame, cc);
        PresentSlotCopied(t, own0, t1, own1, tables, own, cr3, c, i, cc, free);
      } else {
        DropNone(frames.free);
        AbsentSlotCopied(tables, own, cr3, c, i, frames.free);
      }
    }

    /** The same, seen from the start (`t0`, `own0`, `free0`) of the outermost loop. */
    method CopyNextSlot(c: nat, i: nat, ghost t0: Tables, ghost own0: Owner, ghost free0: seq<nat>)
      requires Valid() && i < 510
      requires TreeShaped(t0, own0) && IsRoot(own0, cr3) && IsRoot(own0, c) && c != cr3
      requires RootPrefixCopied(t0, own0, tables, own, cr3, c, i, free0)
      requires TablesBelow(t0, cr3, 4, 510) <= |free0| && frames.free == Drop(free0, TablesBelow(t0, cr3, 4, i))
      modifies this`tables, this`own, frames`freeList, frames`free
      ensures Valid()
      ensures RootPrefixCopied(t0, own0, tables, own, cr3, c, i + 1, free0)
      ensures frames.free == Drop(free0, TablesBelow(t0, cr3, 4, i + 1))
    {
      hide SlotCopied, RootPrefixCopied, TreeShaped, TablesBelow, TablesAt;
      ghost var t, own1, free := tables, own, frames.free;
      RootPrefixBudget(t0, own0, t, own, cr3, c, i, free0);
      CopySlot(c, i);
      RootPrefixExtended(t0, own0, t, own1, tables, own, cr3, c, i, free0, free);
    }

    /** The outermost loop of copy_page_tables_forchild. */
    method CopySlots(c: nat)
      requires Valid() && IsRoot(own, c) && c != cr3 && tables[c] == EMPTY
      requires |frames.free| >= TablesBelow(tables, cr3, 4, 510)
      modifies this`tables, this`own, frames`freeList, frames`free
      ensures Valid()
      ensures RootPrefixCopied(old(tables), old(own), tables, own, cr3, c, 510, old(frames.free))
      ensures frames.free == Drop(old(frames.free), TablesBelow(old(tables), cr3, 4, 510))
    {
      ghost var t0, own0, free0 := tables, own, frames.free;
      RootNothingCopied(t0, own0, cr3, c, free0);
      hide RootPrefixCopied, TablesBelow;
      for i := 0 to 510
        invariant Valid()
        invariant RootPrefixCopied(t0, own0, tables, own, cr3, c, i, free0)
        invariant frames.free == Drop(free0, TablesBelow(t0, cr3, 4, i))
      {
        CopyNextSlot(c, i, t0, own0, free0);
      }
    }

    /** A page_alloc whose frame becomes a PML4. */
    method NewRoot() returns (root: nat)
      requires Valid() && frames.free != []
      modifies this`own, frames`freeList, frames`free
      ensures Valid() && root == old(frames.free)[0] && root !in old(own) && root in tables && tables[root] == EMPTY
      ensures own == old(own)[root := Place(root, [])] && frames.free == old(frames.free)[1..]
    {
      var page := frames.PageAlloc();
      root := page;
      TreeWithRoot(tables, own, root);
      own := own[root := Place(root, [])];
    }

    /** The loop of set_user_AddrSpace. */
    method CopyEntries(from: nat, to: nat)
      requires from in tables && to in tables && from != to
      modifies this`tables
      ensures tables == old(tables)[to := old(tables)[from]]
    {
      for i := 0 to 512
        invariant tables.Keys == old(tables).Keys
        invariant forall f :: f in tables && f != to ==> tables[f] == old(tables)[f]
        invariant forall j :: 0 <= j < i ==> tables[to][j] == tables[from][j]
      {
        tables := tables[to := tables[to][i := tables[from][i]]];
      }
      assert tables[to] == tables[from];
    }

    /** set_user_AddrSpace. */
    method SetUserAddrSpace() returns (root: nat)
      requires Valid() && frames.free != []
      modifies this`tables, this`own, frames`freeList, frames`free
      ensures Valid() && root == old(frames.free)[0] && frames.free == old(frames.free)[1..]
      ensures CloneStep(old(tables), old(own), tables, own, cr3, root)
    {
      TreeWithClone(tables, own, cr3, frames.free[0]);
      root := NewRoot();
      CopyEntries(cr3, root);
    }

    /** The address-space part of copyParentToChild: a fresh PML4, then copy_page_tables_forchild. */
    method ForkAddressSpace() returns (child: nat)
      requires Valid() && |frames.free| > TablesBelow(tables, cr3, 4, 510)
      modifies this`tables, this`own, frames`freeList, frames`free
      ensures Valid() && child == old(frames.free)[0]
      ensures ForkStep(old(tables), old(own), tables, own, cr3, child)
      ensures frames.free == Drop(old(frames.free), 1 + TablesBelow(old(tables), cr3, 4, 510))
      ensures forall f :: f in own && f !in old(own) ==> f in old(frames.free)
    {
      hide ForkStep, RootPrefixCopied, TreeShaped, TablesBelow, Drop, Chain;
      DropOne(frames.free, TablesBelow(tables, cr3, 4, 510));
      child := NewRoot();
      ghost var free := frames.free;
      CopySlots(child);
      ForkStepDone(old(tables), old(own), tables, own, cr3, child, free);
      tables := tables[child := tables[child][511 := tables[cr3][511]][510 := tables[cr3][510]]];
    }
  }
}
