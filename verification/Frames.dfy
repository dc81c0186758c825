/** The physical frame allocator of sys/phymap.c: page descriptors chained through their
    `next` fields, handed out and taken back at the head of `free_list`, and `kmalloc` on top. */
module Frames {
  import opened Utils

  const PAGE_SIZE := 4096

  function Min(a: int, b: int): int { if a < b then a else b }

  /** Following `next` from `head` visits exactly `list`, in order, and ends at NULL. */
  ghost predicate Chain(next: seq<int>, head: int, list: seq<nat>) {
    && NoDuplicates(list)
    && (forall i :: 0 <= i < |list| ==> list[i] < |next|)
    && head == NodeAt(list, 0)
    && forall i :: 0 <= i < |list| ==> next[list[i]] == NodeAt(list, i + 1)
  }

  /** Following `next` from `head` terminates. */
  ghost predicate Linear(next: seq<int>, head: int) {
    exists list :: Chain(next, head, list)
  }

  ghost function NodeAt(list: seq<nat>, i: nat): int {
    if i < |list| then list[i] else NULL
  }

  /** `s` is `lo, lo + 1, ..., hi - 1`, or empty when there are none. */
  ghost predicate Consecutive(s: seq<nat>, lo: nat, hi: nat) {
    |s| == (if lo < hi then hi - lo else 0) && forall i :: 0 <= i < |s| ==> s[i] == lo + i
  }

  lemma ConsecutiveChain(next: seq<int>, lo: nat, list: seq<nat>)
    requires Consecutive(list, lo, |next|)
    requires forall j :: lo <= j < |next| - 1 ==> next[j] == j + 1
    requires lo < |next| ==> next[|next| - 1] == NULL
    ensures Chain(next, if lo < |next| then lo else NULL, list)
  {
  }

  class FrameAllocator {
    var next: seq<int>       // pages[i].next, as a descriptor index or NULL
    var referCnt: seq<int>   // pages[i].refer_cnt
    var freeList: int        // free_list, as a descriptor index or NULL
    ghost var free: seq<nat> // the frames on the free list, first to be handed out first

    ghost predicate Valid()
      reads this
    {
      Chain(next, freeList, free)
    }

    /** page_init. `next0` is what the descriptors hold beforehand: the last one is never given
        a successor, so it must start out NULL; `free_list` is a zeroed static. */
    constructor (next0: seq<int>, physfree: nat)
      requires next0 != [] ==> next0[|next0| - 1] == NULL
      ensures Valid()
      ensures Consecutive(free, (physfree + |next0| * 8) / PAGE_SIZE, |next0|)
      ensures |referCnt| == |next0| == |next|
      ensures forall i :: 0 <= i < |next0| ==>
        referCnt[i] == if i < (physfree + |next0| * 8) / PAGE_SIZE then 1 else 0
    {
      var n := |next0|;
      var memory := (physfree + n * 8) / PAGE_SIZE;
      var nxt, cnt, head, prev := next0, seq(n, _ => 0), NULL, NULL;
      for i := 0 to n
        invariant |nxt| == |cnt| == n
        invariant head == if memory < i then memory else NULL
        invariant prev == if memory < i then i - 1 else NULL
        invariant forall j :: i <= j < n ==> nxt[j] == next0[j]
        invariant memory < i ==> nxt[i - 1] == next0[i - 1]
        invariant forall j :: memory <= j < i - 1 ==> nxt[j] == j + 1
        invariant forall j :: 0 <= j < i ==> cnt[j] == if j < memory then 1 else 0
      {
        if i < memory {
          cnt := cnt[i := 1];
          nxt := nxt[i := NULL];
        } else {
          cnt := cnt[i := 0];
          if prev != NULL {
            nxt := nxt[prev := i];
          } else {
            head := i;
          }
          prev := i;
        }
      }
      next, referCnt, freeList := nxt, cnt, head;
      ghost var list: seq<nat> := seq(if memory < n then n - memory else 0, i requires 0 <= i => memory + i);
      ConsecutiveChain(nxt, memory, list);
      free := list;
    }

    /** page_alloc: the head of the list, or NULL when it is empty. */
    method PageAlloc() returns (page: int)
      requires Valid()
      modifies this`freeList, this`free
      ensures Valid()
      ensures old(free) == [] ==> page == NULL && free == []
      ensures old(free) != [] ==> page == old(free)[0] && free == old(free)[1..]
    {
      if freeList == NULL {
        return NULL;
      }
      page := freeList;
      freeList := next[freeList];
      free := free[1..];
    }

    /** page_dealloc of a frame that is not on the list. */
    method PageDealloc(page: nat)
      requires Valid() && page < |next| && page !in free
      modifies this`next, this`freeList, this`free
      ensures Valid() && |next| == |old(next)|
      ensures free == [page] + old(free)
    {
      next := next[page := freeList];
      freeList := page;
      free := [page] + free;
    }

    /** kmalloc: returns the address of the first frame taken; the results of the later
        page_alloc calls are not looked at, so a short list just runs dry. */
    method Kmalloc(size: nat) returns (addr: nat)
      requires Valid() && (size > 0 ==> free != [])
      modifies this`freeList, this`free
      ensures Valid()
      ensures addr == if size > 0 then old(free)[0] * PAGE_SIZE else 0
      ensures free == old(free)[Min(FramesFor(size), |old(free)|)..]
    {
      addr := 0;
      if size > 0 {
        addr := TakeFrames(Int32(size / PAGE_SIZE) + (if size % PAGE_SIZE > 0 then 1 else 0));
      }
    }

    /** The loop of kmalloc: one page_alloc whose result is dereferenced, then cnt - 1 more. */
    method TakeFrames(cnt: int) returns (addr: nat)
      requires Valid() && free != []
      modifies this`freeList, this`free
      ensures Valid() && addr == old(free)[0] * PAGE_SIZE
      ensures free == old(free)[Min(if cnt < 1 then 1 else cnt, |old(free)|)..]
    {
      var page := PageAlloc();
      addr := page * PAGE_SIZE;
      var i := 1;
      while i < cnt
        invariant 1 <= i && (1 < i ==> i <= cnt) && Valid()
        invariant free == old(free)[Min(i, |old(free)|)..]
      {
        page := PageAlloc();
        i := i + 1;
      }
    }
  }

  /** How many page_alloc calls `kmalloc(size)` makes. */
  function FramesFor(size: nat): nat {
    if size == 0 then 0 else
      var cnt := Int32(size / PAGE_SIZE) + (if size % PAGE_SIZE > 0 then 1 else 0);
      if cnt < 1 then 1 else cnt
  }

  /** Returning a frame leaves a proper list exactly when that frame was not on it. */
  lemma DeallocKeepsListIff(next: seq<int>, head: int, free: seq<nat>, page: nat)
    requires Chain(next, head, free) && page < |next|
    ensures Linear(next[page := head], page) <==> page !in free
  {
    var next' := next[page := head];
    if page !in free {
      assert Chain(next', page, [page] + free);
    } else {
      var k :| 0 <= k < |free| && free[k] == page;
      forall list | Chain(next', page, list)
        ensures false
      {
        FollowsOldList(next, head, free, page, k, list, k);
      }
    }
  }

  lemma {:induction false} FollowsOldList(next: seq<int>, head: int, free: seq<nat>, page: nat, k: nat,
                                          list: seq<nat>, i: nat)
    requires Chain(next, head, free) && k < |free| && free[k] == page
    requires Chain(next[page := head], page, list) && i <= k
    ensures i + 1 < |list| && list[i + 1] == free[i]
  {
    if i > 0 {
      FollowsOldList(next, head, free, page, k, list, i - 1);
      assert free[i - 1] != page;
    }
  }

  // ---- Runs ------------------------------------------------------------------------------

  datatype Op = Alloc | Dealloc(frame: nat)

  /** The allocator seen from outside: the list, and the frames handed out and not returned. */
  datatype Pool = Pool(free: seq<nat>, live: set<nat>)

  function Elements<T>(s: seq<T>): set<T> { set x | x in s }

  ghost predicate Enabled(p: Pool, op: Op) {
    op.Dealloc? ==> op.frame in p.live
  }

  ghost function Apply(p: Pool, op: Op): Pool {
    match op
    case Alloc => if p.free == [] then p else Pool(p.free[1..], p.live + {p.free[0]})
    case Dealloc(f) => Pool([f] + p.free, p.live - {f})
  }

  ghost predicate Run(ps: seq<Pool>, ops: seq<Op>) {
    && |ps| == |ops| + 1
    && forall i :: 0 <= i < |ops| ==> Enabled(ps[i], ops[i]) && ps[i + 1] == Apply(ps[i], ops[i])
  }

  ghost predicate Partition(p: Pool, pool: set<nat>) {
    NoDuplicates(p.free) && Elements(p.free) !! p.live && Elements(p.free) + p.live == pool
  }

  /** Frames are conserved: in every run, listed and live frames split the initial pool. */
  lemma {:induction false} Conservation(ps: seq<Pool>, ops: seq<Op>, n: nat)
    requires Run(ps, ops) && n < |ps|
    requires NoDuplicates(ps[0].free) && ps[0].live == {}
    ensures Partition(ps[n], Elements(ps[0].free))
  {
    if n > 0 {
      Conservation(ps, ops, n - 1);
      var p, op := ps[n - 1], ops[n - 1];
      match op
      case Alloc =>
        if p.free != [] {
          assert p.free == [p.free[0]] + p.free[1..];
          assert p.free[0] !in p.free[1..];
        }
      case Dealloc(f) =>
        assert f in p.live;
    }
  }

  /** kmalloc's `int` page count is exact for every size below 8 TiB. */
  lemma FramesForIsCeiling(size: nat)
    requires 0 < size < 0x7ff_ffff_f000
    ensures FramesFor(size) == (size + PAGE_SIZE - 1) / PAGE_SIZE >= 1
  {
    assert size / PAGE_SIZE < 0x8000_0000;
  }

  lemma OnePage()
    ensures FramesFor(PAGE_SIZE) == 1
  {
  }

  /** Frames taken by the first `n` requests. */
  ghost function Taken(counts: seq<nat>, n: nat): nat
    requires n <= |counts|
  {
    if n == 0 then 0 else Taken(counts, n - 1) + counts[n - 1]
  }

  lemma {:induction false} TakenMonotone(counts: seq<nat>, m: nat, n: nat)
    requires m <= n <= |counts|
    ensures Taken(counts, m) <= Taken(counts, n)
    decreases n
  {
    if m < n { TakenMonotone(counts, m, n - 1); }
  }

  /** The free list before and after each of a sequence of kmalloc calls (Kmalloc's ensures). */
  ghost predicate KmallocRun(lists: seq<seq<nat>>, counts: seq<nat>) {
    && |lists| == |counts| + 1
    && forall i :: 0 <= i < |counts| ==> KmallocStep(lists, counts[i], i)
  }

  ghost predicate KmallocStep(lists: seq<seq<nat>>, count: nat, i: nat)
    requires i + 1 < |lists|
  {
    lists[i + 1] == lists[i][Min(count, |lists[i]|)..]
  }

  /** Without page_dealloc the list is a bump pointer. */
  lemma {:induction false} BumpPointer(lists: seq<seq<nat>>, counts: seq<nat>, lo: nat, hi: nat, n: nat)
    requires KmallocRun(lists, counts) && Consecutive(lists[0], lo, hi) && n <= |counts|
    requires lo + Taken(counts, n) <= hi
    ensures Consecutive(lists[n], lo + Taken(counts, n), hi)
  {
    if n > 0 {
      BumpPointer(lists, counts, lo, hi, n - 1);
      assert KmallocStep(lists, counts[n - 1], n - 1);
    }
  }

  /** So the n-th kmalloc of a run gets contiguous frames. */
  lemma KmallocContiguous(lists: seq<seq<nat>>, counts: seq<nat>, lo: nat, hi: nat, n: nat)
    requires KmallocRun(lists, counts) && Consecutive(lists[0], lo, hi)
    requires n < |counts| && counts[n] > 0 && lo + Taken(counts, n) + counts[n] <= hi
    ensures counts[n] <= |lists[n]| && lists[n][0] == lo + Taken(counts, n)
    ensures Consecutive(lists[n][..counts[n]], lists[n][0], lists[n][0] + counts[n])
  {
    BumpPointer(lists, counts, lo, hi, n);
  }

  /** And no two calls of a run share a frame. */
  lemma KmallocDisjoint(lists: seq<seq<nat>>, counts: seq<nat>, lo: nat, hi: nat, m: nat, n: nat)
    requires KmallocRun(lists, counts) && Consecutive(lists[0], lo, hi)
    requires m < n < |counts| && counts[m] > 0 && counts[n] > 0
    requires lo + Taken(counts, n) + counts[n] <= hi
    ensures lists[m] != [] && lists[n] != [] && lists[m][0] + counts[m] <= lists[n][0]
  {
    TakenMonotone(counts, m + 1, n);
    assert Taken(counts, m + 1) == Taken(counts, m) + counts[m];
    KmallocContiguous(lists, counts, lo, hi, m);
    KmallocContiguous(lists, counts, lo, hi, n);
  }
}
