/** The user heap of libc/malloc.c: first fit over a list of blocks that are never split or
    merged, and what every run of malloc and free keeps. `brk` is an oracle that returns fresh
    page runs. */
module Heap {
  import opened Utils

  const HEADER_SIZE := 32
  const MAGIC_ALLOC := 11
  const MAGIC_FREED := 22
  const MAGIC_REALL := 33

  datatype Status = Alloc | Freed

  /** struct meta_block, without its links. */
  datatype Blk = Blk(addr: nat, size: nat, status: Status, magic: nat)

  type HeapState = seq<Blk>

  // ---- sbrk ------------------------------------------------------------------------------

  /** C division by 4096, towards zero. */
  function TruncPages(x: int): int { if x >= 0 then x / 4096 else -(-x / 4096) }

  /** The page count sbrk passes on for a request of `size` bytes, through ssize_t and int. */
  function RunPages(size: nat): int {
    Int32(TruncPages(Int64(HEADER_SIZE + size)) + 1)
  }

  /** The run holds the header and the payload. */
  predicate Fits(size: nat) {
    HEADER_SIZE + size <= 4096 * RunPages(size)
  }

  lemma Int32Bounds(x: int)
    ensures -0x8000_0000 <= Int32(x) < 0x8000_0000
    ensures -0x8000_0000 <= x < 0x8000_0000 ==> Int32(x) == x
  {
  }

  /** The rounding of sbrk is right exactly for the sizes whose page count is an `int`. */
  lemma FitsIff(size: nat)
    ensures Fits(size) <==> (HEADER_SIZE + size) / 4096 + 1 < 0x8000_0000
  {
    var n := HEADER_SIZE + size;
    Int32Bounds(TruncPages(Int64(n)) + 1);
    if n < 0x800_0000_0000 {
      assert Int64(n) == n && TruncPages(n) == n / 4096 < 0x8000_0000;
      Int32Bounds(n / 4096 + 1);
      assert n / 4096 == 0x7FFF_FFFF ==> Int32(n / 4096 + 1) == -0x8000_0000;
    }
  }

  // ---- Operations ------------------------------------------------------------------------

  /** find_freed_block: the first free block at or after `i` that is large enough, or the length. */
  function FirstFit(h: HeapState, size: nat, i: nat): (r: nat)
    requires i <= |h|
    ensures i <= r <= |h|
    ensures r < |h| ==> h[r].status == Freed && h[r].size >= size
    ensures forall j :: i <= j < r ==> !(h[j].status == Freed && h[j].size >= size)
    decreases |h| - i
  {
    if i == |h| || (h[i].status == Freed && h[i].size >= size) then i else FirstFit(h, size, i + 1)
  }

  /** The block that serves a request; the length of the heap when brk has to be asked. */
  function Chosen(h: HeapState, size: nat): nat { FirstFit(h, size, 0) }

  /** malloc of a non-zero size, when brk would return `run`. */
  function MallocHeap(h: HeapState, size: nat, run: nat): HeapState {
    var i := Chosen(h, size);
    if i < |h| then h[i := h[i].(status := Alloc, magic := MAGIC_REALL)]
    else h + [Blk(run, size, Alloc, MAGIC_ALLOC)]
  }

  /** free of the payload of block `i`. */
  function FreeHeap(h: HeapState, i: nat): HeapState
    requires i < |h|
  {
    if h[i].status == Freed then h
    else h[i := h[i].(status := Freed, magic := if Dangling(h[i]) then h[i].magic else MAGIC_FREED)]
  }

  /** The branch of free that reports a dangling pointer. */
  predicate Dangling(b: Blk) {
    b.status != Freed && b.magic != MAGIC_ALLOC && b.magic != MAGIC_REALL
  }

  function Payload(b: Blk): nat { b.addr + HEADER_SIZE }

  // ---- Runs ------------------------------------------------------------------------------

  datatype Event = Malloc(size: nat, run: nat) | Free(block: nat)

  /** The heap, and what the program holds: for each live block the size it asked for. */
  datatype Program = Program(heap: HeapState, live: map<nat, nat>)

  ghost predicate RunFresh(h: HeapState, size: nat, run: nat) {
    run > 0 && forall j :: 0 <= j < |h| ==> RunsApart(h[j].addr, h[j].size, run, size)
  }

  /** The page runs of two blocks do not meet. */
  ghost predicate RunsApart(a: nat, sizeA: nat, b: nat, sizeB: nat) {
    a + 4096 * RunPages(sizeA) <= b || b + 4096 * RunPages(sizeB) <= a
  }

  /** The program frees only what malloc returned to it (again, perhaps); brk returns fresh runs. */
  ghost predicate Enabled(p: Program, ev: Event) {
    match ev
    case Malloc(size, run) => size > 0 ==> Fits(size) && RunFresh(p.heap, size, run)
    case Free(i) => i < |p.heap|
  }

  ghost function Step(p: Program, ev: Event): Program
    requires Enabled(p, ev)
  {
    match ev
    case Malloc(size, run) =>
      if size == 0 then p else Program(MallocHeap(p.heap, size, run), p.live[Chosen(p.heap, size) := size])
    case Free(i) => Program(FreeHeap(p.heap, i), p.live - {i})
  }

  ghost predicate BlockInv(b: Blk) {
    && b.addr > 0 && b.size > 0 && Fits(b.size)
    && (b.status == Alloc ==> b.magic == MAGIC_ALLOC || b.magic == MAGIC_REALL)
    && (b.status == Freed ==> b.magic == MAGIC_FREED)
  }

  ghost predicate Inv(p: Program) {
    && (forall i :: 0 <= i < |p.heap| ==> BlockInv(p.heap[i]))
    && (forall i, j :: 0 <= i < j < |p.heap| ==>
          RunsApart(p.heap[i].addr, p.heap[i].size, p.heap[j].addr, p.heap[j].size))
    && (forall i :: i in p.live <==> 0 <= i < |p.heap| && p.heap[i].status == Alloc)
    && (forall i :: i in p.live ==> 0 < p.live[i] <= p.heap[i].size)
  }

  lemma StepKeepsInv(p: Program, ev: Event)
    requires Inv(p) && Enabled(p, ev)
    ensures Inv(Step(p, ev))
  {
    hide Fits, RunPages, RunsApart, FirstFit;
  }

  ghost predicate Run(ps: seq<Program>, evs: seq<Event>) {
    && |ps| == |evs| + 1 && ps[0] == Program([], map[])
    && forall k :: 0 <= k < |evs| ==> StepsTo(ps[k], evs[k], ps[k + 1])
  }

  ghost predicate StepsTo(p: Program, ev: Event, p': Program) {
    Enabled(p, ev) && p' == Step(p, ev)
  }

  lemma {:induction false} RunKeepsInv(ps: seq<Program>, evs: seq<Event>, k: nat)
    requires Run(ps, evs) && k <= |evs|
    ensures Inv(ps[k])
  {
    if k > 0 {
      RunKeepsInv(ps, evs, k - 1);
      assert StepsTo(ps[k - 1], evs[k - 1], ps[k - 1 + 1]);
      StepKeepsInv(ps[k - 1], evs[k - 1]);
    }
  }

  /** In every run: payloads of live allocations, as long as what was asked for, never overlap each
      other or any block's header, and lie inside the run that brk returned. */
  lemma LivePayloadsDisjoint(ps: seq<Program>, evs: seq<Event>, k: nat, i: nat, j: nat)
    requires Run(ps, evs) && k <= |evs| && i in ps[k].live && j < |ps[k].heap| && i != j
    ensures i < |ps[k].heap|
    ensures var p, q := ps[k].heap[i], ps[k].heap[j]; var n := ps[k].live[i];
            && Payload(p) + n <= p.addr + 4096 * RunPages(p.size)
            && (Payload(p) + n <= q.addr || Payload(q) + q.size <= p.addr)
            && Payload(p) != Payload(q)
  {
    RunKeepsInv(ps, evs, k);
    var h := ps[k].heap;
    assert BlockInv(h[i]) && BlockInv(h[j]);
    assert i < j ==> RunsApart(h[i].addr, h[i].size, h[j].addr, h[j].size);
    assert j < i ==> RunsApart(h[j].addr, h[j].size, h[i].addr, h[i].size);
    hide RunPages;
  }

  /** malloc never returns the payload of a live allocation, nor NULL unless it was asked for nothing. */
  lemma MallocReturnsFree(ps: seq<Program>, evs: seq<Event>, k: nat, size: nat)
    requires Run(ps, evs) && k <= |evs| && size > 0
    ensures Chosen(ps[k].heap, size) !in ps[k].live
    ensures forall run :: Enabled(ps[k], Malloc(size, run)) ==>
      Payload(MallocHeap(ps[k].heap, size, run)[Chosen(ps[k].heap, size)]) > 0
  {
    RunKeepsInv(ps, evs, k);
  }

  /** The dangling-pointer branch is unreachable, a second free changes nothing at all, and a first
      one changes only that block's status and magic code. */
  lemma FreeIsSafe(ps: seq<Program>, evs: seq<Event>, k: nat, i: nat)
    requires Run(ps, evs) && k <= |evs| && i < |ps[k].heap|
    ensures !Dangling(ps[k].heap[i])
    ensures i !in ps[k].live ==> Step(ps[k], Free(i)) == ps[k]
    ensures Step(Step(ps[k], Free(i)), Free(i)) == Step(ps[k], Free(i))
    ensures i in ps[k].live ==>
      FreeHeap(ps[k].heap, i) == ps[k].heap[i := ps[k].heap[i].(status := Freed, magic := 22)]
  {
    RunKeepsInv(ps, evs, k);
    assert BlockInv(ps[k].heap[i]);
    assert i !in ps[k].live ==> ps[k].live - {i} == ps[k].live;
  }

  /** In every run, a block once obtained keeps its place, its address and its size, whoever holds it. */
  lemma {:induction false} BlocksNeverChange(ps: seq<Program>, evs: seq<Event>, i: nat, j: nat, k: nat)
    requires Run(ps, evs) && j <= k <= |evs| && i < |ps[j].heap|
    ensures i < |ps[k].heap| && ps[k].heap[i].addr == ps[j].heap[i].addr && ps[k].heap[i].size == ps[j].heap[i].size
    decreases k
  {
    hide Step, Enabled;
    if j < k {
      BlocksNeverChange(ps, evs, i, j, k - 1);
      assert StepsTo(ps[k - 1], evs[k - 1], ps[k - 1 + 1]);
      BlockKept(ps[k - 1], evs[k - 1], i);
    }
  }

  lemma BlockKept(p: Program, ev: Event, i: nat)
    requires Enabled(p, ev) && i < |p.heap|
    ensures var h := Step(p, ev).heap;
      i < |h| && h[i].addr == p.heap[i].addr && h[i].size == p.heap[i].size
  {
    hide FirstFit, Fits, RunFresh;
  }

  /** malloc of a non-zero size: `i` is the first free block that is large enough, or the end. The
      block served carries 33 when reused and 11 when new, a new one with the size asked for; no
      other block changes, and the payload is 32 bytes above the header. */
  lemma MallocServes(h: HeapState, size: nat, run: nat, i: nat)
    requires size > 0 && i <= |h|
    requires forall j :: 0 <= j < i ==> h[j].status == Alloc || h[j].size < size
    requires i < |h| ==> h[i].status == Freed && h[i].size >= size
    ensures Chosen(h, size) == i
    ensures var h' := MallocHeap(h, size, run);
      && |h'| == (if i < |h| then |h| else |h| + 1)
      && h'[i] == (if i < |h| then Blk(h[i].addr, h[i].size, Alloc, 33) else Blk(run, size, Alloc, 11))
      && Payload(h'[i]) == h'[i].addr + 32
      && forall j :: 0 <= j < |h| && j != i ==> h'[j] == h[j]
  {
    var k := Chosen(h, size);
    assert k == i;
    hide FirstFit;
  }

  /** What sbrk is asked for: for every size below 8 TiB, the whole pages that hold 32 bytes more than
      `size`, and one page more when these fill them exactly. */
  lemma PagesAsked(size: nat)
    requires (size + 32) / 4096 + 1 < 0x8000_0000
    ensures RunPages(size) == (size + 32) / 4096 + 1
    ensures 4096 * (RunPages(size) - 1) <= size + 32 < 4096 * RunPages(size)
  {
    assert Int64(size + 32) == size + 32;
    Int32Bounds((size + 32) / 4096 + 1);
  }

  // ---- One size --------------------------------------------------------------------------

  /** The largest number of allocations alive at once up to step `k`. */
  ghost function Peak(ps: seq<Program>, k: nat): nat
    requires k < |ps|
  {
    if k == 0 then |ps[0].live| else if Peak(ps, k - 1) < |ps[k].live| then |ps[k].live| else Peak(ps, k - 1)
  }

  ghost predicate OneSize(evs: seq<Event>, n: nat) {
    forall k :: 0 <= k < |evs| && evs[k].Malloc? ==> evs[k].size == n
  }

  ghost predicate AllOfSize(h: HeapState, n: nat) {
    forall i :: 0 <= i < |h| ==> h[i].size == n
  }

  lemma OneSizeKept(p: Program, ev: Event, n: nat)
    requires Enabled(p, ev) && AllOfSize(p.heap, n) && (ev.Malloc? ==> ev.size == n)
    ensures AllOfSize(Step(p, ev).heap, n)
  {
    hide FirstFit, Fits, RunFresh;
  }

  /** With blocks and requests of one size, brk is asked only when every block is live. */
  lemma OneSizeStep(p: Program, ev: Event, n: nat)
    requires Inv(p) && Enabled(p, ev) && AllOfSize(p.heap, n) && n > 0 && (ev.Malloc? ==> ev.size == n)
    ensures var p' := Step(p, ev);
            && |p'.live| <= |p'.heap|
            && (|p'.heap| == |p.heap| || (|p'.heap| == |p.heap| + 1 && |p'.live| == |p'.heap|))
  {
    hide Inv, RunFresh, FirstFit, Fits;
    StepKeepsInv(p, ev);
    LiveCount(Step(p, ev));
    if ev.Malloc? && Chosen(p.heap, n) == |p.heap| {
      NoneFree(p.heap, n);
      AllLive(Step(p, ev));
    }
  }

  lemma NoneFree(h: HeapState, n: nat)
    requires AllOfSize(h, n) && Chosen(h, n) == |h|
    ensures forall i :: 0 <= i < |h| ==> h[i].status == Status.Alloc
  {
    forall i | 0 <= i < |h|
      ensures h[i].status == Status.Alloc
    {
      assert h[i].size == n;
    }
  }

  /** With requests of one size the number of blocks ever obtained from brk is the peak number of
      simultaneously live allocations. */
  lemma {:induction false} BlocksArePeak(ps: seq<Program>, evs: seq<Event>, n: nat, k: nat)
    requires Run(ps, evs) && OneSize(evs, n) && n > 0 && k <= |evs|
    ensures |ps[k].heap| == Peak(ps, k) && AllOfSize(ps[k].heap, n)
  {
    hide Step, Inv, Enabled;
    if k > 0 {
      BlocksArePeak(ps, evs, n, k - 1);
      RunKeepsInv(ps, evs, k - 1);
      assert StepsTo(ps[k - 1], evs[k - 1], ps[k - 1 + 1]);
      OneSizeStep(ps[k - 1], evs[k - 1], n);
      OneSizeKept(ps[k - 1], evs[k - 1], n);
      hide Run, StepsTo, OneSize, AllOfSize;
    }
  }

  lemma Below(n: nat) returns (s: set<nat>)
    ensures (forall i :: i in s <==> 0 <= i < n) && |s| == n
  {
    s := {};
    if n > 0 {
      var t := Below(n - 1);
      s := t + {n - 1};
    }
  }

  lemma LiveCount(p: Program)
    requires Inv(p)
    ensures |p.live| <= |p.heap|
  {
    var all := Below(|p.heap|);
    SubsetSize(p.live.Keys, all);
    assert |p.live| == |p.live.Keys|;
  }

  lemma {:induction false} SubsetSize(a: set<nat>, b: set<nat>)
    requires a <= b
    ensures |a| <= |b|
  {
    if a != {} {
      var x :| x in a;
      SubsetSize(a - {x}, b - {x});
    }
  }

  lemma AllLive(p: Program)
    requires Inv(p) && forall i :: 0 <= i < |p.heap| ==> p.heap[i].status == Alloc
    ensures |p.live| == |p.heap|
  {
    var all := Below(|p.heap|);
    assert p.live.Keys == all;
    assert |p.live| == |p.live.Keys|;
  }
}
