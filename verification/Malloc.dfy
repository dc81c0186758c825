/** libc/malloc.c itself: the doubly linked block list, each function proved to compute the heap
    function of module Heap. */
module Malloc {
  import opened Heap

  class Block {
    const addr: nat
    var size: nat
    var next: Block?
    var previous: Block?
    var status: Status
    var magicCode: nat

    /** The header at the start of a page run that brk returned. */
    constructor (addr: nat)
      ensures this.addr == addr
    {
      this.addr := addr;
      size, next, previous, status, magicCode := 0, null, null, Freed, 0;
    }
  }

  datatype Report = Quiet | DoubleFree | DanglingPointer

  ghost function BlkOf(b: Block): Blk
    reads b
  {
    Blk(b.addr, b.size, b.status, b.magicCode)
  }

  /** The blocks, as values. */
  ghost function HeapOf(blocks: seq<Block>): (h: HeapState)
    reads blocks
    ensures |h| == |blocks| && forall i :: 0 <= i < |h| ==> h[i] == BlkOf(blocks[i])
  {
    seq(|blocks|, i requires 0 <= i < |blocks| reads blocks => BlkOf(blocks[i]))
  }

  lemma HeapIs(blocks: seq<Block>, h: HeapState)
    requires |h| == |blocks| && forall i :: 0 <= i < |h| ==> h[i] == BlkOf(blocks[i])
    ensures HeapOf(blocks) == h
  {
  }

  ghost predicate Distinct(blocks: seq<Block>) {
    forall i, j :: 0 <= i < j < |blocks| ==> blocks[i] != blocks[j]
  }

  /** Position `i` of the list, or null outside it. */
  ghost function BlockAt(blocks: seq<Block>, i: int): Block? {
    if 0 <= i < |blocks| then blocks[i] else null
  }

  lemma BlockAtIs(blocks: seq<Block>, i: int)
    ensures BlockAt(blocks, i) == if 0 <= i < |blocks| then blocks[i] else null
  {
  }

  lemma ExtendedAt(blocks: seq<Block>, block: Block, i: int)
    ensures BlockAt(blocks + [block], i) == if i == |blocks| then block else BlockAt(blocks, i)
    ensures i < 0 || i >= |blocks| ==> BlockAt(blocks, i) == null
  {
  }

  /** Linked both ways. */
  ghost predicate Linked(blocks: seq<Block>)
    reads (set b | b in blocks)`next, (set b | b in blocks)`previous
  {
    && (forall i :: 0 <= i < |blocks| ==> blocks[i].next == BlockAt(blocks, i + 1))
    && (forall i :: 0 <= i < |blocks| ==> blocks[i].previous == BlockAt(blocks, i - 1))
  }

  /** Each header is what memory holds at its address. */
  ghost predicate InMemory(blocks: seq<Block>, memory: map<nat, Block>) {
    forall b :: b in blocks ==> b.addr in memory && memory[b.addr] == b
  }

  /** No header stands at `run`. */
  ghost predicate Unused(blocks: seq<Block>, run: nat) {
    forall b :: b in blocks ==> b.addr != run
  }

  lemma InMemoryAfter(blocks: seq<Block>, memory: map<nat, Block>, block: Block)
    requires InMemory(blocks, memory) && Unused(blocks, block.addr)
    ensures InMemory(blocks + [block], memory[block.addr := block])
  {
  }

  class Allocator {
    var head: Block?
    var memory: map<nat, Block>   // the headers, by address
    ghost var blocks: seq<Block>

    ghost predicate Valid()
      reads this, blocks
    {
      Distinct(blocks) && head == BlockAt(blocks, 0) && Linked(blocks) && InMemory(blocks, memory)
    }

    constructor ()
      ensures Valid() && HeapOf(blocks) == []
    {
      head, memory, blocks := null, map[], [];
    }

    /** block_request: a header at the start of a fresh run, hung behind `last`. */
    method BlockRequest(last: Block?, size: nat, run: nat) returns (block: Block)
      requires Distinct(blocks) && Linked(blocks) && last == BlockAt(blocks, |blocks| - 1)
      requires InMemory(blocks, memory) && Unused(blocks, run)
      modifies this`blocks, this`memory, (if last == null then {} else {last})`next
      ensures fresh(block) && blocks == old(blocks) + [block] && Distinct(blocks) && block.next == null
      ensures last != null ==> Linked(blocks)
      ensures InMemory(blocks, memory)
      ensures HeapOf(blocks) == old(HeapOf(blocks)) + [Blk(run, size, Status.Alloc, MAGIC_ALLOC)]
    {
      hide BlockAt, HeapOf, InMemory, Unused;
      ghost var old0, h := blocks, HeapOf(blocks);
      block := new Block(run);
      memory := memory[run := block];
      InMemoryAfter(old0, old(memory), block);
      if last != null {
        last.next := block;
        block.previous := last;
      }
      block.status := Status.Alloc;
      block.magicCode := MAGIC_ALLOC;
      block.size := size;
      block.next := null;
      blocks := old0 + [block];
      forall i | 0 <= i < |blocks| && last != null
        ensures blocks[i].next == BlockAt(blocks, i + 1) && blocks[i].previous == BlockAt(blocks, i - 1)
      {
        BlockAtIs(old0, |old0| - 1);
        ExtendedAt(old0, block, i + 1);
        ExtendedAt(old0, block, i - 1);
      }
      HeapIs(blocks, h + [Blk(run, size, Status.Alloc, MAGIC_ALLOC)]);
    }

    /** find_freed_block, with the last block seen when there is none. */
    method FindFreedBlock(size: nat) returns (block: Block?, last: Block?)
      requires Valid()
      ensures block == BlockAt(blocks, Chosen(HeapOf(blocks), size))
      ensures block == null ==> last == BlockAt(blocks, |blocks| - 1)
    {
      hide BlockAt, Distinct, HeapOf;
      last := head;
      block := head;
      ghost var k := 0;
      BlockAtIs(blocks, 0);
      BlockAtIs(blocks, -1);
      while block != null && !(block.status == Freed && block.size >= size)
        invariant 0 <= k <= |blocks| && block == BlockAt(blocks, k)
        invariant if k == 0 then last == head else last == BlockAt(blocks, k - 1)
        invariant Chosen(HeapOf(blocks), size) == FirstFit(HeapOf(blocks), size, k)
        decreases |blocks| - k
      {
        BlockAtIs(blocks, k);
        last := block;
        block := block.next;
        k := k + 1;
      }
      BlockAtIs(blocks, k);
    }

    /** malloc. The result is the payload's address, 0 for NULL. */
    method MallocBytes(size: nat, run: nat) returns (payload: nat)
      requires Valid() && (size > 0 && Chosen(HeapOf(blocks), size) == |blocks| ==> Unused(blocks, run))
      modifies this, blocks
      ensures Valid()
      ensures size == 0 ==> payload == 0 && blocks == old(blocks) && HeapOf(blocks) == old(HeapOf(blocks))
      ensures size > 0 ==> HeapOf(blocks) == MallocHeap(old(HeapOf(blocks)), size, run)
      ensures size > 0 ==> payload == Heap.Payload(HeapOf(blocks)[Chosen(old(HeapOf(blocks)), size)])
      ensures old(blocks) <= blocks
    {
      if size <= 0 {
        return 0;
      }
      hide BlockAt, HeapOf, FirstFit;
      BlockAtIs(blocks, 0);
      BlockAtIs(blocks, -1);
      var block;
      if head == null {
        block := FirstBlock(size, run);
      } else {
        block := NextBlock(size, run);
      }
      payload := block.addr + HEADER_SIZE;
    }

    /** malloc on an empty list. */
    method FirstBlock(size: nat, run: nat) returns (block: Block)
      requires Valid() && head == null && size > 0 && Unused(blocks, run)
      modifies this
      ensures Valid() && blocks == [block]
      ensures HeapOf(blocks) == MallocHeap(old(HeapOf(blocks)), size, run) && BlkOf(block) == HeapOf(blocks)[0]
      ensures Chosen(old(HeapOf(blocks)), size) == 0 && old(blocks) == []
    {
      hide HeapOf, InMemory, Unused;
      block := BlockRequest(null, size, run);
      head := block;
      head.previous := null;
      HeapIs(blocks, [Blk(run, size, Status.Alloc, MAGIC_ALLOC)]);
    }

    /** malloc on a list that has blocks. */
    method NextBlock(size: nat, run: nat) returns (block: Block)
      requires Valid() && head != null && size > 0
      requires Chosen(HeapOf(blocks), size) == |blocks| ==> Unused(blocks, run)
      modifies this`blocks, this`memory, blocks
      ensures Valid() && old(blocks) <= blocks
      ensures HeapOf(blocks) == MallocHeap(old(HeapOf(blocks)), size, run)
      ensures Chosen(old(HeapOf(blocks)), size) < |blocks| && block == blocks[Chosen(old(HeapOf(blocks)), size)]
    {
      hide BlockAt, HeapOf, FirstFit, InMemory, Unused;
      ghost var h, old0 := HeapOf(blocks), blocks;
      var found, last := FindFreedBlock(size);
      BlockAtIs(blocks, Chosen(h, size));
      BlockAtIs(blocks, 0);
      BlockAtIs(blocks, |blocks| - 1);
      if found == null {
        block := BlockRequest(last, size, run);
        BlockAtIs(blocks, 0);
      } else {
        hide Linked;
        block := found;
        block.magicCode := MAGIC_REALL;
        block.status := Status.Alloc;
        HeapIs(blocks, MallocHeap(h, size, run));
      }
    }

    /** block_header: one header down from the payload. */
    method BlockHeader(data: nat, ghost i: nat) returns (block: Block)
      requires Valid() && i < |blocks| && data == Heap.Payload(BlkOf(blocks[i]))
      ensures block == blocks[i]
    {
      block := memory[data - HEADER_SIZE];
    }

    /** free of a pointer that malloc returned, or of NULL. */
    method FreeBytes(data: nat, ghost i: nat) returns (report: Report)
      requires Valid() && (data != 0 ==> i < |blocks| && data == Heap.Payload(BlkOf(blocks[i])))
      modifies (if data == 0 then {} else {blocks[i]})`status, (if data == 0 then {} else {blocks[i]})`magicCode
      ensures Valid()
      ensures HeapOf(blocks) == if data == 0 then old(HeapOf(blocks)) else FreeHeap(old(HeapOf(blocks)), i)
      ensures report == if data == 0 then Quiet
                        else if old(blocks[i].status) == Freed then DoubleFree
                        else if Dangling(old(BlkOf(blocks[i]))) then DanglingPointer else Quiet
    {
      hide HeapOf, BlockAt, Linked;
      ghost var h := HeapOf(blocks);
      report := Quiet;
      if data == 0 {
        return;
      }
      var block := BlockHeader(data, i);
      if block.status == Freed {
        report := DoubleFree;
      } else {
        block.status := Freed;
        if block.magicCode == MAGIC_ALLOC || block.magicCode == MAGIC_REALL {
          block.magicCode := MAGIC_FREED;
        } else {
          report := DanglingPointer;
        }
      }
      HeapIs(blocks, FreeHeap(h, i));
    }
  }
}
