/** What becomes of an address space cloned by set_user_AddrSpace, over every later sequence of
    map_process calls under the old or the new root. */
module Clones {
  import opened Paging
  import opened AddressSpace

  /** One map_process call: the root in CR3, the page, and the entry it writes. */
  datatype MapCall = MapCall(root: nat, path: seq<nat>, entry: Entry)

  /** The tables before, between and after a sequence of calls. */
  ghost predicate MapRun(ts: seq<Tables>, owns: seq<Owner>, calls: seq<MapCall>) {
    && |ts| == |owns| == |calls| + 1
    && forall k :: 0 <= k < |calls| ==> CallStep(ts[k], owns[k], ts[k + 1], owns[k + 1], calls[k])
  }

  ghost predicate CallStep(t: Tables, own: Owner, t': Tables, own': Owner, call: MapCall) {
    IsPath(call.path) && MapStep(t, own, t', own', call.root, call.path, call.entry)
  }

  /** What page `x` reads as if only the calls made under `r` counted. */
  ghost function LastMapped(t: Tables, calls: seq<MapCall>, r: nat, x: seq<nat>, k: nat): Entry
    requires IsPath(x) && k <= |calls|
  {
    if k == 0 then Get(t, r, x)
    else if calls[k - 1].root == r && calls[k - 1].path == x then calls[k - 1].entry
    else LastMapped(t, calls, r, x, k - 1)
  }

  /** What page `x` reads as if every call counted. */
  ghost function LastMappedByAny(t: Tables, calls: seq<MapCall>, r: nat, x: seq<nat>, k: nat): Entry
    requires IsPath(x) && k <= |calls|
  {
    if k == 0 then Get(t, r, x)
    else if calls[k - 1].path == x then calls[k - 1].entry
    else LastMappedByAny(t, calls, r, x, k - 1)
  }

  ghost predicate Between(calls: seq<MapCall>, a: nat, b: nat) {
    forall k :: 0 <= k < |calls| ==> calls[k].root == a || calls[k].root == b
  }

  /** A PML4 slot shared once is shared ever after: both roots read the latest mapping, whoever made it. */
  lemma {:induction false} SharedSlot(ts: seq<Tables>, owns: seq<Owner>, calls: seq<MapCall>, a: nat, b: nat,
                                      x: seq<nat>, k: nat)
    requires MapRun(ts, owns, calls) && Between(calls, a, b) && IsPath(x) && k <= |calls|
    requires IsRoot(owns[0], a) && IsRoot(owns[0], b) && TreeShaped(ts[0], owns[0])
    requires SameSlot(ts[0], a, b, x[0]) && ts[0][a][x[0]].Present()
    ensures IsRoot(owns[k], a) && IsRoot(owns[k], b) && TreeShaped(ts[k], owns[k])
    ensures SameSlot(ts[k], a, b, x[0]) && ts[k][a][x[0]].Present()
    ensures Get(ts[k], a, x) == Get(ts[k], b, x) == LastMappedByAny(ts[0], calls, a, x, k)
  {
    if k > 0 {
      SharedSlot(ts, owns, calls, a, b, x, k - 1);
      var t, own, t', call := ts[k - 1], owns[k - 1], ts[k], calls[k - 1];
      assert CallStep(t, own, t', owns[k], call);
      SlotStays(t, own, t', owns[k], call, a, x[0]);
      SlotStays(t, own, t', owns[k], call, b, x[0]);
    }
  }

  lemma SlotStays(t: Tables, own: Owner, t': Tables, own': Owner, call: MapCall, r: nat, i: nat)
    requires CallStep(t, own, t', own', call) && IsRoot(own, r) && i < 512 && t[r][i].Present()
    ensures r in t' && t'[r][i] == t[r][i]
  {
    if r != call.root || i != call.path[0] {
      assert EntrySame(t, t', r, i);
    }
  }

  /** A PML4 slot that the roots do not share is never shared: each root reads its own latest mapping. */
  lemma {:induction false} SeparateSlot(ts: seq<Tables>, owns: seq<Owner>, calls: seq<MapCall>, a: nat, b: nat,
                                        x: seq<nat>, k: nat)
    requires MapRun(ts, owns, calls) && Between(calls, a, b) && IsPath(x) && k <= |calls|
    requires IsRoot(owns[0], a) && IsRoot(owns[0], b) && TreeShaped(ts[0], owns[0])
    requires !SameSlot(ts[0], a, b, x[0])
    ensures IsRoot(owns[k], a) && IsRoot(owns[k], b) && TreeShaped(ts[k], owns[k])
    ensures !SameSlot(ts[k], a, b, x[0])
    ensures Get(ts[k], a, x) == LastMapped(ts[0], calls, a, x, k)
    ensures Get(ts[k], b, x) == LastMapped(ts[0], calls, b, x, k)
  {
    if k > 0 {
      SeparateSlot(ts, owns, calls, a, b, x, k - 1);
      var t, own, t', call := ts[k - 1], owns[k - 1], ts[k], calls[k - 1];
      assert CallStep(t, own, t', owns[k], call);
      assert call.path[0] != x[0] || call.root != a ==> EntrySame(t, t', a, x[0]);
      assert call.path[0] != x[0] || call.root != b ==> EntrySame(t, t', b, x[0]);
      assert ChildOwned(t, own, a, x[0]) && ChildOwned(t, own, b, x[0]);
    }
  }

  /** A clone `n` of root `c`: forever one address space on every PML4 slot present when it was
      made, forever two on every slot absent then. */
  lemma CloneSharesExactlyPresentSlots(t: Tables, own: Owner, ts: seq<Tables>, owns: seq<Owner>, calls: seq<MapCall>,
                                       c: nat, n: nat, x: seq<nat>, k: nat)
    requires MapRun(ts, owns, calls) && Between(calls, c, n) && IsPath(x) && k <= |calls|
    requires CloneStep(t, own, ts[0], owns[0], c, n)
    ensures if t[c][x[0]].Present() then
              Get(ts[k], c, x) == Get(ts[k], n, x) == LastMappedByAny(ts[0], calls, c, x, k)
            else
              && Get(ts[k], c, x) == LastMapped(ts[0], calls, c, x, k)
              && Get(ts[k], n, x) == LastMapped(ts[0], calls, n, x, k)
  {
    if t[c][x[0]].Present() {
      SharedSlot(ts, owns, calls, c, n, x, k);
    } else {
      SeparateSlot(ts, owns, calls, c, n, x, k);
    }
  }
}
