/** The GEMDOS memory manager of gemdos/mem.c as a state machine over values:
    a free list in list order, a used list in list order, and the rover. */
module HeapModel {
  import opened Words

  /** A memory block: `size` bytes starting at `start`. */
  datatype Block = Block(start: u32, size: s32)
  {
    /** One past the last byte, as the mathematical sum. */
    function End(): int { start + size }
  }

  /** Where the next scan starts: after the list head `&freeMem`, nowhere (a null
      pointer), or after the free block at an index. */
  datatype Rover = Head | Null | At(index: nat)

  datatype Heap = Heap(free: seq<Block>, used: seq<Block>, rover: Rover)

  const MEM_BOTTOM: int := 0x10000
  const E_OK: s32 := 0
  const EIMBA: s32 := -40
  const EGSBF: s32 := -67

  function InitialHeap(memorySize: int): Heap
    requires MEM_BOTTOM <= memorySize < TWO_31
  {
    Heap([Block(MEM_BOTTOM, memorySize - MEM_BOTTOM)], [], Head)
  }

  // ---------------------------------------------------------------- Malloc

  /** The list position of the rover; the list head counts as -1. */
  function Position(r: Rover): int
    requires !r.Null?
  {
    if r.Head? then -1 else r.index
  }

  /** The `k`-th block a scan looks at when it starts after position `p` and wraps. */
  function Nth(len: nat, p: int, k: int): (i: nat)
    requires len > 0 && -1 <= p < len && 1 <= k <= len
    ensures i < len
  {
    if p + k < len then p + k else p + k - len
  }

  /** The `j`-th block fits and none from the `k`-th up to it does. */
  predicate FirstFitAt(free: seq<Block>, p: int, size: s32, k: int, j: int)
    requires |free| > 0 && -1 <= p < |free| && 1 <= k
  {
    && k <= j <= |free|
    && free[Nth(|free|, p, j)].size >= size
    && forall i :: k <= i < j ==> free[Nth(|free|, p, i)].size < size
  }

  /** The first block of at least `size` bytes, looking at the `k`-th block first. */
  function FitFrom(free: seq<Block>, p: int, size: s32, k: int): (r: Option<nat>)
    requires |free| > 0 && -1 <= p < |free| && 1 <= k <= |free| + 1
    ensures r.Some? ==> r.value < |free| && free[r.value].size >= size
    decreases |free| + 1 - k
  {
    if k > |free| then None
    else if free[Nth(|free|, p, k)].size >= size then Some(Nth(|free|, p, k))
    else FitFrom(free, p, size, k + 1)
  }

  /** The block `Malloc` takes, if any. */
  function Fit(h: Heap, size: s32): Option<nat>
    requires h.rover.At? ==> h.rover.index < |h.free|
  {
    if h.free == [] || h.rover.Null? then None else FitFrom(h.free, Position(h.rover), size, 1)
  }

  /** What is left of a block after its first `size` bytes. */
  function Tail(b: Block, size: s32): Block {
    Block(U32(b.start + size), S32(b.size - size))
  }

  /** Take `size` bytes from the front of free block `i`. */
  function Take(h: Heap, i: nat, size: s32): Heap
    requires i < |h.free|
  {
    var b := h.free[i];
    var free' := if b.size == size then h.free[..i] + h.free[i + 1..]
                 else h.free[i := Tail(b, size)];
    Heap(free', [Block(b.start, size)] + h.used,
         if i > 0 then At(i - 1) else if free' == [] then Null else At(0))
  }

  /** The largest free size, as the unsigned maximum the scan accumulates. */
  function Largest(free: seq<Block>): u32 {
    if free == [] then 0
    else
      var m := Largest(free[1..]);
      if m < U32(free[0].size) then U32(free[0].size) else m
  }

  lemma {:induction false} LargestIsMax(free: seq<Block>)
    ensures forall b :: b in free ==> U32(b.size) <= Largest(free)
    ensures Largest(free) == 0 || exists b :: b in free && U32(b.size) == Largest(free)
  {
    if free != [] {
      LargestIsMax(free[1..]);
      assert forall b :: b in free ==> b == free[0] || b in free[1..];
      assert free[0] in free;
    }
  }

  /** The size `Malloc` works with: -1 stays -1, anything else is rounded up. */
  function Request(n: s32): s32 {
    if n == -1 then -1 else RoundUp4(n)
  }

  /** Whether the scan of `Malloc(n)` comes to an end; see `ScanStopsIff`. */
  predicate Ends(h: Heap, n: s32) {
    h.free == [] || !h.rover.Head? || (n != -1 && exists b :: b in h.free && b.size >= Request(n))
  }

  function Malloc(h: Heap, n: s32): (r: (Heap, u32))
    requires h.rover.At? ==> h.rover.index < |h.free|
  {
    if h.free == [] then (h, 0) else Reserve(h, Request(n))
  }

  /** The outcome of the scan for `size` bytes (-1 asks for the largest size). */
  function Reserve(h: Heap, size: s32): (r: (Heap, u32))
    requires h.rover.At? ==> h.rover.index < |h.free|
  {
    if size == -1 then (h, Largest(h.free))
    else match Fit(h, size)
      case None => (h, 0)
      case Some(i) => (Take(h, i, size), h.free[i].start)
  }

  // ---------------------------------------------------------------- freeBlock

  /** The first index whose block starts at or after `start`. */
  function InsertAt(free: seq<Block>, start: u32): (k: nat)
    ensures k <= |free|
    ensures forall i :: 0 <= i < k ==> free[i].start < start
    ensures k < |free| ==> start <= free[k].start
  {
    if free == [] || start <= free[0].start then 0 else 1 + InsertAt(free[1..], start)
  }

  predicate Touching(bs: seq<Block>, k: int) {
    0 <= k && k + 1 < |bs| && U32(bs[k].start + bs[k].size) == bs[k + 1].start
  }

  /** Melt blocks `k` and `k+1` into one when they touch. */
  function MergeAt(bs: seq<Block>, k: int): seq<Block> {
    if Touching(bs, k)
    then bs[..k] + [Block(bs[k].start, S32(bs[k].size + bs[k + 1].size))] + bs[k + 2..]
    else bs
  }

  function Insert(bs: seq<Block>, k: nat, b: Block): seq<Block>
    requires k <= |bs|
  {
    bs[..k] + [b] + bs[k..]
  }

  /** The rover is a node, so an insertion before it moves its index up and a merge
      of node `k+1` into node `k` moves it down. */
  function RoverAfterInsert(r: Rover, k: nat): Rover {
    if r.Null? then At(k) else if r.At? && k <= r.index then At(r.index + 1) else r
  }

  function RoverAfterMerge(r: Rover, bs: seq<Block>, k: int): Rover {
    if Touching(bs, k) && r.At? && k < r.index then At(r.index - 1) else r
  }

  function FreeBlock(h: Heap, b: Block): Heap {
    var k := InsertAt(h.free, b.start);
    var f1 := Insert(h.free, k, b);
    var r1 := RoverAfterInsert(h.rover, k);
    var f2 := MergeAt(f1, k);
    var r2 := RoverAfterMerge(r1, f1, k);
    Heap(MergeAt(f2, k - 1), h.used, RoverAfterMerge(r2, f2, k - 1))
  }

  // ---------------------------------------------------------------- Mfree, Mshrink

  /** The first used block that starts at `start`. */
  function Find(used: seq<Block>, start: u32): (i: nat)
    ensures i <= |used|
    ensures i < |used| ==> used[i].start == start
    ensures forall j :: 0 <= j < i ==> used[j].start != start
  {
    if used == [] || used[0].start == start then 0 else 1 + Find(used[1..], start)
  }

  function Remove<T>(s: seq<T>, i: nat): (r: seq<T>)
    requires i < |s|
    ensures |r| == |s| - 1
  {
    s[..i] + s[i + 1..]
  }

  function Mfree(h: Heap, start: u32): (r: (Heap, s32)) {
    var i := Find(h.used, start);
    if i == |h.used| then (h, EIMBA)
    else (FreeBlock(h.(used := Remove(h.used, i)), h.used[i]), E_OK)
  }

  /** Used block `i` cut down to `size` bytes; its tail belongs to nobody yet. */
  function Shorten(h: Heap, i: nat, size: s32): Heap
    requires i < |h.used|
  {
    h.(used := h.used[i := Block(h.used[i].start, size)])
  }

  function Mshrink(h: Heap, start: u32, n: s32): (r: (Heap, s32)) {
    if n == 0 then Mfree(h, start)
    else
      var size := RoundUp4(n);
      var i := Find(h.used, start);
      if i == |h.used| then (h, EIMBA)
      else if h.used[i].size < size then (h, EGSBF)
      else
        (FreeBlock(Shorten(h, i, size), Tail(h.used[i], size)), size)
  }
}
