/** The memory manager of gemdos/mem.c as it is written: two singly linked lists of nodes with a
    sentinel each, relinked in place, and a rover that points into the free list. Every method is
    proved against the state machine of `HeapModel`. */
module Allocator {
  import opened Words
  import opened HeapModel
  import opened HeapTheory
  import HeapCoalescing
  import HeapRuns

  class MemBlock {
    var next: MemBlock?
    var start: u32
    var size: s32

    constructor (start: u32, size: s32)
      ensures this.start == start && this.size == size && next == null
    {
      this.start, this.size, next := start, size, null;
    }

    ghost function Value(): Block
      reads this
    {
      Block(start, size)
    }

    /** A new node for what this block holds beyond its first `front` bytes. */
    method NewTail(front: s32) returns (tail: MemBlock)
      ensures fresh(tail) && tail.Value() == Tail(Value(), front)
    {
      tail := new MemBlock(U32(start + front), S32(size - front));
    }
  }

  // ---------------------------------------------------------------- one linked list

  ghost predicate NoRepeats(nodes: seq<MemBlock>) {
    forall i, j :: 0 <= i < j < |nodes| ==> nodes[i] != nodes[j]
  }

  ghost function After(nodes: seq<MemBlock>, i: int): MemBlock?
    requires 0 <= i < |nodes|
  {
    if i + 1 < |nodes| then nodes[i + 1] else null
  }

  /** `nodes` is a chain that starts at the sentinel `nodes[0]`, ends in null and holds `blocks`
      behind the sentinel. */
  ghost predicate List(nodes: seq<MemBlock>, blocks: seq<Block>)
    reads nodes
  {
    && |nodes| == |blocks| + 1
    && NoRepeats(nodes)
    && (forall i :: 0 <= i < |nodes| ==> nodes[i].next == After(nodes, i))
    && (forall i :: 0 <= i < |blocks| ==> blocks[i] == nodes[i + 1].Value())
  }

  ghost predicate Unshared(xs: seq<MemBlock>, ys: seq<MemBlock>) {
    forall x :: x in xs ==> x !in ys
  }

  lemma UnsharedLess(xs: seq<MemBlock>, xs': seq<MemBlock>, ys: seq<MemBlock>)
    requires Unshared(xs, ys) && forall x :: x in xs' ==> x in xs
    ensures Unshared(xs', ys)
  {
  }

  lemma UnsharedBut(xs: seq<MemBlock>, xs': seq<MemBlock>, z: MemBlock, ys: seq<MemBlock>)
    requires Unshared(xs, ys) && z !in ys && forall x :: x in xs' ==> x in xs || x == z
    ensures Unshared(xs', ys)
  {
  }

  ghost function Grown(nodes: seq<MemBlock>, k: nat, x: MemBlock): seq<MemBlock>
    requires k < |nodes|
  {
    nodes[..k + 1] + [x] + nodes[k + 1..]
  }

  ghost function Shrunk(nodes: seq<MemBlock>, k: nat): (r: seq<MemBlock>)
    requires k + 1 < |nodes|
    ensures |r| == |nodes| - 1
  {
    nodes[..k + 1] + nodes[k + 2..]
  }

  lemma GrownAt(nodes: seq<MemBlock>, k: nat, x: MemBlock)
    requires k < |nodes| && NoRepeats(nodes) && x !in nodes
    ensures |Grown(nodes, k, x)| == |nodes| + 1 && NoRepeats(Grown(nodes, k, x))
    ensures forall i :: 0 <= i <= |nodes| ==> Grown(nodes, k, x)[i] == if i <= k then nodes[i] else if i == k + 1 then x else nodes[i - 1]
  {
  }

  lemma GrownNear(nodes: seq<MemBlock>, k: nat, x: MemBlock)
    requires k < |nodes|
    ensures Grown(nodes, k, x)[k] == nodes[k] && Grown(nodes, k, x)[k + 1] == x
    ensures After(Grown(nodes, k, x), k + 1) == After(nodes, k)
    ensures forall y :: y in Grown(nodes, k, x) ==> y in nodes || y == x
  {
  }

  lemma ShrunkAt(nodes: seq<MemBlock>, k: nat, i: nat)
    requires k + 1 < |nodes| && i < |nodes| - 1
    ensures |Shrunk(nodes, k)| == |nodes| - 1
    ensures Shrunk(nodes, k)[i] == nodes[if i <= k then i else i + 1]
  {
  }

  lemma ShrunkNoRepeats(nodes: seq<MemBlock>, k: nat)
    requires k + 1 < |nodes| && NoRepeats(nodes)
    ensures NoRepeats(Shrunk(nodes, k))
  {
    forall i, j | 0 <= i < j < |nodes| - 1 ensures Shrunk(nodes, k)[i] != Shrunk(nodes, k)[j] {
      ShrunkAt(nodes, k, i);
      ShrunkAt(nodes, k, j);
    }
  }

  lemma RemovedAt(blocks: seq<Block>, k: nat, i: nat)
    requires k < |blocks| && i < |blocks| - 1
    ensures Remove(blocks, k)[i] == blocks[if i < k then i else i + 1]
  {
  }

  /** Link `x` behind the node at position `k`. */
  method LinkBehind(prev: MemBlock, x: MemBlock, ghost nodes: seq<MemBlock>, ghost blocks: seq<Block>, ghost k: nat)
    requires List(nodes, blocks) && x !in nodes
    requires k < |nodes| && prev == nodes[k]
    modifies prev`next, x`next
    ensures List(Grown(nodes, k, x), Insert(blocks, k, x.Value()))
  {
    x.next := prev.next;
    prev.next := x;
    GrownAt(nodes, k, x);
    ghost var blocks' := Insert(blocks, k, x.Value());
    ghost var nodes' := Grown(nodes, k, x);
    forall i | 0 <= i < |nodes'| ensures nodes'[i].next == After(nodes', i) {
      if i > k + 1 {
        assert nodes'[i] == nodes[i - 1];
      }
    }
    forall i | 0 <= i < |blocks'| ensures blocks'[i] == nodes'[i + 1].Value() {
      HeapCoalescing.InsertedAt(blocks, x.Value(), k, i);
      if i > k {
        assert nodes'[i + 1] == nodes[i];
      }
    }
  }

  /** Unlink the node behind position `k`. */
  method UnlinkBehind(prev: MemBlock, x: MemBlock, ghost nodes: seq<MemBlock>, ghost blocks: seq<Block>, ghost k: nat)
    requires List(nodes, blocks)
    requires k + 1 < |nodes| && prev == nodes[k] && x == nodes[k + 1]
    modifies prev`next
    ensures List(Shrunk(nodes, k), Remove(blocks, k))
  {
    hide Shrunk, Remove;
    prev.next := x.next;
    ShrunkNoRepeats(nodes, k);
    forall i | 0 <= i < |nodes| - 1 ensures Shrunk(nodes, k)[i].next == After(Shrunk(nodes, k), i) {
      ShrunkAt(nodes, k, i);
      if i + 2 < |nodes| {
        ShrunkAt(nodes, k, i + 1);
      }
    }
    forall i | 0 <= i < |blocks| - 1 ensures Remove(blocks, k)[i] == Shrunk(nodes, k)[i + 1].Value() {
      hide After;
      ShrunkAt(nodes, k, i + 1);
      RemovedAt(blocks, k, i);
    }
  }

  /** Change the size of the node behind position `k`. */
  method Resize(x: MemBlock, size: s32, ghost nodes: seq<MemBlock>, ghost blocks: seq<Block>, ghost k: nat)
    requires List(nodes, blocks) && k + 1 < |nodes| && x == nodes[k + 1]
    modifies x`size
    ensures x.size == size
    ensures List(nodes, blocks[k := Block(x.start, size)])
  {
    x.size := size;
    ghost var blocks' := blocks[k := Block(x.start, size)];
    forall i | 0 <= i < |blocks'| ensures blocks'[i] == nodes[i + 1].Value() {
      assert i != k ==> nodes[i + 1] != x;
    }
  }

  lemma MergeAsRemove(blocks: seq<Block>, k: nat, b: Block)
    requires Touching(blocks, k) && b == Block(blocks[k].start, S32(blocks[k].size + blocks[k + 1].size))
    ensures MergeAt(blocks, k) == Remove(blocks[k := b], k + 1)
  {
  }

  /** The left node takes over the size and the successor of the right one. */
  method Swallow(left: MemBlock, right: MemBlock, ghost nodes: seq<MemBlock>, ghost blocks: seq<Block>, ghost k: nat)
    requires List(nodes, blocks) && k + 2 < |nodes| && left == nodes[k + 1] && right == nodes[k + 2]
    requires Touching(blocks, k)
    modifies left`size, left`next
    ensures List(Shrunk(nodes, k + 1), MergeAt(blocks, k))
  {
    assert blocks[k] == nodes[k + 1].Value() && blocks[k + 1] == nodes[k + 2].Value();
    Resize(left, S32(left.size + right.size), nodes, blocks, k);
    MergeAsRemove(blocks, k, left.Value());
    UnlinkBehind(left, right, nodes, blocks[k := left.Value()], k + 1);
  }

  /** Put `x` in the place of the node behind position `k`. */
  method Replace(prev: MemBlock, current: MemBlock, x: MemBlock, ghost nodes: seq<MemBlock>, ghost blocks: seq<Block>, ghost k: nat)
    requires List(nodes, blocks) && x !in nodes
    requires k + 1 < |nodes| && prev == nodes[k] && current == nodes[k + 1]
    modifies prev`next, x`next
    ensures List(nodes[k + 1 := x], blocks[k := x.Value()])
  {
    prev.next := x;
    x.next := current.next;
    ghost var nodes', blocks' := nodes[k + 1 := x], blocks[k := x.Value()];
    forall i | 0 <= i < |nodes| ensures nodes'[i].next == After(nodes', i) {
    }
    forall i | 0 <= i < |blocks| ensures blocks'[i] == nodes'[i + 1].Value() {
    }
  }

  // ---------------------------------------------------------------- the rover as a pointer

  ghost predicate RoverAt(nodes: seq<MemBlock>, r: Rover, rover: MemBlock?) {
    match r
    case Head => |nodes| > 1 && rover == nodes[0]
    case Null => rover == null && |nodes| == 1
    case At(i) => i + 1 < |nodes| && rover == nodes[i + 1]
  }

  lemma RoverMelts(nodes: seq<MemBlock>, blocks: seq<Block>, k: nat, r: Rover, rover: MemBlock?)
    requires NoRepeats(nodes) && |nodes| == |blocks| + 1 && Touching(blocks, k) && RoverAt(nodes, r, rover)
    ensures RoverAt(Shrunk(nodes, k + 1), RoverAfterMerge(r, blocks, k), if rover == nodes[k + 2] then nodes[k + 1] else rover)
  {
  }

  lemma RoverGrows(nodes: seq<MemBlock>, k: nat, x: MemBlock, r: Rover, rover: MemBlock?)
    requires NoRepeats(nodes) && k < |nodes| && x !in nodes && RoverAt(nodes, r, rover)
    ensures RoverAt(Grown(nodes, k, x), RoverAfterInsert(r, k), if rover == null then x else rover)
  {
    GrownAt(nodes, k, x);
  }

  /** Where the rover is put when a node behind position `k` is gone. */
  lemma RoverUnlinked(nodes: seq<MemBlock>, blocks: seq<Block>, k: nat)
    requires List(nodes, blocks) && k < |nodes|
    ensures RoverAt(nodes, if k > 0 then At(k - 1) else if |blocks| == 0 then Null else At(0), if k == 0 then nodes[0].next else nodes[k])
  {
  }

  // ---------------------------------------------------------------- the manager

  class MemoryManager {
    const freeMem: MemBlock
    const usedMem: MemBlock
    var rover: MemBlock?

    ghost var freeNodes: seq<MemBlock>
    ghost var usedNodes: seq<MemBlock>
    ghost var view: Heap

    /** The free list and the rover. */
    ghost predicate FreeOk()
      reads this, freeNodes
    {
      match view
      case Heap(free, used, r) => List(freeNodes, free) && freeNodes[0] == freeMem && RoverAt(freeNodes, r, rover)
    }

    /** Both lists and the rover. */
    ghost predicate Valid()
      reads this, freeNodes, usedNodes
    {
      match view
      case Heap(free, used, r) =>
        FreeOk() && List(usedNodes, used) && usedNodes[0] == usedMem && Unshared(freeNodes, usedNodes)
    }

    /** The nodes of both lists. */
    ghost function Repr(): set<MemBlock>
      reads this
    {
      (set x | x in freeNodes) + (set x | x in usedNodes)
    }

    /** InitMemory. */
    constructor (memorySize: int)
      requires MEM_BOTTOM <= memorySize < TWO_31
      ensures Valid() && fresh(Repr()) && view == InitialHeap(memorySize)
    {
      var first := new MemBlock(MEM_BOTTOM, memorySize - MEM_BOTTOM);
      var f := new MemBlock(U32(-1), -1);
      var u := new MemBlock(U32(-1), -1);
      f.next := first;
      freeMem, usedMem, rover := f, u, f;
      freeNodes, usedNodes, view := [f, first], [u], InitialHeap(memorySize);
    }

    /** The left node swallows the right one behind it, which it touches. */
    method Melt(left: MemBlock, right: MemBlock, ghost k: nat)
      requires FreeOk() && k + 1 < |view.free| && left == freeNodes[k + 1] && right == freeNodes[k + 2]
      requires Touching(view.free, k)
      modifies this`freeNodes, this`view, this`rover, left
      ensures FreeOk() && view.used == old(view.used)
      ensures |freeNodes| == |old(freeNodes)| - 1 && freeNodes[k] == old(freeNodes)[k] && freeNodes[k + 1] == left
      ensures forall x :: x in freeNodes ==> x in old(freeNodes)
      ensures view.free == MergeAt(old(view.free), k)
      ensures view.rover == RoverAfterMerge(old(view.rover), old(view.free), k)
    {
      ghost var nodes, blocks := freeNodes, view.free;
      RoverMelts(nodes, blocks, k, view.rover, rover);
      Swallow(left, right, nodes, blocks, k);
      if rover == right {
        rover := left;
      }
      ShrunkOthers(nodes, k + 1);
      freeNodes := Shrunk(nodes, k + 1);
      view := Heap(MergeAt(blocks, k), view.used, RoverAfterMerge(view.rover, blocks, k));
    }

    /** The loop of freeBlock: the last node that starts before `start`, and the node behind it. */
    method FindPlace(start: u32) returns (prev: MemBlock?, current: MemBlock?)
      requires FreeOk()
      ensures var k := InsertAt(view.free, start);
              && prev == (if k == 0 then null else freeNodes[k])
              && current == After(freeNodes, k)
    {
      prev, current := null, freeMem.next;
      ghost var k := 0;
      while current != null && !(start <= current.start)
        invariant k <= |view.free|
        invariant prev == (if k == 0 then null else freeNodes[k])
        invariant current == After(freeNodes, k)
        invariant forall i :: 0 <= i < k ==> view.free[i].start < start
        decreases |view.free| - k
      {
        assert view.free[k] == freeNodes[k + 1].Value();
        prev, current := current, current.next;
        k := k + 1;
      }
      assert current != null ==> view.free[k] == freeNodes[k + 1].Value();
      HeapCoalescing.InsertAtIs(view.free, start, k);
    }

    method LinkIn(freeme: MemBlock, behind: MemBlock, ghost k: nat)
      requires FreeOk() && freeme !in freeNodes
      requires k < |freeNodes| && behind == freeNodes[k]
      modifies this`freeNodes, this`view, this`rover, behind`next, freeme`next
      ensures FreeOk() && view.used == old(view.used)
      ensures |freeNodes| == |old(freeNodes)| + 1 && freeNodes[k] == behind && freeNodes[k + 1] == freeme
      ensures After(freeNodes, k + 1) == After(old(freeNodes), k)
      ensures forall x :: x in freeNodes ==> x in old(freeNodes) || x == freeme
      ensures view.free == Insert(old(view.free), k, freeme.Value())
      ensures view.rover == RoverAfterInsert(old(view.rover), k)
    {
      ghost var nodes := freeNodes;
      RoverGrows(nodes, k, freeme, view.rover, rover);
      GrownNear(nodes, k, freeme);
      LinkBehind(behind, freeme, nodes, view.free, k);
      if rover == null {
        rover := freeme;
      }
      freeNodes := Grown(nodes, k, freeme);
      view := Heap(Insert(view.free, k, freeme.Value()), view.used, RoverAfterInsert(view.rover, k));
    }

    /** The first `if` of freeBlock: melt the free node at `k` with the one behind it if they touch. */
    method MeltIfTouching(left: MemBlock?, right: MemBlock?, ghost k: int)
      requires FreeOk() && -1 <= k < |view.free|
      requires left == (if k == -1 then null else freeNodes[k + 1])
      requires right == After(freeNodes, k + 1)
      modifies this`freeNodes, this`view, this`rover, left
      ensures FreeOk() && view.used == old(view.used)
      ensures view.free == MergeAt(old(view.free), k)
      ensures view.rover == RoverAfterMerge(old(view.rover), old(view.free), k)
      ensures |freeNodes| >= k + 2 && (k >= 0 ==> freeNodes[k] == old(freeNodes)[k]) && freeNodes[k + 1] == old(freeNodes)[k + 1]
      ensures forall x :: x in freeNodes ==> x in old(freeNodes)
    {
      assert k >= 0 ==> view.free[k] == freeNodes[k + 1].Value();
      assert k + 1 < |view.free| ==> view.free[k + 1] == freeNodes[k + 2].Value();
      if left != null && right != null && U32(left.start + left.size) == right.start {
        Melt(left, right, k);
      }
    }

    /** freeBlock: put a block that is in neither list back into the free list. */
    method FreeBlock(freeme: MemBlock)
      requires FreeOk() && freeme !in freeNodes
      modifies this`freeNodes, this`view, this`rover, freeNodes, freeme
      ensures FreeOk() && view.used == old(view.used)
      ensures view == HeapModel.FreeBlock(old(view), old(freeme.Value()))
      ensures forall x :: x in freeNodes ==> x in old(freeNodes) || x == freeme
    {
      var prev, current := FindPlace(freeme.start);
      ghost var k: int := InsertAt(view.free, freeme.start);
      LinkIn(freeme, if prev != null then prev else freeMem, k);
      MeltIfTouching(freeme, current, k);
      MeltIfTouching(prev, freeme, k - 1);
    }

    /** The loops of Mfree and Mshrink: the first used block at `block` and the node before it. */
    method FindUsed(block: u32) returns (prev: MemBlock, current: MemBlock?)
      requires Valid()
      ensures var i := Find(view.used, block);
              && prev == usedNodes[i]
              && current == After(usedNodes, i)
    {
      prev, current := usedMem, usedMem.next;
      ghost var k := 0;
      while current != null && current.start != block
        invariant k <= |view.used|
        invariant prev == usedNodes[k] && current == After(usedNodes, k)
        invariant forall i :: 0 <= i < k ==> view.used[i].start != block
        decreases |view.used| - k
      {
        assert view.used[k] == usedNodes[k + 1].Value();
        prev, current := current, current.next;
        k := k + 1;
      }
      assert current != null ==> view.used[k] == usedNodes[k + 1].Value();
      FindIs(view.used, block, k);
    }

    method Mfree(block: u32) returns (r: s32)
      requires Valid()
      modifies this, Repr()
      ensures Valid() && (view, r) == HeapModel.Mfree(old(view), block)
      ensures Repr() <= old(Repr())
    {
      var prev, current := FindUsed(block);
      if current == null {
        return EIMBA;
      }
      Release(prev, current, Find(view.used, block));
      r := E_OK;
    }

    /** Move used block `i` back to the free list. */
    method Release(prev: MemBlock, current: MemBlock, ghost i: nat)
      requires Valid() && i < |view.used| && prev == usedNodes[i] && current == usedNodes[i + 1]
      modifies this, Repr()
      ensures Valid() && Repr() <= old(Repr())
      ensures view == HeapModel.FreeBlock(old(view).(used := Remove(old(view.used), i)), old(view.used[i]))
    {
      assert prev in usedNodes && current in usedNodes;
      hide Valid, FreeOk, Remove, Shrunk;
      Detach(prev, current, i);
      GiveBack(current);
    }

    /** Give back a block that is in neither list. */
    method GiveBack(freeme: MemBlock)
      requires Valid() && freeme !in freeNodes && freeme !in usedNodes
      modifies this`freeNodes, this`view, this`rover, freeNodes, freeme
      ensures Valid() && usedNodes == old(usedNodes) && view.used == old(view.used)
      ensures view == HeapModel.FreeBlock(old(view), old(freeme.Value()))
      ensures forall x :: x in freeNodes ==> x in old(freeNodes) || x == freeme
    {
      forall i | 0 <= i < |usedNodes| ensures usedNodes[i] !in freeNodes && usedNodes[i] != freeme {
        assert usedNodes[i] in usedNodes;
      }
      FreeBlock(freeme);
      forall i | 0 <= i < |usedNodes|
        ensures usedNodes[i].next == old(usedNodes[i].next) && usedNodes[i].Value() == old(usedNodes[i].Value())
      {
      }
    }

    /** Take used block `i` out of the used list; it is then in neither list. */
    method Detach(prev: MemBlock, current: MemBlock, ghost i: nat)
      requires Valid() && i < |view.used| && prev == usedNodes[i] && current == usedNodes[i + 1]
      modifies this`usedNodes, this`view, prev`next
      ensures Valid() && freeNodes == old(freeNodes) && usedNodes == Shrunk(old(usedNodes), i)
      ensures view == old(view).(used := Remove(old(view.used), i))
      ensures current !in freeNodes && current !in usedNodes && current.Value() == old(view.used[i])
      ensures forall x :: x in usedNodes ==> x in old(usedNodes)
    {
      assert prev in usedNodes && current in usedNodes;
      UnlinkBehind(prev, current, usedNodes, view.used, i);
      ShrunkOthers(usedNodes, i);
      usedNodes := Shrunk(usedNodes, i);
      view := view.(used := Remove(view.used, i));
    }

    method Mshrink(block: u32, n: s32) returns (r: s32)
      requires Valid()
      modifies this, Repr()
      ensures Valid() && (view, r) == HeapModel.Mshrink(old(view), block, n)
      ensures fresh(Repr() - old(Repr()))
    {
      if n == 0 {
        r := Mfree(block);
        return;
      }
      r := ShrinkTo(block, RoundUp4(n));
    }

    /** Mshrink, once the size is rounded. */
    method ShrinkTo(block: u32, newsiz: s32) returns (r: s32)
      requires Valid()
      modifies this, Repr()
      ensures Valid() && fresh(Repr() - old(Repr()))
      ensures var h, i := old(view), Find(old(view.used), block);
        (view, r) == if i == |h.used| then (h, EIMBA) else if h.used[i].size < newsiz then (h, EGSBF)
                     else (HeapModel.FreeBlock(Shorten(h, i, newsiz), Tail(h.used[i], newsiz)), newsiz)
    {
      hide *;
      Parts();
      ReprIs();
      ghost var nodes := Repr();
      var _, current := FindUsed(block);
      assert Repr() == nodes && Valid();
      ghost var i := Find(view.used, block);
      FindInside(view.used, block);
      AfterIs(usedNodes, i);
      if current == null {
        return EIMBA;
      }
      UsedValue(i);
      if current.size < newsiz {
        return EGSBF;
      }
      label L:
      Cut(current, newsiz, i);
      ReprIs();
      forall x | x in Repr() && x !in nodes ensures fresh(x) {
        assert fresh@L(x);
      }
      r := newsiz;
    }

    lemma ReprIs()
      ensures forall x :: x in Repr() <==> x in freeNodes || x in usedNodes
    {
    }

    lemma UsedValue(j: nat)
      requires Valid() && j < |view.used|
      ensures |usedNodes| == |view.used| + 1 && usedNodes[j + 1] in usedNodes
      ensures view.used[j].start == usedNodes[j + 1].start && view.used[j].size == usedNodes[j + 1].size
    {
    }

    /** Give back what used block `i` holds beyond its first `size` bytes. */
    method Cut(current: MemBlock, size: s32, ghost i: nat)
      requires Valid() && i < |view.used| && current == usedNodes[i + 1]
      modifies this`freeNodes, this`view, this`rover, freeNodes, current`size
      ensures Valid() && usedNodes == old(usedNodes)
      ensures view == HeapModel.FreeBlock(Shorten(old(view), i, size), Tail(old(view.used[i]), size))
      ensures forall x :: x in freeNodes ==> x in old(freeNodes) || fresh(x)
    {
      assert view.used[i] == usedNodes[i + 1].Value();
      var tail := current.NewTail(size);
      ghost var h := view;
      ShortenUsed(current, size, i);
      GiveBack(tail);
      assert view == HeapModel.FreeBlock(Shorten(h, i, size), Tail(h.used[i], size));
    }

    method ShortenUsed(current: MemBlock, size: s32, ghost i: nat)
      requires Valid() && i < |view.used| && current == usedNodes[i + 1]
      modifies this`view, current`size
      ensures freeNodes == old(freeNodes) && usedNodes == old(usedNodes)
      ensures Valid() && view == Shorten(old(view), i, size)
    {
      assert current in usedNodes && view.used[i] == current.Value();
      Resize(current, size, usedNodes, view.used, i);
      view := Shorten(view, i, size);
    }

    /** Past the last free block the scan goes on at the first one. */
    method WrapAround(prev: MemBlock, current: MemBlock?, ghost j: nat) returns (prev': MemBlock, current': MemBlock)
      requires FreeOk() && j < |freeNodes| && prev == freeNodes[j] && current == prev.next && view.free != []
      ensures var c := if j < |view.free| then j else 0;
              prev' == freeNodes[c] && current' == freeNodes[c + 1] && view.free[c] == current'.Value()
    {
      prev' := prev;
      if current == null {
        prev' := freeMem;
        current' := freeMem.next;
      } else {
        current' := current;
      }
    }

    /** Where a scan starts. */
    lemma RoverIs()
      requires FreeOk() && view.free != []
      ensures !view.rover.Null? && -1 <= Position(view.rover) < |view.free| && |freeNodes| == |view.free| + 1
      ensures view.rover.At? ==> view.rover.index < |view.free|
      ensures rover != null && rover == freeNodes[Position(view.rover) + 1]
      ensures rover == freeMem <==> view.rover.Head?
    {
    }

    /** The pointer test at the end of a turn compares positions. */
    lemma AtRover(c: nat)
      requires FreeOk() && view.free != [] && c < |view.free|
      ensures |freeNodes| == |view.free| + 1 && !view.rover.Null?
      ensures freeNodes[c + 1] == rover <==> c == Position(view.rover)
    {
    }

    /** The scan of Malloc. It looks at every free block once, starting behind the rover and going
        round, until a block fits; `left` counts the blocks not looked at. */
    method Scan(size: s32) returns (prev: MemBlock, current: MemBlock?, max: u32)
      requires FreeOk() && view.free != []
      requires view.rover.Head? ==> Outcome(view, size).0.Some?
      ensures !view.rover.Null? && |freeNodes| == |view.free| + 1
      ensures current == null <==> Outcome(view, size).0.None?
      ensures current == null ==> max == Outcome(view, size).1
      ensures current != null ==>
        var i := Outcome(view, size).0.value;
        i < |view.free| && prev == freeNodes[i] && current == freeNodes[i + 1]
    {
      hide List, RoverAt, ScanFrom;
      RoverIs();
      max := 0;
      prev := rover;
      current := prev.next;
      ghost var free, p := view.free, Position(view.rover);
      ghost var pos, left := p, |free|;
      while true
        invariant 0 < left <= |free| && -1 <= pos < |free| && pos == RoundAt(|free|, p, |free| - left)
        invariant prev == freeNodes[pos + 1] && current == prev.next
        invariant ScanFrom(free, size, pos, left, max) == Outcome(view, size)
        decreases left
      {
        hide RoundAt, NextPos;
        var fits;
        prev, current, max, fits := LookAtNext(size, prev, current, max, pos, left);
        RoundStep(|free|, p, |free| - left, pos);
        AtRover(NextPos(|free|, pos));
        if fits {
          return;
        }
        pos, left := NextPos(|free|, pos), left - 1;
        prev, current := current, current.next;
        if prev == rover {
          break;
        }
        NothingLeft(free, size, pos, max);
      }
      NothingLeft(free, size, pos, max);
      current := null;
    }

    /** One turn of the scan, up to where it moves on. */
    method LookAtNext(size: s32, prev0: MemBlock, current0: MemBlock?, max0: u32, ghost pos: int, ghost left: nat)
      returns (prev: MemBlock, current: MemBlock, max: u32, fits: bool)
      requires FreeOk() && view.free != [] && -1 <= pos < |view.free| && left > 0
      requires prev0 == freeNodes[pos + 1] && current0 == prev0.next
      ensures var c := NextPos(|view.free|, pos);
              && prev == freeNodes[c] && current == freeNodes[c + 1]
              && ScanFrom(view.free, size, pos, left, max0) ==
                 if fits then (Some(c), max) else ScanFrom(view.free, size, c, left - 1, max)
    {
      prev, current := WrapAround(prev0, current0, pos + 1);
      ScanStep(view.free, size, pos, left, max0, current.size);
      max, fits := max0, false;
      if size == -1 {
        if max < U32(current.size) {
          max := U32(current.size);
        }
      } else if current.size >= size {
        fits := true;
      }
    }

    method Malloc(n: s32) returns (r: u32)
      requires Valid() && Ends(view, n)
      modifies this, Repr()
      ensures Valid() && (view, r) == HeapModel.Malloc(old(view), n)
      ensures fresh(Repr() - old(Repr()))
    {
      var size := n;
      if size != -1 {
        size := RoundUp4(size);
      }
      if freeMem.next == null {
        return 0;
      }
      RoverIs();
      EndsIs(view, n);
      r := ScanAndTake(size);
    }

    /** Malloc, once the size is rounded and the free list is not empty. */
    method ScanAndTake(size: s32) returns (r: u32)
      requires Valid() && view.free != []
      requires view.rover.Head? ==> Outcome(view, size).0.Some?
      modifies this, Repr()
      ensures Valid() && fresh(Repr() - old(Repr()))
      ensures (view, r) == Reserve(old(view), size)
    {
      hide *;
      IsFreeOk();
      RoverIs();
      ReserveIs(view, size);
      ghost var nodes := Repr();
      var prev, current, max := Scan(size);
      assert Repr() == nodes;
      if current == null {
        return max;
      }
      label L:
      r := TakeFree(prev, current, size, Outcome(view, size).0.value);
      forall x | x in Repr() && x !in nodes ensures fresh(x) {
        assert fresh@L(x);
      }
    }

    /** Move `size` bytes of free block `i` to the used list. */
    method TakeFree(prev: MemBlock, current: MemBlock, size: s32, ghost i: nat) returns (r: u32)
      requires Valid() && i < |view.free| && prev == freeNodes[i] && current == freeNodes[i + 1]
      modifies this, Repr()
      ensures Valid() && view == Take(old(view), i, size) && r == old(view.free[i].start)
      ensures fresh(Repr() - old(Repr()))
    {
      hide Take, List, RoverAt, Unshared, NoRepeats, FreeOk, Valid;
      ghost var h := view;
      FreeValue(i);
      FreeNode(i + 1);
      if current.size == size {
        UnlinkFree(prev, current, i);
      } else {
        SplitFree(prev, current, size, i);
      }
      TakeIs(h, i, size, view);
      PushUsed(current);
      r := current.start;
    }

    /** Unlink free block `i` and set the rover to its predecessor, or to the new first block. */
    method UnlinkFree(prev: MemBlock, current: MemBlock, ghost i: nat)
      requires Valid() && i < |view.free| && prev == freeNodes[i] && current == freeNodes[i + 1]
      modifies this`freeNodes, this`view, this`rover, prev`next
      ensures Valid() && usedNodes == old(usedNodes) && freeNodes == Shrunk(old(freeNodes), i)
      ensures view.free == Remove(old(view.free), i) && view.used == old(view.used)
      ensures view.rover == if i > 0 then At(i - 1) else if view.free == [] then Null else At(0)
      ensures current !in freeNodes && current !in usedNodes
      ensures forall x :: x in freeNodes ==> x in old(freeNodes)
    {
      hide *;
      Parts();
      FreeNode(i);
      FreeNode(i + 1);
      UnlinkBehind(prev, current, freeNodes, view.free, i);
      ShrunkOthers(freeNodes, i);
      UnsharedLess(freeNodes, Shrunk(freeNodes, i), usedNodes);
      ShrunkAt(freeNodes, i, 0);
      ShrunkAt(freeNodes, i, i);
      freeNodes := Shrunk(freeNodes, i);
      rover := if prev == freeMem then prev.next else prev;
      view := Heap(Remove(view.free, i), view.used, if i > 0 then At(i - 1) else if |view.free| == 1 then Null else At(0));
      RoverUnlinked(freeNodes, view.free, i);
      Assemble();
    }

    /** What validity means, list by list. */
    lemma Parts()
      requires Valid()
      ensures List(freeNodes, view.free) && List(usedNodes, view.used) && Unshared(freeNodes, usedNodes) && NoRepeats(freeNodes)
      ensures |freeNodes| == |view.free| + 1 && |usedNodes| == |view.used| + 1
      ensures freeNodes[0] == freeMem && usedNodes[0] == usedMem && RoverAt(freeNodes, view.rover, rover)
    {
    }

    lemma FreeNode(j: nat)
      requires Valid() && j < |freeNodes|
      ensures freeNodes[j] in freeNodes && freeNodes[j] !in usedNodes && (freeNodes[j] == freeMem <==> j == 0)
    {
    }

    lemma FreeValue(j: nat)
      requires Valid() && j < |view.free|
      ensures |freeNodes| == |view.free| + 1 && view.free[j] == freeNodes[j + 1].Value()
    {
    }

    lemma IsFreeOk()
      requires Valid()
      ensures FreeOk()
    {
    }

    lemma Assemble()
      requires List(freeNodes, view.free) && List(usedNodes, view.used) && Unshared(freeNodes, usedNodes)
      requires |freeNodes| > 0 && |usedNodes| > 0
      requires freeNodes[0] == freeMem && usedNodes[0] == usedMem && RoverAt(freeNodes, view.rover, rover)
      ensures Valid()
    {
    }

    /** Leave the tail of free block `i` in the free list, in a node of its own. */
    method SplitFree(prev: MemBlock, current: MemBlock, size: s32, ghost i: nat)
      requires Valid() && i < |view.free| && prev == freeNodes[i] && current == freeNodes[i + 1]
      modifies this`freeNodes, this`view, this`rover, prev`next, current`size
      ensures Valid() && usedNodes == old(usedNodes)
      ensures view == Heap(old(view.free)[i := Tail(old(view.free[i]), size)], old(view.used), if i > 0 then At(i - 1) else At(0))
      ensures current !in freeNodes && current !in usedNodes && current.size == size
      ensures forall x :: x in freeNodes ==> x in old(freeNodes) || fresh(x)
    {
      assert view.free[i] == current.Value();
      var tail := current.NewTail(size);
      ReplaceFree(prev, current, tail, i);
      current.size := size;
    }

    /** The same, with a node put in the place of the one that is taken. */
    method ReplaceFree(prev: MemBlock, current: MemBlock, tail: MemBlock, ghost i: nat)
      requires Valid() && i < |view.free| && prev == freeNodes[i] && current == freeNodes[i + 1]
      requires tail !in freeNodes && tail !in usedNodes
      modifies this`freeNodes, this`view, this`rover, prev`next, tail`next
      ensures Valid() && usedNodes == old(usedNodes) && freeNodes == old(freeNodes)[i + 1 := tail]
      ensures view == Heap(old(view.free)[i := tail.Value()], old(view.used), if i > 0 then At(i - 1) else At(0))
      ensures current !in freeNodes && current !in usedNodes
      ensures forall x :: x in freeNodes ==> x in old(freeNodes) || x == tail
    {
      hide *;
      Parts();
      FreeNode(i);
      FreeNode(i + 1);
      ghost var nodes := freeNodes;
      Replace(prev, current, tail, freeNodes, view.free, i);
      freeNodes := nodes[i + 1 := tail];
      ReplacedOthers(nodes, i + 1, tail);
      UnsharedBut(nodes, freeNodes, tail, usedNodes);
      rover := if prev == freeMem then prev.next else prev;
      view := Heap(view.free[i := tail.Value()], view.used, if i > 0 then At(i - 1) else At(0));
      RoverUnlinked(freeNodes, view.free, i);
      Assemble();
    }

    /** Put a node at the front of the used list. */
    method PushUsed(x: MemBlock)
      requires Valid() && x !in freeNodes && x !in usedNodes
      modifies this`usedNodes, this`view, usedNodes, x`next
      ensures Valid() && freeNodes == old(freeNodes) && usedNodes == Grown(old(usedNodes), 0, x)
      ensures view == old(view).(used := [x.Value()] + old(view.used))
      ensures forall y :: y in usedNodes ==> y in old(usedNodes) || y == x
    {
      assert usedMem in usedNodes;
      GrownNear(usedNodes, 0, x);
      LinkBehind(usedMem, x, usedNodes, view.used, 0);
      usedNodes := Grown(usedNodes, 0, x);
      assert Insert(view.used, 0, x.Value()) == [x.Value()] + view.used;
      view := view.(used := [x.Value()] + view.used);
    }
  }

  ghost function NextPos(len: nat, pos: int): nat
    requires -1 <= pos
  {
    if pos + 1 < len then pos + 1 else 0
  }

  /** What a scan returns that has `left` more blocks to look at, the last one it saw being at `pos`. */
  ghost function ScanFrom(free: seq<Block>, size: s32, pos: int, left: nat, max: u32): (Option<nat>, u32)
    requires |free| > 0 && -1 <= pos < |free|
    decreases left
  {
    if left == 0 then (None, max)
    else
      var c := NextPos(|free|, pos);
      if size == -1 then ScanFrom(free, size, c, left - 1, if max < U32(free[c].size) then U32(free[c].size) else max)
      else if free[c].size >= size then (Some(c), max)
      else ScanFrom(free, size, c, left - 1, max)
  }

  lemma ScanStep(free: seq<Block>, size: s32, pos: int, left: nat, max: u32, found: s32)
    requires |free| > 0 && -1 <= pos < |free| && left > 0 && found == free[NextPos(|free|, pos)].size
    ensures ScanFrom(free, size, pos, left, max) ==
            if size != -1 && found >= size then (Some(NextPos(|free|, pos)), max)
            else ScanFrom(free, size, NextPos(|free|, pos), left - 1, if size == -1 && max < U32(found) then U32(found) else max)
  {
  }

  /** The position after `k` blocks of a round that starts behind position `p`. */
  ghost function RoundAt(len: nat, p: int, k: nat): int
    requires -1 <= p < len && k <= len
  {
    if k == 0 then p else Nth(len, p, k)
  }

  /** A round comes back to where it started after exactly `len` blocks, unless it started at the head. */
  lemma RoundStep(len: nat, p: int, k: nat, pos: int)
    requires -1 <= p < len && k < len && pos == RoundAt(len, p, k)
    ensures NextPos(len, pos) == Nth(len, p, k + 1) == RoundAt(len, p, k + 1)
    ensures NextPos(len, pos) == p <==> (k + 1 == len && p >= 0)
  {
  }

  lemma {:induction false} ScanFits(free: seq<Block>, p: int, size: s32, k: nat)
    requires |free| > 0 && -1 <= p < |free| && k <= |free| && size != -1
    ensures ScanFrom(free, size, RoundAt(|free|, p, k), |free| - k, 0) == (FitFrom(free, p, size, k + 1), 0)
    decreases |free| - k
  {
    if k < |free| {
      RoundStep(|free|, p, k, RoundAt(|free|, p, k));
      ScanFits(free, p, size, k + 1);
    }
  }

  /** The maximum of `m` and the sizes from the `k+1`-st block of a round on. */
  lemma {:induction false} ScanMeasures(free: seq<Block>, p: int, k: nat, m: u32)
    requires |free| > 0 && -1 <= p < |free| && k <= |free|
    ensures var r := ScanFrom(free, -1, RoundAt(|free|, p, k), |free| - k, m);
            && r.0 == None && m <= r.1
            && (forall i :: k < i <= |free| ==> U32(free[Nth(|free|, p, i)].size) <= r.1)
            && (r.1 == m || exists b :: b in free && U32(b.size) == r.1)
    decreases |free| - k
  {
    if k < |free| {
      RoundStep(|free|, p, k, RoundAt(|free|, p, k));
      var b := free[Nth(|free|, p, k + 1)];
      assert b in free;
      ScanMeasures(free, p, k + 1, if m < U32(b.size) then U32(b.size) else m);
    }
  }

  /** A whole scan finds the first fit, or the largest size. */
  lemma ScanIsFit(free: seq<Block>, p: int, size: s32)
    requires |free| > 0 && -1 <= p < |free|
    ensures ScanFrom(free, size, p, |free|, 0) == if size == -1 then (None, Largest(free)) else (FitFrom(free, p, size, 1), 0)
  {
    if size != -1 {
      ScanFits(free, p, size, 0);
    } else {
      ScanMeasures(free, p, 0, 0);
      var r := ScanFrom(free, -1, p, |free|, 0);
      LargestIsMax(free);
      forall b | b in free ensures U32(b.size) <= r.1 {
        var i :| 0 <= i < |free| && free[i] == b;
        var k := if i > p then i - p else i - p + |free|;
        assert Nth(|free|, p, k) == i;
      }
    }
  }

  lemma FindInside(used: seq<Block>, start: u32)
    ensures Find(used, start) <= |used|
  {
  }

  lemma AfterIs(nodes: seq<MemBlock>, i: nat)
    requires i < |nodes|
    ensures After(nodes, i) == (if i + 1 < |nodes| then nodes[i + 1] else null)
  {
  }

  lemma FindIs(used: seq<Block>, start: u32, k: nat)
    requires k <= |used| && (k < |used| ==> used[k].start == start)
    requires forall i :: 0 <= i < k ==> used[i].start != start
    ensures Find(used, start) == k
  {
  }

  /** What the scan of Malloc finds: a block, or the largest size. */
  ghost function Outcome(h: Heap, size: s32): (Option<nat>, u32)
    requires (h.rover.At? ==> h.rover.index < |h.free|) && !h.rover.Null? && h.free != []
  {
    ScanFrom(h.free, size, Position(h.rover), |h.free|, 0)
  }

  lemma ReserveIs(h: Heap, size: s32)
    requires (h.rover.At? ==> h.rover.index < |h.free|) && !h.rover.Null? && h.free != []
    ensures match Outcome(h, size).0
            case None => Reserve(h, size) == (h, Outcome(h, size).1)
            case Some(i) => i < |h.free| && Reserve(h, size) == (Take(h, i, size), h.free[i].start)
  {
    hide ScanFrom, FitFrom, Take, Largest;
    ScanIsFit(h.free, Position(h.rover), size);
  }

  /** A scan from the list head ends when a block fits. */
  lemma EndsIs(h: Heap, n: s32)
    requires (h.rover.At? ==> h.rover.index < |h.free|) && !h.rover.Null? && h.free != [] && Ends(h, n)
    ensures h.rover.Head? ==> Outcome(h, Request(n)).0.Some?
  {
    hide ScanFrom, FitFrom;
    if h.rover.Head? {
      HeapRuns.FitComplete(h, Request(n));
      ScanIsFit(h.free, -1, Request(n));
    }
  }

  lemma NothingLeft(free: seq<Block>, size: s32, pos: int, max: u32)
    requires |free| > 0 && -1 <= pos < |free|
    ensures ScanFrom(free, size, pos, 0, max) == (None, max)
  {
  }

  lemma TakeIs(h: Heap, i: nat, size: s32, h': Heap)
    requires i < |h.free| && h'.used == h.used
    requires h'.free == if h.free[i].size == size then Remove(h.free, i) else h.free[i := Tail(h.free[i], size)]
    requires h'.rover == if i > 0 then At(i - 1) else if h'.free == [] then Null else At(0)
    ensures Take(h, i, size) == h'.(used := [Block(h.free[i].start, size)] + h.used)
  {
  }

  lemma ReplacedOthers(nodes: seq<MemBlock>, k: nat, x: MemBlock)
    requires k < |nodes| && NoRepeats(nodes) && x !in nodes
    ensures nodes[k] !in nodes[k := x]
    ensures forall y :: y in nodes[k := x] ==> y in nodes || y == x
  {
  }

  lemma ShrunkOthers(nodes: seq<MemBlock>, k: nat)
    requires k + 1 < |nodes| && NoRepeats(nodes)
    ensures nodes[k + 1] !in Shrunk(nodes, k)
    ensures forall x :: x in Shrunk(nodes, k) ==> x in nodes
  {
  }
}
