/** What every run of the memory manager keeps. */
module HeapTheory {
  import opened Words
  import opened HeapModel

  // ---------------------------------------------------------------- who owns an address

  function Hit(b: Block, a: int): int {
    if b.start <= a < b.End() then 1 else 0
  }

  /** How many blocks of the list contain address `a`. */
  function Cover(bs: seq<Block>, a: int): (n: nat) {
    if bs == [] then 0 else Hit(bs[0], a) + Cover(bs[1..], a)
  }

  lemma {:induction false} CoverConcat(x: seq<Block>, y: seq<Block>, a: int)
    ensures Cover(x + y, a) == Cover(x, a) + Cover(y, a)
  {
    if x == [] {
      assert x + y == y;
    } else {
      assert (x + y)[1..] == x[1..] + y;
      CoverConcat(x[1..], y, a);
    }
  }

  lemma CoverOne(b: Block, a: int)
    ensures Cover([b], a) == Hit(b, a)
  {
    assert [b][1..] == [];
  }

  lemma CoverInsert(bs: seq<Block>, k: nat, b: Block, a: int)
    requires k <= |bs|
    ensures Cover(Insert(bs, k, b), a) == Cover(bs, a) + Hit(b, a)
  {
    assert bs == bs[..k] + bs[k..];
    CoverConcat(bs[..k], bs[k..], a);
    CoverConcat(bs[..k], [b], a);
    CoverConcat(bs[..k] + [b], bs[k..], a);
    CoverOne(b, a);
  }

  lemma CoverRemove(bs: seq<Block>, i: nat, a: int)
    requires i < |bs|
    ensures Cover(bs, a) == Cover(Remove(bs, i), a) + Hit(bs[i], a)
  {
    assert bs == Insert(Remove(bs, i), i, bs[i]);
    CoverInsert(Remove(bs, i), i, bs[i], a);
  }

  lemma CoverReplace(bs: seq<Block>, i: nat, b: Block, a: int)
    requires i < |bs|
    ensures Cover(bs[i := b], a) == Cover(bs, a) - Hit(bs[i], a) + Hit(b, a)
  {
    assert bs[i := b] == Insert(Remove(bs, i), i, b);
    CoverInsert(Remove(bs, i), i, b, a);
    CoverRemove(bs, i, a);
  }

  /** Two entries of a list are each counted. */
  lemma CoverTwo(bs: seq<Block>, i: nat, j: nat, a: int)
    requires i < j < |bs|
    ensures Cover(bs, a) >= Hit(bs[i], a) + Hit(bs[j], a)
  {
    CoverRemove(bs, j, a);
    CoverRemove(Remove(bs, j), i, a);
  }

  // ---------------------------------------------------------------- the invariant

  /** The block lies in [MEM_BOTTOM, top). */
  predicate Within(b: Block, top: int) {
    MEM_BOTTOM <= b.start && 0 <= b.size && b.End() <= top
  }

  /** Every address of the pool belongs to exactly one block, free or used. */
  ghost predicate Partition(free: seq<Block>, used: seq<Block>, top: int) {
    && (forall b :: b in free ==> Within(b, top))
    && (forall b :: b in used ==> Within(b, top))
    && forall a {:trigger Cover(free, a)} :: Cover(free, a) + Cover(used, a) == if MEM_BOTTOM <= a < top then 1 else 0
  }

  predicate RoverOk(h: Heap) {
    match h.rover
    case Head => h.free != [] && h.used == []
    case Null => h.free == []
    case At(i) => i < |h.free|
  }

  /** The pool is partitioned and the rover is null exactly when no block is free,
      and otherwise (after the first success) a member of the free list. */
  ghost predicate Sane(h: Heap, top: int) {
    MEM_BOTTOM < top < TWO_31 && Partition(h.free, h.used, top) && RoverOk(h)
  }

  predicate NonEmpty(bs: seq<Block>) {
    forall b :: b in bs ==> b.size > 0
  }

  /** Strictly sorted, and no two blocks touch. */
  predicate Coalesced(free: seq<Block>) {
    forall i, j :: 0 <= i < j < |free| ==> free[i].End() < free[j].start
  }

  ghost predicate Tidy(h: Heap, top: int) {
    Sane(h, top) && NonEmpty(h.free) && NonEmpty(h.used) && Coalesced(h.free)
  }

  lemma InitialTidy(top: int)
    requires MEM_BOTTOM < top < TWO_31
    ensures Tidy(InitialHeap(top), top)
  {
    var b := InitialHeap(top).free[0];
    forall a ensures Cover([b], a) + Cover([], a) == if MEM_BOTTOM <= a < top then 1 else 0 {
      CoverOne(b, a);
    }
  }

  // ---------------------------------------------------------------- disjointness

  predicate Disjoint(b: Block, c: Block) {
    b.End() <= c.start || c.End() <= b.start
  }

  /** Blocks with no common address do not overlap. */
  lemma NoCommonAddress(b: Block, c: Block)
    requires b.size > 0 && c.size > 0
    requires forall a :: Hit(b, a) + Hit(c, a) <= 1
    ensures Disjoint(b, c)
  {
    assert Hit(b, b.start) + Hit(c, b.start) <= 1;
    assert Hit(b, c.start) + Hit(c, c.start) <= 1;
  }

  /** Any two non-empty blocks of a sane heap, free or used, are disjoint. */
  lemma BlocksDisjoint(h: Heap, top: int, i: nat, j: nat)
    requires Sane(h, top)
    requires i < j < |h.free + h.used|
    requires (h.free + h.used)[i].size > 0 && (h.free + h.used)[j].size > 0
    ensures Disjoint((h.free + h.used)[i], (h.free + h.used)[j])
  {
    var all := h.free + h.used;
    forall a ensures Hit(all[i], a) + Hit(all[j], a) <= 1 {
      CoverConcat(h.free, h.used, a);
      CoverTwo(all, i, j, a);
    }
    NoCommonAddress(all[i], all[j]);
  }

  /** In a tidy heap any two used blocks are disjoint, and so start at different addresses. */
  lemma UsedDisjoint(h: Heap, top: int, i: nat, j: nat)
    requires Tidy(h, top) && i < j < |h.used|
    ensures Disjoint(h.used[i], h.used[j]) && h.used[i].start != h.used[j].start
  {
    var n := |h.free|;
    assert h.used[i] in h.used && h.used[j] in h.used;
    assert (h.free + h.used)[n + i] == h.used[i] && (h.free + h.used)[n + j] == h.used[j];
    BlocksDisjoint(h, top, n + i, n + j);
  }

  // ---------------------------------------------------------------- freeBlock

  lemma MergeKeeps(bs: seq<Block>, k: int, top: int)
    requires top < TWO_31 && forall b :: b in bs ==> Within(b, top)
    ensures forall b :: b in MergeAt(bs, k) ==> Within(b, top)
    ensures forall a :: Cover(MergeAt(bs, k), a) == Cover(bs, a)
  {
    if Touching(bs, k) {
      MergeWithin(bs, k, top);
      forall a ensures Cover(MergeAt(bs, k), a) == Cover(bs, a) {
        hide MergeAt;
        MergeCovers(bs, k, top, a);
      }
    }
  }

  lemma MergeWithin(bs: seq<Block>, k: int, top: int)
    requires top < TWO_31 && Touching(bs, k) && forall b :: b in bs ==> Within(b, top)
    ensures forall b :: b in MergeAt(bs, k) ==> Within(b, top)
  {
    assert bs[k] in bs && bs[k + 1] in bs;
  }

  lemma MergeCovers(bs: seq<Block>, k: int, top: int, a: int)
    requires top < TWO_31 && Touching(bs, k) && forall b :: b in bs ==> Within(b, top)
    ensures Cover(MergeAt(bs, k), a) == Cover(bs, a)
  {
    var b, c := bs[k], bs[k + 1];
    var m := Block(b.start, S32(b.size + c.size));
    assert b in bs && c in bs;
    MeltedHits(b, c, top, a);
    MergeIs(bs, k);
    hide Hit, MergeAt, Remove, Within;
    CoverRemove(bs, k + 1, a);
    CoverReplace(Remove(bs, k + 1), k, m, a);
  }

  lemma MeltedHits(b: Block, c: Block, top: int, a: int)
    requires top < TWO_31 && Within(b, top) && Within(c, top) && U32(b.start + b.size) == c.start
    ensures Hit(Block(b.start, S32(b.size + c.size)), a) == Hit(b, a) + Hit(c, a)
  {
  }

  lemma MergeIs(bs: seq<Block>, k: nat)
    requires Touching(bs, k)
    ensures MergeAt(bs, k) == Remove(bs, k + 1)[k := Block(bs[k].start, S32(bs[k].size + bs[k + 1].size))]
    ensures Remove(bs, k + 1)[k] == bs[k]
  {
  }

  /** Giving back a block that nobody else owns restores the partition. */
  lemma FreeBlockKeepsPartition(h: Heap, b: Block, top: int)
    requires top < TWO_31
    requires Within(b, top)
    requires Partition(Insert(h.free, InsertAt(h.free, b.start), b), h.used, top)
    ensures Partition(FreeBlock(h, b).free, h.used, top)
  {
    var k: int := InsertAt(h.free, b.start);
    var f1 := Insert(h.free, k, b);
    MergeKeeps(f1, k, top);
    MergeKeeps(MergeAt(f1, k), k - 1, top);
  }

  lemma FreeBlockSane(h: Heap, b: Block, top: int)
    requires MEM_BOTTOM < top < TWO_31
    requires RoverOk(h) && !h.rover.Head?
    requires Partition(FreeBlock(h, b).free, h.used, top)
    ensures Sane(FreeBlock(h, b), top) && !FreeBlock(h, b).rover.Head?
  {
  }

  /** Giving back a block makes exactly its addresses free. */
  lemma FreeBlockCovers(h: Heap, b: Block, top: int)
    requires top < TWO_31 && Within(b, top) && forall c :: c in h.free ==> Within(c, top)
    ensures FreeBlock(h, b).used == h.used
    ensures forall a :: Cover(FreeBlock(h, b).free, a) == Cover(h.free, a) + Hit(b, a)
  {
    var k: int := InsertAt(h.free, b.start);
    var f1 := Insert(h.free, k, b);
    forall a ensures Cover(f1, a) == Cover(h.free, a) + Hit(b, a) {
      CoverInsert(h.free, k, b, a);
    }
    MergeKeeps(f1, k, top);
    MergeKeeps(MergeAt(f1, k), k - 1, top);
  }

  /** Block `b` holds all of block `c`. */
  predicate Holds(b: Block, c: Block) {
    b.start <= c.start && c.End() <= b.End()
  }

  /** Where block `j` is after a merge at `k`. */
  function Merged(bs: seq<Block>, k: int, j: nat): (r: nat)
    ensures j < |bs| ==> r < |MergeAt(bs, k)|
  {
    if Touching(bs, k) && j > k then j - 1 else j
  }

  lemma MergeHolds(bs: seq<Block>, k: int, j: nat, top: int)
    requires top < TWO_31 && j < |bs| && forall b :: b in bs ==> Within(b, top)
    ensures Holds(MergeAt(bs, k)[Merged(bs, k, j)], bs[j])
  {
    if Touching(bs, k) {
      assert bs[k] in bs && bs[k + 1] in bs;
    }
  }

  lemma HoldsOn(a: Block, b: Block, c: Block)
    requires Holds(a, b) && Holds(b, c)
    ensures Holds(a, c)
  {
  }

  /** Giving back a block leaves the rover on the block it was on, or on the one that has swallowed it; a
      null rover goes to the block given back. */
  lemma RoverStays(h: Heap, b: Block, top: int)
    requires top < TWO_31 && RoverOk(h) && Within(b, top) && forall c :: c in h.free ==> Within(c, top)
    ensures var h' := FreeBlock(h, b);
      if h.rover.Head? then h'.rover.Head?
      else (h'.rover.At? && h'.rover.index < |h'.free|
            && Holds(h'.free[h'.rover.index], if h.rover.Null? then b else h.free[h.rover.index]))
  {
    hide MergeAt, Holds, Touching;
    var k: int := InsertAt(h.free, b.start);
    var f1 := Insert(h.free, k, b);
    var f2 := MergeAt(f1, k);
    if !h.rover.Head? {
      var j := RoverAfterInsert(h.rover, k).index;
      var c := if h.rover.Null? then b else h.free[h.rover.index];
      assert f1[j] == c;
      MergeKeeps(f1, k, top);
      MergeHolds(f1, k, j, top);
      var j2 := Merged(f1, k, j);
      MergeHolds(f2, k - 1, j2, top);
      HoldsOn(MergeAt(f2, k - 1)[Merged(f2, k - 1, j2)], f2[j2], c);
    }
  }

  /** Moving a block out of the used list and giving it back. */
  lemma ReleaseKeepsPartition(h: Heap, i: nat, top: int)
    requires top < TWO_31 && Partition(h.free, h.used, top)
    requires i < |h.used|
    ensures Partition(FreeBlock(h.(used := Remove(h.used, i)), h.used[i]).free, Remove(h.used, i), top)
  {
    var b := h.used[i];
    var used' := Remove(h.used, i);
    var f1 := Insert(h.free, InsertAt(h.free, b.start), b);
    assert b in h.used;
    forall a ensures Cover(f1, a) + Cover(used', a) == if MEM_BOTTOM <= a < top then 1 else 0 {
      assert Cover(h.free, a) + Cover(h.used, a) == if MEM_BOTTOM <= a < top then 1 else 0;
      CoverInsert(h.free, InsertAt(h.free, b.start), b, a);
      CoverRemove(h.used, i, a);
    }
    FreeBlockKeepsPartition(h.(used := used'), b, top);
  }

  // ---------------------------------------------------------------- each call keeps the invariant, exactly when

  lemma MfreeKeepsSane(h: Heap, start: u32, top: int)
    requires Sane(h, top)
    ensures Sane(Mfree(h, start).0, top)
  {
    var i := Find(h.used, start);
    if i < |h.used| {
      ReleaseKeepsPartition(h, i, top);
      FreeBlockSane(h.(used := Remove(h.used, i)), h.used[i], top);
    }
  }

  /** Cutting `size` bytes off the front of a block covers the same addresses. */
  lemma SplitHits(b: Block, size: s32, top: int)
    requires top < TWO_31 && Within(b, top) && 0 <= size <= b.size
    ensures var tail := Tail(b, size);
            && Within(Block(b.start, size), top) && Within(tail, top)
            && tail.start == b.start + size && tail.size == b.size - size
            && forall a :: Hit(b, a) == Hit(Block(b.start, size), a) + Hit(tail, a)
  {
  }

  /** The split of `Mshrink`: the front stays used, the tail is given back. */
  lemma ShrinkKeepsSane(h: Heap, i: nat, size: s32, top: int)
    requires Sane(h, top)
    requires i < |h.used| && 0 <= size <= h.used[i].size
    ensures Sane(FreeBlock(Shorten(h, i, size), Tail(h.used[i], size)), top)
  {
    var b := h.used[i];
    assert b in h.used;
    SplitHits(b, size, top);
    var tail := Tail(b, size);
    var h1 := Shorten(h, i, size);
    var f1 := Insert(h.free, InsertAt(h.free, tail.start), tail);
    assert Partition(f1, h1.used, top) by {
      forall a ensures Cover(f1, a) + Cover(h1.used, a) == if MEM_BOTTOM <= a < top then 1 else 0 {
        assert Cover(h.free, a) + Cover(h.used, a) == if MEM_BOTTOM <= a < top then 1 else 0;
        CoverInsert(h.free, InsertAt(h.free, tail.start), tail, a);
        CoverReplace(h.used, i, Block(b.start, size), a);
      }
    }
    FreeBlockKeepsPartition(h1, tail, top);
    FreeBlockSane(h1, tail, top);
  }

  lemma NegativeIsInsane(h: Heap, i: nat, top: int)
    requires i < |h.used| && h.used[i].size < 0
    ensures !Sane(h, top)
  {
    assert h.used[i] in h.used;
  }

  /** `Mshrink` keeps the partition unless it resizes a block to a negative size. */
  lemma MshrinkKeepsSane(h: Heap, start: u32, n: s32, top: int)
    requires Sane(h, top)
    ensures Sane(Mshrink(h, start, n).0, top) <==> (Find(h.used, start) < |h.used| ==> RoundUp4(n) >= 0)
  {
    var i := Find(h.used, start);
    if n == 0 {
      MfreeKeepsSane(h, start, top);
    } else if i < |h.used| && h.used[i].size < RoundUp4(n) {
      assert h.used[i] in h.used;
    } else if i < |h.used| && RoundUp4(n) < 0 {
      NegativeIsInsane(FreeBlock(Shorten(h, i, RoundUp4(n)), Tail(h.used[i], RoundUp4(n))), i, top);
    } else if i < |h.used| {
      ShrinkKeepsSane(h, i, RoundUp4(n), top);
    }
  }

  /** A successful Mfree takes the block out of the used list, wherever it is there, and makes exactly its
      addresses free. */
  lemma MfreeGives(h: Heap, start: u32, top: int)
    requires Sane(h, top) && Find(h.used, start) < |h.used|
    ensures var i, (h', r) := Find(h.used, start), Mfree(h, start);
      && r == E_OK && h'.used == h.used[..i] + h.used[i + 1..]
      && forall a :: Cover(h'.free, a) == Cover(h.free, a) + if start <= a < start + h.used[i].size then 1 else 0
  {
    var i := Find(h.used, start);
    assert h.used[i] in h.used;
    FreeBlockCovers(h.(used := Remove(h.used, i)), h.used[i], top);
  }

  /** A successful Mshrink returns the rounded size, cuts the block down to it, and makes exactly the
      addresses behind it free. */
  lemma MshrinkGives(h: Heap, start: u32, n: s32, top: int)
    requires Sane(h, top) && n != 0 && Find(h.used, start) < |h.used|
    requires 0 <= RoundUp4(n) <= h.used[Find(h.used, start)].size
    ensures var i, size, (h', r) := Find(h.used, start), RoundUp4(n), Mshrink(h, start, n);
      && r == size && h'.used == h.used[i := Block(start, size)]
      && forall a :: Cover(h'.free, a)
           == Cover(h.free, a) + if start + size <= a < start + h.used[i].size then 1 else 0
  {
    var i, size := Find(h.used, start), RoundUp4(n);
    assert h.used[i] in h.used;
    SplitHits(h.used[i], size, top);
    FreeBlockCovers(Shorten(h, i, size), Tail(h.used[i], size), top);
  }

  /** Taking a block moves exactly its addresses from free to used. */
  lemma TakeKeepsSane(h: Heap, i: nat, size: s32, top: int)
    requires Sane(h, top)
    requires i < |h.free| && 0 <= size <= h.free[i].size
    ensures Sane(Take(h, i, size), top)
  {
    var b := h.free[i];
    assert b in h.free;
    var h' := Take(h, i, size);
    SplitHits(b, size, top);
    forall a ensures Cover(h'.free, a) + Cover(h'.used, a) == if MEM_BOTTOM <= a < top then 1 else 0 {
      assert Cover(h.free, a) + Cover(h.used, a) == if MEM_BOTTOM <= a < top then 1 else 0;
      assert h'.used[1..] == h.used;
      if b.size == size {
        CoverRemove(h.free, i, a);
      } else {
        CoverReplace(h.free, i, Tail(b, size), a);
      }
    }
  }

  /** `Malloc` keeps the partition unless it is asked for a negative size. */
  lemma MallocKeepsSane(h: Heap, n: s32, top: int)
    requires Sane(h, top)
    ensures Sane(Malloc(h, n).0, top) <==> (h.free == [] || n == -1 || RoundUp4(n) >= 0)
  {
    if h.free != [] && n != -1 {
      var f := Fit(h, Request(n));
      if f.Some? && Request(n) >= 0 {
        TakeKeepsSane(h, f.value, Request(n), top);
      } else if Request(n) < 0 {
        var p := Position(h.rover);
        assert h.free[Nth(|h.free|, p, 1)] in h.free;
        assert f.Some?;
        assert !Within(Malloc(h, n).0.used[0], top);
      }
    }
  }
}
