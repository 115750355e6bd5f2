/** gemdos/mem.c keeps the free list sorted and maximally coalesced: for each call, exactly when. */
module HeapCoalescing {
  import opened Words
  import opened HeapModel
  import opened HeapTheory

  // ---------------------------------------------------------------- coalescing

  lemma InsertAtIs(free: seq<Block>, start: u32, k: nat)
    requires k <= |free|
    requires k > 0 ==> forall i :: 0 <= i < k ==> free[i].start < start
    requires k < |free| ==> start <= free[k].start
    ensures InsertAt(free, start) == k
  {
  }

  predicate Apart(b: Block, free: seq<Block>) {
    forall f :: f in free ==> Disjoint(b, f)
  }

  /** Non-empty blocks in the pool, sorted; only the pairs at `p` and `q` may touch. */
  predicate TouchOnlyAt(f: seq<Block>, p: int, q: int, top: int) {
    && (forall i :: 0 <= i < |f| ==> Within(f[i], top) && f[i].size > 0)
    && (forall i, j :: 0 <= i < j < |f| ==> f[i].End() <= f[j].start)
    && (forall i, j :: 0 <= i < j < |f| && !(j == i + 1 && (i == p || i == q)) ==> f[i].End() < f[j].start)
  }

  lemma MergePair(f: seq<Block>, p: int, k: int, i: nat, j: nat, top: int)
    requires top < TWO_31 && p <= k && TouchOnlyAt(f, p, k, top)
    requires Touching(f, k) && i < j < |f| - 1
    ensures |MergeAt(f, k)| == |f| - 1
    ensures MergeAt(f, k)[i].End() <= MergeAt(f, k)[j].start
    ensures !(j == i + 1 && p < k && i == p) ==> MergeAt(f, k)[i].End() < MergeAt(f, k)[j].start
  {
    MergedAt(f, k, i, top);
    MergedAt(f, k, j, top);
    var i', j' := if i < k then i else i + 1, if j <= k then j else j + 1;
    assert f[i'].End() <= f[j'].start;
  }

  lemma MergeSettles(f: seq<Block>, p: int, k: int, top: int)
    requires top < TWO_31 && p <= k && TouchOnlyAt(f, p, k, top)
    ensures TouchOnlyAt(MergeAt(f, k), if p < k then p else -1, -1, top)
  {
    if Touching(f, k) {
      forall i | 0 <= i < |f| - 1
        ensures |MergeAt(f, k)| == |f| - 1 && Within(MergeAt(f, k)[i], top) && MergeAt(f, k)[i].size > 0
      {
        MergedAt(f, k, i, top);
      }
      forall i, j | 0 <= i < j < |f| - 1
        ensures |MergeAt(f, k)| == |f| - 1
        ensures MergeAt(f, k)[i].End() <= MergeAt(f, k)[j].start
        ensures !(j == i + 1 && p < k && i == p) ==> MergeAt(f, k)[i].End() < MergeAt(f, k)[j].start
      {
        MergePair(f, p, k, i, j, top);
      }
    } else if 0 <= k < |f| - 1 {
      assert f[k].End() <= f[k + 1].start;
      assert f[k].End() != f[k + 1].start;
    }
  }

  lemma MergedAt(f: seq<Block>, k: int, i: int, top: int)
    requires Touching(f, k) && 0 <= i < |f| - 1
    requires top < TWO_31 && forall j :: 0 <= j < |f| ==> Within(f[j], top) && f[j].size > 0
    ensures |MergeAt(f, k)| == |f| - 1
    ensures MergeAt(f, k)[i].start == f[if i <= k then i else i + 1].start
    ensures MergeAt(f, k)[i].End() == f[if i < k then i else i + 1].End()
    ensures Within(MergeAt(f, k)[i], top) && MergeAt(f, k)[i].size > 0
  {
  }

  lemma InsertedAt(free: seq<Block>, b: Block, k: nat, i: int)
    requires k <= |free| && 0 <= i <= |free|
    ensures Insert(free, k, b)[i] == if i < k then free[i] else if i == k then b else free[i - 1]
  {
  }

  /** The insertion point separates the blocks before `b` from those after it. */
  lemma InsertSeparates(free: seq<Block>, b: Block, i: nat)
    requires b.size > 0 && i < |free| && free[i].size > 0 && Apart(b, free)
    ensures i < InsertAt(free, b.start) ==> free[i].End() <= b.start
    ensures i == InsertAt(free, b.start) ==> b.End() <= free[i].start
  {
    assert free[i] in free && Disjoint(b, free[i]);
    InsertAtSplits(free, b.start, i);
  }

  lemma InsertAtSplits(free: seq<Block>, start: u32, i: nat)
    requires i < |free|
    ensures i < InsertAt(free, start) ==> free[i].start < start
    ensures i == InsertAt(free, start) ==> start <= free[i].start
  {
  }

  lemma InsertPair(free: seq<Block>, b: Block, k: nat, i: nat, j: nat, top: int)
    requires Within(b, top) && b.size > 0
    requires TouchOnlyAt(free, -1, -1, top) && Apart(b, free)
    requires k == InsertAt(free, b.start) && i < j <= |free|
    ensures Insert(free, k, b)[i].End() <= Insert(free, k, b)[j].start
    ensures !(j == i + 1 && (i == k - 1 || i == k)) ==> Insert(free, k, b)[i].End() < Insert(free, k, b)[j].start
  {
    InsertedAt(free, b, k, i);
    InsertedAt(free, b, k, j);
    if i == k {
      InsertSeparates(free, b, k);
    } else if j == k {
      InsertSeparates(free, b, k - 1);
    }
  }

  lemma InsertTouches(free: seq<Block>, b: Block, k: nat, top: int)
    requires Within(b, top) && b.size > 0
    requires TouchOnlyAt(free, -1, -1, top) && Apart(b, free)
    requires k == InsertAt(free, b.start)
    ensures TouchOnlyAt(Insert(free, k, b), k - 1, k, top)
  {
    forall i | 0 <= i <= |free|
      ensures Within(Insert(free, k, b)[i], top) && Insert(free, k, b)[i].size > 0
    {
      InsertedAt(free, b, k, i);
    }
    forall i, j | 0 <= i < j <= |free|
      ensures Insert(free, k, b)[i].End() <= Insert(free, k, b)[j].start
      ensures !(j == i + 1 && (i == k - 1 || i == k)) ==> Insert(free, k, b)[i].End() < Insert(free, k, b)[j].start
    {
      InsertPair(free, b, k, i, j, top);
    }
  }

  /** Giving back a non-empty block that overlaps nothing keeps the list sorted and coalesced. */
  lemma FreeBlockCoalesces(h: Heap, b: Block, top: int)
    requires top < TWO_31 && Within(b, top) && b.size > 0
    requires TouchOnlyAt(h.free, -1, -1, top) && Apart(b, h.free)
    ensures TouchOnlyAt(FreeBlock(h, b).free, -1, -1, top)
  {
    var k: int := InsertAt(h.free, b.start);
    InsertTouches(h.free, b, k, top);
    MergeSettles(Insert(h.free, k, b), k - 1, k, top);
    MergeSettles(MergeAt(Insert(h.free, k, b), k), k - 1, k - 1, top);
  }

  // ---------------------------------------------------------------- exactly when a call keeps the list coalesced

  lemma TidyIsApart(h: Heap, top: int, i: nat, b: Block)
    requires Tidy(h, top) && i < |h.used|
    requires h.used[i].start <= b.start && b.End() <= h.used[i].End() && b.size > 0
    ensures TouchOnlyAt(h.free, -1, -1, top) && Apart(b, h.free)
  {
    forall j | 0 <= j < |h.free| ensures Within(h.free[j], top) && h.free[j].size > 0 && Disjoint(b, h.free[j]) {
      assert h.free[j] in h.free && h.used[i] in h.used;
      assert (h.free + h.used)[|h.free| + i] == h.used[i];
      BlocksDisjoint(h, top, j, |h.free| + i);
    }
  }

  lemma TidyFromTouch(h: Heap, top: int)
    requires Sane(h, top) && NonEmpty(h.used) && TouchOnlyAt(h.free, -1, -1, top)
    ensures Tidy(h, top)
  {
  }

  /** `Mfree` always keeps the free list sorted and maximally coalesced. */
  lemma MfreeKeepsTidy(h: Heap, start: u32, top: int)
    requires Tidy(h, top)
    ensures Tidy(Mfree(h, start).0, top)
  {
    var i := Find(h.used, start);
    if i < |h.used| {
      var h1 := h.(used := Remove(h.used, i));
      assert h.used[i] in h.used;
      TidyIsApart(h, top, i, h.used[i]);
      FreeBlockCoalesces(h1, h.used[i], top);
      MfreeKeepsSane(h, start, top);
      TidyFromTouch(FreeBlock(h1, h.used[i]), top);
    }
  }

  /** `Malloc` keeps it exactly when it is not asked to split off an empty (or negative) block. */
  lemma MallocKeepsTidy(h: Heap, n: s32, top: int)
    requires Tidy(h, top)
    ensures Tidy(Malloc(h, n).0, top) <==> (h.free == [] || n == -1 || RoundUp4(n) > 0)
  {
    MallocKeepsSane(h, n, top);
    if h.free != [] && n != -1 && RoundUp4(n) >= 0 {
      var f := Fit(h, Request(n));
      if RoundUp4(n) == 0 {
        assert h.free[Nth(|h.free|, Position(h.rover), 1)] in h.free;
        assert Malloc(h, n).0.used[0].size == 0;
      } else if f.Some? {
        TakeKeepsCoalesced(h, f.value, Request(n), top);
      }
    }
  }

  lemma TakeKeepsCoalesced(h: Heap, i: nat, size: s32, top: int)
    requires Tidy(h, top)
    requires i < |h.free| && 0 < size <= h.free[i].size
    ensures NonEmpty(Take(h, i, size).free) && Coalesced(Take(h, i, size).free)
  {
    assert h.free[i] in h.free;
    SplitHits(h.free[i], size, top);
    var free' := Take(h, i, size).free;
    if size == h.free[i].size {
      assert forall j :: 0 <= j < |free'| ==> free'[j] == h.free[if j < i then j else j + 1];
    }
  }

  /** A block inserted right before the block it touches melts into it. */
  lemma MeltsInto(free: seq<Block>, b: Block, j: nat, c: Block)
    requires j < |free| && U32(b.start + b.size) == free[j].start
    requires c == Block(b.start, S32(b.size + free[j].size))
    ensures MergeAt(Insert(free, j, b), j) == free[j := c]
  {
    var f := Insert(free, j, b);
    assert f[j] == b && f[j + 1] == free[j];
    assert Touching(f, j);
    assert f[..j] == free[..j] && f[j + 2..] == free[j + 1..];
    assert free[j := c] == free[..j] + [c] + free[j + 1..];
  }

  lemma SettledStays(free: seq<Block>, k: int, top: int)
    requires top < TWO_31 && TouchOnlyAt(free, -1, -1, top)
    ensures MergeAt(free, k) == free
  {
    assert 0 <= k < |free| - 1 ==> free[k].End() < free[k + 1].start;
  }

  /** An empty block that touches nothing stays. */
  lemma EmptyStays(free: seq<Block>, t: Block, k: nat, top: int)
    requires top < TWO_31 && Within(t, top) && t.size == 0 && k <= |free|
    requires forall j :: 0 <= j < |free| ==> Within(free[j], top)
    requires k < |free| ==> free[k].start != t.start
    requires k > 0 ==> free[k - 1].End() != t.start
    ensures MergeAt(MergeAt(Insert(free, k, t), k), k - 1) == Insert(free, k, t)
    ensures t in Insert(free, k, t)
  {
    var f := Insert(free, k, t);
    assert f[k] == t;
    assert k > 0 ==> f[k - 1] == free[k - 1];
    assert k < |free| ==> f[k + 1] == free[k];
    assert !Touching(f, k) && !Touching(f, k - 1);
  }

  lemma EmptyTailMelts(h: Heap, t: Block, j: nat, top: int)
    requires top < TWO_31 && TouchOnlyAt(h.free, -1, -1, top)
    requires j < |h.free| && h.free[j].start == t.start && t.size == 0
    ensures FreeBlock(h, t).free == h.free
  {
    forall i | 0 <= i < j ensures h.free[i].start < t.start {
      assert h.free[i].End() < h.free[j].start;
    }
    InsertAtIs(h.free, t.start, j);
    MeltsInto(h.free, t, j, h.free[j]);
    SettledStays(h.free, j - 1, top);
  }

  lemma EmptyTailStays(h: Heap, t: Block, top: int)
    requires top < TWO_31 && Within(t, top) && t.size == 0
    requires TouchOnlyAt(h.free, -1, -1, top)
    requires forall f :: f in h.free ==> f.start != t.start && f.End() != t.start
    ensures t in FreeBlock(h, t).free
  {
    var k := InsertAt(h.free, t.start);
    assert k < |h.free| ==> h.free[k] in h.free;
    assert k > 0 ==> h.free[k - 1] in h.free;
    EmptyStays(h.free, t, k, top);
  }

  lemma StrictShrinkKeepsTidy(h: Heap, i: nat, size: s32, top: int)
    requires Tidy(h, top) && i < |h.used| && 0 < size < h.used[i].size
    ensures Tidy(FreeBlock(Shorten(h, i, size), Tail(h.used[i], size)), top)
  {
    var b := h.used[i];
    assert b in h.used;
    SplitHits(b, size, top);
    TidyIsApart(h, top, i, Tail(b, size));
    FreeBlockCoalesces(Shorten(h, i, size), Tail(b, size), top);
    ShrinkKeepsSane(h, i, size, top);
    TidyFromTouch(FreeBlock(Shorten(h, i, size), Tail(b, size)), top);
  }

  /** An empty tail melts into the free block that starts where it starts, if there is one. */
  lemma NoShrinkMelts(h: Heap, i: nat, j: nat, top: int)
    requires Tidy(h, top) && i < |h.used|
    requires j < |h.free| && h.free[j].start == h.used[i].End()
    ensures Tidy(FreeBlock(Shorten(h, i, h.used[i].size), Tail(h.used[i], h.used[i].size)), top)
  {
    assert h.used[i] in h.used;
    TidyIsApart(h, top, i, h.used[i]);
    ShrinkKeepsSane(h, i, h.used[i].size, top);
    EmptyTailMelts(Shorten(h, i, h.used[i].size), Tail(h.used[i], h.used[i].size), j, top);
  }

  lemma NoShrinkStays(h: Heap, i: nat, top: int)
    requires Tidy(h, top) && i < |h.used|
    requires forall f :: f in h.free ==> f.start != h.used[i].End()
    ensures !Tidy(FreeBlock(Shorten(h, i, h.used[i].size), Tail(h.used[i], h.used[i].size)), top)
  {
    var b := h.used[i];
    assert b in h.used;
    TidyIsApart(h, top, i, b);
    forall f | f in h.free ensures f.start != b.End() && f.End() != b.End() {
      assert Disjoint(b, f) && f.size > 0;
    }
    EmptyTailStays(Shorten(h, i, b.size), Tail(b, b.size), top);
  }

  lemma NoSizeIsUntidy(h: Heap, i: nat, top: int)
    requires i < |h.used| && h.used[i].size <= 0
    ensures !Tidy(h, top)
  {
    assert h.used[i] in h.used;
  }

  /** `Mshrink` keeps the list coalesced exactly when it fails, frees the whole block, strictly
      shrinks it, or leaves an empty tail that melts into the free block right behind. */
  lemma MshrinkKeepsTidy(h: Heap, start: u32, n: s32, top: int)
    requires Tidy(h, top)
    ensures Tidy(Mshrink(h, start, n).0, top) <==>
            var i := Find(h.used, start);
            || n == 0 || i == |h.used| || h.used[i].size < RoundUp4(n)
            || 0 < RoundUp4(n) < h.used[i].size
            || (RoundUp4(n) == h.used[i].size && exists f :: f in h.free && f.start == h.used[i].End())
  {
    var i := Find(h.used, start);
    if n == 0 {
      MfreeKeepsTidy(h, start, top);
    } else if i < |h.used| && RoundUp4(n) <= h.used[i].size {
      var size := RoundUp4(n);
      if size <= 0 {
        NoSizeIsUntidy(FreeBlock(Shorten(h, i, size), Tail(h.used[i], size)), i, top);
      } else if size < h.used[i].size {
        StrictShrinkKeepsTidy(h, i, size, top);
      } else if f :| f in h.free && f.start == h.used[i].End() {
        var j :| 0 <= j < |h.free| && h.free[j] == f;
        NoShrinkMelts(h, i, j, top);
      } else {
        NoShrinkStays(h, i, top);
      }
    }
  }
}
