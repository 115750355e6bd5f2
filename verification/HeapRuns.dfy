/** What callers of gemdos/mem.c observe: when Malloc succeeds and what it returns, that Mfree
    undoes Malloc, and what holds after any run of calls. */
module HeapRuns {
  import opened Words
  import opened HeapModel
  import opened HeapTheory
  import opened HeapCoalescing

  // ---------------------------------------------------------------- the circular scan

  /** One turn of the scan loop of Malloc: it either stops or has looked at one more
      block, whose list position becomes `prev`. */
  datatype Scan = Looking(prev: int) | Stopped

  function ScanTurn(free: seq<Block>, rover: int, n: s32, prev: int): Scan
    requires |free| > 0 && -1 <= rover < |free| && -1 <= prev < |free|
  {
    var current := if prev + 1 < |free| then prev + 1 else 0;
    if n != -1 && free[current].size >= Request(n) then Stopped
    else if current == rover then Stopped
    else Looking(current)
  }

  function ScanAfter(free: seq<Block>, rover: int, n: s32, turns: nat): (s: Scan)
    requires |free| > 0 && -1 <= rover < |free|
    ensures s.Looking? ==> -1 <= s.prev < |free|
  {
    if turns == 0 then Looking(rover)
    else match ScanAfter(free, rover, n, turns - 1)
      case Stopped => Stopped
      case Looking(prev) => ScanTurn(free, rover, n, prev)
  }

  lemma {:induction false} ScanGoesRound(free: seq<Block>, rover: int, n: s32, turns: nat)
    requires |free| > 0 && 0 <= rover < |free| && turns < |free|
    ensures var s := ScanAfter(free, rover, n, turns);
            s == Stopped || s == Looking(if turns == 0 then rover else Nth(|free|, rover, turns))
  {
    if turns > 0 {
      ScanGoesRound(free, rover, n, turns - 1);
    }
  }

  lemma {:induction false} ScanFromHead(free: seq<Block>, n: s32, turns: nat)
    requires |free| > 0
    requires n == -1 || forall b :: b in free ==> b.size < Request(n)
    ensures ScanAfter(free, -1, n, turns).Looking?
  {
    if turns > 0 {
      ScanFromHead(free, n, turns - 1);
    }
  }

  lemma {:induction false} ScanFinds(free: seq<Block>, n: s32, turns: nat)
    requires n != -1 && 0 < turns <= |free|
    requires free[turns - 1].size >= Request(n)
    ensures ScanAfter(free, -1, n, turns).Stopped?
  {
    ScanForward(free, n, turns - 1);
  }

  lemma {:induction false} ScanForward(free: seq<Block>, n: s32, turns: nat)
    requires |free| > 0 && turns < |free|
    ensures var s := ScanAfter(free, -1, n, turns); s == Stopped || s == Looking(turns - 1)
  {
    if turns > 0 {
      ScanForward(free, n, turns - 1);
    }
  }

  /** Malloc's scan stops if and only if the free list is empty, some earlier Malloc has
      succeeded, or a free block is large enough. Otherwise it never stops: before the first
      success the rover is the list head, which the loop test can never meet again. */
  lemma ScanStopsIff(h: Heap, n: s32, top: int)
    requires Sane(h, top)
    ensures Ends(h, n) <==>
            (h.free == [] || exists turns: nat :: ScanAfter(h.free, Position(h.rover), n, turns).Stopped?)
  {
    if h.free != [] {
      var p := Position(h.rover);
      if p >= 0 {
        ScanGoesRound(h.free, p, n, |h.free| - 1);
        assert ScanAfter(h.free, p, n, |h.free|).Stopped?;
      } else if Ends(h, n) {
        FitComplete(h, Request(n));
        ScanFinds(h.free, n, Fit(h, Request(n)).value + 1);
      } else {
        forall turns: nat ensures ScanAfter(h.free, p, n, turns).Looking? {
          ScanFromHead(h.free, n, turns);
        }
      }
    }
  }

  // ---------------------------------------------------------------- success and failure

  lemma {:induction false} FitIsFirst(free: seq<Block>, p: int, size: s32, k: int)
    requires |free| > 0 && -1 <= p < |free| && 1 <= k <= |free| + 1
    ensures match FitFrom(free, p, size, k)
            case Some(i) => exists j :: FirstFitAt(free, p, size, k, j) && i == Nth(|free|, p, j)
            case None => forall j :: k <= j <= |free| ==> free[Nth(|free|, p, j)].size < size
    decreases |free| + 1 - k
  {
    if k <= |free| {
      if free[Nth(|free|, p, k)].size >= size {
        assert FirstFitAt(free, p, size, k, k);
      } else {
        FitIsFirst(free, p, size, k + 1);
        if FitFrom(free, p, size, k).Some? {
          var j :| FirstFitAt(free, p, size, k + 1, j) && FitFrom(free, p, size, k).value == Nth(|free|, p, j);
          assert FirstFitAt(free, p, size, k, j);
        }
      }
    }
  }

  lemma FitComplete(h: Heap, size: s32)
    requires (h.rover.At? ==> h.rover.index < |h.free|) && !h.rover.Null? && h.free != []
    ensures Fit(h, size).Some? <==> exists b :: b in h.free && b.size >= size
  {
    var p := Position(h.rover);
    FitIsFirst(h.free, p, size, 1);
    if Fit(h, size).None? {
      forall b | b in h.free ensures b.size < size {
        var i :| 0 <= i < |h.free| && h.free[i] == b;
        var k := if i > p then i - p else i - p + |h.free|;
        assert Nth(|h.free|, p, k) == i;
      }
    }
  }

  /** A positive request whose scan ends: once some Malloc has succeeded, it succeeds exactly when,
      rounded up to 4, it is at most the size that Malloc(-1) reports. Before that Malloc(-1) does not
      end, and a request ends only if it succeeds. A request that succeeds returns the start of the
      first block large enough in circular order after the rover; one that fails returns 0 and changes
      nothing. */
  lemma MallocSucceedsIff(h: Heap, n: s32, top: int)
    requires Sane(h, top) && n > 0 && RoundUp4(n) > 0 && Ends(h, n)
    ensures Ends(h, -1) <==> !h.rover.Head?
    ensures Ends(h, -1) ==> (Malloc(h, n).1 != 0 <==> RoundUp4(n) <= Malloc(h, -1).1)
    ensures !Ends(h, -1) ==> Malloc(h, n).1 != 0
    ensures Malloc(h, n).1 == 0 ==> Malloc(h, n).0 == h
    ensures Malloc(h, n).1 != 0 ==>
              exists j :: FirstFitAt(h.free, Position(h.rover), RoundUp4(n), 1, j)
                       && Malloc(h, n).1 == h.free[Nth(|h.free|, Position(h.rover), j)].start
    ensures Malloc(h, n).1 != 0 ==> Malloc(h, n).0.used == [Block(Malloc(h, n).1, RoundUp4(n))] + h.used
  {
    if h.free != [] {
      FitComplete(h, Request(n));
      LargestIsMax(h.free);
      FitIsFirst(h.free, Position(h.rover), Request(n), 1);
      forall b | b in h.free ensures U32(b.size) == b.size && b.start > 0 {
        assert Within(b, top);
      }
    }
  }

  /** The start of the `k`-th block that the next scan looks at. */
  function Looks(h: Heap, k: nat): u32
    requires h.free != [] && !h.rover.Null? && (h.rover.At? ==> h.rover.index < |h.free|) && 1 <= k <= |h.free|
  {
    h.free[Nth(|h.free|, Position(h.rover), k)].start
  }

  /** `p` is the start of the first free block behind address `a`, or of the lowest one if there is none. */
  ghost predicate FirstBehind(free: seq<Block>, a: int, p: u32) {
    if exists b :: b in free && b.start > a then p > a && forall b :: b in free && b.start > a ==> p <= b.start
    else forall b :: b in free ==> p <= b.start
  }

  /** Next fit: after Malloc has taken memory at `p`, the next scan starts with the first free block
      behind `p`, except that after taking the lowest free memory it comes to the lowest block last. */
  lemma NextScan(h: Heap, n: s32, top: int)
    requires Tidy(h, top) && n > 0 && RoundUp4(n) > 0 && Malloc(h, n).1 != 0
    ensures var (h', p) := Malloc(h, n);
      if h'.free == [] then h'.rover.Null?
      else
        && h'.rover.At? && h'.rover.index < |h'.free|
        && if exists b :: b in h.free && b.start < p then FirstBehind(h'.free, p, Looks(h', 1))
           else forall b :: b in h'.free ==> Looks(h', |h'.free|) <= b.start
  {
    var i, size := Fit(h, Request(n)).value, Request(n);
    NextLooks(h, i, size, top);
  }

  lemma NextLooks(h: Heap, i: nat, size: s32, top: int)
    requires Tidy(h, top) && i < |h.free| && 0 < size <= h.free[i].size
    ensures var h', p := Take(h, i, size), h.free[i].start;
      if h'.free == [] then h'.rover.Null?
      else
        && h'.rover.At? && h'.rover.index < |h'.free|
        && if exists b :: b in h.free && b.start < p then FirstBehind(h'.free, p, Looks(h', 1))
           else forall b :: b in h'.free ==> Looks(h', |h'.free|) <= b.start
  {
    var h', p := Take(h, i, size), h.free[i].start;
    TakeLength(h, i, size);
    assert h'.rover == if i > 0 then At(i - 1) else if h'.free == [] then Null else At(0);
    hide Take, Tidy;
    if h'.free != [] {
      forall j | 0 <= j < |h'.free|
        ensures (j < i ==> h'.free[j].start < p) && (j >= i ==> h'.free[j].start > p)
        ensures forall k :: j < k < |h'.free| ==> h'.free[j].start < h'.free[k].start
      {
        TakeInOrder(h, i, size, top, j);
      }
      if i == 0 {
        NoneBefore(h, top);
      } else {
        InOrder(h, top, 0, i);
        assert h.free[0] in h.free;
        FirstAt(h'.free, i, p);
        hide FirstBehind;
      }
    }
  }

  lemma FirstAt(free: seq<Block>, i: nat, p: u32)
    requires free != [] && i <= |free|
    requires forall j, k :: 0 <= j < k < |free| ==> free[j].start < free[k].start
    requires forall j :: 0 <= j < |free| ==> (j < i ==> free[j].start < p) && (j >= i ==> free[j].start > p)
    ensures FirstBehind(free, p, free[if i < |free| then i else 0].start)
  {
    assert i < |free| ==> free[i] in free;
  }

  lemma NoneBefore(h: Heap, top: int)
    requires Tidy(h, top) && h.free != []
    ensures forall b :: b in h.free ==> b.start >= h.free[0].start
  {
    forall j | 0 < j < |h.free| ensures h.free[j].start >= h.free[0].start {
      InOrder(h, top, 0, j);
    }
  }

  /** The free list is in the order of addresses, with room between. */
  lemma InOrder(h: Heap, top: int, j: nat, k: nat)
    requires Tidy(h, top) && j < k < |h.free|
    ensures h.free[j].start < h.free[j].End() < h.free[k].start
  {
    assert h.free[j] in h.free;
  }

  /** Where block `j` of the free list starts after a take. */
  lemma TakeAt(h: Heap, i: nat, size: s32, top: int, j: nat)
    requires Tidy(h, top) && i < |h.free| && 0 < size <= h.free[i].size && j < |Take(h, i, size).free|
    ensures Take(h, i, size).free[j].start
      == if j < i then h.free[j].start
         else if h.free[i].size == size then h.free[j + 1].start
         else if j == i then h.free[i].start + size else h.free[j].start
  {
    assert h.free[i] in h.free && Within(h.free[i], top);
  }

  lemma TakeInOrder(h: Heap, i: nat, size: s32, top: int, j: nat)
    requires Tidy(h, top) && i < |h.free| && 0 < size <= h.free[i].size && j < |Take(h, i, size).free|
    ensures var f' := Take(h, i, size).free;
      && (j < i ==> f'[j].start < h.free[i].start) && (j >= i ==> f'[j].start > h.free[i].start)
      && forall k :: j < k < |f'| ==> f'[j].start < f'[k].start
  {
    var f, f' := h.free, Take(h, i, size).free;
    hide Take, Tidy;
    TakeAt(h, i, size, top, j);
    TakeLength(h, i, size);
    if j < i {
      InOrder(h, top, j, i);
    } else if i < j || |f'| < |f| {
      InOrder(h, top, i, if |f'| < |f| then j + 1 else j);
    }
    forall k | j < k < |f'| ensures f'[j].start < f'[k].start {
      TakeAt(h, i, size, top, k);
      TakePair(h, i, size, top, j, k);
    }
  }

  lemma TakeLength(h: Heap, i: nat, size: s32)
    requires i < |h.free|
    ensures |Take(h, i, size).free| == if h.free[i].size == size then |h.free| - 1 else |h.free|
  {
  }

  lemma TakePair(h: Heap, i: nat, size: s32, top: int, j: nat, k: nat)
    requires Tidy(h, top) && i < |h.free| && 0 < size <= h.free[i].size
    requires j < k < if h.free[i].size == size then |h.free| - 1 else |h.free|
    ensures var whole := h.free[i].size == size;
      var s := if j < i then h.free[j].start else if whole then h.free[j + 1].start
               else if j == i then h.free[i].start + size else h.free[j].start;
      var t := if k < i then h.free[k].start else if whole then h.free[k + 1].start
               else if k == i then h.free[i].start + size else h.free[k].start;
      s < t
  {
    var whole := h.free[i].size == size;
    InOrder(h, top, if j < i || !whole then j else j + 1, if k < i || !whole then k else k + 1);
    hide Tidy;
  }

  /** Malloc(-1) changes nothing and reports the largest free size, 0 if nothing is free. */
  lemma LargestIsReported(h: Heap, top: int)
    requires Sane(h, top) && Ends(h, -1)
    ensures var (h', r) := Malloc(h, -1);
      && h' == h && (forall b :: b in h.free ==> b.size <= r)
      && if h.free == [] then r == 0 else exists b :: b in h.free && b.size == r
  {
    LargestIsMax(h.free);
    forall b | b in h.free ensures U32(b.size) == b.size {
      assert Within(b, top);
    }
    if h.free != [] {
      assert h.free[0] in h.free;
      if Largest(h.free) == 0 {
        assert h.free[0].size == 0;
      }
    }
  }

  function ShrinkCode(used: seq<Block>, start: u32, size: s32): s32 {
    if !exists b :: b in used && b.start == start then -40
    else if used[Find(used, start)].size < size then -67
    else size
  }

  /** Failed calls change nothing and say why: no used block starts there, or it is smaller than the size
      asked for. Successful ones return 0 or the new size. */
  lemma FailuresChangeNothing(h: Heap, start: u32, n: s32)
    ensures Mfree(h, start).1 == if exists b :: b in h.used && b.start == start then 0 else -40
    ensures Mfree(h, start).1 != 0 ==> Mfree(h, start).0 == h
    ensures n != 0 ==> Mshrink(h, start, n).1 == ShrinkCode(h.used, start, RoundUp4(n))
    ensures Mshrink(h, start, n).1 < 0 && RoundUp4(n) >= 0 ==> Mshrink(h, start, n).0 == h
  {
    var i := Find(h.used, start);
    if i < |h.used| {
      assert h.used[i] in h.used;
    }
  }

  // ---------------------------------------------------------------- Mfree undoes Malloc

  lemma SplitMelts(free: seq<Block>, i: nat, size: s32, b: Block, top: int)
    requires top < TWO_31 && TouchOnlyAt(free, -1, -1, top) && i < |free| && 0 < size < free[i].size
    requires b == Block(free[i].start, size)
    ensures InsertAt(free[i := Tail(free[i], size)], b.start) == i
    ensures MergeAt(Insert(free[i := Tail(free[i], size)], i, b), i) == free
  {
    var free' := free[i := Tail(free[i], size)];
    forall j | 0 <= j < i ensures free'[j].start < b.start {
      assert free[j].End() < free[i].start;
    }
    InsertAtIs(free', b.start, i);
    MeltsInto(free', b, i, free[i]);
    assert free'[i := free[i]] == free;
  }

  lemma SplitRejoins(h: Heap, i: nat, size: s32, b: Block, top: int)
    requires Tidy(h, top) && i < |h.free| && 0 < size < h.free[i].size
    requires b == Block(h.free[i].start, size)
    ensures FreeBlock(Take(h, i, size).(used := h.used), b).free == h.free
  {
    TidyTouches(h, top);
    SplitMelts(h.free, i, size, b, top);
    SettledStays(h.free, i - 1, top);
  }

  lemma RemovedReturns(h: Heap, i: nat, b: Block, top: int)
    requires Tidy(h, top) && i < |h.free| && b == h.free[i]
    ensures FreeBlock(Take(h, i, b.size).(used := h.used), b).free == h.free
  {
    var free' := Remove(h.free, i);
    TidyTouches(h, top);
    forall j | 0 <= j < i ensures free'[j].start < b.start {
      assert h.free[j].End() < h.free[i].start;
    }
    assert i < |free'| ==> free'[i] == h.free[i + 1] && h.free[i].End() < h.free[i + 1].start;
    InsertAtIs(free', b.start, i);
    assert Insert(free', i, b) == h.free;
    SettledStays(h.free, i, top);
    SettledStays(h.free, i - 1, top);
  }

  lemma TidyTouches(h: Heap, top: int)
    requires Tidy(h, top)
    ensures TouchOnlyAt(h.free, -1, -1, top)
  {
    forall i | 0 <= i < |h.free| ensures Within(h.free[i], top) && h.free[i].size > 0 {
      assert h.free[i] in h.free;
    }
  }

  /** Freeing what Malloc just returned gives back exactly the earlier free and used lists. */
  lemma MfreeUndoesMalloc(h: Heap, n: s32, top: int)
    requires Tidy(h, top) && n > 0 && RoundUp4(n) > 0
    requires Malloc(h, n).1 != 0
    ensures Mfree(Malloc(h, n).0, Malloc(h, n).1).1 == E_OK
    ensures Mfree(Malloc(h, n).0, Malloc(h, n).1).0.free == h.free
    ensures Mfree(Malloc(h, n).0, Malloc(h, n).1).0.used == h.used
  {
    var i := Fit(h, Request(n)).value;
    var b := Block(h.free[i].start, Request(n));
    var h' := Take(h, i, Request(n));
    assert Find(h'.used, b.start) == 0;
    assert Remove(h'.used, 0) == h.used;
    if Request(n) < h.free[i].size {
      SplitRejoins(h, i, Request(n), b, top);
    } else {
      RemovedReturns(h, i, b, top);
    }
  }

  // ---------------------------------------------------------------- whole runs

  datatype Call = CMalloc(n: s32) | CMfree(start: u32) | CMshrink(start: u32, n: s32)

  function Apply(h: Heap, c: Call): Heap
    requires h.rover.At? ==> h.rover.index < |h.free|
  {
    match c
    case CMalloc(n) => Malloc(h, n).0
    case CMfree(start) => Mfree(h, start).0
    case CMshrink(start, n) => Mshrink(h, start, n).0
  }

  /** The call comes to an end. */
  predicate Stops(h: Heap, c: Call) {
    c.CMalloc? ==> Ends(h, c.n)
  }

  /** What a caller must respect for the pool to stay partitioned: the call ends, and no size that
      rounds to a negative number meets a block. */
  predicate Proper(h: Heap, c: Call)
    requires h.rover.At? ==> h.rover.index < |h.free|
  {
    && Stops(h, c)
    && match c
       case CMalloc(n) => h.free == [] || n == -1 || RoundUp4(n) >= 0
       case CMfree(_) => true
       case CMshrink(start, n) => Find(h.used, start) < |h.used| ==> RoundUp4(n) >= 0
  }

  /** A proper call that asks for something and, if it shrinks, shrinks strictly. */
  predicate Strict(h: Heap, c: Call)
    requires h.rover.At? ==> h.rover.index < |h.free|
  {
    && Proper(h, c)
    && match c
       case CMalloc(n) => n == -1 || RoundUp4(n) > 0
       case CMfree(_) => true
       case CMshrink(start, n) =>
         var i := Find(h.used, start);
         n == 0 || i == |h.used| || h.used[i].size < RoundUp4(n) || 0 < RoundUp4(n) < h.used[i].size
  }

  ghost predicate Run(h: Heap, calls: seq<Call>, strict: bool, h': Heap)
    decreases calls
  {
    if calls == [] then h' == h
    else
      && (h.rover.At? ==> h.rover.index < |h.free|)
      && (if strict then Strict(h, calls[0]) else Proper(h, calls[0]))
      && Run(Apply(h, calls[0]), calls[1..], strict, h')
  }

  lemma {:induction false} RunFrom(h: Heap, calls: seq<Call>, strict: bool, h': Heap, top: int)
    requires Sane(h, top) && (strict ==> Tidy(h, top))
    requires Run(h, calls, strict, h')
    ensures Sane(h', top) && (strict ==> Tidy(h', top))
    decreases calls
  {
    if calls != [] {
      match calls[0] {
        case CMalloc(n) =>
          MallocKeepsSane(h, n, top);
          if strict { MallocKeepsTidy(h, n, top); }
        case CMfree(start) =>
          MfreeKeepsSane(h, start, top);
          if strict { MfreeKeepsTidy(h, start, top); }
        case CMshrink(start, n) =>
          MshrinkKeepsSane(h, start, n, top);
          if strict { MshrinkKeepsTidy(h, start, n, top); }
      }
      RunFrom(Apply(h, calls[0]), calls[1..], strict, h', top);
    }
  }

  /** A call that ends keeps the partition exactly when it is proper. */
  lemma NextCallIff(h: Heap, c: Call, top: int)
    requires Sane(h, top) && Stops(h, c)
    ensures Sane(Apply(h, c), top) <==> Proper(h, c)
  {
    match c
    case CMalloc(n) => MallocKeepsSane(h, n, top);
    case CMfree(start) => MfreeKeepsSane(h, start, top);
    case CMshrink(start, n) => MshrinkKeepsSane(h, start, n, top);
  }

  /** Every call of the run ends. */
  ghost predicate AllStop(h: Heap, calls: seq<Call>)
    decreases calls
  {
    calls == [] || ((h.rover.At? ==> h.rover.index < |h.free|) && Stops(h, calls[0]) && AllStop(Apply(h, calls[0]), calls[1..]))
  }

  /** The pool is partitioned before and after every call. */
  ghost predicate SaneThroughout(h: Heap, calls: seq<Call>, top: int)
    decreases calls
  {
    Sane(h, top) && (calls == [] || SaneThroughout(Apply(h, calls[0]), calls[1..], top))
  }

  lemma {:induction false} ProperRunIsSane(h: Heap, calls: seq<Call>, h': Heap, top: int)
    requires Sane(h, top) && Run(h, calls, false, h')
    ensures SaneThroughout(h, calls, top)
    decreases calls
  {
    hide Sane, Proper, Apply;
    if calls != [] {
      RoverInside(h, top);
      ProperStops(h, calls[0]);
      NextCallIff(h, calls[0], top);
      ProperRunIsSane(Apply(h, calls[0]), calls[1..], h', top);
    }
  }

  lemma {:induction false} SaneRunIsProper(h: Heap, calls: seq<Call>, top: int) returns (h': Heap)
    requires AllStop(h, calls) && SaneThroughout(h, calls, top)
    ensures Run(h, calls, false, h')
    decreases calls
  {
    hide Sane, Proper, Apply, Stops;
    h' := h;
    if calls != [] {
      RoverInside(h, top);
      h' := SaneRunIsProper(Apply(h, calls[0]), calls[1..], top);
      assert Sane(Apply(h, calls[0]), top);
      NextCallIff(h, calls[0], top);
    }
  }

  /** No wider condition on the caller would do: a run stays partitioned throughout exactly when each of
      its calls is proper. */
  lemma StaysPartitionedIff(calls: seq<Call>, memorySize: int)
    requires MEM_BOTTOM < memorySize < TWO_31 && AllStop(InitialHeap(memorySize), calls)
    ensures SaneThroughout(InitialHeap(memorySize), calls, memorySize)
            <==> exists h :: Run(InitialHeap(memorySize), calls, false, h)
  {
    hide *;
    var h0 := InitialHeap(memorySize);
    InitialTidy(memorySize);
    if SaneThroughout(h0, calls, memorySize) {
      var h := SaneRunIsProper(h0, calls, memorySize);
    }
    if h :| Run(h0, calls, false, h) {
      TidyIsSane(h0, memorySize);
      ProperRunIsSane(h0, calls, h, memorySize);
    }
  }

  lemma TidyIsSane(h: Heap, top: int)
    requires Tidy(h, top)
    ensures Sane(h, top)
  {
  }

  lemma ProperStops(h: Heap, c: Call)
    requires (h.rover.At? ==> h.rover.index < |h.free|) && Proper(h, c)
    ensures Stops(h, c)
  {
  }

  lemma RoverInside(h: Heap, top: int)
    requires Sane(h, top)
    ensures h.rover.At? ==> h.rover.index < |h.free|
  {
  }

  /** After any run from InitMemory, free and used blocks are pairwise disjoint and together own
      every address of [0x10000, memory_sz) and no other; the rover is null exactly when nothing is
      free, and otherwise the list head (nothing allocated yet) or a member of the free list. */
  lemma RunsPartition(calls: seq<Call>, h: Heap, memorySize: int)
    requires MEM_BOTTOM < memorySize < TWO_31
    requires Run(InitialHeap(memorySize), calls, false, h)
    ensures forall a :: Cover(h.free, a) + Cover(h.used, a) == if MEM_BOTTOM <= a < memorySize then 1 else 0
    ensures forall i, j :: 0 <= i < j < |h.free + h.used| && (h.free + h.used)[i].size > 0 && (h.free + h.used)[j].size > 0
                        ==> Disjoint((h.free + h.used)[i], (h.free + h.used)[j])
    ensures forall b :: b in h.free + h.used ==> Within(b, memorySize)
    ensures h.rover.Null? <==> h.free == []
    ensures h.rover.At? ==> h.rover.index < |h.free|
    ensures h.rover.Head? ==> h.used == []
  {
    hide Run, Cover, Disjoint;
    InitialTidy(memorySize);
    RunFrom(InitialHeap(memorySize), calls, false, h, memorySize);
    forall i, j | 0 <= i < j < |h.free + h.used| && (h.free + h.used)[i].size > 0 && (h.free + h.used)[j].size > 0
      ensures Disjoint((h.free + h.used)[i], (h.free + h.used)[j])
    {
      BlocksDisjoint(h, memorySize, i, j);
    }
  }

  /** After any strict run the free list is strictly sorted and no two free blocks touch. */
  lemma StrictRunsCoalesce(calls: seq<Call>, h: Heap, memorySize: int)
    requires MEM_BOTTOM < memorySize < TWO_31
    requires Run(InitialHeap(memorySize), calls, true, h)
    ensures Coalesced(h.free) && NonEmpty(h.free)
  {
    InitialTidy(memorySize);
    RunFrom(InitialHeap(memorySize), calls, true, h, memorySize);
  }

  lemma {:induction false} CoverHas(bs: seq<Block>, a: int) returns (i: nat)
    requires Cover(bs, a) > 0
    ensures i < |bs| && bs[i].start <= a < bs[i].End()
  {
    if Hit(bs[0], a) == 1 {
      i := 0;
    } else {
      i := CoverHas(bs[1..], a);
      i := i + 1;
    }
  }

  lemma FirstIsLowest(f: seq<Block>, i: nat, top: int)
    requires TouchOnlyAt(f, -1, -1, top) && i < |f|
    ensures f[0].start <= f[i].start && f[i].start < f[i].End() <= top
    ensures i > 0 ==> f[0].End() < f[i].start
  {
  }

  lemma OneBlock(f: seq<Block>, top: int)
    requires MEM_BOTTOM < top < TWO_31 && TouchOnlyAt(f, -1, -1, top)
    requires forall a :: MEM_BOTTOM <= a < top ==> Cover(f, a) > 0
    ensures f == [Block(MEM_BOTTOM, top - MEM_BOTTOM)]
  {
    assert Cover(f, MEM_BOTTOM) > 0;
    var i := CoverHas(f, MEM_BOTTOM);
    FirstIsLowest(f, i, top);
    if f[0].End() < top {
      assert Cover(f, f[0].End()) > 0;
      var j := CoverHas(f, f[0].End());
      FirstIsLowest(f, j, top);
      assert false;
    }
    FirstIsLowest(f, |f| - 1, top);
  }

  /** No memory is lost or left fragmented: a strict run that has freed everything ends with the
      single block it began with. */
  lemma AllFreedIsWhole(calls: seq<Call>, h: Heap, memorySize: int)
    requires MEM_BOTTOM < memorySize < TWO_31
    requires Run(InitialHeap(memorySize), calls, true, h)
    requires h.used == []
    ensures h.free == InitialHeap(memorySize).free
  {
    InitialTidy(memorySize);
    RunFrom(InitialHeap(memorySize), calls, true, h, memorySize);
    TidyTouches(h, memorySize);
    forall a | MEM_BOTTOM <= a < memorySize ensures Cover(h.free, a) > 0 {
      assert Cover(h.free, a) + Cover(h.used, a) == 1;
    }
    OneBlock(h.free, memorySize);
  }

  lemma ShrinkToSelf(a: Block, b: Block, rest: Block)
    requires a.size > 0 && a.size % 4 == 0 && a.End() < rest.start && b.start == a.End()
    ensures Apply(Heap([rest], [b, a], At(0)), CMshrink(a.start, a.size)) == Heap([Tail(a, a.size), rest], [b, a], At(1))
  {
    var h := Heap([rest], [b, a], At(0));
    assert h.used[1..] == [a] && Find(h.used[1..], a.start) == 0;
    assert RoundUp4(a.size) == a.size;
    assert Shorten(h, 1, a.size) == h;
    assert Insert(h.free, 0, Tail(a, a.size)) == [Tail(a, a.size), rest];
    assert !Touching([Tail(a, a.size), rest], 0);
  }

  lemma FreeBeforeEmpty(a: Block, b: Block, e: Block, rest: Block)
    requires b.start == e.start && b.size > 0 && b.End() < TWO_31
    ensures Apply(Heap([e, rest], [b, a], At(1)), CMfree(b.start)) == Heap([b, e, rest], [a], At(2))
  {
    var h := Heap([e, rest], [b, a], At(1));
    assert Remove(h.used, 0) == [a];
    assert Insert(h.free, 0, b) == [b, e, rest];
    assert !Touching([b, e, rest], 0);
  }

  /** Strictness is needed: with blocks a, b used and the rest free behind them, resizing a to its own
      size and then freeing b leaves b and the rest touching but not melted, whatever their sizes. */
  lemma EmptyShrinkBlocksCoalescing(a: Block, b: Block, rest: Block)
    requires a.size > 0 && a.size % 4 == 0 && b.size > 0 && rest.size > 0 && rest.End() < TWO_31
    requires a.End() == b.start && b.End() == rest.start
    ensures var h := Heap([rest], [b, a], At(0));
            var h' := Apply(Apply(h, CMshrink(a.start, a.size)), CMfree(b.start));
            h'.free == [b, Block(b.start, 0), rest] && Coalesced(h.free) && !Coalesced(h'.free)
  {
    ShrinkToSelf(a, b, rest);
    FreeBeforeEmpty(a, b, Tail(a, a.size), rest);
    assert [b, Block(b.start, 0), rest][0] == b && [b, Block(b.start, 0), rest][1].start == b.start;
  }
}
