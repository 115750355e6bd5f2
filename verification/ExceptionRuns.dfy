/** Runs of the processor with nested exceptions: every RTE of a well-nested run goes back to where its
    exception happened. */
module ExceptionRuns {
  import opened Words
  import opened AddressSpace
  import opened Exceptions
  import opened ExceptionFrames

  /** The memory set aside for the interrupt stack and for the master stack. */
  datatype Zones = Zones(ilo: nat, ihi: nat, mlo: nat, mhi: nat)
  {
    predicate Apart() {
      ilo <= ihi <= TWO_32 && mlo <= mhi <= TWO_32 && (ihi <= mlo || mhi <= ilo)
    }

    predicate Hold(s: State)
      requires s.Ok()
    {
      ilo <= s.Isp() <= ihi && mlo <= s.Msp() <= mhi
    }

    /** There is room for the frames. */
    predicate Room(s: State, f: Frames)
      requires s.Ok()
    {
      ilo <= s.Isp() - InterruptBytes(s, f) && mlo <= s.Msp() - MasterBytes(s, f)
    }
  }

  /** An exception whose handler has not returned yet: the state it happened in, and its kind. */
  datatype Pending = Pending(saved: State, entry: Entry)
  {
    predicate Sound(z: Zones) {
      saved.Ok() && Accepts(saved, entry) && z.Apart() && z.Hold(saved) && z.Room(saved, Frames())
      && Fits(saved, Frames())
    }

    function Frames(): (f: Frames)
      requires saved.Ok() && Accepts(saved, entry)
      ensures f.Ok() && (f.two ==> saved.m == 2)
    {
      FramesOf(saved, entry)
    }

    /** The stack pointers of `s` are at or below the frames. */
    predicate Above(s: State)
      requires saved.Ok() && Accepts(saved, entry) && s.Ok()
    {
      s.Isp() <= saved.Isp() - InterruptBytes(saved, Frames()) && s.Msp() <= saved.Msp() - MasterBytes(saved, Frames())
    }

    predicate Intact(m: Space)
      requires saved.Ok() && Accepts(saved, entry) && Fits(saved, Frames())
    {
      FramesIn(saved, Frames(), m)
    }
  }

  /** The processor and the exceptions whose handlers are running, the innermost last. */
  datatype Config = Config(state: State, pending: seq<Pending>)

  ghost predicate Good(c: Config, z: Zones) {
    && z.Apart() && c.state.Ok() && z.Hold(c.state)
    && (forall i :: 0 <= i < |c.pending| ==> c.pending[i].Sound(z))
    && (forall i :: 0 <= i < |c.pending| ==> c.pending[i].Intact(c.state.mem) && c.pending[i].Above(c.state))
    && (forall i, j :: 0 <= i < j < |c.pending| ==> c.pending[i].Above(c.pending[j].saved))
  }

  /** One event of a run: instructions other than RTE that take the processor to the state `next`, an
      exception, or an RTE. */
  datatype Event = Code(next: State) | Exception(entry: Entry) | Return(ack: u32)

  /** Code may do anything that leaves the frames of the running handlers intact and keeps the stack
      pointers on their stacks, below those frames. An exception needs room on the stacks. RTE is
      executed with the mode and stack pointers the handler started with, and with no interrupt above
      the mask it restores. */
  ghost predicate Legal(c: Config, e: Event, z: Zones)
    requires Good(c, z)
  {
    var n := |c.pending|;
    match e
    case Code(t) =>
      && t.Ok() && z.Hold(t)
      && (n > 0 ==> c.pending[n - 1].Above(t))
      && (forall i :: 0 <= i < n ==> c.pending[i].Intact(t.mem))
    case Exception(entry) => Accepts(c.state, entry) && z.Room(c.state, FramesOf(c.state, entry))
    case Return(ack) =>
      && n > 0 && PointersLeft(c.pending[n - 1].saved, c.pending[n - 1].Frames(), c.state)
      && c.state.level <= c.pending[n - 1].saved.mask
  }

  lemma RteReady(c: Config, z: Zones, ack: u32)
    requires Good(c, z) && Legal(c, Return(ack), z)
    ensures var p := c.pending[|c.pending| - 1];
      Finished(p.saved, p.Frames(), c.state) && RteStops(c.state, Extra(p.Frames()))
  {
    hide PointersLeft, FramesIn, FramesOf, RteStops, Rte, Unwound;
    var p := c.pending[|c.pending| - 1];
    RteReturns(p.saved, p.entry, c.state, ack);
  }

  ghost function Do(c: Config, e: Event, z: Zones): Config
    requires Good(c, z) && Legal(c, e, z)
  {
    match e
    case Code(t) => c.(state := t)
    case Exception(entry) => Config(Enter(c.state, entry), c.pending + [Pending(c.state, entry)])
    case Return(ack) =>
      var n := |c.pending| - 1;
      RteReady(c, z, ack);
      Config(Rte(c.state, Extra(c.pending[n].Frames()), ack), c.pending[..n])
  }

  // ---------------------------------------------------------------- each event keeps the frames

  lemma FramesKept(s: State, f: Frames, m: Space, n: Space)
    requires s.Ok() && f.Ok() && Fits(s, f) && FramesIn(s, f, m) && (f.two ==> s.m == 2)
    requires forall i :: 0 <= i < TWO_32 && InFrames(s, f, i) ==> m[i] == n[i]
    ensures FramesIn(s, f, n)
  {
    FrameSame(m, n, Top(s) - f.size, f.word, f.pc, f.sr);
    if f.two {
      FrameSame(m, n, s.Isp() - 8, f.Throwaway(), f.pc, Supervised(f.sr));
    }
  }

  /** Entry writes below the frames of the exceptions already running. */
  lemma IntactAfterEnter(p: Pending, s: State, f: Frames, n: Space, z: Zones)
    requires p.Sound(z) && s.Ok() && z.Hold(s) && f.Ok() && z.Room(s, f) && Fits(s, f)
    requires p.Above(s) && p.Intact(s.mem) && MemoryLeft(s, f, n)
    ensures p.Intact(n)
  {
    hide FramesIn, FramesOf;
    forall i | 0 <= i < TWO_32 && InFrames(p.saved, p.Frames(), i) ensures s.mem[i] == n[i] {
      assert !InFrames(s, f, i);
    }
    FramesKept(p.saved, p.Frames(), s.mem, n);
  }

  lemma EnterKeepsGood(c: Config, e: Entry, z: Zones)
    requires Good(c, z) && Legal(c, Exception(e), z)
    ensures Good(Do(c, Exception(e), z), z)
  {
    hide FramesIn, FramesOf, Enter;
    var s, f, d := c.state, FramesOf(c.state, e), Do(c, Exception(e), z);
    EnterLeaves(s, e);
    forall i | 0 <= i < |c.pending| ensures d.pending[i].Intact(d.state.mem) && d.pending[i].Above(d.state) {
      IntactAfterEnter(c.pending[i], s, f, d.state.mem, z);
    }
  }

  lemma ReturnIs(c: Config, ack: u32, z: Zones)
    requires Good(c, z) && Legal(c, Return(ack), z)
    ensures var p, d := c.pending[|c.pending| - 1], Do(c, Return(ack), z);
      && d.pending == c.pending[..|c.pending| - 1]
      && Back(p.saved, p.Frames(), d.state) && d.state.mem == c.state.mem
  {
    hide Rte, RteStops, FramesIn, FramesOf, Restore, PointersLeft, GetSr;
    var p := c.pending[|c.pending| - 1];
    RteReady(c, z, ack);
    RteReturns(p.saved, p.entry, c.state, ack);
  }

  lemma ReturnKeepsGood(c: Config, ack: u32, z: Zones)
    requires Good(c, z) && Legal(c, Return(ack), z)
    ensures Good(Do(c, Return(ack), z), z)
  {
    hide Rte, RteStops, FramesIn, FramesOf, GetSr, Do;
    ReturnIs(c, ack, z);
  }

  lemma CodeKeepsGood(c: Config, t: State, z: Zones)
    requires Good(c, z) && Legal(c, Code(t), z)
    ensures Good(Do(c, Code(t), z), z)
  {
    hide FramesIn, FramesOf;
    var n := |c.pending|;
    forall i | 0 <= i < n ensures c.pending[i].Above(t) {
      assert i < n - 1 ==> c.pending[i].Above(c.pending[n - 1].saved);
    }
  }

  lemma EventKeepsGood(c: Config, e: Event, z: Zones)
    requires Good(c, z) && Legal(c, e, z)
    ensures Good(Do(c, e, z), z)
  {
    hide Good, Do, Legal;
    match e
    case Code(t) => CodeKeepsGood(c, t, z);
    case Exception(entry) => EnterKeepsGood(c, entry, z);
    case Return(ack) => ReturnKeepsGood(c, ack, z);
  }

  // ---------------------------------------------------------------- runs

  ghost predicate LegalRun(c: Config, events: seq<Event>, z: Zones)
    requires Good(c, z)
    decreases |events|
  {
    events == [] || (Legal(c, events[0], z) && (EventKeepsGood(c, events[0], z); LegalRun(Do(c, events[0], z), events[1..], z)))
  }

  /** The configuration after the first `k` events. */
  ghost function At(c: Config, events: seq<Event>, k: nat, z: Zones): (d: Config)
    requires Good(c, z) && LegalRun(c, events, z) && k <= |events|
    ensures Good(d, z)
    decreases k
  {
    if k == 0 then c
    else
      EventKeepsGood(c, events[0], z);
      At(Do(c, events[0], z), events[1..], k - 1, z)
  }

  /** The rest of a legal run is a legal run. */
  lemma {:induction false} Rest(c: Config, events: seq<Event>, k: nat, z: Zones)
    requires Good(c, z) && LegalRun(c, events, z) && k < |events|
    ensures Legal(At(c, events, k, z), events[k], z)
    ensures At(c, events, k + 1, z) == Do(At(c, events, k, z), events[k], z)
    decreases k
  {
    hide Good, Do, Legal;
    EventKeepsGood(c, events[0], z);
    if k > 0 {
      Rest(Do(c, events[0], z), events[1..], k - 1, z);
    }
  }

  /** In every legal run, every RTE goes back to where the innermost running exception happened: SR, the
      stacked PC and the user, interrupt and master stack pointers. */
  lemma EveryRteReturns(c: Config, events: seq<Event>, k: nat, z: Zones)
    requires Good(c, z) && LegalRun(c, events, z) && k < |events| && events[k].Return?
    ensures var before, after := At(c, events, k, z), At(c, events, k + 1, z);
      && before.pending != []
      && var p := before.pending[|before.pending| - 1];
        && p.Sound(z) && Back(p.saved, p.Frames(), after.state)
        && after.pending == before.pending[..|before.pending| - 1]
  {
    hide Do, FramesOf, At, LegalRun, Back, FramesIn;
    Rest(c, events, k, z);
    ReturnIs(At(c, events, k, z), events[k].ack, z);
  }

  lemma DeepStay(c: Config, e: Event, d: nat, z: Zones)
    requires Good(c, z) && Legal(c, e, z) && |c.pending| >= d && |Do(c, e, z).pending| >= d
    ensures Do(c, e, z).pending[..d] == c.pending[..d]
  {
    hide Enter, Rte;
  }

  /** As long as at least `d` handlers are running, the outermost `d` stay the same. */
  lemma {:induction false} OuterStay(c: Config, events: seq<Event>, a: nat, k: nat, d: nat, z: Zones)
    requires Good(c, z) && LegalRun(c, events, z) && a <= k <= |events|
    requires forall j :: a <= j <= k ==> |At(c, events, j, z).pending| >= d
    ensures At(c, events, k, z).pending[..d] == At(c, events, a, z).pending[..d]
    decreases k
  {
    hide Good, LegalRun, Legal, At, Do;
    if a < k {
      OuterStay(c, events, a, k - 1, d, z);
      Rest(c, events, k - 1, z);
      DeepStay(At(c, events, k - 1, z), events[k - 1], d, z);
    }
  }

  lemma FirstEntry(c: Config, events: seq<Event>, z: Zones)
    requires Good(c, z) && LegalRun(c, events, z) && events != [] && events[0].Exception?
    ensures Accepts(c.state, events[0].entry)
    ensures At(c, events, 1, z).pending == c.pending + [Pending(c.state, events[0].entry)]
  {
    hide Good, Enter;
    Rest(c, events, 0, z);
    assert At(c, events, 0, z) == c;
  }

  /** An exception, code and further exceptions that all return, and the RTE that brings the number of
      running handlers back: the whole goes back to where the exception happened. */
  lemma NestReturns(c: Config, events: seq<Event>, n: nat, z: Zones)
    requires Good(c, z) && LegalRun(c, events, z) && 1 <= n < |events|
    requires events[0].Exception? && events[n].Return?
    requires forall j :: 1 <= j <= n ==> |At(c, events, j, z).pending| > |c.pending|
    requires |At(c, events, n + 1, z).pending| == |c.pending|
    ensures var r := At(c, events, n + 1, z);
      && Accepts(c.state, events[0].entry) && Back(c.state, FramesOf(c.state, events[0].entry), r.state)
      && r.pending == c.pending
  {
    hide FramesOf, Back, Legal, LegalRun, At, Do, Good, Accepts;
    var d := |c.pending| + 1;
    FirstEntry(c, events, z);
    OuterStay(c, events, 1, n, d, z);
    EveryRteReturns(c, events, n, z);
    assert At(c, events, n, z).pending == At(c, events, 1, z).pending;
  }
}
