/** One exception and its RTE: what entry leaves on the stacks, and that RTE takes it back. */
module ExceptionFrames {
  import opened Words
  import opened AddressSpace
  import opened Exceptions

  // ---------------------------------------------------------------- status register

  /** The bits of SR that the 68020 implements (mask 0xf71f). */
  predicate Implemented(sr: u16) {
    Bit(sr, 0x20) == 0 && Bit(sr, 0x40) == 0 && Bit(sr, 0x80) == 0 && Bit(sr, 0x800) == 0
  }

  function HighBits(sr: u16): int {
    Bit(sr, 0x8000) * 0x8000 + Bit(sr, 0x4000) * 0x4000 + Bit(sr, 0x2000) * 0x2000 + Bit(sr, 0x1000) * 0x1000
    + Bit(sr, 0x800) * 0x800 + sr / 0x100 % 8 * 0x100
  }

  function LowBits(sr: u16): int {
    Bit(sr, 0x80) * 0x80 + Bit(sr, 0x40) * 0x40 + Bit(sr, 0x20) * 0x20
    + Bit(sr, 0x10) * 0x10 + Bit(sr, 8) * 8 + Bit(sr, 4) * 4 + Bit(sr, 2) * 2 + Bit(sr, 1)
  }

  lemma SumOfLowBits(sr: u16)
    ensures sr == sr / 0x100 * 0x100 + LowBits(sr)
  {
    BitTaken(sr, 1); BitTaken(sr, 2); BitTaken(sr, 4); BitTaken(sr, 8);
    BitTaken(sr, 0x10); BitTaken(sr, 0x20); BitTaken(sr, 0x40); BitTaken(sr, 0x80);
  }

  lemma SumOfHighBits(sr: u16)
    ensures sr / 0x100 * 0x100 == HighBits(sr)
  {
    BitTaken(sr, 0x800); BitTaken(sr, 0x1000); BitTaken(sr, 0x2000); BitTaken(sr, 0x4000); BitTaken(sr, 0x8000);
    QuotientIs(sr / 0x100, 8, sr / 0x800, sr / 0x100 % 8);
  }

  /** The flags that SetSrNoInt stores, read back. */
  lemma CcrReadsBack(s: State, value: u16)
    requires s.Ok()
    ensures Ccr(SetSrNoInt(s, value)) == Bit(value, 0x10) * 0x10 + Bit(value, 8) * 8 + Bit(value, 4) * 4 + Bit(value, 2) * 2 + Bit(value, 1)
  {
    BitIs(0, Bit(value, 0x10), 0, 0x100);
    BitIs(0, Bit(value, 8), 0, 0x80);
    BitIs(0, Bit(value, 2), 0, 0x80);
    BitIs(0, Bit(value, 1), 0, 0x100);
  }

  /** Writing a value to SR and reading it back gives the value exactly when it has no bit the 68020
      does not implement. */
  lemma SrReadsBack(s: State, value: u16)
    requires s.Ok()
    ensures GetSr(SetSrNoInt(s, value)) == value <==> Implemented(value)
  {
    SumOfLowBits(value);
    SumOfHighBits(value);
    CcrReadsBack(s, value);
  }

  /** Which field each bit of SR shows. */
  lemma SrFields(s: State)
    requires s.Ok()
    ensures var sr := GetSr(s);
      && (Bit(sr, 0x8000) == 1 <==> s.t1 != 0) && (Bit(sr, 0x4000) == 1 <==> s.t0 != 0)
      && (Bit(sr, 0x2000) == 1 <==> s.s != 0) && (Bit(sr, 0x1000) == 1 <==> s.m != 0)
      && sr / 0x100 % 8 * 0x100 == s.mask
      && Bit(sr, 0x10) == Bit(s.x, 0x100) && Bit(sr, 8) == Bit(s.n, 0x80) && (Bit(sr, 4) == 1 <==> s.nz == 0)
      && Bit(sr, 2) == Bit(s.v, 0x80) && Bit(sr, 1) == Bit(s.c, 0x100)
  {
    hide Bit;
    SrBits(s.t1 / 0x8000, s.t0 / 0x4000, s.s / 4, s.m / 2, s.mask / 0x100,
           Bit(s.x, 0x100), Bit(s.n, 0x80), if s.nz == 0 then 1 else 0, Bit(s.v, 0x80), Bit(s.c, 0x100));
  }

  /** The bits of a number put together from them. */
  lemma SrBits(t1: int, t0: int, s: int, m: int, mask: int, x: int, n: int, z: int, v: int, c: int)
    requires 0 <= t1 < 2 && 0 <= t0 < 2 && 0 <= s < 2 && 0 <= m < 2 && 0 <= mask < 8
    requires 0 <= x < 2 && 0 <= n < 2 && 0 <= z < 2 && 0 <= v < 2 && 0 <= c < 2
    ensures var sr := t1 * 0x8000 + t0 * 0x4000 + s * 0x2000 + m * 0x1000 + mask * 0x100 + x * 0x10 + n * 8 + z * 4 + v * 2 + c;
      && Bit(sr, 0x8000) == t1 && Bit(sr, 0x4000) == t0 && Bit(sr, 0x2000) == s && Bit(sr, 0x1000) == m
      && sr / 0x100 % 8 == mask
      && Bit(sr, 0x10) == x && Bit(sr, 8) == n && Bit(sr, 4) == z && Bit(sr, 2) == v && Bit(sr, 1) == c
  {
    var ccr := x * 0x10 + n * 8 + z * 4 + v * 2 + c;
    var high := t1 * 8 + t0 * 4 + s * 2 + m;
    var sr := high * 0x1000 + mask * 0x100 + ccr;
    MaskBits(high, mask, ccr);
    BitIs(0, t1, sr - t1 * 0x8000, 0x8000);
    BitIs(t1, t0, sr - t1 * 0x8000 - t0 * 0x4000, 0x4000);
    BitIs(t1 * 2 + t0, s, m * 0x1000 + mask * 0x100 + ccr, 0x2000);
    BitIs(t1 * 4 + t0 * 2 + s, m, mask * 0x100 + ccr, 0x1000);
    var above := high * 0x10 + mask;
    BitIs(above * 8, x, n * 8 + z * 4 + v * 2 + c, 0x10);
    BitIs(above * 0x10 + x, n, z * 4 + v * 2 + c, 8);
    BitIs(above * 0x20 + x * 2 + n, z, v * 2 + c, 4);
    BitIs(above * 0x40 + x * 4 + n * 2 + z, v, c, 2);
    BitIs(above * 0x80 + x * 8 + n * 4 + z * 2 + v, c, 0, 1);
  }

  lemma NoOtherBits(high: nat, mask: nat, ccr: nat)
    requires mask < 8 && ccr < 0x20 && high < 0x10
    ensures Implemented(high * 0x1000 + mask * 0x100 + ccr)
  {
    var above := high * 0x10 + mask;
    BitIs(above * 4, 0, ccr, 0x20);
    BitIs(above * 2, 0, ccr, 0x40);
    BitIs(above, 0, ccr, 0x80);
    BitIs(high, 0, mask * 0x100 + ccr, 0x800);
  }

  lemma SrIsImplemented(s: State)
    requires s.Ok()
    ensures Implemented(GetSr(s))
  {
    var high := s.t1 / 0x1000 + s.t0 / 0x1000 + s.s / 2 + s.m / 2;
    assert s.t1 + s.t0 + s.s * 0x800 + s.m * 0x800 == high * 0x1000;
    NoOtherBits(high, s.mask / 0x100, Ccr(s));
  }

  // ---------------------------------------------------------------- stack pointers

  /** Switching S and M banks the visible stack pointer and loses none of the three. */
  lemma BankingKeepsPointers(s: State, s': u32, m': u32)
    requires s.Ok() && (s' == 0 || s' == 4) && (m' == 0 || m' == 2)
    ensures var r := SetSm(s, s', m');
      && r.Usp() == s.Usp() && r.Isp() == s.Isp() && r.Msp() == s.Msp()
      && r.s == s' && r.m == m'
  {
  }

  predicate SamePointers(s: State, t: State)
    requires s.Ok() && t.Ok()
  {
    s.Usp() == t.Usp() && s.Isp() == t.Isp() && s.Msp() == t.Msp()
  }

  // ---------------------------------------------------------------- one frame

  predicate FrameAt(m: Space, a: u32, word: u16, pc: u32, sr: u16)
    requires a + 8 <= TWO_32
  {
    Load16(m, a) == sr && Load32(m, a + 2) == pc && Load16(m, a + 6) == word
  }

  predicate SameOutside(m: Space, n: Space, low: int, high: int) {
    forall i :: 0 <= i < TWO_32 && !(low <= i < high) ==> m[i] == n[i]
  }

  predicate SameInside(m: Space, n: Space, low: int, high: int) {
    forall i :: 0 <= i < TWO_32 && low <= i < high ==> m[i] == n[i]
  }

  lemma FramePushed(s: State, word: u16, pc: u32, sr: u16)
    requires 8 <= s.a7
    ensures var r := PushFrame(s, word, pc, sr);
      && r == s.(a7 := s.a7 - 8, mem := r.mem)
      && FrameAt(r.mem, s.a7 - 8, word, pc, sr)
      && SameOutside(s.mem, r.mem, s.a7 - 8, s.a7)
  {
    var a := s.a7;
    var m1 := Store16(s.mem, a - 2, word);
    var m2 := Store32(m1, a - 6, pc);
    var m3 := Store16(m2, a - 8, sr);
    Stored16(s.mem, a - 2, word);
    Stored32(m1, a - 6, pc);
    Stored16(m2, a - 8, sr);
    SameLoad16(m3, m1, a - 2);
    SameLoad32(m3, m2, a - 6);
  }

  lemma FrameSame(m: Space, n: Space, a: u32, word: u16, pc: u32, sr: u16)
    requires a + 8 <= TWO_32 && FrameAt(m, a, word, pc, sr) && SameInside(m, n, a, a + 8)
    ensures FrameAt(n, a, word, pc, sr)
  {
    SameLoad16(m, n, a);
    SameLoad32(m, n, a + 2);
    SameLoad16(m, n, a + 6);
  }

  lemma FormatIs(s: State, word: u16, pc: u32, sr: u16)
    requires s.a7 + 8 <= TWO_32 && FrameAt(s.mem, s.a7, word, pc, sr)
    ensures Format(s) == word / 0x1000
  {
  }

  lemma FormatPopped(s: State, size: u32, ack: u32)
    requires s.Ok() && s.level <= 0x700
    requires (Format(s) == 0 && size == 8) || (Format(s) == 2 && size == 12)
    ensures RteStops(s, 0) && RteLoop(s, 0, ack) == PopFrame(s, size, ack)
  {
  }

  /** RTE over an intact frame of format 0 or 2. */
  lemma FramePopped(s: State, word: u16, pc: u32, sr: u16, size: u32, ack: u32)
    requires s.Ok() && s.level <= 0x700 && s.a7 + 8 <= TWO_32 && FrameAt(s.mem, s.a7, word, pc, sr)
    requires (word / 0x1000 == 0 && size == 8) || (word / 0x1000 == 2 && size == 12)
    ensures RteStops(s, 0)
    ensures RteLoop(s, 0, ack) == CheckInterrupts(Restore(s, size, pc, sr), ack)
  {
    FormatIs(s, word, pc, sr);
    FormatPopped(s, size, ack);
    assert U32(s.a7 + 2) == s.a7 + 2;
    assert Restore(s, size, Load32(s.mem, U32(s.a7 + 2)), Load16(s.mem, s.a7)) == Restore(s, size, pc, sr);
  }

  /** RTE over an intact throwaway frame. */
  lemma ThrowawayPopped(s: State, word: u16, pc: u32, sr: u16, ack: u32)
    requires s.Ok() && s.level <= 0x700 && s.a7 + 8 <= TWO_32 && FrameAt(s.mem, s.a7, word, pc, sr)
    requires word / 0x1000 == 1
    requires RteStops(SetSrNoInt(s.(a7 := U32(s.a7 + 8)), sr), 0)
    ensures DropThrowaway(s) == SetSrNoInt(s.(a7 := U32(s.a7 + 8)), sr)
    ensures RteStops(s, 1) && RteLoop(s, 1, ack) == RteLoop(DropThrowaway(s), 0, ack)
  {
    assert DropThrowaway(s) == SetSrNoInt(s.(a7 := U32(s.a7 + 8)), sr);
  }

  // ---------------------------------------------------------------- entry

  /** What can start an exception: m68ki_exception_trap and the TRAP instruction (frame format 2 or 0),
      an exception that stacks the address `pc`, and an interrupt. */
  datatype Entry =
    | TrapEntry(vector: u8, format2: bool)
    | FaultEntry(address: u32, vector: u8)
    | InterruptEntry(level: u32, ack: u32)

  predicate Accepts(s: State, e: Entry) {
    e.InterruptEntry? ==> e.level <= 7 && Taken(s, e.level, e.ack)
  }

  function Enter(s: State, e: Entry): (r: State)
    requires s.Ok() && Accepts(s, e)
    ensures r.Ok()
  {
    match e
    case TrapEntry(vector, format2) => Trap(s, vector, format2)
    case FaultEntry(address, vector) => Fault(s, address, vector)
    case InterruptEntry(level, ack) => Interrupt(s, level, ack)
  }

  function StackedPc(s: State, e: Entry): u32 {
    if e.FaultEntry? then e.address else s.pc
  }

  function Vector(e: Entry): u8
    requires e.InterruptEntry? ==> e.level <= 7 && AckVector(e.level, e.ack).Some?
  {
    if e.InterruptEntry? then AckVector(e.level, e.ack).value else e.vector
  }

  /** What an exception puts on the stacks: a frame of `size` bytes on the supervisor stack in use and,
      when `two` holds, a throwaway frame on the interrupt stack. */
  datatype Frames = Frames(size: u32, word: u16, pc: u32, sr: u16, two: bool)
  {
    predicate Ok() {
      (word / 0x1000 == 0 && size == 8) || (word / 0x1000 == 2 && size == 12 && !two)
    }

    function Throwaway(): u16
      requires Ok()
    {
      0x1000 + word % 0x1000
    }
  }

  function FramesOf(s: State, e: Entry): (f: Frames)
    requires s.Ok() && Accepts(s, e)
    ensures f.Ok() && (f.two ==> s.m == 2)
  {
    var word := Vector(e) * 4;
    if e.TrapEntry? && e.format2 then Frames(12, 0x2000 + word, s.pc, GetSr(s), false)
    else Frames(8, word, StackedPc(s, e), GetSr(s), e.InterruptEntry? && s.m == 2)
  }

  function InterruptBytes(s: State, f: Frames): u32 {
    if f.two then 8 else if s.m == 2 then 0 else f.size
  }

  function MasterBytes(s: State, f: Frames): u32 {
    if s.m == 2 then f.size else 0
  }

  /** There is room on the stacks for the frames, and they do not overlap. */
  predicate Fits(s: State, f: Frames)
    requires s.Ok()
  {
    && InterruptBytes(s, f) <= s.Isp() && MasterBytes(s, f) <= s.Msp()
    && (f.two ==> s.Isp() <= s.Msp() - f.size || s.Msp() <= s.Isp() - 8)
  }

  /** A byte of the frames. */
  predicate InFrames(s: State, f: Frames, i: int)
    requires s.Ok()
  {
    s.Isp() - InterruptBytes(s, f) <= i < s.Isp() || s.Msp() - MasterBytes(s, f) <= i < s.Msp()
  }

  /** The supervisor stack pointer in use once S is set. */
  function Top(s: State): u32
    requires s.Ok()
  {
    if s.m == 2 then s.Msp() else s.Isp()
  }

  /** The registers after entry from `s`. */
  predicate PointersLeft(s: State, f: Frames, r: State)
    requires s.Ok()
  {
    && r.Ok() && r.s == 4 && r.m == (if f.two then 0 else s.m)
    && r.Usp() == s.Usp() && r.Isp() == s.Isp() - InterruptBytes(s, f) && r.Msp() == s.Msp() - MasterBytes(s, f)
  }

  /** The frames are in memory. */
  predicate FramesIn(s: State, f: Frames, n: Space)
    requires s.Ok() && f.Ok() && Fits(s, f)
  {
    && FrameAt(n, Top(s) - f.size, f.word, f.pc, f.sr)
    && (f.two ==> FrameAt(n, s.Isp() - 8, f.Throwaway(), f.pc, Supervised(f.sr)))
  }

  /** The memory after entry from `s`. */
  ghost predicate MemoryLeft(s: State, f: Frames, n: Space)
    requires s.Ok() && f.Ok() && Fits(s, f)
  {
    && (forall i :: 0 <= i < TWO_32 && !InFrames(s, f, i) ==> n[i] == s.mem[i])
    && FramesIn(s, f, n)
  }

  function PushEntry(s: State, f: Frames): State {
    PushFrame(if f.size == 12 then Push32(s, s.ppc) else s, f.word, f.pc, f.sr)
  }

  function PushThrowaway(s: State, f: Frames): State
    requires s.Ok() && f.Ok()
  {
    PushFrame(SetSm(s, s.s, 0), f.Throwaway(), f.pc, Supervised(f.sr))
  }

  /** Both frames, from a state already in supervisor mode. */
  function Push(s: State, f: Frames): (r: State)
    requires s.Ok() && f.Ok()
    ensures r.Ok()
  {
    if f.two then PushThrowaway(PushEntry(s, f), f) else PushEntry(s, f)
  }

  lemma EntryPushed(s: State, f: Frames)
    requires f.Ok() && f.size <= s.a7
    ensures var r := PushEntry(s, f);
      && r == s.(a7 := s.a7 - f.size, mem := r.mem)
      && FrameAt(r.mem, r.a7, f.word, f.pc, f.sr) && SameOutside(s.mem, r.mem, r.a7, s.a7)
  {
    if f.size == 12 {
      Stored32(s.mem, s.a7 - 4, s.ppc);
      FramePushed(Push32(s, s.ppc), f.word, f.pc, f.sr);
    } else {
      FramePushed(s, f.word, f.pc, f.sr);
    }
  }

  lemma ThrowawayPushed(s: State, f: Frames)
    requires s.Ok() && f.Ok() && s.s == 4 && s.m == 2 && 8 <= s.Isp()
    ensures var r := PushThrowaway(s, f);
      && r.Ok() && r.s == 4 && r.m == 0
      && r.Usp() == s.Usp() && r.Msp() == s.Msp() && r.Isp() == s.Isp() - 8
      && FrameAt(r.mem, s.Isp() - 8, f.Throwaway(), f.pc, Supervised(f.sr))
      && SameOutside(s.mem, r.mem, s.Isp() - 8, s.Isp())
  {
    BankingKeepsPointers(s, 4, 0);
    FramePushed(SetSm(s, 4, 0), f.Throwaway(), f.pc, Supervised(f.sr));
  }

  /** Entry from a state whose stack pointers and memory are those of `s`. */
  predicate Ready(s: State, j: State) {
    s.Ok() && j.Ok() && j.s == 4 && j.m == s.m && SamePointers(s, j) && j.mem == s.mem
  }

  lemma OneFramePointers(s: State, j: State, f: Frames)
    requires Ready(s, j) && f.Ok() && Fits(s, f) && !f.two
    ensures PointersLeft(s, f, Push(j, f))
  {
    EntryPushed(j, f);
  }

  lemma OneFrameMemory(s: State, j: State, f: Frames)
    requires Ready(s, j) && f.Ok() && Fits(s, f) && !f.two
    ensures MemoryLeft(s, f, Push(j, f).mem)
  {
    EntryPushed(j, f);
    assert j.a7 == Top(s);
  }

  lemma TwoFramesPointers(s: State, j: State, f: Frames)
    requires Ready(s, j) && f.Ok() && Fits(s, f) && f.two && s.m == 2
    ensures PushEntry(j, f).Ok() && PointersLeft(s, f, Push(j, f))
  {
    EntryPushed(j, f);
    ThrowawayPushed(PushEntry(j, f), f);
  }

  /** Two writes, the second below or above the first. */
  lemma TwoWrites(m: Space, n: Space, o: Space, a: int, b: int, c: int, d: int)
    requires SameOutside(m, n, a, b) && SameOutside(n, o, c, d) && (b <= c || d <= a)
    ensures SameInside(n, o, a, b)
    ensures forall i :: 0 <= i < TWO_32 && !(a <= i < b) && !(c <= i < d) ==> o[i] == m[i]
  {
  }

  lemma BothFramesIn(s: State, f: Frames, m: Space, n: Space)
    requires s.Ok() && f.Ok() && Fits(s, f) && f.two && s.m == 2
    requires SameOutside(s.mem, m, s.Msp() - 8, s.Msp()) && FrameAt(m, s.Msp() - 8, f.word, f.pc, f.sr)
    requires SameOutside(m, n, s.Isp() - 8, s.Isp()) && FrameAt(n, s.Isp() - 8, f.Throwaway(), f.pc, Supervised(f.sr))
    ensures MemoryLeft(s, f, n)
  {
    TwoWrites(s.mem, m, n, s.Msp() - 8, s.Msp(), s.Isp() - 8, s.Isp());
    FrameSame(m, n, s.Msp() - 8, f.word, f.pc, f.sr);
  }

  lemma TwoFramesMemory(s: State, j: State, f: Frames)
    requires Ready(s, j) && f.Ok() && Fits(s, f) && f.two && s.m == 2
    ensures MemoryLeft(s, f, Push(j, f).mem)
  {
    hide PushFrame, PushEntry, SetSm, Load16, Load32;
    EntryPushed(j, f);
    ThrowawayPushed(PushEntry(j, f), f);
    BothFramesIn(s, f, PushEntry(j, f).mem, PushThrowaway(PushEntry(j, f), f).mem);
  }

  // ---------------------------------------------------------------- entry and return

  /** The state in supervisor mode, before any frame. */
  function Entered(s: State, e: Entry): (r: State)
    requires s.Ok()
    ensures r.Ok()
  {
    if e.InterruptEntry? && e.level <= 7 then InitException(s.(stopped := Resumed(s.stopped))).(mask := e.level * 0x100)
    else InitException(s)
  }

  lemma EnteredIs(s: State, e: Entry)
    requires s.Ok() && Accepts(s, e)
    ensures Ready(s, Entered(s, e)) && Entered(s, e).pc == s.pc && Entered(s, e).ppc == s.ppc && Entered(s, e).level == s.level
  {
  }

  lemma AwakeSr(s: State)
    requires s.Ok()
    ensures GetSr(s.(stopped := Resumed(s.stopped))) == GetSr(s)
  {
  }

  lemma TrapPushes(s: State, e: Entry)
    requires s.Ok() && e.TrapEntry?
    ensures Enter(s, e) == JumpVector(Push(Entered(s, e), FramesOf(s, e)), e.vector)
  {
    hide GetSr, PushFrame, Push32;
    EnteredIs(s, e);
  }

  lemma FaultPushes(s: State, e: Entry)
    requires s.Ok() && e.FaultEntry?
    ensures Enter(s, e) == JumpVector(Push(Entered(s, e), FramesOf(s, e)), e.vector)
  {
    hide GetSr, PushFrame, Push32;
  }

  lemma InterruptPushes(s: State, e: Entry)
    requires s.Ok() && Accepts(s, e) && e.InterruptEntry?
    ensures Enter(s, e) == Push(Entered(s, e), FramesOf(s, e)).(pc := Enter(s, e).pc)
  {
    hide GetSr, PushFrame, SetSm, Load32;
    AwakeSr(s);
    EnteredIs(s, e);
  }

  /** The other fields after entry: no trace, the mask of an interrupt is its level, and an interrupt ends
      the stopped state; nothing else is changed. */
  predicate ControlLeft(s: State, e: Entry, r: State) {
    && r.t1 == 0 && r.t0 == 0
    && r.mask == (if e.InterruptEntry? then e.level * 0x100 else s.mask)
    && r.stopped == (if e.InterruptEntry? then s.stopped - s.stopped % 2 else s.stopped)
    && r.x == s.x && r.n == s.n && r.nz == s.nz && r.v == s.v && r.c == s.c
    && r.vbr == s.vbr && r.ppc == s.ppc && r.level == s.level
  }

  /** Execution goes on at the longword that the vector selects, as it is after the frames are written; for
      an interrupt as it was before, and where that is 0 at that of vector 15. */
  predicate Goes(s: State, e: Entry, r: State)
    requires Accepts(s, e)
  {
    if e.InterruptEntry? then
      var target := Load32(s.mem, U32(s.vbr + 4 * Vector(e)));
      r.pc == if target == 0 then Load32(s.mem, U32(s.vbr + 60)) else target
    else r.pc == Load32(r.mem, U32(s.vbr + 4 * Vector(e)))
  }

  lemma PushKeeps(s: State, f: Frames)
    requires s.Ok() && f.Ok()
    ensures var r := Push(s, f);
      r == s.(a7 := r.a7, bank := r.bank, s := r.s, m := r.m, mem := r.mem)
  {
    hide PushFrame, Store32;
  }

  lemma EnterGoes(s: State, e: Entry)
    requires s.Ok() && Accepts(s, e)
    ensures ControlLeft(s, e, Enter(s, e)) && Goes(s, e, Enter(s, e))
  {
    hide Load32, PushFrame, Push, GetSr;
    var j, f := Entered(s, e), FramesOf(s, e);
    PushKeeps(j, f);
    match e {
      case TrapEntry(_, _) => TrapPushes(s, e);
      case FaultEntry(_, _) => FaultPushes(s, e);
      case InterruptEntry(_, _) => InterruptPushes(s, e);
    }
  }

  /** A format 2 frame ends in the address of the instruction. */
  lemma AddressPushed(s: State, f: Frames)
    requires f.Ok() && f.size == 12 <= s.a7
    ensures Load32(PushEntry(s, f).mem, s.a7 - 4) == s.ppc
  {
    hide PushFrame, Load32, Store32;
    Stored32(s.mem, s.a7 - 4, s.ppc);
    FramePushed(Push32(s, s.ppc), f.word, f.pc, f.sr);
    SameLoad32(Push32(s, s.ppc).mem, PushEntry(s, f).mem, s.a7 - 4);
  }

  lemma AddressLeft(s: State, j: State, f: Frames)
    requires Ready(s, j) && j.ppc == s.ppc && f.Ok() && Fits(s, f) && f.size == 12
    ensures Load32(Push(j, f).mem, Top(s) - 4) == s.ppc
  {
    hide PushFrame, Load32;
    AddressPushed(j, f);
  }

  /** The frames do not cover the longword at `a`, which goes on at address 0 if need be. */
  predicate Apart(s: State, f: Frames, a: u32)
    requires s.Ok()
  {
    !InFrames(s, f, a) && !InFrames(s, f, U32(a + 1)) && !InFrames(s, f, U32(a + 2)) && !InFrames(s, f, U32(a + 3))
  }

  /** A longword that the frames do not cover is still there after entry. */
  lemma LongKept(s: State, f: Frames, n: Space, a: u32)
    requires s.Ok() && f.Ok() && Fits(s, f) && MemoryLeft(s, f, n)
    requires Apart(s, f, a)
    ensures Load32(n, a) == Load32(s.mem, a)
  {
    hide FramesIn, InFrames;
    assert U32(U32(a + 2) + 1) == U32(a + 3);
  }

  /** Entry leaves its frames on the stacks, the address of the instruction in a format 2 frame, moves only
      the stack pointers in use, writes nothing else, and goes on at the handler that the vector selects,
      which is that of the old memory unless the frames cover the vector. */
  lemma EnterLeaves(s: State, e: Entry)
    requires s.Ok() && Accepts(s, e) && Fits(s, FramesOf(s, e))
    ensures PointersLeft(s, FramesOf(s, e), Enter(s, e))
    ensures MemoryLeft(s, FramesOf(s, e), Enter(s, e).mem)
    ensures FramesOf(s, e).size == 12 ==> Load32(Enter(s, e).mem, Top(s) - 4) == s.ppc
    ensures ControlLeft(s, e, Enter(s, e)) && Goes(s, e, Enter(s, e))
    ensures !e.InterruptEntry? && Apart(s, FramesOf(s, e), U32(s.vbr + 4 * Vector(e)))
        ==> Enter(s, e).pc == Load32(s.mem, U32(s.vbr + 4 * Vector(e)))
  {
    hide *;
    EnterPushes(s, e);
    EnterGoes(s, e);
    if !e.InterruptEntry? && Apart(s, FramesOf(s, e), U32(s.vbr + 4 * Vector(e))) {
      TargetKept(s, e);
    }
  }

  lemma TargetKept(s: State, e: Entry)
    requires s.Ok() && Accepts(s, e) && Fits(s, FramesOf(s, e)) && !e.InterruptEntry?
    requires MemoryLeft(s, FramesOf(s, e), Enter(s, e).mem) && Goes(s, e, Enter(s, e))
    requires Apart(s, FramesOf(s, e), U32(s.vbr + 4 * Vector(e)))
    ensures Enter(s, e).pc == Load32(s.mem, U32(s.vbr + 4 * Vector(e)))
  {
    hide Enter, FramesOf, Load32, MemoryLeft, Apart, U32, Vector;
    LongKept(s, FramesOf(s, e), Enter(s, e).mem, U32(s.vbr + 4 * Vector(e)));
  }

  lemma EnterPushes(s: State, e: Entry)
    requires s.Ok() && Accepts(s, e) && Fits(s, FramesOf(s, e))
    ensures PointersLeft(s, FramesOf(s, e), Enter(s, e))
    ensures MemoryLeft(s, FramesOf(s, e), Enter(s, e).mem)
    ensures FramesOf(s, e).size == 12 ==> Load32(Enter(s, e).mem, Top(s) - 4) == s.ppc
  {
    hide Enter, FramesOf, Push, Load16, Load32, Entered;
    var f, j := FramesOf(s, e), Entered(s, e);
    EnteredIs(s, e);
    match e {
      case TrapEntry(_, _) => TrapPushes(s, e);
      case FaultEntry(_, _) => FaultPushes(s, e);
      case InterruptEntry(_, _) => InterruptPushes(s, e);
    }
    if f.two {
      TwoFramesPointers(s, j, f);
      TwoFramesMemory(s, j, f);
    } else {
      OneFramePointers(s, j, f);
      OneFrameMemory(s, j, f);
      if f.size == 12 {
        AddressLeft(s, j, f);
      }
    }
  }

  /** The vector of an interrupt: 24 and the level for an autovector, 24 for a spurious interrupt, else the
      one the device gives; it is taken when that is a byte and the processor is not halted. */
  lemma InterruptVector(s: State, level: u32, ack: u32)
    requires s.Ok() && level <= 7
    ensures var e := InterruptEntry(level, ack);
      && (Accepts(s, e) <==> s.stopped < 2 && (ack < 0x100 || ack >= 0xffff_fffe))
      && (Accepts(s, e) ==> Vector(e) == if ack == 0xffff_ffff then 24 + level else if ack == 0xffff_fffe then 24 else ack)
  {
  }

  /** A check for interrupts takes one exactly when its level is above the mask and it is accepted; one
      that is not accepted only ends the stopped state. */
  lemma CheckTakes(s: State, ack: u32)
    requires s.Ok() && s.level <= 0x700
    ensures var e := InterruptEntry(s.level / 0x100, ack);
      CheckInterrupts(s, ack) == if s.level <= s.mask then s
                                 else if Accepts(s, e) then Enter(s, e)
                                 else s.(stopped := s.stopped - s.stopped % 2)
  {
    hide TakeInterrupt;
  }

  /** RTE in user mode is a privilege violation, vector 8, that stacks the address of the instruction; a
      frame of an unknown format is a format error, vector 14, that stacks the PC. */
  lemma RteRefuses(s: State, ack: u32)
    requires s.Ok() && s.level <= 0x700
    ensures s.s == 0 ==> Rte(s, 0, ack) == Enter(s, FaultEntry(s.ppc, 8))
    ensures s.s != 0 && Format(s) != 0 && Format(s) != 1 && Format(s) != 2
        ==> RteStops(s, 0) && Rte(s, 0, ack) == Enter(s, FaultEntry(s.pc, 14))
  {
    hide Fault, Format;
  }

  /** The handler is about to execute RTE: its stack pointers and mode are those it started with, and
      the frames are still there. */
  ghost predicate Finished(s: State, f: Frames, t: State)
    requires s.Ok() && f.Ok()
  {
    Fits(s, f) && PointersLeft(s, f, t) && FramesIn(s, f, t.mem) && t.level <= 0x700
  }

  /** The number of throwaway frames RTE meets. */
  function Extra(f: Frames): nat {
    if f.two then 1 else 0
  }

  /** `r` is back where the exception happened: SR, PC and the three stack pointers. */
  predicate Back(s: State, f: Frames, r: State)
    requires s.Ok()
  {
    r.Ok() && SamePointers(s, r) && GetSr(r) == f.sr && r.pc == f.pc
  }

  lemma RestoreIsBack(s: State, f: Frames, t: State)
    requires s.Ok() && t.Ok() && f.Ok() && Fits(s, f) && f.sr == GetSr(s)
    requires t.s == 4 && t.m == s.m && t.Usp() == s.Usp() && t.a7 == Top(s) - f.size
    requires s.m == 2 ==> t.Isp() == s.Isp()
    requires s.m == 0 ==> t.Msp() == s.Msp()
    ensures Back(s, f, Restore(t, f.size, f.pc, f.sr)) && Restore(t, f.size, f.pc, f.sr).mem == t.mem
  {
    hide GetSr;
    var u := t.(a7 := U32(t.a7 + f.size), pc := f.pc);
    SrIsImplemented(s);
    SrReadsBack(u, f.sr);
  }

  /** RTE at the end of a handler that leaves the frames intact: back to where the exception happened,
      whatever the handler did, and then the usual check for a pending interrupt. */
  lemma OneFrameReturns(s: State, f: Frames, t: State, ack: u32)
    requires s.Ok() && f.Ok() && Finished(s, f, t) && f.sr == GetSr(s) && !f.two
    ensures RteStops(t, 0) && Back(s, f, Restore(t, f.size, f.pc, f.sr))
    ensures Rte(t, 0, ack) == CheckInterrupts(Restore(t, f.size, f.pc, f.sr), ack)
  {
    hide GetSr, Load16, Load32, Restore, CheckInterrupts, RteLoop;
    FramePopped(t, f.word, f.pc, f.sr, f.size, ack);
    RestoreIsBack(s, f, t);
  }

  lemma ModeBits(high: nat, supervisor: nat, low: nat)
    requires supervisor < 2 && low < 0x1000 && high < 4
    ensures var sr := high * 0x4000 + supervisor * 0x2000 + 0x1000 + low;
      Bit(Supervised(sr), 0x2000) == 1 && Bit(Supervised(sr), 0x1000) == 1
  {
    BitIs(high, supervisor, 0x1000 + low, 0x2000);
    BitIs(high, 1, 0x1000 + low, 0x2000);
    BitIs(high * 2 + 1, 1, low, 0x1000);
  }

  lemma MasterBits(s: State)
    requires s.Ok() && s.m == 2
    ensures Bit(Supervised(GetSr(s)), 0x2000) == 1 && Bit(Supervised(GetSr(s)), 0x1000) == 1
  {
    ModeBits(s.t1 / 0x4000 + s.t0 / 0x4000, s.s / 4, s.mask + Ccr(s));
  }

  lemma ModeSet(s: State, value: u16)
    requires s.Ok() && Bit(value, 0x2000) == 1 && Bit(value, 0x1000) == 1
    ensures var r := SetSrNoInt(s, value);
      && r.s == 4 && r.m == 2 && SamePointers(s, r) && r.mem == s.mem && r.level == s.level && r.a7 == r.Msp()
  {
  }

  lemma TwoFramesReturn(s: State, f: Frames, t: State, ack: u32)
    requires s.Ok() && f.Ok() && Finished(s, f, t) && f.sr == GetSr(s) && f.two && s.m == 2
    ensures RteStops(t, 1) && Back(s, f, Restore(DropThrowaway(t), f.size, f.pc, f.sr))
    ensures Rte(t, 1, ack) == CheckInterrupts(Restore(DropThrowaway(t), f.size, f.pc, f.sr), ack)
  {
    hide GetSr, Load16, Load32, Restore, CheckInterrupts, RteLoop, SetSrNoInt, DropThrowaway, RteStops;
    var t' := t.(a7 := U32(t.a7 + 8));
    var u := SetSrNoInt(t', Supervised(f.sr));
    MasterBits(s);
    ModeSet(t', Supervised(f.sr));
    FramePopped(u, f.word, f.pc, f.sr, f.size, ack);
    ThrowawayPopped(t, f.Throwaway(), f.pc, Supervised(f.sr), ack);
    RestoreIsBack(s, f, u);
  }

  lemma MaskBits(high: nat, mask: nat, ccr: nat)
    requires high < 0x10 && mask < 8 && ccr < 0x100
    ensures (high * 0x1000 + mask * 0x100 + ccr) / 0x100 % 8 == mask
  {
    QuotientIs(high * 0x1000 + mask * 0x100 + ccr, 0x100, high * 0x10 + mask, ccr);
    QuotientIs(high * 0x10 + mask, 8, high * 2, mask);
  }

  lemma SrMask(s: State)
    requires s.Ok()
    ensures GetSr(s) / 0x100 % 8 * 0x100 == s.mask
  {
    var high := s.t1 / 0x1000 + s.t0 / 0x1000 + s.s / 2 + s.m / 2;
    MaskBits(high, s.mask / 0x100, Ccr(s));
  }

  /** The state RTE restores over intact frames. */
  function Unwound(f: Frames, t: State): (r: State)
    requires t.Ok()
    ensures r.Ok() && r.level == t.level && r.mem == t.mem && r.mask == f.sr / 0x100 % 8 * 0x100
  {
    Restore(if f.two then DropThrowaway(t) else t, f.size, f.pc, f.sr)
  }

  /** RTE at the end of a handler that leaves its frames intact is back where the exception happened,
      whatever the handler did besides, and then takes a pending interrupt above the restored mask. */
  lemma RteReturns(s: State, e: Entry, t: State, ack: u32)
    requires s.Ok() && Accepts(s, e) && Finished(s, FramesOf(s, e), t)
    ensures var f := FramesOf(s, e);
      && RteStops(t, Extra(f)) && Rte(t, Extra(f), ack) == CheckInterrupts(Unwound(f, t), ack)
      && Back(s, f, Unwound(f, t))
      && (t.level <= s.mask ==> Rte(t, Extra(f), ack) == Unwound(f, t))
  {
    hide GetSr, Rte, RteStops, Restore, DropThrowaway, Enter;
    var f := FramesOf(s, e);
    if f.two {
      TwoFramesReturn(s, f, t, ack);
    } else {
      OneFrameReturns(s, f, t, ack);
    }
    SrMask(s);
  }
}
