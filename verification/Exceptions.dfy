/** Exception entry and RTE of the 68020 (mushashi/m68kcpu.h, the rte handler of mushashi/m68k_in.c)
    as functions on the processor state and memory. */
module Exceptions {
  import opened Words
  import opened AddressSpace

  /** The processor fields these operations use. `bank` is the array of saved stack pointers: user at
      0, interrupt at 4, master at 6; `a7` is the visible stack pointer. Flags hold the values the C
      fields hold: `s` is 0 or 4, `m` is 0 or 2, `x` and `c` count by bit 8, `n` and `v` by bit 7, and
      `nz` is zero when the Z condition holds. */
  datatype State = State(
    a7: u32, bank: seq<u32>, pc: u32, ppc: u32, vbr: u32,
    t1: u32, t0: u32, s: u32, m: u32, mask: u32, x: u32, n: u32, nz: u32, v: u32, c: u32,
    level: u32, stopped: u32, mem: Space)
  {
    predicate Ok() {
      && |bank| == 7
      && (t1 == 0 || t1 == 0x8000) && (t0 == 0 || t0 == 0x4000)
      && (s == 0 || s == 4) && (m == 0 || m == 2)
      && mask <= 0x700 && mask % 0x100 == 0
    }

    /** `FLAG_S | ((FLAG_S >> 1) & FLAG_M)`. */
    function Active(): u32
      requires Ok()
    {
      if s == 4 then 4 + m else 0
    }

    // The logical stack pointers, as m68k_get_reg shows them.
    function Usp(): u32
      requires Ok()
    {
      if s != 0 then bank[0] else a7
    }

    function Isp(): u32
      requires Ok()
    {
      if s != 0 && m == 0 then a7 else bank[4]
    }

    function Msp(): u32
      requires Ok()
    {
      if s != 0 && m != 0 then a7 else bank[6]
    }
  }

  // ---------------------------------------------------------------- status register

  function Ccr(s: State): u32 {
    Bit(s.x, 0x100) * 0x10 + Bit(s.n, 0x80) * 8 + (if s.nz == 0 then 4 else 0) + Bit(s.v, 0x80) * 2 + Bit(s.c, 0x100)
  }

  /** m68ki_get_sr: the fields occupy different bits, so the C `|` adds them. */
  function GetSr(s: State): u16
    requires s.Ok()
  {
    s.t1 + s.t0 + s.s * 0x800 + s.m * 0x800 + s.mask + Ccr(s)
  }

  /** m68ki_set_sm_flag: bank the visible stack pointer, change S and M, show the new one. */
  function SetSm(s: State, s': u32, m': u32): (r: State)
    requires s.Ok() && (s' == 0 || s' == 4) && (m' == 0 || m' == 2)
    ensures r.Ok()
  {
    var bank := s.bank[s.Active() := s.a7];
    s.(bank := bank, s := s', m := m', a7 := bank[if s' == 4 then 4 + m' else 0])
  }

  /** m68ki_set_ccr. */
  function SetCcr(s: State, value: u16): State {
    s.(x := Bit(value, 0x10) * 0x100, n := Bit(value, 8) * 0x80, nz := 1 - Bit(value, 4),
       v := Bit(value, 2) * 0x80, c := Bit(value, 1) * 0x100)
  }

  /** The part of m68ki_set_sr_noint before S and M. */
  function SetFlags(s: State, value: u16): (r: State)
    requires s.Ok()
    ensures r.Ok() && r.s == s.s && r.m == s.m
  {
    SetCcr(s.(t1 := Bit(value, 0x8000) * 0x8000, t0 := Bit(value, 0x4000) * 0x4000, mask := value / 0x100 % 8 * 0x100),
           value)
  }

  /** m68ki_set_sr_noint, for the 68020 mask 0xf71f. */
  function SetSrNoInt(s: State, value: u16): (r: State)
    requires s.Ok()
    ensures r.Ok()
  {
    SetSm(SetFlags(s, value), Bit(value, 0x2000) * 4, Bit(value, 0x1000) * 2)
  }

  // ---------------------------------------------------------------- stack

  function Push16(s: State, v: u16): State {
    var a := U32(s.a7 - 2);
    s.(a7 := a, mem := Store16(s.mem, a, v))
  }

  function Push32(s: State, v: u32): State {
    var a := U32(s.a7 - 4);
    s.(a7 := a, mem := Store32(s.mem, a, v))
  }

  // ---------------------------------------------------------------- entry

  /** m68ki_init_exception, without the old SR it returns. */
  function InitException(s: State): (r: State)
    requires s.Ok()
    ensures r.Ok() && r.s == 4 && r.m == s.m
  {
    SetSm(s.(t1 := 0, t0 := 0), 4, s.m)
  }

  /** The four words that end every frame: format and vector, PC, SR. */
  function PushFrame(s: State, word: u16, pc: u32, sr: u16): (r: State)
    ensures r == s.(a7 := r.a7, mem := r.mem)
  {
    Push16(Push32(Push16(s, word), pc), sr)
  }

  /** m68ki_stack_frame_0000 on a processor other than the 68000. */
  function Frame0(s: State, pc: u32, sr: u16, vector: u8): State {
    PushFrame(s, vector * 4, pc, sr)
  }

  /** m68ki_stack_frame_0001, the throwaway frame. */
  function Frame1(s: State, pc: u32, sr: u16, vector: u8): State {
    PushFrame(s, 0x1000 + vector * 4, pc, sr)
  }

  /** m68ki_stack_frame_0010. */
  function Frame2(s: State, sr: u16, vector: u8): State {
    PushFrame(Push32(s, s.ppc), 0x2000 + vector * 4, s.pc, sr)
  }

  function JumpVector(s: State, vector: u8): State {
    s.(pc := Load32(s.mem, U32(vector * 4 + s.vbr)))
  }

  /** m68ki_exception_trap; the frame format is 0 or 2. */
  function Trap(s: State, vector: u8, format2: bool): (r: State)
    requires s.Ok()
    ensures r.Ok()
  {
    var i := InitException(s);
    JumpVector(if format2 then Frame2(i, GetSr(s), vector) else Frame0(i, s.pc, GetSr(s), vector), vector)
  }

  /** An exception whose frame holds the address of the current instruction: privilege violation. */
  function Fault(s: State, pc: u32, vector: u8): (r: State)
    requires s.Ok()
    ensures r.Ok()
  {
    JumpVector(Frame0(InitException(s), pc, GetSr(s), vector), vector)
  }

  const AUTOVECTOR: u32 := 0xffff_ffff
  const SPURIOUS: u32 := 0xffff_fffe

  /** The vector an interrupt acknowledge selects, if it is a valid one. */
  function AckVector(level: u32, ack: u32): Option<u8>
    requires level <= 7
  {
    if ack == AUTOVECTOR then Some(24 + level)
    else if ack == SPURIOUS then Some(24)
    else if ack > 255 then None
    else Some(ack)
  }

  /** The stopped state after `CPU_STOPPED &= ~STOP_LEVEL_STOP`. */
  function Resumed(stopped: u32): u32 {
    stopped / 2 * 2
  }

  /** An interrupt at this level is taken: the processor is not halted and the acknowledge is valid. */
  predicate Taken(s: State, level: u32, ack: u32)
    requires level <= 7
  {
    Resumed(s.stopped) == 0 && AckVector(level, ack).Some?
  }

  /** `sr |= 0x2000`. */
  function Supervised(sr: u16): (r: u16)
    ensures Bit(sr, 0x2000) == 1 ==> r == sr
    ensures Bit(sr, 0x2000) == 0 ==> r == sr + 0x2000
  {
    if Bit(sr, 0x2000) == 1 then sr else sr + 0x2000
  }

  /** The throwaway frame of an interrupt in master mode goes to the interrupt stack. */
  function Throwaway(s: State, sr: u16, vector: u8): (r: State)
    requires s.Ok()
    ensures r.Ok()
  {
    if s.m == 2 then Frame1(SetSm(s, s.s, 0), s.pc, Supervised(sr), vector) else s
  }

  /** The handler's address: that of vector 15 when the vector is uninitialized. */
  function InterruptPc(s: State, vector: u8): u32 {
    var pc := Load32(s.mem, U32(vector * 4 + s.vbr));
    if pc == 0 then Load32(s.mem, U32(15 * 4 + s.vbr)) else pc
  }

  /** The part of m68ki_exception_interrupt after the acknowledge. */
  function TakeInterrupt(s: State, level: u32, vector: u8): (r: State)
    requires s.Ok() && level <= 7
    ensures r.Ok()
  {
    var i := InitException(s).(mask := level * 0x100);
    Throwaway(Frame0(i, s.pc, GetSr(s), vector), GetSr(s), vector).(pc := InterruptPc(i, vector))
  }

  /** m68ki_exception_interrupt. */
  function Interrupt(s: State, level: u32, ack: u32): (r: State)
    requires s.Ok() && level <= 7
    ensures r.Ok()
  {
    var awake := s.(stopped := Resumed(s.stopped));
    if Taken(s, level, ack) then TakeInterrupt(awake, level, AckVector(level, ack).value) else awake
  }

  /** m68ki_check_interrupts. */
  function CheckInterrupts(s: State, ack: u32): (r: State)
    requires s.Ok() && s.level <= 0x700
    ensures r.Ok()
  {
    if s.level > s.mask then Interrupt(s, s.level / 0x100, ack) else s
  }

  // ---------------------------------------------------------------- RTE

  /** The format of the frame on top of the visible stack. */
  function Format(s: State): u16 {
    Load16(s.mem, U32(s.a7 + 6)) / 0x1000
  }

  /** One turn of rte_loop over a throwaway frame. */
  function DropThrowaway(s: State): (r: State)
    requires s.Ok()
    ensures r.Ok() && r.level == s.level && r.mem == s.mem
  {
    SetSrNoInt(s.(a7 := U32(s.a7 + 8)), Load16(s.mem, s.a7))
  }

  /** After `n` throwaway frames the frame on top is of another format. */
  predicate RteStops(s: State, n: nat)
    requires s.Ok()
    decreases n
  {
    if n == 0 then Format(s) != 1 else Format(s) == 1 && RteStops(DropThrowaway(s), n - 1)
  }

  /** The state once a frame of `size` bytes has given back PC and SR. */
  function Restore(s: State, size: u32, pc: u32, sr: u16): (r: State)
    requires s.Ok()
    ensures r.Ok() && r.level == s.level && r.mem == s.mem && r.mask == sr / 0x100 % 8 * 0x100
  {
    SetSrNoInt(s.(a7 := U32(s.a7 + size), pc := pc), sr)
  }

  /** Format 0 and format 2 frames: take SR and PC, skip the rest, check for interrupts. */
  function PopFrame(s: State, size: u32, ack: u32): (r: State)
    requires s.Ok() && s.level <= 0x700
    ensures r.Ok()
  {
    CheckInterrupts(Restore(s, size, Load32(s.mem, U32(s.a7 + 2)), Load16(s.mem, s.a7)), ack)
  }

  /** The rte handler, for a stack with `n` throwaway frames on top. */
  function Rte(s: State, n: nat, ack: u32): (r: State)
    requires s.Ok() && s.level <= 0x700 && (s.s != 0 ==> RteStops(s, n))
    ensures r.Ok()
  {
    if s.s == 0 then Fault(s, s.ppc, 8) else RteLoop(s, n, ack)
  }

  function RteLoop(s: State, n: nat, ack: u32): (r: State)
    requires s.Ok() && s.level <= 0x700 && RteStops(s, n)
    ensures r.Ok()
    decreases n
  {
    if n > 0 then RteLoop(DropThrowaway(s), n - 1, ack)
    else if Format(s) == 0 then PopFrame(s, 8, ack)
    else if Format(s) == 2 then PopFrame(s, 12, ack)
    else Fault(s, s.pc, 14)
  }
}
