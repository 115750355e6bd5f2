/** The processor object of mushashi/m68kcpu.h: exception entry and RTE as code that updates the
    registers and memory in place, each operation against its function in Exceptions. */
module Processor {
  import opened Words
  import opened AddressSpace
  import opened Exceptions

  const SP: nat := 15

  /** Taking a frame off word by word moves the stack pointer by its size. */
  lemma PullsAddUp(a: u32)
    ensures U32(U32(a + 2) + 4) == U32(a + 6) && U32(U32(a + 6) + 2) == U32(a + 8) && U32(U32(a + 8) + 4) == U32(a + 12)
  {
  }

  class Cpu {
    const dar: array<u32>
    const sp: array<u32>
    const ram: array<u8>
    var pc: u32
    var ppc: u32
    var vbr: u32
    var t1: u32
    var t0: u32
    var s: u32
    var m: u32
    var intMask: u32
    var x: u32
    var n: u32
    var notZ: u32
    var v: u32
    var c: u32
    var intLevel: u32
    var stopped: u32

    ghost predicate Shape() {
      dar.Length == 16 && sp.Length == 7 && dar != sp && ram.Length == TWO_32
    }

    ghost function View(): State
      reads this, dar, sp, ram
      requires Shape()
    {
      State(dar[SP], sp[..], pc, ppc, vbr, t1, t0, s, m, intMask, x, n, notZ, v, c, intLevel, stopped, ram[..])
    }

    ghost predicate Valid()
      reads this, dar, sp, ram
    {
      Shape() && View().Ok()
    }

    /** The data registers and the address registers other than A7. */
    ghost function Registers(): seq<u32>
      reads dar
      requires Shape()
    {
      dar[..SP]
    }

    // ---------------------------------------------------------------- memory

    method Read16(address: u32) returns (r: u16)
      requires Shape()
      ensures r == Load16(View().mem, address)
    {
      r := AddressSpace.Read16(ram, address);
    }

    method Read32(address: u32) returns (r: u32)
      requires Shape()
      ensures r == Load32(View().mem, address)
    {
      r := AddressSpace.Read32(ram, address);
    }

    method Write16(address: u32, value: u16)
      requires Shape()
      modifies ram
      ensures View() == old(View()).(mem := Store16(old(View().mem), address, value))
    {
      AddressSpace.Write16(ram, address, value);
    }

    method Write32(address: u32, value: u32)
      requires Shape()
      modifies ram
      ensures View() == old(View()).(mem := Store32(old(View().mem), address, value))
    {
      AddressSpace.Write32(ram, address, value);
    }

    // ---------------------------------------------------------------- stack

    method SetSp(value: u32)
      requires Shape()
      modifies dar
      ensures View() == old(View()).(a7 := value) && Registers() == old(Registers())
    {
      dar[SP] := value;
    }

    method Push16(value: u16)
      requires Shape()
      modifies dar, ram
      ensures View() == Exceptions.Push16(old(View()), value) && Registers() == old(Registers())
    {
      SetSp(U32(dar[SP] as int - 2));
      Write16(dar[SP], value);
    }

    method Push32(value: u32)
      requires Shape()
      modifies dar, ram
      ensures View() == Exceptions.Push32(old(View()), value) && Registers() == old(Registers())
    {
      SetSp(U32(dar[SP] as int - 4));
      Write32(dar[SP], value);
    }

    method Pull16() returns (r: u16)
      requires Shape()
      modifies dar
      ensures r == Load16(old(View().mem), old(View().a7))
      ensures View() == old(View()).(a7 := U32(old(View().a7) + 2)) && Registers() == old(Registers())
    {
      SetSp(U32(dar[SP] as int + 2));
      r := Read16(U32(dar[SP] as int - 2));
    }

    method Pull32() returns (r: u32)
      requires Shape()
      modifies dar
      ensures r == Load32(old(View().mem), old(View().a7))
      ensures View() == old(View()).(a7 := U32(old(View().a7) + 4)) && Registers() == old(Registers())
    {
      SetSp(U32(dar[SP] as int + 4));
      r := Read32(U32(dar[SP] as int - 4));
    }
  
    method FakePull(size: u32)
      requires Shape()
      modifies dar
      ensures View() == old(View()).(a7 := U32(old(View().a7) + size)) && Registers() == old(Registers())
    {
      SetSp(U32(dar[SP] as int + size));
    }

    // ---------------------------------------------------------------- status register

    /** REG_SP_BASE[FLAG_S | ((FLAG_S >> 1) & FLAG_M)]: the place of the visible stack pointer. */
    function Active(): (r: u32)
      reads this
      requires (s == 0 || s == 4) && (m == 0 || m == 2)
      ensures r < 7
    {
      if s == 4 then 4 + m else 0
    }

    method SetSmFlag(s': u32, m': u32)
      requires Valid() && (s' == 0 || s' == 4) && (m' == 0 || m' == 2)
      modifies this`s, this`m, dar, sp
      ensures Valid() && View() == SetSm(old(View()), s', m') && Registers() == old(Registers())
    {
      sp[Active()] := dar[SP];
      s, m := s', m';
      dar[SP] := sp[Active()];
    }

    method SetCcr(value: u16)
      requires Valid()
      modifies this`x, this`n, this`notZ, this`v, this`c
      ensures Valid() && View() == Exceptions.SetCcr(old(View()), value)
    {
      hide Bit;
      x := Bit(value, 0x10) * 0x100;
      n := Bit(value, 8) * 0x80;
      notZ := 1 - Bit(value, 4);
      v := Bit(value, 2) * 0x80;
      c := Bit(value, 1) * 0x100;
    }

    method SetFlags(value: u16)
      requires Valid()
      modifies this`t1, this`t0, this`intMask, this`x, this`n, this`notZ, this`v, this`c
      ensures Valid() && View() == Exceptions.SetFlags(old(View()), value)
    {
      hide Bit;
      t1 := Bit(value, 0x8000) * 0x8000;
      t0 := Bit(value, 0x4000) * 0x4000;
      intMask := value / 0x100 % 8 * 0x100;
      SetCcr(value);
    }

    method SetSrNoInt(value: u16)
      requires Valid()
      modifies this`s, this`m, this`t1, this`t0, this`intMask, this`x, this`n, this`notZ, this`v, this`c, dar, sp
      ensures Valid() && View() == Exceptions.SetSrNoInt(old(View()), value) && Registers() == old(Registers())
    {
      hide Bit, SetSm, Exceptions.SetFlags;
      SetFlags(value);
      SetSmFlag(Bit(value, 0x2000) * 4, Bit(value, 0x1000) * 2);
    }

    method GetSr() returns (sr: u16)
      requires Valid()
      ensures sr == Exceptions.GetSr(View())
    {
      var ccr := Bit(x, 0x100) * 0x10 + Bit(n, 0x80) * 8 + (if notZ == 0 then 4 else 0) + Bit(v, 0x80) * 2 + Bit(c, 0x100);
      sr := t1 + t0 + s * 0x800 + m * 0x800 + intMask + ccr;
    }

    // ---------------------------------------------------------------- exceptions

    method InitException() returns (sr: u16)
      requires Valid()
      modifies this`s, this`m, this`t1, this`t0, dar, sp
      ensures Valid() && sr == Exceptions.GetSr(old(View()))
      ensures View() == Exceptions.InitException(old(View())) && Registers() == old(Registers())
    {
      sr := GetSr();
      t1, t0 := 0, 0;
      SetSmFlag(4, m);
    }

    method StackFrame(word: u16, pc: u32, sr: u16)
      requires Valid()
      modifies dar, ram
      ensures Valid() && View() == PushFrame(old(View()), word, pc, sr) && Registers() == old(Registers())
    {
      Push16(word);
      Push32(pc);
      Push16(sr);
    }

    method JumpVector(vector: u8)
      requires Valid()
      modifies this`pc
      ensures Valid() && View() == Exceptions.JumpVector(old(View()), vector)
    {
      pc := Read32(U32(vector * 4 + vbr));
    }

    /** m68ki_exception_trap. */
    method ExceptionTrap(vector: u8, format2: bool)
      requires Valid()
      modifies this, dar, sp, ram
      ensures Valid() && View() == Trap(old(View()), vector, format2) && Registers() == old(Registers())
    {
      var sr := InitException();
      if format2 {
        Push32(ppc);
        StackFrame(0x2000 + vector * 4, pc, sr);
      } else {
        StackFrame(vector * 4, pc, sr);
      }
      JumpVector(vector);
    }

    /** m68ki_exception_privilege_violation, m68ki_exception_format_error and their like. */
    method ExceptionFault(address: u32, vector: u8)
      requires Valid()
      modifies this, dar, sp, ram
      ensures Valid() && View() == Fault(old(View()), address, vector) && Registers() == old(Registers())
    {
      var sr := InitException();
      StackFrame(vector * 4, address, sr);
      JumpVector(vector);
    }

    /** m68ki_exception_interrupt; `ack` is what the acknowledge callback answers. */
    method ExceptionInterrupt(level: u32, ack: u32)
      requires Valid() && level <= 7
      modifies this, dar, sp, ram
      ensures Valid() && View() == Interrupt(old(View()), level, ack) && Registers() == old(Registers())
    {
      hide TakeInterrupt;
      stopped := Resumed(stopped);
      if stopped != 0 {
        return;
      }
      var vector := ack;
      if vector == AUTOVECTOR {
        vector := 24 + level;
      } else if vector == SPURIOUS {
        vector := 24;
      } else if vector > 255 {
        return;
      }
      TakeVector(level, vector);
    }

    method InterruptPc(vector: u8) returns (r: u32)
      requires Valid()
      ensures r == Exceptions.InterruptPc(View(), vector)
    {
      hide Load32, U32;
      r := Read32(U32(vector * 4 + vbr));
      if r == 0 {
        r := Read32(U32(15 * 4 + vbr));
      }
    }

    /** The throwaway frame, in master mode. */
    method StackThrowaway(sr: u16, vector: u8)
      requires Valid()
      modifies this`s, this`m, dar, sp, ram
      ensures Valid() && View() == Throwaway(old(View()), sr, vector) && Registers() == old(Registers())
    {
      hide PushFrame, SetSm, Supervised;
      if m != 0 {
        SetSmFlag(s, 0);
        StackFrame(0x1000 + vector * 4, pc, Supervised(sr));
      }
    }

    method TakeVector(level: u32, vector: u8)
      requires Valid() && level <= 7
      modifies this, dar, sp, ram
      ensures Valid() && View() == TakeInterrupt(old(View()), level, vector) && Registers() == old(Registers())
    {
      hide Exceptions.GetSr, PushFrame, Exceptions.InterruptPc, Throwaway, Exceptions.InitException;
      var sr := InitException();
      intMask := level * 0x100;
      var newPc := InterruptPc(vector);
      StackFrame(vector * 4, pc, sr);
      StackThrowaway(sr, vector);
      pc := newPc;
    }

    method CheckInterrupts(ack: u32)
      requires Valid() && intLevel <= 0x700
      modifies this, dar, sp, ram
      ensures Valid() && View() == Exceptions.CheckInterrupts(old(View()), ack) && Registers() == old(Registers())
    {
      if intLevel > intMask {
        ExceptionInterrupt(intLevel / 0x100, ack);
      }
    }

    // ---------------------------------------------------------------- RTE

    method Unstack(extra: bool)
      requires Valid()
      modifies this, dar, sp
      ensures Valid() && Registers() == old(Registers())
      ensures View() == Restore(old(View()), if extra then 12 else 8,
                                old(Load32(View().mem, U32(View().a7 + 2))), old(Load16(View().mem, View().a7)))
    {
      hide Exceptions.SetSrNoInt, Load16, Load32, U32;
      PullsAddUp(dar[SP]);
      var sr := Pull16();
      var newPc := Pull32();
      FakePull(2);
      if extra {
        FakePull(4);
      }
      pc := newPc;
      SetSrNoInt(sr);
    }

    method PopAndCheck(extra: bool, ack: u32)
      requires Valid() && intLevel <= 0x700
      modifies this, dar, sp, ram
      ensures Valid() && View() == PopFrame(old(View()), if extra then 12 else 8, ack) && Registers() == old(Registers())
    {
      hide Restore, Exceptions.CheckInterrupts, Load16, Load32;
      Unstack(extra);
      CheckInterrupts(ack);
    }

    /** The turns of rte_loop over throwaway frames, of which there are `throwaways`. */
    method SkipThrowaways(ack: u32, ghost throwaways: nat) returns (format: u16)
      requires Valid() && intLevel <= 0x700 && RteStops(View(), throwaways)
      modifies this, dar, sp
      ensures Valid() && intLevel <= 0x700 && format == Format(View())
      ensures RteStops(View(), 0) && Registers() == old(Registers())
      ensures RteLoop(View(), 0, ack) == old(RteLoop(View(), throwaways, ack))
    {
      hide Load16, DropThrowaway, PopFrame, Fault, U32;
      ghost var left := throwaways;
      format := ReadFormat();
      while format == 1
        invariant Valid() && intLevel <= 0x700 && format == Format(View())
        invariant RteStops(View(), left) && Registers() == old(Registers())
        invariant RteLoop(View(), left, ack) == old(RteLoop(View(), throwaways, ack))
        decreases left
      {
        Drop();
        left := left - 1;
        format := ReadFormat();
      }
    }

    method ReadFormat() returns (format: u16)
      requires Valid()
      ensures format == Format(View())
    {
      var word := Read16(U32(dar[SP] as int + 6));
      format := word / 0x1000;
    }

    /** The rte handler. */
    method Rte(ack: u32, ghost throwaways: nat)
      requires Valid() && intLevel <= 0x700 && (s != 0 ==> RteStops(View(), throwaways))
      modifies this, dar, sp, ram
      ensures Valid() && View() == Exceptions.Rte(old(View()), throwaways, ack) && Registers() == old(Registers())
    {
      hide Format, DropThrowaway, PopFrame, Fault, U32;
      if s == 0 {
        ExceptionFault(ppc, 8);
        return;
      }
      var format := SkipThrowaways(ack, throwaways);
      if format == 0 {
        PopAndCheck(false, ack);
      } else if format == 2 {
        PopAndCheck(true, ack);
      } else {
        ExceptionFault(pc, 14);
      }
    }

    method Drop()
      requires Valid()
      modifies this, dar, sp
      ensures Valid() && View() == DropThrowaway(old(View())) && Registers() == old(Registers())
    {
      hide Exceptions.SetSrNoInt, Load16, U32;
      PullsAddUp(dar[SP]);
      var sr := Pull16();
      FakePull(4);
      FakePull(2);
      SetSrNoInt(sr);
    }
  }
}
