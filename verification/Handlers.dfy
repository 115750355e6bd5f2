/** The memory-to-memory handlers of mushashi/m68k_in.c on the processor object. */
module Handlers {
  import opened Words
  import opened AddressSpace
  import opened Chains
  import Processor

  ghost function View(cpu: Processor.Cpu): Machine
    reads cpu, cpu.dar, cpu.ram
    requires cpu.Shape()
  {
    Machine(cpu.dar[..], cpu.x, cpu.n, cpu.notZ, cpu.v, cpu.c, cpu.ram[..])
  }

  method Read(cpu: Processor.Cpu, size: Size, a: u32) returns (r: u32)
    requires cpu.Shape()
    ensures r == Load(size, cpu.ram[..], a)
  {
    match size {
      case Byte => r := cpu.ram[a];
      case Word => r := cpu.Read16(a);
      case Long => r := cpu.Read32(a);
    }
  }

  method Write(cpu: Processor.Cpu, size: Size, a: u32, value: u32)
    requires cpu.Shape() && value < Modulus(size)
    modifies cpu.ram
    ensures View(cpu) == old(View(cpu)).(mem := Store(size, old(cpu.ram[..]), a, value))
  {
    match size {
      case Byte => cpu.ram[a] := value;
      case Word => cpu.Write16(a, value);
      case Long => cpu.Write32(a, value);
    }
  }

  /** `-(An)`. */
  method Predecrement(cpu: Processor.Cpu, r: nat, size: Size) returns (ea: u32)
    requires cpu.Shape() && AddressRegister(r)
    modifies cpu.dar
    ensures ea == U32(old(cpu.dar[r]) as int - Width(size))
    ensures View(cpu) == old(View(cpu)).(r := old(cpu.dar[..])[r := ea])
  {
    ea := U32(cpu.dar[r] as int - Width(size));
    cpu.dar[r] := ea;
  }

  /** The flags and the result of one limb. */
  method Finish(cpu: Processor.Cpu, size: Size, ea: u32, l: Limb)
    requires cpu.Shape() && l.res < Modulus(size)
    modifies cpu, cpu.ram
    ensures View(cpu) == Update(old(View(cpu)), l, old(cpu.dar[..]), Store(size, old(cpu.ram[..]), ea, l.res))
  {
    cpu.n := if l.negative then 0x80 else 0;
    cpu.v := if l.overflow then 0x80 else 0;
    cpu.c := if l.carry then 0x100 else 0;
    cpu.x := cpu.c;
    cpu.notZ := if cpu.notZ == 0 && l.res == 0 then 0 else 1;
    Write(cpu, size, ea, l.res);
  }

  /** ADDX, SUBX, ABCD and SBCD `-(Ay),-(Ax)`: operands are fetched source first. */
  method MemoryToMemory(cpu: Processor.Cpu, op: Op, ax: nat, ay: nat)
    requires cpu.Shape() && AddressRegister(ax) && AddressRegister(ay)
    modifies cpu, cpu.dar, cpu.ram
    ensures View(cpu) == Step(old(View(cpu)), op, ax, ay)
  {
    hide LimbOf, Load, Store, Bit, U32;
    var eaSource := Predecrement(cpu, ay, op.Size());
    var src := Read(cpu, op.Size(), eaSource);
    var ea := Predecrement(cpu, ax, op.Size());
    var dst := Read(cpu, op.Size(), ea);
    var l := LimbOf(op, src, dst, Bit(cpu.x, 0x100));
    Finish(cpu, op.Size(), ea, l);
  }
}
