/** MOVEM.L to -(An) and from (An)+ (mushashi/m68k_in.c), on the processor object. */
module Movem {
  import opened Words
  import opened AddressSpace
  import Processor

  /** The bits of the register list, the lowest first. */
  type List = l: seq<bool> | |l| == 16 witness seq(16, i => false)

  type Registers = r: seq<u32> | |r| == 16 witness seq(16, i => 0)

  function Reversed(l: List): List {
    seq(16, i requires 0 <= i < 16 => l[15 - i])
  }

  /** The number of registers from bit `i` of the list on. */
  function Count(l: List, i: nat): (c: nat)
    requires i <= 16
    ensures c <= 16 - i
    decreases 16 - i
  {
    if i == 16 then 0 else (if l[i] then 1 else 0) + Count(l, i + 1)
  }

  /** The loop of MOVEM.L list,-(An) from bit `i` on: bit 0 stands for A7. */
  function Save(m: Space, r: Registers, l: List, i: nat, ea: u32): (Space, u32)
    requires i <= 16
    decreases 16 - i
  {
    if i == 16 then (m, ea)
    else if l[i] then Save(Store32(m, U32(ea - 4), r[15 - i]), r, l, i + 1, U32(ea - 4))
    else Save(m, r, l, i + 1, ea)
  }

  /** The loop of MOVEM.L (An)+,list up to bit `i`: bit 0 stands for D0. */
  function Restore(m: Space, r: Registers, l: List, i: nat, ea: u32): (Registers, u32)
    requires i <= 16
    decreases i
  {
    if i == 0 then (r, ea)
    else
      var (q, e) := Restore(m, r, l, i - 1, ea);
      if l[i - 1] then (q[i - 1 := Load32(m, e)], U32(e + 4)) else (q, e)
  }

  // ---------------------------------------------------------------- memory with wraparound

  /** The byte `o` places after `a`, around the end of memory if need be. */
  function ByteAt(m: Space, a: u32, o: int): u8 {
    m[U32(a + o)]
  }

  /** The bytes from `lo` to `hi` places after `a` are the same. */
  ghost predicate Same(m: Space, n: Space, a: u32, lo: int, hi: int) {
    forall o :: lo <= o < hi ==> ByteAt(n, a, o) == ByteAt(m, a, o)
  }

  lemma StoredLong(m: Space, a: u32, v: u32)
    ensures Load32(Store32(m, a, v), a) == v
    ensures Same(m, Store32(m, a, v), a, 4, TWO_32)
  {
    forall o | 4 <= o < TWO_32 ensures ByteAt(Store32(m, a, v), a, o) == ByteAt(m, a, o) {
      Elsewhere(m, a, v, o);
    }
  }

  lemma Elsewhere(m: Space, a: u32, v: u32, o: int)
    requires 4 <= o < TWO_32
    ensures Store32(m, a, v)[U32(a + o)] == m[U32(a + o)]
  {
    var b := U32(a + o);
    Different(a, o, 0);
    Different(a, o, 1);
    Different(a, o, 2);
    Different(a, o, 3);
    assert U32(U32(a + 2) + 1) == U32(a + 3);
    assert Store16(m, a, v / 0x1_0000)[b] == m[b];
  }

  lemma Different(a: u32, o: int, p: int)
    requires 0 <= o < TWO_32 && 0 <= p < TWO_32 && o != p
    ensures U32(a + o) != U32(a + p)
  {
  }

  lemma SameLong(m: Space, n: Space, a: u32)
    requires forall o :: 0 <= o < 4 ==> ByteAt(m, a, o) == ByteAt(n, a, o)
    ensures Load32(m, a) == Load32(n, a)
  {
    assert ByteAt(m, a, 0) == ByteAt(n, a, 0) && ByteAt(m, a, 1) == ByteAt(n, a, 1);
    assert ByteAt(m, a, 2) == ByteAt(n, a, 2) && ByteAt(m, a, 3) == ByteAt(n, a, 3);
    assert U32(U32(a + 2) + 1) == U32(a + 3);
  }

  /** Offsets from one address as offsets from another. */
  lemma Shifted(m: Space, a: u32, o: int)
    ensures ByteAt(m, U32(a - 4), o) == ByteAt(m, a, o - 4)
  {
  }

  // ---------------------------------------------------------------- saving and restoring

  /** What two steps leave alone from `ea - 4` on is left alone from `ea` on. */
  lemma SameInTwo(m: Space, m1: Space, n: Space, ea: u32, hi: int)
    requires Same(m, m1, U32(ea - 4), 4, TWO_32) && Same(m1, n, U32(ea - 4), 0, hi + 4) && hi <= TWO_32 - 4
    ensures Same(m, n, ea, 0, hi)
  {
    hide U32, ByteAt;
    forall o | 0 <= o < hi ensures ByteAt(n, ea, o) == ByteAt(m, ea, o) {
      Shifted(n, ea, o + 4);
      Shifted(m1, ea, o + 4);
      Shifted(m, ea, o + 4);
    }
  }

  /** Saving moves the address down by four for each register, and writes only what is in between. */
  lemma {:induction false} SaveWrites(m: Space, r: Registers, l: List, i: nat, ea: u32)
    requires i <= 16
    ensures var (n, e) := Save(m, r, l, i, ea);
      e == U32(ea - 4 * Count(l, i)) && Same(m, n, ea, 0, TWO_32 - 4 * Count(l, i))
    decreases 16 - i
  {
    hide Store32, U32, ByteAt, Same;
    if i == 16 {
      NoOffset(ea);
      SameAsItself(m, ea);
    } else if l[i] {
      var ea1 := U32(ea - 4);
      var m1 := Store32(m, ea1, r[15 - i]);
      SaveWrites(m1, r, l, i + 1, ea1);
      StoredLong(m, ea1, r[15 - i]);
      SameInTwo(m, m1, Save(m, r, l, i, ea).0, ea, TWO_32 - 4 * Count(l, i));
      TwoSteps(ea, 4 * Count(l, i + 1));
    } else {
      SaveWrites(m, r, l, i + 1, ea);
    }
  }

  lemma SameAsItself(m: Space, a: u32)
    ensures Same(m, m, a, 0, TWO_32)
  {
  }

  lemma NoOffset(a: u32)
    ensures U32(a - 4 * 0) == a && U32(a + 0) == a
  {
  }

  lemma TwoSteps(a: u32, d: int)
    requires 0 <= d <= 64
    ensures U32(U32(a - 4) - d) == U32(a - 4 - d)
  {
  }

  /** `q` with the registers below `k` that the list names taken from `r`. */
  function Taken(q: Registers, r: Registers, l: List, k: nat): Registers {
    seq(16, j requires 0 <= j < 16 => if j < k && l[j] then r[j] else q[j])
  }

  lemma ReversedAt(l: List, i: nat)
    requires i < 16
    ensures Reversed(l)[15 - i] == l[i]
  {
  }

  lemma TakenNext(q: Registers, r: Registers, l: List, k: nat)
    requires k < 16
    ensures Taken(q, r, l, k + 1) == if l[k] then Taken(q, r, l, k)[k := r[k]] else Taken(q, r, l, k)
    ensures Taken(q, r, l, 0) == q
  {
    if !l[k] {
      assert Taken(q, r, l, k + 1) == Taken(q, r, l, k);
    }
  }

  /** Restoring what was saved from bit `i` on gives back the registers and the address. */
  lemma {:induction false} RestoreSaved(m: Space, r: Registers, l: List, i: nat, ea: u32, q: Registers)
    requires i <= 16
    ensures var (n, e) := Save(m, r, l, i, ea);
      Restore(n, q, Reversed(l), 16 - i, e) == (Taken(q, r, Reversed(l), 16 - i), ea)
    decreases 16 - i
  {
    hide Store32, Load32, U32, ByteAt, Taken, Reversed;
    if i == 16 {
      TakenNext(q, r, Reversed(l), 0);
    } else {
      ReversedAt(l, i);
      TakenNext(q, r, Reversed(l), 15 - i);
      if l[i] {
        SavedLong(m, r, l, i, ea);
        RestoreSaved(Store32(m, U32(ea - 4), r[15 - i]), r, l, i + 1, U32(ea - 4), q);
        BackUp(ea);
      } else {
        RestoreSaved(m, r, l, i + 1, ea, q);
      }
    }
  }

  /** A saved long is still there when all are saved. */
  lemma SavedLong(m: Space, r: Registers, l: List, i: nat, ea: u32)
    requires i < 16 && l[i]
    ensures Load32(Save(m, r, l, i, ea).0, U32(ea - 4)) == r[15 - i]
  {
    hide Store32, Load32, U32, ByteAt;
    var ea1 := U32(ea - 4);
    var m1 := Store32(m, ea1, r[15 - i]);
    SaveWrites(m1, r, l, i + 1, ea1);
    StoredLong(m, ea1, r[15 - i]);
    SameLong(Save(m, r, l, i, ea).0, m1, ea1);
  }

  lemma BackUp(a: u32)
    ensures U32(U32(a - 4) + 4) == a
  {
  }

  // ---------------------------------------------------------------- the two instructions

  function SaveAll(m: Space, r: Registers, l: List, an: nat): (Space, Registers)
    requires AddressRegister(an)
  {
    var (n, e) := Save(m, r, l, 0, r[an]);
    (n, r[an := e])
  }

  function RestoreAll(m: Space, r: Registers, l: List, an: nat): Registers
    requires AddressRegister(an)
  {
    var (q, e) := Restore(m, r, l, 16, r[an]);
    q[an := e]
  }

  /** MOVEM.L list,-(An), then anything that leaves An and the saved bytes alone, then MOVEM.L (An)+ with
      the reversed list: the listed registers and An are what they were, whether or not the list names
      An, and the others are not touched. */
  lemma SavedIsRestored(m: Space, r: Registers, l: List, an: nat, q: Registers)
    requires AddressRegister(an) && q[an] == SaveAll(m, r, l, an).1[an]
    ensures RestoreAll(SaveAll(m, r, l, an).0, q, Reversed(l), an)
      == Taken(q, r, Reversed(l), 16)[an := r[an]]
  {
    RestoreSaved(m, r, l, 0, r[an], q);
  }

  /** Right after saving, restoring brings back all sixteen registers. */
  lemma RoundTrip(m: Space, r: Registers, l: List, an: nat)
    requires AddressRegister(an)
    ensures RestoreAll(SaveAll(m, r, l, an).0, SaveAll(m, r, l, an).1, Reversed(l), an) == r
  {
    var q := SaveAll(m, r, l, an).1;
    SavedIsRestored(m, r, l, an, q);
    assert Taken(q, r, Reversed(l), 16)[an := r[an]] == r;
  }

  /** Saving changes no byte but the four for each register just below An. */
  lemma SaveAllWrites(m: Space, r: Registers, l: List, an: nat, o: int)
    requires AddressRegister(an) && 0 <= o < TWO_32 - 4 * Count(l, 0)
    ensures ByteAt(SaveAll(m, r, l, an).0, r[an], o) == ByteAt(m, r[an], o)
    ensures SaveAll(m, r, l, an).1[an] == U32(r[an] - 4 * Count(l, 0))
  {
    hide ByteAt, U32, Save;
    SaveWrites(m, r, l, 0, r[an]);
  }

  /** The number of registers in the first `k` bits of a list. */
  function Below(l: List, k: nat): (c: nat)
    requires k <= 16
    ensures c <= k
  {
    if k == 0 then 0 else Below(l, k - 1) + (if l[k - 1] then 1 else 0)
  }

  lemma {:induction false} SavedAt(m: Space, r: Registers, l: List, i: nat, ea: u32, j: nat)
    requires i <= j < 16 && l[j]
    ensures var (n, e) := Save(m, r, l, i, ea); Load32(n, U32(e + 4 * Count(l, j + 1))) == r[15 - j]
    decreases 16 - i
  {
    hide *;
    if i == j {
      SavedFirst(m, r, l, i, ea);
    } else {
      SaveStep(m, r, l, i, ea);
      if l[i] {
        SavedAt(Store32(m, U32(ea - 4), r[15 - i]), r, l, i + 1, U32(ea - 4), j);
      } else {
        SavedAt(m, r, l, i + 1, ea, j);
      }
    }
  }

  lemma SavedFirst(m: Space, r: Registers, l: List, i: nat, ea: u32)
    requires i < 16 && l[i]
    ensures var (n, e) := Save(m, r, l, i, ea); Load32(n, U32(e + 4 * Count(l, i + 1))) == r[15 - i]
  {
    hide Store32, Load32, U32, ByteAt, Same;
    SavedLong(m, r, l, i, ea);
    SaveWrites(m, r, l, i, ea);
    assert Count(l, i) == 1 + Count(l, i + 1);
    hide Save, Count;
    TwoDown(ea, 4 * Count(l, i + 1));
  }

  lemma SaveStep(m: Space, r: Registers, l: List, i: nat, ea: u32)
    requires i < 16
    ensures Save(m, r, l, i, ea)
      == if l[i] then Save(Store32(m, U32(ea - 4), r[15 - i]), r, l, i + 1, U32(ea - 4)) else Save(m, r, l, i + 1, ea)
  {
    hide Store32, U32;
  }

  lemma TwoDown(ea: u32, d: nat)
    requires d <= 64
    ensures U32(U32(ea - (4 + d)) + d) == U32(ea - 4)
  {
  }

  /** Where a saved register is: above the new An, the listed registers follow one another from the lowest
      number, D0, to the highest, A7; bit `j` of this list stands for register 15 - j. */
  lemma SavedLayout(m: Space, r: Registers, l: List, an: nat, j: nat)
    requires AddressRegister(an) && j < 16 && l[j]
    ensures var (n, q) := SaveAll(m, r, l, an); Load32(n, U32(q[an] + 4 * Count(l, j + 1))) == r[15 - j]
  {
    hide Load32, U32, Save;
    SavedAt(m, r, l, 0, r[an], j);
  }

  lemma {:induction false} RestoredFrom(m: Space, r: Registers, l: List, i: nat, ea: u32, k: nat)
    requires i <= 16 && k < 16
    ensures var (q, e) := Restore(m, r, l, i, ea);
      && e == U32(ea + 4 * Below(l, i))
      && q[k] == if k < i && l[k] then Load32(m, U32(ea + 4 * Below(l, k))) else r[k]
    decreases i
  {
    hide Load32, U32;
    if i == 0 {
      NothingAdded(ea);
    } else {
      RestoredFrom(m, r, l, i - 1, ea, k);
      TwoUp(ea, 4 * Below(l, i - 1));
    }
  }

  lemma NothingAdded(a: u32)
    ensures U32(a + 0) == a
  {
  }

  lemma TwoUp(a: u32, d: nat)
    requires d <= 64
    ensures U32(U32(a + d) + 4) == U32(a + d + 4)
  {
  }

  /** Where each register comes from: the listed ones, from D0 to A7, from one longword after the other at
      An; An itself ends behind them, and the others stay. */
  lemma RestoredLayout(m: Space, r: Registers, l: List, an: nat, k: nat)
    requires AddressRegister(an) && k < 16
    ensures RestoreAll(m, r, l, an)[k] ==
      if k == an then U32(r[an] + 4 * Below(l, 16))
      else if l[k] then Load32(m, U32(r[an] + 4 * Below(l, k))) else r[k]
  {
    hide Load32, U32, Restore;
    RestoredFrom(m, r, l, 16, r[an], k);
    var (q, e) := Restore(m, r, l, 16, r[an]);
    assert RestoreAll(m, r, l, an) == q[an := e];
  }

  method SaveRegisters(cpu: Processor.Cpu, l: List, an: nat)
    requires cpu.Shape() && AddressRegister(an)
    modifies cpu.ram, cpu.dar
    ensures (cpu.ram[..], cpu.dar[..]) == SaveAll(old(cpu.ram[..]), old(cpu.dar[..]), l, an)
  {
    hide Store32, U32;
    var ea := cpu.dar[an];
    for i := 0 to 16
      invariant cpu.dar[..] == old(cpu.dar[..])
      invariant Save(cpu.ram[..], cpu.dar[..], l, i, ea) == Save(old(cpu.ram[..]), old(cpu.dar[..]), l, 0, old(cpu.dar[an]))
    {
      if l[i] {
        ea := Minus4(ea);
        cpu.Write32(ea, cpu.dar[15 - i]);
      }
    }
    cpu.dar[an] := ea;
  }

  method RestoreRegisters(cpu: Processor.Cpu, l: List, an: nat)
    requires cpu.Shape() && AddressRegister(an)
    modifies cpu.dar
    ensures cpu.dar[..] == RestoreAll(cpu.ram[..], old(cpu.dar[..]), l, an)
  {
    hide Load32, U32;
    var ea := cpu.dar[an];
    for i := 0 to 16
      invariant (cpu.dar[..], ea) == Restore(cpu.ram[..], old(cpu.dar[..]), l, i, old(cpu.dar[an]))
    {
      if l[i] {
        cpu.dar[i] := cpu.Read32(ea);
        ea := Plus4(ea);
      }
    }
    cpu.dar[an] := ea;
  }

  function Minus4(a: u32): u32 { U32(a - 4) }
  function Plus4(a: u32): u32 { U32(a + 4) }
}
