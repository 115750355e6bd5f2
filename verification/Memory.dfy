/** The emulated memory of memory.i: bytes, with longwords stored big-endian. */
module Memory {
  import opened Words

  type Bytes = seq<u8>

  /** Byte `i` of a longword, 0 being the least significant. */
  function Byte(v: u32, i: nat): u8
    requires i < 4
  {
    if i == 0 then v % 0x100
    else if i == 1 then v / 0x100 % 0x100
    else if i == 2 then v / 0x1_0000 % 0x100
    else v / 0x100_0000
  }

  function Read32(m: Bytes, a: nat): u32
    requires a + 4 <= |m|
  {
    m[a] as int * 0x100_0000 + m[a + 1] as int * 0x1_0000 + m[a + 2] as int * 0x100 + m[a + 3] as int
  }

  function Write32(m: Bytes, a: nat, v: u32): (r: Bytes)
    requires a + 4 <= |m|
    ensures |r| == |m|
  {
    m[a := Byte(v, 3)][a + 1 := Byte(v, 2)][a + 2 := Byte(v, 1)][a + 3 := Byte(v, 0)]
  }

  /** A longword is read back as it was written, and no byte outside it changes. */
  lemma ReadsBack32(m: Bytes, a: nat, v: u32)
    requires a + 4 <= |m|
    ensures Read32(Write32(m, a, v), a) == v
    ensures forall i :: 0 <= i < |m| && !(a <= i < a + 4) ==> Write32(m, a, v)[i] == m[i]
  {
    BytesOf(v);
  }

  /** A longword is made of its bytes. */
  lemma BytesOf(v: u32)
    ensures v == Byte(v, 3) as int * 0x100_0000 + Byte(v, 2) as int * 0x1_0000 + Byte(v, 1) as int * 0x100 + Byte(v, 0) as int
  {
    assert v / 0x1_0000 / 0x100 == v / 0x100_0000 && v / 0x100 / 0x100 == v / 0x1_0000;
  }

  /** A longword that does not overlap the one written is read unchanged. */
  lemma ReadsElsewhere(m: Bytes, a: nat, v: u32, b: nat)
    requires a + 4 <= |m| && b + 4 <= |m| && (a + 4 <= b || b + 4 <= a)
    ensures Read32(Write32(m, a, v), b) == Read32(m, b)
  {
  }

  /** Two memories that agree on a longword read the same there. */
  lemma SameBytes(m: Bytes, n: Bytes, a: nat)
    requires a + 4 <= |m| && a + 4 <= |n|
    requires forall i :: a <= i < a + 4 ==> m[i] == n[i]
    ensures Read32(m, a) == Read32(n, a)
  {
  }

  method ReadLong(ram: array<u8>, a: nat) returns (v: u32)
    requires a + 4 <= ram.Length
    ensures v == Read32(ram[..], a)
  {
    v := ram[a] as int * 0x100_0000 + ram[a + 1] as int * 0x1_0000 + ram[a + 2] as int * 0x100 + ram[a + 3] as int;
  }

  method WriteLong(ram: array<u8>, a: nat, v: u32)
    requires a + 4 <= ram.Length
    modifies ram
    ensures ram[..] == Write32(old(ram[..]), a, v)
  {
    ram[a] := Byte(v, 3);
    ram[a + 1] := Byte(v, 2);
    ram[a + 2] := Byte(v, 1);
    ram[a + 3] := Byte(v, 0);
  }
}
