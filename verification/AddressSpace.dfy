/** The whole 4 GB address space of the 68020 (memory.c), for code that addresses it freely. An access
    that would straddle the last address goes on at address 0. */
module AddressSpace {
  import opened Words

  type Space = m: seq<u8> | |m| == 0x1_0000_0000 witness seq(0x1_0000_0000, i => 0)

  function Load16(m: Space, a: u32): u16 {
    m[a] as int * 0x100 + m[U32(a + 1)] as int
  }

  function Load32(m: Space, a: u32): u32 {
    Load16(m, a) as int * 0x1_0000 + Load16(m, U32(a + 2)) as int
  }

  function Store16(m: Space, a: u32, v: u16): Space {
    m[a := v / 0x100][U32(a + 1) := v % 0x100]
  }

  function Store32(m: Space, a: u32, v: u32): Space {
    Store16(Store16(m, a, v / 0x1_0000), U32(a + 2), v % 0x1_0000)
  }

  /** A stored word is loaded back and only its two bytes change. */
  lemma Stored16(m: Space, a: u32, v: u16)
    requires a + 2 <= TWO_32
    ensures Load16(Store16(m, a, v), a) == v
    ensures forall i :: 0 <= i < TWO_32 && !(a <= i < a + 2) ==> Store16(m, a, v)[i] == m[i]
  {
  }

  lemma Stored32(m: Space, a: u32, v: u32)
    requires a + 4 <= TWO_32
    ensures Load32(Store32(m, a, v), a) == v
    ensures forall i :: 0 <= i < TWO_32 && !(a <= i < a + 4) ==> Store32(m, a, v)[i] == m[i]
  {
    var m1 := Store16(m, a, v / 0x1_0000);
    Stored16(m, a, v / 0x1_0000);
    Stored16(m1, a + 2, v % 0x1_0000);
  }

  /** Two spaces that agree on the bytes of a word load the same word. */
  lemma SameLoad16(m: Space, n: Space, a: u32)
    requires a + 2 <= TWO_32 && forall i :: a <= i < a + 2 ==> m[i] == n[i]
    ensures Load16(m, a) == Load16(n, a)
  {
  }

  lemma SameLoad32(m: Space, n: Space, a: u32)
    requires a + 4 <= TWO_32 && forall i :: a <= i < a + 4 ==> m[i] == n[i]
    ensures Load32(m, a) == Load32(n, a)
  {
  }

  // The accessors of memory.i, on the array.

  method Read16(ram: array<u8>, address: u32) returns (r: u16)
    requires ram.Length == TWO_32
    ensures r == Load16(ram[..], address)
  {
    r := ram[address] as int * 0x100 + ram[U32(address + 1)] as int;
  }

  method Read32(ram: array<u8>, address: u32) returns (r: u32)
    requires ram.Length == TWO_32
    ensures r == Load32(ram[..], address)
  {
    var high := Read16(ram, address);
    var low := Read16(ram, U32(address + 2));
    r := high as int * 0x1_0000 + low as int;
  }

  method Write16(ram: array<u8>, address: u32, value: u16)
    requires ram.Length == TWO_32
    modifies ram
    ensures ram[..] == Store16(old(ram[..]), address, value)
  {
    ram[address] := value / 0x100;
    ram[U32(address + 1)] := value % 0x100;
  }

  method Write32(ram: array<u8>, address: u32, value: u32)
    requires ram.Length == TWO_32
    modifies ram
    ensures ram[..] == Store32(old(ram[..]), address, value)
  {
    Write16(ram, address, value / 0x1_0000);
    Write16(ram, U32(address + 2), value % 0x1_0000);
  }
}
