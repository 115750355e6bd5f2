/** The relocation of a program (gemdos/loader.c, the end of LoadExe): a stream of one long and then
    bytes says which longs get the address of the text segment added. */
module Loader {
  import opened Words
  import opened AddressSpace

  type Stream = seq<u8>

  function First(stream: Stream): u32
    requires |stream| >= 4
  {
    stream[0] as int * 0x100_0000 + stream[1] as int * 0x1_0000 + stream[2] as int * 0x100 + stream[3] as int
  }

  /** The long at `address` gets `base` added. */
  function Fix(m: Space, base: u32, address: u32): Space {
    Store32(m, address, U32(Load32(m, address) + base))
  }

  function FixAll(m: Space, base: u32, addresses: seq<u32>): Space
    decreases |addresses|
  {
    if addresses == [] then m else FixAll(Fix(m, base, addresses[0]), base, addresses[1..])
  }

  /** The addresses that the bytes from `pos` on stand for, after the address `fixup`: a byte 0 ends the
      stream, a byte 1 means 254 further with no fixup, any other byte is the distance to the next one. */
  function Decode(stream: Stream, pos: nat, fixup: u32): seq<u32>
    requires pos <= |stream|
    decreases |stream| - pos
  {
    if pos == |stream| || stream[pos] == 0 then []
    else if stream[pos] == 1 then Decode(stream, pos + 1, U32(fixup + 254))
    else
      var next := U32(fixup + stream[pos]);
      [next] + Decode(stream, pos + 1, next)
  }

  function Addresses(stream: Stream, base: u32): seq<u32> {
    if |stream| < 4 || First(stream) == 0 then []
    else
      var fixup := U32(First(stream) + base);
      From(stream, 4, fixup)
  }

  /** The stream is cut off after a byte 1: fread leaves the variable as it is, and the loop that waits
      for another value never ends. */
  predicate CutOff(stream: Stream) {
    |stream| > 4 && First(stream) != 0 && 0 !in stream[4..] && stream[|stream| - 1] == 1
  }

  // ---------------------------------------------------------------- the loops

  /** Reading one byte with fread: at the end of the file the variable keeps its value. */
  method ReadByte(stream: Stream, pos: nat, delta: u8) returns (pos': nat, delta': u8)
    requires pos <= |stream|
    ensures if pos < |stream| then pos' == pos + 1 && delta' == stream[pos] else pos' == pos && delta' == delta
  {
    pos', delta' := pos, delta;
    if pos < |stream| {
      pos', delta' := pos + 1, stream[pos];
    }
  }

  lemma MoreFollows(stream: Stream, pos: nat)
    requires 4 < pos <= |stream| && !CutOff(stream) && First(stream) != 0
    requires 0 !in stream[4..pos] && stream[pos - 1] == 1
    ensures pos < |stream|
  {
    assert stream[4..|stream|] == stream[4..];
  }

  /** The inner loop: skip the bytes 1 and read the next distance. */
  method NextDistance(stream: Stream, start: nat, from: u32) returns (pos: nat, delta: u8, fixup: u32)
    requires 4 <= start <= |stream| && !CutOff(stream) && First(stream) != 0
    requires 0 !in stream[4..start]
    ensures start <= pos <= |stream| && delta != 1
    ensures delta != 0 ==> start < pos && 0 !in stream[4..pos]
    ensures Decode(stream, start, from) == if delta == 0 then [] else [fixup] + Decode(stream, pos, fixup)
  {
    pos, delta, fixup := start, 0, from;
    while true
      invariant start <= pos <= |stream| && (delta == 0 || delta == 1)
      invariant delta == 0 ==> pos == start
      invariant delta == 1 ==> pos < |stream|
      invariant 0 !in stream[4..pos]
      invariant Decode(stream, start, from) == Decode(stream, pos, fixup)
      decreases |stream| - pos
    {
      pos, delta := ReadByte(stream, pos, delta);
      fixup := U32(fixup + (if delta == 1 then 254 else delta));
      if delta != 1 {
        break;
      }
      MoreFollows(stream, pos);
    }
  }

  method FixAt(ram: array<u8>, base: u32, address: u32)
    requires ram.Length == TWO_32
    modifies ram
    ensures ram[..] == Fix(old(ram[..]), base, address)
  {
    var unfixed := Read32(ram, address);
    Write32(ram, address, U32(unfixed + base));
  }

  /** The fixups of LoadExe. */
  method Relocate(ram: array<u8>, base: u32, stream: Stream)
    requires ram.Length == TWO_32 && !CutOff(stream)
    modifies ram
    ensures ram[..] == FixAll(old(ram[..]), base, Addresses(stream, base))
  {
    if |stream| < 4 {
      return;
    }
    var fixup: u32 := First(stream);
    if fixup == 0 {
      return;
    }
    fixup := U32(fixup + base);
    var pos := 4;
    while true
      invariant 4 <= pos <= |stream| && 0 !in stream[4..pos]
      invariant FixAll(ram[..], base, From(stream, pos, fixup)) == FixAll(old(ram[..]), base, Addresses(stream, base))
      decreases |stream| - pos
    {
      hide Decode, Fix;
      FixAt(ram, base, fixup);
      var delta;
      pos, delta, fixup := NextDistance(stream, pos, fixup);
      if delta == 0 {
        break;
      }
    }
  }

  /** An address to fix and those that follow it. */
  function From(stream: Stream, pos: nat, fixup: u32): seq<u32>
    requires pos <= |stream|
  {
    [fixup] + Decode(stream, pos, fixup)
  }

  // ---------------------------------------------------------------- when the loops end

  /** The variables of the loops; `ended` once the outer loop has been left. */
  datatype State = State(m: Space, pos: nat, delta: u8, fixup: u32, ended: bool)

  /** One turn of the inner loop, and the start of the next turn of the outer one. */
  function Turn(s: State, base: u32, stream: Stream): State {
    if s.ended then s
    else
      var delta := if s.pos < |stream| then stream[s.pos] else s.delta;
      var pos := if s.pos < |stream| then s.pos + 1 else s.pos;
      var fixup := U32(s.fixup + (if delta == 1 then 254 else delta));
      if delta == 1 then State(s.m, pos, 1, fixup, false)
      else if delta == 0 then State(s.m, pos, 0, fixup, true)
      else State(Fix(s.m, base, fixup), pos, 0, fixup, false)
  }

  function Turns(m: Space, base: u32, stream: Stream, n: nat): State
    requires |stream| >= 4
  {
    if n == 0 then
      var fixup := U32(First(stream) + base);
      if First(stream) == 0 then State(m, 4, 0, 0, true) else State(Fix(m, base, fixup), 4, 0, fixup, false)
    else Turn(Turns(m, base, stream, n - 1), base, stream)
  }

  /** Where the loops are after `n` turns, as long as they have met no 0. */
  lemma {:induction false} TurnsReach(m: Space, base: u32, stream: Stream, n: nat)
    requires |stream| >= 4 && First(stream) != 0 && 4 + n <= |stream| && 0 !in stream[4..4 + n]
    ensures var s := Turns(m, base, stream, n);
      !s.ended && s.pos == 4 + n && s.delta == if n > 0 && stream[3 + n] == 1 then 1 else 0
  {
    hide Fix;
    if n > 0 {
      assert stream[4..4 + n] == stream[4..4 + (n - 1)] + [stream[3 + n]];
      TurnsReach(m, base, stream, n - 1);
    }
  }

  lemma {:induction false} StuckStays(m: Space, base: u32, stream: Stream, n: nat, k: nat)
    requires |stream| >= 4
    requires var s := Turns(m, base, stream, n);
      !s.ended && s.pos == |stream| && s.delta == 1
    ensures var s := Turns(m, base, stream, n + k);
      !s.ended && s.pos == |stream| && s.delta == 1
  {
    if k > 0 {
      StuckStays(m, base, stream, n, k - 1);
    }
  }

  /** The loops end exactly when the stream is not cut off. */
  lemma EndsUnlessCutOff(m: Space, base: u32, stream: Stream)
    requires |stream| >= 4
    ensures (exists n: nat :: Turns(m, base, stream, n).ended) <==> !CutOff(stream)
  {
    hide Turns, Fix;
    if CutOff(stream) {
      forall n: nat ensures !Turns(m, base, stream, n).ended {
        NeverEnds(m, base, stream, n);
      }
    } else {
      var n := Ends(m, base, stream);
      assert Turns(m, base, stream, n).ended;
    }
  }

  lemma NeverEnds(m: Space, base: u32, stream: Stream, n: nat)
    requires CutOff(stream)
    ensures !Turns(m, base, stream, n).ended
  {
    hide Turns;
    var all := |stream| - 4;
    if n <= all {
      assert forall b :: b in stream[4..4 + n] ==> b in stream[4..];
      TurnsReach(m, base, stream, n);
    } else {
      assert stream[4..4 + all] == stream[4..];
      TurnsReach(m, base, stream, all);
      StuckStays(m, base, stream, all, n - all);
    }
  }

  lemma Ends(m: Space, base: u32, stream: Stream) returns (n: nat)
    requires |stream| >= 4 && !CutOff(stream)
    ensures Turns(m, base, stream, n).ended
  {
    hide Fix;
    n := 0;
    if First(stream) == 0 {
      return;
    }
    while 4 + n < |stream| && stream[4 + n] != 0
      invariant 4 + n <= |stream| && 0 !in stream[4..4 + n]
    {
      n := n + 1;
    }
    TurnsReach(m, base, stream, n);
    assert stream[4..|stream|] == stream[4..];
    n := n + 1;
  }

  /** What is still to do after some turns. */
  lemma {:induction false} TurnsFix(m: Space, base: u32, stream: Stream, n: nat)
    requires |stream| >= 4
    ensures var s := Turns(m, base, stream, n);
      && s.pos <= |stream| && (s.delta == 0 || s.delta == 1)
      && FixAll(s.m, base, if s.ended then [] else Decode(stream, s.pos, s.fixup)) == FixAll(m, base, Addresses(stream, base))
  {
    hide Fix;
    if n > 0 {
      TurnsFix(m, base, stream, n - 1);
      var s := Turns(m, base, stream, n - 1);
      if !s.ended {
        TurnFixes(s, base, stream);
      }
    } else if First(stream) != 0 {
      var fixup := U32(First(stream) + base);
      assert ([fixup] + Decode(stream, 4, fixup))[1..] == Decode(stream, 4, fixup);
    }
  }

  lemma TurnFixes(s: State, base: u32, stream: Stream)
    requires s.pos <= |stream| && (s.delta == 0 || s.delta == 1) && !s.ended
    ensures var t := Turn(s, base, stream);
      && t.pos <= |stream| && (t.delta == 0 || t.delta == 1)
      && FixAll(t.m, base, if t.ended then [] else Decode(stream, t.pos, t.fixup)) == FixAll(s.m, base, Decode(stream, s.pos, s.fixup))
  {
    hide Fix;
    if s.pos < |stream| && stream[s.pos] > 1 {
      var next := U32(s.fixup + stream[s.pos]);
      assert ([next] + Decode(stream, s.pos + 1, next))[1..] == Decode(stream, s.pos + 1, next);
    }
  }

  /** When the loops end they have added the base at each address that the stream stands for, in turn. */
  lemma LoopsRelocate(m: Space, base: u32, stream: Stream, n: nat)
    requires |stream| >= 4 && Turns(m, base, stream, n).ended
    ensures Turns(m, base, stream, n).m == FixAll(m, base, Addresses(stream, base))
  {
    TurnsFix(m, base, stream, n);
  }

  // ---------------------------------------------------------------- encoding and decoding

  /** The bytes for a distance: 254 at a time, down to one of 2 to 255. */
  function Gap(g: nat): Stream
    requires g >= 2
  {
    if g > 255 then [1] + Gap(g - 254) else [g]
  }

  /** The bytes for the addresses after the first one, and the end mark. */
  function Gaps(offsets: seq<u32>): Stream
    requires Apart(offsets, 2) && offsets != []
    decreases |offsets|
  {
    if |offsets| == 1 then [0] else Gap(offsets[1] - offsets[0]) + Gaps(offsets[1..])
  }

  function Long(x: u32): Stream {
    [x / 0x100_0000, x / 0x1_0000 % 0x100, x / 0x100 % 0x100, x % 0x100]
  }

  /** The offsets rise by at least `distance`. */
  predicate Apart(offsets: seq<u32>, distance: nat) {
    forall i, j :: 0 <= i < j < |offsets| ==> offsets[i] + distance <= offsets[j]
  }

  function Encode(offsets: seq<u32>): Stream
    requires Apart(offsets, 2)
  {
    if offsets == [] then Long(0) else Long(offsets[0]) + Gaps(offsets)
  }

  function Moved(offsets: seq<u32>, base: u32): seq<u32> {
    seq(|offsets|, i requires 0 <= i < |offsets| => U32(offsets[i] + base))
  }

  /** The bytes of a distance, whatever follows them. */
  lemma {:induction false} DecodeGap(head: Stream, g: nat, tail: Stream, fixup: u32)
    requires g >= 2 && fixup + g < TWO_32
    ensures var stream := head + Gap(g) + tail;
      |head + Gap(g)| <= |stream|
      && Decode(stream, |head|, fixup) == [(fixup + g) as u32] + Decode(stream, |head + Gap(g)|, fixup + g)
    decreases g
  {
    var stream := head + Gap(g) + tail;
    if g > 255 {
      var head1 := head + [1];
      assert head1 + Gap(g - 254) == head + Gap(g);
      DecodeGap(head1, g - 254, tail, fixup + 254);
      assert stream[|head|] == 1;
    } else {
      assert stream[|head|] == g;
    }
  }

  lemma Regroup(a: Stream, b: Stream, c: Stream, d: Stream)
    ensures a + (b + c) + d == a + b + (c + d) == (a + b) + c + d
  {
  }

  lemma MovedFirst(offsets: seq<u32>, base: u32)
    requires offsets != []
    ensures Moved(offsets, base) == [U32(offsets[0] + base)] + Moved(offsets[1..], base)
  {
  }

  /** The rest of an encoding, wherever it stands and whatever follows it. */
  lemma {:induction false} DecodeGaps(head: Stream, offsets: seq<u32>, tail: Stream, base: u32)
    requires Apart(offsets, 2) && offsets != [] && offsets[|offsets| - 1] + base < TWO_32
    ensures var stream := head + Gaps(offsets) + tail;
      Decode(stream, |head|, U32(offsets[0] + base)) == Moved(offsets[1..], base)
    decreases |offsets|
  {
    if |offsets| == 1 {
      var stream := head + Gaps(offsets) + tail;
      assert stream[|head|] == 0;
    } else {
      var gap, rest := Gap(offsets[1] - offsets[0]), offsets[1..];
      hide Gap, Decode, Moved;
      Regroup(head, gap, Gaps(rest), tail);
      assert offsets[1] + base < TWO_32;
      DecodeGap(head, offsets[1] - offsets[0], Gaps(rest) + tail, offsets[0] + base);
      DecodeGaps(head + gap, rest, tail, base);
      MovedFirst(rest, base);
    }
  }

  lemma FirstIs(x: u32, rest: Stream)
    ensures First(Long(x) + rest) == x
  {
    assert x / 0x1_0000 / 0x100 == x / 0x100_0000 && x / 0x100 / 0x100 == x / 0x1_0000;
  }

  /** Decoding the encoding of a list of offsets gives the list, moved by the base, whatever follows in
      the file. */
  lemma DecodeEncode(offsets: seq<u32>, tail: Stream, base: u32)
    requires Apart(offsets, 2)
    requires offsets != [] ==> offsets[0] != 0 && offsets[|offsets| - 1] + base < TWO_32
    ensures Addresses(Encode(offsets) + tail, base) == Moved(offsets, base)
  {
    var stream := Encode(offsets) + tail;
    if offsets == [] {
      FirstIs(0, tail);
      assert stream == Long(0) + tail;
    } else {
      var long := Long(offsets[0]);
      Regroup([], long, Gaps(offsets), tail);
      assert stream == long + (Gaps(offsets) + tail);
      FirstIs(offsets[0], Gaps(offsets) + tail);
      DecodeGaps(long, offsets, tail, base);
      MovedFirst(offsets, base);
    }
  }

  // ---------------------------------------------------------------- what the fixups do

  predicate InLong(address: int, i: int) {
    address <= i < address + 4
  }

  lemma FixIs(m: Space, base: u32, address: u32)
    requires address + 4 <= TWO_32
    ensures Load32(Fix(m, base, address), address) == U32(Load32(m, address) + base)
    ensures forall i :: 0 <= i < TWO_32 && !InLong(address, i) ==> Fix(m, base, address)[i] == m[i]
  {
    hide Load32, Store32;
    Stored32(m, address, U32(Load32(m, address) + base));
  }

  /** Bytes outside all the longs stay as they are. */
  lemma {:induction false} OthersStay(m: Space, base: u32, addresses: seq<u32>, i: int)
    requires forall k :: 0 <= k < |addresses| ==> addresses[k] + 4 <= TWO_32 && !InLong(addresses[k], i)
    requires 0 <= i < TWO_32
    ensures FixAll(m, base, addresses)[i] == m[i]
    decreases |addresses|
  {
    hide Fix;
    if addresses != [] {
      FixIs(m, base, addresses[0]);
      OthersStay(Fix(m, base, addresses[0]), base, addresses[1..], i);
    }
  }

  /** Every long gets the base added once. */
  lemma {:induction false} FixedOnce(m: Space, base: u32, addresses: seq<u32>, k: nat)
    requires Apart(addresses, 4) && k < |addresses|
    requires forall i :: 0 <= i < |addresses| ==> addresses[i] + 4 <= TWO_32
    ensures Load32(FixAll(m, base, addresses), addresses[k]) == U32(Load32(m, addresses[k]) + base)
    decreases |addresses|
  {
    hide Fix, Load32;
    var a, rest := addresses[0], addresses[1..];
    var n := Fix(m, base, a);
    FixIs(m, base, a);
    if k == 0 {
      forall i | a <= i < a + 4 ensures FixAll(n, base, rest)[i] == n[i] {
        OthersStay(n, base, rest, i);
      }
      SameLoad32(FixAll(n, base, rest), n, a);
    } else {
      FixedOnce(n, base, rest, k - 1);
      SameLoad32(n, m, addresses[k]);
    }
  }

  lemma EncodingIsWhole(offsets: seq<u32>, tail: Stream)
    requires Apart(offsets, 2) && (offsets != [] ==> offsets[0] != 0)
    ensures !CutOff(Encode(offsets) + tail)
  {
    if offsets == [] {
      FirstIs(0, tail);
    } else {
      EndsWithZero(offsets);
      var stream := Encode(offsets) + tail;
      assert stream == Long(offsets[0]) + Gaps(offsets) + tail;
      var last := 4 + |Gaps(offsets)| - 1;
      assert stream[last] == 0 && stream[4..][last - 4] == 0;
    }
  }

  lemma {:induction false} EndsWithZero(offsets: seq<u32>)
    requires Apart(offsets, 2) && offsets != []
    ensures Gaps(offsets) != [] && Gaps(offsets)[|Gaps(offsets)| - 1] == 0
    decreases |offsets|
  {
    if |offsets| > 1 {
      EndsWithZero(offsets[1..]);
    }
  }

  /** The main result: relocating a program with the encoding of a list of offsets at least 4 apart adds
      the base to each of the listed longs once, modulo 2^32, and changes no other byte. */
  lemma Relocates(m: Space, base: u32, offsets: seq<u32>, tail: Stream)
    requires Apart(offsets, 4) && (offsets != [] ==> offsets[0] != 0 && offsets[|offsets| - 1] + base + 4 <= TWO_32)
    ensures var n := FixAll(m, base, Addresses(Encode(offsets) + tail, base));
      && !CutOff(Encode(offsets) + tail)
      && (forall k :: 0 <= k < |offsets| ==>
            offsets[k] + base < TWO_32 && Load32(n, offsets[k] + base) == U32(Load32(m, offsets[k] + base) + base))
      && forall i :: 0 <= i < TWO_32 && (forall k :: 0 <= k < |offsets| ==> !InLong(offsets[k] + base, i)) ==> n[i] == m[i]
  {
    hide Fix, FixAll, Load32, Encode, Addresses;
    var addresses := Moved(offsets, base);
    EncodingIsWhole(offsets, tail);
    DecodeEncode(offsets, tail, base);
    forall k | 0 <= k < |offsets| ensures addresses[k] == offsets[k] + base && addresses[k] + 4 <= TWO_32 {
    }
    forall k | 0 <= k < |offsets|
      ensures Load32(FixAll(m, base, addresses), offsets[k] + base) == U32(Load32(m, offsets[k] + base) + base)
    {
      FixedOnce(m, base, addresses, k);
    }
    forall i | 0 <= i < TWO_32 && (forall k :: 0 <= k < |offsets| ==> !InLong(offsets[k] + base, i))
      ensures FixAll(m, base, addresses)[i] == m[i]
    {
      OthersStay(m, base, addresses, i);
    }
  }
}
