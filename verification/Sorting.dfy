/** The order in which mushashi/m68kmake.c sorts the rows, and what it means for the jump table. */
module Sorting {
  import opened Words
  import opened Bits
  import opened JumpTable

  /** num_bits: the number of ones. */
  function Ones(x: nat): nat {
    if x == 0 then 0 else Ones(x / 2) + x % 2
  }

  lemma {:induction false} OnesJoin(a: nat, b: nat, k: nat)
    requires b < Pow2(k)
    ensures a * Pow2(k) + b >= 0 && Ones(a * Pow2(k) + b) == Ones(a) + Ones(b)
    decreases k
  {
    if k > 0 {
      var p := Pow2(k - 1);
      OnesJoin(a, b / 2, k - 1);
      Halved(a, b, p);
      OnesOfHalf(a * (2 * p) + b);
      OnesOfHalf(b);
    }
  }

  lemma OnesOfHalf(x: nat)
    ensures Ones(x) == Ones(x / 2) + x % 2
  {
  }

  /** compare_nof_true_bits is at most 0. */
  predicate Precedes(a: Row, b: Row) {
    if Ones(a.mask) != Ones(b.mask) then Ones(a.mask) < Ones(b.mask)
    else if a.mask != b.mask then a.mask < b.mask
    else a.pattern <= b.pattern
  }

  /** Any rows can be sorted: the comparison is total and transitive. */
  lemma PrecedesOrders(a: Row, b: Row, c: Row)
    ensures Precedes(a, b) || Precedes(b, a)
    ensures Precedes(a, b) && Precedes(b, c) ==> Precedes(a, c)
    ensures Precedes(a, b) && Precedes(b, a) ==> a.mask == b.mask && a.pattern == b.pattern
  {
  }

  predicate Sorted(rows: seq<Row>) {
    forall i, j :: 0 <= i < j < |rows| ==> Precedes(rows[i], rows[j])
  }

  /** The order of the special masks among the loops of the builder. */
  function Rank(mask: u16): nat
    requires Special(mask)
  {
    if mask == 0xff00 then 0 else if mask == 0xf1f8 then 1 else if mask == 0xfff0 then 2
    else if mask == 0xf1ff then 3 else if mask == 0xfff8 then 4 else 5
  }

  /** The ones of two bytes, and of a byte that is two nibbles of ones and zeros. */
  lemma OnesOfBytes(a: nat, b: nat)
    requires b < 0x100
    ensures Ones(a * 0x100 + b) == Ones(a) + Ones(b)
  {
    Powers();
    OnesJoin(a, b, 8);
  }

  lemma OnesOfNibbles()
    ensures Ones(0) == 0 && Ones(0xf0) == 4 && Ones(0xf1) == 5 && Ones(0xf8) == 5 && Ones(0xff) == 8
  {
    assert Ones(0) == 0 && Ones(1) == 1 && Ones(8) == 1 && Ones(0xf) == 4;
    Powers();
    OnesJoin(0xf, 0, 4);
    OnesJoin(0xf, 1, 4);
    OnesJoin(0xf, 8, 4);
    OnesJoin(0xf, 0xf, 4);
  }

  lemma OnesOfSpecial()
    ensures Ones(0xff00) == 8 && Ones(0xf1f8) == 10 && Ones(0xfff0) == 12
    ensures Ones(0xf1ff) == 13 && Ones(0xfff8) == 13 && Ones(0xffff) == 16
  {
    OnesOfNibbles();
    hide Ones;
    OnesOfBytes(0xff, 0);
    OnesOfBytes(0xf1, 0xf8);
    OnesOfBytes(0xff, 0xf0);
    OnesOfBytes(0xf1, 0xff);
    OnesOfBytes(0xff, 0xf8);
    OnesOfBytes(0xff, 0xff);
  }

  lemma RankFollows(a: Row, b: Row)
    requires Special(a.mask) && Special(b.mask) && Precedes(a, b)
    ensures Rank(a.mask) <= Rank(b.mask)
  {
    hide Ones;
    OnesOfSpecial();
  }

  /** The special rows from `k` on come in the order of the loops. */
  ghost predicate Ranked(rows: seq<Row>, k: nat, rank: nat) {
    forall i :: k <= i < |rows| ==> Special(rows[i].mask) && Rank(rows[i].mask) >= rank
  }

  lemma AfterRun(rows: seq<Row>, k: nat, mask: u16)
    requires Sorted(rows) && Special(mask) && k <= |rows| && Ranked(rows, k, Rank(mask))
    ensures Ranked(rows, RunEnd(rows, k, mask), Rank(mask) + 1)
  {
    assert mask != 0;
    var e := RunEnd(rows, k, mask);
    forall i | e <= i < |rows| ensures Special(rows[i].mask) && Rank(rows[i].mask) >= Rank(mask) + 1 {
      hide *;
      RankAt(rows, k, e, i, mask);
    }
  }

  lemma RankAt(rows: seq<Row>, k: nat, e: nat, i: nat, mask: u16)
    requires Sorted(rows) && Special(mask) && k <= e <= i < |rows| && Ranked(rows, k, Rank(mask)) && rows[e].mask != mask
    ensures Special(rows[i].mask) && Rank(rows[i].mask) >= Rank(mask) + 1
  {
    hide Precedes, Special, Rank;
    OtherRank(mask, rows[e].mask);
    if i > e {
      RankFollows(rows[e], rows[i]);
    }
  }

  lemma OtherRank(a: u16, b: u16)
    requires Special(a) && Special(b)
    ensures a != b <==> Rank(a) != Rank(b)
  {
  }

  lemma LastRun(rows: seq<Row>, k: nat)
    requires k <= |rows| && Ranked(rows, k, 5)
    ensures RunEnd(rows, k, 0xffff) == |rows|
  {
  }

  predicate Expected(rows: seq<Row>, k: nat) {
    forall i :: k <= i < |rows| ==> Special(rows[i].mask)
  }

  lemma ExpectedIsProcessed(rows: seq<Row>)
    requires Sorted(rows) && exists i :: 0 <= i < |rows| && rows[i].mask == 0xff00
    requires Expected(rows, First(rows))
    ensures Processed(rows) == |rows|
  {
    hide RunEnd, Sorted, First, Ranked;
    var f := First(rows);
    var a := RunEnd(rows, f, 0xff00);
    var b := RunEnd(rows, a, 0xf1f8);
    var c := RunEnd(rows, b, 0xfff0);
    var d := RunEnd(rows, c, 0xf1ff);
    var e := RunEnd(rows, d, 0xfff8);
    AllRanked(rows, f);
    AfterRun(rows, f, 0xff00);
    AfterRun(rows, a, 0xf1f8);
    AfterRun(rows, b, 0xfff0);
    AfterRun(rows, c, 0xf1ff);
    AfterRun(rows, d, 0xfff8);
    LastRun(rows, e);
  }

  lemma AllRanked(rows: seq<Row>, k: nat)
    requires Expected(rows, k)
    ensures Ranked(rows, k, 0)
  {
  }

  lemma RunsAreSpecial(rows: seq<Row>, i: nat)
    requires exists i :: 0 <= i < |rows| && rows[i].mask == 0xff00
    requires First(rows) <= i < Processed(rows)
    ensures Special(rows[i].mask)
  {
    hide RunEnd, First;
    var a := RunEnd(rows, First(rows), 0xff00);
    var b := RunEnd(rows, a, 0xf1f8);
    var c := RunEnd(rows, b, 0xfff0);
    var d := RunEnd(rows, c, 0xf1ff);
    var e := RunEnd(rows, d, 0xfff8);
    assert i < a || i < b || i < c || i < d || i < e || rows[i].mask == 0xffff;
  }

  /** A sorted table with a row of mask 0xff00 is processed to its end exactly when every row from the
      first of these on has one of the masks that the loops expect. */
  lemma SortedIsProcessed(rows: seq<Row>)
    requires Sorted(rows) && exists i :: 0 <= i < |rows| && rows[i].mask == 0xff00
    ensures Processed(rows) == |rows| <==> Expected(rows, First(rows))
  {
    hide Processed, Special, Sorted;
    if Expected(rows, First(rows)) {
      ExpectedIsProcessed(rows);
    }
    if Processed(rows) == |rows| {
      forall i | First(rows) <= i < |rows| ensures Special(rows[i].mask) {
        RunsAreSpecial(rows, i);
      }
    }
  }

  /** In a sorted table the handler of an opcode is that of the matching row with the most mask bits
      (then the greatest mask, then the greatest pattern). */
  lemma {:induction false} MostSpecificWins(rows: seq<Row>, op: u16) returns (w: nat)
    requires Sorted(rows)
    ensures if exists i :: 0 <= i < |rows| && rows[i].Matches(op) then
              w < |rows| && rows[w].Matches(op) && Winner(rows, op) == rows[w].handler
              && forall i :: 0 <= i < |rows| && i != w && rows[i].Matches(op) ==> i < w && Precedes(rows[i], rows[w])
            else Winner(rows, op) == ILLEGAL
    decreases |rows|
  {
    hide And, Precedes, Row.Matches;
    w := 0;
    if rows != [] {
      var n := |rows| - 1;
      if rows[n].Matches(op) {
        w := n;
      } else {
        w := MostSpecificWins(rows[..n], op);
        assert forall i :: 0 <= i < n ==> rows[..n][i] == rows[i];
      }
    }
  }
}
