/** The cookie jar as data: the slots in emulated memory, the entries they hold, and the finite map
    the entries stand for (gemdos/cookiejar.c). */
module Cookies {
  import opened Words
  import opened Memory

  datatype Cookie = Cookie(key: u32, value: u32)

  /** A jar at `base`: the entries, then a zero key whose value word is `word`. */
  ghost predicate Slots(m: Bytes, base: nat, entries: seq<Cookie>, word: u32) {
    && base + 8 * |entries| + 8 <= |m|
    && (forall i :: 0 <= i < |entries| ==> SlotIs(m, base, i, entries[i]))
    && SlotIs(m, base, |entries|, Cookie(0, word))
  }

  predicate SlotIs(m: Bytes, base: nat, i: nat, c: Cookie)
    requires base + 8 * i + 8 <= |m|
  {
    Read32(m, base + 8 * i) == c.key && Read32(m, base + 8 * i + 4) == c.value
  }

  /** Keys are non-zero and unique. */
  predicate Keyed(entries: seq<Cookie>) {
    && (forall i :: 0 <= i < |entries| ==> entries[i].key != 0)
    && forall i, j :: 0 <= i < j < |entries| ==> entries[i].key != entries[j].key
  }

  /** The slot the scan for `key` stops at: the first with that key, or the terminator. */
  function IndexOf(entries: seq<Cookie>, key: u32): (i: nat)
    ensures i <= |entries|
    ensures i < |entries| ==> entries[i].key == key
    ensures forall j :: 0 <= j < i ==> entries[j].key != key
  {
    if entries == [] || entries[0].key == key then 0 else 1 + IndexOf(entries[1..], key)
  }

  lemma IndexIs(entries: seq<Cookie>, key: u32, i: nat)
    requires i <= |entries| && (i < |entries| ==> entries[i].key == key)
    requires forall j :: 0 <= j < i ==> entries[j].key != key
    ensures IndexOf(entries, key) == i
  {
  }

  function Put(entries: seq<Cookie>, key: u32, value: u32): seq<Cookie> {
    var i := IndexOf(entries, key);
    if i < |entries| then entries[i := Cookie(key, value)] else entries + [Cookie(key, value)]
  }

  /** What a look-up of `key` finds. */
  function LookUp(entries: seq<Cookie>, key: u32): Option<u32> {
    var i := IndexOf(entries, key);
    if i < |entries| then Some(entries[i].value) else None
  }

  // ---------------------------------------------------------------- the map

  /** The entries list exactly the pairs of `t`. */
  ghost predicate Represents(entries: seq<Cookie>, t: map<u32, u32>) {
    && Keyed(entries)
    && (forall i :: 0 <= i < |entries| ==> entries[i].key in t && t[entries[i].key] == entries[i].value)
    && forall k :: k in t ==> IndexOf(entries, k) < |entries|
  }

  /** Putting a cookie updates the map at its key. */
  lemma PutUpdates(entries: seq<Cookie>, t: map<u32, u32>, key: u32, value: u32)
    requires Represents(entries, t) && key != 0
    ensures Represents(Put(entries, key, value), t[key := value])
  {
    var i := IndexOf(entries, key);
    var e', t' := Put(entries, key, value), t[key := value];
    assert i == |entries| ==> key !in t;
    forall k | k in t' ensures IndexOf(e', k) < |e'| {
      var j := IndexOf(entries, k);
      if k == key {
        assert e'[i].key == k;
      } else {
        assert e'[j].key == k;
      }
      if IndexOf(e', k) == |e'| {
        assert false;
      }
    }
  }

  function Get(t: map<u32, u32>, key: u32): Option<u32> {
    if key in t then Some(t[key]) else None
  }

  /** A look-up finds what the map holds. */
  lemma LookUpIs(entries: seq<Cookie>, t: map<u32, u32>, key: u32)
    requires Represents(entries, t)
    ensures LookUp(entries, key) == Get(t, key)
  {
    assert IndexOf(entries, key) < |entries| ==> entries[IndexOf(entries, key)].key in t;
  }

  // ---------------------------------------------------------------- runs of writes

  /** The keys of a run of writes are non-zero. */
  predicate NonZero(writes: seq<Cookie>) {
    forall i :: 0 <= i < |writes| ==> writes[i].key != 0
  }

  function PutAll(entries: seq<Cookie>, writes: seq<Cookie>): seq<Cookie>
    decreases writes
  {
    if writes == [] then entries else PutAll(Put(entries, writes[0].key, writes[0].value), writes[1..])
  }

  /** The value of the last write of `key`, if there is one. */
  function LastWrite(writes: seq<Cookie>, key: u32): (v: Option<u32>) {
    if writes == [] then None
    else if writes[|writes| - 1].key == key then Some(writes[|writes| - 1].value)
    else LastWrite(writes[..|writes| - 1], key)
  }

  lemma {:induction false} PutAllSnoc(entries: seq<Cookie>, writes: seq<Cookie>, c: Cookie)
    ensures PutAll(entries, writes + [c]) == Put(PutAll(entries, writes), c.key, c.value)
    decreases writes
  {
    if writes == [] {
      assert PutAll(Put(entries, c.key, c.value), [c][1..]) == Put(entries, c.key, c.value);
    } else {
      assert (writes + [c])[1..] == writes[1..] + [c];
      PutAllSnoc(Put(entries, writes[0].key, writes[0].value), writes[1..], c);
    }
  }

  /** The entries after the first `n` writes of a run. */
  function PutFirst(entries: seq<Cookie>, writes: seq<Cookie>, n: nat): seq<Cookie>
    requires n <= |writes|
  {
    PutAll(entries, writes[..n])
  }

  lemma PutNone(entries: seq<Cookie>, writes: seq<Cookie>)
    ensures PutFirst(entries, writes, 0) == entries
  {
  }

  lemma PutOneMore(entries: seq<Cookie>, writes: seq<Cookie>, n: nat)
    requires n < |writes| && NonZero(writes)
    ensures PutFirst(entries, writes, n + 1) == Put(PutFirst(entries, writes, n), writes[n].key, writes[n].value)
    ensures writes[n].key != 0
  {
    assert writes[..n + 1] == writes[..n] + [writes[n]];
    PutAllSnoc(entries, writes[..n], writes[n]);
  }

  /** After any run of writes with non-zero keys, keys are unique, and looking up a key finds the value
      last written for it, or else what was there before. */
  lemma {:induction false} RunReadsLast(entries: seq<Cookie>, writes: seq<Cookie>, key: u32)
    requires Keyed(entries) && NonZero(writes)
    ensures Keyed(PutAll(entries, writes))
    ensures LookUp(PutAll(entries, writes), key)
      == if LastWrite(writes, key).Some? then LastWrite(writes, key) else LookUp(entries, key)
  {
    if writes != [] {
      var init, c := writes[..|writes| - 1], writes[|writes| - 1];
      RunReadsLast(entries, init, key);
      assert writes == init + [c];
      PutAllSnoc(entries, init, c);
      PutFinds(PutAll(entries, init), c, key);
    }
  }

  lemma PutFinds(e: seq<Cookie>, c: Cookie, key: u32)
    requires Keyed(e) && c.key != 0
    ensures var e' := Put(e, c.key, c.value); var i := IndexOf(e', key);
            && Keyed(e')
            && if key == c.key then i < |e'| && e'[i] == c
               else if IndexOf(e, key) < |e| then i < |e'| && e'[i] == e[IndexOf(e, key)]
               else i == |e'|
  {
    var e' := Put(e, c.key, c.value);
    var j := IndexOf(e, key);
    assert e'[IndexOf(e, c.key)] == c;
    if key == c.key {
      IndexIs(e', key, IndexOf(e, c.key));
    } else if j < |e| {
      IndexIs(e', key, j);
    } else {
      IndexIs(e', key, |e'|);
    }
  }

  // ---------------------------------------------------------------- writing slots

  function WriteSlot(m: Bytes, base: nat, i: nat, c: Cookie): (r: Bytes)
    requires base + 8 * i + 8 <= |m|
    ensures |r| == |m|
  {
    Write32(Write32(m, base + 8 * i, c.key), base + 8 * i + 4, c.value)
  }

  lemma WriteSlotIs(m: Bytes, base: nat, i: nat, c: Cookie)
    requires base + 8 * i + 8 <= |m|
    ensures SlotIs(WriteSlot(m, base, i, c), base, i, c)
    ensures forall a :: 0 <= a < |m| && !(base + 8 * i <= a < base + 8 * i + 8) ==> WriteSlot(m, base, i, c)[a] == m[a]
  {
    var m1 := Write32(m, base + 8 * i, c.key);
    ReadsBack32(m, base + 8 * i, c.key);
    ReadsBack32(m1, base + 8 * i + 4, c.value);
    ReadsElsewhere(m1, base + 8 * i + 4, c.value, base + 8 * i);
  }

  lemma WriteSlotElsewhere(m: Bytes, base: nat, i: nat, c: Cookie, j: nat, d: Cookie)
    requires base + 8 * i + 8 <= |m| && base + 8 * j + 8 <= |m| && i != j
    requires SlotIs(m, base, j, d)
    ensures SlotIs(WriteSlot(m, base, i, c), base, j, d)
  {
    var m' := WriteSlot(m, base, i, c);
    WriteSlotIs(m, base, i, c);
    SameBytes(m, m', base + 8 * j);
    SameBytes(m, m', base + 8 * j + 4);
  }

  /** Overwriting entry `i`. */
  lemma OverwriteSlot(m: Bytes, base: nat, entries: seq<Cookie>, word: u32, i: nat, c: Cookie)
    requires Slots(m, base, entries, word) && i < |entries|
    ensures Slots(WriteSlot(m, base, i, c), base, entries[i := c], word)
  {
    WriteSlotIs(m, base, i, c);
    WriteSlotElsewhere(m, base, i, c, |entries|, Cookie(0, word));
    forall j | 0 <= j < |entries| && j != i ensures SlotIs(WriteSlot(m, base, i, c), base, j, entries[j]) {
      WriteSlotElsewhere(m, base, i, c, j, entries[j]);
    }
  }

  /** Overwriting the terminator with an entry and moving the terminator on. */
  lemma AppendSlot(m: Bytes, base: nat, entries: seq<Cookie>, word: u32, c: Cookie, word': u32)
    requires Slots(m, base, entries, word) && base + 8 * |entries| + 16 <= |m|
    ensures Slots(WriteSlot(WriteSlot(m, base, |entries|, c), base, |entries| + 1, Cookie(0, word')), base, entries + [c], word')
  {
    var n := |entries|;
    var e' := entries + [c];
    forall j | 0 <= j < |e'|
      ensures SlotIs(WriteSlot(WriteSlot(m, base, n, c), base, n + 1, Cookie(0, word')), base, j, e'[j])
    {
      AppendKeeps(m, base, entries, word, c, word', j);
    }
    WriteSlotIs(WriteSlot(m, base, n, c), base, n + 1, Cookie(0, word'));
  }

  lemma AppendKeeps(m: Bytes, base: nat, entries: seq<Cookie>, word: u32, c: Cookie, word': u32, j: nat)
    requires Slots(m, base, entries, word) && base + 8 * |entries| + 16 <= |m| && j <= |entries|
    ensures SlotIs(WriteSlot(WriteSlot(m, base, |entries|, c), base, |entries| + 1, Cookie(0, word')), base, j, (entries + [c])[j])
  {
    var n := |entries|;
    if j < n {
      WriteSlotElsewhere(m, base, n, c, j, entries[j]);
    } else {
      WriteSlotIs(m, base, n, c);
    }
    WriteSlotElsewhere(WriteSlot(m, base, n, c), base, n + 1, Cookie(0, word'), j, (entries + [c])[j]);
  }

  /** A jar depends only on the bytes it occupies. */
  lemma SlotsFrame(m: Bytes, m': Bytes, base: nat, entries: seq<Cookie>, word: u32)
    requires Slots(m, base, entries, word) && |m'| == |m|
    requires forall a :: base <= a < base + 8 * |entries| + 8 ==> m'[a] == m[a]
    ensures Slots(m', base, entries, word)
  {
    forall i | 0 <= i <= |entries|
      ensures Read32(m', base + 8 * i) == Read32(m, base + 8 * i) && Read32(m', base + 8 * i + 4) == Read32(m, base + 8 * i + 4)
    {
      SameBytes(m, m', base + 8 * i);
      SameBytes(m, m', base + 8 * i + 4);
    }
    forall i | 0 <= i < |entries| ensures SlotIs(m', base, i, entries[i]) {
    }
  }
}
