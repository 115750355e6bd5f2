/** The cookie jar of gemdos/cookiejar.c: a table in emulated memory, in a block of its own from the
    memory manager, that doubles itself when it is full. */
module CookieJar {
  import opened Words
  import opened Memory
  import opened Cookies
  import HeapModel
  import HeapTheory
  import HeapCoalescing
  import HeapRuns
  import Allocator

  /** The system variable that points to the jar. */
  const P_COOKIES: nat := 0x5a0

  /** The cookies InitCookieJar announces: the MiNT version, a 68020, no FPU, and an unknown machine. */
  const FIRST_COOKIES: map<u32, u32> := map[0x4d694e54 := 0x200, 0x5f435055 := 20, 0x5f465055 := 0, 0x5f4d4348 := 0x60000]

  /** A number of slots whose size in bytes is a signed 32-bit number. */
  type slots = n: int | 0 <= n < 0x1000_0000

  /** `base` is the start of a used block of exactly `capacity` slots. */
  ghost predicate Owns(used: seq<HeapModel.Block>, base: u32, capacity: slots) {
    HeapModel.Block(base, 8 * capacity) in used
  }

  /** The jar that the system variable points to lives in a block of `capacity` slots and holds the
      entries, of which there is room for one more slot, the terminator. */
  ghost predicate JarAt(m: Bytes, used: seq<HeapModel.Block>, entries: seq<Cookie>, capacity: slots, word: u32)
    requires P_COOKIES + 4 <= |m|
  {
    && Owns(used, Read32(m, P_COOKIES), capacity)
    && |entries| + 1 <= capacity
    && Keyed(entries)
    && Slots(m, Read32(m, P_COOKIES), entries, word)
  }

  class Jar {
    const ram: array<u8>
    const heap: Allocator.MemoryManager
    const top: int
    ghost var entries: seq<Cookie>
    ghost var capacity: slots

    /** The jar is in order except that its terminator holds `word`. */
    ghost predicate ValidBut(word: u32)
      reads this, ram, heap, heap.freeNodes, heap.usedNodes
    {
      match heap.view
      case Heap(free, used, rover) =>
        && heap.Valid() && HeapTheory.Tidy(heap.view, top)
        && top <= ram.Length <= TWO_32
        && JarAt(ram[..], used, entries, capacity, word)
    }

    /** The terminator holds the true capacity. */
    ghost predicate Valid()
      reads this, ram, heap, heap.freeNodes, heap.usedNodes
    {
      ValidBut(capacity)
    }

    ghost function Base(): u32
      reads ram
      requires P_COOKIES + 4 <= ram.Length
    {
      Read32(ram[..], P_COOKIES)
    }

    /** InitCookieJar, on a fresh heap: a jar of 256 slots with the four cookies ParaTos announces. */
    constructor InitCookieJar(ram: array<u8>, heap: Allocator.MemoryManager, top: int)
      requires HeapModel.MEM_BOTTOM + 0x800 <= top < TWO_31 && top <= ram.Length <= TWO_32
      requires heap.Valid() && heap.view == HeapModel.InitialHeap(top)
      modifies ram, heap, heap.Repr()
      ensures Valid() && capacity == 0x100 && this.ram == ram && this.heap == heap && this.top == top
      ensures fresh(heap.Repr() - old(heap.Repr()))
      ensures Represents(entries, FIRST_COOKIES)
      ensures forall key :: LookUp(entries, key) == Get(FIRST_COOKIES, key)
    {
      this.ram, this.heap, this.top := ram, heap, top;
      entries, capacity := [], 0x100;
      new;
      FillEmpty();
    }

    /** The rest of InitCookieJar. */
    method FillEmpty()
      requires HeapModel.MEM_BOTTOM + 0x800 <= top < TWO_31 && top <= ram.Length <= TWO_32
      requires heap.Valid() && heap.view == HeapModel.InitialHeap(top)
      requires entries == [] && capacity == 0x100
      modifies this, ram, heap, heap.Repr()
      ensures Valid() && capacity == 0x100 && fresh(heap.Repr() - old(heap.Repr()))
      ensures Represents(entries, FIRST_COOKIES) && forall key :: LookUp(entries, key) == Get(FIRST_COOKIES, key)
    {
      hide *;
      MakeEmpty();
      AnnounceAll();
    }

    method AnnounceAll()
      requires Valid() && entries == [] && capacity == 0x100
      modifies this, ram, heap, heap.Repr()
      ensures Valid() && capacity == 0x100 && heap.Repr() == old(heap.Repr())
      ensures Represents(entries, FIRST_COOKIES) && forall key :: LookUp(entries, key) == Get(FIRST_COOKIES, key)
    {
      hide Allocator.MemoryManager.Valid;
      Announce(0x4d694e54, 0x200, map[]);
      Announce(0x5f435055, 20, map[0x4d694e54 := 0x200]);
      Announce(0x5f465055, 0, map[0x4d694e54 := 0x200, 0x5f435055 := 20]);
      Announce(0x5f4d4348, 0x60000, map[0x4d694e54 := 0x200, 0x5f435055 := 20, 0x5f465055 := 0]);
      forall key ensures LookUp(entries, key) == Get(FIRST_COOKIES, key) {
        LookUpIs(entries, FIRST_COOKIES, key);
      }
    }

    /** One of the first cookies, written while there is room. */
    method Announce(key: u32, value: u32, ghost t: map<u32, u32>)
      requires Valid() && Represents(entries, t) && |entries| + 1 < capacity && key != 0
      modifies this, ram, heap, heap.Repr()
      ensures Valid() && capacity == old(capacity) && Represents(entries, t[key := value])
      ensures |entries| <= old(|entries|) + 1
      ensures heap.Repr() == old(heap.Repr())
    {
      PutUpdates(entries, t, key, value);
      WriteCookie(key, value);
    }

    /** The empty jar of InitCookieJar. */
    method MakeEmpty()
      requires HeapModel.MEM_BOTTOM + 0x800 <= top < TWO_31 && top <= ram.Length <= TWO_32
      requires heap.Valid() && heap.view == HeapModel.InitialHeap(top)
      requires entries == [] && capacity == 0x100
      modifies ram, heap, heap.Repr()
      ensures Valid() && fresh(heap.Repr() - old(heap.Repr()))
    {
      FirstMalloc(top);
      hide *;
      var base := MallocSlots(0x100);
      ghost var nodes, h := heap.Repr(), heap.view;
      Format(base);
      assert heap.Repr() == nodes && heap.view == h;
      InOrder();
    }

    /** The three writes of InitCookieJar: the system variable and a terminator. */
    method Format(base: u32)
      requires heap.Valid()
      requires P_COOKIES + 4 <= base && base + 8 <= ram.Length <= TWO_32
      modifies ram
      ensures heap.Valid() && Base() == base && Slots(ram[..], base, [], 0x100)
    {
      hide Allocator.MemoryManager.Valid;
      ghost var m := ram[..];
      WriteLong(ram, P_COOKIES, base);
      ghost var m1 := ram[..];
      WriteLong(ram, base, 0);
      WriteLong(ram, base + 4, 0x100);
      ReadsBack32(m, P_COOKIES, base);
      WriteSlotIs(m1, base, 0, Cookie(0, 0x100));
      SameBytes(m1, ram[..], P_COOKIES);
    }

    /** The loop of WriteCookie: the slot of the key or the terminator, and how many slots were seen. */
    method FindSlot(key: u32, base: u32) returns (address: u32, found: bool, count: u32, maxCount: u32)
      requires Valid() && base == Base()
      ensures var i := IndexOf(entries, key);
              && address == base + 8 * i && count == i + 1
              && (found <==> i < |entries|)
              && (!found ==> maxCount == capacity)
    {
      hide Allocator.MemoryManager.Valid;
      BlockFits(heap.view, top, base, capacity);
      address, count, found, maxCount := base, 0, false, 0;
      while true
        invariant count <= |entries| && address == base + 8 * count
        invariant forall j :: 0 <= j < count ==> entries[j].key != key
        decreases |entries| - count
      {
        assert count < |entries| ==> SlotIs(ram[..], base, count, entries[count]);
        var current := ReadLong(ram, address);
        count := count + 1;
        if current == 0 {
          IndexIs(entries, key, count - 1);
          maxCount := ReadLong(ram, address + 4);
          return;
        }
        if current == key {
          IndexIs(entries, key, count - 1);
          found := true;
          return;
        }
        address := address + 8;
      }
    }

    /** ReadCookie: the first result is the C return value. Keys 2 to 0xffff select a slot by number
        and give its key; other keys are looked up. */
    method ReadCookie(key: u32) returns (code: int, value: Option<u32>)
      requires Valid()
      ensures 1 < key <= 0xffff ==>
                if key <= |entries| then code == 1 && value == Some(if key < |entries| then entries[key].key else 0)
                else code == 0 && value == None
      ensures !(1 < key <= 0xffff) ==> value == LookUp(entries, key) && code == if value.Some? then 0 else -1
    {
      hide Allocator.MemoryManager.Valid;
      var address := ReadLong(ram, P_COOKIES);
      ghost var base := address;
      BlockFits(heap.view, top, base, capacity);
      if 1 < key <= 0xffff {
        code, value := ReadNth(key, address);
        return;
      }
      var found, count, maxCount;
      address, found, count, maxCount := FindSlot(key, address);
      if found {
        assert SlotIs(ram[..], base, IndexOf(entries, key), entries[IndexOf(entries, key)]);
        var v := ReadLong(ram, address + 4);
        return 0, Some(v);
      }
      return -1, None;
    }

    method ReadNth(key: u32, base: u32) returns (code: int, value: Option<u32>)
      requires Slots(ram[..], base, entries, capacity) && Keyed(entries) && ram.Length <= TWO_32 && key > 0
      ensures if key <= |entries| then code == 1 && value == Some(if key < |entries| then entries[key].key else 0)
              else code == 0 && value == None
    {
      var i, address := 1, base;
      while i <= key
        invariant 1 <= i <= key + 1 && i <= |entries| + 1 && address == base + 8 * (i - 1)
        decreases key + 1 - i
      {
        assert i - 1 < |entries| ==> SlotIs(ram[..], base, i - 1, entries[i - 1]);
        var current := ReadLong(ram, address);
        if current == 0 {
          return 0, None;
        }
        address, i := address + 8, i + 1;
      }
      assert key < |entries| ==> SlotIs(ram[..], base, key, entries[key]);
      var v := ReadLong(ram, address);
      return 1, Some(v);
    }

    /** Everything outside a jar's block and the system variable. */
    static predicate Outside(a: int, base: u32, capacity: slots) {
      !(P_COOKIES <= a < P_COOKIES + 4) && !(base <= a < base + 8 * capacity)
    }

    /** The copy loop of ResizeCookieJar. */
    method CopySlots(oldJar: u32, newJar: u32, currentSize: u32, newSize: u32)
      requires ram.Length <= TWO_32 && Keyed(entries)
      requires Slots(ram[..], oldJar, entries, capacity) && currentSize == |entries| + 1
      requires newJar + 8 * currentSize <= ram.Length
      requires newJar + 8 * currentSize <= oldJar || oldJar + 8 * currentSize <= newJar
      modifies ram
      ensures Slots(ram[..], newJar, entries, newSize)
      ensures forall a :: 0 <= a < ram.Length && !(newJar <= a < newJar + 8 * currentSize) ==> ram[..][a] == old(ram[..])[a]
    {
      hide Allocator.MemoryManager.Valid, WriteSlot, SlotIs, Read32;
      ghost var m0 := ram[..];
      var slot := 0;
      while slot < currentSize
        invariant 0 <= slot <= |entries|
        invariant forall i :: 0 <= i < slot ==> SlotIs(ram[..], newJar, i, entries[i])
        invariant forall a :: 0 <= a < ram.Length && !(newJar <= a < newJar + 8 * slot) ==> ram[..][a] == m0[a]
      {
        ghost var m := ram[..];
        SlotsFrame(m0, m, oldJar, entries, capacity);
        ghost var c := if slot < |entries| then entries[slot] else Cookie(0, capacity);
        var key := CopySlot(oldJar, newJar, slot, newSize, c);
        ghost var d := Cookie(key, if key != 0 then c.value else newSize);
        WriteSlotIs(m, newJar, slot, d);
        forall i | 0 <= i < slot ensures SlotIs(ram[..], newJar, i, entries[i]) {
          WriteSlotElsewhere(m, newJar, slot, d, i, entries[i]);
        }
        if key == 0 {
          break;
        }
        slot := slot + 1;
      }
    }

    method CopySlot(oldJar: u32, newJar: u32, slot: u32, newSize: u32, ghost c: Cookie) returns (key: u32)
      requires newJar + 8 * slot + 8 <= ram.Length <= TWO_32 && oldJar + 8 * slot + 8 <= ram.Length
      requires newJar + 8 * slot + 8 <= oldJar || oldJar + 8 * slot + 8 <= newJar
      requires SlotIs(ram[..], oldJar, slot, c)
      modifies ram
      ensures key == c.key
      ensures ram[..] == WriteSlot(old(ram[..]), newJar, slot, Cookie(key, if key != 0 then c.value else newSize))
    {
      hide Read32, Write32;
      key := ReadLong(ram, oldJar + 8 * slot);
      SameValue(ram[..], newJar, slot, key, oldJar);
      WriteLong(ram, newJar + 8 * slot, key);
      if key != 0 {
        var v := ReadLong(ram, oldJar + 8 * slot + 4);
        WriteLong(ram, newJar + 8 * slot + 4, v);
      } else {
        WriteLong(ram, newJar + 8 * slot + 4, newSize);
      }
    }

    /** The part of ResizeCookieJar that writes memory. */
    method MoveJar(oldJar: u32, newJar: u32, currentSize: u32, newSize: u32)
      requires heap.Valid()
      requires ram.Length <= TWO_32 && Keyed(entries)
      requires Slots(ram[..], oldJar, entries, capacity) && currentSize == |entries| + 1
      requires P_COOKIES + 4 <= newJar && newJar + 8 * currentSize <= ram.Length
      requires newJar + 8 * currentSize <= oldJar || oldJar + 8 * currentSize <= newJar
      modifies ram
      ensures heap.Valid()
      ensures Read32(ram[..], P_COOKIES) == newJar && Slots(ram[..], newJar, entries, newSize)
      ensures forall a :: 0 <= a < ram.Length && !(newJar <= a < newJar + 8 * currentSize) && !(P_COOKIES <= a < P_COOKIES + 4)
                       ==> ram[..][a] == old(ram[..])[a]
    {
      hide Allocator.MemoryManager.Valid;
      CopySlots(oldJar, newJar, currentSize, newSize);
      ghost var m := ram[..];
      ReadsBack32(m, P_COOKIES, newJar);
      WriteLong(ram, P_COOKIES, newJar);
      SlotsFrame(m, ram[..], newJar, entries, newSize);
    }

    method MallocSlots(newSize: slots) returns (newJar: u32)
      requires heap.Valid() && HeapModel.Ends(heap.view, 8 * newSize)
      modifies heap, heap.Repr()
      ensures heap.Valid() && fresh(heap.Repr() - old(heap.Repr()))
      ensures (heap.view, newJar) == HeapModel.Malloc(old(heap.view), 8 * newSize)
    {
      hide *;
      newJar := heap.Malloc(newSize * 8);
    }

    /** Malloc of a block that is known to fit; it is clear of every block in use. */
    method GetBlock(newSize: slots) returns (newJar: u32)
      requires heap.Valid() && HeapTheory.Tidy(heap.view, top) && heap.view.used != []
      requires 0 < 8 * newSize <= HeapModel.Largest(heap.view.free)
      modifies heap, heap.Repr()
      ensures heap.Valid() && fresh(heap.Repr() - old(heap.Repr())) && HeapTheory.Tidy(heap.view, top)
      ensures heap.view.used == [HeapModel.Block(newJar, 8 * newSize)] + old(heap.view.used)
      ensures forall b :: b in old(heap.view.used) ==>
                HeapTheory.Disjoint(HeapModel.Block(newJar, 8 * newSize), b) && b.start != newJar
      ensures HeapModel.MEM_BOTTOM <= newJar && newJar + 8 * newSize <= top
    {
      ghost var used0 := heap.view.used;
      LargestIsSize(heap.view, top);
      MallocGives(heap.view, 8 * newSize, top);
      hide *;
      newJar := MallocSlots(newSize);
      FreshBlock(heap.view, used0, newJar, newSize, top);
    }

    /** Mfree of the old jar. */
    method DropBlock(oldJar: u32, ghost oldSize: slots)
      requires heap.Valid() && HeapTheory.Tidy(heap.view, top) && Owns(heap.view.used, oldJar, oldSize)
      modifies heap, heap.Repr()
      ensures heap.Valid() && heap.Repr() <= old(heap.Repr()) && HeapTheory.Tidy(heap.view, top)
      ensures forall b :: b in old(heap.view.used) && b.start != oldJar ==> b in heap.view.used
    {
      hide Allocator.MemoryManager.Valid;
      ghost var h := heap.view;
      HeapCoalescing.MfreeKeepsTidy(h, oldJar, top);
      forall b | b in h.used && b.start != oldJar ensures b in HeapModel.Mfree(h, oldJar).0.used {
        MfreeLeaves(h, HeapModel.Block(oldJar, 8 * oldSize), b, top);
      }
      var code := heap.Mfree(oldJar);
    }

    /** The first half of ResizeCookieJar: a copy of the jar in a fresh block. */
    method CopyJar(oldJar: u32, currentSize: u32, newSize: slots) returns (newJar: u32)
      requires Valid() && oldJar == Base() && currentSize == |entries| + 1 <= newSize
      requires 8 * newSize <= HeapModel.Largest(heap.view.free)
      modifies ram, heap, heap.Repr()
      ensures heap.Valid() && HeapTheory.Tidy(heap.view, top) && fresh(heap.Repr() - old(heap.Repr()))
      ensures heap.view.used == [HeapModel.Block(newJar, 8 * newSize)] + old(heap.view.used)
      ensures newJar == Base() != oldJar && Slots(ram[..], newJar, entries, newSize)
      ensures forall b :: b in old(heap.view.used) ==> b.start != newJar
      ensures forall a :: 0 <= a < ram.Length && Outside(a, newJar, newSize) ==> ram[..][a] == old(ram[..])[a]
    {
      hide Allocator.MemoryManager.Valid;
      BlockFits(heap.view, top, oldJar, capacity);
      assert HeapModel.Block(oldJar, 8 * capacity) in heap.view.used;
      newJar := GetBlock(newSize);
      ghost var nodes, h := heap.Repr(), heap.view;
      MoveJar(oldJar, newJar, currentSize, newSize);
      assert heap.Repr() == nodes && heap.view == h;
    }

    /** ResizeCookieJar: copy the jar into a fresh block of `newSize` slots and free the old one. */
    method ResizeCookieJar(currentSize: u32, newSize: slots) returns (newJar: u32)
      requires Valid() && currentSize == |entries| + 1 <= newSize
      requires 8 * newSize <= HeapModel.Largest(heap.view.free)
      modifies this`capacity, ram, heap, heap.Repr()
      ensures Valid() && capacity == newSize && newJar == Base()
      ensures fresh(heap.Repr() - old(heap.Repr()))
      ensures forall a :: 0 <= a < ram.Length && Outside(a, newJar, newSize) ==> ram[..][a] == old(ram[..])[a]
      ensures forall b :: b in old(heap.view.used) && b.start != old(Base()) ==> b in heap.view.used && b.start != Base()
    {
      hide *;
      ghost var nodes0 := heap.Repr();
      var oldJar := ReadBase();
      ghost var used, oldSize := heap.view.used, capacity;
      assert heap.Repr() == nodes0;
      label L:
      newJar := CopyJar(oldJar, currentSize, newSize);
      ghost var nodes := heap.Repr();
      assert old@L(heap.Repr()) == nodes0;
      assert fresh@L(nodes - old@L(heap.Repr()));
      assert fresh@L(nodes - nodes0);
      forall x | x in nodes && x !in nodes0 ensures fresh(x) {
        assert fresh@L(x);
      }
      assert fresh(nodes - nodes0);
      assert fresh(nodes - old(heap.Repr()));
      StillOwns(HeapModel.Block(newJar, 8 * newSize), used, oldJar, oldSize);
      DropJar(oldJar, oldSize, newJar, newSize);
      assert heap.Repr() <= nodes;
    }

    /** The second half of ResizeCookieJar: the copy is the jar now, and the old one is freed. */
    method DropJar(oldJar: u32, ghost oldSize: slots, newJar: u32, ghost newSize: slots)
      requires heap.Valid() && HeapTheory.Tidy(heap.view, top) && P_COOKIES + 4 <= top <= ram.Length <= TWO_32
      requires Owns(heap.view.used, oldJar, oldSize) && HeapModel.Block(newJar, 8 * newSize) in heap.view.used
      requires newJar == Base() != oldJar && |entries| + 1 <= newSize && Keyed(entries) && Slots(ram[..], newJar, entries, newSize)
      modifies this`capacity, heap, heap.Repr()
      ensures Valid() && capacity == newSize && heap.Repr() <= old(heap.Repr())
      ensures forall b :: b in old(heap.view.used) && b.start != oldJar ==> b in heap.view.used
    {
      hide *;
      ghost var m := ram[..];
      DropBlock(oldJar, oldSize);
      assert ram[..] == m;
      capacity := newSize;
      InOrder();
    }

    /** What makes a jar valid. */
    lemma InOrder()
      requires heap.Valid() && HeapTheory.Tidy(heap.view, top) && P_COOKIES + 4 <= top <= ram.Length <= TWO_32
      requires HeapModel.Block(Base(), 8 * capacity) in heap.view.used
      requires |entries| + 1 <= capacity && Keyed(entries) && Slots(ram[..], Base(), entries, capacity)
      ensures Valid()
    {
    }

    /** The writes at the end of WriteCookie: the cookie into slot `i` and, if the key is new, a
        terminator behind it. */
    method Store(address: u32, key: u32, value: u32, found: bool, maxCount: u32, ghost base: u32, ghost i: nat)
      requires heap.Valid()
      requires address == base + 8 * i && base + 8 * i + (if found then 8 else 16) <= ram.Length <= TWO_32
      modifies ram
      ensures heap.Valid()
      ensures ram[..] == Stored(old(ram[..]), base, i, Cookie(key, value), found, maxCount)
    {
      hide Allocator.MemoryManager.Valid;
      WriteLong(ram, address, key);
      WriteLong(ram, address + 4, value);
      if !found {
        WriteLong(ram, address + 8, 0);
        WriteLong(ram, address + 12, maxCount);
      }
    }

    /** Whether writing `key` makes the jar grow. */
    ghost predicate Full(key: u32)
      reads this
    {
      IndexOf(entries, key) == |entries| && |entries| + 1 == capacity
    }

    /** The part of WriteCookie after the scan and before the writes: make room if the jar is full. */
    method MakeRoom(address0: u32, found: bool, count: u32, maxCount0: u32, ghost key: u32)
      returns (address: u32, maxCount: u32)
      requires Valid()
      requires Full(key) ==> 16 * capacity <= HeapModel.Largest(heap.view.free)
      requires var i := IndexOf(entries, key);
               address0 == Base() + 8 * i && count == i + 1 && (found <==> i < |entries|) && (!found ==> maxCount0 == capacity)
      modifies this`capacity, ram, heap, heap.Repr()
      ensures Valid() && fresh(heap.Repr() - old(heap.Repr()))
      ensures capacity == if old(Full(key)) then 2 * old(capacity) else old(capacity)
      ensures !old(Full(key)) ==> heap.Repr() == old(heap.Repr())
      ensures address == Base() + 8 * IndexOf(entries, key) && (!found ==> maxCount == capacity && |entries| + 2 <= capacity)
      ensures forall a :: 0 <= a < ram.Length && Outside(a, Base(), capacity) ==> ram[..][a] == old(ram[..])[a]
      ensures forall b :: b in old(heap.view.used) && b.start != old(Base()) ==> b in heap.view.used && b.start != Base()
    {
      hide Allocator.MemoryManager.Valid;
      address, maxCount := address0, maxCount0;
      if !found && count == maxCount {
        LargestIsSize(heap.view, top);
        var base := ReadLong(ram, P_COOKIES);
        maxCount := maxCount * 2;
        var newBase := ResizeCookieJar(count, maxCount);
        BlockFits(heap.view, top, newBase, capacity);
        address := U32(address + newBase - base);
      }
    }

    /** WriteCookie. For a non-zero key the jar then stands for the old table updated at the key; a
        zero key only overwrites the capacity in the terminator. Every other block in use stays in use
        and keeps its bytes. */
    method WriteCookie(key: u32, value: u32)
      requires Valid()
      requires Full(key) ==> 16 * capacity <= HeapModel.Largest(heap.view.free)
      modifies this, ram, heap, heap.Repr()
      ensures fresh(heap.Repr() - old(heap.Repr()))
      ensures capacity == if old(Full(key)) then 2 * old(capacity) else old(capacity)
      ensures !old(Full(key)) ==> heap.Repr() == old(heap.Repr())
      ensures ValidBut(if key != 0 then capacity else value)
      ensures entries == if key != 0 then Put(old(entries), key, value) else old(entries)
      ensures forall a :: 0 <= a < ram.Length && Outside(a, Base(), capacity) ==> ram[..][a] == old(ram[..])[a]
      ensures forall b :: b in old(heap.view.used) && b.start != old(Base()) ==> b in heap.view.used && b.start != Base()
      ensures forall b, a :: b in old(heap.view.used) && b.start != old(Base()) && b.start <= a < b.End() ==>
                0 <= a < ram.Length && ram[..][a] == old(ram[..])[a]
    {
      hide Allocator.MemoryManager.Valid;
      var address, found, maxCount := Locate(key);
      ghost var nodes := heap.Repr();
      StoreCookie(address, key, value, found, maxCount);
      assert heap.Repr() == nodes;
      OthersKeepBytes(old(heap.view.used), old(Base()), old(ram[..]), if key != 0 then capacity else value);
    }

    /** Whether the jar can take `key`: it does not have to grow, or the memory manager has a block for
        the larger jar. */
    method HasRoom(key: u32) returns (ok: bool)
      requires Valid()
      modifies heap, heap.Repr()
      ensures Valid() && heap.view == old(heap.view) && fresh(heap.Repr() - old(heap.Repr()))
      ensures ok <==> (Full(key) ==> 16 * capacity <= HeapModel.Largest(heap.view.free))
    {
      hide Allocator.MemoryManager.Valid, HeapTheory.Tidy, HeapModel.Largest, Keyed, IndexOf;
      var base := ReadBase();
      var address, found, count, maxCount := FindSlot(key, base);
      ok := true;
      if !found && count == maxCount {
        var largest := Available();
        ok := 16 * maxCount <= largest;
      }
    }

    /** Malloc(-1). */
    method Available() returns (largest: u32)
      requires Valid()
      modifies heap, heap.Repr()
      ensures Valid() && heap.view == old(heap.view) && fresh(heap.Repr() - old(heap.Repr()))
      ensures largest == HeapModel.Largest(heap.view.free)
    {
      largest := heap.Malloc(-1);
    }

    /** Any run of WriteCookie with non-zero keys, up to the first that would have to grow the jar when
        memory is out: every key reads as the last value written for it, or as before the run. */
    method WriteAll(writes: seq<Cookie>) returns (done: nat)
      requires Valid() && NonZero(writes)
      modifies this, ram, heap, heap.Repr()
      ensures Valid() && fresh(heap.Repr() - old(heap.Repr()))
      ensures done <= |writes|
      ensures done < |writes| ==> Full(writes[done].key) && 16 * capacity > HeapModel.Largest(heap.view.free)
      ensures forall key :: LookUp(entries, key)
                == if LastWrite(writes[..done], key).Some? then LastWrite(writes[..done], key) else LookUp(old(entries), key)
    {
      ghost var before := entries;
      assert Keyed(before);
      done := Run(writes);
      hide *;
      forall key ensures LookUp(entries, key)
                == if LastWrite(writes[..done], key).Some? then LastWrite(writes[..done], key) else LookUp(before, key)
      {
        RunReadsLast(before, writes[..done], key);
      }
    }

    /** The same run, slot by slot. */
    method Run(writes: seq<Cookie>) returns (done: nat)
      requires Valid() && NonZero(writes)
      modifies this, ram, heap, heap.Repr()
      ensures Valid() && fresh(heap.Repr() - old(heap.Repr()))
      ensures done <= |writes| && entries == PutFirst(old(entries), writes, done)
      ensures done < |writes| ==> Full(writes[done].key) && 16 * capacity > HeapModel.Largest(heap.view.free)
    {
      ghost var before, nodes := entries, heap.Repr();
      PutNone(before, writes);
      hide *;
      done := 0;
      while done < |writes|
        invariant done <= |writes|
        invariant Valid() && fresh(heap.Repr() - nodes)
        invariant entries == PutFirst(before, writes, done)
      {
        label L:
        ghost var others := heap.Repr();
        PutOneMore(before, writes, done);
        var ok := WriteOne(writes[done]);
        forall x | x in heap.Repr() && x !in others ensures fresh(x) {
          assert fresh@L(x);
        }
        if !ok {
          break;
        }
        done := done + 1;
      }
    }

    /** One step of such a run. */
    method WriteOne(c: Cookie) returns (ok: bool)
      requires Valid() && c.key != 0
      modifies this, ram, heap, heap.Repr()
      ensures Valid() && fresh(heap.Repr() - old(heap.Repr()))
      ensures entries == if ok then Put(old(entries), c.key, c.value) else old(entries)
      ensures !ok ==> Full(c.key) && 16 * capacity > HeapModel.Largest(heap.view.free)
    {
      hide *;
      ok := HasRoom(c.key);
      if ok {
        label L:
        ghost var nodes := heap.Repr();
        WriteCookie(c.key, c.value);
        ValidIs();
        forall x | x in heap.Repr() && x !in nodes ensures fresh(x) {
          assert fresh@L(x);
        }
      }
    }

    lemma ValidIs()
      requires ValidBut(capacity)
      ensures Valid()
    {
    }

    /** The bytes of the other blocks in use are those of `m`. */
    lemma OthersKeepBytes(used: seq<HeapModel.Block>, base: u32, m: Bytes, word: u32)
      requires ValidBut(word) && |m| == ram.Length
      requires forall a :: 0 <= a < ram.Length && Outside(a, Base(), capacity) ==> ram[..][a] == m[a]
      requires forall b :: b in used && b.start != base ==> b in heap.view.used && b.start != Base()
      ensures forall b, a :: b in used && b.start != base && b.start <= a < b.End() ==> 0 <= a < ram.Length && ram[..][a] == m[a]
    {
      forall b, a | b in used && b.start != base && b.start <= a < b.End()
        ensures 0 <= a < ram.Length && ram[..][a] == m[a]
      {
        OthersAreOutside(heap.view, Base(), capacity, top, b, a);
      }
    }

    /** The system variable. */
    method ReadBase() returns (base: u32)
      requires Valid()
      ensures base == Base() && Owns(heap.view.used, base, capacity)
      ensures P_COOKIES + 4 <= top <= ram.Length <= TWO_32 && Keyed(entries)
    {
      base := ReadLong(ram, P_COOKIES);
      BlockFits(heap.view, top, base, capacity);
    }

    /** WriteCookie up to the writes: find the slot, after making room if need be. */
    method Locate(key: u32) returns (address: u32, found: bool, maxCount: u32)
      requires Valid()
      requires Full(key) ==> 16 * capacity <= HeapModel.Largest(heap.view.free)
      modifies this`capacity, ram, heap, heap.Repr()
      ensures Valid() && fresh(heap.Repr() - old(heap.Repr()))
      ensures !old(Full(key)) ==> heap.Repr() == old(heap.Repr())
      ensures capacity == if old(Full(key)) then 2 * old(capacity) else old(capacity)
      ensures address == Base() + 8 * IndexOf(entries, key) && (found <==> IndexOf(entries, key) < |entries|)
      ensures !found ==> maxCount == capacity && |entries| + 2 <= capacity
      ensures forall a :: 0 <= a < ram.Length && Outside(a, Base(), capacity) ==> ram[..][a] == old(ram[..])[a]
      ensures forall b :: b in old(heap.view.used) && b.start != old(Base()) ==> b in heap.view.used && b.start != Base()
    {
      hide Allocator.MemoryManager.Valid, Keyed, HeapTheory.Tidy, IndexOf, HeapModel.Largest;
      var base := ReadBase();
      var count;
      address, found, count, maxCount := FindSlot(key, base);
      address, maxCount := MakeRoom(address, found, count, maxCount, key);
    }

    /** WriteCookie once there is room. */
    method StoreCookie(address: u32, key: u32, value: u32, found: bool, maxCount: u32)
      requires Valid()
      requires address == Base() + 8 * IndexOf(entries, key) && (found <==> IndexOf(entries, key) < |entries|)
      requires !found ==> maxCount == capacity && |entries| + 2 <= capacity
      modifies this`entries, ram
      ensures Base() == old(Base()) && heap.Repr() == old(heap.Repr())
      ensures ValidBut(if key != 0 then capacity else value)
      ensures entries == if key != 0 then Put(old(entries), key, value) else old(entries)
      ensures forall a :: 0 <= a < ram.Length && Outside(a, Base(), capacity) ==> ram[..][a] == old(ram[..])[a]
    {
      hide Allocator.MemoryManager.Valid, ValidBut, JarAt, IndexOf, Put, Stored, HeapTheory.Tidy;
      ghost var i, m, e := IndexOf(entries, key), ram[..], entries;
      Opened();
      Store(address, key, value, found, maxCount, Base(), i);
      StoredJar(m, ram[..], heap.view.used, e, capacity, key, value, found, maxCount);
      entries := if key != 0 then Put(e, key, value) else e;
      Closed(if key != 0 then capacity else value);
    }

    /** A valid jar in its parts. */
    lemma Opened()
      requires Valid()
      ensures heap.Valid() && HeapTheory.Tidy(heap.view, top) && P_COOKIES + 4 <= top <= ram.Length <= TWO_32
      ensures JarAt(ram[..], heap.view.used, entries, capacity, capacity) && |entries| + 1 <= capacity
      ensures P_COOKIES + 4 <= Base() && Base() + 8 * capacity <= ram.Length
    {
      BlockFits(heap.view, top, Base(), capacity);
    }

    lemma Closed(word: u32)
      requires heap.Valid() && HeapTheory.Tidy(heap.view, top) && P_COOKIES + 4 <= top <= ram.Length <= TWO_32
      requires JarAt(ram[..], heap.view.used, entries, capacity, word)
      ensures ValidBut(word)
    {
    }
  }

  /** The memory after the writes of WriteCookie. */
  ghost function Stored(m: Bytes, base: nat, i: nat, c: Cookie, found: bool, maxCount: u32): (r: Bytes)
    requires base + 8 * i + (if found then 8 else 16) <= |m|
    ensures |r| == |m|
  {
    if found then WriteSlot(m, base, i, c) else WriteSlot(WriteSlot(m, base, i, c), base, i + 1, Cookie(0, maxCount))
  }

  /** The writes of WriteCookie for a key that is in the jar. */
  lemma StoredOver(m: Bytes, base: u32, e: seq<Cookie>, capacity: slots, key: u32, value: u32)
    requires base + 8 * capacity <= |m| && |e| < capacity && Slots(m, base, e, capacity) && IndexOf(e, key) < |e| && Keyed(e)
    ensures var m' := Stored(m, base, IndexOf(e, key), Cookie(key, value), true, 0);
            && Slots(m', base, Put(e, key, value), capacity)
            && forall a :: 0 <= a < |m| && !(base <= a < base + 8 * capacity) ==> m'[a] == m[a]
  {
    OverwriteSlot(m, base, e, capacity, IndexOf(e, key), Cookie(key, value));
    WriteSlotIs(m, base, IndexOf(e, key), Cookie(key, value));
  }

  /** The writes of WriteCookie for a key that is not in the jar, zero included. */
  lemma StoredNew(m: Bytes, base: u32, e: seq<Cookie>, capacity: slots, key: u32, value: u32)
    requires base + 8 * capacity <= |m| && |e| + 2 <= capacity && Slots(m, base, e, capacity)
    ensures var m' := Stored(m, base, |e|, Cookie(key, value), false, capacity);
            && Slots(m', base, e + [Cookie(key, value)], capacity)
            && forall a :: 0 <= a < |m| && !(base <= a < base + 8 * capacity) ==> m'[a] == m[a]
  {
    WriteSlotIs(m, base, |e|, Cookie(key, value));
    WriteSlotIs(WriteSlot(m, base, |e|, Cookie(key, value)), base, |e| + 1, Cookie(0, capacity));
    AppendSlot(m, base, e, capacity, Cookie(key, value), capacity);
  }

  /** Cutting the last entry off a jar that ends in a zero key: that entry is then the terminator. */
  lemma ZeroKeyEnds(m: Bytes, base: u32, e: seq<Cookie>, value: u32, word: u32)
    requires Slots(m, base, e + [Cookie(0, value)], word)
    ensures Slots(m, base, e, value)
  {
    var e' := e + [Cookie(0, value)];
    assert SlotIs(m, base, |e|, e'[|e|]);
    forall i | 0 <= i < |e| ensures SlotIs(m, base, i, e[i]) {
      assert SlotIs(m, base, i, e'[i]);
    }
  }

  /** The same for the whole jar. */
  lemma StoredJar(m: Bytes, m': Bytes, used: seq<HeapModel.Block>, e: seq<Cookie>, capacity: slots,
                  key: u32, value: u32, found: bool, maxCount: u32)
    requires P_COOKIES + 4 <= |m| && JarAt(m, used, e, capacity, capacity)
    requires P_COOKIES + 4 <= Read32(m, P_COOKIES) && Read32(m, P_COOKIES) + 8 * capacity <= |m|
    requires found <==> IndexOf(e, key) < |e|
    requires !found ==> maxCount == capacity && |e| + 2 <= capacity
    requires m' == Stored(m, Read32(m, P_COOKIES), IndexOf(e, key), Cookie(key, value), found, maxCount)
    ensures JarAt(m', used, if key != 0 then Put(e, key, value) else e, capacity, if key != 0 then capacity else value)
    ensures forall a :: 0 <= a < |m| && !(Read32(m, P_COOKIES) <= a < Read32(m, P_COOKIES) + 8 * capacity) ==> m'[a] == m[a]
    ensures Read32(m', P_COOKIES) == Read32(m, P_COOKIES)
  {
    var base := Read32(m, P_COOKIES);
    if found {
      StoredOver(m, base, e, capacity, key, value);
    } else {
      StoredNew(m, base, e, capacity, key, value);
      if key == 0 {
        ZeroKeyEnds(m', base, e, value, capacity);
      }
    }
    SameBytes(m, m', P_COOKIES);
    if key != 0 {
      PutKeyed(e, key, value);
    }
  }

  lemma PutKeyed(e: seq<Cookie>, key: u32, value: u32)
    requires Keyed(e) && key != 0
    ensures Keyed(Put(e, key, value))
    ensures IndexOf(e, key) == |e| ==> Put(e, key, value) == e + [Cookie(key, value)]
  {
  }

  /** Writing a key into a new slot leaves the value word of an old slot elsewhere alone. */
  lemma SameValue(m: Bytes, newJar: nat, slot: nat, key: u32, oldJar: nat)
    requires newJar + 8 * slot + 8 <= |m| && oldJar + 8 * slot + 8 <= |m|
    requires newJar + 8 * slot + 8 <= oldJar || oldJar + 8 * slot + 8 <= newJar
    ensures Read32(Write32(m, newJar + 8 * slot, key), oldJar + 8 * slot + 4) == Read32(m, oldJar + 8 * slot + 4)
  {
    ReadsElsewhere(m, newJar + 8 * slot, key, oldJar + 8 * slot + 4);
  }

  // ---------------------------------------------------------------- what growing does to the heap

  /** A request that fits gives a block of exactly that size, clear of every used block. */
  lemma MallocGives(h: HeapModel.Heap, size: s32, top: int)
    requires HeapTheory.Tidy(h, top) && h.used != []
    requires 0 < size <= HeapModel.Largest(h.free) && size % 4 == 0
    ensures HeapModel.Ends(h, size)
    ensures HeapTheory.Tidy(HeapModel.Malloc(h, size).0, top)
    ensures HeapModel.Malloc(h, size).0.used == [HeapModel.Block(HeapModel.Malloc(h, size).1, size)] + h.used
  {
    assert RoundUp4(size) == size;
    HeapRuns.MallocSucceedsIff(h, size, top);
    HeapCoalescing.MallocKeepsTidy(h, size, top);
  }

  /** The newest used block is clear of every other one. */
  lemma NewestIsClear(h: HeapModel.Heap, b: HeapModel.Block, top: int)
    requires HeapTheory.Tidy(h, top) && h.used != [] && b in h.used[1..]
    ensures HeapTheory.Disjoint(h.used[0], b)
  {
    var i :| 0 <= i < |h.used[1..]| && h.used[1..][i] == b;
    HeapTheory.UsedDisjoint(h, top, 0, i + 1);
  }

  /** A block in use stays owned when another one joins the list. */
  lemma StillOwns(b: HeapModel.Block, used: seq<HeapModel.Block>, base: u32, capacity: slots)
    requires Owns(used, base, capacity)
    ensures Owns([b] + used, base, capacity)
  {
    assert HeapModel.Block(base, 8 * capacity) in used;
  }

  lemma FreshBlock(h: HeapModel.Heap, used0: seq<HeapModel.Block>, newJar: u32, newSize: slots, top: int)
    requires HeapTheory.Tidy(h, top) && h.used == [HeapModel.Block(newJar, 8 * newSize)] + used0
    requires newSize > 0
    ensures forall b :: b in used0 ==> HeapTheory.Disjoint(HeapModel.Block(newJar, 8 * newSize), b) && b.start != newJar
    ensures HeapModel.MEM_BOTTOM <= newJar && newJar + 8 * newSize <= top
  {
    assert h.used[0] == HeapModel.Block(newJar, 8 * newSize) && h.used[1..] == used0;
    BlockFits(h, top, newJar, newSize);
    forall b | b in used0 ensures HeapTheory.Disjoint(h.used[0], b) && b.start != newJar {
      NewestIsClear(h, b, top);
      assert b in h.used && b.size > 0;
    }
  }

  lemma FirstMalloc(top: int)
    requires HeapModel.MEM_BOTTOM + 0x800 <= top < TWO_31
    ensures HeapModel.Ends(HeapModel.InitialHeap(top), 0x800)
    ensures var (h, p) := HeapModel.Malloc(HeapModel.InitialHeap(top), 0x800);
            && HeapTheory.Tidy(h, top) && p == HeapModel.MEM_BOTTOM
            && h.used == [HeapModel.Block(HeapModel.MEM_BOTTOM, 0x800)]
  {
    var h := HeapModel.InitialHeap(top);
    HeapTheory.InitialTidy(top);
    HeapCoalescing.MallocKeepsTidy(h, 0x800, top);
    assert RoundUp4(0x800) == 0x800;
    assert HeapModel.FitFrom(h.free, -1, 0x800, 1) == Some(0);
  }

  lemma LargestIsSize(h: HeapModel.Heap, top: int)
    requires HeapTheory.Sane(h, top)
    ensures HeapModel.Largest(h.free) < TWO_31
  {
    HeapModel.LargestIsMax(h.free);
    forall b | b in h.free ensures U32(b.size) < TWO_31 {
      assert HeapTheory.Within(b, top);
    }
  }

  /** In a tidy heap every other block in use lies outside the jar's block. */
  lemma OthersAreOutside(h: HeapModel.Heap, base: u32, size: slots, top: int, b: HeapModel.Block, a: int)
    requires HeapTheory.Tidy(h, top) && Owns(h.used, base, size)
    requires b in h.used && b.start != base && b.start <= a < b.End()
    ensures Jar.Outside(a, base, size) && 0 <= a < top
  {
    var i :| 0 <= i < |h.used| && h.used[i] == HeapModel.Block(base, 8 * size);
    var j :| 0 <= j < |h.used| && h.used[j] == b;
    HeapTheory.UsedDisjoint(h, top, if i < j then i else j, if i < j then j else i);
    assert HeapTheory.Within(b, top);
  }

  /** Freeing one used block of a tidy heap leaves all the others. */
  lemma MfreeLeaves(h: HeapModel.Heap, b: HeapModel.Block, c: HeapModel.Block, top: int)
    requires HeapTheory.Tidy(h, top) && b in h.used && c in h.used && c != b
    ensures c in HeapModel.Mfree(h, b.start).0.used
  {
    var i :| 0 <= i < |h.used| && h.used[i] == b;
    var f := HeapModel.Find(h.used, b.start);
    if f < i {
      HeapTheory.UsedDisjoint(h, top, f, i);
    }
    var j :| 0 <= j < |h.used| && h.used[j] == c;
    assert HeapModel.Remove(h.used, f)[if j < f then j else j - 1] == c;
  }

  /** A used block of a tidy heap lies in the pool. */
  lemma BlockFits(h: HeapModel.Heap, top: int, base: u32, capacity: slots)
    requires HeapTheory.Sane(h, top) && Owns(h.used, base, capacity)
    ensures HeapModel.MEM_BOTTOM <= base && base + 8 * capacity <= top < TWO_31
  {
    assert HeapTheory.Within(HeapModel.Block(base, 8 * capacity), top);
  }
}
