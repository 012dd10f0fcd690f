/** The hashtable itself: struct_coucal and the operations that update it in place. */
module Hashtable {
  import opened Items
  import opened StringPool
  import opened Contents
  import opened Relocation
  import opened Cuckoo
  import opened Trails
  import opened Slots
  import opened PoolSize

  const MAX_LG_SIZE := 32

  lemma DupGivenBack(dups: map<nat, Key>, h: nat)
    requires h in dups
    ensures |dups| == |dups - {h}| + 1
  {
    assert dups.Keys == (dups - {h}).Keys + {h};
  }

  /** The sum of two uintptr_t. */
  function Sum(a: Value, b: Value): Value {
    (a + b) % 0x1_0000_0000_0000_0000
  }

  lemma SumWraps(a: Value, b: Value)
    ensures Sum(a, b) - a - b == 0 || Sum(a, b) - a - b == -0x1_0000_0000_0000_0000
    ensures Sum(0, b) == b
  {
  }

  /** The cast of a value to int: the low 32 bits, as two's complement. */
  function IntCast(v: Value): int {
    var low := v % 0x1_0000_0000;
    if low < 0x8000_0000 then low else low - 0x1_0000_0000
  }

  /** The `intg` member of a value. */
  function Signed(v: Value): int {
    if v < 0x8000_0000_0000_0000 then v else v - 0x1_0000_0000_0000_0000
  }

  /** (size_t) -1. */
  const MINUS_ONE: Value := 0xffff_ffff_ffff_ffff

  /** The cast is the int that is congruent to the value modulo 2^32, and `intg` the signed number
      that is congruent to it modulo 2^64. */
  lemma CastsCongruent(v: Value)
    ensures -0x8000_0000 <= IntCast(v) < 0x8000_0000 && (v - IntCast(v)) % 0x1_0000_0000 == 0
    ensures -0x8000_0000_0000_0000 <= Signed(v) < 0x8000_0000_0000_0000
    ensures v - Signed(v) == 0 || v - Signed(v) == 0x1_0000_0000_0000_0000
  {
  }

  /** The cast keeps a value exactly when it fits in an int. */
  lemma IntCastKeeps(v: Value)
    ensures IntCast(v) == Signed(v) <==> -0x8000_0000 <= Signed(v) < 0x8000_0000
  {
  }

  /** What is promised of coucal_inc and coucal_dec is the value after the call. They return it
      exactly when the value before is in the range of an int, moved by one. */
  lemma IncReturnsValue(v: Value)
    ensures IntCast(Sum(v, 1)) == Signed(v) + 1 <==> -0x8000_0001 <= Signed(v) < 0x7fff_ffff
    ensures IntCast(Sum(v, MINUS_ONE)) == Signed(v) - 1 <==> -0x8000_0000 < Signed(v) <= 0x8000_0000
  {
    if v != 0x7fff_ffff_ffff_ffff {
      assert Signed(Sum(v, 1)) == Signed(v) + 1;
      IntCastKeeps(Sum(v, 1));
    }
    if v != 0x8000_0000_0000_0000 {
      assert Signed(Sum(v, MINUS_ONE)) == Signed(v) - 1;
      IntCastKeeps(Sum(v, MINUS_ONE));
    }
  }

  /** A counter at the largest int: what coucal_inc returns is the smallest one. */
  lemma IncOfLargest()
    ensures IntCast(Sum(0x7fff_ffff, 1)) == -0x8000_0000 && Signed(0x7fff_ffff) + 1 == 0x8000_0000
  {
  }

  /** A key argument: a string of the caller's, or an address inside the pool. */
  datatype KeyArg = Text(key: Key) | Address(addr: nat)

  lemma LargestSize()
    ensures Pow2(MIN_LG_SIZE) == 16 && Pow2(MAX_LG_SIZE) == 0x1_0000_0000
  {
    assert Pow2(8) == 256;
    assert Pow2(16) == 256 * Pow2(8);
    assert Pow2(24) == 256 * Pow2(16);
    assert Pow2(32) == 256 * Pow2(24);
  }

  /** What a write returns; the last two are fatal assertions. */
  datatype WriteResult = Replaced | Added | StashCollision | TooLarge {
    predicate Fatal() { StashCollision? || TooLarge? }
  }

  /** Where an entry is found. */
  datatype Loc = Absent | InTable(pos: nat) | InStash(pos: nat)

  method Calloc(n: nat) returns (slots: array<Item>)
    ensures fresh(slots) && slots.Length == n
    ensures forall i :: 0 <= i < n ==> slots[i] == ZERO_ITEM
  {
    slots := new Item[n];
    forall i | 0 <= i < n {
      slots[i] := ZERO_ITEM;
    }
  }

  class Coucal {
    const handlers: Handlers
    /** Custom dup and free handlers for the keys. */
    const customKeys: bool
    /** A free handler for the values. */
    const valueFree: bool

    /** The power of two that the table was created with. */
    ghost const initialLg: nat

    var items: array<Item>
    var lgSize: nat
    var used: nat

    const stash: array<Item>
    var stashSize: nat
    var stashExtent: nat

    /** The string pool, and its address. */
    var buffer: array<Byte>
    var base: nat
    var poolSize: nat
    var poolCapacity: nat
    var poolUsed: nat

    /** The keys handed out by the dup handler and not yet given back to the free handler. */
    var dups: map<nat, Key>

    /** The number of keys that the dup handler has handed out. */
    var dupCount: nat

    /** What the table stands for. */
    ghost var contents: map<Key, Value>

    /** The keys of the entries as they were first written. */
    ghost var names: map<Key, Key>

    /** The bytes copied by all compactions, and the bytes of all released keys. */
    ghost var copied: nat
    ghost var released: nat

    /** The number of keys given back to the free handler. */
    ghost var dupsFreed: nat

    /** The non-NULL values written, those passed to the free handler, and whether a value
        was ever edited in place. */
    ghost var written: multiset<Value>
    ghost var freed: multiset<Value>
    ghost var edited: bool

    function Mem(): Memory
      reads `base, `buffer, `dups, buffer
    {
      Memory(base, buffer[..], dups)
    }

    /** All the slots: the table, then the stash. */
    ghost function Locs(): seq<Item>
      reads `items, items, stash
    {
      items[..] + stash[..]
    }

    ghost function Live(): multiset<Item>
      reads `items, items, stash
    {
      LiveOf(Locs())
    }

    /** The table and the stash. */
    ghost function Slots(): Both
      reads `items, items, stash
    {
      Both(items[..], stash[..])
    }

    ghost predicate Shape()
      reads `items, `lgSize, `stashSize, `stashExtent, items, stash
    {
      items != stash && SlotsOk(lgSize, items[..], stash[..], stashSize, stashExtent)
    }

    // ----- Adding an item -----

    /** The emergency stashing at the end of coucal_add_item_: in the first hole, or else
        above all entries. False is the fatal "cuckoo/stash collision". */
    method StashItem(item: Item) returns (ok: bool)
      requires StashOk(stash[..], stashSize, stashExtent) && item.Live()
      modifies stash, `stashSize, `stashExtent
      ensures StashOk(stash[..], stashSize, stashExtent)
      ensures ok <==> old(stashSize) < STASH_SIZE
      ensures stashSize == if ok then old(stashSize) + 1 else old(stashSize)
      ensures LiveOf(stash[..]) == old(LiveOf(stash[..])) + if ok then multiset{item} else multiset{}
      ensures ok ==> FirstHole(old(stash[..]), old(stashExtent)) < STASH_SIZE
      ensures stash[..] == old(
        if stashSize < STASH_SIZE then stash[..][FirstHole(stash[..], stashExtent) := item] else stash[..])
    {
      hide LiveOf;
      ghost var before := stash[..];
      if stashSize < STASH_SIZE {
        StashPut(before, stashSize, stashExtent, item);
        var i := 0;
        while i < stashExtent && stash[i].Live()
          invariant i <= stashExtent
          invariant forall j :: 0 <= j < i ==> stash[j].Live()
        {
          i := i + 1;
        }
        assert i == FirstHole(before, stashExtent);
        if i == stashExtent {
          stashExtent := stashExtent + 1;
        }
        stash[i] := item;
        assert stash[..] == before[i := item];
        stashSize := stashSize + 1;
        ok := true;
      } else {
        assert LiveOf(before) + multiset{} == LiveOf(before);
        ok := false;
      }
    }

    /** The displacement loop of coucal_add_item_. */
    method Displace(item: Item) returns (placed: bool, hand: Item)
      requires AllHome(lgSize, items[..]) && Clean(items[..]) && item.Live()
      modifies items
      ensures var r := Walk(lgSize, old(items[..]), item, item.hashes.hash1, item.hashes.hash1, Pow2(lgSize));
        items[..] == r.items && placed == r.Placed? && (!placed ==> hand == r.hand)
    {
      hide And;
      var hash := item.hashes.hash1;
      var initial := hash;
      hand := item;
      ghost var r := Walk(lgSize, items[..], hand, hash, initial, Pow2(lgSize));
      var loops := Pow2(lgSize);
      while loops != 0
        invariant AllHome(lgSize, items[..]) && Clean(items[..]) && hand.Live() && OwnHash(hand, hash)
        invariant r == Walk(lgSize, items[..], hand, hash, initial, loops)
      {
        var pos := Pos(lgSize, hash);
        ghost var now := items[..];
        PlaceConserves(lgSize, now, pos, hand);
        if !items[pos].Live() {
          items[pos] := hand;
          assert items[..] == now[pos := hand];
          return true, hand;
        }
        var backup := items[pos];
        items[pos] := hand;
        assert items[..] == now[pos := hand];
        hand := backup;
        if pos == Pos1(lgSize, hand) {
          hash := hand.hashes.hash2;
        } else if pos == Pos2(lgSize, hand) {
          hash := hand.hashes.hash1;
        } else {
          assert false;  // "unexpected position"
        }
        if hash == initial {
          return false, hand;
        }
        loops := loops - 1;
      }
      placed := false;
    }

    /** coucal_add_item_: at position 1, at position 2, or by kicking items around; in the stash
        when that fails. */
    method InsertItem(item: Item) returns (ok: bool, ghost hand: Item)
      requires Shape() && item.Live()
      modifies items, stash, `stashSize, `stashExtent
      ensures var r := Add(lgSize, old(items[..]), item);
        && items[..] == r.items
        && (ok <==> r.Placed? || old(stashSize) < STASH_SIZE)
        && stashSize == (if !r.Placed? && ok then old(stashSize) + 1 else old(stashSize))
        && (!ok ==> hand == r.hand && stash[..] == old(stash[..]))
        && (ok ==> StashedBy(r, old(stash[..]), stash[..]))
      ensures !old(items[Pos1(lgSize, item)]).Live() ==>
        items[..] == old(items[..])[Pos1(lgSize, item) := item]
      ensures old(items[Pos1(lgSize, item)]).Live() && !old(items[Pos2(lgSize, item)]).Live() ==>
        items[..] == old(items[..])[Pos2(lgSize, item) := item]
      ensures Slots() == old(Inserted(lgSize, Slots(), item))
      ensures Shape()
    {
      hide And, Justified, Conserves, FirstHole, Collided, LiveOf, AllHome;
      ghost var before, stashed := items[..], stash[..];
      TableSize(lgSize, before);
      ghost var r := Add(lgSize, before, item);
      AddConserves(lgSize, before, item);
      ConservesKeeps(lgSize, before, item, r);
      FirstHoleIs(stashed, stashSize, stashExtent);

      var pos1, pos2 := Pos1(lgSize, item), Pos2(lgSize, item);
      ok, hand := true, item;
      if !items[pos1].Live() {
        items[pos1] := item;
      } else if !items[pos2].Live() {
        items[pos2] := item;
      } else {
        var placed, last := Displace(item);
        if !placed {
          hand := last;
          ok := StashItem(last);
        }
      }
      assert items[..] == r.items;
      FullHole(stashed, old(stashSize), old(stashExtent));
    }

    /** coucal_add_item_, with what it means for the live items and the blocked ones. */
    method AddItem(item: Item) returns (ok: bool, ghost hand: Item)
      requires Shape() && item.Live()
      requires 2 * |LiveOf(items[..])| < Pow2(lgSize)
      modifies items, stash, `stashSize, `stashExtent
      ensures var r := Add(lgSize, old(items[..]), item);
        && items[..] == r.items
        && (ok <==> r.Placed? || old(stashSize) < STASH_SIZE)
        && stashSize == (if !r.Placed? && ok then old(stashSize) + 1 else old(stashSize))
        && (!ok ==> hand == r.hand)
      ensures !old(items[Pos1(lgSize, item)]).Live() ==>
        items[..] == old(items[..])[Pos1(lgSize, item) := item]
      ensures old(items[Pos1(lgSize, item)]).Live() && !old(items[Pos2(lgSize, item)]).Live() ==>
        items[..] == old(items[..])[Pos2(lgSize, item) := item]
      ensures Slots() == old(Inserted(lgSize, Slots(), item))
      ensures Shape()
      ensures ok ==> Live() == old(Live()) + multiset{item}
      ensures !ok ==> stash[..] == old(stash[..]) && Live() + multiset{hand} == old(Live()) + multiset{item}
      ensures old(StashBlocked(lgSize, items[..], stash[..])) ==>
        if ok then StashBlocked(lgSize, items[..], stash[..]) else Collided(lgSize, items[..], stash[..], hand)
    {
      hide And, Justified, Conserves, FirstHole, Collided, AllHome, LiveOf, Inserted, Add;
      ghost var before, stashed := items[..], stash[..];
      TableSize(lgSize, before);
      ghost var r := Add(lgSize, before, item);
      AddConserves(lgSize, before, item);
      ok, hand := InsertItem(item);
      if ok {
        AddLive(lgSize, before, stashed, item, r, stash[..]);
        if StashBlocked(lgSize, before, stashed) {
          AddBlocked(lgSize, before, stashed, item, stash[..]);
        }
      } else {
        StashSizeBound(stashed, stashExtent);
        AddCollides(lgSize, before, stashed, stashExtent, item);
      }
    }

    /** Lowers the extent of the stash to its last live entry. */
    method TrimStash()
      requires StashLoose(stash[..], stashSize, stashExtent)
      modifies `stashExtent
      ensures StashOk(stash[..], stashSize, stashExtent) && stashExtent <= old(stashExtent)
    {
      while stashExtent != 0 && !stash[stashExtent - 1].Live()
        invariant StashLoose(stash[..], stashSize, stashExtent) && stashExtent <= old(stashExtent)
      {
        stashExtent := stashExtent - 1;
      }
    }

    /** One iteration of coucal_drain_stash. */
    method DrainSlot(i: nat)
      requires AllHome(lgSize, items[..]) && Clean(items[..]) && items != stash
      requires StashLoose(stash[..], stashSize, stashExtent) && i < stashExtent
      modifies items, stash, `stashSize
      ensures AllHome(lgSize, items[..]) && Clean(items[..])
      ensures StashLoose(stash[..], stashSize, stashExtent) && stashSize <= old(stashSize)
      ensures LiveOf(items[..]) + LiveOf(stash[..]) == old(LiveOf(items[..]) + LiveOf(stash[..]))
      ensures forall j :: 0 <= j < items.Length && old(items[j]).Live() ==> items[j].Live()
      ensures forall j :: 0 <= j < stash.Length && j != i ==> stash[j] == old(stash[j])
      ensures var x := old(stash[i]); x.Live() ==>
        && (!old(items[Pos1(lgSize, x)]).Live() ==> items[..] == old(items[..])[Pos1(lgSize, x) := x])
        && (old(items[Pos1(lgSize, x)]).Live() && !old(items[Pos2(lgSize, x)]).Live() ==>
              items[..] == old(items[..])[Pos2(lgSize, x) := x])
      ensures Both(items[..], stash[..]) == old(DrainedAt(lgSize, Both(items[..], stash[..]), i))
      ensures stash[i].Live() ==> Blocked(lgSize, items[..], stash[i])
    {
      var item := stash[i];
      if item.Live() {
        var pos1, pos2 := Pos1(lgSize, item), Pos2(lgSize, item);
        if !items[pos1].Live() || !items[pos2].Live() {
          var pos := if !items[pos1].Live() then pos1 else pos2;
          DrainStep(lgSize, items[..], stash[..], stashSize, stashExtent, i, pos);
          items[pos] := item;
          stash[i] := ZERO_ITEM;
          stashSize := stashSize - 1;
          assert items[..] == old(items[..])[pos := item] && stash[..] == old(stash[..])[i := ZERO_ITEM];
        }
      }
    }

    /** coucal_drain_stash: moves back to the table all the stashed items that fit. */
    method DrainStash()
      requires Shape()
      modifies items, stash, `stashSize, `stashExtent
      ensures Shape()
      ensures Live() == old(Live())
      ensures stashSize <= old(stashSize)
      ensures StashBlocked(lgSize, items[..], stash[..])
      ensures Both(items[..], stash[..]) == old(Drained(lgSize, Both(items[..], stash[..]), stashExtent))
    {
      hide And, LiveOf;
      LiveOfConcat(items[..], stash[..]);
      for i := 0 to stashExtent
        invariant stashExtent == old(stashExtent)
        invariant AllHome(lgSize, items[..]) && Clean(items[..]) && StashLoose(stash[..], stashSize, stashExtent)
        invariant LiveOf(items[..]) + LiveOf(stash[..]) == old(Live()) && stashSize <= old(stashSize)
        invariant StashBlocked(lgSize, items[..], stash[..i])
        invariant Both(items[..], stash[..]) == old(Drained(lgSize, Both(items[..], stash[..]), i))
      {
        ghost var table, done := items[..], stash[..i];
        DrainSlot(i);
        StashStaysBlocked(lgSize, table, done, items[..], stash[..i], ZERO_ITEM);
        assert stash[..i + 1] == stash[..i] + [stash[i]];
      }
      assert StashBlocked(lgSize, items[..], stash[..]);
      TrimStash();
      LiveOfConcat(items[..], stash[..]);
    }

    /** The realloc of the slot array to twice its size, and the clearing of its upper half. */
    method Enlarge()
      modifies `items
      ensures fresh(items) && items.Length == 2 * old(items.Length)
      ensures forall k :: 0 <= k < old(items.Length) ==> items[k] == old(items[k])
      ensures forall k :: old(items.Length) <= k < items.Length ==> items[k] == ZERO_ITEM
      ensures LiveOf(items[..]) == old(LiveOf(items[..]))
    {
      var size := items.Length;
      var larger := new Item[2 * size];
      forall k | 0 <= k < size {
        larger[k] := items[k];
      }
      forall k | size <= k < 2 * size {
        larger[k] := ZERO_ITEM;
      }
      assert items[..] == old(items[..]);
      assert larger[..size] == items[..];
      ZerosAppended(items[..], larger[..]);
      items := larger;
    }

    /** One iteration of the split: the item at i, if any, goes to its new position. */
    method SplitSlotAt(prevPower: nat, i: nat, ghost before: seq<Item>)
      requires lgSize == prevPower + 1 && SplitBelow(prevPower, before, items[..], i) && i < |before|
      requires AllHome(prevPower, before)
      modifies items
      ensures SplitBelow(prevPower, before, items[..], i + 1)
      ensures LiveOf(items[..]) == old(LiveOf(items[..]))
    {
      ghost var now := items[..];
      if items[i].Live() {
        var hashes := items[i].hashes;
        var hash := hashes.hash1;
        if Pos(prevPower, hashes.hash1) != i {
          hash := hashes.hash2;
          assert Pos(prevPower, hash) == i;  // not a "bad position"
        }
        SplitStep(prevPower, before, now, i, hash);
        var pos := Pos(lgSize, hash);
        if pos != i {
          assert pos >= |before|;
          SwapLive(now, i, pos);
          items[pos] := items[i];
          items[i] := ZERO_ITEM;
          assert items[..] == now[pos := now[i]][i := ZERO_ITEM];
        }
      } else {
        SplitFree(prevPower, before, now, i);
      }
    }

    /** The doubling in coucal_write_value: each item stays at its slot or moves up by the old
        size, in the array that is being scanned. */
    method Double()
      requires Shape()
      modifies `items, `lgSize
      ensures Shape() && fresh(items) && lgSize == old(lgSize) + 1
      ensures LiveOf(items[..]) == old(LiveOf(items[..]))
      ensures forall j :: 0 <= j < old(items.Length) ==>
        SplitSlot(old(lgSize), old(items[..]), items[..], j)
      ensures forall j :: 0 <= j < old(items.Length) && old(items[j]).Live() ==>
        FoundAt(old(lgSize), old(items[..]), items[..], j)
      ensures items[..] == DoubledItems(old(lgSize), old(items[..]))
    {
      hide And, Pow2, LiveOf, SplitBelow, SplitSlot, DoubledItems, FoundAt, StashOk;
      var prevPower, prevSize := lgSize, items.Length;
      ghost var before := items[..];
      lgSize := lgSize + 1;
      Enlarge();
      SplitStarts(prevPower, before, items[..]);
      for i := 0 to prevSize
        invariant fresh(items) && lgSize == prevPower + 1
        invariant SplitBelow(prevPower, before, items[..], i)
        invariant LiveOf(items[..]) == LiveOf(before)
      {
        SplitSlotAt(prevPower, i, before);
      }
      SplitEnds(prevPower, before, items[..]);
    }

    /** The reset of the stash before the merge. */
    method ClearStash()
      requires stash.Length == STASH_SIZE
      modifies stash, `stashSize, `stashExtent
      ensures StashOk(stash[..], 0, 0) && stashSize == stashExtent == 0
      ensures LiveOf(stash[..]) == multiset{} && stash[..] == EmptyStashOf(STASH_SIZE)
    {
      forall k | 0 <= k < stash.Length {
        stash[k] := ZERO_ITEM;
      }
      stashExtent := 0;
      stashSize := 0;
      assert LiveOf(stash[..]) == multiset{};
    }

    /** One iteration of the stash merge, for the entry backup[i]: never a fatal collision. */
    method MergeEntry(entry: Item, ghost backup: seq<Item>, ghost i: nat, ghost all: multiset<Item>, ghost oldSize: nat)
      requires Shape() && i < |backup| && backup[i] == entry && Clean(backup)
      requires Merging(Live(), backup, i, all, stashSize, oldSize) && oldSize <= STASH_SIZE
      requires 2 * |all| < Pow2(lgSize)
      requires StashBlocked(lgSize, items[..], stash[..])
      modifies items, stash, `stashSize, `stashExtent
      ensures Slots() == if entry.Live() then Inserted(lgSize, old(Slots()), entry) else old(Slots())
      ensures Shape()
      ensures Merging(Live(), backup, i + 1, all, stashSize, oldSize)
      ensures StashBlocked(lgSize, items[..], stash[..])
    {
      if entry.Live() {
        LiveOfConcat(items[..], stash[..]);
        MergeRoom(Live(), LiveOf(items[..]), backup, i, all, stashSize, oldSize);
        MergeFits(Live(), LiveOf(items[..]), backup, i, all, stashSize, oldSize);
        var ok, _ := AddItem(entry);
        assert ok;
      }
      assert LiveOf([entry]) == if entry.Live() then multiset{entry} else multiset{};
      MergeStep(old(Live()), backup, i, all, old(stashSize), oldSize, Live(), stashSize);
    }

    /** The stash merge after a doubling: every stashed item is added again, to an empty
        stash. It can neither overflow the stash nor make it larger. */
    method MergeStash()
      requires Shape()
      requires 2 * |Live()| < Pow2(lgSize)
      modifies items, stash, `stashSize, `stashExtent
      ensures Shape() && items.Length == Pow2(lgSize)
      ensures Live() == old(Live())
      ensures stashSize <= old(stashSize)
      ensures StashBlocked(lgSize, items[..], stash[..])
      ensures var before := Both(old(items[..]), EmptyStashOf(STASH_SIZE));
        && Slots() == Merged(lgSize, before, old(stash[..]), stash.Length)
        && AllExplained(lgSize, Live(), stash[..], before, old(stash[..]), stash.Length)
    {
      hide And, LiveOf, Merging, Clean, Blocked, AllHome, Explained, Inserted, Merged, StashOk;
      var oldExtent, oldSize := stashExtent, stashSize;
      var backup := stash[..];
      StashSizes();
      ClearStash();
      MergeStart(items[..], backup, stash[..], oldSize, oldExtent);
      ghost var b := Slots();
      MergedNothing(lgSize, b, backup);
      NoneExplained(lgSize, old(Live()), stash[..], b, backup);
      for i := 0 to oldExtent
        invariant Shape()
        invariant Merging(Live(), backup, i, old(Live()), stashSize, oldSize)
        invariant StashBlocked(lgSize, items[..], stash[..])
        invariant Slots() == Merged(lgSize, b, backup, i)
        invariant AllExplained(lgSize, old(Live()), stash[..], b, backup, i)
      {
        ExplainNext(b, backup, i, old(Live()), oldSize);
        MergedEntry(lgSize, b, backup, i);
        MergeEntry(backup[i], backup, i, old(Live()), oldSize);
      }
      MergeDone(Live(), backup, oldExtent, old(Live()), stashSize, oldSize);
      MergedFree(lgSize, b, backup, oldExtent);
      ExplainedUpTo(lgSize, Live(), stash[..], b, backup, oldExtent);
    }

    lemma StashSizes()
      requires Shape()
      ensures stash.Length == STASH_SIZE && stashExtent <= STASH_SIZE && items.Length == Pow2(lgSize)
      ensures Clean(stash[..]) && forall i :: stashExtent <= i < STASH_SIZE ==> !stash[i].Live()
    {
    }

    /** What the next step of the merge leaves in the stash is explained as well. */
    lemma ExplainNext(b: Both, backup: seq<Item>, i: nat, all: multiset<Item>, oldSize: nat)
      requires Shape() && |b.items| == Pow2(lgSize) && i < |backup| && Clean(backup)
      requires Merging(Live(), backup, i, all, stashSize, oldSize) && 2 * |all| < Pow2(lgSize)
      requires Slots() == Merged(lgSize, b, backup, i)
      requires AllExplained(lgSize, all, stash[..], b, backup, i)
      ensures AllExplained(lgSize, all, Merged(lgSize, b, backup, i + 1).stash, b, backup, i + 1)
    {
      hide And, LiveOf, Merging, Clean, AllHome, Explained, Inserted, Merged, StashOk, AllExplained;
      MergedEntry(lgSize, b, backup, i);
      if backup[i].Live() {
        LiveOfConcat(items[..], stash[..]);
        MergeRoom(Live(), LiveOf(items[..]), backup, i, all, stashSize, oldSize);
        MergeFits(Live(), LiveOf(items[..]), backup, i, all, stashSize, oldSize);
        ExplainedStep(lgSize, all, b, backup, i);
      } else {
        ExplainedSame(lgSize, all, stash[..], b, backup, i);
      }
    }

    // ----- The string pool -----

    /** The slots as the relocation loops of the pool need them: all free at and above the
        extent of the stash. */
    ghost predicate Scannable()
      reads `items, `stashExtent, items, stash
    {
      && items != stash && stash.Length == STASH_SIZE && stashExtent <= STASH_SIZE
      && Clean(Locs())
      && forall i :: stashExtent <= i < STASH_SIZE ==> !stash[i].Live()
    }

    /** Three credits for each dead byte of the pool pay for the next compaction. */
    ghost predicate Paid()
      reads `poolUsed, `poolSize, `copied, `released
    {
      poolUsed <= poolSize && copied + 3 * (poolSize - poolUsed) <= 3 * released
    }

    /** RELOCATE_STRING on a pooled name: copies a string, byte by byte, to the end of the pool. */
    method RelocateString(oldPool: array<Byte>, src: nat, ghost k: Key) returns (dest: nat)
      requires buffer != oldPool && buffer.Length == poolCapacity
      requires k != [] && Spells(oldPool[..], src, k)
      requires poolSize + |k| + 1 <= poolCapacity
      modifies buffer, `poolSize
      ensures dest == old(poolSize) && poolSize == dest + |k| + 1
      ensures buffer[..poolSize] == old(buffer[..poolSize]) + (k + [0])
    {
      dest := poolSize;
      assert forall j :: 0 <= j < |k| ==> k[j] == oldPool[..][src..src + |k|][j];
      buffer[dest] := oldPool[src];
      var i := 1;
      while oldPool[src + i - 1] != 0
        invariant 1 <= i <= |k| + 1 && src + i <= oldPool.Length && poolSize == dest
        invariant forall j :: 0 <= j < i && j < |k| ==> buffer[dest + j] == k[j]
        invariant i == |k| + 1 ==> buffer[dest + |k|] == 0
        invariant forall j :: 0 <= j < dest ==> buffer[j] == old(buffer[j])
        decreases |k| + 1 - i
      {
        buffer[dest + i] := oldPool[src + i];
        i := i + 1;
      }
      assert i == |k| + 1;
      poolSize := poolSize + i;
    }

    /** RELOCATE_STRING on the name of an item. */
    method RelocateItem(slots: array<Item>, pos: nat, oldPool: array<Byte>, oldBase: nat, ghost mem: Memory)
      requires pos < slots.Length && buffer != oldPool && buffer.Length == poolCapacity
      requires mem.bytes == oldPool[..] && mem.base == oldBase
      requires Spelled(mem, slots[pos]) && poolSize + Footprint(mem, slots[pos]) <= poolCapacity
      modifies slots, buffer, `poolSize
      ensures poolSize <= poolCapacity
      ensures buffer[..poolSize] == old(buffer[..poolSize]) + Bytes(mem, old(slots[pos]))
      ensures slots[pos] == RelocateTo(old(slots[pos]), base + old(poolSize))
      ensures forall i :: 0 <= i < slots.Length && i != pos ==> slots[i] == old(slots[i])
    {
      var name := slots[pos].name;
      if name.Pooled? {
        var dest := RelocateString(oldPool, name.addr - oldBase, KeyAt(mem, name));
        slots[pos] := slots[pos].(name := Pooled(base + dest));
      }
    }

    /** A relocation loop of coucal_compact_pool, over the slots that are numbered `from` and
        above among all slots. */
    method RelocateSlots(slots: array<Item>, count: nat, oldPool: array<Byte>, oldBase: nat,
                         ghost mem: Memory, ghost locs: seq<Item>, ghost from: nat)
      requires buffer != oldPool && buffer.Length == poolCapacity
      requires mem.bytes == oldPool[..] && mem.base == oldBase
      requires AllSpelled(mem, locs) && |Packed(mem, locs, |locs|)| <= poolCapacity
      requires count <= slots.Length && from + count <= |locs|
      requires forall j :: 0 <= j < count ==> slots[j] == locs[from + j]
      requires poolSize <= poolCapacity && buffer[..poolSize] == Packed(mem, locs, from)
      modifies slots, buffer, `poolSize
      ensures poolSize <= poolCapacity && buffer[..poolSize] == Packed(mem, locs, from + count)
      ensures forall j :: 0 <= j < count ==> slots[j] == Relocate(mem, base, locs, from + j)
      ensures forall j :: count <= j < slots.Length ==> slots[j] == old(slots[j])
    {
      hide Packed, Spelled, KeyAt, Bytes;
      for i := 0 to count
        invariant poolSize <= poolCapacity && buffer[..poolSize] == Packed(mem, locs, from + i)
        invariant forall j :: 0 <= j < i ==> slots[j] == Relocate(mem, base, locs, from + j)
        invariant forall j :: i <= j < slots.Length ==> slots[j] == old(slots[j])
      {
        assert slots[i] == locs[from + i];
        assert Spelled(mem, locs[from + i]);
        PackedStep(mem, locs, from + i);
        RelocateItem(slots, i, oldPool, oldBase, mem);
      }
    }

    /** Both relocation loops of coucal_compact_pool, into a new and empty buffer. */
    method RelocateAll(oldPool: array<Byte>, oldBase: nat, ghost mem: Memory, ghost locs: seq<Item>)
      requires Scannable() && locs == Locs()
      requires buffer != oldPool && buffer.Length == poolCapacity && poolSize == 0
      requires mem.bytes == oldPool[..] && mem.base == oldBase
      requires AllSpelled(mem, locs) && |Packed(mem, locs, |locs|)| <= poolCapacity
      modifies items, stash, buffer, `poolSize
      ensures poolSize <= poolCapacity && buffer[..poolSize] == Packed(mem, locs, |locs|)
      ensures Locs() == Relocated(mem, base, locs)
    {
      hide Packed, Spelled, AllSpelled, Clean, Relocate, Relocated, Footprint;
      ghost var table, stashed := items[..], stash[..];
      PackedNothing(mem, locs);
      RelocateSlots(items, items.Length, oldPool, oldBase, mem, locs, 0);
      RelocateSlots(stash, stashExtent, oldPool, oldBase, mem, locs, items.Length);
      PackedFree(mem, locs, items.Length + stashExtent);
      RelocatedParts(mem, base, table, stashed, stashExtent, items[..], stash[..]);
    }

    /** coucal_compact_pool. */
    method CompactPool(capacity: nat)
      requires Scannable() && PoolOk(Mem(), poolSize, poolUsed, Live())
      requires poolUsed <= capacity
      modifies items, stash, `buffer, `base, `poolSize, `poolCapacity, `poolUsed, `copied
      ensures fresh(buffer) && buffer.Length == poolCapacity == capacity
      ensures poolSize == poolUsed == old(poolUsed) && copied == old(copied) + poolUsed
      ensures Locs() == Relocated(old(Mem()), base, old(Locs()))
      ensures buffer[..poolSize] == Packed(old(Mem()), old(Locs()), |old(Locs())|)
      ensures Renamed(old(Mem()), Mem(), old(Locs()), Locs()) && PoolOk(Mem(), poolSize, poolUsed, Live())
    {
      hide Packed, Spelled, AllSpelled, PoolOk, Renamed, Clean, LiveOf, Relocated;
      ghost var mem, locs := Mem(), Locs();
      var oldPool, oldBase := buffer, base;
      PackedUsed(mem, poolSize, poolUsed, locs);
      PoolSpelled(mem, poolSize, poolUsed, locs);
      if poolCapacity != capacity {
        poolCapacity := capacity;
      }
      // malloc
      buffer := new Byte[poolCapacity];
      base := *;
      poolSize := 0;
      poolUsed := 0;
      RelocateAll(oldPool, oldBase, mem, locs);
      poolUsed := poolSize;
      copied := copied + poolSize;
      CompactionSound(mem, Mem(), old(poolSize), old(poolUsed), locs);
    }

    /** A relocation loop of coucal_realloc_pool: RECOMPUTE_STRING on the first slots. */
    method RebaseSlots(slots: array<Item>, count: nat, oldBase: nat)
      requires count <= slots.Length
      requires forall j :: 0 <= j < count && slots[j].name.Pooled? ==>
        oldBase <= slots[j].name.addr < oldBase + poolCapacity
      modifies slots
      ensures forall j :: 0 <= j < count ==> slots[j] == Rebase(oldBase, base, old(slots[j]))
      ensures forall j :: count <= j < slots.Length ==> slots[j] == old(slots[j])
    {
      for i := 0 to count
        invariant forall j :: 0 <= j < i ==> slots[j] == Rebase(oldBase, base, old(slots[j]))
        invariant forall j :: i <= j < slots.Length ==> slots[j] == old(slots[j])
      {
        if slots[i].name.Pooled? {
          var offset := slots[i].name.addr - oldBase;
          assert offset < poolCapacity;
          slots[i] := slots[i].(name := Pooled(base + offset));
        }
      }
    }

    /** The realloc of the pool: a block that may have moved, with the same bytes. */
    method MovePool(capacity: nat)
      requires buffer.Length == poolCapacity <= capacity
      modifies `buffer, `base, `poolCapacity
      ensures fresh(buffer) && buffer.Length == poolCapacity == capacity
      ensures buffer[..old(poolCapacity)] == old(buffer[..])
    {
      var larger := new Byte[capacity];
      forall k | 0 <= k < buffer.Length {
        larger[k] := buffer[k];
      }
      assert larger[..buffer.Length] == buffer[..];
      buffer := larger;
      base := *;
      poolCapacity := capacity;
    }

    /** The sizes of the pool. */
    ghost function Pool(): PoolState
      reads `poolSize, `poolUsed, `poolCapacity, `copied, `released
    {
      PoolState(poolSize, poolUsed, poolCapacity, copied, released)
    }

    /** The bytes of the pool that a key takes. */
    ghost function KeyBytes(k: Key): nat {
      if customKeys || k == [] then 0 else |k| + 1
    }

    /** The pool, and what the methods that move it rely on. */
    ghost predicate PoolShape()
      reads `items, `stashExtent, `base, `buffer, `dups, `poolUsed, `poolSize, `poolCapacity, `copied, `released
      reads items, stash, buffer
    {
      && Scannable() && Paid() && buffer.Length == poolCapacity
      && PoolOk(Mem(), poolSize, poolUsed, Live())
    }

    /** The items and the keys are those of before, up to the address of the keys. */
    twostate predicate KeysKept()
      reads `items, `stashExtent, `base, `buffer, `dups, items, stash, buffer
    {
      && items == old(items) && Clean(old(Locs())) && Scannable()
      && Renamed(old(Mem()), Mem(), old(Locs()), Locs())
    }

    /** coucal_realloc_pool. */
    method ReallocPool(capacity: nat)
      requires PoolShape() && poolCapacity <= capacity
      modifies items, stash, `buffer, `base, `poolSize, `poolCapacity, `poolUsed, `copied
      ensures PoolShape() && KeysKept()
      ensures fresh(buffer) && poolCapacity == capacity
      ensures poolUsed == old(poolUsed) && dups == old(dups)
      ensures poolSize == old(if poolUsed < (poolSize * 3) / 4 then poolUsed else poolSize)
      ensures copied == old(if poolUsed < (poolSize * 3) / 4 then copied + poolUsed else copied)
    {
      hide PoolOk, Renamed, LiveOf, Relocated, Rebased, Packed;
      ghost var mem, locs, table, stashed := Mem(), Locs(), items[..], stash[..];
      PoolBounds(mem, poolSize, poolUsed, locs);
      if poolUsed < (poolSize * 3) / 4 {
        CompactPool(capacity);
      } else {
        var oldBase := base;
        assert forall j :: 0 <= j < items.Length ==> items[j] == locs[j];
        assert forall j :: 0 <= j < stashExtent ==> stash[j] == locs[items.Length + j];
        MovePool(capacity);
        assert buffer[..poolSize] == buffer[..old(poolCapacity)][..poolSize];
        BoundedPrefix(mem, Mem(), poolSize);
        ghost var mem' := Mem();
        if base != oldBase {
          RebaseSlots(items, items.Length, oldBase);
          RebaseSlots(stash, stashExtent, oldBase);
          RebasedParts(oldBase, base, table, stashed, stashExtent, items[..], stash[..]);
        } else {
          RebasedInPlace(base, locs);
        }
        RebaseSound(mem, mem', poolSize, poolUsed, locs);
      }
      RenamedScannable(mem, Mem(), table, stashed, items[..], stash[..], stashExtent);
    }

    // ----- Key arguments -----

    /** An address given as a key is that of a string in the pool: a live key, the tail of
        one, or a dead one. */
    predicate ArgOk(arg: KeyArg)
      reads `base, `poolSize
    {
      arg.Address? ==> base <= arg.addr < base + poolSize
    }

    /** The key that an argument denotes now. */
    function ArgKey(arg: KeyArg): Key
      reads `base, `buffer, buffer
    {
      match arg
      case Text(k) => k
      case Address(a) => if a < base then [] else CString(buffer[..], a - base)
    }

    /** coucal_is_pooled. */
    predicate IsPooled(arg: KeyArg)
      reads `base, `poolCapacity
    {
      arg.Address? && base <= arg.addr < base + poolCapacity
    }

    // ----- Storing a key -----

    /** Each dup'd key was handed out under a number of its own, and is either outstanding or
        was given back, once. */
    ghost predicate DupsCounted()
      reads `dups, `dupCount, `dupsFreed
    {
      dupCount == |dups| + dupsFreed && forall h :: h in dups ==> h < dupCount
    }

    /** The dup'd keys and the pool, as they go with the live items. */
    ghost predicate NamesShape()
      reads `items, `stashExtent, `base, `buffer, `dups, `dupCount, `poolUsed, `poolSize, `poolCapacity
      reads `dupsFreed, `copied, `released, items, stash, buffer
    {
      && Scannable() && Paid() && buffer.Length == poolCapacity
      && NamesOk(customKeys, Mem(), poolSize, poolUsed, Live())
      && DupsCounted()
    }

    /** A new name for k, that belongs to no live item yet. */
    ghost predicate Named(name: Name, k: Key)
      reads `items, `stashExtent, `base, `buffer, `dups, `dupCount, `poolUsed, `poolSize, `poolCapacity
      reads `dupsFreed, `copied, `released, items, stash, buffer
    {
      && Scannable() && Paid() && buffer.Length == poolCapacity
      && NewName(customKeys, Mem(), poolSize, poolUsed, Live(), name, k)
      && DupsCounted()
    }

    /** The memcpy at the end of coucal_dup_name_internal. */
    method AppendKey(k: Key) returns (name: Name)
      requires NamesShape() && !customKeys && k != []
      requires poolSize + |k| + 1 <= poolCapacity
      modifies buffer, `poolSize, `poolUsed
      ensures poolSize == old(poolSize) + |k| + 1 && poolUsed == old(poolUsed) + |k| + 1
      ensures name == Pooled(base + old(poolSize)) && Named(name, k) && KeysKept()
    {
      hide NewName, NamesOk, LiveOf, Renamed, DupsCounted, KeyAt, Clean;
      ghost var mem := Mem();
      var at := poolSize;
      for j := 0 to |k|
        invariant forall i :: 0 <= i < j ==> buffer[at + i] == k[i]
        invariant forall i :: 0 <= i < at ==> buffer[i] == old(buffer[i])
        invariant poolSize == at && poolUsed == old(poolUsed)
      {
        buffer[at + j] := k[j];
      }
      buffer[at + |k|] := 0;
      poolSize := poolSize + |k| + 1;
      poolUsed := poolUsed + |k| + 1;
      name := Pooled(base + at);
      assert buffer[..][..at] == mem.bytes[..at];
      assert buffer[..][at..at + |k| + 1] == k + [0];
      AppendedName(mem, Mem(), at, old(poolUsed), Live(), k);
      SameKeysRenamed(mem, Mem(), Locs());
    }

    /** The expansion of the pool in coucal_dup_name_internal, for len more bytes. */
    method GrowPool(len: nat)
      requires PoolShape() && poolCapacity - poolSize < len
      modifies items, stash, `buffer, `base, `poolSize, `poolCapacity, `poolUsed, `copied
      ensures PoolShape() && KeysKept() && fresh(buffer) && dups == old(dups)
      ensures exists k: nat {:trigger Pow2(k)} ::
        && poolCapacity == 256 * Pow2(k) && poolCapacity >= old(poolSize) + len
        && (k > 0 ==> 256 * Pow2(k - 1) < old(poolSize) + len)
      ensures Pool() == Enlarged(old(Pool()), len) && poolCapacity - poolSize >= len
    {
      hide PoolOk, Scannable, Paid, KeysKept;
      var capacity := MIN_POOL_CAPACITY;
      while capacity < poolSize + len
        invariant capacity > 0 && Fit(MIN_POOL_CAPACITY, poolSize + len) == Fit(capacity, poolSize + len)
      {
        capacity := capacity * 2;
      }
      UsedBelowSize();
      ghost var k := FitDoubles(MIN_POOL_CAPACITY, poolSize + len);
      ReallocPool(capacity);
    }

    lemma UsedBelowSize()
      requires PoolShape()
      ensures poolUsed <= poolSize <= poolCapacity
    {
    }

    /** coucal_dup_name_internal: the name stored denotes what the argument denoted at the call. */
    method DupNameInternal(arg: KeyArg) returns (name: Name)
      requires NamesShape() && !customKeys && ArgOk(arg)
      modifies items, stash, buffer, `buffer, `base, `poolSize, `poolCapacity, `poolUsed, `copied
      ensures Named(name, old(ArgKey(arg))) && KeysKept()
      ensures Pool() == AfterStore(old(Pool()), old(KeyBytes(ArgKey(arg))))
      ensures buffer == old(buffer) || fresh(buffer)
    {
      hide LiveOf, Renamed, PoolOk, Enlarged;
      ghost var mem, locs := Mem(), Locs();
      ghost var k := ArgKey(arg);
      var len := |ArgKey(arg)| + 1;
      if len == 1 {
        SameKeysRenamed(mem, mem, locs);
        return Shared;
      }
      var src := arg;
      if poolCapacity - poolSize < len {
        // growing the pool may free the block that the key points into
        if IsPooled(src) {
          src := Text(ArgKey(src));
        }
        GrowPool(len);
        ghost var mem', locs' := Mem(), Locs();
        name := AppendKey(ArgKey(src));
        RenamedTwice(mem, mem', Mem(), locs, locs', Locs());
      } else {
        name := AppendKey(ArgKey(src));
      }
    }

    /** coucal_dup_name. The dup handler returns a pointer of its own to a copy of the key. */
    method DuplicateName(arg: KeyArg) returns (name: Name)
      requires NamesShape() && ArgOk(arg)
      modifies items, stash, buffer, `buffer, `base, `poolSize, `poolCapacity, `poolUsed, `copied, `dups, `dupCount
      ensures Named(name, old(ArgKey(arg))) && KeysKept()
      ensures Pool() == AfterStore(old(Pool()), old(KeyBytes(ArgKey(arg))))
      ensures dupCount == if customKeys then old(dupCount) + 1 else old(dupCount)
      ensures buffer == old(buffer) || fresh(buffer)
    {
      hide NewName, NamesOk, LiveOf, Renamed;
      if customKeys {
        ghost var mem := Mem();
        var k := ArgKey(arg);
        DupName(mem, poolSize, poolUsed, Live(), dupCount, k);
        dups := dups[dupCount := k];
        name := Dup(dupCount);
        dupCount := dupCount + 1;
        SameKeysRenamed(mem, Mem(), Locs());
      } else {
        name := DupNameInternal(arg);
      }
    }

    // ----- Releasing an item -----

    /** The end of coucal_free_key_internal: compacts a pool that is more than half dead, and
        halves one that is mostly empty at the same time. */
    method CompactIfSparse()
      requires PoolShape()
      modifies items, stash, `buffer, `base, `poolSize, `poolCapacity, `poolUsed, `copied
      ensures PoolShape() && KeysKept() && dups == old(dups)
      ensures poolUsed == old(poolUsed)
      ensures copied == if old(0 < poolUsed < poolSize / 2) then old(copied) + poolUsed else old(copied)
      ensures if old(0 < poolUsed < poolSize / 2) then
          poolSize == poolUsed && fresh(buffer)
          && poolCapacity == old(if poolUsed < poolCapacity / 4 then poolCapacity / 2 else poolCapacity)
        else
          poolSize == old(poolSize) && buffer == old(buffer) && poolCapacity == old(poolCapacity)
    {
      hide LiveOf, Renamed, PoolOk, Relocated, Packed;
      ghost var mem, locs := Mem(), Locs();
      if Sparse(poolUsed, poolSize) {
        var capacity := poolCapacity;
        if poolUsed < capacity / 4 {
          capacity := capacity / 2;
        }
        PoolBounds(mem, poolSize, poolUsed, locs);
        assert poolUsed < capacity;
        CompactPool(capacity);
      } else {
        SameKeysRenamed(mem, mem, locs);
      }
      RenamedScannable(mem, Mem(), old(items[..]), old(stash[..]), items[..], stash[..], stashExtent);
    }

    /** coucal_free_key_internal, for the pooled name of an item x that was just detached. */
    method FreeKeyInternal(addr: nat, ghost x: Item)
      requires Scannable() && Paid() && buffer.Length == poolCapacity && !customKeys
      requires x.name == Pooled(addr) && x !in Live()
      requires NamesOk(customKeys, Mem(), poolSize, poolUsed, Live() + multiset{x})
      modifies items, stash, buffer, `buffer, `base, `poolSize, `poolCapacity, `poolUsed, `copied, `released
      ensures PoolShape() && KeysKept() && dups == map[]
      ensures poolUsed + Footprint(old(Mem()), x) == old(poolUsed) && !Sparse(poolUsed, poolSize)
      ensures Pool() == AfterDrop(old(Pool()), Footprint(old(Mem()), x))
      ensures buffer == old(buffer) || fresh(buffer)
    {
      hide LiveOf, Renamed, PoolOk, CString;
      ghost var mem, locs := Mem(), Locs();
      ghost var mem' := MemFreed(mem, x.name);
      NameFreed(false, mem, poolSize, poolUsed, Live(), x);
      SameKeysRenamed(mem, mem', locs);
      var len := |ArgKey(Address(addr))| + 1;
      assert buffer[addr - base] != 0;  // no "duplicate or bad string pool release"
      poolUsed := poolUsed - len;
      released := released + len;
      buffer[addr - base] := 0;
      assert Mem() == mem';
      CompactIfSparse();
      RenamedTwice(mem, mem', Mem(), locs, locs, Locs());
    }

    /** The call of the custom free handler for a key. */
    method FreeDup(h: nat, ghost x: Item)
      requires Scannable() && Paid() && buffer.Length == poolCapacity
      requires x.name == Dup(h) && x !in Live()
      requires NamesOk(customKeys, Mem(), poolSize, poolUsed, Live() + multiset{x})
      requires DupsCounted()
      modifies `dups, `dupsFreed
      ensures NamesShape() && KeysKept()
    {
      hide LiveOf, Renamed, PoolOk, DupsOk, CString;
      ghost var mem := Mem();
      NameFreed(customKeys, mem, poolSize, poolUsed, Live(), x);
      SameKeysRenamed(mem, MemFreed(mem, x.name), Locs());
      assert h in dups;  // the free handler gets it for the first time
      DupGivenBack(dups, h);
      dups := dups - {h};
      dupsFreed := dupsFreed + 1;
    }

    /** Nothing is released for the shared empty string. */
    lemma FreeShared(x: Item)
      requires Scannable() && Paid() && buffer.Length == poolCapacity
      requires x.name == Shared && x !in Live()
      requires NamesOk(customKeys, Mem(), poolSize, poolUsed, Live() + multiset{x})
      requires DupsCounted()
      ensures NamesShape() && Renamed(Mem(), Mem(), Locs(), Locs())
    {
      hide LiveOf, Renamed, PoolOk, DupsOk, CString;
      NameFreed(customKeys, Mem(), poolSize, poolUsed, Live(), x);
      SameKeysRenamed(Mem(), Mem(), Locs());
    }

    lemma PooledNotCustom(x: Item)
      requires x.name.Pooled? && NamesOk(customKeys, Mem(), poolSize, poolUsed, Live() + multiset{x})
      ensures !customKeys
    {
      hide LiveOf, PoolOk;
      assert x in Live() + multiset{x};
    }

    /** coucal_free_key, for the name of an item x that was just detached. */
    method FreeKey(name: Name, ghost x: Item)
      requires Scannable() && Paid() && buffer.Length == poolCapacity
      requires x.Live() && x.name == name && x !in Live()
      requires NamesOk(customKeys, Mem(), poolSize, poolUsed, Live() + multiset{x})
      requires DupsCounted()
      modifies items, stash, buffer, `buffer, `base, `poolSize, `poolCapacity, `poolUsed, `copied, `released
      modifies `dups, `dupsFreed
      ensures NamesShape() && KeysKept()
      ensures Pool() == AfterDrop(old(Pool()), Footprint(old(Mem()), x))
      ensures buffer == old(buffer) || fresh(buffer)
    {
      hide LiveOf, Renamed, NamesOk, DupsCounted, KeyAt, Paid;
      match name {
        case Shared =>
          FreeShared(x);
        case Dup(h) =>
          FreeDup(h, x);
        case Pooled(addr) =>
          PooledNotCustom(x);
          FreeKeyInternal(addr, x);
          assert NamesShape() by { PooledNames(); }
      }
    }

    lemma PooledNames()
      requires PoolShape() && !customKeys && dups == map[] && DupsCounted()
      ensures NamesShape()
    {
      hide PoolOk;
    }

    /** The call of the value free handler, if any, on a pointer that is not NULL. */
    method FreeValue(value: Value)
      modifies `freed
      ensures freed == if valueFree then old(freed) + Owned(value) else old(freed)
      ensures freed == if valueFree && value != 0 then old(freed) + multiset{value} else old(freed)
    {
      if value != 0 {
        if valueFree {
          freed := freed + multiset{value};
        }
      }
    }

    /** coucal_del_value_. */
    method DelValue(slots: array<Item>, pos: nat)
      requires pos < slots.Length
      modifies slots, `freed
      ensures slots[..] == old(slots[..])[pos := old(slots[pos]).(value := 0)]
      ensures freed == if valueFree then old(freed) + Owned(old(slots[pos]).value) else old(freed)
    {
      FreeValue(slots[pos].value);
      slots[pos] := slots[pos].(value := 0);
    }

    /** coucal_del_item, for the slot that is number loc of all slots. */
    method DelItem(slots: array<Item>, pos: nat, ghost loc: nat)
      requires NamesShape()
      requires (slots == items && loc == pos) || (slots == stash && loc == items.Length + pos)
      requires pos < slots.Length && slots[pos].Live() && Live()[slots[pos]] == 1
      modifies items, stash, buffer, `buffer, `base, `poolSize, `poolCapacity, `poolUsed, `copied, `released
      modifies `dups, `dupsFreed, `freed
      ensures NamesShape() && items == old(items)
      ensures Renamed(old(Mem()), Mem(), old(Locs())[loc := ZERO_ITEM], Locs())
      ensures freed == if valueFree then old(freed) + Owned(old(slots[pos]).value) else old(freed)
      ensures Pool() == AfterDrop(old(Pool()), old(Footprint(Mem(), slots[pos])))
      ensures buffer == old(buffer) || fresh(buffer)
    {
      hide LiveOf, Renamed, NamesOk, Owned, DupsCounted;
      ghost var x, locs := slots[pos], Locs();
      LiveOfClear(locs, loc);
      DelValue(slots, pos);
      var name := slots[pos].name;
      slots[pos] := slots[pos].(name := Null, hashes := Hashes(0, 0));
      assert slots[pos] == ZERO_ITEM;
      assert Locs() == locs[loc := ZERO_ITEM];
      FreeKey(name, x);
    }

    // ----- Looking up -----

    /** All the data structures are sound and stand for `contents`. */
    ghost predicate Consistent()
      reads `items, `lgSize, `stashSize, `stashExtent, `base, `buffer, `dups, `dupCount, `contents, `names
      reads `dupsFreed, `poolUsed, `poolSize, `poolCapacity, `copied, `released, items, stash, buffer
    {
      && Shape() && MIN_LG_SIZE <= lgSize <= MAX_LG_SIZE
      && handlers.Lawful() && Represents(handlers, Mem(), Live(), contents)
      && Spelt(handlers, Mem(), Live(), names) && names.Keys == contents.Keys
      && NamesShape()
    }

    /** The number of loc among all slots. */
    ghost function LocIndex(loc: Loc): nat
      reads `items
      requires loc != Absent
    {
      if loc.InTable? then loc.pos else items.Length + loc.pos
    }

    ghost predicate LocOk(loc: Loc)
      reads `items, `stashExtent, items, stash
    {
      match loc
      case Absent => false
      case InTable(pos) => pos < items.Length && items[pos].Live()
      case InStash(pos) => pos < stash.Length && pos < stashExtent && stash[pos].Live()
    }

    function ItemAt(loc: Loc): Item
      reads `items, items, stash
      requires loc.InTable? ==> loc.pos < items.Length
      requires loc.InStash? ==> loc.pos < stash.Length
    {
      match loc
      case Absent => ZERO_ITEM
      case InTable(pos) => items[pos]
      case InStash(pos) => stash[pos]
    }

    lemma LocIsLive(loc: Loc)
      requires LocOk(loc)
      ensures ItemAt(loc) in Live() && LocIndex(loc) < |Locs()| && Locs()[LocIndex(loc)] == ItemAt(loc)
    {
    }

    /** The search that coucal_write_value_, coucal_fetch_value_hashes and coucal_remove_
        have in common: at position 1, at position 2, then in the stash. */
    method Find(key: Key, hashes: Hashes) returns (loc: Loc)
      requires Shape()
      ensures loc != Absent ==> LocOk(loc) && Match(handlers, Mem(), ItemAt(loc), key, hashes)
      ensures loc == Absent ==> forall x :: x in Live() ==> !Match(handlers, Mem(), x, key, hashes)
    {
      hide KeyAt, And;
      var pos1, pos2 := Pos(lgSize, hashes.hash1), Pos(lgSize, hashes.hash2);
      if Match(handlers, Mem(), items[pos1], key, hashes) {
        return InTable(pos1);
      }
      if Match(handlers, Mem(), items[pos2], key, hashes) {
        return InTable(pos2);
      }
      if stashSize != 0 {
        for i := 0 to stashExtent
          invariant forall j :: 0 <= j < i ==> !Match(handlers, Mem(), stash[j], key, hashes)
        {
          if Match(handlers, Mem(), stash[i], key, hashes) {
            return InStash(i);
          }
        }
      } else {
        EmptyStash(stash[..], stashExtent);
      }
      loc := Absent;
      forall x | x in Live()
        ensures !Match(handlers, Mem(), x, key, hashes)
      {
        var l :| 0 <= l < |Locs()| && Locs()[l] == x;
        if l < items.Length {
          assert items[l] == x && IsHome(lgSize, l, x);
        } else {
          assert stash[l - items.Length] == x;
        }
      }
    }

    /** coucal_fetch_value_hashes: finds an entry exactly when the hashes are those of the key
        and the key has one. */
    method FetchValueHashes(arg: KeyArg, hashes: Hashes) returns (loc: Loc)
      requires Consistent() && ArgOk(arg)
      ensures loc != Absent <==>
        hashes == handlers.hash(ArgKey(arg)) && handlers.canon(ArgKey(arg)) in contents
      ensures loc != Absent ==>
        && LocOk(loc) && MapKey(handlers, Mem(), ItemAt(loc)) == handlers.canon(ArgKey(arg))
        && ItemAt(loc).value == contents[handlers.canon(ArgKey(arg))]
    {
      hide KeyAt, LiveOf, Represents, Spelt, NamesOk;
      var key := ArgKey(arg);
      loc := Find(key, hashes);
      if loc == Absent {
        NoMatchNoEntry(handlers, Mem(), Live(), contents, key, hashes);
      } else {
        LocIsLive(loc);
        MatchIsEntry(handlers, Mem(), Live(), contents, ItemAt(loc), key, hashes);
      }
    }

    /** coucal_read_value. */
    method ReadValue(arg: KeyArg) returns (found: bool, value: Value)
      requires Consistent() && ArgOk(arg)
      ensures found <==> handlers.canon(ArgKey(arg)) in contents
      ensures found ==> value == contents[handlers.canon(ArgKey(arg))]
    {
      hide KeyAt, LiveOf, Represents, Spelt, NamesOk, SlotsOk;
      var loc := FetchValueHashes(arg, handlers.hash(ArgKey(arg)));
      found := loc != Absent;
      value := if found then ItemAt(loc).value else 0;
    }

    ghost function Layout(): seq<Option<Key>>
      reads `items, `base, `buffer, `dups, items, stash, buffer
    {
      LayoutOf(handlers, Mem(), Locs())
    }

    // ----- Replacing a value -----

    /** The assignment of a value to a live item, as far as the slots are concerned. */
    method AssignValue(loc: Loc, value: Value)
      requires Shape() && LocOk(loc)
      modifies items, stash
      ensures Shape() && Scannable() && LocOk(loc) && ItemAt(loc) == old(ItemAt(loc)).(value := value)
      ensures Locs() == old(Locs())[LocIndex(loc) := ItemAt(loc)]
    {
      hide LiveOf, AllHome, StashOk, Clean;
      ghost var x := ItemAt(loc);
      match loc {
        case InTable(pos) =>
          RevaluedTable(lgSize, items[..], pos, value);
          items[pos] := items[pos].(value := value);
          assert items[..] == old(items[..])[pos := x.(value := value)];
        case InStash(pos) =>
          RevaluedStash(stash[..], stashSize, stashExtent, pos, value);
          stash[pos] := stash[pos].(value := value);
          assert stash[..] == old(stash[..])[pos := x.(value := value)];
      }
      SlotsScannable(lgSize, items[..], stash[..], stashSize, stashExtent);
    }

    /** The assignment of a value to the entry at loc. */
    method PutValue(loc: Loc, value: Value)
      requires Consistent() && LocOk(loc)
      modifies items, stash, `contents
      ensures Consistent() && LocOk(loc)
      ensures contents == old(contents)[MapKey(handlers, old(Mem()), old(ItemAt(loc))) := value]
      ensures Layout() == old(Layout()) && |Live()| == |old(Live())|
    {
      hide KeyAt, LiveOf, NamesOk, SlotsOk, Represents, Spelt, LayoutOf, Clean, Entry, Hashed, MapKey, Pow2;
      ghost var mem, locs, i, x := Mem(), Locs(), LocIndex(loc), ItemAt(loc);
      LocIsLive(loc);
      RepresentsEach(handlers, mem, LiveOf(locs), contents, x);
      LiveOfRevalued(locs, i, value);
      RepresentsReplace(handlers, mem, LiveOf(locs), contents, x, value);
      SpeltRevalued(handlers, mem, LiveOf(locs), names, x, value);
      NamesRevalued(customKeys, mem, poolSize, poolUsed, LiveOf(locs), x, value);
      LayoutRevalued(handlers, mem, locs, i, value);
      AssignValue(loc, value);
      UpdateKeys(contents, MapKey(handlers, mem, x), value);
      contents := contents[MapKey(handlers, mem, x) := value];
    }

    // ----- Removing -----

    /** coucal_del_item on a table slot. */
    method RemoveFromTable(pos: nat)
      requires Consistent() && LocOk(InTable(pos))
      modifies items, stash, buffer, `buffer, `base, `poolSize, `poolCapacity, `poolUsed, `copied, `released
      modifies `dups, `dupsFreed, `freed
      ensures Shape() && NamesShape() && items == old(items)
      ensures Renamed(old(Mem()), Mem(), old(Locs())[pos := ZERO_ITEM], Locs())
      ensures freed == if valueFree then old(freed) + Owned(old(items[pos]).value) else old(freed)
      ensures Pool() == AfterDrop(old(Pool()), old(Footprint(Mem(), items[pos])))
      ensures buffer == old(buffer) || fresh(buffer)
    {
      hide KeyAt, LiveOf, NamesOk, AllHome, StashOk, Represents, Spelt, Renamed, And, Owned;
      ghost var mem, table, rest := Mem(), items[..], stash[..];
      LocIsLive(InTable(pos));
      RepresentsEach(handlers, mem, Live(), contents, items[pos]);
      ClearedTable(lgSize, table, pos);
      DelItem(items, pos, pos);
      assert (table + rest)[pos := ZERO_ITEM] == table[pos := ZERO_ITEM] + rest;
      RenamedSplit(mem, Mem(), table[pos := ZERO_ITEM], rest, items[..], stash[..]);
      RenamedTable(mem, Mem(), lgSize, table[pos := ZERO_ITEM], items[..]);
      RenamedStash(mem, Mem(), rest, stash[..], stashSize, stashExtent);
    }

    /** coucal_del_item on a stash slot, which leaves a hole, or lowers the extent. */
    method RemoveFromStash(pos: nat)
      requires Consistent() && LocOk(InStash(pos))
      modifies items, stash, buffer, `buffer, `base, `poolSize, `poolCapacity, `poolUsed, `copied, `released
      modifies `dups, `dupsFreed, `freed
      modifies `stashSize, `stashExtent
      ensures Shape() && NamesShape() && items == old(items)
      ensures Renamed(old(Mem()), Mem(), old(Locs())[items.Length + pos := ZERO_ITEM], Locs())
      ensures freed == if valueFree then old(freed) + Owned(old(stash[pos]).value) else old(freed)
      ensures Pool() == AfterDrop(old(Pool()), old(Footprint(Mem(), stash[pos])))
      ensures buffer == old(buffer) || fresh(buffer)
      ensures stashSize <= old(stashSize)
    {
      hide KeyAt, LiveOf, NamesOk, AllHome, Represents, Spelt, Renamed, And, Owned, Clean, Pow2, DupsCounted;
      ghost var mem, table, rest := Mem(), items[..], stash[..];
      LocIsLive(InStash(pos));
      RepresentsEach(handlers, mem, Live(), contents, stash[pos]);
      DelItem(stash, pos, items.Length + pos);
      RemovedFromStash(mem, Mem(), lgSize, table, rest, items[..], stash[..], stashSize, stashExtent, pos);
      stashSize := stashSize - 1;
      TrimStash();
      SlotsScannable(lgSize, items[..], stash[..], stashSize, stashExtent);
    }

    /** The key that an entry was first written with. */
    ghost function StoredKey(k: Key): Key
      reads `names
    {
      if k in names then names[k] else k
    }

    lemma NamesAre()
      requires Consistent()
      ensures names.Keys == contents.Keys
    {
    }

    /** A live item takes the bytes of its key. */
    lemma ItemBytes(loc: Loc)
      requires Consistent() && LocOk(loc)
      ensures Footprint(Mem(), ItemAt(loc)) == KeyBytes(StoredKey(MapKey(handlers, Mem(), ItemAt(loc))))
    {
      hide NamesShape, KeyAt, SlotsOk, Represents, KeyBytes;
      LocIsLive(loc);
      FootprintIs(ItemAt(loc));
      assert SpeltBy(handlers, Mem(), names, ItemAt(loc));
    }

    lemma FootprintIs(x: Item)
      requires NamesShape() && x in Live()
      ensures Footprint(Mem(), x) == KeyBytes(KeyAt(Mem(), x.name))
    {
      hide LiveOf;
      if !customKeys && x.name.Pooled? {
        PooledKey(Mem(), poolSize, poolUsed, Live(), x);
      }
    }

    /** coucal_del_item on a slot of the table or of the stash. */
    method RemoveSlot(loc: Loc)
      requires Consistent() && LocOk(loc)
      modifies items, stash, buffer, `buffer, `base, `poolSize, `poolCapacity, `poolUsed, `copied, `released
      modifies `dups, `dupsFreed, `freed
      modifies `stashSize, `stashExtent
      ensures Shape() && NamesShape() && items == old(items)
      ensures Renamed(old(Mem()), Mem(), old(Locs()[LocIndex(loc) := ZERO_ITEM]), Locs())
      ensures freed == if valueFree then old(freed) + Owned(old(ItemAt(loc)).value) else old(freed)
      ensures Pool() == AfterDrop(old(Pool()), old(Footprint(Mem(), ItemAt(loc))))
      ensures buffer == old(buffer) || fresh(buffer)
      ensures stashSize <= old(stashSize)
    {
      hide KeyAt, NamesShape, Shape, Renamed, Clean, Owned, Consistent, AfterDrop, Footprint;
      match loc {
        case InTable(pos) => RemoveFromTable(pos);
        case InStash(pos) => RemoveFromStash(pos);
      }
    }

    /** The removal of the entry at loc. */
    method RemoveAt(loc: Loc)
      requires Consistent() && LocOk(loc)
      modifies items, stash, buffer, `buffer, `base, `poolSize, `poolCapacity, `poolUsed, `copied, `released
      modifies `dups, `dupsFreed, `freed
      modifies `stashSize, `stashExtent, `contents, `names
      ensures Consistent() && items == old(items)
      ensures contents == old(contents) - {old(MapKey(handlers, Mem(), ItemAt(loc)))}
      ensures names == old(names) - {old(MapKey(handlers, Mem(), ItemAt(loc)))}
      ensures Layout() == old(Layout()[LocIndex(loc) := None]) && |Live()| + 1 == |old(Live())|
      ensures freed == if valueFree then old(freed) + Owned(old(ItemAt(loc)).value) else old(freed)
      ensures Pool() == AfterDrop(old(Pool()), KeyBytes(old(StoredKey(MapKey(handlers, Mem(), ItemAt(loc))))))
      ensures buffer == old(buffer) || fresh(buffer)
      ensures stashSize <= old(stashSize)
    {
      hide KeyAt, LiveOf, NamesShape, Shape, Represents, Spelt, Renamed, And, Clean, LayoutOf, MapKey, Pow2, Owned;
      hide AfterDrop, Footprint, Consistent, Handlers.Lawful, StoredKey;
      ghost var mem, locs, i := Mem(), Locs(), LocIndex(loc);
      LocIsLive(loc);
      LocIsEntry(loc);
      SpeltNow();
      ItemBytes(loc);
      RemoveSlot(loc);
      EntryRemoved(handlers, mem, Mem(), locs, i, Locs(), contents, names);
      contents := contents - {MapKey(handlers, mem, locs[i])};
      names := names - {MapKey(handlers, mem, locs[i])};
      MakeConsistent();
    }

    // ----- Adding an entry -----

    /** The draining of the stash that precedes an addition. */
    method DrainFirst()
      requires Consistent()
      modifies items, stash, `stashSize, `stashExtent
      ensures Consistent() && Live() == old(Live()) && stashSize <= old(stashSize)
      ensures StashBlocked(lgSize, items[..], stash[..])
      ensures items.Length == Pow2(lgSize) && Slots() == old(AllDrained(lgSize, Slots()))
      ensures stashSize == |LiveOf(stash[..])|
    {
      hide KeyAt, LiveOf, NamesOk, AllHome, Represents, Spelt, And, DrainedAt, Drained;
      SizeFits();
      StashSizes();
      DrainedFree(lgSize, Slots(), stashExtent);
      DrainedNothing(lgSize, Slots());
      if stashSize != 0 {
        DrainStash();
        SlotsScannable(lgSize, items[..], stash[..], stashSize, stashExtent);
      } else {
        EmptyStash(stash[..], stashExtent);
      }
      SizeFits();
    }

    /** Making a name for a new entry keeps all entries. */
    method NameEntry(arg: KeyArg) returns (name: Name)
      requires Consistent() && ArgOk(arg)
      modifies items, stash, buffer, `buffer, `base, `poolSize, `poolCapacity, `poolUsed, `copied, `dups, `dupCount
      ensures Shape() && Represents(handlers, Mem(), Live(), contents) && Named(name, old(ArgKey(arg)))
      ensures Spelt(handlers, Mem(), Live(), names)
      ensures Pool() == AfterStore(old(Pool()), old(KeyBytes(ArgKey(arg))))
      ensures dupCount == if customKeys then old(dupCount) + 1 else old(dupCount)
      ensures BothAlike(old(Slots()), Slots())
      ensures items == old(items) && |Live()| == |old(Live())|
      ensures old(StashBlocked(lgSize, items[..], stash[..])) ==> StashBlocked(lgSize, items[..], stash[..])
      ensures buffer == old(buffer) || fresh(buffer)
    {
      hide KeyAt, LiveOf, NamesOk, NewName, AllHome, Represents, Spelt, Renamed, StashOk, And;
      ghost var mem, table, rest := Mem(), items[..], stash[..];
      name := DuplicateName(arg);
      RenamedSlots(mem, Mem(), lgSize, table, rest, items[..], stash[..], stashSize, stashExtent);
      RenamedSplit(mem, Mem(), table, rest, items[..], stash[..]);
      RenamedAlike(mem, Mem(), table, items[..]);
      RenamedAlike(mem, Mem(), rest, stash[..]);
      SpeltRenamed(handlers, mem, Mem(), table + rest, Locs(), names);
      RepresentsRenamed(handlers, mem, Mem(), table + rest, Locs(), contents);
    }

    /** A stash collision: with the item in hand, the live items stand for m. */
    ghost predicate Stranded(m: map<Key, Value>)
      reads `items, `lgSize, `base, `buffer, `dups, items, stash, buffer
    {
      exists hand ::
        Collided(lgSize, items[..], stash[..], hand) && Represents(handlers, Mem(), Live() + multiset{hand}, m)
    }

    /** How many entries the stash has after an item with these hashes is added. */
    ghost function StashNext(hashes: Hashes): nat
      reads `items, `lgSize, items, stash
    {
      if items.Length == Pow2(lgSize) then StashAfter(lgSize, Slots(), hashes) else 0
    }

    /** Table and stash after an item with these hashes is added, before any doubling. */
    ghost function SlotsNext(hashes: Hashes): Both
      reads `items, `lgSize, items, stash
    {
      if items.Length == Pow2(lgSize) then Filled(lgSize, Slots(), hashes) else Slots()
    }

    /** An item with these hashes has room, in the table or in the stash. */
    ghost predicate HasRoom(hashes: Hashes)
      reads `items, `lgSize, items, stash
    {
      StashNext(hashes) <= STASH_SIZE
    }

    /** So has an item for this key. */
    ghost predicate RoomFor(arg: KeyArg)
      reads `items, `lgSize, `base, `buffer, items, stash, buffer
    {
      HasRoom(KeyHash(arg))
    }

    ghost function KeyHash(arg: KeyArg): Hashes
      reads `base, `buffer, buffer
    {
      handlers.hash(ArgKey(arg))
    }

    /** With an item of a name that was just made for the key, the live items stand for the map
        with its entry. */
    lemma JoinsMap(item: Item, key: Key)
      requires Represents(handlers, Mem(), Live(), contents) && Spelt(handlers, Mem(), Live(), names)
      requires Named(item.name, key) && item.hashes == handlers.hash(key)
      requires names.Keys == contents.Keys && handlers.canon(key) !in contents
      ensures item.Live() && Paid() && buffer.Length == poolCapacity && DupsCounted()
      ensures var live, k := Live() + multiset{item}, handlers.canon(key);
        && Represents(handlers, Mem(), live, contents[k := item.value])
        && Spelt(handlers, Mem(), live, names[k := key]) && names[k := key].Keys == contents[k := item.value].Keys
        && NamesOk(customKeys, Mem(), poolSize, poolUsed, live)
    {
      hide KeyAt, LiveOf, NamesOk, NewName, Represents, Spelt, Clean;
      ghost var mem, live := Mem(), Live();
      NewNameOf(customKeys, mem, poolSize, poolUsed, live, item.name, key);
      RepresentsAdd(handlers, mem, live, contents, item);
      SpeltAdd(handlers, mem, live, names, item);
      NewNameJoins(customKeys, mem, poolSize, poolUsed, live, item, key);
    }

    /** coucal_add_item_, in terms of the trails: the item takes a place in the stash exactly when
        the walk finds no slot. */
    method TryItem(item: Item) returns (ok: bool, ghost hand: Item)
      requires Shape() && item.Live() && 2 * |Live()| < Pow2(lgSize) && items.Length == Pow2(lgSize)
      modifies items, stash, `stashSize, `stashExtent
      ensures Shape() && Slots() == old(Inserted(lgSize, Slots(), item))
      ensures ok <==> old(FindsSlot(lgSize, items[..], item.hashes)) || old(stashSize) < STASH_SIZE
      ensures ok ==> stashSize == old(stashSize) + if old(FindsSlot(lgSize, items[..], item.hashes)) then 0 else 1
      ensures !ok ==> stashSize == old(stashSize)
      ensures ok ==> Live() == old(Live()) + multiset{item}
      ensures !ok ==> Live() + multiset{hand} == old(Live()) + multiset{item}
      ensures old(StashBlocked(lgSize, items[..], stash[..])) ==>
        if ok then StashBlocked(lgSize, items[..], stash[..]) else Collided(lgSize, items[..], stash[..], hand)
    {
      hide Shape, Live, And, Pow2, Add, StashBlocked, Collided, FindsSlot, Inserted, AllHome, Clean, LiveOf;
      LoadOk();
      PlacedIff(lgSize, items[..], item);
      ok, hand := AddItem(item);
    }

    lemma ScannableNow()
      requires Shape()
      ensures Scannable()
    {
      hide AllHome, LiveOf;
      SlotsScannable(lgSize, items[..], stash[..], stashSize, stashExtent);
    }

    lemma NamesNow()
      requires Scannable() && Paid() && buffer.Length == poolCapacity && DupsCounted()
      requires NamesOk(customKeys, Mem(), poolSize, poolUsed, Live())
      ensures NamesShape()
    {
      hide Scannable, Paid, NamesOk, DupsCounted, LiveOf;
    }

    /** Adding the item of a name that was just made. */
    method AddNamed(name: Name, hashes: Hashes, value: Value, ghost key: Key) returns (ok: bool)
      requires Shape() && MIN_LG_SIZE <= lgSize <= MAX_LG_SIZE && 2 * |Live()| < Pow2(lgSize)
      requires handlers.Lawful() && Represents(handlers, Mem(), Live(), contents) && Named(name, key)
      requires Spelt(handlers, Mem(), Live(), names) && names.Keys == contents.Keys
      requires hashes == handlers.hash(key) && handlers.canon(key) !in contents && items.Length == Pow2(lgSize)
      modifies items, stash, `stashSize, `stashExtent, `contents, `names
      ensures ok ==> Consistent() && contents == old(contents)[handlers.canon(key) := value]
      ensures ok ==> names == old(names)[handlers.canon(key) := key]
      ensures ok ==> |Live()| == |old(Live())| + 1
      ensures Slots() == old(Inserted(lgSize, Slots(), Item(name, hashes, value)))
      ensures ok <==> old(FindsSlot(lgSize, items[..], hashes)) || old(stashSize) < STASH_SIZE
      ensures ok ==> stashSize == old(stashSize) + if old(FindsSlot(lgSize, items[..], hashes)) then 0 else 1
      ensures stashSize <= old(stashSize) + 1
      ensures old(StashBlocked(lgSize, items[..], stash[..])) ==>
        if ok then StashBlocked(lgSize, items[..], stash[..])
        else Stranded(old(contents)[handlers.canon(key) := value])
    {
      hide KeyAt, LiveOf, NamesOk, Represents, Spelt, And, Pow2, Named, Shape, Handlers.Lawful;
      hide Add, StashBlocked, Collided, FindsSlot, Inserted, Scannable, Paid, DupsCounted, Live, Slots;
      hide Consistent, NamesShape;
      var item := Item(name, hashes, value);
      JoinsMap(item, key);
      ghost var hand;
      ok, hand := TryItem(item);
      if ok {
        contents := contents[handlers.canon(key) := value];
        names := names[handlers.canon(key) := key];
        ScannableNow();
        NamesNow();
        MakeConsistent();
      }
    }

    /** The draining of the stash and the making of a name that precede an addition. */
    method PrepareEntry(arg: KeyArg, ghost hashes: Hashes) returns (name: Name)
      requires Consistent() && ArgOk(arg) && 2 * |Live()| < Pow2(lgSize)
      modifies items, stash, buffer, `buffer, `base, `poolSize, `poolCapacity, `poolUsed, `copied, `dups, `dupCount
      modifies `stashSize, `stashExtent
      ensures Shape() && Represents(handlers, Mem(), Live(), contents) && Named(name, old(ArgKey(arg)))
      ensures Spelt(handlers, Mem(), Live(), names)
      ensures items == old(items) && |Live()| == |old(Live())| && name != Null
      ensures StashBlocked(lgSize, items[..], stash[..]) && stashSize <= old(stashSize)
      ensures items.Length == Pow2(lgSize) && BothAlike(old(AllDrained(lgSize, Slots())), Slots())
      ensures old(StashNext(hashes)) == stashSize + if FindsSlot(lgSize, items[..], hashes) then 0 else 1
      ensures Pool() == AfterStore(old(Pool()), old(KeyBytes(ArgKey(arg))))
      ensures dupCount == if customKeys then old(dupCount) + 1 else old(dupCount)
      ensures buffer == old(buffer) || fresh(buffer)
    {
      hide KeyAt, LiveOf, NamesOk, NewName, Clean, Represents, Spelt, StashBlocked, Pow2, KeyBytes, Drained, AllAlike;
      hide AfterStore, AllDrained, FindsSlot, AllHome, StashOk;
      SizeFits();
      ghost var key := ArgKey(arg);
      DrainFirst();
      ghost var drained := items[..];
      LoadOk();
      name := NameEntry(arg);
      NewNameOf(customKeys, Mem(), poolSize, poolUsed, Live(), name, key);
      LoadOk();
      FindsAlike(lgSize, drained, items[..], hashes);
    }

    lemma LoadOk()
      requires Shape() && 2 * |Live()| < Pow2(lgSize)
      ensures AllHome(lgSize, items[..]) && Clean(items[..]) && 2 * |LiveOf(items[..])| < Pow2(lgSize)
    {
      hide LiveOf, AllHome, Clean;
      LiveOfConcat(items[..], stash[..]);
      SubBagSize(LiveOf(items[..]), Live());
    }

    /** The second half of coucal_write_value_: adds an entry for a key that has none. */
    method AddEntry(arg: KeyArg, hashes: Hashes, value: Value) returns (ok: bool)
      requires Consistent() && ArgOk(arg) && 2 * |Live()| < Pow2(lgSize)
      requires hashes == handlers.hash(ArgKey(arg)) && handlers.canon(ArgKey(arg)) !in contents
      modifies items, stash, buffer, `buffer, `base, `poolSize, `poolCapacity, `poolUsed, `copied, `dups, `dupCount
      modifies `stashSize, `stashExtent, `contents, `names
      ensures ok <==> old(HasRoom(hashes))
      ensures ok ==> Consistent() && contents == old(contents)[handlers.canon(old(ArgKey(arg))) := value]
      ensures ok ==> |Live()| == |old(Live())| + 1 && StashBlocked(lgSize, items[..], stash[..])
      ensures ok ==> BothAlike(old(SlotsNext(hashes)), Slots()) && stashSize == old(StashNext(hashes))
      ensures ok ==> names == old(names)[handlers.canon(old(ArgKey(arg))) := old(ArgKey(arg))]
      ensures stashSize <= old(stashSize) + 1
      ensures !ok ==> old(stashSize) == STASH_SIZE && Stranded(old(contents)[handlers.canon(old(ArgKey(arg))) := value])
      ensures Pool() == AfterStore(old(Pool()), old(KeyBytes(ArgKey(arg))))
      ensures dupCount == if customKeys then old(dupCount) + 1 else old(dupCount)
      ensures items == old(items) && (buffer == old(buffer) || fresh(buffer))
    {
      hide KeyAt, LiveOf, Represents, Spelt, StashBlocked, Pow2, Add, Stranded, KeyBytes, AfterStore, Consistent;
      hide AllDrained, AllAlike, Named, And, FindsSlot, Inserted, StashAfter, BothAlike, Shape, Live, Handlers.Lawful;
      ghost var key, before := ArgKey(arg), Slots();
      StashFits();
      SizeFits();
      var name := PrepareEntry(arg, hashes);
      ghost var drained := AllDrained(lgSize, before);
      InsertedAlike(lgSize, drained, Slots(), Item(Shared, hashes, 0), Item(name, hashes, value));
      ok := AddNamed(name, hashes, value, key);
    }

    // ----- The public operations -----

    /** Each non-NULL value written is in the map or was freed, once. */
    ghost predicate Accounts()
      reads `edited, `written, `freed, `contents
    {
      valueFree && !edited ==> Balanced(written, freed, contents)
    }

    /** The invariant of a hashtable between two calls. */
    ghost predicate Valid()
      reads this, items, stash, buffer
    {
      Consistent() && Loaded() && Accounts()
    }

    ghost function Repr(): set<object>
      reads `items, `buffer
    {
      {this, items, stash, buffer}
    }

    /** The key under which an argument is found. */
    ghost function CanonKey(arg: KeyArg): Key
      reads `base, `buffer, buffer
    {
      handlers.canon(ArgKey(arg))
    }

    /** The value of the entry of a key; 0 when it has none, as for a counter yet to be created. */
    ghost function ValueOf(key: Key): Value
      reads `contents
    {
      if key in contents then contents[key] else 0
    }

    /** coucal_nitems. */
    method NItems() returns (n: nat)
      requires Valid()
      ensures n == |contents|
    {
      hide KeyAt, LiveOf, Represents, Spelt, NamesOk, SlotsOk;
      RepresentsCount(handlers, Mem(), Live(), contents);
      n := used;
    }

    lemma MakeConsistent()
      requires Shape() && MIN_LG_SIZE <= lgSize <= MAX_LG_SIZE && handlers.Lawful()
      requires Represents(handlers, Mem(), Live(), contents) && NamesShape()
      requires Spelt(handlers, Mem(), Live(), names) && names.Keys == contents.Keys
      ensures Consistent()
    {
      hide Shape, Represents, NamesShape, Spelt, Handlers.Lawful;
    }

    lemma SpeltNow()
      requires Consistent()
      ensures Spelt(handlers, Mem(), Live(), names) && names.Keys == contents.Keys && handlers.Lawful()
      ensures MIN_LG_SIZE <= lgSize <= MAX_LG_SIZE
    {
      hide Shape, Represents, NamesShape, Spelt, Handlers.Lawful;
    }

    lemma TableFits()
      requires Consistent()
      ensures lgSize <= MAX_LG_SIZE && items.Length == Pow2(lgSize)
    {
      hide NamesShape, Represents, Spelt, Handlers.Lawful;
    }

    lemma SizeFits()
      requires Consistent()
      ensures handlers.Lawful() && names.Keys == contents.Keys && Shape()
      ensures MIN_LG_SIZE <= lgSize <= MAX_LG_SIZE && items.Length == Pow2(lgSize)
      ensures stashExtent <= stash.Length && stashSize == |LiveOf(stash[..])|
    {
    }

    lemma StashFits()
      requires Consistent()
      ensures stashSize <= STASH_SIZE
    {
      SlotsScannable(lgSize, items[..], stash[..], stashSize, stashExtent);
    }

    /** A location that holds a live item is that of an entry of the map. */
    lemma LocIsEntry(loc: Loc)
      requires Consistent() && LocOk(loc)
      ensures Entry(handlers, Mem(), contents, ItemAt(loc))
      ensures LocIndex(loc) < |Layout()| && Layout()[LocIndex(loc)] == Some(MapKey(handlers, Mem(), ItemAt(loc)))
      ensures |Live()| > 0
      ensures Clean(Locs()) && Represents(handlers, Mem(), Live(), contents)
    {
      hide KeyAt, NamesOk, SlotsOk;
      LocIsLive(loc);
      RepresentsEach(handlers, Mem(), Live(), contents, ItemAt(loc));
      LayoutAt(handlers, Mem(), Locs(), LocIndex(loc));
    }

    /** The replacement of a value, but for the accounts of the values. */
    method ReplaceEntry(loc: Loc, value: Value)
      requires Consistent() && Loaded() && LocOk(loc)
      modifies items, stash, `contents, `freed
      ensures Consistent() && Loaded() && Layout() == old(Layout())
      ensures contents == old(contents)[old(MapKey(handlers, Mem(), ItemAt(loc))) := value]
      ensures freed == if valueFree then old(freed) + Owned(old(ItemAt(loc).value)) else old(freed)
    {
      hide Consistent, Live, Layout, MapKey, Mem, Owned, Pow2;
      // coucal_del_value also clears the slot, which is overwritten at once
      FreeValue(ItemAt(loc).value);
      PutValue(loc, value);
    }

    /** The replacement of a value in coucal_write_value_. */
    method ReplaceValue(loc: Loc, value: Value)
      requires Valid() && LocOk(loc)
      modifies items, stash, `contents, `freed, `written
      ensures Valid() && Layout() == old(Layout())
      ensures contents == old(contents)[old(MapKey(handlers, Mem(), ItemAt(loc))) := value]
      ensures written == old(written) + Owned(value)
      ensures freed == if valueFree then old(freed) + Owned(old(ItemAt(loc).value)) else old(freed)
    {
      hide Consistent, Loaded, Live, Locs, LiveOf, Layout, MapKey, Mem, Balanced, Owned, Represents, Spelt, Clean;
      LocIsEntry(loc);
      if valueFree && !edited {
        BalancedReplaced(written, freed, contents, MapKey(handlers, Mem(), ItemAt(loc)), value);
      }
      ReplaceEntry(loc, value);
      written := written + Owned(value);
    }

    /** The merge of the stash, unless it is empty. */
    method MergeIfAny()
      requires Shape() && 2 * |Live()| < Pow2(lgSize)
      modifies items, stash, `stashSize, `stashExtent
      ensures Shape() && items.Length == Pow2(lgSize) && Live() == old(Live()) && stashSize <= old(stashSize)
      ensures StashBlocked(lgSize, items[..], stash[..]) && stash.Length == STASH_SIZE
      ensures var before := Both(old(items[..]), EmptyStashOf(STASH_SIZE));
        && Slots() == Merged(lgSize, before, old(stash[..]), STASH_SIZE)
        && AllExplained(lgSize, Live(), stash[..], before, old(stash[..]), STASH_SIZE)
    {
      hide KeyAt, LiveOf, AllHome, Clean, And, Merged, AllExplained, Pow2;
      StashSizes();
      if stashSize != 0 {
        MergeStash();
      } else {
        EmptyStash(stash[..], stashExtent);
        NoLive(stash[..]);
        NothingMerged(lgSize, Both(items[..], EmptyStashOf(STASH_SIZE)), stash[..]);
      }
    }

    /** The doubling of the table, and the merge of the stash. */
    method Grow()
      requires Consistent() && lgSize < MAX_LG_SIZE && 2 * |Live()| < Pow2(lgSize) + 2
      requires StashBlocked(lgSize, items[..], stash[..])
      modifies items, stash, `items, `lgSize, `stashSize, `stashExtent
      ensures Consistent() && Live() == old(Live()) && fresh(items)
      ensures lgSize == old(lgSize) + 1 && 2 * |Live()| < Pow2(lgSize) && stashSize <= old(stashSize)
      ensures StashBlocked(lgSize, items[..], stash[..])
      ensures old(items.Length == Pow2(lgSize)) && Slots() == Regrown(old(lgSize), old(Slots()))
      ensures AllTried(old(lgSize), old(Slots()))
    {
      hide KeyAt, LiveOf, Represents, Spelt, NamesOk, AllHome, Clean, And, SplitSlot, DupsCounted, Paid;
      hide Merged, AllExplained, DoubledItems, StashOk, FoundAt;
      LiveOfConcat(items[..], stash[..]);
      TableFits();
      Double();
      LiveOfConcat(items[..], stash[..]);
      MergeIfAny();
      ScannableNow();
    }

    /** Every entry of the stash was tried again: more live items than the table has slots for
        are bound to where it could be, or a walk that was cut short left it in hand. */
    ghost predicate AllTried(lg: nat, before: Both)
      reads `items, `lgSize, items, stash
    {
      && items.Length == Pow2(lgSize) == 2 * |before.items|
      && AllExplained(lgSize, Live(), stash[..], Both(DoubledItems(lg, before.items), EmptyStashOf(STASH_SIZE)),
                      before.stash, |before.stash|)
    }

    /** The end of coucal_write_value. False is the fatal size limit. */
    method GrowIfNeeded() returns (ok: bool)
      requires Consistent() && used == |Live()| && 2 * used < Pow2(lgSize) + 2
      requires StashBlocked(lgSize, items[..], stash[..])
      modifies items, stash, `items, `lgSize, `stashSize, `stashExtent
      ensures ok <==> old(2 * used < Pow2(lgSize) && stashSize < STASH_SIZE / 2) || old(lgSize) < MAX_LG_SIZE
      ensures Consistent() && Live() == old(Live()) && stashSize <= old(stashSize)
      ensures StashBlocked(lgSize, items[..], stash[..])
      ensures ok ==> 2 * used < Pow2(lgSize)
      ensures lgSize == old(lgSize) ==> stashSize == old(stashSize)
      ensures old(items.Length == Pow2(lgSize))
      ensures Slots() == if lgSize == old(lgSize) then old(Slots()) else Regrown(old(lgSize), old(Slots()))
      ensures lgSize == old(lgSize) || AllTried(old(lgSize), old(Slots()))
      ensures ok ==> lgSize == old(if 2 * used < Pow2(lgSize) && stashSize < STASH_SIZE / 2 then lgSize else lgSize + 1)
      ensures !ok ==> lgSize == old(lgSize) == MAX_LG_SIZE && stashSize == old(stashSize)
      ensures items == old(items) || fresh(items)
    {
      hide Represents, Spelt, NamesShape, SlotsOk, Live, StashBlocked, AllTried, Regrown, Slots;
      SizeFits();
      ok := true;
      var halfSize, halfStashSize := Pow2(lgSize - 1), STASH_SIZE / 2;
      if used >= halfSize || stashSize >= halfStashSize {
        if lgSize + 1 > MAX_LG_SIZE {
          return false;
        }
        Grow();
      }
    }

    /** The count and the load of the table. */
    ghost predicate Loaded()
      reads `items, `lgSize, `used, `stashSize, items, stash
    {
      used == |Live()| && 2 * used < Pow2(lgSize) && StashBounded()
    }

    /** Every add lengthens the stash by one at most, and doubles the table when half of the
        stash is in use: beyond that half, there is an entry per doubling at most. */
    ghost predicate StashBounded()
      reads `lgSize, `stashSize
    {
      initialLg <= lgSize && stashSize < STASH_SIZE / 2 + (lgSize - initialLg)
    }

    /** The state in which "cuckoo/stash collision" is asserted, when the map would have become
        m: never before the table has doubled nine times. */
    ghost predicate Collision(m: map<Key, Value>)
      reads `items, `lgSize, `base, `buffer, `dups, items, stash, buffer
    {
      Stranded(m) && initialLg + 9 <= lgSize <= MAX_LG_SIZE
    }

    /** Half of the table or of the stash is in use, at the size limit. */
    ghost predicate AtLimit()
      reads `lgSize, `used, `stashSize
    {
      lgSize == MAX_LG_SIZE && (2 * used >= Pow2(lgSize) || stashSize >= STASH_SIZE / 2)
    }

    /** The state in which the size limit is asserted, when the map has become m. */
    ghost predicate Exceeded(m: map<Key, Value>)
      reads `items, `lgSize, `stashSize, `stashExtent, `base, `buffer, `dups, `dupCount, `contents, `names
      reads `dupsFreed, `poolUsed, `poolSize, `poolCapacity, `copied, `released, `used, items, stash, buffer
    {
      && AtLimit() && Consistent() && used == |Live()| && contents == m
      && StashBlocked(lgSize, items[..], stash[..])
    }

    /** How a write that adds an entry can fail: m is the map with that entry. */
    ghost predicate Stopped(m: map<Key, Value>)
      reads `items, `lgSize, `stashSize, `stashExtent, `base, `buffer, `dups, `dupCount, `contents, `names
      reads `dupsFreed, `poolUsed, `poolSize, `poolCapacity, `copied, `released, `used, items, stash, buffer
    {
      Collision(m) || Exceeded(m)
    }

    /** It takes eight other entries at least, and seventeen for a collision. */
    lemma StoppedSize(m: map<Key, Value>)
      requires Stopped(m)
      ensures |m| > STASH_SIZE / 2 && (Collision(m) ==> |m| > STASH_SIZE + 1)
    {
      hide LiveOf, Represents, Spelt, NamesShape, And, Collided;
      if Collision(m) {
        var hand :| Collided(lgSize, items[..], stash[..], hand)
                 && Represents(handlers, Mem(), Live() + multiset{hand}, m);
        RepresentsCount(handlers, Mem(), Live() + multiset{hand}, m);
        CollidedLive(lgSize, items[..], stash[..], hand);
      } else {
        RepresentsCount(handlers, Mem(), Live(), m);
        Pow2Monotonic(5, lgSize);
        if stashSize >= STASH_SIZE / 2 {
          BlockedLive(lgSize, items[..], stash[..], stashSize, stashExtent);
        }
      }
    }

    lemma WasLoaded()
      requires Loaded()
      ensures used == |Live()| && 2 * used < Pow2(lgSize) && StashBounded()
    {
    }

    lemma IsLoaded()
      requires used == |Live()| && 2 * used < Pow2(lgSize) && StashBounded()
      ensures Loaded()
    {
    }

    lemma StashAmongAll()
      requires Consistent()
      ensures stashSize <= |Live()|
    {
      hide LiveOf, AllHome, NamesShape, Represents, Spelt;
      LiveOfConcat(items[..], stash[..]);
      SubBagSize(LiveOf(stash[..]), Live());
    }

    lemma EntriesCounted()
      requires Consistent()
      ensures |Live()| == |contents|
    {
      hide LiveOf, Represents, Spelt, NamesShape, Shape;
      RepresentsCount(handlers, Mem(), Live(), contents);
    }

    /** After an addition: the table has doubled exactly when half of it, or of the stash, had come
        to be in use; free slots and hashes are those of table and stash with the item added,
        and, if so, regrown; and what the merge left in the stash had been tried. */
    ghost predicate GrewIfNeeded(lg: nat, filled: Both, stashNext: nat)
      reads `items, `lgSize, `stashSize, `contents, items, stash
    {
      stashNext <= |contents| &&
      if 2 * |contents| >= Pow2(lg) || stashNext >= STASH_SIZE / 2 then
        && lgSize == lg + 1 && |filled.items| == Pow2(lg) && BothAlike(Regrown(lg, filled), Slots())
        && exists before: Both {:trigger BothAlike(filled, before)} ::
             BothAlike(filled, before) && AllTried(lg, before)
      else
        lgSize == lg && BothAlike(filled, Slots()) && stashSize == stashNext
    }

    lemma SlotsGrown(lg: nat, filled: Both, before: Both, stashNext: nat)
      requires |before.items| == Pow2(lg) && BothAlike(filled, before) && stashNext <= |contents|
      requires if 2 * |contents| >= Pow2(lg) || stashNext >= STASH_SIZE / 2 then
          lgSize == lg + 1 && Slots() == Regrown(lg, before) && AllTried(lg, before)
        else lgSize == lg && Slots() == before && stashSize == stashNext
      ensures GrewIfNeeded(lg, filled, stashNext)
    {
      hide Slots, Regrown, AllTried, Pow2, And;
      RegrownAlike(lg, filled, before);
    }

    lemma IsExceeded()
      requires AtLimit() && Consistent() && used == |Live()| && StashBlocked(lgSize, items[..], stash[..])
      ensures Exceeded(contents)
    {
      hide Consistent, Live, StashBlocked, AtLimit;
    }

    /** coucal_write_value_ for a key that has no entry, and the counting of the entry. */
    method AddUsed(arg: KeyArg, hashes: Hashes, value: Value) returns (ok: bool)
      requires Consistent() && Loaded() && ArgOk(arg)
      requires hashes == handlers.hash(ArgKey(arg)) && CanonKey(arg) !in contents
      modifies items, stash, buffer, `used, `buffer, `base, `poolSize, `poolCapacity, `poolUsed
      modifies `copied, `dups, `dupCount, `stashSize, `stashExtent, `contents, `names
      ensures ok <==> old(HasRoom(hashes))
      ensures ok ==> Consistent() && contents == old(contents)[old(CanonKey(arg)) := value]
      ensures ok ==> names == old(names)[old(CanonKey(arg)) := old(ArgKey(arg))]
      ensures ok ==> used == |Live()| && 2 * used < Pow2(lgSize) + 2 && StashBlocked(lgSize, items[..], stash[..])
      ensures ok ==> BothAlike(old(SlotsNext(hashes)), Slots()) && stashSize == old(StashNext(hashes))
      ensures ok ==> stashSize <= |Live()|
      ensures initialLg <= lgSize && stashSize < STASH_SIZE / 2 + (lgSize + 1 - initialLg)
      ensures !ok ==> old(stashSize) == STASH_SIZE && Collision(old(contents)[old(CanonKey(arg)) := value])
      ensures Pool() == AfterStore(old(Pool()), old(KeyBytes(ArgKey(arg))))
      ensures dupCount == if customKeys then old(dupCount) + 1 else old(dupCount)
      ensures items == old(items) && (buffer == old(buffer) || fresh(buffer))
    {
      hide Consistent, Live, Locs, Mem, LiveOf, Pow2, ArgKey, KeyAt, StashBlocked, And, Stranded, HasRoom;
      hide KeyBytes, Shape, AfterStore, Loaded, BothAlike, SlotsNext, StashNext, Slots;
      WasLoaded();
      StashFits();
      SizeFits();
      ok := AddEntry(arg, hashes, value);
      if ok {
        used := used + 1;
        StashAmongAll();
      }
    }

    /** coucal_write_value, for a key that has no entry. */
    method AddCounted(arg: KeyArg, hashes: Hashes, value: Value) returns (r: WriteResult)
      requires Consistent() && Loaded() && ArgOk(arg)
      requires hashes == handlers.hash(ArgKey(arg)) && CanonKey(arg) !in contents
      modifies items, stash, buffer, `items, `lgSize, `used, `buffer, `base, `poolSize, `poolCapacity, `poolUsed
      modifies `copied, `dups, `dupCount, `stashSize, `stashExtent, `contents, `names
      ensures r != Replaced
      ensures r == Added ==> Consistent() && Loaded() && contents == old(contents)[old(CanonKey(arg)) := value]
      ensures r == Added ==> StashBlocked(lgSize, items[..], stash[..])
      ensures r == StashCollision <==> !old(HasRoom(hashes))
      ensures r == StashCollision ==>
        old(stashSize) == STASH_SIZE && Collision(old(contents)[old(CanonKey(arg)) := value])
      ensures r == TooLarge ==>
        old(lgSize) == MAX_LG_SIZE && Exceeded(old(contents)[old(CanonKey(arg)) := value])
      ensures r == Added && old(lgSize) == MAX_LG_SIZE ==> !AtLimit()
      ensures Pool() == AfterStore(old(Pool()), old(KeyBytes(ArgKey(arg))))
      ensures dupCount == if customKeys then old(dupCount) + 1 else old(dupCount)
      ensures r == Added ==> names == old(names)[old(CanonKey(arg)) := old(ArgKey(arg))]
      ensures r == Added ==> GrewIfNeeded(old(lgSize), old(SlotsNext(hashes)), old(StashNext(hashes)))
      ensures (items == old(items) || fresh(items)) && (buffer == old(buffer) || fresh(buffer))
    {
      hide Consistent, Live, Locs, Mem, LiveOf, Pow2, ArgKey, KeyAt, StashBlocked, And, Stranded, HasRoom;
      hide KeyBytes, Shape, AfterStore, Exceeded, Loaded, Collision, BothAlike, SlotsNext, StashNext, Regrown;
      hide AllTried;
      TableFits();
      var ok := AddUsed(arg, hashes, value);
      if !ok {
        return StashCollision;
      }
      TableFits();
      EntriesCounted();
      ghost var filled := Slots();
      ok := GrowIfNeeded();
      if ok {
        TableFits();
        IsLoaded();
        SlotsGrown(old(lgSize), old(SlotsNext(hashes)), filled, old(StashNext(hashes)));
      } else {
        IsExceeded();
      }
      r := if ok then Added else TooLarge;
    }

    method AddValue(arg: KeyArg, hashes: Hashes, value: Value) returns (r: WriteResult)
      requires Valid() && ArgOk(arg)
      requires hashes == handlers.hash(ArgKey(arg)) && CanonKey(arg) !in contents
      modifies Repr()
      ensures r != Replaced
      ensures r == Added ==> Valid() && contents == old(contents)[old(CanonKey(arg)) := value] && edited == old(edited)
      ensures r == Added ==> written == old(written) + Owned(value)
      ensures freed == old(freed)
      ensures r == Added ==> StashBlocked(lgSize, items[..], stash[..])
      ensures r == StashCollision <==> !old(HasRoom(hashes))
      ensures r == StashCollision ==>
        old(stashSize) == STASH_SIZE && Collision(old(contents)[old(CanonKey(arg)) := value])
      ensures r == TooLarge ==>
        old(lgSize) == MAX_LG_SIZE && Exceeded(old(contents)[old(CanonKey(arg)) := value])
      ensures r == Added && old(lgSize) == MAX_LG_SIZE ==> !AtLimit()
      ensures Pool() == AfterStore(old(Pool()), old(KeyBytes(ArgKey(arg))))
      ensures dupCount == if customKeys then old(dupCount) + 1 else old(dupCount)
      ensures r == Added ==> names == old(names)[old(CanonKey(arg)) := old(ArgKey(arg))]
      ensures r == Added ==> GrewIfNeeded(old(lgSize), old(SlotsNext(hashes)), old(StashNext(hashes)))
      ensures fresh(Repr() - old(Repr()))
    {
      hide Consistent, Loaded, Live, Mem, ArgKey, Balanced, Owned, StashBlocked, Pow2, Collision, Exceeded;
      hide HasRoom, KeyBytes, AtLimit, Shape, AfterStore, SlotsNext, StashNext, GrewIfNeeded;
      if valueFree && !edited {
        BalancedAdded(written, freed, contents, CanonKey(arg), value);
      }
      r := AddCounted(arg, hashes, value);
      if r == Added {
        written := written + Owned(value);
      }
    }

    /** coucal_write_value. */
    method WriteValue(arg: KeyArg, value: Value) returns (r: WriteResult)
      requires Valid() && ArgOk(arg)
      modifies Repr()
      ensures r == Replaced <==> old(CanonKey(arg)) in old(contents)
      ensures !r.Fatal() ==> Valid() && contents == old(contents)[old(CanonKey(arg)) := value] && edited == old(edited)
      ensures r == Replaced ==> Layout() == old(Layout()) && Repr() == old(Repr()) && dups == old(dups)
      ensures !r.Fatal() ==> written == old(written) + Owned(value)
      ensures freed ==
        if r == Replaced && valueFree then old(freed) + Owned(old(ValueOf(CanonKey(arg)))) else old(freed)
      ensures r == Added ==> StashBlocked(lgSize, items[..], stash[..])
      ensures r == StashCollision <==>
        old(CanonKey(arg) !in contents && !RoomFor(arg))
      ensures r == StashCollision ==>
        old(stashSize) == STASH_SIZE && Collision(old(contents)[old(CanonKey(arg)) := value])
      ensures r == TooLarge ==>
        old(lgSize) == MAX_LG_SIZE && Exceeded(old(contents)[old(CanonKey(arg)) := value])
      ensures r == Added && old(lgSize) == MAX_LG_SIZE ==> !AtLimit()
      ensures Pool() ==
        if r == Replaced then old(Pool()) else AfterStore(old(Pool()), old(KeyBytes(ArgKey(arg))))
      ensures dupCount == if r != Replaced && customKeys then old(dupCount) + 1 else old(dupCount)
      ensures names ==
        if r == Replaced then old(names) else if r == Added then old(names)[old(CanonKey(arg)) := old(ArgKey(arg))]
        else names
      ensures r == Added ==>
        GrewIfNeeded(old(lgSize), old(SlotsNext(KeyHash(arg))), old(StashNext(KeyHash(arg))))
      ensures r == Replaced ==> lgSize == old(lgSize)
      ensures fresh(Repr() - old(Repr()))
    {
      hide Consistent, Live, Layout, KeyAt, Accounts, MapKey, StashBlocked, Owned, Pow2, Loaded, Collision;
      hide Exceeded, HasRoom, KeyBytes, AtLimit, Shape, AfterStore, SlotsNext, StashNext, GrewIfNeeded;
      var hashes := handlers.hash(ArgKey(arg));
      var loc := FetchValueHashes(arg, hashes);
      if loc != Absent {
        ReplaceValue(loc, value);
        r := Replaced;
      } else {
        r := AddValue(arg, hashes, value);
      }
    }

    lemma IsConsistent()
      requires Valid()
      ensures Consistent()
    {
      hide Consistent;
    }

    /** The assignment through the pointer that a lookup returns. */
    method EditValue(loc: Loc, value: Value)
      requires Valid() && LocOk(loc)
      modifies items, stash, `contents, `edited
      ensures Valid() && edited && Layout() == old(Layout())
      ensures contents == old(contents)[old(MapKey(handlers, Mem(), ItemAt(loc))) := value]
    {
      hide Consistent, Live, Layout, MapKey, Mem, Balanced, Pow2;
      PutValue(loc, value);
      edited := true;
    }

    /** coucal_inc_: adds to a value, modulo 2^64, or creates it. */
    method Inc(arg: KeyArg, inc: Value) returns (r: WriteResult, value: Value)
      requires Valid() && ArgOk(arg)
      modifies Repr()
      ensures r == Replaced <==> old(CanonKey(arg)) in old(contents)
      ensures !r.Fatal() ==> Valid() && contents == old(contents)[old(CanonKey(arg)) := value]
      ensures var more := value - old(ValueOf(CanonKey(arg))) - inc; more == 0 || more == -0x1_0000_0000_0000_0000
      ensures value == Sum(old(ValueOf(CanonKey(arg))), inc)
      ensures r == Replaced ==> Layout() == old(Layout()) && Repr() == old(Repr()) && dups == old(dups)
      ensures r == Replaced ==> edited && written == old(written) && lgSize == old(lgSize)
      ensures r == Added ==> edited == old(edited) && written == old(written) + Owned(inc)
      ensures freed == old(freed)
      ensures r == StashCollision ==> Collision(old(contents)[old(CanonKey(arg)) := value])
      ensures r == TooLarge ==> old(lgSize) == MAX_LG_SIZE && Exceeded(old(contents)[old(CanonKey(arg)) := value])
      ensures r == StashCollision ==> old(stashSize) == STASH_SIZE
      ensures r == StashCollision <==> old(CanonKey(arg) !in contents && !RoomFor(arg))
      ensures names ==
        if r == Replaced then old(names) else if r == Added then old(names)[old(CanonKey(arg)) := old(ArgKey(arg))]
        else names
      ensures r == Added ==>
        GrewIfNeeded(old(lgSize), old(SlotsNext(KeyHash(arg))), old(StashNext(KeyHash(arg))))
      ensures Pool() ==
        if r == Replaced then old(Pool()) else AfterStore(old(Pool()), old(KeyBytes(ArgKey(arg))))
      ensures dupCount == if r != Replaced && customKeys then old(dupCount) + 1 else old(dupCount)
      ensures fresh(Repr() - old(Repr()))
    {
      hide Valid, Consistent, Layout, KeyAt, MapKey, StashBlocked, Collision, Exceeded;
      hide KeyBytes, HasRoom, Owned, AtLimit, AfterStore, RoomFor, SlotsNext, StashNext, GrewIfNeeded, Sum;
      SumWraps(ValueOf(CanonKey(arg)), inc);
      IsConsistent();
      var loc := FetchValueHashes(arg, handlers.hash(ArgKey(arg)));
      if loc != Absent {
        value := Sum(ItemAt(loc).value, inc);
        EditValue(loc, value);
        r := Replaced;
      } else {
        SumWraps(0, inc);
        value := inc;
        r := WriteValue(arg, inc);
        assert r != Replaced;
      }
    }

    /** coucal_inc: returns the incremented value exactly when the entry was below the largest
        int, and not below the smallest one by more than one. */
    method Increment(arg: KeyArg) returns (r: WriteResult, value: int)
      requires Valid() && ArgOk(arg)
      modifies Repr()
      ensures r == Replaced <==> old(CanonKey(arg)) in old(contents)
      ensures !r.Fatal() ==> Valid() && contents == old(contents)[old(CanonKey(arg)) := ValueOf(old(CanonKey(arg)))]
      ensures !r.Fatal() ==> var before, after := old(ValueOf(CanonKey(arg))), ValueOf(old(CanonKey(arg)));
        after == before + 1 || after == before + 1 - 0x1_0000_0000_0000_0000
      ensures -0x8000_0000 <= value < 0x8000_0000
      ensures !r.Fatal() ==> (ValueOf(old(CanonKey(arg))) - value) % 0x1_0000_0000 == 0
      ensures var before := Signed(old(ValueOf(CanonKey(arg))));
        value == before + 1 <==> -0x8000_0001 <= before < 0x7fff_ffff
      ensures freed == old(freed)
      ensures r.Fatal() ==>
        Stopped(old(contents)[old(CanonKey(arg)) := old(Sum(ValueOf(CanonKey(arg)), 1))])
      ensures fresh(Repr() - old(Repr()))
    {
      hide Valid, Collision, Exceeded, Layout, CanonKey, IntCast, Signed, Sum, AfterStore, KeyBytes;
      hide RoomFor, SlotsNext, StashNext, GrewIfNeeded, Owned;
      IncReturnsValue(ValueOf(CanonKey(arg)));
      var v;
      r, v := Inc(arg, 1);
      CastsCongruent(v);
      value := IntCast(v);
    }

    /** coucal_dec. */
    method Decrement(arg: KeyArg) returns (r: WriteResult, value: int)
      requires Valid() && ArgOk(arg)
      modifies Repr()
      ensures r == Replaced <==> old(CanonKey(arg)) in old(contents)
      ensures !r.Fatal() ==> Valid() && contents == old(contents)[old(CanonKey(arg)) := ValueOf(old(CanonKey(arg)))]
      ensures !r.Fatal() ==> var before, after := old(ValueOf(CanonKey(arg))), ValueOf(old(CanonKey(arg)));
        after == before - 1 || after == before - 1 + 0x1_0000_0000_0000_0000
      ensures -0x8000_0000 <= value < 0x8000_0000
      ensures !r.Fatal() ==> (ValueOf(old(CanonKey(arg))) - value) % 0x1_0000_0000 == 0
      ensures var before := Signed(old(ValueOf(CanonKey(arg))));
        value == before - 1 <==> -0x8000_0000 < before <= 0x8000_0000
      ensures freed == old(freed)
      ensures r.Fatal() ==>
        Stopped(old(contents)[old(CanonKey(arg)) := old(Sum(ValueOf(CanonKey(arg)), MINUS_ONE))])
      ensures fresh(Repr() - old(Repr()))
    {
      hide Valid, Collision, Exceeded, Layout, CanonKey, IntCast, Signed, Sum, AfterStore, KeyBytes;
      hide RoomFor, SlotsNext, StashNext, GrewIfNeeded, Owned;
      IncReturnsValue(ValueOf(CanonKey(arg)));
      var v;
      r, v := Inc(arg, MINUS_ONE);
      CastsCongruent(v);
      value := IntCast(v);
    }

    /** coucal_remove, but for the accounts of the values. */
    method RemoveEntry(arg: KeyArg) returns (removed: bool)
      requires Consistent() && Loaded() && ArgOk(arg)
      modifies items, stash, buffer, `buffer, `base, `poolSize, `poolCapacity, `poolUsed, `copied, `released
      modifies `dups, `dupsFreed, `freed
      modifies `stashSize, `stashExtent, `contents, `names, `used
      ensures Consistent() && Loaded() && items == old(items)
      ensures removed <==> old(CanonKey(arg)) in old(contents)
      ensures contents == old(contents) - {old(CanonKey(arg))}
      ensures if removed then Cleared(old(Layout()), Layout(), old(CanonKey(arg))) else Layout() == old(Layout())
      ensures freed == if removed && valueFree then old(freed) + Owned(old(ValueOf(CanonKey(arg)))) else old(freed)
      ensures !removed ==> contents == old(contents)
      ensures names == old(names) - {old(CanonKey(arg))}
      ensures Pool() ==
        if removed then AfterDrop(old(Pool()), KeyBytes(old(StoredKey(CanonKey(arg))))) else old(Pool())
      ensures buffer == old(buffer) || fresh(buffer)
    {
      hide Consistent, Live, Layout, KeyAt, MapKey, Owned, Pow2, Mem, Locs, Clean, Represents, Spelt, KeyBytes;
      hide AfterDrop, StoredKey;
      ghost var k := CanonKey(arg);
      var loc := FetchValueHashes(arg, handlers.hash(ArgKey(arg)));
      removed := loc != Absent;
      if removed {
        ghost var i := LocIndex(loc);
        LocIsEntry(loc);
        RemoveAt(loc);
        assert used != 0;
        used := used - 1;
        assert old(Layout())[i] == Some(k);
      } else {
        assert contents - {k} == contents;
        NamesAre();
        assert names - {k} == names;
      }
    }

    /** coucal_remove. */
    method Remove(arg: KeyArg) returns (removed: bool)
      requires Valid() && ArgOk(arg)
      modifies Repr()
      ensures Valid() && fresh(Repr() - old(Repr()))
      ensures removed <==> old(CanonKey(arg)) in old(contents)
      ensures contents == old(contents) - {old(CanonKey(arg))}
      ensures if removed then Cleared(old(Layout()), Layout(), old(CanonKey(arg))) else Layout() == old(Layout())
      ensures items == old(items) && edited == old(edited) && written == old(written)
      ensures names == old(names) - {old(CanonKey(arg))} && lgSize == old(lgSize)
      ensures Pool() ==
        if removed then AfterDrop(old(Pool()), KeyBytes(old(StoredKey(CanonKey(arg))))) else old(Pool())
      ensures dupCount == old(dupCount)
      ensures freed == if removed && valueFree then old(freed) + Owned(old(ValueOf(CanonKey(arg)))) else old(freed)
    {
      hide Consistent, Loaded, Live, Mem, ArgKey, Layout, Balanced, Owned, Cleared, KeyBytes, AfterDrop;
      if valueFree && !edited && CanonKey(arg) in contents {
        BalancedRemoved(written, freed, contents, CanonKey(arg));
      }
      removed := RemoveEntry(arg);
    }

    // ----- Creation and destruction -----

    /** A hashtable of zeroed slots, with no key, is a sound empty one. */
    lemma AllZero()
      requires MIN_LG_SIZE <= lgSize <= MAX_LG_SIZE && handlers.Lawful() && items != stash
      requires items.Length == Pow2(lgSize) && stash.Length == STASH_SIZE
      requires forall i :: 0 <= i < items.Length ==> items[i] == ZERO_ITEM
      requires forall i :: 0 <= i < stash.Length ==> stash[i] == ZERO_ITEM
      requires initialLg == lgSize
      requires used == stashSize == stashExtent == 0
      requires Mem() == Memory(0, [], map[]) && poolSize == poolCapacity == poolUsed == copied == 0
      requires dupCount == dupsFreed == 0 && contents == map[] && names == map[] && written == freed == multiset{}
      ensures Valid()
    {
      hide LiveOf, SlotsOk, NamesOk, Represents, Spelt, Balanced, KeyAt, Clean, Pow2, Handlers.Lawful;
      Pow2Above(lgSize);
      EmptySlots(lgSize, items[..], stash[..]);
      SlotsScannable(lgSize, items[..], stash[..], 0, 0);
      EmptyNames(handlers, customKeys, Mem());
      EmptyAccounts();
    }

    /** The calloc'ed hashtable of coucal_new, with its handlers. */
    constructor (lg: nat, handlers: Handlers, customKeys: bool, valueFree: bool)
      requires MIN_LG_SIZE <= lg <= MAX_LG_SIZE && handlers.Lawful()
      ensures Valid() && contents == map[] && names == map[] && lgSize == lg
      ensures fresh(Repr()) && this.handlers == handlers
      ensures items.Length == Pow2(lg) && stash.Length == STASH_SIZE
      ensures initialLg == lg && Pool() == NO_POOL
      ensures this.customKeys == customKeys && this.valueFree == valueFree
      ensures written == freed == multiset{} && !edited && copied == released == dupsFreed == dupCount == 0
    {
      hide Valid, Pow2, Handlers.Lawful;
      this.handlers, this.customKeys, this.valueFree := handlers, customKeys, valueFree;
      initialLg := lg;
      lgSize, used, stashSize, stashExtent := lg, 0, 0, 0;
      var table := Calloc(Pow2(lg));
      var spare := Calloc(STASH_SIZE);
      items, stash := table, spare;
      buffer := new Byte[0];
      base, poolSize, poolCapacity, poolUsed := 0, 0, 0, 0;
      dups, dupCount := map[], 0;
      contents, names, copied, released, dupsFreed := map[], map[], 0, 0, 0;
      written, freed, edited := multiset{}, multiset{}, false;
      new;
      AllZero();
    }

    /** coucal_new: the smallest acceptable size of at least initialSize slots, if any. */
    static method New(initialSize: nat, handlers: Handlers, customKeys: bool, valueFree: bool)
      returns (table: Coucal?)
      requires handlers.Lawful()
      ensures table == null <==> initialSize > 0x1_0000_0000
      ensures table != null ==> table.items.Length >= 16 && table.stash.Length == 16
      ensures table == null <==> initialSize > Pow2(MAX_LG_SIZE)
      ensures table != null ==> fresh(table) && fresh(table.Repr()) && table.Valid()
      ensures table != null ==> table.contents == map[] && table.names == map[]
      ensures table != null ==>
        table.handlers == handlers && table.customKeys == customKeys && table.valueFree == valueFree
      ensures table != null ==> table.written == table.freed == multiset{} && !table.edited && table.dupCount == 0
      ensures table != null ==> initialSize <= Pow2(table.lgSize) && table.initialLg == table.lgSize
      ensures table != null ==> table.Pool() == NO_POOL
      ensures table != null && table.lgSize > MIN_LG_SIZE ==> Pow2(table.lgSize - 1) < initialSize
    {
      hide Coucal.Valid, Handlers.Lawful;
      LargestSize();
      // coucal_get_pow2
      var size := MIN_LG_SIZE;
      while size <= MAX_LG_SIZE && Pow2(size) < initialSize
        invariant MIN_LG_SIZE <= size <= MAX_LG_SIZE + 1
        invariant size > MIN_LG_SIZE ==> Pow2(size - 1) < initialSize
      {
        size := size + 1;
      }
      if size > MAX_LG_SIZE {
        return null;
      }
      Pow2Monotonic(size, MAX_LG_SIZE);
      Pow2Monotonic(MIN_LG_SIZE, size);
      table := new Coucal(size, handlers, customKeys, valueFree);
    }

    /** The values of the first n slots that are for the free handler, if any. */
    ghost function Freeable(locs: seq<Item>, n: nat): multiset<Value>
      requires n <= |locs|
    {
      if valueFree then OwnedSlots(locs, n) else multiset{}
    }

    lemma FreeableStep(locs: seq<Item>, n: nat)
      requires n < |locs|
      ensures Freeable(locs, n + 1)
           == Freeable(locs, n) + if valueFree && locs[n].Live() then Owned(locs[n].value) else multiset{}
    {
      hide Owned;
      OwnedSlotsStep(locs, n);
    }

    /** The progress of coucal_delete: the slots numbered from n on are left, with their dup'd
        keys, and the values of the others have been freed. */
    ghost predicate Deleting(locs: seq<Item>, n: nat, before: multiset<Value>)
      reads `dups, `dupCount, `dupsFreed, `freed, `base, `buffer, buffer
      requires n <= |locs|
    {
      && DupsCounted()
      && KeysLeft(locs, n)
      && freed == before + Freeable(locs, n)
    }

    /** The dup'd keys of the slots from n on are those of the live items there. */
    ghost predicate KeysLeft(locs: seq<Item>, n: nat)
      reads `dups, `base, `buffer, buffer
      requires n <= |locs|
    {
      customKeys ==> DupsOk(Mem(), LiveOf(locs[n..])) && OnceEach(LiveOf(locs[n..]))
    }

    /** The freeing of the key of slot n, when it comes from a dup handler. */
    method DeleteKey(slots: array<Item>, pos: nat, ghost locs: seq<Item>, ghost n: nat)
      requires pos < slots.Length && n < |locs| && Clean(locs) && locs[n].Live()
      requires slots[pos] == locs[n].(value := 0) && DupsCounted() && KeysLeft(locs, n)
      modifies slots, `dups, `dupsFreed
      ensures DupsCounted() && KeysLeft(locs, n + 1)
      ensures forall j :: 0 <= j < slots.Length && j != pos ==> slots[j] == old(slots[j])
    {
      hide LiveOf, DupsOk, KeyAt, OnceEach, Clean;
      LiveOfTail(locs, n);
      if customKeys {
        ghost var x, live := locs[n], LiveOf(locs[n..]);
        var name := slots[pos].name;
        slots[pos] := slots[pos].(name := Null, hashes := Hashes(0, 0));
        OnceEachDrop(live, x);
        DupDrop(Mem(), live, x);
        // the free handler gets a key that it was not given before
        DupGivenBack(dups, name.handle);
        dups := dups - {name.handle};
        dupsFreed := dupsFreed + 1;
      }
    }

    /** One iteration of coucal_delete: frees the value, and the name when it comes from a dup
        handler. */
    method DeleteSlot(slots: array<Item>, pos: nat, ghost locs: seq<Item>, ghost n: nat, ghost before: multiset<Value>)
      requires pos < slots.Length && n < |locs| && Clean(locs) && slots[pos] == locs[n]
      requires Deleting(locs, n, before)
      modifies slots, `dups, `dupsFreed, `freed
      ensures Deleting(locs, n + 1, before)
      ensures forall j :: 0 <= j < slots.Length && j != pos ==> slots[j] == old(slots[j])
    {
      hide LiveOf, DupsOk, Owned, KeyAt, OnceEach, Clean, Freeable, KeysLeft, DupsCounted;
      FreeableStep(locs, n);
      LiveOfTail(locs, n);
      if slots[pos].Live() {
        DelValue(slots, pos);
        DeleteKey(slots, pos, locs, n);
      } else {
        SameKeysLeft(locs, n);
      }
    }

    lemma SameKeysLeft(locs: seq<Item>, n: nat)
      requires n < |locs| && Clean(locs) && !locs[n].Live() && KeysLeft(locs, n)
      ensures KeysLeft(locs, n + 1)
    {
      hide LiveOf, DupsOk, OnceEach, Clean;
      LiveOfTail(locs, n);
    }

    /** A loop of coucal_delete, over the slots numbered from `from` on. */
    method DeleteSlots(slots: array<Item>, count: nat, ghost locs: seq<Item>, ghost from: nat,
                       ghost before: multiset<Value>)
      requires count <= slots.Length && from + count <= |locs| && Clean(locs)
      requires forall j :: 0 <= j < count ==> slots[j] == locs[from + j]
      requires Deleting(locs, from, before)
      modifies slots, `dups, `dupsFreed, `freed
      ensures Deleting(locs, from + count, before)
      ensures forall j :: count <= j < slots.Length ==> slots[j] == old(slots[j])
    {
      hide Deleting, Clean;
      for i := 0 to count
        invariant forall j :: i <= j < slots.Length ==> slots[j] == old(slots[j])
        invariant Deleting(locs, from + i, before)
      {
        assert slots[i] == locs[from + i];
        DeleteSlot(slots, i, locs, from + i, before);
      }
    }

    lemma DeleteBegins()
      requires Consistent()
      ensures Scannable() && Clean(Locs()) && Deleting(Locs(), 0, freed)
      ensures OwnedSlots(Locs(), |Locs()|) == OwnedIn(contents)
    {
      hide LiveOf, SlotsOk, Represents, Spelt, KeyAt, NamesOk, OwnedSlots, Clean;
      var locs := Locs();
      DeletingStarts(handlers, customKeys, Mem(), poolSize, poolUsed, locs, contents);
      assert freed == freed + multiset{};
    }

    lemma DeleteEnds(locs: seq<Item>, n: nat, before: multiset<Value>)
      requires n <= |locs| && Clean(locs) && forall j :: n <= j < |locs| ==> !locs[j].Live()
      requires Deleting(locs, n, before)
      ensures freed == before + (if valueFree then OwnedSlots(locs, |locs|) else multiset{})
      ensures customKeys ==> dups == map[] && dupsFreed == dupCount
    {
      hide LiveOf, OwnedSlots, DupsOk, Clean;
      DeletingDone(locs, n);
      if customKeys {
        NothingHeld(Mem(), LiveOf(locs[n..]));
      }
    }

    /** Both loops of coucal_delete. */
    method DeleteAll(ghost locs: seq<Item>, ghost before: multiset<Value>)
      requires Scannable() && locs == Locs() && Deleting(locs, 0, before)
      modifies items, stash, `dups, `dupsFreed, `freed
      ensures Deleting(locs, items.Length + stashExtent, before)
    {
      hide Deleting, Clean;
      DeleteSlots(items, items.Length, locs, 0, before);
      DeleteSlots(stash, stashExtent, locs, items.Length, before);
    }

    /** The wiping of all values, and of all names that come from a dup handler. */
    method DeleteEntries()
      requires Valid()
      modifies items, stash, `dups, `dupsFreed, `freed
      ensures freed == old(freed) + (if valueFree then OwnedIn(old(contents)) else multiset{})
      ensures valueFree && !edited ==> freed == written
      ensures customKeys ==> dups == map[] && dupsFreed == dupCount
    {
      hide Consistent, Loaded, Live, LiveOf, Balanced, Clean, OwnedSlots, Deleting, Represents, Spelt;
      ghost var locs, n, before := Locs(), items.Length + stashExtent, freed;
      DeleteBegins();
      if valueFree && !edited {
        BalancedIs(written, freed, contents);
      }
      assert forall j :: n <= j < |locs| ==> locs[j] == stash[j - items.Length];
      DeleteAll(locs, before);
      DeleteEnds(locs, n, before);
    }

    /** coucal_delete: every non-NULL value written has been freed once, and so has every
        dup'd key. */
    method Delete()
      requires Valid()
      modifies Repr()
      ensures written == old(written) && edited == old(edited) && dupCount == old(dupCount)
      ensures freed == old(freed) + (if valueFree then OwnedIn(old(contents)) else multiset{})
      ensures valueFree && !edited ==> freed == written
      ensures customKeys ==> dups == map[] && dupsFreed == dupCount
      ensures items.Length == buffer.Length == used == lgSize == 0
    {
      hide Valid;
      DeleteEntries();
      lgSize := 0;
      used := 0;
      buffer := new Byte[0];
      items := new Item[0];
    }
  }
}
