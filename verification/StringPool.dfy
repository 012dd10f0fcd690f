/** The string pool: NUL-terminated keys in one buffer, referenced by address, and what
    storing, releasing, moving and compacting them does to the other keys. */
module StringPool {
  import opened Items

  /** What names point into: the pool buffer at its address, and the custom-dup'd keys. */
  datatype Memory = Memory(base: nat, bytes: seq<Byte>, dups: map<nat, Key>)

  // ----- C strings -----

  /** The C string at offset off. */
  function CString(bytes: seq<Byte>, off: nat): Key
    decreases |bytes| - off
  {
    if off >= |bytes| || bytes[off] == 0 then [] else [bytes[off]] + CString(bytes, off + 1)
  }

  /** The bytes at off are those of k, followed by a NUL. */
  ghost predicate Spells(bytes: seq<Byte>, off: nat, k: Key) {
    off + |k| < |bytes| && bytes[off..off + |k|] == k && bytes[off + |k|] == 0
  }

  lemma {:induction false} CStringIs(bytes: seq<Byte>, off: nat, k: Key)
    requires Spells(bytes, off, k)
    ensures CString(bytes, off) == k
    decreases |k|
  {
    if k != [] {
      assert bytes[off] == bytes[off..off + |k|][0] == k[0];
      assert bytes[off + 1..off + |k|] == bytes[off..off + |k|][1..];
      CStringIs(bytes, off + 1, k[1..]);
    }
  }

  /** A string that starts at or before a NUL ends there at the latest. */
  lemma {:induction false} CStringEnds(bytes: seq<Byte>, off: nat, end: nat)
    requires off <= end < |bytes| && bytes[end] == 0
    ensures Spells(bytes, off, CString(bytes, off)) && off + |CString(bytes, off)| <= end
    decreases end - off
  {
    if bytes[off] != 0 {
      CStringEnds(bytes, off + 1, end);
      var k := CString(bytes, off + 1);
      assert bytes[off..off + 1 + |k|] == [bytes[off]] + bytes[off + 1..off + 1 + |k|];
    }
  }

  /** The same bytes elsewhere are the same string. */
  lemma CStringMoved(bytes: seq<Byte>, off: nat, bytes': seq<Byte>, off': nat, k: Key)
    requires Spells(bytes, off, k) && off' + |k| < |bytes'|
    requires bytes'[off'..off' + |k| + 1] == bytes[off..off + |k| + 1]
    ensures CString(bytes', off') == k
  {
    assert bytes'[off'..off' + |k|] == bytes'[off'..off' + |k| + 1][..|k|];
    assert bytes[off..off + |k|] == bytes[off..off + |k| + 1][..|k|];
    assert bytes'[off' + |k|] == bytes'[off'..off' + |k| + 1][|k|] == bytes[off..off + |k| + 1][|k|];
    CStringIs(bytes', off', k);
  }

  // ----- Names -----

  function KeyAt(mem: Memory, name: Name): Key {
    match name
    case Null => []
    case Shared => []
    case Pooled(a) => if a < mem.base then [] else CString(mem.bytes, a - mem.base)
    case Dup(h) => if h in mem.dups then mem.dups[h] else []
  }

  /** The bytes of the pool that a name takes, terminator included. */
  function Footprint(mem: Memory, x: Item): nat {
    if x.name.Pooled? then |KeyAt(mem, x.name)| + 1 else 0
  }

  ghost function Footprints(mem: Memory): Item -> nat {
    (x: Item) => Footprint(mem, x)
  }

  /** The bytes of a pooled name start in the pool, below the high watermark, and do not
      start with a NUL. */
  ghost predicate InPool(mem: Memory, size: nat, addr: nat) {
    && mem.base <= addr < mem.base + size && size <= |mem.bytes|
    && mem.bytes[addr - mem.base] != 0
  }

  /** Two pooled names share no byte. */
  ghost predicate Apart(mem: Memory, x: Item, y: Item) {
    x.name.Pooled? && y.name.Pooled? ==>
      || x.name.addr + Footprint(mem, x) <= y.name.addr
      || y.name.addr + Footprint(mem, y) <= x.name.addr
  }

  ghost predicate AllApart(mem: Memory, live: multiset<Item>) {
    forall x, y {:trigger Apart(mem, x, y)} :: x in live && y in live && x != y ==> Apart(mem, x, y)
  }

  /** A high watermark below the capacity, and a NUL just under it. */
  ghost predicate Bounded(mem: Memory, size: nat) {
    size <= |mem.bytes| && (size > 0 ==> mem.bytes[size - 1] == 0)
  }

  /** The string pool invariant. */
  ghost predicate PoolOk(mem: Memory, size: nat, used: nat, live: multiset<Item>) {
    && used <= size && Bounded(mem, size)
    && (forall x :: x in live ==> x.name.Shared? || (x.name.Pooled? && InPool(mem, size, x.name.addr)))
    && AllApart(mem, live)
    && used == Total(live, Footprints(mem))
  }

  lemma PoolBounds(mem: Memory, size: nat, used: nat, locs: seq<Item>)
    requires Clean(locs) && PoolOk(mem, size, used, LiveOf(locs))
    ensures used <= size && Bounded(mem, size)
    ensures forall i :: 0 <= i < |locs| && locs[i].name.Pooled? ==> mem.base <= locs[i].name.addr < mem.base + size
  {
    forall i | 0 <= i < |locs| && locs[i].name.Pooled?
      ensures mem.base <= locs[i].name.addr < mem.base + size
    {
      assert locs[i] in LiveOf(locs);
    }
  }

  lemma BoundedPrefix(mem: Memory, mem': Memory, size: nat)
    requires Bounded(mem, size) && size <= |mem'.bytes| && mem'.bytes[..size] == mem.bytes[..size]
    ensures Bounded(mem', size)
  {
    assert size > 0 ==> mem'.bytes[size - 1] == mem'.bytes[..size][size - 1] == mem.bytes[..size][size - 1];
  }

  /** A live pooled key is a non-empty string that ends, NUL included, below the watermark. */
  lemma PooledKey(mem: Memory, size: nat, used: nat, live: multiset<Item>, x: Item)
    requires PoolOk(mem, size, used, live) && x in live && x.name.Pooled?
    ensures var off, k := x.name.addr - mem.base, KeyAt(mem, x.name);
      0 <= off && k != [] && Spells(mem.bytes, off, k) && off + Footprint(mem, x) <= size
  {
    CStringEnds(mem.bytes, x.name.addr - mem.base, size - 1);
  }

  /** The bytes of x's key are the same in both memories. */
  ghost predicate SameBytes(mem: Memory, mem': Memory, x: Item) {
    x.name.Pooled? ==>
      var off, n := x.name.addr - mem.base, Footprint(mem, x);
      && 0 <= off && off + n <= |mem.bytes| && off + n <= |mem'.bytes|
      && mem'.bytes[off..off + n] == mem.bytes[off..off + n]
  }

  lemma SameBytesSameKey(mem: Memory, mem': Memory, size: nat, used: nat, live: multiset<Item>, x: Item)
    requires PoolOk(mem, size, used, live) && x in live && x.name.Pooled?
    requires mem'.base == mem.base && SameBytes(mem, mem', x)
    ensures KeyAt(mem', x.name) == KeyAt(mem, x.name)
    ensures x.name.addr - mem.base < |mem'.bytes| && mem'.bytes[x.name.addr - mem.base] != 0
  {
    PooledKey(mem, size, used, live, x);
    var off, n := x.name.addr - mem.base, Footprint(mem, x);
    CStringMoved(mem.bytes, off, mem'.bytes, off, KeyAt(mem, x.name));
    assert mem'.bytes[off] == mem'.bytes[off..off + n][0] == mem.bytes[off..off + n][0];
  }

  ghost predicate SameKeys(mem: Memory, mem': Memory, live: multiset<Item>) {
    forall x :: x in live ==> KeyAt(mem', x.name) == KeyAt(mem, x.name)
  }

  /** Changing bytes that no live key uses keeps every key and the invariant. */
  lemma PoolAgrees(mem: Memory, mem': Memory, size: nat, size': nat, used: nat, live: multiset<Item>)
    requires PoolOk(mem, size, used, live)
    requires mem'.base == mem.base && size <= size' && Bounded(mem', size')
    requires forall x :: x in live ==> SameBytes(mem, mem', x)
    ensures PoolOk(mem', size', used, live) && SameKeys(mem, mem', live)
  {
    forall x | x in live
      ensures KeyAt(mem', x.name) == KeyAt(mem, x.name)
      ensures x.name.Pooled? ==> InPool(mem', size', x.name.addr)
    {
      if x.name.Pooled? {
        SameBytesSameKey(mem, mem', size, used, live, x);
      }
    }
    TotalAgree(live, Footprints(mem), Footprints(mem'));
    forall x, y {:trigger Apart(mem', x, y)} | x in live && y in live && x != y
      ensures Apart(mem', x, y)
    {
      assert Apart(mem, x, y);
    }
  }

  // ----- Storing a key -----

  lemma SliceOfPrefix(a: seq<Byte>, b: seq<Byte>, size: nat, from: nat, to: nat)
    requires from <= to <= size <= |a| && size <= |b| && a[..size] == b[..size]
    ensures a[from..to] == b[from..to]
  {
    assert a[from..to] == a[..size][from..to];
    assert b[from..to] == b[..size][from..to];
  }

  lemma PrefixSameBytes(mem: Memory, mem': Memory, size: nat, used: nat, live: multiset<Item>, x: Item)
    requires PoolOk(mem, size, used, live) && x in live
    requires mem'.base == mem.base && size <= |mem'.bytes| && mem'.bytes[..size] == mem.bytes[..size]
    ensures SameBytes(mem, mem', x)
  {
    if x.name.Pooled? {
      PooledKey(mem, size, used, live, x);
      var off := x.name.addr - mem.base;
      SliceOfPrefix(mem'.bytes, mem.bytes, size, off, off + Footprint(mem, x));
    }
  }

  lemma SpellsSlice(bytes: seq<Byte>, off: nat, k: Key)
    requires off + |k| + 1 <= |bytes| && bytes[off..off + |k| + 1] == k + [0]
    ensures Spells(bytes, off, k)
  {
    var slice := bytes[off..off + |k| + 1];
    assert bytes[off..off + |k|] == slice[..|k|];
    assert bytes[off + |k|] == slice[|k|];
  }

  /** Appending a string at the watermark leaves every live key as it was. */
  lemma AppendKeepsKeys(mem: Memory, mem': Memory, size: nat, used: nat, live: multiset<Item>, k: Key)
    requires PoolOk(mem, size, used, live)
    requires mem' == mem.(bytes := mem'.bytes) && size + |k| + 1 <= |mem'.bytes|
    requires mem'.bytes[..size] == mem.bytes[..size]
    requires mem'.bytes[size..size + |k| + 1] == k + [0]
    ensures PoolOk(mem', size + |k| + 1, used, live) && SameKeys(mem, mem', live)
    ensures CString(mem'.bytes, size) == k
  {
    SpellsSlice(mem'.bytes, size, k);
    CStringIs(mem'.bytes, size, k);
    forall x | x in live
      ensures SameBytes(mem, mem', x)
    {
      PrefixSameBytes(mem, mem', size, used, live, x);
    }
    PoolAgrees(mem, mem', size, size + |k| + 1, used, live);
  }

  /** An item whose string lies above those of all live items joins them. */
  lemma PoolAdd(mem: Memory, size: nat, used: nat, live: multiset<Item>, x: Item)
    requires PoolOk(mem, size, used, live)
    requires x.name.Shared? || (x.name.Pooled? && InPool(mem, size, x.name.addr))
    requires used + Footprint(mem, x) <= size
    requires x.name.Pooled? ==>
      forall y :: y in live && y.name.Pooled? ==> y.name.addr + Footprint(mem, y) <= x.name.addr
    ensures PoolOk(mem, size, used + Footprint(mem, x), live + multiset{x})
  {
    TotalAdd(live, x, Footprints(mem));
    var live' := live + multiset{x};
    forall a, b {:trigger Apart(mem, a, b)} | a in live' && b in live' && a != b
      ensures Apart(mem, a, b)
    {
    }
  }

  // ----- Releasing a key -----

  lemma PoolDrop(mem: Memory, size: nat, used: nat, live: multiset<Item>, x: Item)
    requires PoolOk(mem, size, used, live) && x in live
    ensures Footprint(mem, x) <= used
    ensures PoolOk(mem, size, used - Footprint(mem, x), live - multiset{x})
  {
    TotalRemove(live, x, Footprints(mem));
  }

  /** Overwriting the first byte of a released key with NUL touches no other key. */
  lemma ReleaseKeepsKeys(mem: Memory, size: nat, used: nat, live: multiset<Item>, x: Item)
    requires PoolOk(mem, size, used, live) && x in live && live[x] == 1 && x.name.Pooled?
    ensures 0 <= x.name.addr - mem.base < |mem.bytes| && Footprint(mem, x) <= used
    ensures var mem', live' := mem.(bytes := mem.bytes[x.name.addr - mem.base := 0]), live - multiset{x};
      PoolOk(mem', size, used - Footprint(mem, x), live') && SameKeys(mem, mem', live')
  {
    PooledKey(mem, size, used, live, x);
    PoolDrop(mem, size, used, live, x);
    var off, live' := x.name.addr - mem.base, live - multiset{x};
    var mem' := mem.(bytes := mem.bytes[off := 0]);
    forall y | y in live'
      ensures SameBytes(mem, mem', y)
    {
      if y.name.Pooled? {
        PooledKey(mem, size, used, live, y);
        assert Apart(mem, x, y);
        var at, n := y.name.addr - mem.base, Footprint(mem, y);
        assert mem'.bytes[at..at + n] == mem.bytes[at..at + n];
      }
    }
    PoolAgrees(mem, mem', size, size, used - Footprint(mem, x), live');
  }

  // ----- Custom keys -----

  /** The dup'd keys that are not yet freed are exactly the names of the live items. */
  ghost predicate DupsOk(mem: Memory, live: multiset<Item>) {
    && (forall x :: x in live ==> x.name.Dup? && x.name.handle in mem.dups)
    && (forall x, y :: x in live && y in live && x.name == y.name ==> x == y)
    && (forall h :: h in mem.dups ==> Held(live, h))
  }

  ghost predicate Held(live: multiset<Item>, handle: nat) {
    exists x :: x in live && x.name == Dup(handle)
  }

  lemma DupAdd(mem: Memory, live: multiset<Item>, x: Item, h: nat, k: Key)
    requires DupsOk(mem, live) && h !in mem.dups && x.name == Dup(h)
    ensures var mem' := mem.(dups := mem.dups[h := k]);
      DupsOk(mem', live + multiset{x}) && KeyAt(mem', x.name) == k && SameKeys(mem, mem', live)
  {
    var mem', live' := mem.(dups := mem.dups[h := k]), live + multiset{x};
    assert x in live' && Held(live', h);
    forall g | g in mem.dups
      ensures Held(live', g)
    {
      assert Held(live, g);
      var y :| y in live && y.name == Dup(g);
      assert y in live';
    }
  }

  lemma DupDrop(mem: Memory, live: multiset<Item>, x: Item)
    requires DupsOk(mem, live) && x in live && live[x] == 1
    ensures x.name.Dup? && x.name.handle in mem.dups
    ensures var mem', live' := mem.(dups := mem.dups - {x.name.handle}), live - multiset{x};
      DupsOk(mem', live') && SameKeys(mem, mem', live')
  {
    var mem', live' := mem.(dups := mem.dups - {x.name.handle}), live - multiset{x};
    forall h | h in mem'.dups
      ensures Held(live', h)
    {
      assert Held(live, h);
      var y :| y in live && y.name == Dup(h);
      assert y in live';
    }
  }

  // ----- Either kind of key -----

  /** The invariant of the names: pooled strings, or, with custom handlers, dup'd keys and
      an unused pool. */
  ghost predicate NamesOk(custom: bool, mem: Memory, size: nat, used: nat, live: multiset<Item>) {
    if custom then size == 0 && used == 0 && DupsOk(mem, live)
    else mem.dups == map[] && PoolOk(mem, size, used, live)
  }

  /** A name that was just made for k, not yet given to an item. */
  ghost predicate NewName(custom: bool, mem: Memory, size: nat, used: nat, live: multiset<Item>, name: Name, k: Key) {
    && KeyAt(mem, name) == k
    && match name
       case Null => false
       case Shared => k == [] && NamesOk(custom, mem, size, used, live) && !custom
       case Dup(h) =>
         && custom && h in mem.dups
         && NamesOk(custom, mem.(dups := mem.dups - {h}), size, used, live)
       case Pooled(a) =>
         && !custom && used >= |k| + 1 && NamesOk(custom, mem, size, used - |k| - 1, live)
         && used <= size && InPool(mem, size, a)
         && forall y :: y in live && y.name.Pooled? ==> y.name.addr + Footprint(mem, y) <= a
  }

  lemma NewNameOf(custom: bool, mem: Memory, size: nat, used: nat, live: multiset<Item>, name: Name, k: Key)
    requires NewName(custom, mem, size, used, live, name, k)
    ensures KeyAt(mem, name) == k && name != Null && used <= size
  {
  }

  /** An item with that name joins the live ones. */
  lemma NewNameJoins(custom: bool, mem: Memory, size: nat, used: nat, live: multiset<Item>, x: Item, k: Key)
    requires NewName(custom, mem, size, used, live, x.name, k)
    ensures NamesOk(custom, mem, size, used, live + multiset{x})
  {
    hide PoolOk, DupsOk, CString;
    NewNameOf(custom, mem, size, used, live, x.name, k);
    match x.name
    case Null =>
    case Shared => PoolAdd(mem, size, used, live, x);
    case Dup(h) =>
      DupAdd(mem.(dups := mem.dups - {h}), live, x, h, k);
      assert mem.(dups := mem.dups - {h}).(dups := (mem.dups - {h})[h := k]) == mem;
    case Pooled(a) => PoolAdd(mem, size, used - |k| - 1, live, x);
  }

  /** A name made by appending k to the pool. */
  lemma AppendedName(mem: Memory, mem': Memory, size: nat, used: nat, live: multiset<Item>, k: Key)
    requires NamesOk(false, mem, size, used, live) && k != []
    requires mem' == mem.(bytes := mem'.bytes) && size + |k| + 1 <= |mem'.bytes|
    requires mem'.bytes[..size] == mem.bytes[..size]
    requires mem'.bytes[size..size + |k| + 1] == k + [0]
    ensures SameKeys(mem, mem', live)
    ensures NewName(false, mem', size + |k| + 1, used + |k| + 1, live, Pooled(mem.base + size), k)
  {
    AppendKeepsKeys(mem, mem', size, used, live, k);
    assert mem'.bytes[size] == mem'.bytes[size..size + |k| + 1][0] == k[0];
    forall y | y in live && y.name.Pooled?
      ensures y.name.addr + Footprint(mem', y) <= mem.base + size
    {
      PooledKey(mem, size, used, live, y);
    }
  }

  lemma DupName(mem: Memory, size: nat, used: nat, live: multiset<Item>, h: nat, k: Key)
    requires NamesOk(true, mem, size, used, live) && h !in mem.dups
    ensures var mem' := mem.(dups := mem.dups[h := k]);
      NewName(true, mem', size, used, live, Dup(h), k) && SameKeys(mem, mem', live)
  {
    var mem' := mem.(dups := mem.dups[h := k]);
    assert mem'.(dups := mem'.dups - {h}) == mem by {
      assert mem'.dups - {h} == mem.dups;
    }
    DupAdd(mem, live, Item(Dup(h), Hashes(0, 0), 0), h, k);
  }

  /** The names left after one is dropped: the released key, when it is pooled, is marked by
      a NUL in its first byte; when it is a dup'd key, it is given back. */
  function MemFreed(mem: Memory, name: Name): Memory {
    match name
    case Null => mem
    case Shared => mem
    case Pooled(a) =>
      if 0 <= a - mem.base < |mem.bytes| then mem.(bytes := mem.bytes[a - mem.base := 0]) else mem
    case Dup(h) => mem.(dups := mem.dups - {h})
  }

  lemma NameFreed(custom: bool, mem: Memory, size: nat, used: nat, live: multiset<Item>, x: Item)
    requires NamesOk(custom, mem, size, used, live + multiset{x}) && x !in live
    ensures x.name.Pooled? ==>
      !custom && mem.base <= x.name.addr < mem.base + |mem.bytes| && mem.bytes[x.name.addr - mem.base] != 0
    ensures x.name.Dup? ==> custom && x.name.handle in mem.dups
    ensures Footprint(mem, x) <= used
    ensures NamesOk(custom, MemFreed(mem, x.name), size, used - Footprint(mem, x), live)
    ensures SameKeys(mem, MemFreed(mem, x.name), live)
  {
    var all := live + multiset{x};
    assert x in all && all[x] == 1 && all - multiset{x} == live;
    if custom {
      DupDrop(mem, all, x);
    } else if x.name.Pooled? {
      ReleaseKeepsKeys(mem, size, used, all, x);
    } else {
      PoolDrop(mem, size, used, all, x);
    }
  }

  lemma ApartRevalued(mem: Memory, rest: multiset<Item>, x: Item, x': Item)
    requires AllApart(mem, rest + multiset{x}) && x !in rest && x'.name == x.name
    requires x.name.Pooled? ==> KeyAt(mem, x.name) != []
    ensures AllApart(mem, rest + multiset{x'})
  {
    hide KeyAt;
    var all := rest + multiset{x};
    assert x in all && forall y :: y in rest ==> y in all;
    forall a, b {:trigger Apart(mem, a, b)} | a in rest + multiset{x'} && b in rest + multiset{x'} && a != b
      ensures Apart(mem, a, b)
    {
      var a0, b0 := if a in rest then a else x, if b in rest then b else x;
      assert a0 != b0 ==> Apart(mem, a0, b0);
    }
  }

  lemma TotalRevalued(mem: Memory, rest: multiset<Item>, x: Item, x': Item)
    requires x'.name == x.name
    ensures Total(rest + multiset{x'}, Footprints(mem)) == Total(rest + multiset{x}, Footprints(mem))
  {
    hide KeyAt;
    TotalAdd(rest, x, Footprints(mem));
    TotalAdd(rest, x', Footprints(mem));
  }

  lemma PoolRevalued(mem: Memory, size: nat, used: nat, live: multiset<Item>, x: Item, x': Item)
    requires PoolOk(mem, size, used, live) && x in live && live[x] == 1 && x'.name == x.name
    ensures PoolOk(mem, size, used, live - multiset{x} + multiset{x'})
  {
    hide KeyAt, Bounded, InPool, Total, Apart;
    var rest := live - multiset{x};
    assert rest + multiset{x} == live;
    if x.name.Pooled? {
      PooledKey(mem, size, used, live, x);
    }
    ApartRevalued(mem, rest, x, x');
    TotalRevalued(mem, rest, x, x');
  }

  lemma DupsRevalued(mem: Memory, live: multiset<Item>, x: Item, x': Item)
    requires DupsOk(mem, live) && x in live && live[x] == 1 && x'.name == x.name
    ensures DupsOk(mem, live - multiset{x} + multiset{x'})
  {
    var live' := live - multiset{x} + multiset{x'};
    forall h | h in mem.dups
      ensures Held(live', h)
    {
      assert Held(live, h);
      var y :| y in live && y.name == Dup(h);
      assert (if y == x then x' else y) in live';
    }
  }

  /** Replacing a value changes no name. */
  lemma NamesRevalued(custom: bool, mem: Memory, size: nat, used: nat, live: multiset<Item>, x: Item, v: Value)
    requires NamesOk(custom, mem, size, used, live) && x in live && live[x] == 1
    ensures NamesOk(custom, mem, size, used, live - multiset{x} + multiset{x.(value := v)})
  {
    hide PoolOk, DupsOk;
    if custom {
      DupsRevalued(mem, live, x, x.(value := v));
    } else {
      PoolRevalued(mem, size, used, live, x, x.(value := v));
    }
  }
}
