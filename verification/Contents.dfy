/** The finite map that a multiset of live items stands for. */
module Contents {
  import opened Items
  import opened StringPool

  /** The key handlers. Comparison is given by a canonical form: two keys are equal when
      they have the same one (strcmp: the identity). */
  datatype Handlers = Handlers(hash: Key -> Hashes, canon: Key -> Key) {
    /** Equal keys have equal hashes. */
    ghost predicate Lawful() {
      forall a, b {:trigger Equals(a, b)} :: Equals(a, b) ==> hash(a) == hash(b)
    }

    predicate Equals(a: Key, b: Key) { canon(a) == canon(b) }
  }

  /** The map key under which an item is found. */
  function MapKey(h: Handlers, mem: Memory, x: Item): Key {
    h.canon(KeyAt(mem, x.name))
  }

  ghost predicate Hashed(h: Handlers, mem: Memory, x: Item) {
    x.Live() && x.hashes == h.hash(KeyAt(mem, x.name))
  }

  ghost predicate SameItem(h: Handlers, mem: Memory, x: Item, y: Item) {
    MapKey(h, mem, x) == MapKey(h, mem, y) ==> x == y
  }

  /** No key is stored twice, and cached hashes are those of the keys. */
  ghost predicate Keyed(h: Handlers, mem: Memory, live: multiset<Item>) {
    && (forall x :: x in live ==> live[x] == 1 && Hashed(h, mem, x))
    && (forall x, y {:trigger SameItem(h, mem, x, y)} :: x in live && y in live ==> SameItem(h, mem, x, y))
  }

  ghost predicate Entry(h: Handlers, mem: Memory, contents: map<Key, Value>, x: Item) {
    MapKey(h, mem, x) in contents && contents[MapKey(h, mem, x)] == x.value
  }

  ghost predicate Stored(h: Handlers, mem: Memory, live: multiset<Item>, k: Key) {
    exists x :: x in live && MapKey(h, mem, x) == k
  }

  /** The live items are the entries of `contents`, one for one. */
  ghost predicate Represents(h: Handlers, mem: Memory, live: multiset<Item>, contents: map<Key, Value>) {
    && Keyed(h, mem, live)
    && (forall x :: x in live ==> Entry(h, mem, contents, x))
    && (forall k :: k in contents ==> Stored(h, mem, live, k))
  }

  lemma RepresentsEach(h: Handlers, mem: Memory, live: multiset<Item>, contents: map<Key, Value>, x: Item)
    requires Represents(h, mem, live, contents) && x in live
    ensures live[x] == 1 && Hashed(h, mem, x) && Entry(h, mem, contents, x)
  {
  }

  lemma KeyedAdd(h: Handlers, mem: Memory, live: multiset<Item>, x: Item)
    requires Keyed(h, mem, live) && Hashed(h, mem, x)
    requires forall y :: y in live ==> MapKey(h, mem, y) != MapKey(h, mem, x)
    ensures Keyed(h, mem, live + multiset{x})
  {
    hide KeyAt;
    var live' := live + multiset{x};
    assert x !in live && live'[x] == 1;
    forall a, b {:trigger SameItem(h, mem, a, b)} | a in live' && b in live'
      ensures SameItem(h, mem, a, b)
    {
      if a in live && b in live {
        assert SameItem(h, mem, a, b);
      }
    }
  }

  lemma RepresentsAdd(h: Handlers, mem: Memory, live: multiset<Item>, contents: map<Key, Value>, x: Item)
    requires Represents(h, mem, live, contents)
    requires Hashed(h, mem, x) && MapKey(h, mem, x) !in contents
    ensures x !in live
    ensures Represents(h, mem, live + multiset{x}, contents[MapKey(h, mem, x) := x.value])
  {
    hide KeyAt, MapKey, Keyed, Hashed;
    var live', contents' := live + multiset{x}, contents[MapKey(h, mem, x) := x.value];
    forall y | y in live
      ensures Entry(h, mem, contents', y) && MapKey(h, mem, y) != MapKey(h, mem, x)
    {
      assert Entry(h, mem, contents, y);
    }
    KeyedAdd(h, mem, live, x);
    assert x in live';
    forall k | k in contents
      ensures Stored(h, mem, live', k)
    {
      assert Stored(h, mem, live, k);
      var y :| y in live && MapKey(h, mem, y) == k;
      assert y in live';
    }
  }

  lemma RepresentsRemove(h: Handlers, mem: Memory, live: multiset<Item>, contents: map<Key, Value>, x: Item)
    requires Represents(h, mem, live, contents) && x in live
    ensures Entry(h, mem, contents, x)
    ensures Represents(h, mem, live - multiset{x}, contents - {MapKey(h, mem, x)})
  {
    hide KeyAt, MapKey;
    var live', contents' := live - multiset{x}, contents - {MapKey(h, mem, x)};
    forall y | y in live'
      ensures Entry(h, mem, contents', y)
    {
      assert Entry(h, mem, contents, y) && SameItem(h, mem, x, y);
    }
    forall k | k in contents'
      ensures Stored(h, mem, live', k)
    {
      assert Stored(h, mem, live, k);
      var y :| y in live && MapKey(h, mem, y) == k;
      assert y in live';
    }
  }

  lemma RepresentsReplace(h: Handlers, mem: Memory, live: multiset<Item>, contents: map<Key, Value>,
                          x: Item, v: Value)
    requires Represents(h, mem, live, contents) && x in live
    ensures Represents(h, mem, live - multiset{x} + multiset{x.(value := v)},
                       contents[MapKey(h, mem, x) := v])
  {
    hide KeyAt;
    var k := MapKey(h, mem, x);
    RepresentsRemove(h, mem, live, contents, x);
    RepresentsAdd(h, mem, live - multiset{x}, contents - {k}, x.(value := v));
    assert (contents - {k})[k := v] == contents[k := v];
  }

  /** coucal_nitems counts the entries of the map. */
  lemma {:induction false} RepresentsCount(h: Handlers, mem: Memory, live: multiset<Item>, contents: map<Key, Value>)
    requires Represents(h, mem, live, contents)
    ensures |live| == |contents|
    decreases |live|
  {
    hide KeyAt, MapKey, Keyed;
    if live == multiset{} {
      assert forall k :: k in contents ==> Stored(h, mem, live, k);
      assert contents == map[];
    } else {
      var x :| x in live;
      RepresentsRemove(h, mem, live, contents, x);
      RepresentsCount(h, mem, live - multiset{x}, contents - {MapKey(h, mem, x)});
      assert contents.Keys == (contents - {MapKey(h, mem, x)}).Keys + {MapKey(h, mem, x)};
    }
  }

  // ----- The stored keys -----

  /** names gives the key that x was stored with, as it was written. */
  ghost predicate SpeltBy(h: Handlers, mem: Memory, names: map<Key, Key>, x: Item) {
    MapKey(h, mem, x) in names && names[MapKey(h, mem, x)] == KeyAt(mem, x.name)
  }

  ghost predicate Spelt(h: Handlers, mem: Memory, live: multiset<Item>, names: map<Key, Key>) {
    forall x :: x in live ==> SpeltBy(h, mem, names, x)
  }

  lemma SpeltAdd(h: Handlers, mem: Memory, live: multiset<Item>, names: map<Key, Key>, x: Item)
    requires Spelt(h, mem, live, names) && MapKey(h, mem, x) !in names
    ensures Spelt(h, mem, live + multiset{x}, names[MapKey(h, mem, x) := KeyAt(mem, x.name)])
  {
    hide KeyAt;
    assert forall y :: y in live ==> SpeltBy(h, mem, names, y);
  }

  lemma SpeltRemove(h: Handlers, mem: Memory, live: multiset<Item>, contents: map<Key, Value>, names: map<Key, Key>,
                    x: Item)
    requires Represents(h, mem, live, contents) && Spelt(h, mem, live, names) && x in live
    ensures SpeltBy(h, mem, names, x)
    ensures Spelt(h, mem, live - multiset{x}, names - {MapKey(h, mem, x)})
  {
    hide KeyAt;
    forall y | y in live - multiset{x}
      ensures SpeltBy(h, mem, names - {MapKey(h, mem, x)}, y)
    {
      assert SpeltBy(h, mem, names, y) && SameItem(h, mem, x, y);
    }
  }

  lemma UpdateKeys(m: map<Key, Value>, k: Key, v: Value)
    requires k in m
    ensures m[k := v].Keys == m.Keys
  {
  }

  lemma SpeltRevalued(h: Handlers, mem: Memory, live: multiset<Item>, names: map<Key, Key>, x: Item, v: Value)
    requires Spelt(h, mem, live, names) && x in live
    ensures Spelt(h, mem, live - multiset{x} + multiset{x.(value := v)}, names)
  {
    hide KeyAt;
    assert SpeltBy(h, mem, names, x);
  }

  // ----- Looking up -----

  /** coucal_matches_, for a live item. */
  predicate Match(h: Handlers, mem: Memory, x: Item, key: Key, hashes: Hashes) {
    x.Live() && x.hashes == hashes && h.Equals(KeyAt(mem, x.name), key)
  }

  /** An item that matches is the entry of the key, and the hashes are the key's. */
  lemma MatchIsEntry(h: Handlers, mem: Memory, live: multiset<Item>, contents: map<Key, Value>, x: Item,
                     key: Key, hashes: Hashes)
    requires Represents(h, mem, live, contents) && h.Lawful()
    requires x in live && Match(h, mem, x, key, hashes)
    ensures hashes == h.hash(key) && MapKey(h, mem, x) == h.canon(key)
    ensures h.canon(key) in contents && contents[h.canon(key)] == x.value
  {
    hide KeyAt;
    assert Hashed(h, mem, x) && Entry(h, mem, contents, x);
    assert h.Equals(KeyAt(mem, x.name), key);
  }

  /** When no item matches, the key has no entry, or the hashes are not the key's. */
  lemma NoMatchNoEntry(h: Handlers, mem: Memory, live: multiset<Item>, contents: map<Key, Value>,
                       key: Key, hashes: Hashes)
    requires Represents(h, mem, live, contents) && h.Lawful()
    requires forall x :: x in live ==> !Match(h, mem, x, key, hashes)
    ensures hashes == h.hash(key) ==> h.canon(key) !in contents
  {
    hide KeyAt;
    if h.canon(key) in contents {
      assert Stored(h, mem, live, h.canon(key));
      var x :| x in live && MapKey(h, mem, x) == h.canon(key);
      assert Hashed(h, mem, x);
      assert h.Equals(KeyAt(mem, x.name), key);
    }
  }

  // ----- Values -----

  /** The values that are not the NULL pointer. */
  ghost function Owned(v: Value): multiset<Value> {
    if v == 0 then multiset{} else multiset{v}
  }

  /** All the non-NULL values of a map, with multiplicity. */
  ghost function OwnedIn(m: map<Key, Value>): multiset<Value>
    decreases |m|
  {
    if m == map[] then multiset{}
    else
      var k :| k in m;
      Owned(m[k]) + OwnedIn(m - {k})
  }

  lemma {:induction false} OwnedInRemove(m: map<Key, Value>, k: Key)
    requires k in m
    ensures OwnedIn(m) == Owned(m[k]) + OwnedIn(m - {k})
    decreases |m|
  {
    hide Owned;
    var j :| j in m && OwnedIn(m) == Owned(m[j]) + OwnedIn(m - {j});
    if j != k {
      OwnedInRemove(m - {j}, k);
      OwnedInRemove(m - {k}, j);
      assert m - {j} - {k} == m - {k} - {j};
      var a, b, rest := Owned(m[j]), Owned(m[k]), OwnedIn(m - {j} - {k});
      hide OwnedIn;
      assert a + (b + rest) == b + (a + rest);
    }
  }

  /** The keys whose value is v. */
  ghost function KeysWith(m: map<Key, Value>, v: Value): set<Key> {
    set k | k in m && m[k] == v
  }

  /** As often as it is the value of a key. */
  lemma {:induction false} OwnedInCounts(m: map<Key, Value>, v: Value)
    ensures OwnedIn(m)[v] == if v == 0 then 0 else |KeysWith(m, v)|
    decreases |m|
  {
    if m == map[] {
      assert KeysWith(m, v) == {};
    } else {
      var k :| k in m;
      OwnedInRemove(m, k);
      OwnedInCounts(m - {k}, v);
      KeysWithRemove(m, k, v);
      hide KeysWith, OwnedIn;
    }
  }

  lemma KeysWithRemove(m: map<Key, Value>, k: Key, v: Value)
    requires k in m
    ensures |KeysWith(m, v)| == |KeysWith(m - {k}, v)| + if m[k] == v then 1 else 0
  {
    assert KeysWith(m, v) == KeysWith(m - {k}, v) + (if m[k] == v then {k} else {});
  }

  lemma OwnedInUpdate(m: map<Key, Value>, k: Key, v: Value)
    ensures OwnedIn(m[k := v]) == Owned(v) + OwnedIn(m - {k})
  {
    OwnedInRemove(m[k := v], k);
    assert m[k := v] - {k} == m - {k};
  }

  /** Each non-NULL value written is in the map or was freed: as many times as written. */
  ghost predicate Balanced(written: multiset<Value>, freed: multiset<Value>, m: map<Key, Value>) {
    written == freed + OwnedIn(m)
  }

  lemma EmptyAccounts()
    ensures Balanced(multiset{}, multiset{}, map[])
  {
  }

  /** Replacing a value: the new one comes in, the old one is freed. */
  lemma BalancedReplaced(written: multiset<Value>, freed: multiset<Value>, m: map<Key, Value>, k: Key, v: Value)
    requires Balanced(written, freed, m) && k in m
    ensures Balanced(written + Owned(v), freed + Owned(m[k]), m[k := v])
  {
    hide Owned;
    OwnedInRemove(m, k);
    OwnedInUpdate(m, k, v);
  }

  lemma BalancedAdded(written: multiset<Value>, freed: multiset<Value>, m: map<Key, Value>, k: Key, v: Value)
    requires Balanced(written, freed, m) && k !in m
    ensures Balanced(written + Owned(v), freed, m[k := v])
  {
    hide Owned;
    OwnedInUpdate(m, k, v);
    assert m - {k} == m;
  }

  lemma BalancedRemoved(written: multiset<Value>, freed: multiset<Value>, m: map<Key, Value>, k: Key)
    requires Balanced(written, freed, m) && k in m
    ensures Balanced(written, freed + Owned(m[k]), m - {k})
  {
    hide Owned;
    OwnedInRemove(m, k);
  }

  /** The non-NULL values of the live items of a run of slots. */
  ghost function OwnedSlots(s: seq<Item>, n: nat): multiset<Value>
    requires n <= |s|
  {
    if n == 0 then multiset{}
    else OwnedSlots(s, n - 1) + (if s[n - 1].Live() then Owned(s[n - 1].value) else multiset{})
  }

  lemma LiveOfInit(s: seq<Item>, n: nat)
    requires 0 < n <= |s| && Clean(s)
    ensures LiveOf(s[..n]) == LiveOf(s[..n - 1]) + (if s[n - 1].Live() then multiset{s[n - 1]} else multiset{})
  {
    assert s[..n] == s[..n - 1] + [s[n - 1]];
    LiveOfConcat(s[..n - 1], [s[n - 1]]);
  }

  /** The values found slot by slot are those of the map. */
  lemma {:induction false} OwnedEverywhere(h: Handlers, mem: Memory, s: seq<Item>, n: nat, contents: map<Key, Value>)
    requires Clean(s) && n <= |s| && Represents(h, mem, LiveOf(s[..n]), contents)
    ensures OwnedSlots(s, n) == OwnedIn(contents)
  {
    hide MapKey, Owned, Keyed, Represents, LiveOf, Clean, KeyAt;
    if n == 0 {
      LiveOfNothing(s[..n]);
      RepresentsCount(h, mem, LiveOf(s[..n]), contents);
    } else {
      var x := s[n - 1];
      LiveOfInit(s, n);
      if x.Live() {
        assert LiveOf(s[..n]) - multiset{x} == LiveOf(s[..n - 1]);
        RepresentsRemove(h, mem, LiveOf(s[..n]), contents, x);
        OwnedInRemove(contents, MapKey(h, mem, x));
        OwnedEverywhere(h, mem, s, n - 1, contents - {MapKey(h, mem, x)});
      } else {
        assert LiveOf(s[..n]) == LiveOf(s[..n - 1]);
        OwnedEverywhere(h, mem, s, n - 1, contents);
      }
    }
  }

  lemma OwnedSlotsStep(s: seq<Item>, n: nat)
    requires n < |s|
    ensures OwnedSlots(s, n + 1) == OwnedSlots(s, n) + (if s[n].Live() then Owned(s[n].value) else multiset{})
  {
  }

  lemma DeletingStarts(h: Handlers, custom: bool, mem: Memory, size: nat, used: nat, s: seq<Item>,
                       contents: map<Key, Value>)
    requires Clean(s) && Represents(h, mem, LiveOf(s), contents) && NamesOk(custom, mem, size, used, LiveOf(s))
    ensures OwnedSlots(s, 0) == multiset{} && OwnedSlots(s, |s|) == OwnedIn(contents)
    ensures s[0..] == s && OnceEach(LiveOf(s)) && (custom ==> DupsOk(mem, LiveOf(s)))
  {
    hide KeyAt, LiveOf;
    assert s[..|s|] == s;
    OwnedEverywhere(h, mem, s, |s|, contents);
  }

  lemma {:induction false} DeletingDone(s: seq<Item>, n: nat)
    requires n <= |s| && Clean(s) && forall j :: n <= j < |s| ==> !s[j].Live()
    ensures OwnedSlots(s, |s|) == OwnedSlots(s, n)
    ensures LiveOf(s[n..]) == multiset{}
    decreases |s| - n
  {
    hide LiveOf, Owned;
    if n < |s| {
      DeletingDone(s, n + 1);
      LiveOfTail(s, n);
      assert OwnedSlots(s, n + 1) == OwnedSlots(s, n) + multiset{};
    } else {
      LiveOfNothing(s[n..]);
    }
  }

  lemma NothingHeld(mem: Memory, live: multiset<Item>)
    requires DupsOk(mem, live) && live == multiset{}
    ensures mem.dups == map[]
  {
    assert forall h :: h in mem.dups ==> Held(live, h);
  }

  lemma BalancedIs(written: multiset<Value>, freed: multiset<Value>, m: map<Key, Value>)
    requires Balanced(written, freed, m)
    ensures written == freed + OwnedIn(m)
  {
  }

  // ----- Renaming -----

  /** Slot by slot, the same items up to their names, and the same keys. */
  ghost predicate RenamedSlot(mem: Memory, mem': Memory, x: Item, x': Item) {
    x' == x.(name := x'.name) && (x'.Live() <==> x.Live()) && KeyAt(mem', x'.name) == KeyAt(mem, x.name)
  }

  ghost predicate Renamed(mem: Memory, mem': Memory, locs: seq<Item>, locs': seq<Item>) {
    |locs'| == |locs| && forall i :: 0 <= i < |locs| ==> RenamedSlot(mem, mem', locs[i], locs'[i])
  }

  /** Where a renamed item comes from. */
  lemma RenamedFrom(mem: Memory, mem': Memory, locs: seq<Item>, locs': seq<Item>, x: Item) returns (i: nat)
    requires Renamed(mem, mem', locs, locs') && Clean(locs) && x in LiveOf(locs')
    ensures i < |locs| && locs'[i] == x && RenamedSlot(mem, mem', locs[i], x) && locs[i] in LiveOf(locs)
  {
    i :| 0 <= i < |locs'| && locs'[i] == x;
    assert RenamedSlot(mem, mem', locs[i], locs'[i]);
  }

  lemma RenamedOnce(h: Handlers, mem: Memory, mem': Memory, locs: seq<Item>, locs': seq<Item>, i: nat, j: nat)
    requires Renamed(mem, mem', locs, locs') && Clean(locs) && Keyed(h, mem, LiveOf(locs))
    requires i < |locs| && j < |locs| && locs'[i].Live() && locs'[j].Live()
    requires MapKey(h, mem', locs'[i]) == MapKey(h, mem', locs'[j])
    ensures i == j
  {
    assert RenamedSlot(mem, mem', locs[i], locs'[i]) && RenamedSlot(mem, mem', locs[j], locs'[j]);
    assert locs[i] in LiveOf(locs) && locs[j] in LiveOf(locs);
    assert SameItem(h, mem, locs[i], locs[j]);
    if i != j {
      LiveOfOnce(locs, i, j);
      assert false;
    }
  }

  lemma KeyedRenamed(h: Handlers, mem: Memory, mem': Memory, locs: seq<Item>, locs': seq<Item>)
    requires Renamed(mem, mem', locs, locs') && Clean(locs) && Keyed(h, mem, LiveOf(locs))
    ensures Keyed(h, mem', LiveOf(locs'))
  {
    hide KeyAt;
    var live' := LiveOf(locs');
    forall i, j | 0 <= i < j < |locs'| && locs'[i] != ZERO_ITEM
      ensures locs'[i] != locs'[j]
    {
      assert RenamedSlot(mem, mem', locs[i], locs'[i]);
      if locs'[i] == locs'[j] {
        RenamedOnce(h, mem, mem', locs, locs', i, j);
      }
    }
    LiveOfDistinct(locs');
    forall x | x in live'
      ensures live'[x] == 1 && Hashed(h, mem', x)
    {
      var i := RenamedFrom(mem, mem', locs, locs', x);
      assert Hashed(h, mem, locs[i]);
    }
    forall x, y {:trigger SameItem(h, mem', x, y)} | x in live' && y in live'
      ensures SameItem(h, mem', x, y)
    {
      var i := RenamedFrom(mem, mem', locs, locs', x);
      var j := RenamedFrom(mem, mem', locs, locs', y);
      if MapKey(h, mem', x) == MapKey(h, mem', y) {
        RenamedOnce(h, mem, mem', locs, locs', i, j);
      }
    }
  }

  lemma SpeltRenamed(h: Handlers, mem: Memory, mem': Memory, locs: seq<Item>, locs': seq<Item>, names: map<Key, Key>)
    requires Renamed(mem, mem', locs, locs') && Clean(locs) && Spelt(h, mem, LiveOf(locs), names)
    ensures Spelt(h, mem', LiveOf(locs'), names)
  {
    hide KeyAt, LiveOf, Renamed, Clean;
    forall x | x in LiveOf(locs')
      ensures SpeltBy(h, mem', names, x)
    {
      var i := RenamedFrom(mem, mem', locs, locs', x);
      assert SpeltBy(h, mem, names, locs[i]);
    }
  }

  lemma StoredRenamed(h: Handlers, mem: Memory, mem': Memory, locs: seq<Item>, locs': seq<Item>, k: Key)
    requires Renamed(mem, mem', locs, locs') && Stored(h, mem, LiveOf(locs), k)
    ensures Stored(h, mem', LiveOf(locs'), k)
  {
    hide KeyAt;
    var x :| x in LiveOf(locs) && MapKey(h, mem, x) == k;
    var i :| 0 <= i < |locs| && locs[i] == x;
    assert RenamedSlot(mem, mem', locs[i], locs'[i]);
    assert locs'[i] in LiveOf(locs');
  }

  /** Moving keys around, and renaming the items accordingly, keeps the map. */
  lemma RepresentsRenamed(h: Handlers, mem: Memory, mem': Memory, locs: seq<Item>, locs': seq<Item>,
                          contents: map<Key, Value>)
    requires Renamed(mem, mem', locs, locs') && Clean(locs)
    requires Represents(h, mem, LiveOf(locs), contents)
    ensures Represents(h, mem', LiveOf(locs'), contents)
  {
    hide KeyAt, Keyed, LiveOf, Renamed, Clean, Stored;
    KeyedRenamed(h, mem, mem', locs, locs');
    forall x | x in LiveOf(locs')
      ensures Entry(h, mem', contents, x)
    {
      var i := RenamedFrom(mem, mem', locs, locs', x);
      assert Entry(h, mem, contents, locs[i]);
    }
    forall k | k in contents
      ensures Stored(h, mem', LiveOf(locs'), k)
    {
      StoredRenamed(h, mem, mem', locs, locs', k);
    }
  }
}
