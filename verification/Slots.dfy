/** The slots of a hashtable as a whole: the table followed by the stash. */
module Slots {
  import opened Items
  import opened StringPool
  import opened Contents
  import opened Cuckoo
  import opened Trails
  import opened Placement

  const STASH_SIZE := 16
  const MIN_LG_SIZE := 4

  /** The stash invariant: `size` live entries, holes excluded, all below `extent`, which is
      zero or ends on a live entry. */
  ghost predicate StashOk(s: seq<Item>, size: nat, extent: nat) {
    && |s| == STASH_SIZE && Clean(s)
    && size == |LiveOf(s)| && extent <= STASH_SIZE
    && (forall i :: extent <= i < STASH_SIZE ==> s[i] == ZERO_ITEM)
    && (extent > 0 ==> s[extent - 1].Live())
  }

  /** The live entries are at most as many as the slots below the extent; as many when
      there is no hole. */
  lemma StashSizeBound(s: seq<Item>, extent: nat)
    requires extent <= |s| && Clean(s) && forall i :: extent <= i < |s| ==> s[i] == ZERO_ITEM
    ensures |LiveOf(s)| <= extent
    ensures (forall i :: 0 <= i < extent ==> s[i].Live()) ==> |LiveOf(s)| == extent
  {
    assert s == s[..extent] + s[extent..];
    LiveOfConcat(s[..extent], s[extent..]);
    assert LiveOf(s[extent..]) == multiset{};
    assert |multiset(s[..extent])| == extent;
  }

  /** A stash without live entries has no extent either. */
  lemma EmptyStash(s: seq<Item>, extent: nat)
    requires StashOk(s, 0, extent)
    ensures extent == 0
  {
    assert LiveOf(s) == multiset{};
    assert extent > 0 ==> LiveOf(s)[s[extent - 1]] > 0;
  }

  /** The slot where a new entry goes: the first hole, or else the slot above all entries. */
  ghost function FirstHole(s: seq<Item>, extent: nat): (r: nat)
    requires extent <= |s|
    ensures r <= extent && (forall j :: 0 <= j < r ==> s[j].Live()) && (r < extent ==> !s[r].Live())
  {
    if exists i :: 0 <= i < extent && !s[i].Live() then LowestHole(s, extent) else extent
  }

  ghost function LowestHole(s: seq<Item>, n: nat): (r: nat)
    requires n <= |s| && exists i :: 0 <= i < n && !s[i].Live()
    ensures r < n && !s[r].Live() && forall j :: 0 <= j < r ==> s[j].Live()
  {
    if exists i :: 0 <= i < n - 1 && !s[i].Live() then LowestHole(s, n - 1) else n - 1
  }

  lemma StashPutLive(s: seq<Item>, i: nat, item: Item)
    requires i < |s| && Clean(s) && !s[i].Live() && item.Live()
    ensures LiveOf(s[i := item]) == LiveOf(s) + multiset{item} && Clean(s[i := item])
    ensures |LiveOf(s[i := item])| == |LiveOf(s)| + 1
  {
    LiveOfUpdate(s, i, item);
    assert LiveOf([s[i]]) == multiset{} && LiveOf([item]) == multiset{item};
    hide LiveOf;
    assert LiveOf(s) - multiset{} + multiset{item} == LiveOf(s) + multiset{item};
  }

  lemma StashPutAt(s: seq<Item>, size: nat, extent: nat, i: nat, item: Item)
    requires StashOk(s, size, extent) && i < STASH_SIZE && i <= extent && !s[i].Live() && item.Live()
    ensures StashOk(s[i := item], size + 1, if i == extent then extent + 1 else extent)
    ensures LiveOf(s[i := item]) == LiveOf(s) + multiset{item}
  {
    hide LiveOf, Clean;
    StashPutLive(s, i, item);
  }

  /** There is room for a new entry as long as fewer than STASH_SIZE are live. */
  lemma StashPut(s: seq<Item>, size: nat, extent: nat, item: Item)
    requires StashOk(s, size, extent) && size < STASH_SIZE && item.Live()
    ensures var i := FirstHole(s, extent);
      && i < STASH_SIZE
      && StashOk(s[i := item], size + 1, if i == extent then extent + 1 else extent)
      && LiveOf(s[i := item]) == LiveOf(s) + multiset{item}
  {
    hide FirstHole, LowestHole, LiveOf;
    StashSizeBound(s, extent);
    StashPutAt(s, size, extent, FirstHole(s, extent), item);
  }

  /** Every stashed item has both its slots occupied. */
  ghost predicate StashBlocked(lg: nat, items: seq<Item>, stash: seq<Item>) {
    forall i :: 0 <= i < |stash| && stash[i].Live() ==> Blocked(lg, items, stash[i])
  }

  /** Filling more slots of the table, and stashing one more blocked item. */
  lemma StashStaysBlocked(lg: nat, items: seq<Item>, stash: seq<Item>, items': seq<Item>, stash': seq<Item>,
                          x: Item)
    requires StashBlocked(lg, items, stash) && |items'| == |items| && |stash'| == |stash|
    requires forall i :: 0 <= i < |items| && items[i].Live() ==> items'[i].Live()
    requires forall i :: 0 <= i < |stash| ==> stash'[i] == stash[i] || (stash'[i] == x && Blocked(lg, items', x))
    ensures StashBlocked(lg, items', stash')
  {
  }

  /** The table and the stash, without the accounting. */
  ghost predicate SlotsOk(lg: nat, items: seq<Item>, stash: seq<Item>, size: nat, extent: nat) {
    AllHome(lg, items) && Clean(items) && StashOk(stash, size, extent)
  }

  /** What coucal_add_item_ leaves in the stash: nothing new, or what it has in hand. */
  ghost predicate StashedBy(r: WalkResult, stash: seq<Item>, stash': seq<Item>) {
    |stash'| == |stash| &&
    if r.Placed? then stash' == stash
    else
      && LiveOf(stash') == LiveOf(stash) + multiset{r.hand}
      && forall i :: 0 <= i < |stash| ==> stash'[i] == stash[i] || stash'[i] == r.hand
  }

  /** Adding an item adds that item and no other. */
  lemma AddLive(lg: nat, items: seq<Item>, stash: seq<Item>, item: Item, r: WalkResult, stash': seq<Item>)
    requires Conserves(lg, items, item, r) && StashedBy(r, stash, stash')
    ensures LiveOf(r.items + stash') == LiveOf(items + stash) + multiset{item}
  {
    LiveOfConcat(items, stash);
    LiveOfConcat(r.items, stash');
    var a, b, c := LiveOf(items), LiveOf(r.items), LiveOf(stash);
    assert LiveOf(stash') == c + InHand(r);
    assert b + (c + InHand(r)) == (b + InHand(r)) + c == a + c + multiset{item};
  }

  /** It leaves no stashed item with a free slot if there was none. */
  lemma AddBlocked(lg: nat, items: seq<Item>, stash: seq<Item>, item: Item, stash': seq<Item>)
    requires AllHome(lg, items) && Clean(items) && item.Live() && 2 * |LiveOf(items)| < Pow2(lg)
    requires StashedBy(Add(lg, items, item), stash, stash') && StashBlocked(lg, items, stash)
    ensures StashBlocked(lg, Add(lg, items, item).items, stash')
  {
    var r := Add(lg, items, item);
    AddConserves(lg, items, item);
    AddJustified(lg, items, item);
    StashStaysBlocked(lg, items, stash, r.items, stash', if r.Placed? then item else r.hand);
  }

  /** A stash collision: all entries of the stash are live, and they and the item in hand have
      both their slots occupied. */
  ghost predicate Collided(lg: nat, items: seq<Item>, stash: seq<Item>, hand: Item) {
    && |stash| == STASH_SIZE
    && (forall i :: 0 <= i < STASH_SIZE ==> stash[i].Live() && Blocked(lg, items, stash[i]))
    && hand.Live() && Blocked(lg, items, hand)
  }

  lemma HoleCounts(s: seq<Item>, i: nat)
    requires i < |s| && Clean(s)
    ensures !s[i].Live() ==> |LiveOf(s)| < |s|
  {
    if !s[i].Live() {
      assert LiveOf(s) + multiset{s[i]} <= multiset(s);
      SubBagSize(LiveOf(s) + multiset{s[i]}, multiset(s));
    }
  }

  lemma FullStash(s: seq<Item>, extent: nat)
    requires StashOk(s, STASH_SIZE, extent)
    ensures forall i :: 0 <= i < STASH_SIZE ==> s[i].Live()
  {
    forall i | 0 <= i < STASH_SIZE
      ensures s[i].Live()
    {
      HoleCounts(s, i);
    }
  }

  /** When an item can go neither in the table nor in the stash, table, stash and hand hold
      it and all the others. */
  lemma AddCollides(lg: nat, items: seq<Item>, stash: seq<Item>, extent: nat, item: Item)
    requires AllHome(lg, items) && Clean(items) && item.Live() && 2 * |LiveOf(items)| < Pow2(lg)
    requires !Add(lg, items, item).Placed? && StashOk(stash, STASH_SIZE, extent)
    ensures var r := Add(lg, items, item);
      && LiveOf(r.items + stash) + multiset{r.hand} == LiveOf(items + stash) + multiset{item}
      && (StashBlocked(lg, items, stash) ==> Collided(lg, r.items, stash, r.hand))
  {
    hide LiveOf, And;
    var r := Add(lg, items, item);
    AddConserves(lg, items, item);
    AddJustified(lg, items, item);
    FullStash(stash, extent);
    if StashBlocked(lg, items, stash) {
      StashStaysBlocked(lg, items, stash, r.items, stash, r.hand);
    }
    LiveOfConcat(items, stash);
    LiveOfConcat(r.items, stash);
    assert LiveOf(r.items) + LiveOf(stash) + multiset{r.hand} == LiveOf(items) + multiset{item} + LiveOf(stash);
  }

  lemma LiveSlot(s: seq<Item>, i: nat)
    requires i < |s| && s[i].Live()
    ensures |LiveOf(s)| > 0
  {
    assert s[i] in LiveOf(s);
  }

  /** When half of the stash is in use, there is also an item in the table. */
  lemma BlockedLive(lg: nat, items: seq<Item>, stash: seq<Item>, size: nat, extent: nat)
    requires StashOk(stash, size, extent) && StashBlocked(lg, items, stash) && size >= STASH_SIZE / 2
    ensures |LiveOf(items + stash)| > STASH_SIZE / 2
  {
    hide And;
    LiveOfConcat(items, stash);
    var x :| x in LiveOf(stash);
    var i :| 0 <= i < |stash| && stash[i] == x;
    LiveSlot(items, Pos1(lg, stash[i]));
    assert |LiveOf(items) + LiveOf(stash)| == |LiveOf(items)| + |LiveOf(stash)|;
  }

  /** All 16 entries of a stash and an item of the table. */
  lemma CollidedLive(lg: nat, items: seq<Item>, stash: seq<Item>, hand: Item)
    requires Collided(lg, items, stash, hand)
    ensures |LiveOf(items + stash)| > STASH_SIZE
  {
    hide And;
    LiveOfConcat(items, stash);
    assert LiveOf(stash) == multiset(stash);
    LiveSlot(items, Pos1(lg, hand));
    assert |LiveOf(items) + LiveOf(stash)| == |LiveOf(items)| + |LiveOf(stash)|;
  }

  /** Table and stash. */
  datatype Both = Both(items: seq<Item>, stash: seq<Item>)

  /** What coucal_add_item_ makes of them: an item that the walk leaves in hand goes to the
      first free slot of the stash, if there is one. */
  ghost function Inserted(lg: nat, b: Both, item: Item): (r: Both)
    requires |b.items| == Pow2(lg)
    ensures |r.stash| == |b.stash| && |r.items| == |b.items|
  {
    var r := Add(lg, b.items, item);
    var hole := FirstHole(b.stash, |b.stash|);
    WalkLength(lg, b.items, item, item.hashes.hash1, item.hashes.hash1, Pow2(lg));
    if r.Placed? || hole == |b.stash| then Both(r.items, b.stash) else Both(r.items, b.stash[hole := r.hand])
  }

  lemma {:induction false} WalkLength(lg: nat, items: seq<Item>, hand: Item, hash: HashKey, initial: int, loops: nat)
    requires |items| == Pow2(lg)
    ensures |Walk(lg, items, hand, hash, initial, loops).items| == |items|
    decreases loops
  {
    if loops > 0 {
      var pos := Pos(lg, hash);
      WalkLength(lg, items[pos := hand], items[pos], Onward(lg, pos, items[pos]), initial, loops - 1);
    }
  }

  /** The first hole of a stash is the first free slot of all. */
  lemma FirstHoleIs(s: seq<Item>, size: nat, extent: nat)
    requires StashOk(s, size, extent)
    ensures FirstHole(s, |s|) == FirstHole(s, extent)
  {
    var a, b := FirstHole(s, |s|), FirstHole(s, extent);
    assert b < |s| ==> !s[b].Live();
  }

  lemma FullHole(s: seq<Item>, size: nat, extent: nat)
    requires StashOk(s, size, extent)
    ensures size >= STASH_SIZE ==> FirstHole(s, |s|) == |s|
    ensures size < STASH_SIZE ==> FirstHole(s, |s|) < |s|
  {
    hide LiveOf;
    StashSizeBound(s, extent);
    FirstHoleIs(s, size, extent);
    if size >= STASH_SIZE {
      FullStash(s, extent);
    }
  }

  lemma ConservesKeeps(lg: nat, items: seq<Item>, item: Item, r: WalkResult)
    requires Conserves(lg, items, item, r)
    ensures AllHome(lg, r.items) && Clean(r.items) && (!r.Placed? ==> r.hand.Live())
  {
  }

  /** The walk finds a slot for an item with these hashes. */
  ghost predicate FindsSlot(lg: nat, items: seq<Item>, hashes: Hashes)
    requires |items| == Pow2(lg)
  {
    Roomy(lg, items, Item(Shared, hashes, 0)) && !CutShort(lg, items, Item(Shared, hashes, 0))
  }

  /** Only the hashes of the item matter. */
  lemma PlacedIff(lg: nat, items: seq<Item>, item: Item)
    requires AllHome(lg, items) && Clean(items) && item.Live() && 2 * |LiveOf(items)| < Pow2(lg)
    ensures Add(lg, items, item).Placed? <==> FindsSlot(lg, items, item.hashes)
  {
    hide And, Pow2, LiveOf, Course, Walk, AllHome, Clean;
    assert |items| == Pow2(lg) by { TableSize(lg, items); }
    AddJustified(lg, items, item);
  }

  lemma TableSize(lg: nat, items: seq<Item>)
    requires AllHome(lg, items)
    ensures |items| == Pow2(lg)
  {
  }

  // ----- Draining, doubling -----

  /** A stash whose extent may still end on holes. */
  ghost predicate StashLoose(s: seq<Item>, size: nat, extent: nat) {
    && |s| == STASH_SIZE && Clean(s) && size == |LiveOf(s)| && extent <= STASH_SIZE
    && forall i :: extent <= i < STASH_SIZE ==> s[i] == ZERO_ITEM
  }

  /** Moving a stashed item to a free slot of the table. */
  lemma DrainStep(lg: nat, items: seq<Item>, stash: seq<Item>, size: nat, extent: nat, i: nat, pos: nat)
    requires AllHome(lg, items) && Clean(items) && StashLoose(stash, size, extent)
    requires i < |stash| && stash[i].Live()
    requires pos < |items| && !items[pos].Live() && IsHome(lg, pos, stash[i])
    ensures size > 0
    ensures var items', stash' := items[pos := stash[i]], stash[i := ZERO_ITEM];
      && AllHome(lg, items') && Clean(items') && StashLoose(stash', size - 1, extent)
      && LiveOf(items') + LiveOf(stash') == LiveOf(items) + LiveOf(stash)
  {
    PlaceConserves(lg, items, pos, stash[i]);
    LiveOfUpdate(stash, i, ZERO_ITEM);
    var a, b, x := LiveOf(items), LiveOf(stash), multiset{stash[i]};
    assert LiveOf([stash[i]]) == x && LiveOf([ZERO_ITEM]) == multiset{} ;
    assert LiveOf(stash[i := ZERO_ITEM]) == b - x;
    assert (a + x) + (b - x) == a + b;
  }

  /** One step of the draining of the stash. */
  ghost function DrainedAt(lg: nat, b: Both, i: nat): (r: Both)
    requires |b.items| == Pow2(lg) && i < |b.stash|
    ensures |r.items| == |b.items| && |r.stash| == |b.stash|
  {
    var item := b.stash[i];
    if !item.Live() then b
    else if !b.items[Pos1(lg, item)].Live() then Both(b.items[Pos1(lg, item) := item], b.stash[i := ZERO_ITEM])
    else if !b.items[Pos2(lg, item)].Live() then Both(b.items[Pos2(lg, item) := item], b.stash[i := ZERO_ITEM])
    else b
  }

  /** The first n steps. */
  ghost function Drained(lg: nat, b: Both, n: nat): (r: Both)
    requires |b.items| == Pow2(lg) && n <= |b.stash|
    ensures |r.items| == |b.items| && |r.stash| == |b.stash|
  {
    if n == 0 then b else DrainedAt(lg, Drained(lg, b, n - 1), n - 1)
  }

  lemma {:induction false} DrainedFree(lg: nat, b: Both, n: nat)
    requires |b.items| == Pow2(lg) && n <= |b.stash| && forall i :: n <= i < |b.stash| ==> !b.stash[i].Live()
    ensures Drained(lg, b, |b.stash|) == Drained(lg, b, n)
    ensures forall i :: n <= i < |b.stash| ==> Drained(lg, b, n).stash[i] == b.stash[i]
    decreases |b.stash| - n
  {
    hide And, Pow2;
    DrainedAbove(lg, b, n);
    if n < |b.stash| {
      DrainedFree(lg, b, n + 1);
    }
  }

  lemma {:induction false} DrainedAbove(lg: nat, b: Both, n: nat)
    requires |b.items| == Pow2(lg) && n <= |b.stash|
    ensures forall i :: n <= i < |b.stash| ==> Drained(lg, b, n).stash[i] == b.stash[i]
  {
    hide And, Pow2;
    if n > 0 {
      DrainedAbove(lg, b, n - 1);
    }
  }

  lemma DrainedNothing(lg: nat, b: Both)
    requires |b.items| == Pow2(lg)
    ensures Drained(lg, b, 0) == b
  {
  }

  /** After the draining of the whole stash. */
  ghost function AllDrained(lg: nat, b: Both): (r: Both)
    requires |b.items| == Pow2(lg)
    ensures |r.items| == |b.items| && |r.stash| == |b.stash|
  {
    Drained(lg, b, |b.stash|)
  }

  /** How many entries the stash has after an item with these hashes is added: one more than
      when it is drained, unless the walk finds a slot. */
  ghost function StashAfter(lg: nat, b: Both, hashes: Hashes): nat
    requires |b.items| == Pow2(lg)
  {
    var d := AllDrained(lg, b);
    |LiveOf(d.stash)| + if FindsSlot(lg, d.items, hashes) then 0 else 1
  }

  /** Table and stash after an item with these hashes is added to a table with that many
      entries then, before any doubling. */
  ghost function Filled(lg: nat, b: Both, hashes: Hashes): (r: Both)
    requires |b.items| == Pow2(lg)
    ensures |r.items| == |b.items| && |r.stash| == |b.stash|
  {
    Inserted(lg, AllDrained(lg, b), Item(Shared, hashes, 0))
  }

  // ----- Only liveness and hashes matter -----

  ghost predicate Alike(x: Item, y: Item) {
    (x.Live() <==> y.Live()) && (x.Live() ==> x.hashes == y.hashes)
  }

  ghost predicate AllAlike(s: seq<Item>, t: seq<Item>) {
    |s| == |t| && forall i :: 0 <= i < |s| ==> Alike(s[i], t[i])
  }

  lemma {:induction false} WalkAlike(lg: nat, items: seq<Item>, items': seq<Item>, hand: Item, hand': Item,
                                     hash: HashKey, initial: int, loops: nat)
    requires |items| == Pow2(lg) && AllAlike(items, items') && Alike(hand, hand') && hand.Live()
    ensures var r, r' := Walk(lg, items, hand, hash, initial, loops), Walk(lg, items', hand', hash, initial, loops);
      && AllAlike(r.items, r'.items) && (r.Placed? <==> r'.Placed?)
      && (!r.Placed? ==> Alike(r.hand, r'.hand) && r.hand.Live())
    decreases loops
  {
    hide And, Pow2;
    if loops > 0 {
      var pos := Pos(lg, hash);
      var x, x' := items[pos], items'[pos];
      assert Alike(x, x');
      if x.Live() && Onward(lg, pos, x) != initial {
        WalkAlike(lg, items[pos := hand], items'[pos := hand'], x, x', Onward(lg, pos, x), initial, loops - 1);
      }
    }
  }

  /** Where an item goes, and what is left in hand, depends only on the hashes and on which
      slots are free. */
  lemma AddAlike(lg: nat, items: seq<Item>, items': seq<Item>, item: Item, item': Item)
    requires |items| == Pow2(lg) && AllAlike(items, items') && Alike(item, item') && item.Live()
    ensures var r, r' := Add(lg, items, item), Add(lg, items', item');
      && AllAlike(r.items, r'.items) && (r.Placed? <==> r'.Placed?)
      && (!r.Placed? ==> Alike(r.hand, r'.hand) && r.hand.Live())
  {
    hide And, Pow2, Walk;
    var p, q := Pos1(lg, item), Pos2(lg, item);
    assert Alike(items[p], items'[p]) && Alike(items[q], items'[q]);
    WalkAlike(lg, items, items', item, item', item.hashes.hash1, item.hashes.hash1, Pow2(lg));
  }

  lemma FindsAlike(lg: nat, items: seq<Item>, items': seq<Item>, hashes: Hashes)
    requires AllHome(lg, items) && Clean(items) && 2 * |LiveOf(items)| < Pow2(lg)
    requires AllHome(lg, items') && Clean(items') && 2 * |LiveOf(items')| < Pow2(lg)
    requires AllAlike(items, items')
    ensures |items| == |items'| == Pow2(lg)
    ensures FindsSlot(lg, items, hashes) <==> FindsSlot(lg, items', hashes)
  {
    hide And, Pow2, LiveOf, Course, Walk, AllHome, Clean, FindsSlot, Add, AllAlike;
    var item := Item(Shared, hashes, 0);
    TableSize(lg, items);
    TableSize(lg, items');
    PlacedIff(lg, items, item);
    PlacedIff(lg, items', item);
    AddAlike(lg, items, items', item, item);
  }

  ghost predicate BothAlike(a: Both, b: Both) {
    AllAlike(a.items, b.items) && AllAlike(a.stash, b.stash)
  }

  lemma HoleAlike(s: seq<Item>, t: seq<Item>)
    requires AllAlike(s, t)
    ensures FirstHole(s, |s|) == FirstHole(t, |t|)
  {
    var a, b := FirstHole(s, |s|), FirstHole(t, |t|);
    assert a < |s| ==> Alike(s[a], t[a]);
    assert b < |s| ==> Alike(s[b], t[b]);
  }

  lemma InsertedAlike(lg: nat, a: Both, b: Both, item: Item, item': Item)
    requires |a.items| == Pow2(lg) && BothAlike(a, b) && Alike(item, item') && item.Live()
    ensures BothAlike(Inserted(lg, a, item), Inserted(lg, b, item'))
  {
    hide And, Pow2, Add;
    AddAlike(lg, a.items, b.items, item, item');
    HoleAlike(a.stash, b.stash);
  }

  lemma {:induction false} MergedAlike(lg: nat, a: Both, b: Both, s: seq<Item>, t: seq<Item>, n: nat)
    requires |a.items| == Pow2(lg) && BothAlike(a, b) && AllAlike(s, t) && n <= |s|
    ensures BothAlike(Merged(lg, a, s, n), Merged(lg, b, t, n))
  {
    hide And, Pow2, Inserted;
    if n > 0 {
      MergedAlike(lg, a, b, s, t, n - 1);
      assert Alike(s[n - 1], t[n - 1]);
      if s[n - 1].Live() {
        InsertedAlike(lg, Merged(lg, a, s, n - 1), Merged(lg, b, t, n - 1), s[n - 1], t[n - 1]);
      }
    }
  }

  lemma RegrownAlike(lg: nat, a: Both, b: Both)
    requires |a.items| == Pow2(lg) && BothAlike(a, b)
    ensures BothAlike(Regrown(lg, a), Regrown(lg, b))
  {
    hide And, Pow2, Merged;
    var d, e := DoubledItems(lg, a.items), DoubledItems(lg, b.items);
    forall k | 0 <= k < |d|
      ensures Alike(d[k], e[k])
    {
      var j := if k < |a.items| then k else k - |a.items|;
      var x, y := a.items[j], b.items[j];
      assert Alike(x, y) && (x.Live() ==> SplitTo(lg, x, j) == SplitTo(lg, y, j));
    }
    assert Pow2(lg + 1) == 2 * Pow2(lg) by { Pow2Next(lg); }
    var none := EmptyStashOf(|a.stash|);
    MergedAlike(lg + 1, Both(d, none), Both(e, none), a.stash, b.stash, |a.stash|);
  }

  lemma Pow2Next(n: nat)
    ensures Pow2(n + 1) == 2 * Pow2(n)
  {
  }

  lemma RenamedAlike(mem: Memory, mem': Memory, items: seq<Item>, items': seq<Item>)
    requires Renamed(mem, mem', items, items')
    ensures AllAlike(items, items')
  {
    assert forall i :: 0 <= i < |items| ==> RenamedSlot(mem, mem', items[i], items'[i]);
  }

  lemma ZerosAppended(s: seq<Item>, t: seq<Item>)
    requires |s| <= |t| && t[..|s|] == s && forall k :: |s| <= k < |t| ==> t[k] == ZERO_ITEM
    ensures LiveOf(t) == LiveOf(s)
  {
    assert t == s + t[|s|..];
    LiveOfConcat(s, t[|s|..]);
    assert LiveOf(t[|s|..]) == multiset{};
    assert LiveOf(s) + multiset{} == LiveOf(s);
  }

  /** The slot of the doubled table where the item x of slot j goes. */
  function SplitTo(lg: nat, x: Item, j: nat): nat {
    Pos(lg + 1, HashAt(lg, j, x))
  }

  /** Doubling a table of 2^lg slots leaves the item of slot j there, or moves it up by the
      old size; either way it is at one of its positions under the new mask. */
  ghost predicate SplitSlot(lg: nat, before: seq<Item>, after: seq<Item>, j: int) {
    && 0 <= j < |before| && |after| == 2 * |before|
    && var x, up := before[j], j + |before|;
       if !x.Live() || SplitTo(lg, x, j) == j then
         after[j] == x && after[up] == ZERO_ITEM && (x.Live() ==> IsHome(lg + 1, j, x))
       else
         after[j] == ZERO_ITEM && after[up] == x && SplitTo(lg, x, j) == up && IsHome(lg + 1, up, x)
  }

  /** The split has dealt with the slots below i, and not touched those from i on. */
  ghost predicate SplitBelow(lg: nat, before: seq<Item>, after: seq<Item>, i: nat) {
    && |before| == Pow2(lg) && |after| == 2 * |before| && i <= |before| && Clean(before)
    && (forall j {:trigger SplitSlot(lg, before, after, j)} :: 0 <= j < i ==> SplitSlot(lg, before, after, j))
    && (forall j :: i <= j < |before| ==> after[j] == before[j])
    && (forall j :: |before| + i <= j < |after| ==> after[j] == ZERO_ITEM)
  }

  /** Once all slots are dealt with, every item is at a valid position. */
  lemma SplitHome(lg: nat, before: seq<Item>, after: seq<Item>)
    requires SplitBelow(lg, before, after, |before|)
    ensures AllHome(lg + 1, after) && Clean(after)
  {
    forall j | 0 <= j < |after|
      ensures after[j].Live() ==> IsHome(lg + 1, j, after[j])
      ensures !after[j].Live() ==> after[j] == ZERO_ITEM
    {
      assert SplitSlot(lg, before, after, if j < |before| then j else j - |before|);
    }
  }

  /** The doubled table. */
  ghost function DoubledItems(lg: nat, items: seq<Item>): (r: seq<Item>)
    ensures |r| == 2 * |items|
  {
    seq(2 * |items|, k requires 0 <= k < 2 * |items| =>
      var j := if k < |items| then k else k - |items|;
      if items[j].Live() && SplitTo(lg, items[j], j) == k then items[j] else ZERO_ITEM)
  }

  /** The item of slot j, if j was its first position, is at its first position in the doubled
      table, and else at its second one. */
  ghost predicate FoundAt(lg: nat, before: seq<Item>, after: seq<Item>, j: nat)
    requires j < |before|
  {
    var x := before[j];
    var to := if Pos1(lg, x) == j then Pos1(lg + 1, x) else Pos2(lg + 1, x);
    to < |after| && after[to] == x
  }

  lemma SplitFound(lg: nat, before: seq<Item>, after: seq<Item>)
    requires SplitBelow(lg, before, after, |before|)
    ensures forall j :: 0 <= j < |before| && before[j].Live() ==> FoundAt(lg, before, after, j)
  {
    hide And, Pow2;
    forall j | 0 <= j < |before| && before[j].Live()
      ensures FoundAt(lg, before, after, j)
    {
      assert SplitSlot(lg, before, after, j);
    }
  }

  lemma SplitDone(lg: nat, before: seq<Item>, after: seq<Item>)
    requires SplitBelow(lg, before, after, |before|)
    ensures after == DoubledItems(lg, before)
  {
    hide And, Pow2;
    forall k | 0 <= k < |after|
      ensures after[k] == DoubledItems(lg, before)[k]
    {
      assert SplitSlot(lg, before, after, if k < |before| then k else k - |before|);
    }
  }

  lemma SplitStarts(lg: nat, before: seq<Item>, after: seq<Item>)
    requires |before| == Pow2(lg) && |after| == 2 * |before| && Clean(before)
    requires forall k :: 0 <= k < |before| ==> after[k] == before[k]
    requires forall k :: |before| <= k < |after| ==> after[k] == ZERO_ITEM
    ensures SplitBelow(lg, before, after, 0)
  {
  }

  lemma SplitEnds(lg: nat, before: seq<Item>, after: seq<Item>)
    requires SplitBelow(lg, before, after, |before|)
    ensures AllHome(lg + 1, after) && Clean(after) && after == DoubledItems(lg, before)
    ensures forall j :: 0 <= j < |before| ==> SplitSlot(lg, before, after, j)
    ensures forall j :: 0 <= j < |before| && before[j].Live() ==> FoundAt(lg, before, after, j)
  {
    SplitHome(lg, before, after);
    SplitFound(lg, before, after);
    SplitDone(lg, before, after);
    hide SplitSlot, FoundAt, DoubledItems, AllHome, Clean;
  }

  /** One step of the split: the item at i, at position `hash` under the old mask, goes to
      its position under the new one, whose slot is free. */
  lemma SplitStep(lg: nat, before: seq<Item>, after: seq<Item>, i: nat, hash: HashKey)
    requires SplitBelow(lg, before, after, i) && i < |before| && after[i].Live()
    requires hash == HashAt(lg, i, after[i]) && Pos(lg, hash) == i
    ensures var pos := Pos(lg + 1, hash);
      && (pos == i || (pos == i + |before| && after[pos] == ZERO_ITEM))
      && (pos == i ==> SplitBelow(lg, before, after, i + 1))
      && (pos != i ==> SplitBelow(lg, before, after[pos := after[i]][i := ZERO_ITEM], i + 1))
  {
    PosDoubled(lg, hash);
    var pos := Pos(lg + 1, hash);
    var after' := if pos == i then after else after[pos := after[i]][i := ZERO_ITEM];
    forall j {:trigger SplitSlot(lg, before, after', j)} | 0 <= j < i + 1
      ensures SplitSlot(lg, before, after', j)
    {
      assert j < i ==> SplitSlot(lg, before, after, j);
    }
  }

  /** A free slot stays where it is. */
  lemma SplitFree(lg: nat, before: seq<Item>, after: seq<Item>, i: nat)
    requires SplitBelow(lg, before, after, i) && i < |before| && !after[i].Live()
    ensures SplitBelow(lg, before, after, i + 1)
  {
    assert SplitSlot(lg, before, after, i);
    forall j {:trigger SplitSlot(lg, before, after, j)} | 0 <= j < i + 1
      ensures SplitSlot(lg, before, after, j)
    {
    }
  }

  lemma SwapLive(s: seq<Item>, i: nat, j: nat)
    requires i < |s| && j < |s| && i != j && s[j] == ZERO_ITEM
    ensures LiveOf(s[j := s[i]][i := ZERO_ITEM]) == LiveOf(s)
  {
    LiveOfUpdate(s, j, s[i]);
    LiveOfUpdate(s[j := s[i]], i, ZERO_ITEM);
    assert LiveOf([ZERO_ITEM]) == multiset{};
  }

  /** In the stash merge, the items added so far and those still to add are those of before. */
  ghost predicate Merging(live: multiset<Item>, backup: seq<Item>, i: nat, all: multiset<Item>, size: nat,
                          oldSize: nat) {
    && i <= |backup| && live + LiveOf(backup[i..]) == all
    && size + |LiveOf(backup[i..])| <= oldSize
  }

  lemma MergeStart(items: seq<Item>, backup: seq<Item>, stash: seq<Item>, size: nat, extent: nat)
    requires StashOk(backup, size, extent) && LiveOf(stash) == multiset{}
    ensures Merging(LiveOf(items + stash), backup, 0, LiveOf(items + backup), 0, size)
    ensures size <= STASH_SIZE
  {
    LiveOfConcat(items, backup);
    LiveOfConcat(items, stash);
    StashSizeBound(backup, extent);
    assert backup[0..] == backup;
  }

  lemma MergeDone(live: multiset<Item>, backup: seq<Item>, extent: nat, all: multiset<Item>, size: nat, oldSize: nat)
    requires StashOk(backup, oldSize, extent) && Merging(live, backup, extent, all, size, oldSize)
    ensures live == all && size <= oldSize
  {
    assert LiveOf(backup[extent..]) == multiset{};
  }

  /** There is room for the next entry, in the table and in the stash. */
  lemma MergeRoom(live: multiset<Item>, table: multiset<Item>, backup: seq<Item>, i: nat, all: multiset<Item>,
                  size: nat, oldSize: nat)
    requires i < |backup| && backup[i].Live() && Merging(live, backup, i, all, size, oldSize) && table <= live
    ensures |table| <= |all| && size < oldSize
  {
    assert backup[i] in LiveOf(backup[i..]);
    assert |live + LiveOf(backup[i..])| == |live| + |LiveOf(backup[i..])|;
    assert |live| == |table| + |live - table|;
  }

  lemma MergeFits(live: multiset<Item>, table: multiset<Item>, backup: seq<Item>, i: nat, all: multiset<Item>,
                  size: nat, oldSize: nat)
    requires i < |backup| && backup[i].Live() && Merging(live, backup, i, all, size, oldSize) && table <= live
    ensures table + multiset{backup[i]} <= all
  {
    assert backup[i] in LiveOf(backup[i..]);
    assert multiset{backup[i]} <= LiveOf(backup[i..]);
  }

  lemma MergeStep(live: multiset<Item>, backup: seq<Item>, i: nat, all: multiset<Item>, size: nat, oldSize: nat,
                  live': multiset<Item>, size': nat)
    requires i < |backup| && Merging(live, backup, i, all, size, oldSize)
    requires live' == live + LiveOf([backup[i]]) && size' <= size + |LiveOf([backup[i]])|
    ensures Merging(live', backup, i + 1, all, size', oldSize)
  {
    assert backup[i..] == [backup[i]] + backup[i + 1..];
    LiveOfConcat([backup[i]], backup[i + 1..]);
    assert live' + LiveOf(backup[i + 1..]) == live + LiveOf(backup[i..]);
  }

  /** The first n entries of a stash that was set aside, added one after the other. */
  ghost function Merged(lg: nat, b: Both, backup: seq<Item>, n: nat): (r: Both)
    requires |b.items| == Pow2(lg) && n <= |backup|
    ensures |r.items| == |b.items| && |r.stash| == |b.stash|
  {
    if n == 0 then b
    else
      var before := Merged(lg, b, backup, n - 1);
      if backup[n - 1].Live() then Inserted(lg, before, backup[n - 1]) else before
  }

  lemma {:induction false} MergedFree(lg: nat, b: Both, backup: seq<Item>, n: nat)
    requires |b.items| == Pow2(lg) && n <= |backup| && forall i :: n <= i < |backup| ==> !backup[i].Live()
    ensures Merged(lg, b, backup, |backup|) == Merged(lg, b, backup, n)
    decreases |backup| - n
  {
    if n < |backup| {
      MergedFree(lg, b, backup, n + 1);
    }
  }

  ghost function EmptyStashOf(n: nat): (r: seq<Item>)
    ensures |r| == n && forall i :: 0 <= i < n ==> r[i] == ZERO_ITEM
  {
    seq(n, _ => ZERO_ITEM)
  }

  /** Table and stash after the doubling and the merge. */
  ghost function Regrown(lg: nat, b: Both): (r: Both)
    requires |b.items| == Pow2(lg)
    ensures |r.items| == Pow2(lg + 1) && |r.stash| == |b.stash|
  {
    Merged(lg + 1, Both(DoubledItems(lg, b.items), EmptyStashOf(|b.stash|)), b.stash, |b.stash|)
  }

  /** Why x is in the stash after entries of backup were added again to b: more live items than
      the table has slots for are bound to where it could be, or x is what a walk that was cut
      short had in hand. */
  ghost predicate Explained(lg: nat, live: multiset<Item>, x: Item, b: Both, backup: seq<Item>, n: nat)
    requires |b.items| == Pow2(lg) && n <= |backup|
  {
    || Overfull(lg, live, x)
    || exists i {:trigger LeftBy(lg, x, b, backup, i)} :: 0 <= i < n && LeftBy(lg, x, b, backup, i)
  }

  /** x is what was left in hand when entry i was added, by a walk that was cut short. */
  ghost predicate LeftBy(lg: nat, x: Item, b: Both, backup: seq<Item>, i: int)
    requires |b.items| == Pow2(lg)
  {
    && 0 <= i < |backup| && backup[i].Live()
    && var table := Merged(lg, b, backup, i).items;
    && CutShort(lg, table, backup[i])
    && !Add(lg, table, backup[i]).Placed? && x == Add(lg, table, backup[i]).hand
  }

  ghost predicate AllExplained(lg: nat, live: multiset<Item>, stash: seq<Item>, b: Both, backup: seq<Item>, n: nat)
    requires |b.items| == Pow2(lg) && n <= |backup|
  {
    forall k :: 0 <= k < |stash| && stash[k].Live() ==> Explained(lg, live, stash[k], b, backup, n)
  }

  /** Adding one more entry. */
  lemma ExplainedStep(lg: nat, all: multiset<Item>, b: Both, backup: seq<Item>, i: nat)
    requires |b.items| == Pow2(lg) && i < |backup| && backup[i].Live()
    requires var m := Merged(lg, b, backup, i);
      && AllHome(lg, m.items) && Clean(m.items) && 2 * |LiveOf(m.items)| < Pow2(lg)
      && LiveOf(m.items) + multiset{backup[i]} <= all
    requires AllExplained(lg, all, Merged(lg, b, backup, i).stash, b, backup, i)
    ensures AllExplained(lg, all, Merged(lg, b, backup, i + 1).stash, b, backup, i + 1)
  {
    hide And, Pow2, LiveOf, Overfull, Merged, CutShort, Roomy, Clean, AllHome, Add, Justified, SomeCrowd, Explained;
    var m, m' := Merged(lg, b, backup, i), Merged(lg, b, backup, i + 1);
    MergedNext(lg, b, backup, i);
    forall k | 0 <= k < |b.stash| && m'.stash[k].Live()
      ensures Explained(lg, all, m'.stash[k], b, backup, i + 1)
    {
      if m'.stash[k] == m.stash[k] {
        ExplainedMore(lg, all, m.stash[k], b, backup, i);
      } else {
        HandExplained(lg, all, b, backup, i);
      }
    }
  }

  lemma ExplainedSame(lg: nat, all: multiset<Item>, stash: seq<Item>, b: Both, backup: seq<Item>, n: nat)
    requires |b.items| == Pow2(lg) && n < |backup| && AllExplained(lg, all, stash, b, backup, n)
    ensures AllExplained(lg, all, stash, b, backup, n + 1)
  {
    hide And, Pow2, Explained;
    forall k | 0 <= k < |stash| && stash[k].Live()
      ensures Explained(lg, all, stash[k], b, backup, n + 1)
    {
      ExplainedMore(lg, all, stash[k], b, backup, n);
    }
  }

  lemma {:induction false} ExplainedUpTo(lg: nat, live: multiset<Item>, stash: seq<Item>, b: Both, backup: seq<Item>,
                                         n: nat)
    requires |b.items| == Pow2(lg) && n <= |backup| && AllExplained(lg, live, stash, b, backup, n)
    ensures AllExplained(lg, live, stash, b, backup, |backup|)
    decreases |backup| - n
  {
    hide And, Pow2, AllExplained;
    if n < |backup| {
      ExplainedSame(lg, live, stash, b, backup, n);
      ExplainedUpTo(lg, live, stash, b, backup, n + 1);
    }
  }

  lemma NoLive(stash: seq<Item>)
    requires Clean(stash) && |LiveOf(stash)| == 0
    ensures LiveOf(stash) == multiset{} && forall i :: 0 <= i < |stash| ==> !stash[i].Live()
  {
    OccupiedCount(stash);
    forall i | 0 <= i < |stash|
      ensures !stash[i].Live()
    {
      assert i !in OccupiedSlots(stash);
    }
  }

  /** Nothing to merge. */
  lemma NothingMerged(lg: nat, b: Both, stash: seq<Item>)
    requires |b.items| == Pow2(lg) && Clean(stash) && LiveOf(stash) == multiset{}
    ensures stash == EmptyStashOf(|stash|)
    ensures Merged(lg, b, stash, |stash|) == b
    ensures forall live :: AllExplained(lg, live, stash, b, stash, |stash|)
  {
    hide And, Pow2, Explained, Inserted;
    forall i | 0 <= i < |stash|
      ensures !stash[i].Live()
    {
      assert stash[i] in multiset(stash) && stash[i] !in LiveOf(stash);
    }
    MergedFree(lg, b, stash, 0);
    MergedNothing(lg, b, stash);
  }

  lemma MergedEntry(lg: nat, b: Both, backup: seq<Item>, i: nat)
    requires |b.items| == Pow2(lg) && i < |backup|
    ensures Merged(lg, b, backup, i + 1)
         == if backup[i].Live() then Inserted(lg, Merged(lg, b, backup, i), backup[i]) else Merged(lg, b, backup, i)
  {
    hide And, Pow2, Add, Inserted;
  }

  lemma MergedNothing(lg: nat, b: Both, backup: seq<Item>)
    requires |b.items| == Pow2(lg)
    ensures Merged(lg, b, backup, 0) == b
  {
  }

  lemma NoneExplained(lg: nat, live: multiset<Item>, stash: seq<Item>, b: Both, backup: seq<Item>)
    requires |b.items| == Pow2(lg) && forall k :: 0 <= k < |stash| ==> stash[k] == ZERO_ITEM
    ensures AllExplained(lg, live, stash, b, backup, 0)
  {
  }

  lemma MergedNext(lg: nat, b: Both, backup: seq<Item>, i: nat)
    requires |b.items| == Pow2(lg) && i < |backup| && backup[i].Live()
    ensures Merged(lg, b, backup, i + 1) == Inserted(lg, Merged(lg, b, backup, i), backup[i])
  {
    hide And, Pow2, Add, Inserted;
  }

  lemma ExplainedMore(lg: nat, live: multiset<Item>, x: Item, b: Both, backup: seq<Item>, n: nat)
    requires |b.items| == Pow2(lg) && n < |backup| && Explained(lg, live, x, b, backup, n)
    ensures Explained(lg, live, x, b, backup, n + 1)
  {
    hide And, Pow2, Overfull, LeftBy;
  }

  lemma HandExplained(lg: nat, all: multiset<Item>, b: Both, backup: seq<Item>, i: nat)
    requires |b.items| == Pow2(lg) && i < |backup| && backup[i].Live()
    requires var m := Merged(lg, b, backup, i);
      && AllHome(lg, m.items) && Clean(m.items) && 2 * |LiveOf(m.items)| < Pow2(lg)
      && LiveOf(m.items) + multiset{backup[i]} <= all
    requires !Add(lg, Merged(lg, b, backup, i).items, backup[i]).Placed?
    ensures Explained(lg, all, Add(lg, Merged(lg, b, backup, i).items, backup[i]).hand, b, backup, i + 1)
  {
    hide And, Pow2, LiveOf, Overfull, Merged, CutShort, Roomy, Add, Blocked;
    var table := Merged(lg, b, backup, i).items;
    var r := Add(lg, table, backup[i]);
    AddJustified(lg, table, backup[i]);
    if CutShort(lg, table, backup[i]) {
      assert LeftBy(lg, r.hand, b, backup, i);
    } else {
      AddConserves(lg, table, backup[i]);
      HandOverfull(lg, r.items, r.hand);
      OverfullMore(lg, LiveOf(r.items) + multiset{r.hand}, all, r.hand);
    }
  }

  lemma HandOverfull(lg: nat, items: seq<Item>, hand: Item)
    requires SomeCrowd(lg, items, hand) && Clean(items) && hand.Live()
    ensures Overfull(lg, LiveOf(items) + multiset{hand}, hand)
  {
    hide And, LiveOf;
    var S :| Crowded(lg, items, S, hand);
    CrowdedOverfull(lg, items, S, hand);
  }

  // ----- Renaming keeps the slots -----

  lemma RenamedLive(mem: Memory, mem': Memory, locs: seq<Item>, locs': seq<Item>)
    requires Renamed(mem, mem', locs, locs') && Clean(locs)
    ensures Clean(locs') && |LiveOf(locs')| == |LiveOf(locs)|
  {
    assert forall i :: 0 <= i < |locs| ==> RenamedSlot(mem, mem', locs[i], locs'[i]);
    OccupiedCount(locs);
    OccupiedCount(locs');
    assert OccupiedSlots(locs) == OccupiedSlots(locs');
  }

  lemma RenamedSplit(mem: Memory, mem': Memory, items: seq<Item>, stash: seq<Item>,
                     items': seq<Item>, stash': seq<Item>)
    requires |items'| == |items| && |stash'| == |stash|
    requires Renamed(mem, mem', items + stash, items' + stash')
    ensures Renamed(mem, mem', items, items') && Renamed(mem, mem', stash, stash')
  {
    var locs, locs' := items + stash, items' + stash';
    forall i | 0 <= i < |items|
      ensures RenamedSlot(mem, mem', items[i], items'[i])
    {
      assert RenamedSlot(mem, mem', locs[i], locs'[i]);
    }
    forall i | 0 <= i < |stash|
      ensures RenamedSlot(mem, mem', stash[i], stash'[i])
    {
      assert RenamedSlot(mem, mem', locs[|items| + i], locs'[|items| + i]);
    }
  }

  lemma RenamedScannable(mem: Memory, mem': Memory, items: seq<Item>, stash: seq<Item>,
                         items': seq<Item>, stash': seq<Item>, extent: nat)
    requires |items'| == |items| && |stash'| == |stash|
    requires Renamed(mem, mem', items + stash, items' + stash') && Clean(items + stash)
    requires forall i :: extent <= i < |stash| ==> !stash[i].Live()
    ensures Clean(items' + stash')
    ensures forall i :: extent <= i < |stash| ==> !stash'[i].Live()
  {
    RenamedLive(mem, mem', items + stash, items' + stash');
    RenamedSplit(mem, mem', items, stash, items', stash');
    assert forall i :: 0 <= i < |stash| ==> RenamedSlot(mem, mem', stash[i], stash'[i]);
  }

  lemma RenamedTable(mem: Memory, mem': Memory, lg: nat, items: seq<Item>, items': seq<Item>)
    requires Renamed(mem, mem', items, items') && AllHome(lg, items) && Clean(items)
    ensures AllHome(lg, items') && Clean(items')
    ensures forall i :: 0 <= i < |items| ==> (items'[i].Live() <==> items[i].Live())
  {
    RenamedLive(mem, mem', items, items');
    assert forall i :: 0 <= i < |items| ==> RenamedSlot(mem, mem', items[i], items'[i]);
  }

  lemma RenamedStash(mem: Memory, mem': Memory, stash: seq<Item>, stash': seq<Item>, size: nat, extent: nat)
    requires Renamed(mem, mem', stash, stash') && StashOk(stash, size, extent)
    ensures StashOk(stash', size, extent)
  {
    RenamedLive(mem, mem', stash, stash');
    assert forall i :: 0 <= i < |stash| ==> RenamedSlot(mem, mem', stash[i], stash'[i]);
  }

  lemma RenamedBlocked(mem: Memory, mem': Memory, lg: nat, items: seq<Item>, stash: seq<Item>,
                       items': seq<Item>, stash': seq<Item>)
    requires Renamed(mem, mem', stash, stash') && |items'| == |items|
    requires forall i :: 0 <= i < |items| ==> (items'[i].Live() <==> items[i].Live())
    requires StashBlocked(lg, items, stash)
    ensures StashBlocked(lg, items', stash')
  {
    forall i | 0 <= i < |stash'| && stash'[i].Live()
      ensures Blocked(lg, items', stash'[i])
    {
      assert RenamedSlot(mem, mem', stash[i], stash'[i]) && Blocked(lg, items, stash[i]);
    }
  }

  /** Renaming the items disturbs neither the table nor the stash. */
  lemma RenamedSlots(mem: Memory, mem': Memory, lg: nat, items: seq<Item>, stash: seq<Item>,
                     items': seq<Item>, stash': seq<Item>, size: nat, extent: nat)
    requires SlotsOk(lg, items, stash, size, extent)
    requires |items'| == |items| && |stash'| == |stash|
    requires Renamed(mem, mem', items + stash, items' + stash')
    ensures SlotsOk(lg, items', stash', size, extent)
    ensures |LiveOf(items' + stash')| == |LiveOf(items + stash)|
    ensures StashBlocked(lg, items, stash) ==> StashBlocked(lg, items', stash')
  {
    RenamedSplit(mem, mem', items, stash, items', stash');
    RenamedTable(mem, mem', lg, items, items');
    RenamedStash(mem, mem', stash, stash', size, extent);
    RenamedLive(mem, mem', items + stash, items' + stash');
    if StashBlocked(lg, items, stash) {
      RenamedBlocked(mem, mem', lg, items, stash, items', stash');
    }
  }

  lemma RenamedTwice(mem: Memory, mem': Memory, mem'': Memory, locs: seq<Item>, locs': seq<Item>,
                     locs'': seq<Item>)
    requires Renamed(mem, mem', locs, locs') && Renamed(mem', mem'', locs', locs'')
    ensures Renamed(mem, mem'', locs, locs'')
  {
    forall i | 0 <= i < |locs|
      ensures RenamedSlot(mem, mem'', locs[i], locs''[i])
    {
      assert RenamedSlot(mem, mem', locs[i], locs'[i]) && RenamedSlot(mem', mem'', locs'[i], locs''[i]);
    }
  }

  lemma SameKeysRenamed(mem: Memory, mem': Memory, locs: seq<Item>)
    requires Clean(locs) && SameKeys(mem, mem', LiveOf(locs))
    ensures Renamed(mem, mem', locs, locs)
  {
    forall i | 0 <= i < |locs|
      ensures RenamedSlot(mem, mem', locs[i], locs[i])
    {
      assert locs[i].Live() ==> locs[i] in LiveOf(locs);
    }
  }

  // ----- Clearing a slot, replacing a value -----

  lemma ClearedTable(lg: nat, items: seq<Item>, pos: nat)
    requires AllHome(lg, items) && Clean(items) && pos < |items|
    ensures AllHome(lg, items[pos := ZERO_ITEM]) && Clean(items[pos := ZERO_ITEM])
  {
  }

  lemma ClearedStash(stash: seq<Item>, size: nat, extent: nat, pos: nat)
    requires StashOk(stash, size, extent) && pos < |stash| && stash[pos].Live()
    ensures size > 0 && StashLoose(stash[pos := ZERO_ITEM], size - 1, extent)
  {
    LiveOfClear(stash, pos);
  }

  lemma RenamedLoose(mem: Memory, mem': Memory, stash: seq<Item>, stash': seq<Item>, size: nat, extent: nat)
    requires Renamed(mem, mem', stash, stash') && StashLoose(stash, size, extent)
    ensures StashLoose(stash', size, extent)
  {
    RenamedLive(mem, mem', stash, stash');
    assert forall i :: 0 <= i < |stash| ==> RenamedSlot(mem, mem', stash[i], stash'[i]);
  }

  /** The slots after a removal from the stash, before its extent is lowered. */
  lemma RemovedFromStash(mem: Memory, mem': Memory, lg: nat, items: seq<Item>, stash: seq<Item>,
                         items': seq<Item>, stash': seq<Item>, size: nat, extent: nat, pos: nat)
    requires SlotsOk(lg, items, stash, size, extent) && pos < |stash| && stash[pos].Live()
    requires |items'| == |items| && |stash'| == |stash|
    requires Renamed(mem, mem', (items + stash)[|items| + pos := ZERO_ITEM], items' + stash')
    ensures size > 0 && AllHome(lg, items') && Clean(items') && StashLoose(stash', size - 1, extent)
  {
    hide LiveOf, And, Renamed, Clean, AllHome;
    assert (items + stash)[|items| + pos := ZERO_ITEM] == items + stash[pos := ZERO_ITEM];
    ClearedStash(stash, size, extent, pos);
    RenamedSplit(mem, mem', items, stash[pos := ZERO_ITEM], items', stash');
    RenamedTable(mem, mem', lg, items, items');
    RenamedLoose(mem, mem', stash[pos := ZERO_ITEM], stash', size - 1, extent);
  }

  lemma LiveOfRevalued(s: seq<Item>, i: nat, v: Value)
    requires i < |s| && s[i].Live()
    ensures LiveOf(s[i := s[i].(value := v)]) == LiveOf(s) - multiset{s[i]} + multiset{s[i].(value := v)}
    ensures |LiveOf(s[i := s[i].(value := v)])| == |LiveOf(s)|
  {
    var x := s[i].(value := v);
    LiveOfUpdate(s, i, x);
    assert LiveOf([s[i]]) == multiset{s[i]} && LiveOf([x]) == multiset{x};
  }

  lemma RevaluedTable(lg: nat, items: seq<Item>, pos: nat, v: Value)
    requires AllHome(lg, items) && Clean(items) && pos < |items| && items[pos].Live()
    ensures var items' := items[pos := items[pos].(value := v)];
      AllHome(lg, items') && Clean(items')
  {
  }

  lemma RevaluedStash(stash: seq<Item>, size: nat, extent: nat, pos: nat, v: Value)
    requires StashOk(stash, size, extent) && pos < |stash| && stash[pos].Live()
    ensures StashOk(stash[pos := stash[pos].(value := v)], size, extent)
  {
    LiveOfRevalued(stash, pos, v);
  }

  lemma SlotsScannable(lg: nat, items: seq<Item>, stash: seq<Item>, size: nat, extent: nat)
    requires SlotsOk(lg, items, stash, size, extent)
    ensures Clean(items + stash) && size <= extent <= |stash| == STASH_SIZE
    ensures forall i :: extent <= i < |stash| ==> !stash[i].Live()
  {
    StashSizeBound(stash, extent);
  }

  // ----- Locations -----

  datatype Option<T> = None | Some(value: T)

  /** Which key is at which location: what an enumeration sees. */
  ghost function LayoutOf(h: Handlers, mem: Memory, locs: seq<Item>): seq<Option<Key>> {
    seq(|locs|, i requires 0 <= i < |locs| =>
      if locs[i].Live() then Some(MapKey(h, mem, locs[i])) else None)
  }

  /** The key k has left its location, and no other key has moved. */
  ghost predicate Cleared(before: seq<Option<Key>>, after: seq<Option<Key>>, k: Key) {
    exists i :: 0 <= i < |before| && before[i] == Some(k) && after == before[i := None]
  }

  lemma RenamedLayout(h: Handlers, mem: Memory, mem': Memory, locs: seq<Item>, locs': seq<Item>)
    requires Renamed(mem, mem', locs, locs')
    ensures LayoutOf(h, mem', locs') == LayoutOf(h, mem, locs)
  {
    forall i | 0 <= i < |locs|
      ensures LayoutOf(h, mem', locs')[i] == LayoutOf(h, mem, locs)[i]
    {
      assert RenamedSlot(mem, mem', locs[i], locs'[i]);
    }
  }

  lemma LayoutAt(h: Handlers, mem: Memory, locs: seq<Item>, i: nat)
    requires i < |locs| && locs[i].Live()
    ensures |LayoutOf(h, mem, locs)| == |locs| && LayoutOf(h, mem, locs)[i] == Some(MapKey(h, mem, locs[i]))
  {
  }

  lemma LayoutRevalued(h: Handlers, mem: Memory, locs: seq<Item>, i: nat, v: Value)
    requires i < |locs| && locs[i].Live()
    ensures LayoutOf(h, mem, locs[i := locs[i].(value := v)]) == LayoutOf(h, mem, locs)
  {
  }

  lemma LayoutCleared(h: Handlers, mem: Memory, locs: seq<Item>, i: nat)
    requires i < |locs|
    ensures LayoutOf(h, mem, locs[i := ZERO_ITEM]) == LayoutOf(h, mem, locs)[i := None]
  {
  }

  /** Clearing a slot, and moving keys around, removes the entry of the item that was there. */
  lemma EntryRemoved(h: Handlers, mem: Memory, mem': Memory, locs: seq<Item>, i: nat, locs': seq<Item>,
                     contents: map<Key, Value>, names: map<Key, Key>)
    requires Spelt(h, mem, LiveOf(locs), names)
    requires Clean(locs) && Represents(h, mem, LiveOf(locs), contents) && i < |locs| && locs[i].Live()
    requires Renamed(mem, mem', locs[i := ZERO_ITEM], locs')
    ensures Represents(h, mem', LiveOf(locs'), contents - {MapKey(h, mem, locs[i])})
    ensures Spelt(h, mem', LiveOf(locs'), names - {MapKey(h, mem, locs[i])})
    ensures SpeltBy(h, mem, names, locs[i])
    ensures LayoutOf(h, mem', locs') == LayoutOf(h, mem, locs)[i := None]
    ensures |LiveOf(locs')| + 1 == |LiveOf(locs)|
  {
    hide KeyAt, LiveOf, Represents, Renamed, LayoutOf, MapKey, Clean, Spelt;
    var cleared, x := locs[i := ZERO_ITEM], locs[i];
    LiveOfClear(locs, i);
    RepresentsRemove(h, mem, LiveOf(locs), contents, x);
    SpeltRemove(h, mem, LiveOf(locs), contents, names, x);
    SpeltRenamed(h, mem, mem', cleared, locs', names - {MapKey(h, mem, x)});
    LayoutCleared(h, mem, locs, i);
    RenamedLive(mem, mem', cleared, locs');
    RenamedLayout(h, mem, mem', cleared, locs');
    RepresentsRenamed(h, mem, mem', cleared, locs', contents - {MapKey(h, mem, x)});
  }

  // ----- Nothing -----

  lemma EmptySlots(lg: nat, items: seq<Item>, stash: seq<Item>)
    requires |items| == Pow2(lg) && |stash| == STASH_SIZE
    requires forall i :: 0 <= i < |items| ==> items[i] == ZERO_ITEM
    requires forall i :: 0 <= i < |stash| ==> stash[i] == ZERO_ITEM
    ensures SlotsOk(lg, items, stash, 0, 0) && LiveOf(items + stash) == multiset{}
  {
    assert LiveOf(stash) == multiset{} && LiveOf(items + stash) == multiset{};
  }

  lemma EmptyNames(h: Handlers, custom: bool, mem: Memory)
    requires mem == Memory(0, [], map[])
    ensures NamesOk(custom, mem, 0, 0, multiset{}) && Represents(h, mem, multiset{}, map[])
    ensures Spelt(h, mem, multiset{}, map[])
  {
  }
}
