/** The displacement walk of coucal_add_item_, as a function of the slot array: nothing is
    lost, and a walk that is caught in a full set of slots never leaves it. */
module Cuckoo {
  import opened Items

  /** How the attempt to place an item in the table ends. */
  datatype WalkResult =
    | Placed(items: seq<Item>)
    | Looped(items: seq<Item>, hand: Item)     // back to the initial hash
    | Exhausted(items: seq<Item>, hand: Item)  // out of loops

  predicate IsHome(lg: nat, pos: int, x: Item) {
    pos == Pos1(lg, x) || pos == Pos2(lg, x)
  }

  /** A table of 2^lg slots whose live items each sit at one of their two positions. */
  ghost predicate AllHome(lg: nat, items: seq<Item>) {
    |items| == Pow2(lg) && forall i :: 0 <= i < |items| && items[i].Live() ==> IsHome(lg, i, items[i])
  }

  /** The hash an item kicked from pos is carried to next. */
  function Onward(lg: nat, pos: nat, x: Item): HashKey {
    if pos == Pos1(lg, x) then x.hashes.hash2 else x.hashes.hash1
  }

  /** No hash: a walk with this as its initial hash has no early break. */
  const NEVER := -1

  /** The loop that puts `hand` at `hash`, and carries on with what it kicks out. */
  function Walk(lg: nat, items: seq<Item>, hand: Item, hash: HashKey, initial: int, loops: nat): WalkResult
    requires |items| == Pow2(lg)
    decreases loops
  {
    if loops == 0 then Exhausted(items, hand)
    else
      var pos := Pos(lg, hash);
      var kicked := items[pos];
      if !kicked.Live() then Placed(items[pos := hand])
      else if Onward(lg, pos, kicked) == initial then Looped(items[pos := hand], kicked)
      else Walk(lg, items[pos := hand], kicked, Onward(lg, pos, kicked), initial, loops - 1)
  }

  /** Into one of the item's own slots, or else by a walk that breaks at `initial`. */
  function AddBreaking(lg: nat, items: seq<Item>, item: Item, initial: int): WalkResult
    requires |items| == Pow2(lg)
  {
    var pos1, pos2 := Pos1(lg, item), Pos2(lg, item);
    if !items[pos1].Live() then Placed(items[pos1 := item])
    else if !items[pos2].Live() then Placed(items[pos2 := item])
    else Walk(lg, items, item, item.hashes.hash1, initial, Pow2(lg))
  }

  /** coucal_add_item_ up to the emergency stash. */
  function Add(lg: nat, items: seq<Item>, item: Item): WalkResult
    requires |items| == Pow2(lg)
  {
    AddBreaking(lg, items, item, item.hashes.hash1)
  }

  /** The same, were there no early break. */
  function PatientAdd(lg: nat, items: seq<Item>, item: Item): WalkResult
    requires |items| == Pow2(lg)
  {
    AddBreaking(lg, items, item, NEVER)
  }

  predicate OwnHash(x: Item, hash: HashKey) {
    hash == x.hashes.hash1 || hash == x.hashes.hash2
  }

  /** An item kicked from one of its positions is carried on to the other; from its first one
      by its second hash, even when the two positions are the same. */
  lemma KickedOn(lg: nat, pos: nat, x: Item)
    requires IsHome(lg, pos, x)
    ensures multiset{pos, Pos(lg, Onward(lg, pos, x))} == multiset{Pos1(lg, x), Pos2(lg, x)}
    ensures pos == Pos1(lg, x) ==> Onward(lg, pos, x) == x.hashes.hash2
  {
  }

  // ----- Conservation -----

  ghost function InHand(r: WalkResult): multiset<Item> {
    if r.Placed? then multiset{} else multiset{r.hand}
  }

  ghost predicate Conserves(lg: nat, items: seq<Item>, hand: Item, r: WalkResult) {
    && |r.items| == |items|
    && AllHome(lg, r.items) && Clean(r.items)
    && LiveOf(r.items) + InHand(r) == LiveOf(items) + multiset{hand}
    && (!r.Placed? ==> r.hand.Live())
    && forall i :: 0 <= i < |items| && items[i].Live() ==> r.items[i].Live()
  }

  lemma PlaceConserves(lg: nat, items: seq<Item>, pos: nat, hand: Item)
    requires pos < |items| && AllHome(lg, items) && Clean(items)
    requires hand.Live() && IsHome(lg, pos, hand)
    ensures AllHome(lg, items[pos := hand]) && Clean(items[pos := hand])
    ensures LiveOf(items[pos := hand]) + (if items[pos].Live() then multiset{items[pos]} else multiset{})
         == LiveOf(items) + multiset{hand}
  {
    LiveOfUpdate(items, pos, hand);
  }

  /** Each step swaps the item in hand with one of the table's: the two together hold the
      same items all along, and every item in the table is at one of its positions. */
  lemma {:induction false} WalkConserves(lg: nat, items: seq<Item>, hand: Item, hash: HashKey,
                                         initial: int, loops: nat)
    requires AllHome(lg, items) && Clean(items) && hand.Live() && OwnHash(hand, hash)
    ensures Conserves(lg, items, hand, Walk(lg, items, hand, hash, initial, loops))
    decreases loops
  {
    hide And, LiveOf;
    if loops == 0 {
    } else {
      var pos := Pos(lg, hash);
      PlaceConserves(lg, items, pos, hand);
      var kicked := items[pos];
      var next := Onward(lg, pos, kicked);
      if kicked.Live() && next != initial {
        WalkConserves(lg, items[pos := hand], kicked, next, initial, loops - 1);
      }
    }
  }

  lemma AddConserves(lg: nat, items: seq<Item>, item: Item)
    requires AllHome(lg, items) && Clean(items) && item.Live()
    ensures Conserves(lg, items, item, Add(lg, items, item))
    ensures Conserves(lg, items, item, PatientAdd(lg, items, item))
  {
    PlaceConserves(lg, items, Pos1(lg, item), item);
    PlaceConserves(lg, items, Pos2(lg, item), item);
    WalkConserves(lg, items, item, item.hashes.hash1, item.hashes.hash1, Pow2(lg));
    WalkConserves(lg, items, item, item.hashes.hash1, NEVER, Pow2(lg));
  }

  // ----- When the walk gives up -----

  /** Both candidate slots of x are occupied. */
  ghost predicate Blocked(lg: nat, items: seq<Item>, x: Item) {
    |items| == Pow2(lg) && items[Pos1(lg, x)].Live() && items[Pos2(lg, x)].Live()
  }

  /** Both candidate slots of x are in S. */
  ghost predicate Within(lg: nat, S: set<int>, x: Item) {
    Pos1(lg, x) in S && Pos2(lg, x) in S
  }

  /** Slot p holds an item that can only live in S. */
  ghost predicate Settled(lg: nat, items: seq<Item>, S: set<int>, p: int) {
    0 <= p < |items| && items[p].Live() && Within(lg, S, items[p])
  }

  /** The slots of S are full of items that can only live in S. */
  ghost predicate Confined(lg: nat, items: seq<Item>, S: set<int>) {
    && |items| == Pow2(lg) && S <= OccupiedSlots(items)
    && forall p {:trigger Settled(lg, items, S, p)} :: p in S ==> Settled(lg, items, S, p)
  }

  /** ... and so can only the item in hand: it has no slot left. */
  ghost predicate Crowded(lg: nat, items: seq<Item>, S: set<int>, hand: Item) {
    Confined(lg, items, S) && Within(lg, S, hand)
  }

  ghost predicate SomeCrowd(lg: nat, items: seq<Item>, hand: Item) {
    exists S :: Crowded(lg, items, S, hand)
  }

  /** x carries, as one of its full hashes, the hash the walk stops at. */
  ghost predicate Twin(x: Item, initial: int) {
    x.hashes.hash1 == initial || x.hashes.hash2 == initial
  }

  /** No live item of the table shares a full hash with the item's first one. */
  ghost predicate TwinFree(items: seq<Item>, item: Item) {
    forall i :: 0 <= i < |items| && items[i].Live() ==> !Twin(items[i], item.hashes.hash1)
  }

  /** A result that did not give up early: what is left in hand has both slots taken, and
      unless the early break cut the walk short, no slot can be made for it. */
  ghost predicate Justified(lg: nat, r: WalkResult, uncut: bool) {
    !r.Placed? ==>
      && Blocked(lg, r.items, r.hand)
      && (r.Exhausted? || uncut ==> SomeCrowd(lg, r.items, r.hand))
  }

  lemma {:induction false} SubsetSize<T>(a: set<T>, b: set<T>)
    requires a <= b
    ensures |a| <= |b|
  {
    if a != {} {
      var x :| x in a;
      SubsetSize(a - {x}, b - {x});
    }
  }

  /** Swapping an item of S with one in a slot of S. */
  lemma ConfinedSwap(lg: nat, items: seq<Item>, S: set<int>, pos: nat, hand: Item)
    requires Confined(lg, items, S) && pos in S && hand.Live() && Within(lg, S, hand)
    ensures pos < |items| && items[pos].Live() && Within(lg, S, items[pos])
    ensures Confined(lg, items[pos := hand], S)
  {
    assert Settled(lg, items, S, pos);
    var items' := items[pos := hand];
    forall p {:trigger Settled(lg, items', S, p)} | p in S
      ensures Settled(lg, items', S, p)
    {
      assert Settled(lg, items, S, p);
    }
  }

  /** Once crowded, the walk goes round the same full slots for ever. */
  lemma {:induction false} CrowdedWalk(lg: nat, items: seq<Item>, S: set<int>, hand: Item, hash: HashKey,
                                       initial: int, loops: nat)
    requires Crowded(lg, items, S, hand) && hand.Live() && OwnHash(hand, hash)
    ensures var r := Walk(lg, items, hand, hash, initial, loops);
      !r.Placed? && Crowded(lg, r.items, S, r.hand) && Blocked(lg, r.items, r.hand)
    decreases loops
  {
    hide And, LiveOf;
    assert Pos1(lg, hand) in OccupiedSlots(items) && Pos2(lg, hand) in OccupiedSlots(items);
    if loops == 0 {
    } else {
      var pos := Pos(lg, hash);
      var kicked := items[pos];
      var next := Onward(lg, pos, kicked);
      ConfinedSwap(lg, items, S, pos, hand);
      if next != initial {
        CrowdedWalk(lg, items[pos := hand], S, kicked, next, initial, loops - 1);
      }
    }
  }
}
