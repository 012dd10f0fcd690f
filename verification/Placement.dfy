/** Giving up and having to: when an item that goes to the stash could not have been
    placed in the table by any rearrangement. */
module Placement {
  import opened Items
  import opened Cuckoo
  import opened Trails

  /** Some arrangement of the table holds all its items and one more. */
  ghost predicate Placeable(lg: nat, items: seq<Item>, item: Item) {
    exists t :: Clean(t) && AllHome(lg, t) && LiveOf(t) == LiveOf(items) + multiset{item}
  }

  /** 1 for the live items that can only live in S. */
  ghost function BoundTo(lg: nat, S: set<int>): Item -> nat {
    (x: Item) => if x.Live() && Within(lg, S, x) then 1 else 0
  }

  /** More of these items than there are slots in S can only live in S, and so can x. */
  ghost predicate Overfull(lg: nat, live: multiset<Item>, x: Item) {
    exists S: set<int> {:trigger Within(lg, S, x)} :: Within(lg, S, x) && Total(live, BoundTo(lg, S)) > |S|
  }

  lemma CrowdedOverfull(lg: nat, items: seq<Item>, S: set<int>, hand: Item)
    requires Crowded(lg, items, S, hand) && Clean(items) && hand.Live()
    ensures Total(LiveOf(items) + multiset{hand}, BoundTo(lg, S)) > |S|
  {
    var f := BoundTo(lg, S);
    var here := SlotsAtOne(items, f);
    forall p | p in S
      ensures p in here
    {
      assert Settled(lg, items, S, p);
    }
    SubsetSize(S, here);
    SlotSumCounts(items, f);
    SlotSumTotal(items, f);
    TotalAdd(LiveOf(items), hand, f);
  }

  lemma {:induction false} TotalMore(m: multiset<Item>, n: multiset<Item>, f: Item -> nat)
    requires m <= n
    ensures Total(m, f) <= Total(n, f)
    decreases |n - m|
  {
    if n - m == multiset{} {
      assert n == m + (n - m) == m;
    } else {
      var x :| x in n - m;
      TotalRemove(n, x, f);
      TotalMore(m, n - multiset{x}, f);
    }
  }

  /** With more items it stays so. */
  lemma OverfullMore(lg: nat, live: multiset<Item>, more: multiset<Item>, x: Item)
    requires Overfull(lg, live, x) && live <= more
    ensures Overfull(lg, more, x)
  {
    hide And;
    var S: set<int> :| Within(lg, S, x) && Total(live, BoundTo(lg, S)) > |S|;
    TotalMore(live, more, BoundTo(lg, S));
  }

  /** Pigeonhole: |S| slots cannot hold |S| + 1 items that live nowhere else. */
  lemma CrowdedUnplaceable(lg: nat, items: seq<Item>, S: set<int>, hand: Item)
    requires Crowded(lg, items, S, hand) && Clean(items) && hand.Live()
    ensures !Placeable(lg, items, hand)
  {
    var f := BoundTo(lg, S);
    forall t | Clean(t) && AllHome(lg, t) && LiveOf(t) == LiveOf(items) + multiset{hand}
      ensures false
    {
      var there := SlotsAtOne(t, f);
      SubsetSize(there, S);
      SlotSumCounts(t, f);
      SlotSumTotal(t, f);
      CrowdedOverfull(lg, items, S, hand);
    }
  }

  /** What the table is like before the walk tells how it ends. There is an arrangement with
      one more item exactly when one of its two trails gets to a free slot; without the early
      break the code would always find one. It misses one exactly when the walk is cut short:
      never when no live item carries the initial hash. Running out of loops always means that
      there was no room. */
  lemma PlacedIffPlaceable(lg: nat, items: seq<Item>, item: Item)
    requires AllHome(lg, items) && Clean(items) && item.Live()
    requires 2 * |LiveOf(items)| < Pow2(lg)
    ensures Roomy(lg, items, item) <==> Placeable(lg, items, item)
    ensures PatientAdd(lg, items, item).Placed? <==> Placeable(lg, items, item)
    ensures var r := Add(lg, items, item);
      && (r.Placed? ==> Placeable(lg, items, item))
      && (r.Exhausted? ==> !Placeable(lg, items, item))
      && ((r.Placed? <==> Placeable(lg, items, item)) <==> !CutShort(lg, items, item))
    ensures TwinFree(items, item) ==> !CutShort(lg, items, item)
  {
    hide LiveOf, And, Pow2, Course;
    var r, patient := Add(lg, items, item), PatientAdd(lg, items, item);
    AddConserves(lg, items, item);
    AddJustified(lg, items, item);
    if Roomy(lg, items, item) {
      PlacedPlaceable(lg, items, item, patient);
    } else {
      NoRoom(lg, items, item);
      var S :| Crowded(lg, items, S, item);
      CrowdedUnplaceable(lg, items, S, item);
    }
  }

  lemma PlacedPlaceable(lg: nat, items: seq<Item>, item: Item, r: WalkResult)
    requires |items| == Pow2(lg) && Conserves(lg, items, item, r) && r.Placed?
    ensures Placeable(lg, items, item)
  {
    assert LiveOf(r.items) == LiveOf(items) + multiset{item};
  }

  // ----- The early break -----

  const RESIDENT := Item(Pooled(1), Hashes(16, 0), 0)
  const NEIGHBOUR := Item(Pooled(3), Hashes(1, 2), 0)
  const NEWCOMER := Item(Pooled(5), Hashes(0, 1), 0)

  /** A table of 16 slots, free from slot 3 on. */
  ghost predicate StartsWith(items: seq<Item>, a: Item, b: Item, c: Item) {
    && |items| == 16 && items[0] == a && items[1] == b && items[2] == c
    && forall i :: 3 <= i < 16 ==> items[i] == ZERO_ITEM
  }

  lemma SmallPositions()
    ensures Pow2(4) == 16
    ensures And(16, 15) == And(0, 15) == 0 && And(1, 15) == 1 && And(2, 15) == 2
  {
  }

  lemma StartsWithLive(items: seq<Item>, a: Item, b: Item, c: Item)
    requires StartsWith(items, a, b, c)
    ensures LiveOf(items) == LiveOf([a, b, c])
  {
    assert items == [a, b, c] + items[3..];
    LiveOfConcat([a, b, c], items[3..]);
    assert LiveOf(items[3..]) == multiset{};
  }

  /** The early break compares full hashes, not positions: here it stashes an item although
      moving another one by a single slot would have made room for it. */
  lemma EarlyBreakGivesUp(items: seq<Item>, t: seq<Item>)
    requires StartsWith(items, RESIDENT, NEIGHBOUR, ZERO_ITEM)
    requires StartsWith(t, RESIDENT, NEWCOMER, NEIGHBOUR)
    ensures AllHome(4, items) && Clean(items) && 2 * |LiveOf(items)| < Pow2(4)
    ensures Add(4, items, NEWCOMER).Looped? && Placeable(4, items, NEWCOMER)
    ensures CutShort(4, items, NEWCOMER)
  {
    SmallPositions();
    StartsWithLive(items, RESIDENT, NEIGHBOUR, ZERO_ITEM);
    StartsWithLive(t, RESIDENT, NEWCOMER, NEIGHBOUR);
    assert LiveOf(items) == multiset{RESIDENT, NEIGHBOUR};
    assert LiveOf(t) == LiveOf(items) + multiset{NEWCOMER};
    assert Clean(t) && AllHome(4, t);
    PlacedIffPlaceable(4, items, NEWCOMER);
  }

  /** That table is what adding its two items to an empty one gives. */
  lemma EarlyBreakReached(empty: seq<Item>)
    requires StartsWith(empty, ZERO_ITEM, ZERO_ITEM, ZERO_ITEM)
    ensures |empty| == Pow2(4)
    ensures var first := Add(4, empty, RESIDENT);
      && first.Placed? && |first.items| == Pow2(4)
      && var second := Add(4, first.items, NEIGHBOUR);
      && second.Placed? && StartsWith(second.items, RESIDENT, NEIGHBOUR, ZERO_ITEM)
  {
    SmallPositions();
  }
}
