/** How often the displacement walk places an item: the trail it takes back makes it twice at
    most, when it ends at a free slot. */
module Rounds {
  import opened Items
  import opened Cuckoo
  import opened Trails

  /** The items that the loop of the walk places, with multiplicity. */
  ghost function Placements(lg: nat, items: seq<Item>, hand: Item, hash: HashKey, initial: int,
                            loops: nat): multiset<Item>
    requires |items| == Pow2(lg)
    decreases loops
  {
    if loops == 0 then multiset{}
    else
      var pos := Pos(lg, hash);
      var kicked := items[pos];
      var next := Onward(lg, pos, kicked);
      if !kicked.Live() || next == initial then multiset{hand}
      else multiset{hand} + Placements(lg, items[pos := hand], kicked, next, initial, loops - 1)
  }

  /** The items in the slots of a path. */
  ghost function At(items: seq<Item>, path: seq<nat>): (r: seq<Item>)
    requires InTable(items, path)
    ensures |r| == |path| && forall k {:trigger r[k]} :: 0 <= k < |path| ==> r[k] == items[path[k]]
  {
    seq(|path|, k requires 0 <= k < |path| => items[path[k]])
  }

  lemma AtFirst(items: seq<Item>, path: seq<nat>, i: nat, j: nat, hand: Item)
    requires i < j <= |path| && InTable(items, path) && Distinct(path)
    ensures At(items, path[i..j]) == [items[path[i]]] + At(items[path[i] := hand], path[i + 1..j])
  {
    hide At;
    var after := items[path[i] := hand];
    assert forall k {:trigger path[i + 1..j][k]} :: 0 <= k < j - i - 1 ==>
      path[i + 1..j][k] == path[i..j][k + 1] != path[i];
  }

  /** Live items at distinct slots are among the live items, with multiplicity. */
  lemma {:induction false} AtLive(items: seq<Item>, path: seq<nat>)
    requires InTable(items, path) && Distinct(path)
    requires forall k :: 0 <= k < |path| ==> items[path[k]].Live()
    ensures multiset(At(items, path)) <= LiveOf(items)
    decreases |path|
  {
    hide LiveOf, At;
    if path != [] {
      var x, items' := items[path[0]], items[path[0] := ZERO_ITEM];
      LiveOfClear(items, path[0]);
      AtFirst(items, path, 0, |path|, ZERO_ITEM);
      assert path[0..|path|] == path;
      AtLive(items', path[1..]);
      assert path[1..|path|] == path[1..];
    }
  }

  /** What the walk places from slot path[i] on: hand, every item on the path but the last
      one, and what it places after that. */
  ghost function PlacedOn(lg: nat, items: seq<Item>, path: seq<nat>, i: nat, hand: Item, initial: int,
                          loops: nat): multiset<Item>
    requires |items| == Pow2(lg) && i < |path| && InTable(items, path) && loops + i >= |path|
  {
    var x, after := items[Last(path)], Shift(items, path, i, hand);
    multiset{hand} + multiset(At(items, path[i..|path| - 1]))
    + PlacedThen(lg, x, after, path, initial, loops + i - |path|)
  }

  /** What it places after the last slot of the path, where x was. */
  ghost function PlacedThen(lg: nat, x: Item, after: seq<Item>, path: seq<nat>, initial: int, left: nat): multiset<Item>
    requires |after| == Pow2(lg) && |path| > 0
  {
    var back := Onward(lg, Last(path), x);
    if !x.Live() || back == initial then multiset{} else Placements(lg, after, x, back, initial, left)
  }

  lemma PlacedOnStep(lg: nat, items: seq<Item>, path: seq<nat>, i: nat, hand: Item, initial: int, loops: nat)
    requires InTable(items, path) && Linked(lg, items, path, i) && i < |path| - 1 && loops + i >= |path|
    ensures var x, after := items[path[i]], items[path[i] := hand];
      PlacedOn(lg, items, path, i, hand, initial, loops)
        == multiset{hand} + PlacedOn(lg, after, path, i + 1, x, initial, loops - 1)
  {
    hide And, Pow2, At, Placements, Onward, Shift, Linked, Distinct;
    var x, after := items[path[i]], items[path[i] := hand];
    LinkedOn(lg, items, path, i, hand);
    AtFirst(items, path, i, |path| - 1, hand);
    ShiftOn(items, path, i, hand);
    var b := At(after, path[i + 1..|path| - 1]);
    var rest := PlacedThen(lg, after[Last(path)], Shift(items, path, i, hand), path, initial, loops + i - |path|);
    hide PlacedThen;
    OneMore(hand, x, b, rest);
  }

  lemma OneMore(x: Item, y: Item, s: seq<Item>, rest: multiset<Item>)
    ensures multiset{x} + multiset([y] + s) + rest == multiset{x} + (multiset{y} + multiset(s) + rest)
  {
    assert multiset([y] + s) == multiset{y} + multiset(s);
  }

  lemma ShiftOn(items: seq<Item>, path: seq<nat>, i: nat, hand: Item)
    requires i < |path| && InTable(items, path)
    ensures Shift(items, path, i, hand) == Shift(items[path[i] := hand], path, i + 1, items[path[i]])
    ensures Shift(items, path, |path|, hand) == items
  {
  }

  lemma PlacedOnLast(lg: nat, items: seq<Item>, path: seq<nat>, hand: Item, initial: int, loops: nat)
    requires |items| == Pow2(lg) && |path| > 0 && InTable(items, path) && loops > 0
    ensures var x, after := items[Last(path)], items[Last(path) := hand];
      var back := Onward(lg, Last(path), x);
      PlacedOn(lg, items, path, |path| - 1, hand, initial, loops)
        == if !x.Live() || back == initial then multiset{hand}
           else multiset{hand} + Placements(lg, after, x, back, initial, loops - 1)
  {
    hide And, Pow2, Placements, Onward, Shift;
    ShiftOn(items, path, |path| - 1, hand);
    ShiftOn(items[Last(path) := hand], path, |path| - 1, items[Last(path)]);
    assert At(items, path[|path| - 1..|path| - 1]) == [];
    assert multiset{hand} + multiset{} == multiset{hand};
  }

  /** One step of the walk. */
  lemma PlacementsOn(lg: nat, items: seq<Item>, hand: Item, hash: HashKey, initial: int, loops: nat)
    requires |items| == Pow2(lg) && loops > 0
    ensures var pos := Pos(lg, hash);
      var x, after := items[pos], items[pos := hand];
      var next := Onward(lg, pos, x);
      Placements(lg, items, hand, hash, initial, loops)
        == if !x.Live() || next == initial then multiset{hand}
           else multiset{hand} + Placements(lg, after, x, next, initial, loops - 1)
  {
  }

  lemma {:induction false} ForwardPlaces(lg: nat, items: seq<Item>, path: seq<nat>, i: nat, hand: Item, hash: HashKey,
                                         initial: int, loops: nat)
    requires Linked(lg, items, path, i) && hand.Live() && Pos(lg, hash) == path[i]
    requires BreaksOn(lg, path[..i + 1], initial) && loops + i >= |path|
    ensures Placements(lg, items, hand, hash, initial, loops) == PlacedOn(lg, items, path, i, hand, initial, loops)
    decreases loops
  {
    hide And, Pow2, BreaksOn, At, Placements, PlacedOn, Onward, Distinct;
    var x := items[path[i]];
    PlacementsOn(lg, items, hand, hash, initial, loops);
    if i < |path| - 1 {
      var next := Onward(lg, path[i], x);
      LinkedOn(lg, items, path, i, hand);
      NoBreak(lg, path, initial, i, next);
      PlacedOnStep(lg, items, path, i, hand, initial, loops);
      ForwardPlaces(lg, items[path[i] := hand], path, i + 1, x, next, initial, loops - 1);
    } else {
      PlacedOnLast(lg, items, path, hand, initial, loops);
    }
  }

  lemma AtLast(items: seq<Item>, path: seq<nat>, i: nat, j: nat, hand: Item)
    requires i <= j < |path| && InTable(items, path) && Distinct(path)
    ensures At(items, path[i..j + 1]) == At(items[path[j] := hand], path[i..j]) + [items[path[j]]]
  {
    hide At;
    assert forall k {:trigger path[i..j][k]} :: 0 <= k < j - i ==> path[i..j][k] == path[i..j + 1][k] != path[j];
  }

  /** What the walk places when it takes its trail back: hand, every item on the way, and what
      it places after that, from the first item on. */
  ghost function PlacedBack(lg: nat, items: seq<Item>, path: seq<nat>, j: nat, hand: Item, initial: int,
                            loops: nat): multiset<Item>
    requires |items| == Pow2(lg) && j < |path| && InTable(items, path) && loops > j
  {
    var item, after := items[path[0]], Unshift(items, path, j, hand);
    multiset{hand} + multiset(At(items, path[1..j + 1]))
    + Placements(lg, after, item, item.hashes.hash2, initial, loops - j - 1)
  }

  lemma PlacedBackStep(lg: nat, items: seq<Item>, path: seq<nat>, j: nat, hand: Item, initial: int, loops: nat)
    requires InTable(items, path) && Backed(lg, items, path, j) && 0 < j && loops > j
    ensures PlacedBack(lg, items, path, j, hand, initial, loops)
      == multiset{hand} + PlacedBack(lg, items[path[j] := hand], path, j - 1, items[path[j]], initial, loops - 1)
  {
    hide And, Pow2, At, Backed, Placements, Unshift, Distinct;
    BackedTo(lg, items, path, j);
    var x, items' := items[path[j]], items[path[j] := hand];
    BackedOn(lg, items, path, j, hand);
    UnshiftOn(items, path, j, hand);
    AtLast(items, path, 1, j, hand);
    OneLess(hand, x, At(items', path[1..j]), Placements(lg, Unshift(items, path, j, hand), items[path[0]],
      items[path[0]].hashes.hash2, initial, loops - j - 1));
  }

  lemma PlacedBackLast(lg: nat, items: seq<Item>, path: seq<nat>, hand: Item, initial: int, loops: nat)
    requires |items| == Pow2(lg) && |path| > 0 && InTable(items, path) && loops > 0
    ensures var item := items[path[0]];
      PlacedBack(lg, items, path, 0, hand, initial, loops)
        == multiset{hand} + Placements(lg, items[path[0] := hand], item, item.hashes.hash2, initial, loops - 1)
  {
    hide And, Pow2, At, Placements;
    AtNothing(items, path, 1);
    assert multiset{hand} + multiset{} == multiset{hand};
  }

  /** Taking its trail back, the walk places each item on the way once. */
  lemma {:induction false} UnwindPlaces(lg: nat, items: seq<Item>, path: seq<nat>, j: nat, hand: Item, hash: HashKey,
                                        initial: int, loops: nat)
    requires InTable(items, path) && Backed(lg, items, path, j) && hand.Live() && Pos(lg, hash) == path[j]
    requires path[0] == Pos1(lg, items[path[0]])
    requires initial == items[path[0]].hashes.hash1 || initial == NEVER
    requires loops > j && items[path[0]].hashes.hash2 != initial
    requires j > 0 ==> Onward(lg, path[1], items[path[1]]) != initial
    ensures Placements(lg, items, hand, hash, initial, loops) == PlacedBack(lg, items, path, j, hand, initial, loops)
    decreases j
  {
    hide And, Pow2, PlacedBack, Backed, Placements, Onward, Distinct;
    BackedTo(lg, items, path, j);
    PlacementsOn(lg, items, hand, hash, initial, loops);
    if j == 0 {
      UnwoundEnd(lg, items, path, hand, initial, loops);
      PlacedBackLast(lg, items, path, hand, initial, loops);
    } else {
      var x, next := items[path[j]], Onward(lg, path[j], items[path[j]]);
      BackedOn(lg, items, path, j, hand);
      PlacedBackStep(lg, items, path, j, hand, initial, loops);
      UnwindPlaces(lg, items[path[j] := hand], path, j - 1, x, next, initial, loops - 1);
    }
  }

  lemma AtNothing(items: seq<Item>, path: seq<nat>, i: nat)
    requires i <= |path| && InTable(items, path)
    ensures At(items, path[i..i]) == []
  {
  }

  lemma UnshiftOn(items: seq<Item>, path: seq<nat>, j: nat, hand: Item)
    requires j < |path| && InTable(items, path)
    ensures Unshift(items, path, j, hand)
         == if j == 0 then items[path[j] := hand] else Unshift(items[path[j] := hand], path, j - 1, items[path[j]])
  {
  }

  lemma OneLess(x: Item, y: Item, s: seq<Item>, rest: multiset<Item>)
    ensures multiset{x} + multiset(s + [y]) + rest == multiset{x} + (multiset{y} + multiset(s) + rest)
  {
    assert multiset(s + [y]) == multiset(s) + multiset{y};
  }

  /** A closed trail that does not make the walk break: it places every item on it, then those
      before the slot it came back to once more. */
  lemma ClosingPlaces(lg: nat, items: seq<Item>, item: Item, initial: int, loops: nat)
    returns (after: seq<Item>, left: nat, j: nat)
    requires |items| == Pow2(lg) && AllHome(lg, items) && item.Live() && items[Last(Trail(lg, items, item))].Live()
    requires initial == item.hashes.hash1 || initial == NEVER
    requires loops > 2 * |Trail(lg, items, item)|
    requires BackHash(lg, items, Trail(lg, items, item)) != initial && item.hashes.hash2 != initial
    ensures |after| == |items| && left + 2 * |Trail(lg, items, item)| >= loops && j < |Trail(lg, items, item)|
    ensures forall p: nat :: p < |items| && p !in Trail(lg, items, item) ==> after[p] == items[p]
    ensures var trail := Trail(lg, items, item);
      && InTable(items, trail[..j])
      && Placements(lg, items, item, item.hashes.hash1, initial, loops)
      == multiset{item} + multiset(At(items, trail)) + multiset(At(items, trail[..j]))
         + Placements(lg, after, item, item.hashes.hash2, initial, left)
  {
    hide And, Pow2, Course, Placements, Shift, Unshift, At, PlacedBack, AllHome, Onward, BackHash;
    hide Linked, Distinct;
    var trail := Trail(lg, items, item);
    j := Turning(lg, items, item, initial, loops);
    left := loops - |trail| - j - 1;
    after := Unshift(Shift(items, trail, 0, item), trail, j, items[Last(trail)]);
    OffTheTrail(items, trail, item, j, items[Last(trail)]);
    BothRounds(lg, items, trail, item, items[Last(trail)], j, initial, loops, after, left);
  }

  lemma BothRounds(lg: nat, items: seq<Item>, path: seq<nat>, item: Item, x: Item, j: nat, initial: int, loops: nat,
                   after: seq<Item>, left: nat)
    requires |items| == Pow2(lg) && j < |path| && InTable(items, path) && Distinct(path) && x == items[Last(path)]
    requires loops == left + |path| + j + 1 && after == Unshift(Shift(items, path, 0, item), path, j, x)
    ensures InTable(items, path[..j])
    ensures
      multiset{item} + multiset(At(items, path[0..|path| - 1]))
        + PlacedBack(lg, Shift(items, path, 0, item), path, j, x, initial, loops - |path|)
      == multiset{item} + multiset(At(items, path)) + multiset(At(items, path[..j]))
        + Placements(lg, after, item, item.hashes.hash2, initial, left)
  {
    hide And, Pow2, Placements, Shift, Unshift, At, PlacedBack, Distinct, InTable;
    var shifted, n := Shift(items, path, 0, item), |path|;
    Slices(items, shifted, path, item, j);
    AtShifted(items, path, item, j);
    AtAll(items, path);
    PlacedBackIs(lg, shifted, path, j, x, initial, loops - n, after, left, item, item,
      At(items, path[0..n - 1]), At(items, path[..j]));
  }

  lemma Slices(items: seq<Item>, shifted: seq<Item>, path: seq<nat>, item: Item, j: nat)
    requires j < |path| && InTable(items, path) && Distinct(path) && shifted == Shift(items, path, 0, item)
    ensures InTable(items, path[..j]) && InTable(items, path[0..|path| - 1])
    ensures InTable(shifted, path) && InTable(shifted, path[1..j + 1])
    ensures path[0] < |shifted| && shifted[path[0]] == item
  {
    hide Shift;
    ShiftSlots(items, path, 0, item);
  }

  /** The same, up to the slot the trail comes back to, and from there. */
  lemma Turning(lg: nat, items: seq<Item>, item: Item, initial: int, loops: nat) returns (j: nat)
    requires |items| == Pow2(lg) && AllHome(lg, items) && item.Live() && items[Last(Trail(lg, items, item))].Live()
    requires initial == item.hashes.hash1 || initial == NEVER
    requires loops > 2 * |Trail(lg, items, item)|
    requires BackHash(lg, items, Trail(lg, items, item)) != initial && item.hashes.hash2 != initial
    ensures j < |Trail(lg, items, item)|
    ensures var trail := Trail(lg, items, item);
      var n, x := |trail|, items[Last(trail)];
      Placements(lg, items, item, item.hashes.hash1, initial, loops)
      == multiset{item} + multiset(At(items, trail[0..n - 1]))
         + PlacedBack(lg, Shift(items, trail, 0, item), trail, j, x, initial, loops - n)
  {
    hide And, Pow2, Course, Placements, Shift, Linked, Backed, At, Distinct, BreaksOn, PlacedOn, PlacedBack;
    hide AllHome;
    var trail := Trail(lg, items, item);
    var n := |trail|;
    var shifted, x := Shift(items, trail, 0, item), items[Last(trail)];
    var back := Onward(lg, Last(trail), x);
    j := ClosedAt(lg, items, item);
    LinkedTo(lg, items, trail, 0);
    NeverBreaks(lg, trail[..0 + 1]);
    ForwardPlaces(lg, items, trail, 0, item, item.hashes.hash1, initial, loops);
    BackSlot(trail, j);
    UnwindPlaces(lg, shifted, trail, j, x, back, initial, loops - n);
    PlacedOnIs(lg, items, trail, item, initial, loops);
  }

  lemma PlacedOnIs(lg: nat, items: seq<Item>, path: seq<nat>, hand: Item, initial: int, loops: nat)
    requires |items| == Pow2(lg) && 0 < |path| && InTable(items, path) && loops >= |path|
    requires items[Last(path)].Live() && Onward(lg, Last(path), items[Last(path)]) != initial
    ensures var x, after := items[Last(path)], Shift(items, path, 0, hand);
      PlacedOn(lg, items, path, 0, hand, initial, loops)
        == multiset{hand} + multiset(At(items, path[0..|path| - 1]))
           + Placements(lg, after, x, Onward(lg, Last(path), x), initial, loops - |path|)
  {
  }

  /** The two rounds through a closed trail, added up. */
  lemma PlacedBackIs(lg: nat, items: seq<Item>, path: seq<nat>, j: nat, x: Item, initial: int, loops: nat,
                     after: seq<Item>, left: nat, item: Item, hand: Item, a: seq<Item>, b: seq<Item>)
    requires |items| == Pow2(lg) && j < |path| && InTable(items, path) && loops == left + j + 1
    requires after == Unshift(items, path, j, x) && item == items[path[0]] && b == At(items, path[1..j + 1])
    ensures multiset{hand} + multiset(a) + PlacedBack(lg, items, path, j, x, initial, loops)
      == multiset{hand} + multiset(a + [x]) + multiset(b)
         + Placements(lg, after, item, item.hashes.hash2, initial, left)
  {
    hide And, Pow2, Placements, Unshift, At;
    TwoRounds(hand, x, a, b, Placements(lg, after, item, item.hashes.hash2, initial, left));
  }

  lemma AtAll(items: seq<Item>, path: seq<nat>)
    requires |path| > 0 && InTable(items, path)
    ensures At(items, path) == At(items, path[0..|path| - 1]) + [items[Last(path)]]
  {
  }

  lemma AtShifted(items: seq<Item>, path: seq<nat>, hand: Item, j: nat)
    requires j < |path| && InTable(items, path) && Distinct(path)
    ensures At(Shift(items, path, 0, hand), path[1..j + 1]) == At(items, path[..j])
  {
    hide At;
    ShiftSlots(items, path, 0, hand);
    var a, b := At(Shift(items, path, 0, hand), path[1..j + 1]), At(items, path[..j]);
    forall k | 0 <= k < j
      ensures a[k] == b[k]
    {
      assert path[1..j + 1][k] == path[k + 1] && path[..j][k] == path[k];
    }
  }

  lemma TwoRounds(item: Item, x: Item, a: seq<Item>, b: seq<Item>, rest: multiset<Item>)
    ensures multiset{item} + multiset(a) + (multiset{x} + multiset(b) + rest)
      == multiset{item} + multiset(a + [x]) + multiset(b) + rest
  {
    assert multiset(a + [x]) == multiset(a) + multiset{x};
  }

  /** A second trail to a free slot: the walk places the item and every item on it. */
  lemma SecondPlaces(lg: nat, items: seq<Item>, after: seq<Item>, item: Item, initial: int, left: nat)
    requires |items| == |after| == Pow2(lg) && item.Live() && SecondTrailFree(lg, items, item)
    requires initial == item.hashes.hash1 || initial == NEVER
    requires forall p: nat :: p < |items| && p !in Trail(lg, items, item) ==> after[p] == items[p]
    requires left + |Trail(lg, items, item)| >= |BothTrails(lg, items, item)|
    ensures var n, both := |Trail(lg, items, item)|, BothTrails(lg, items, item);
      && n < |both| && InTable(items, both[n..|both| - 1])
      && Placements(lg, after, item, item.hashes.hash2, initial, left)
      == multiset{item} + multiset(At(items, both[n..|both| - 1]))
  {
    hide And, Pow2, Course, Placements, Shift, At, Linked, BreaksOn, Distinct;
    var both, n := BothTrails(lg, items, item), |Trail(lg, items, item)|;
    SecondLinked(lg, items, after, item);
    NeverBreaks(lg, both[..n + 1]);
    ForwardPlaces(lg, after, both, n, item, item.hashes.hash2, initial, left);
    var path := both[n..|both| - 1];
    assert At(after, path) == At(items, path);
    assert multiset{item} + multiset(At(items, path)) + multiset{} == multiset{item} + multiset(At(items, path));
  }

  /** Twice the items of the table and the new one. */
  ghost predicate AtMostTwice(placed: multiset<Item>, items: seq<Item>, item: Item) {
    forall x :: placed[x] <= 2 * (LiveOf(items) + multiset{item})[x]
  }

  /** Two rounds over distinct occupied slots, and the item itself in each. */
  lemma TwiceAtMost(items: seq<Item>, item: Item, path: seq<nat>, again: seq<nat>)
    requires InTable(items, path) && Distinct(path) && InTable(items, again) && Distinct(again)
    requires forall k :: 0 <= k < |path| ==> items[path[k]].Live()
    requires forall k :: 0 <= k < |again| ==> items[again[k]].Live()
    ensures AtMostTwice(multiset{item} + multiset(At(items, path)) + (multiset{item} + multiset(At(items, again))),
                        items, item)
    ensures AtMostTwice(multiset{item} + multiset(At(items, path)), items, item)
  {
    hide LiveOf, At, InTable, Distinct;
    AtLive(items, path);
    AtLive(items, again);
  }

  lemma AtConcat(items: seq<Item>, path: seq<nat>, again: seq<nat>)
    requires InTable(items, path) && InTable(items, again)
    ensures InTable(items, path + again)
    ensures multiset(At(items, path + again)) == multiset(At(items, path)) + multiset(At(items, again))
  {
    assert At(items, path + again) == At(items, path) + At(items, again);
  }

  lemma AgainDistinct(items: seq<Item>, path: seq<nat>, j: nat, n: nat, again: seq<nat>)
    requires InTable(items, path) && Distinct(path) && j < n < |path| && again == path[..j] + path[n..|path| - 1]
    requires forall k :: 0 <= k < |path| - 1 ==> items[path[k]].Live()
    ensures InTable(items, again) && Distinct(again)
    ensures forall k :: 0 <= k < |again| ==> items[again[k]].Live()
  {
    assert forall k :: 0 <= k < |again| ==> again[k] == path[if k < j then k else n + (k - j)];
  }

  /** What is gone over a second time: the trail up to where it closes, and the second trail. */
  lemma SecondRound(lg: nat, items: seq<Item>, item: Item, j: nat)
    requires |items| == Pow2(lg) && SecondTrailFree(lg, items, item) && j < |Trail(lg, items, item)|
    requires items[Last(Trail(lg, items, item))].Live()
    ensures var trail, both := Trail(lg, items, item), BothTrails(lg, items, item);
      && |trail| < |both|
      && var again := trail[..j] + both[|trail|..|both| - 1];
      && InTable(items, again) && Distinct(again)
      && (forall k :: 0 <= k < |again| ==> items[again[k]].Live())
      && (forall k :: 0 <= k < |trail| ==> items[trail[k]].Live())
  {
    hide And, Pow2, Course, Distinct, Linked;
    var trail, both := Trail(lg, items, item), BothTrails(lg, items, item);
    BothLive(lg, items, item);
    assert both[..j] == trail[..j];
    AgainDistinct(items, both, j, |trail|, trail[..j] + both[|trail|..|both| - 1]);
  }

  /** A walk that ends at a free slot places no item more than twice. */
  lemma PlacedTwiceAtMost(lg: nat, items: seq<Item>, item: Item, initial: int)
    requires AllHome(lg, items) && Clean(items) && item.Live() && 2 * |LiveOf(items)| < Pow2(lg)
    requires initial == item.hashes.hash1 || initial == NEVER
    requires Walk(lg, items, item, item.hashes.hash1, initial, Pow2(lg)).Placed?
    requires items[Pos1(lg, item)].Live() && items[Pos2(lg, item)].Live()
    ensures AtMostTwice(Placements(lg, items, item, item.hashes.hash1, initial, Pow2(lg)), items, item)
  {
    hide And, Pow2, Walk, LiveOf, Course, Clean, Placements, At, Shift, Linked, AtMostTwice;
    var trail, n := Trail(lg, items, item), |Trail(lg, items, item)|;
    if !Roomy(lg, items, item) {
      NoRoomNotPlaced(lg, items, item, initial);
    }
    TrailLinked(lg, items, item);
    TrailsFit(lg, items, item);
    if items[Last(trail)].Live() {
      ClosedTwice(lg, items, item, initial);
    } else {
      OpenTwice(lg, items, item, initial);
    }
  }

  lemma OpenTwice(lg: nat, items: seq<Item>, item: Item, initial: int)
    requires |items| == Pow2(lg) && item.Live() && !items[Last(Trail(lg, items, item))].Live()
    requires |Trail(lg, items, item)| <= Pow2(lg)
    requires initial == item.hashes.hash1 || initial == NEVER
    ensures AtMostTwice(Placements(lg, items, item, item.hashes.hash1, initial, Pow2(lg)), items, item)
  {
    hide And, Pow2, Course, LiveOf, Placements, At, Shift, BreaksOn, AtMostTwice;
    var trail, n := Trail(lg, items, item), |Trail(lg, items, item)|;
    TrailLinked(lg, items, item);
    NeverBreaks(lg, trail[..0 + 1]);
    ForwardPlaces(lg, items, trail, 0, item, item.hashes.hash1, initial, Pow2(lg));
    TwiceAtMost(items, item, trail[0..n - 1], []);
    var placed := multiset{item} + multiset(At(items, trail[0..n - 1]));
    assert placed + multiset{} == placed;
  }

  lemma ClosedTwice(lg: nat, items: seq<Item>, item: Item, initial: int)
    requires AllHome(lg, items) && item.Live() && items[Last(Trail(lg, items, item))].Live()
    requires SecondTrailFree(lg, items, item) && 2 * |Trail(lg, items, item)| < Pow2(lg)
    requires |Trail(lg, items, item)| + |BothTrails(lg, items, item)| <= Pow2(lg)
    requires initial == item.hashes.hash1 || initial == NEVER
    requires Walk(lg, items, item, item.hashes.hash1, initial, Pow2(lg)).Placed?
    ensures AtMostTwice(Placements(lg, items, item, item.hashes.hash1, initial, Pow2(lg)), items, item)
  {
    hide And, Pow2, Walk, LiveOf, Course, Placements, At, AtMostTwice, BackHash, Distinct, Linked;
    var trail, both, n := Trail(lg, items, item), BothTrails(lg, items, item), |Trail(lg, items, item)|;
    var _, _ := Closing(lg, items, item, initial, Pow2(lg));
    var after, left, j := ClosingPlaces(lg, items, item, initial, Pow2(lg));
    SecondPlaces(lg, items, after, item, initial, left);
    SecondRound(lg, items, item, j);
    var rest := both[n..|both| - 1];
    AtConcat(items, trail[..j], rest);
    TwiceAtMost(items, item, trail, trail[..j] + rest);
    SumRounds(item, At(items, trail), At(items, trail[..j]), At(items, rest), At(items, trail[..j] + rest));
  }

  lemma SumRounds(item: Item, a: seq<Item>, b: seq<Item>, c: seq<Item>, d: seq<Item>)
    requires multiset(d) == multiset(b) + multiset(c)
    ensures multiset{item} + multiset(a) + multiset(b) + (multiset{item} + multiset(c))
         == multiset{item} + multiset(a) + (multiset{item} + multiset(d))
  {
  }
}