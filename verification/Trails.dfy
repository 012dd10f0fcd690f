/** Where the displacement walk goes, read off the table before the walk starts: along a
    trail, back, along a second trail, to a free slot or round in a full set of slots. */
module Trails {
  import opened Items
  import opened Cuckoo

  // ----- Paths through the table -----

  predicate InTable(items: seq<Item>, path: seq<nat>) {
    forall k :: 0 <= k < |path| ==> path[k] < |items|
  }

  predicate Distinct(path: seq<nat>) {
    forall i, j :: 0 <= i < j < |path| ==> path[i] != path[j]
  }

  function Last(path: seq<nat>): nat
    requires |path| > 0
  {
    path[|path| - 1]
  }

  /** The other position of the item in slot p. */
  function Next(lg: nat, items: seq<Item>, p: nat): nat
    requires p < |items|
  {
    Pos(lg, Onward(lg, p, items[p]))
  }

  /** From index i on, each slot of the path but the last leads to the next one. */
  ghost predicate Linked(lg: nat, items: seq<Item>, path: seq<nat>, i: nat) {
    && |items| == Pow2(lg) && i < |path| && InTable(items, path) && Distinct(path)
    && forall k :: i <= k < |path| - 1 ==>
         items[path[k]].Live() && Next(lg, items, path[k]) == path[k + 1]
  }

  ghost function Unvisited(items: seq<Item>, path: seq<nat>): set<nat> {
    set i: nat | i < |items| && i !in path
  }

  /** The path, continued from each item to its other position, up to a free slot or to an
      item whose other position is on the path already. */
  function Course(lg: nat, items: seq<Item>, path: seq<nat>): (r: seq<nat>)
    requires |items| == Pow2(lg) && |path| > 0 && InTable(items, path) && Distinct(path)
    ensures path <= r && InTable(items, r) && Distinct(r)
    ensures Linked(lg, items, r, |path| - 1)
    ensures items[Last(r)].Live() ==> Next(lg, items, Last(r)) in r
    decreases Unvisited(items, path)
  {
    var p := Last(path);
    if !items[p].Live() || Next(lg, items, p) in path then path
    else
      var q := Next(lg, items, p);
      assert q in Unvisited(items, path) && q !in Unvisited(items, path + [q]);
      Course(lg, items, path + [q])
  }

  /** The trail of an item: from its first position. */
  function Trail(lg: nat, items: seq<Item>, item: Item): seq<nat>
    requires |items| == Pow2(lg)
  {
    Course(lg, items, [Pos1(lg, item)])
  }

  /** The trail followed by the second trail, which starts at the item's second position. */
  function BothTrails(lg: nat, items: seq<Item>, item: Item): seq<nat>
    requires |items| == Pow2(lg) && Pos2(lg, item) !in Trail(lg, items, item)
  {
    Course(lg, items, Trail(lg, items, item) + [Pos2(lg, item)])
  }

  /** The second trail gets to a free slot without meeting the first one. */
  predicate SecondTrailFree(lg: nat, items: seq<Item>, item: Item)
    requires |items| == Pow2(lg)
  {
    Pos2(lg, item) !in Trail(lg, items, item) && !items[Last(BothTrails(lg, items, item))].Live()
  }

  /** One of the two trails gets to a free slot. */
  predicate Roomy(lg: nat, items: seq<Item>, item: Item)
    requires |items| == Pow2(lg)
  {
    !items[Last(Trail(lg, items, item))].Live() || SecondTrailFree(lg, items, item)
  }

  /** The hash of x that leads to slot pos. */
  function HashAt(lg: nat, pos: nat, x: Item): HashKey {
    if pos == Pos1(lg, x) then x.hashes.hash1 else x.hashes.hash2
  }

  /** The hash that takes an item back into the first slot of a closed trail: that of the last
      item if the trail closes there, or else that of the item which was there. */
  function BackHash(lg: nat, items: seq<Item>, trail: seq<nat>): HashKey
    requires |trail| > 0 && InTable(items, trail)
  {
    var back := Onward(lg, Last(trail), items[Last(trail)]);
    if Pos(lg, back) == trail[0] then back else HashAt(lg, trail[0], items[trail[0]])
  }

  /** Both home slots are occupied, the trail closes, the full hash that leads back to its
      start is the item's first one, and the second trail, never taken, is free. */
  predicate CutShort(lg: nat, items: seq<Item>, item: Item)
    requires |items| == Pow2(lg)
  {
    var trail := Trail(lg, items, item);
    && items[Pos1(lg, item)].Live() && items[Pos2(lg, item)].Live()
    && items[Last(trail)].Live()
    && BackHash(lg, items, trail) == item.hashes.hash1
    && SecondTrailFree(lg, items, item)
  }

  // ----- No room -----

  /** Slot p holds an item whose other position is on the path. */
  ghost predicate Leads(lg: nat, items: seq<Item>, path: seq<nat>, p: nat) {
    p < |items| && items[p].Live() && Next(lg, items, p) in path
  }

  ghost predicate Closed(lg: nat, items: seq<Item>, path: seq<nat>) {
    forall p {:trigger Leads(lg, items, path, p)} :: p in path ==> Leads(lg, items, path, p)
  }

  /** A path that was closed up to its start is closed when it does not end in a free slot. */
  lemma CourseClosed(lg: nat, items: seq<Item>, path: seq<nat>)
    requires |items| == Pow2(lg) && |path| > 0 && InTable(items, path) && Distinct(path)
    requires Closed(lg, items, path[..|path| - 1])
    ensures items[Last(Course(lg, items, path))].Live() ==> Closed(lg, items, Course(lg, items, path))
  {
    hide Course, And, Pow2, Next;
    var c, n := Course(lg, items, path), |path| - 1;
    if items[Last(c)].Live() {
      forall k | 0 <= k < |c|
        ensures Leads(lg, items, c, c[k])
      {
        if k < n {
          CourseLeads(lg, items, path[..n], c, path[k]);
        } else if k < |c| - 1 {
          assert Next(lg, items, c[k]) == c[k + 1];
        }
      }
    }
  }

  lemma CourseLeads(lg: nat, items: seq<Item>, path: seq<nat>, c: seq<nat>, p: nat)
    requires Closed(lg, items, path) && p in path && path <= c
    ensures Leads(lg, items, c, p)
  {
    assert Leads(lg, items, path, p);
    var k :| 0 <= k < |path| && path[k] == Next(lg, items, p);
    assert c[k] == path[k];
  }

  lemma LeadsSettled(lg: nat, items: seq<Item>, path: seq<nat>, S: set<int>, p: nat)
    requires AllHome(lg, items) && Leads(lg, items, path, p) && p in path
    requires forall q: nat :: q in path ==> q in S
    ensures Settled(lg, items, S, p)
  {
    hide And, Pow2;
    assert IsHome(lg, p, items[p]);
  }

  ghost function SlotsOf(path: seq<nat>): (S: set<int>)
    ensures forall p: int :: p in S <==> p >= 0 && p in path
  {
    set k | 0 <= k < |path| :: path[k]
  }

  lemma ClosedConfined(lg: nat, items: seq<Item>, path: seq<nat>)
    requires |items| == Pow2(lg) && AllHome(lg, items) && Closed(lg, items, path)
    ensures Confined(lg, items, SlotsOf(path))
  {
    hide And, Pow2, AllHome, Next, SlotsOf, Within;
    var S := SlotsOf(path);
    forall p | p in S
      ensures Settled(lg, items, S, p)
    {
      assert Leads(lg, items, path, p);
      LeadsSettled(lg, items, path, S, p);
    }
    assert S <= OccupiedSlots(items);
  }

  /** The slots of a closed path are full of items that can only live there. */
  lemma ClosedCrowd(lg: nat, items: seq<Item>, path: seq<nat>, item: Item)
    requires AllHome(lg, items) && Closed(lg, items, path)
    requires Pos1(lg, item) in path && Pos2(lg, item) in path
    ensures SomeCrowd(lg, items, item)
  {
    hide Confined, SlotsOf, And;
    ClosedConfined(lg, items, path);
    assert Crowded(lg, items, SlotsOf(path), item);
  }

  /** An item that neither trail makes room for is one too many. */
  lemma NoRoom(lg: nat, items: seq<Item>, item: Item)
    requires AllHome(lg, items) && !Roomy(lg, items, item)
    ensures SomeCrowd(lg, items, item)
  {
    var trail, pos1, pos2 := Trail(lg, items, item), Pos1(lg, item), Pos2(lg, item);
    CourseClosed(lg, items, [pos1]);
    if pos2 in trail {
      ClosedCrowd(lg, items, trail, item);
    } else {
      assert (trail + [pos2])[..|trail|] == trail;
      CourseClosed(lg, items, trail + [pos2]);
      ClosedCrowd(lg, items, BothTrails(lg, items, item), item);
    }
  }

  // ----- The walk -----

  /** Puts hand in slot path[i], and each item on the path from there on in the next slot. */
  ghost function Shift(items: seq<Item>, path: seq<nat>, i: nat, hand: Item): (r: seq<Item>)
    requires i <= |path| && InTable(items, path)
    ensures |r| == |items|
    decreases |path| - i
  {
    if i == |path| then items else Shift(items[path[i] := hand], path, i + 1, items[path[i]])
  }

  /** The initial hash, if there is one, leads to a slot of the path. */
  ghost predicate BreaksOn(lg: nat, path: seq<nat>, initial: int) {
    initial == NEVER || exists h: HashKey :: h == initial && Pos(lg, h) in path
  }

  lemma LinkedOn(lg: nat, items: seq<Item>, path: seq<nat>, i: nat, hand: Item)
    requires Linked(lg, items, path, i) && i < |path| - 1
    ensures items[path[i]].Live() && Next(lg, items, path[i]) == path[i + 1]
    ensures InTable(items, path) && Distinct(path) && |items| == Pow2(lg)
    ensures Linked(lg, items[path[i] := hand], path, i + 1)
    ensures items[path[i] := hand][Last(path)] == items[Last(path)]
  {
    hide And, Pow2;
  }

  lemma NeverBreaks(lg: nat, path: seq<nat>)
    ensures BreaksOn(lg, path, NEVER)
  {
  }

  /** A walk that goes on to a new slot does not break. */
  lemma NoBreak(lg: nat, path: seq<nat>, initial: int, i: nat, next: HashKey)
    requires i < |path| - 1 && Distinct(path) && BreaksOn(lg, path[..i + 1], initial)
    requires Pos(lg, next) == path[i + 1]
    ensures next != initial && BreaksOn(lg, path[..i + 2], initial)
  {
    hide And, Pow2;
    assert path[..i + 2] == path[..i + 1] + [path[i + 1]];
  }

  /** On a linked path, the walk visits a new slot at each step and moves the item there on
      to the next one; at a free slot it ends, and at the last slot it goes on with the item
      that was there. */
  lemma {:induction false} Forward(lg: nat, items: seq<Item>, path: seq<nat>, i: nat, hand: Item, hash: HashKey,
                                   initial: int, loops: nat)
    requires Linked(lg, items, path, i) && hand.Live() && Pos(lg, hash) == path[i]
    requires BreaksOn(lg, path[..i + 1], initial) && loops + i >= |path|
    ensures var x, after := items[Last(path)], Shift(items, path, i, hand);
      var r, back, left := Walk(lg, items, hand, hash, initial, loops), Onward(lg, Last(path), x), loops + i - |path|;
      if !x.Live() then r == Placed(after)
      else if back == initial then r == Looped(after, x)
      else r == Walk(lg, after, x, back, initial, left)
    decreases loops
  {
    hide And, Pow2, BreaksOn;
    var x := items[path[i]];
    var after, next := items[path[i] := hand], Onward(lg, path[i], x);
    if i < |path| - 1 {
      LinkedOn(lg, items, path, i, hand);
      NoBreak(lg, path, initial, i, next);
      hide Linked;
      Forward(lg, after, path, i + 1, x, next, initial, loops - 1);
    }
  }

  /** Each slot of the path up to index j, but the first, leads to the one before. */
  ghost predicate Backed(lg: nat, items: seq<Item>, path: seq<nat>, j: nat) {
    && |items| == Pow2(lg) && j < |path| && InTable(items, path) && Distinct(path)
    && items[path[0]].Live()
    && forall k :: 1 <= k <= j ==>
         items[path[k]].Live() && Next(lg, items, path[k]) == path[k - 1]
  }

  /** Puts hand in slot path[j], and each item on the path from there down in the slot before. */
  ghost function Unshift(items: seq<Item>, path: seq<nat>, j: nat, hand: Item): (r: seq<Item>)
    requires j < |path| && InTable(items, path)
    ensures |r| == |items|
    decreases j
  {
    var items' := items[path[j] := hand];
    if j == 0 then items' else Unshift(items', path, j - 1, items[path[j]])
  }

  lemma BackedTo(lg: nat, items: seq<Item>, path: seq<nat>, j: nat)
    requires Backed(lg, items, path, j)
    ensures |items| == Pow2(lg) && j < |path| && InTable(items, path) && Distinct(path) && items[path[j]].Live()
  {
  }

  lemma BackedOn(lg: nat, items: seq<Item>, path: seq<nat>, j: nat, hand: Item)
    requires Backed(lg, items, path, j) && 0 < j
    ensures items[path[j]].Live() && path[j] != path[0]
    ensures Pos(lg, Onward(lg, path[j], items[path[j]])) == path[j - 1]
    ensures j > 1 ==> path[j - 1] != path[0] && path[j] != path[1]
    ensures var items' := items[path[j] := hand];
      && Backed(lg, items', path, j - 1) && items'[path[0]] == items[path[0]]
      && (j > 1 ==> items'[path[1]] == items[path[1]])
  {
    hide And, Pow2;
  }

  /** How it goes on from there: it breaks when the initial hash is the one that leads back to
      the start, or else goes on with the item that was put there first. */
  ghost function Unwound(lg: nat, items: seq<Item>, path: seq<nat>, j: nat, hand: Item, initial: int,
                         loops: nat): WalkResult
    requires |items| == Pow2(lg) && j < |path| && InTable(items, path) && loops > j
  {
    var item, after := items[path[0]], Unshift(items, path, j, hand);
    if j > 0 && Onward(lg, path[1], items[path[1]]) == initial then
      Looped(after[path[0] := item], items[path[1]])
    else if item.hashes.hash2 == initial then Looped(after, item)
    else Walk(lg, after, item, item.hashes.hash2, initial, loops - j - 1)
  }

  lemma UnwoundEnd(lg: nat, items: seq<Item>, path: seq<nat>, hand: Item, initial: int, loops: nat)
    requires Backed(lg, items, path, 0) && loops > 0 && path[0] == Pos1(lg, items[path[0]])
    ensures var item, after := items[path[0]], items[path[0] := hand];
      && Onward(lg, path[0], item) == item.hashes.hash2
      && Unwound(lg, items, path, 0, hand, initial, loops)
      == if item.hashes.hash2 == initial then Looped(after, item)
         else Walk(lg, after, item, item.hashes.hash2, initial, loops - 1)
  {
    hide And, Pow2, Walk;
  }

  lemma UnwoundStep(lg: nat, items: seq<Item>, path: seq<nat>, j: nat, hand: Item, initial: int, loops: nat)
    requires Backed(lg, items, path, j) && 0 < j && loops > j
    requires Onward(lg, path[j], items[path[j]]) != initial
    ensures Unwound(lg, items, path, j, hand, initial, loops)
         == Unwound(lg, items[path[j] := hand], path, j - 1, items[path[j]], initial, loops - 1)
  {
    hide And, Pow2, Walk;
    BackedOn(lg, items, path, j, hand);
  }

  lemma UnwoundBreak(lg: nat, items: seq<Item>, path: seq<nat>, hand: Item, initial: int, loops: nat)
    requires Backed(lg, items, path, 1) && loops > 1
    requires Onward(lg, path[1], items[path[1]]) == initial
    ensures Unwound(lg, items, path, 1, hand, initial, loops) == Looped(items[path[1] := hand], items[path[1]])
  {
    hide And, Pow2, Walk;
    var items', x := items[path[1] := hand], items[path[1]];
    BackedOn(lg, items, path, 1, hand);
    assert items'[path[0] := x][path[0] := items[path[0]]] == items';
  }

  /** The walk has to go back to a slot of its trail: it takes every item on the trail back by
      one slot, and then the first item, that it started with, on to its second position. */
  lemma {:induction false} Unwind(lg: nat, items: seq<Item>, path: seq<nat>, j: nat, hand: Item, hash: HashKey,
                                  initial: int, loops: nat)
    requires Backed(lg, items, path, j) && hand.Live() && Pos(lg, hash) == path[j]
    requires path[0] == Pos1(lg, items[path[0]])
    requires initial == items[path[0]].hashes.hash1 || initial == NEVER
    requires loops > j
    ensures Walk(lg, items, hand, hash, initial, loops) == Unwound(lg, items, path, j, hand, initial, loops)
    decreases j
  {
    hide And, Pow2, Backed, Walk, Unwound, Onward;
    BackedTo(lg, items, path, j);
    WalkOn(lg, items, hand, hash, initial, loops);
    if j == 0 {
      UnwoundEnd(lg, items, path, hand, initial, loops);
    } else {
      var x, next := items[path[j]], Onward(lg, path[j], items[path[j]]);
      BackedOn(lg, items, path, j, hand);
      if next == initial {
        UnwoundBreak(lg, items, path, hand, initial, loops);
      } else {
        UnwoundStep(lg, items, path, j, hand, initial, loops);
        Unwind(lg, items[path[j] := hand], path, j - 1, x, next, initial, loops - 1);
      }
    }
  }

  /** One step of the walk, to an occupied slot. */
  lemma WalkOn(lg: nat, items: seq<Item>, hand: Item, hash: HashKey, initial: int, loops: nat)
    requires |items| == Pow2(lg) && items[Pos(lg, hash)].Live() && loops > 0
    ensures var pos := Pos(lg, hash);
      var next, after := Onward(lg, pos, items[pos]), items[pos := hand];
      Walk(lg, items, hand, hash, initial, loops)
        == if next == initial then Looped(after, items[pos]) else Walk(lg, after, items[pos], next, initial, loops - 1)
  {
  }

  // ----- The slots afterwards -----

  lemma {:induction false} ShiftSlots(items: seq<Item>, path: seq<nat>, i: nat, hand: Item)
    requires i < |path| && InTable(items, path) && Distinct(path)
    ensures var r := Shift(items, path, i, hand);
      && r[path[i]] == hand
      && (forall k :: i < k < |path| ==> r[path[k]] == items[path[k - 1]])
      && (forall p: nat :: p < |items| && p !in path[i..] ==> r[p] == items[p])
    decreases |path| - i
  {
    if i < |path| - 1 {
      ShiftSlots(items[path[i] := hand], path, i + 1, items[path[i]]);
    }
  }

  /** Taking back what was moved on: below index j, every item of the path is where it was. */
  lemma {:induction false} UnshiftSlots(items: seq<Item>, path: seq<nat>, j: nat, hand: Item)
    requires j < |path| && InTable(items, path) && Distinct(path)
    ensures var r := Unshift(items, path, j, hand);
      && r[path[j]] == hand
      && (forall k :: 0 <= k < j ==> r[path[k]] == items[path[k + 1]])
      && (forall p: nat :: p < |items| && p !in path[..j + 1] ==> r[p] == items[p])
    decreases j
  {
    if j > 0 {
      UnshiftSlots(items[path[j] := hand], path, j - 1, items[path[j]]);
    }
  }

  /** An item at one of its positions that is carried to the other one comes back from there. */
  lemma ThereAndBack(lg: nat, items: seq<Item>, p: nat)
    requires AllHome(lg, items) && p < |items| && items[p].Live() && Next(lg, items, p) != p
    ensures Onward(lg, Next(lg, items, p), items[p]) == HashAt(lg, p, items[p])
    ensures Pos(lg, HashAt(lg, p, items[p])) == p
  {
    hide And, Pow2;
    assert IsHome(lg, p, items[p]);
  }

  /** Once its items have been moved on, the trail leads back. */
  lemma ShiftBacked(lg: nat, items: seq<Item>, path: seq<nat>, hand: Item, j: nat)
    requires AllHome(lg, items) && Linked(lg, items, path, 0) && hand.Live() && j < |path|
    ensures var r := Shift(items, path, 0, hand);
      && Backed(lg, r, path, j) && r[path[0]] == hand
      && (j > 0 ==> Onward(lg, path[1], r[path[1]]) == HashAt(lg, path[0], items[path[0]]))
  {
    hide And, Pow2, Onward, AllHome;
    var r := Shift(items, path, 0, hand);
    ShiftSlots(items, path, 0, hand);
    forall k | 1 <= k < |path|
      ensures r[path[k]].Live() && Next(lg, r, path[k]) == path[k - 1]
      ensures Onward(lg, path[k], r[path[k]]) == HashAt(lg, path[k - 1], items[path[k - 1]])
    {
      assert Next(lg, items, path[k - 1]) == path[k] != path[k - 1];
      ThereAndBack(lg, items, path[k - 1]);
    }
  }

  /** Moved on and taken back, the items off the trail are all where they were. */
  lemma OffTheTrail(items: seq<Item>, path: seq<nat>, hand: Item, j: nat, x: Item)
    requires j < |path| && InTable(items, path) && Distinct(path)
    ensures var r := Unshift(Shift(items, path, 0, hand), path, j, x);
      && (forall p: nat :: p < |items| && p !in path ==> r[p] == items[p])
      && (forall k :: 0 <= k < j ==> r[path[k]] == items[path[k]])
  {
    hide Distinct;
    var shifted := Shift(items, path, 0, hand);
    ShiftSlots(items, path, 0, hand);
    UnshiftSlots(shifted, path, j, x);
    assert path[0..] == path && forall p :: p in path[..j + 1] ==> p in path;
    forall k | 0 <= k < j
      ensures Unshift(shifted, path, j, x)[path[k]] == items[path[k]]
    {
      assert Unshift(shifted, path, j, x)[path[k]] == shifted[path[k + 1]];
    }
  }

  // ----- How the walk ends -----

  lemma {:induction false} DistinctLive(items: seq<Item>, path: seq<nat>)
    requires InTable(items, path) && Distinct(path)
    requires forall k :: 0 <= k < |path| ==> items[path[k]].Live()
    ensures |path| <= |OccupiedSlots(items)| && |path| == |SlotsOf(path)|
  {
    if path != [] {
      var n := |path| - 1;
      DistinctLive(items, path[..n]);
      assert path == path[..n] + [path[n]];
      assert SlotsOf(path) == SlotsOf(path[..n]) + {path[n]} && path[n] !in path[..n];
    }
    SubsetSize(SlotsOf(path), OccupiedSlots(items));
  }

  /** A trail that closes: the index of the slot that it comes back to, and the table when it
      does, with every item on the trail moved on to the next slot. */
  lemma ClosedAt(lg: nat, items: seq<Item>, item: Item) returns (j: nat)
    requires AllHome(lg, items) && item.Live() && items[Last(Trail(lg, items, item))].Live()
    ensures var trail := Trail(lg, items, item);
      var shifted, x := Shift(items, trail, 0, item), items[Last(trail)];
      && Linked(lg, items, trail, 0) && trail[0] == Pos1(lg, item) && j < |trail|
      && BreaksOn(lg, trail[..0 + 1], item.hashes.hash1)
      && Pos(lg, Onward(lg, Last(trail), x)) == trail[j]
      && Backed(lg, shifted, trail, j) && shifted[trail[0]] == item
      && (j > 0 ==> Onward(lg, trail[1], shifted[trail[1]]) == HashAt(lg, trail[0], items[trail[0]]))
  {
    hide And, Pow2, Course, Shift, Linked, Backed, BreaksOn;
    var trail := Trail(lg, items, item);
    TrailLinked(lg, items, item);
    LinkedTo(lg, items, trail, 0);
    j :| 0 <= j < |trail| && trail[j] == Pos(lg, Onward(lg, Last(trail), items[Last(trail)]));
    ShiftBacked(lg, items, trail, item, j);
  }

  lemma LinkedTo(lg: nat, items: seq<Item>, path: seq<nat>, i: nat)
    requires Linked(lg, items, path, i)
    ensures |items| == Pow2(lg) && i < |path| && InTable(items, path) && Distinct(path)
  {
  }

  /** Unless it breaks at the hash that leads back to the start of its trail, the walk leaves
      everything off the trail as it was, and goes on to the second position. */
  lemma Closing(lg: nat, items: seq<Item>, item: Item, initial: int, loops: nat) returns (after: seq<Item>, left: nat)
    requires AllHome(lg, items) && item.Live() && items[Last(Trail(lg, items, item))].Live()
    requires initial == item.hashes.hash1 || initial == NEVER
    requires loops > 2 * |Trail(lg, items, item)|
    ensures |after| == |items| && left + 2 * |Trail(lg, items, item)| >= loops
    ensures forall p: nat :: p < |items| && p !in Trail(lg, items, item) ==> after[p] == items[p]
    ensures var r, second := Walk(lg, items, item, item.hashes.hash1, initial, loops), item.hashes.hash2;
      if BackHash(lg, items, Trail(lg, items, item)) == initial || second == initial then r.Looped?
      else r == Walk(lg, after, item, second, initial, left)
  {
    hide And, Pow2, Course, Walk, Shift, Unshift, Linked, Backed, Distinct;
    var trail := Trail(lg, items, item);
    var shifted, x := Shift(items, trail, 0, item), items[Last(trail)];
    var back := Onward(lg, Last(trail), x);
    var j := ClosedAt(lg, items, item);
    LinkedTo(lg, items, trail, 0);
    Forward(lg, items, trail, 0, item, item.hashes.hash1, initial, loops);
    left := loops - |trail| - j - 1;
    after := Unshift(shifted, trail, j, x);
    OffTheTrail(items, trail, item, j, x);
    BackSlot(trail, j);
    Unwind(lg, shifted, trail, j, x, back, initial, loops - |trail|);
  }

  lemma BackSlot(path: seq<nat>, j: nat)
    requires Distinct(path) && j < |path|
    ensures path[j] == path[0] <==> j == 0
  {
  }

  lemma TrailLinked(lg: nat, items: seq<Item>, item: Item)
    requires |items| == Pow2(lg)
    ensures var trail := Trail(lg, items, item);
      && Linked(lg, items, trail, 0) && trail[0] == Pos1(lg, item)
      && BreaksOn(lg, trail[..1], item.hashes.hash1)
      && (items[Last(trail)].Live() ==> Pos(lg, Onward(lg, Last(trail), items[Last(trail)])) in trail)
  {
    hide And, Pow2, Course;
    assert Trail(lg, items, item)[..1] == [Pos1(lg, item)];
    assert Pos(lg, item.hashes.hash1) in [Pos1(lg, item)];
  }

  /** The second trail, in a table that differs only on the first one. */
  lemma SecondLinked(lg: nat, items: seq<Item>, after: seq<Item>, item: Item)
    requires |items| == |after| == Pow2(lg) && SecondTrailFree(lg, items, item)
    requires forall p: nat :: p < |items| && p !in Trail(lg, items, item) ==> after[p] == items[p]
    ensures var n, both := |Trail(lg, items, item)|, BothTrails(lg, items, item);
      && n < |both| && both[..n] == Trail(lg, items, item) && both[n] == Pos2(lg, item)
      && Linked(lg, after, both, n) && !after[Last(both)].Live()
      && BreaksOn(lg, both[..n + 1], item.hashes.hash1)
      && forall k :: n <= k < |both| ==> after[both[k]] == items[both[k]]
  {
    hide And, Pow2, Course;
    var trail, both := Trail(lg, items, item), BothTrails(lg, items, item);
    var n := |trail|;
    assert trail + [Pos2(lg, item)] <= both && both[n] == Pos2(lg, item) && both[..n] == trail;
    assert forall k :: n <= k < |both| ==> both[k] !in trail;
    assert Pos(lg, item.hashes.hash1) == both[0] && both[0] in both[..n + 1];
  }

  /** A second trail to a free slot: the walk follows it to the end. */
  lemma SecondWalk(lg: nat, items: seq<Item>, after: seq<Item>, item: Item, initial: int, left: nat)
    requires |items| == |after| == Pow2(lg) && item.Live() && SecondTrailFree(lg, items, item)
    requires initial == item.hashes.hash1 || initial == NEVER
    requires forall p: nat :: p < |items| && p !in Trail(lg, items, item) ==> after[p] == items[p]
    requires left + |Trail(lg, items, item)| >= |BothTrails(lg, items, item)|
    ensures var both, n := BothTrails(lg, items, item), |Trail(lg, items, item)|;
      && n < |both| && InTable(after, both)
      && Walk(lg, after, item, item.hashes.hash2, initial, left) == Placed(Shift(after, both, n, item))
  {
    hide And, Pow2, Course, Walk, Shift, Linked, BreaksOn, Distinct;
    var both, n := BothTrails(lg, items, item), |Trail(lg, items, item)|;
    SecondLinked(lg, items, after, item);
    NeverBreaks(lg, both[..n + 1]);
    Forward(lg, after, both, n, item, item.hashes.hash2, initial, left);
  }

  lemma InitFits(items: seq<Item>, path: seq<nat>)
    requires |path| > 0 && InTable(items, path) && Distinct(path)
    requires forall k :: 0 <= k < |path| - 1 ==> items[path[k]].Live()
    ensures |path| - 1 <= |OccupiedSlots(items)|
  {
    DistinctLive(items, path[..|path| - 1]);
  }

  lemma LinkedLive(lg: nat, items: seq<Item>, path: seq<nat>)
    requires Linked(lg, items, path, 0)
    ensures InTable(items, path)
    ensures forall k :: 0 <= k < |path| - 1 ==> items[path[k]].Live()
    ensures items[Last(path)].Live() ==> forall k :: 0 <= k < |path| ==> items[path[k]].Live()
  {
  }

  lemma BothLive(lg: nat, items: seq<Item>, item: Item)
    requires |items| == Pow2(lg) && SecondTrailFree(lg, items, item)
    requires items[Last(Trail(lg, items, item))].Live()
    ensures var trail, both := Trail(lg, items, item), BothTrails(lg, items, item);
      && |trail| < |both| && both[..|trail|] == trail
      && (forall k :: 0 <= k < |both| - 1 ==> items[both[k]].Live())
      && (forall k :: 0 <= k < |trail| ==> items[trail[k]].Live())
  {
    hide And, Pow2, Course;
    var trail, both := Trail(lg, items, item), BothTrails(lg, items, item);
    assert trail + [Pos2(lg, item)] <= both && both[..|trail|] == trail;
    assert forall k :: 0 <= k < |trail| ==> both[k] == trail[k];
  }

  /** With less than half of the slots in use, the loops are enough to go along the trail, back,
      and along the second trail. */
  lemma TrailsFit(lg: nat, items: seq<Item>, item: Item)
    requires |items| == Pow2(lg) && Clean(items) && 2 * |LiveOf(items)| < Pow2(lg)
    ensures |Trail(lg, items, item)| <= Pow2(lg)
    ensures items[Last(Trail(lg, items, item))].Live() ==> 2 * |Trail(lg, items, item)| < Pow2(lg)
    ensures items[Last(Trail(lg, items, item))].Live() && SecondTrailFree(lg, items, item) ==>
      |BothTrails(lg, items, item)| + |Trail(lg, items, item)| <= Pow2(lg)
  {
    hide And, Pow2, Course, LiveOf, Linked, Distinct, InTable, Clean;
    OccupiedCount(items);
    var trail := Trail(lg, items, item);
    LinkedLive(lg, items, trail);
    InitFits(items, trail);
    if items[Last(trail)].Live() {
      DistinctLive(items, trail);
      if SecondTrailFree(lg, items, item) {
        BothLive(lg, items, item);
        InitFits(items, BothTrails(lg, items, item));
      }
    }
  }

  /** How adding an item ends when there is room: in the table, unless it is cut short. */
  lemma RoomyAdd(lg: nat, items: seq<Item>, item: Item, initial: int)
    requires AllHome(lg, items) && Clean(items) && item.Live() && 2 * |LiveOf(items)| < Pow2(lg)
    requires initial == item.hashes.hash1 || initial == NEVER
    requires Roomy(lg, items, item)
    ensures var r := AddBreaking(lg, items, item, initial);
      if initial != NEVER && CutShort(lg, items, item) then r.Looped? else r.Placed?
  {
    hide And, Pow2, Course, Walk, LiveOf, Clean;
    var trail := Trail(lg, items, item);
    TrailLinked(lg, items, item);
    TrailsFit(lg, items, item);
    if items[Pos1(lg, item)].Live() && items[Pos2(lg, item)].Live() {
      if items[Last(trail)].Live() {
        var after, left := Closing(lg, items, item, initial, Pow2(lg));
        SecondHash(lg, items, item, initial);
        if BackHash(lg, items, trail) != initial {
          SecondWalk(lg, items, after, item, initial, left);
        }
      } else {
        Forward(lg, items, trail, 0, item, item.hashes.hash1, initial, Pow2(lg));
      }
    }
  }

  lemma SecondHash(lg: nat, items: seq<Item>, item: Item, initial: int)
    requires |items| == Pow2(lg) && SecondTrailFree(lg, items, item)
    requires initial == item.hashes.hash1 || initial == NEVER
    ensures item.hashes.hash2 != initial
  {
    hide And, Pow2;
  }

  // ----- When the code gives up -----

  /** Without a free slot at the end of either trail, the walk gives up. */
  lemma NoRoomNotPlaced(lg: nat, items: seq<Item>, item: Item, initial: int)
    requires AllHome(lg, items) && item.Live() && !Roomy(lg, items, item)
    ensures var r := AddBreaking(lg, items, item, initial);
      !r.Placed? && Blocked(lg, r.items, r.hand) && SomeCrowd(lg, r.items, r.hand)
  {
    hide And, Pow2, Walk, Roomy;
    NoRoom(lg, items, item);
    var S :| Crowded(lg, items, S, item);
    assert Pos1(lg, item) in OccupiedSlots(items) && Pos2(lg, item) in OccupiedSlots(items);
    CrowdedWalk(lg, items, S, item, item.hashes.hash1, initial, Pow2(lg));
  }

  /** An item in hand at an early break has both its slots occupied. */
  lemma {:induction false} LoopedBlocked(lg: nat, items: seq<Item>, hand: Item, hash: HashKey, initial: HashKey,
                                         loops: nat)
    requires |items| == Pow2(lg) && AllHome(lg, items) && hand.Live() && OwnHash(hand, hash)
    requires items[Pos(lg, initial)].Live()
    ensures var r := Walk(lg, items, hand, hash, initial, loops);
      r.Looped? ==> Blocked(lg, r.items, r.hand)
    decreases loops
  {
    hide And, Pow2;
    if loops > 0 {
      var pos := Pos(lg, hash);
      var x := items[pos];
      var next := Onward(lg, pos, x);
      if x.Live() && next != initial {
        LoopedBlocked(lg, items[pos := hand], x, next, initial, loops - 1);
      }
    }
  }

  lemma TwinFreeNotCut(lg: nat, items: seq<Item>, item: Item)
    requires |items| == Pow2(lg) && TwinFree(items, item)
    ensures !CutShort(lg, items, item)
  {
    hide And, Pow2, Course;
    var trail := Trail(lg, items, item);
    TrailLinked(lg, items, item);
    assert items[Last(trail)].Live() ==> !Twin(items[Last(trail)], item.hashes.hash1);
    assert items[trail[0]].Live() ==> !Twin(items[trail[0]], item.hashes.hash1);
  }

  /** With less than half of the slots in use, 2^lg_size loops are always enough: an item that
      ends up in hand has both its slots occupied, and a set of slots is overcrowded unless
      the walk was cut short. */
  lemma AddJustified(lg: nat, items: seq<Item>, item: Item)
    requires AllHome(lg, items) && Clean(items) && item.Live()
    requires 2 * |LiveOf(items)| < Pow2(lg)
    ensures Justified(lg, Add(lg, items, item), !CutShort(lg, items, item))
    ensures Justified(lg, PatientAdd(lg, items, item), true)
    ensures Add(lg, items, item).Placed? <==> Roomy(lg, items, item) && !CutShort(lg, items, item)
    ensures PatientAdd(lg, items, item).Placed? <==> Roomy(lg, items, item)
    ensures CutShort(lg, items, item) ==> Add(lg, items, item).Looped?
    ensures TwinFree(items, item) ==> !CutShort(lg, items, item)
  {
    hide And, Pow2, Walk, LiveOf, Course, Clean;
    if Roomy(lg, items, item) {
      RoomyAdd(lg, items, item, item.hashes.hash1);
      RoomyAdd(lg, items, item, NEVER);
      if items[Pos1(lg, item)].Live() {
        LoopedBlocked(lg, items, item, item.hashes.hash1, item.hashes.hash1, Pow2(lg));
      }
    } else {
      NoRoomNotPlaced(lg, items, item, item.hashes.hash1);
      NoRoomNotPlaced(lg, items, item, NEVER);
    }
    if TwinFree(items, item) {
      TwinFreeNotCut(lg, items, item);
    }
  }
}
