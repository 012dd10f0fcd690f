/** The values a table is made of: keys, hashes, names, items, and the counting
    tools every invariant is stated with. */
module Items {

  newtype Byte = x: int | 0 <= x < 256

  /** The characters of a C string, terminator excluded. */
  predicate NoNul(s: seq<Byte>) {
    forall i :: 0 <= i < |s| ==> s[i] != 0
  }

  type Key = s: seq<Byte> | NoNul(s) witness []

  /** coucal_hashkey with COUCAL_HASH_SIZE == 32. */
  type HashKey = x: int | 0 <= x < 0x1_0000_0000

  /** The value union, seen through its 64-bit `uintg` member; 0 is the NULL pointer. */
  type Value = x: int | 0 <= x < 0x1_0000_0000_0000_0000

  datatype Hashes = Hashes(hash1: HashKey, hash2: HashKey)

  /** An item's `name` pointer: NULL, the shared empty string, an address inside the
      string pool, or a pointer obtained from a custom dup handler. */
  datatype Name = Null | Shared | Pooled(addr: nat) | Dup(handle: nat)

  datatype Item = Item(name: Name, hashes: Hashes, value: Value) {
    predicate Live() { name != Null }
  }

  /** What calloc and memset leave in a slot. */
  const ZERO_ITEM := Item(Null, Hashes(0, 0), 0)

  /** POW2. */
  function Pow2(n: nat): (r: nat)
    ensures r > 0
  {
    if n == 0 then 1 else 2 * Pow2(n - 1)
  }

  lemma {:induction false} Pow2Above(n: nat)
    ensures Pow2(n) > n
  {
    if n > 0 {
      Pow2Above(n - 1);
    }
  }

  lemma {:induction false} Pow2Monotonic(m: nat, n: nat)
    requires m <= n
    ensures Pow2(m) <= Pow2(n)
    decreases n
  {
    if m < n {
      Pow2Monotonic(m, n - 1);
    }
  }

  /** The `bits` lowest bits of h: h & (POW2(bits) - 1). */
  function LowBits(bits: nat, h: nat): (r: nat)
    ensures r < Pow2(bits)
  {
    if bits == 0 then 0 else h % 2 + 2 * LowBits(bits - 1, h / 2)
  }

  /** They are the remainder of h divided by 2^bits. */
  lemma {:induction false} LowBitsRemainder(bits: nat, h: nat) returns (q: nat)
    ensures h == q * Pow2(bits) + LowBits(bits, h)
  {
    if bits == 0 {
      q := h;
    } else {
      q := LowBitsRemainder(bits - 1, h / 2);
      assert q * Pow2(bits) == 2 * (q * Pow2(bits - 1));
    }
  }

  /** The bitwise and of two numbers. */
  function And(a: nat, b: nat): nat {
    if a == 0 || b == 0 then 0 else (a % 2) * (b % 2) + 2 * And(a / 2, b / 2)
  }

  /** They are what the mask 2^bits - 1 leaves of h. */
  lemma {:induction false} LowBitsMask(bits: nat, h: nat)
    ensures And(h, Pow2(bits) - 1) == LowBits(bits, h)
    decreases bits
  {
    if bits == 0 {
    } else if h == 0 {
      LowBitsMask(bits - 1, 0);
    } else {
      LowBitsMask(bits - 1, h / 2);
      var mask := Pow2(bits) - 1;
      assert mask % 2 == 1 && mask / 2 == Pow2(bits - 1) - 1;
    }
  }

  /** coucal_hash_to_pos_. */
  function Pos(lg: nat, hash: HashKey): (r: nat)
    ensures r < Pow2(lg)
  {
    LowBitsMask(lg, hash);
    And(hash, Pow2(lg) - 1)
  }

  /** That is, the hash modulo the size of the table. */
  lemma PosRemainder(lg: nat, hash: HashKey) returns (q: nat)
    ensures hash == q * Pow2(lg) + Pos(lg, hash) && Pos(lg, hash) < Pow2(lg)
  {
    LowBitsMask(lg, hash);
    q := LowBitsRemainder(lg, hash);
  }

  function Pos1(lg: nat, x: Item): (r: nat)
    ensures r < Pow2(lg)
  {
    Pos(lg, x.hashes.hash1)
  }

  function Pos2(lg: nat, x: Item): (r: nat)
    ensures r < Pow2(lg)
  {
    Pos(lg, x.hashes.hash2)
  }

  lemma {:induction false} LowBitsDoubled(lg: nat, h: nat)
    ensures LowBits(lg + 1, h) == LowBits(lg, h) || LowBits(lg + 1, h) == LowBits(lg, h) + Pow2(lg)
  {
    if lg == 0 {
      assert LowBits(1, h) == h % 2 + 2 * LowBits(0, h / 2);
    } else {
      LowBitsDoubled(lg - 1, h / 2);
    }
  }

  /** With one more bit, a position stays where it is or moves up by the old size. */
  lemma PosDoubled(lg: nat, hash: HashKey)
    ensures Pos(lg + 1, hash) == Pos(lg, hash) || Pos(lg + 1, hash) == Pos(lg, hash) + Pow2(lg)
  {
    LowBitsDoubled(lg, hash);
    LowBitsMask(lg, hash);
    LowBitsMask(lg + 1, hash);
  }

  // ----- Live items -----

  /** Every free slot holds the all-zero item. */
  ghost predicate Clean(s: seq<Item>) {
    forall i :: 0 <= i < |s| && !s[i].Live() ==> s[i] == ZERO_ITEM
  }

  /** The live items of a run of slots, with multiplicity. */
  ghost function LiveOf(s: seq<Item>): multiset<Item> {
    multiset(s)[ZERO_ITEM := 0]
  }

  lemma LiveOfUpdate(s: seq<Item>, i: nat, x: Item)
    requires i < |s|
    ensures LiveOf(s[i := x]) == LiveOf(s) - LiveOf([s[i]]) + LiveOf([x])
    ensures LiveOf([s[i]]) <= LiveOf(s)
  {
    assert s == s[..i] + [s[i]] + s[i + 1..];
    assert s[i := x] == s[..i] + [x] + s[i + 1..];
  }

  /** Clearing a slot removes its item. */
  lemma LiveOfClear(s: seq<Item>, i: nat)
    requires i < |s| && s[i] != ZERO_ITEM
    ensures LiveOf(s[i := ZERO_ITEM]) == LiveOf(s) - multiset{s[i]} && s[i] in LiveOf(s)
    ensures LiveOf(s[i := ZERO_ITEM]) + multiset{s[i]} == LiveOf(s)
    ensures Clean(s) ==> Clean(s[i := ZERO_ITEM])
  {
    LiveOfUpdate(s, i, ZERO_ITEM);
    assert LiveOf([ZERO_ITEM]) == multiset{} && LiveOf([s[i]]) == multiset{s[i]};
  }

  lemma LiveOfConcat(s: seq<Item>, t: seq<Item>)
    ensures LiveOf(s + t) == LiveOf(s) + LiveOf(t)
  {
  }

  lemma SubBagSize(a: multiset<Item>, b: multiset<Item>)
    requires a <= b
    ensures |a| <= |b|
  {
    assert b == a + (b - a);
  }

  ghost predicate OnceEach(m: multiset<Item>) {
    forall x :: x in m ==> m[x] == 1
  }

  lemma OnceEachDrop(m: multiset<Item>, x: Item)
    requires OnceEach(m) && x in m
    ensures OnceEach(m - multiset{x}) && m[x] == 1
  {
    var rest := m - multiset{x};
    forall y | y in rest
      ensures rest[y] == 1
    {
      assert y in m;
    }
  }

  lemma LiveOfNothing(s: seq<Item>)
    requires s == []
    ensures LiveOf(s) == multiset{}
  {
  }

  lemma LiveOfTail(s: seq<Item>, i: nat)
    requires i < |s| && Clean(s)
    ensures s[i].Live() ==> s[i] in LiveOf(s[i..]) && LiveOf(s[i + 1..]) == LiveOf(s[i..]) - multiset{s[i]}
    ensures !s[i].Live() ==> LiveOf(s[i + 1..]) == LiveOf(s[i..])
  {
    assert s[i..] == [s[i]] + s[i + 1..];
    LiveOfConcat([s[i]], s[i + 1..]);
  }

  /** A live item held once sits in one slot only. */
  lemma LiveOfOnce(s: seq<Item>, i: nat, j: nat)
    requires i < |s| && j < |s| && i != j && s[i] == s[j] && s[i] != ZERO_ITEM
    ensures LiveOf(s)[s[i]] >= 2
  {
    var a, b := if i < j then i else j, if i < j then j else i;
    assert s == s[..a] + [s[a]] + s[a + 1..b] + [s[b]] + s[b + 1..];
  }

  /** A run of slots that holds no live item twice has multiplicities of at most one. */
  lemma {:induction false} LiveOfDistinct(s: seq<Item>)
    requires forall i, j :: 0 <= i < j < |s| && s[i] != ZERO_ITEM ==> s[i] != s[j]
    ensures forall x :: LiveOf(s)[x] <= 1
  {
    if s == [] {
    } else {
      var n := |s| - 1;
      assert s == s[..n] + [s[n]];
      LiveOfConcat(s[..n], [s[n]]);
      LiveOfDistinct(s[..n]);
      assert s[n] != ZERO_ITEM ==> s[n] !in s[..n];
    }
  }

  // ----- Weighing a multiset of items -----

  /** The sum of f over m, counting multiplicity. */
  ghost function Total(m: multiset<Item>, f: Item -> nat): nat
    decreases |m|
  {
    if m == multiset{} then 0
    else
      var x :| x in m;
      f(x) + Total(m - multiset{x}, f)
  }

  lemma {:induction false} TotalRemove(m: multiset<Item>, x: Item, f: Item -> nat)
    requires x in m
    ensures Total(m, f) == f(x) + Total(m - multiset{x}, f)
    decreases |m|
  {
    var y :| y in m && Total(m, f) == f(y) + Total(m - multiset{y}, f);
    if y != x {
      TotalRemove(m - multiset{y}, x, f);
      TotalRemove(m - multiset{x}, y, f);
      assert m - multiset{y} - multiset{x} == m - multiset{x} - multiset{y};
    }
  }

  lemma TotalAdd(m: multiset<Item>, x: Item, f: Item -> nat)
    ensures Total(m + multiset{x}, f) == Total(m, f) + f(x)
  {
    TotalRemove(m + multiset{x}, x, f);
    assert m + multiset{x} - multiset{x} == m;
  }

  lemma {:induction false} TotalAgree(m: multiset<Item>, f: Item -> nat, g: Item -> nat)
    requires forall x :: x in m ==> f(x) == g(x)
    ensures Total(m, f) == Total(m, g)
    decreases |m|
  {
    if m == multiset{} {
    } else {
      var x :| x in m;
      TotalRemove(m, x, f);
      TotalRemove(m, x, g);
      TotalAgree(m - multiset{x}, f, g);
    }
  }

  /** The same sum, slot by slot. */
  ghost function SlotSum(s: seq<Item>, f: Item -> nat): nat {
    if s == [] then 0 else SlotSum(s[..|s| - 1], f) + f(s[|s| - 1])
  }

  /** A sum over slots depends only on which live items they hold. */
  lemma {:induction false} SlotSumTotal(s: seq<Item>, f: Item -> nat)
    requires f(ZERO_ITEM) == 0
    ensures SlotSum(s, f) == Total(LiveOf(s), f)
  {
    if s == [] {
      assert LiveOf(s) == multiset{};
    } else {
      var n := |s| - 1;
      assert s == s[..n] + [s[n]];
      LiveOfConcat(s[..n], [s[n]]);
      SlotSumTotal(s[..n], f);
      if s[n] == ZERO_ITEM {
        assert LiveOf([s[n]]) == multiset{};
        assert LiveOf(s) == LiveOf(s[..n]);
      } else {
        assert LiveOf([s[n]]) == multiset{s[n]};
        TotalAdd(LiveOf(s[..n]), s[n], f);
      }
    }
  }

  lemma {:induction false} SlotSumAgree(s: seq<Item>, t: seq<Item>, f: Item -> nat, g: Item -> nat)
    requires |s| == |t| && forall i :: 0 <= i < |s| ==> f(s[i]) == g(t[i])
    ensures SlotSum(s, f) == SlotSum(t, g)
  {
    if s != [] {
      SlotSumAgree(s[..|s| - 1], t[..|t| - 1], f, g);
    }
  }

  /** The slots where f is 1. */
  ghost function SlotsAtOne(s: seq<Item>, f: Item -> nat): set<int> {
    set i | 0 <= i < |s| && f(s[i]) == 1
  }

  lemma SlotsAtOneStep(s: seq<Item>, f: Item -> nat)
    requires s != []
    ensures var n := |s| - 1;
      SlotsAtOne(s, f) == SlotsAtOne(s[..n], f) + (if f(s[n]) == 1 then {n} else {})
      && n !in SlotsAtOne(s[..n], f)
  {
    var n := |s| - 1;
    forall i | 0 <= i < n
      ensures s[..n][i] == s[i]
    {
    }
  }

  /** A 0/1 sum counts the slots where it is 1. */
  lemma {:induction false} SlotSumCounts(s: seq<Item>, f: Item -> nat)
    requires forall x :: f(x) <= 1
    ensures SlotSum(s, f) == |SlotsAtOne(s, f)|
  {
    if s != [] {
      SlotsAtOneStep(s, f);
      SlotSumCounts(s[..|s| - 1], f);
    }
  }

  lemma {:induction false} TotalOnes(m: multiset<Item>, f: Item -> nat)
    requires forall x :: x in m ==> f(x) == 1
    ensures Total(m, f) == |m|
    decreases |m|
  {
    if m == multiset{} {
    } else {
      var x :| x in m;
      TotalRemove(m, x, f);
      TotalOnes(m - multiset{x}, f);
    }
  }

  function One(x: Item): nat { if x == ZERO_ITEM then 0 else 1 }

  ghost function OccupiedSlots(s: seq<Item>): set<int> {
    set i | 0 <= i < |s| && s[i].Live()
  }

  /** The occupied slots are as many as the live items. */
  lemma OccupiedCount(s: seq<Item>)
    requires Clean(s)
    ensures |OccupiedSlots(s)| == |LiveOf(s)|
  {
    SlotSumTotal(s, One);
    SlotSumCounts(s, One);
    TotalOnes(LiveOf(s), One);
    var f: Item -> nat := One;
    assert OccupiedSlots(s) == SlotsAtOne(s, f);
    assert Total(LiveOf(s), f) == |LiveOf(s)|;
  }
}
