/** The sizes of the string pool: how storing and releasing keys change them, and how large the
    pool gets. */
module PoolSize {
  import Items

  const MIN_POOL_CAPACITY := 256

  /** The high watermark, the bytes of the live keys, the capacity, and the bytes copied by all
      compactions and released by all keys so far. */
  datatype PoolState = PoolState(size: nat, used: nat, capacity: nat, copied: nat, released: nat)

  const NO_POOL := PoolState(0, 0, 0, 0, 0)

  /** The capacity, doubled until it is enough. */
  function Fit(capacity: nat, need: nat): (r: nat)
    requires capacity > 0
    ensures capacity <= r && need <= r && (r == capacity || r < 2 * need)
    decreases need - capacity
  {
    if capacity < need then Fit(capacity * 2, need) else capacity
  }

  /** A minimal number of doublings: one less is not enough. */
  ghost predicate Doublings(capacity: nat, need: nat, r: nat, k: nat) {
    && r == capacity * Items.Pow2(k) && need <= r
    && (k > 0 ==> capacity * Items.Pow2(k - 1) < need)
  }

  lemma {:induction false} FitDoubles(capacity: nat, need: nat) returns (k: nat)
    requires capacity > 0
    ensures Doublings(capacity, need, Fit(capacity, need), k)
    decreases need - capacity
  {
    if capacity < need {
      var j := FitDoubles(capacity * 2, need);
      k := j + 1;
      OnceMore(capacity, j);
      if j > 0 {
        OnceMore(capacity, j - 1);
      }
    } else {
      k := 0;
    }
  }

  lemma OnceMore(capacity: nat, k: nat)
    ensures capacity * 2 * Items.Pow2(k) == capacity * Items.Pow2(k + 1)
  {
    assert Items.Pow2(k + 1) == 2 * Items.Pow2(k);
  }

  /** More than half of the pool is dead, but not all of it. */
  predicate Sparse(used: nat, size: nat) {
    used != 0 && used < size / 2
  }

  /** Making room for len bytes: in a new capacity, and compacted when a quarter is dead. */
  function Enlarged(p: PoolState, len: nat): PoolState {
    var capacity := Fit(MIN_POOL_CAPACITY, p.size + len);
    if p.used < p.size * 3 / 4 then PoolState(p.used, p.used, capacity, p.copied + p.used, p.released)
    else p.(capacity := capacity)
  }

  /** Storing a key of len bytes, NUL included; the empty key takes none. */
  function AfterStore(p: PoolState, len: nat): PoolState {
    if len == 0 then p
    else
      var q := if p.capacity - p.size >= len then p else Enlarged(p, len);
      q.(size := q.size + len, used := q.used + len)
  }

  /** Releasing a key of len bytes, which are at most those in use. */
  function AfterDrop(p: PoolState, len: nat): PoolState {
    if len == 0 then p
    else
      var used, released := if len <= p.used then p.used - len else 0, p.released + len;
      if Sparse(used, p.size) then
        PoolState(used, used, if used < p.capacity / 4 then p.capacity / 2 else p.capacity, p.copied + used, released)
      else p.(used := used, released := released)
  }

  // ----- A sequence of keys stored and released -----

  datatype PoolOp = Store(len: nat) | Drop(len: nat)

  function Play(p: PoolState, op: PoolOp): PoolState {
    match op
    case Store(len) => AfterStore(p, len)
    case Drop(len) => AfterDrop(p, len)
  }

  function Played(p: PoolState, ops: seq<PoolOp>): PoolState {
    if ops == [] then p else Play(Played(p, ops[..|ops| - 1]), ops[|ops| - 1])
  }

  lemma PlayedMore(p: PoolState, ops: seq<PoolOp>, op: PoolOp)
    ensures Played(p, ops + [op]) == Play(Played(p, ops), op)
  {
    assert (ops + [op])[..|ops|] == ops;
  }

  lemma {:induction false} PlayedTwice(p: PoolState, a: seq<PoolOp>, b: seq<PoolOp>)
    ensures Played(p, a + b) == Played(Played(p, a), b)
  {
    if b == [] {
      assert a + b == a;
    } else {
      var n := |b| - 1;
      assert a + b == (a + b[..n]) + [b[n]];
      PlayedMore(p, a + b[..n], b[n]);
      PlayedTwice(p, a, b[..n]);
    }
  }

  /** The bytes of the keys released. */
  function DroppedBytes(ops: seq<PoolOp>): nat {
    if ops == [] then 0
    else
      var op := ops[|ops| - 1];
      DroppedBytes(ops[..|ops| - 1]) + if op.Drop? then op.len else 0
  }

  lemma {:induction false} PlayedReleased(p: PoolState, ops: seq<PoolOp>)
    ensures Played(p, ops).released == p.released + DroppedBytes(ops)
  {
    if ops != [] {
      PlayedReleased(p, ops[..|ops| - 1]);
    }
  }

  // ----- How large the pool gets -----

  /** At least half of the pool is live. */
  predicate Dense(p: PoolState) {
    p.size <= 2 * p.used + 1
  }

  /** A pool without any live byte, which no release compacts. */
  predicate AllDead(p: PoolState) {
    p.used == 0 && p.size > 1
  }

  ghost predicate AlwaysDense(p: PoolState, ops: seq<PoolOp>) {
    forall n {:trigger ops[..n]} :: 0 <= n <= |ops| ==> Dense(Played(p, ops[..n]))
  }

  ghost predicate NeverAllDead(p: PoolState, ops: seq<PoolOp>) {
    forall n {:trigger ops[..n]} :: 0 <= n <= |ops| ==> !AllDead(Played(p, ops[..n]))
  }

  lemma PlayDense(p: PoolState, op: PoolOp)
    requires Dense(p)
    ensures Dense(Play(p, op)) || AllDead(Play(p, op))
  {
  }

  lemma {:induction false} DenseUntil(p: PoolState, ops: seq<PoolOp>, n: nat)
    requires Dense(p) && NeverAllDead(p, ops) && n <= |ops|
    ensures Dense(Played(p, ops[..n]))
  {
    if n > 0 {
      DenseUntil(p, ops, n - 1);
      assert ops[..n] == ops[..n - 1] + [ops[n - 1]];
      PlayedMore(p, ops[..n - 1], ops[n - 1]);
      PlayDense(Played(p, ops[..n - 1]), ops[n - 1]);
    }
  }

  /** At least half of the pool is always live exactly when it is never all dead. */
  lemma DenseIffNeverAllDead(p: PoolState, ops: seq<PoolOp>)
    requires Dense(p)
    ensures AlwaysDense(p, ops) <==> NeverAllDead(p, ops)
  {
    if NeverAllDead(p, ops) {
      forall n {:trigger ops[..n]} | 0 <= n <= |ops|
        ensures Dense(Played(p, ops[..n]))
      {
        DenseUntil(p, ops, n);
      }
    }
  }

  function Max(a: nat, b: nat): nat {
    if a < b then b else a
  }

  /** The most bytes that were ever in use. */
  function Peak(p: PoolState, ops: seq<PoolOp>): nat {
    if ops == [] then p.used else Max(Peak(p, ops[..|ops| - 1]), Played(p, ops).used)
  }

  /** Its capacity is then at most four times the most bytes ever in use. */
  lemma {:induction false} CapacityBound(p: PoolState, ops: seq<PoolOp>)
    requires Dense(p) && NeverAllDead(p, ops) && p.capacity <= Max(MIN_POOL_CAPACITY, 4 * p.used)
    ensures Played(p, ops).capacity <= Max(MIN_POOL_CAPACITY, 4 * Peak(p, ops))
  {
    if ops != [] {
      var init := ops[..|ops| - 1];
      assert forall n {:trigger init[..n]} :: 0 <= n <= |init| ==> init[..n] == ops[..n];
      CapacityBound(p, init);
      DenseUntil(p, ops, |init|);
      PlayCapacity(Played(p, init), ops[|ops| - 1]);
    }
  }

  lemma PlayCapacity(p: PoolState, op: PoolOp)
    requires Dense(p)
    ensures Play(p, op).capacity <= Max(p.capacity, Max(MIN_POOL_CAPACITY, 4 * Play(p, op).used))
  {
  }

  // ----- A pool that grows without bound -----

  /** One key of len bytes, stored and released n times. */
  function Churn(len: nat, n: nat): seq<PoolOp> {
    if n == 0 then [] else Churn(len, n - 1) + [Store(len), Drop(len)]
  }

  lemma {:induction false} ChurnMore(len: nat, n: nat)
    ensures Churn(len, n + 1) == [Store(len), Drop(len)] + Churn(len, n)
  {
    if n > 0 {
      ChurnMore(len, n - 1);
    }
  }

  lemma ChurnOnce(p: PoolState, len: nat)
    requires len > 1 && p.used == 0 && p.size <= p.capacity && p.size != 1
    ensures var q := Played(p, [Store(len), Drop(len)]);
      && q.used == 0 && q.size <= q.capacity && q.size != 1
      && (q.capacity > p.capacity || (q.capacity == p.capacity && q.size > p.size))
  {
    var q := Played(p, [Store(len)]);
    assert [Store(len)][..0] == [];
    assert [Store(len), Drop(len)] == [Store(len)] + [Drop(len)];
    PlayedMore(p, [Store(len)], Drop(len));
  }

  /** However few bytes are in use at a time, the capacity gets larger than any bound: once
      the pool is full of dead bytes, it is enlarged before it is compacted. */
  lemma {:induction false} ChurnGrows(p: PoolState, len: nat, bound: nat) returns (n: nat)
    requires len > 1 && p.used == 0 && p.size <= p.capacity && p.size != 1
    ensures Played(p, Churn(len, n)).capacity > bound && Played(p, Churn(len, n)).used == 0
    decreases if p.capacity > bound then 0 else bound + 1 - p.capacity, p.capacity - p.size
  {
    if p.capacity > bound {
      n := 0;
    } else {
      var once := [Store(len), Drop(len)];
      ChurnOnce(p, len);
      var m := ChurnGrows(Played(p, once), len, bound);
      n := m + 1;
      ChurnMore(len, m);
      PlayedTwice(p, once, Churn(len, m));
    }
  }

  /** All the time, no more than that one key is in use. */
  lemma {:induction false} ChurnPeak(len: nat, n: nat)
    requires len > 1
    ensures Played(NO_POOL, Churn(len, n)).used == 0 && Peak(NO_POOL, Churn(len, n)) <= len
  {
    if n > 0 {
      var init := Churn(len, n - 1);
      ChurnPeak(len, n - 1);
      PeakMore(NO_POOL, init, Store(len));
      PeakMore(NO_POOL, init + [Store(len)], Drop(len));
      assert Churn(len, n) == init + [Store(len)] + [Drop(len)];
    }
  }

  lemma PeakMore(p: PoolState, ops: seq<PoolOp>, op: PoolOp)
    ensures Played(p, ops + [op]) == Play(Played(p, ops), op)
    ensures Peak(p, ops + [op]) == Max(Peak(p, ops), Play(Played(p, ops), op).used)
  {
    PlayedMore(p, ops, op);
    assert (ops + [op])[..|ops|] == ops;
  }
}
