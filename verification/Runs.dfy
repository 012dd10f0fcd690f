/** Any run of operations on a hashtable, against the same run on a finite map. */
module Runs {
  import opened Items
  import opened Contents
  import opened Slots
  import opened Hashtable
  import opened PoolSize
  import StringPool
  import Cuckoo

  datatype Op =
    | Write(key: Key, value: Value)
    | Remove(key: Key)
    | Read(key: Key)
    | Inc(key: Key, inc: Value)
    | Count

  /** What an operation returns: whether the write added an entry, whether there was an entry
      to remove, the value read, the new value of the counter, the number of entries. */
  datatype Reply =
    | Wrote(added: bool)
    | Removed(removed: bool)
    | Got(found: Option<Value>)
    | Became(value: Value)
    | Counted(n: nat)

  /** A finite map, and what it has replied so far. */
  datatype Model = Model(m: map<Key, Value>, replies: seq<Reply>)

  ghost function Lookup(m: map<Key, Value>, k: Key): Option<Value> {
    if k in m then Some(m[k]) else None
  }

  ghost function Step(canon: Key -> Key, model: Model, op: Op): Model {
    var m := model.m;
    match op
    case Write(key, v) => Model(m[canon(key) := v], model.replies + [Wrote(canon(key) !in m)])
    case Remove(key) => Model(m - {canon(key)}, model.replies + [Removed(canon(key) in m)])
    case Read(key) => Model(m, model.replies + [Got(Lookup(m, canon(key)))])
    case Inc(key, inc) =>
      var v := Sum(if canon(key) in m then m[canon(key)] else 0, inc);
      Model(m[canon(key) := v], model.replies + [Became(v)])
    case Count => Model(m, model.replies + [Counted(|m|)])
  }

  /** The first n operations, on a map. */
  ghost function Replay(canon: Key -> Key, m: map<Key, Value>, ops: seq<Op>, n: nat): Model
    requires n <= |ops|
  {
    if n == 0 then Model(m, []) else Step(canon, Replay(canon, m, ops, n - 1), ops[n - 1])
  }

  /** The non-NULL value that an operation writes, if any. */
  ghost function Written(op: Op): multiset<Value> {
    match op
    case Write(_, v) => Owned(v)
    case _ => multiset{}
  }

  /** The non-NULL values that the first n operations write. */
  ghost function Writes(ops: seq<Op>, n: nat): multiset<Value>
    requires n <= |ops|
  {
    if n == 0 then multiset{} else Writes(ops, n - 1) + Written(ops[n - 1])
  }

  ghost predicate NoInc(ops: seq<Op>, n: nat)
    requires n <= |ops|
  {
    forall i :: 0 <= i < n ==> !ops[i].Inc?
  }

  /** The operation adds an entry. */
  ghost predicate Adds(canon: Key -> Key, m: map<Key, Value>, op: Op) {
    (op.Write? || op.Inc?) && canon(op.key) !in m
  }

  /** An argument for a key: a string of the caller's, or an address of the pool where the key
      happens to be, as a live key, as the tail of one, or as a dead one. */
  method SomeArg(table: Coucal, key: Key) returns (arg: KeyArg)
    ensures table.ArgOk(arg) && table.ArgKey(arg) == key
  {
    var offset: int := *;
    arg := Text(key);
    if 0 <= offset < table.poolSize && StringPool.CString(table.buffer[..], offset) == key {
      arg := Address(table.base + offset);
    }
  }

  /** 1 for an operation that adds an entry. */
  ghost function Added(canon: Key -> Key, m: map<Key, Value>, op: Op): nat {
    if Adds(canon, m, op) then 1 else 0
  }

  /** How many of the first n operations add an entry. */
  ghost function Additions(canon: Key -> Key, m: map<Key, Value>, ops: seq<Op>, n: nat): nat
    requires n <= |ops|
  {
    if n == 0 then 0
    else Additions(canon, m, ops, n - 1) + Added(canon, Replay(canon, m, ops, n - 1).m, ops[n - 1])
  }

  /** The bytes that a key takes in the pool. */
  function Bytes(key: Key): nat {
    if key == [] then 0 else |key| + 1
  }

  /** The keys as they were first written, after an operation. */
  ghost function Named(canon: Key -> Key, m: map<Key, Value>, names: map<Key, Key>, op: Op): map<Key, Key> {
    if Adds(canon, m, op) then names[canon(op.key) := op.key]
    else if op.Remove? then names - {canon(op.key)}
    else names
  }

  /** And after the first n operations. */
  ghost function AllNamed(canon: Key -> Key, m: map<Key, Value>, names: map<Key, Key>, ops: seq<Op>,
                          n: nat): map<Key, Key>
    requires n <= |ops|
  {
    if n == 0 then names
    else Named(canon, Replay(canon, m, ops, n - 1).m, AllNamed(canon, m, names, ops, n - 1), ops[n - 1])
  }

  /** What an operation does to the pool. */
  ghost function Traffic(canon: Key -> Key, m: map<Key, Value>, names: map<Key, Key>, op: Op): seq<PoolOp> {
    if Adds(canon, m, op) then [Store(Bytes(op.key))]
    else if op.Remove? && canon(op.key) in m then
      var k := canon(op.key);
      [Drop(Bytes(if k in names then names[k] else k))]
    else []
  }

  /** What the first n operations do to it. */
  ghost function AllTraffic(canon: Key -> Key, m: map<Key, Value>, names: map<Key, Key>, ops: seq<Op>,
                            n: nat): seq<PoolOp>
    requires n <= |ops|
  {
    if n == 0 then []
    else
      AllTraffic(canon, m, names, ops, n - 1)
      + Traffic(canon, Replay(canon, m, ops, n - 1).m, AllNamed(canon, m, names, ops, n - 1), ops[n - 1])
  }

  /** The non-NULL value that leaves the map, if any: that of an entry replaced or removed. */
  ghost function Left(canon: Key -> Key, m: map<Key, Value>, op: Op): multiset<Value> {
    if (op.Write? || op.Remove?) && canon(op.key) in m then Owned(m[canon(op.key)]) else multiset{}
  }

  /** And those that leave it in the first n operations. */
  ghost function AllLeft(canon: Key -> Key, m: map<Key, Value>, ops: seq<Op>, n: nat): multiset<Value>
    requires n <= |ops|
  {
    if n == 0 then multiset{}
    else AllLeft(canon, m, ops, n - 1) + Left(canon, Replay(canon, m, ops, n - 1).m, ops[n - 1])
  }

  /** 1 for an operation that adds an entry to at least seven others. */
  ghost function Crowds(canon: Key -> Key, m: map<Key, Value>, op: Op): nat {
    if Adds(canon, m, op) && |m| + 1 >= STASH_SIZE / 2 then 1 else 0
  }

  ghost function AllCrowds(canon: Key -> Key, m: map<Key, Value>, ops: seq<Op>, n: nat): nat
    requires n <= |ops|
  {
    if n == 0 then 0
    else AllCrowds(canon, m, ops, n - 1) + Crowds(canon, Replay(canon, m, ops, n - 1).m, ops[n - 1])
  }

  /** What is kept track of beside the map. */
  datatype Books = Books(dupCount: nat, pool: PoolState, names: map<Key, Key>, lgSize: nat, edited: bool,
                         freed: multiset<Value>, written: multiset<Value>)

  ghost function BooksOf(table: Coucal): Books
    reads table
  {
    Books(table.dupCount, table.Pool(), table.names, table.lgSize, table.edited, table.freed, table.written)
  }

  /** How an operation changes that, for a map m before: the keys dup'd, the pool, the stored
      keys, the values freed and written, the size of the table. */
  ghost predicate Accounted(table: Coucal, m: map<Key, Value>, a: Books, b: Books, op: Op, fatal: bool) {
    var canon := table.handlers.canon;
    && b.dupCount == a.dupCount + (if table.customKeys then Added(canon, m, op) else 0)
    && (!table.customKeys ==> b.pool == Played(a.pool, Traffic(canon, m, a.names, op)))
    && b.freed == (if table.valueFree then a.freed + Left(canon, m, op) else a.freed)
    && (!fatal ==> b.names == Named(canon, m, a.names, op))
    && (!fatal ==> a.lgSize <= b.lgSize <= a.lgSize + Crowds(canon, m, op))
    && (!fatal && !op.Inc? ==> b.edited == a.edited)
    && (!fatal && !op.Inc? ==> b.written == a.written + Written(op))
  }

  /** How the first n operations of a run change it. */
  ghost predicate AllAccounted(table: Coucal, m: map<Key, Value>, a: Books, b: Books, ops: seq<Op>, n: nat)
    requires n <= |ops|
  {
    var canon := table.handlers.canon;
    && b.dupCount == a.dupCount + (if table.customKeys then Additions(canon, m, ops, n) else 0)
    && (!table.customKeys ==> b.pool == Played(a.pool, AllTraffic(canon, m, a.names, ops, n)))
    && b.freed == (if table.valueFree then a.freed + AllLeft(canon, m, ops, n) else a.freed)
    && b.names == AllNamed(canon, m, a.names, ops, n)
    && a.lgSize <= b.lgSize <= a.lgSize + AllCrowds(canon, m, ops, n)
    && (NoInc(ops, n) ==> b.edited == a.edited && b.written == a.written + Writes(ops, n))
  }

  lemma AccountedNext(table: Coucal, m: map<Key, Value>, a: Books, b: Books, c: Books, ops: seq<Op>, n: nat)
    requires n < |ops| && AllAccounted(table, m, a, b, ops, n)
    requires Accounted(table, Replay(table.handlers.canon, m, ops, n).m, b, c, ops[n], false)
    ensures AllAccounted(table, m, a, c, ops, n + 1)
  {
    hide Step, Replay, Adds, Added, Traffic, Played, Named, Left, Crowds, Written;
    var canon := table.handlers.canon;
    PlayedTwice(a.pool, AllTraffic(canon, m, a.names, ops, n),
      Traffic(canon, Replay(canon, m, ops, n).m, AllNamed(canon, m, a.names, ops, n), ops[n]));
  }

  lemma AccountedFirst(table: Coucal, m: map<Key, Value>, a: Books, ops: seq<Op>)
    ensures AllAccounted(table, m, a, a, ops, 0)
  {
    EmptyPlay(a.pool);
  }

  lemma AccountedStop(table: Coucal, m: map<Key, Value>, a: Books, b: Books, c: Books, ops: seq<Op>, n: nat)
    requires n < |ops| && AllAccounted(table, m, a, b, ops, n)
    requires Accounted(table, Replay(table.handlers.canon, m, ops, n).m, b, c, ops[n], true)
    requires Adds(table.handlers.canon, Replay(table.handlers.canon, m, ops, n).m, ops[n])
    ensures c.freed == if table.valueFree then a.freed + AllLeft(table.handlers.canon, m, ops, n) else a.freed
  {
    hide Step, Replay, Played;
  }

  lemma PlayOne(p: PoolState, op: PoolOp)
    ensures Played(p, [op]) == Play(p, op) && Played(p, []) == p
  {
    PlayedMore(p, [], op);
    assert [] + [op] == [op];
  }

  method PerformWrite(table: Coucal, op: Op) returns (added: bool, fatal: bool)
    requires table.Valid() && op.Write?
    modifies table.Repr()
    ensures fresh(table.Repr() - old(table.Repr()))
    ensures Accounted(table, old(table.contents), old(BooksOf(table)), BooksOf(table), op, fatal)
    ensures !fatal ==> table.Valid() && added == Adds(table.handlers.canon, old(table.contents), op)
    ensures !fatal ==> table.contents == old(table.contents)[table.handlers.canon(op.key) := op.value]
    ensures fatal ==>
      && Adds(table.handlers.canon, old(table.contents), op)
      && table.Stopped(old(table.contents)[table.handlers.canon(op.key) := op.value])
      && (old(table.stashSize) == STASH_SIZE || old(table.lgSize) == MAX_LG_SIZE)
  {
    hide Coucal.Valid, Coucal.Layout, StringPool.CString, Owned, Coucal.Collision, Coucal.Exceeded, AfterStore;
    hide Coucal.RoomFor, Coucal.AtLimit, Coucal.SlotsNext, Coucal.StashNext, Coucal.GrewIfNeeded;
    ValidSize(table);
    var arg := SomeArg(table, op.key);
    PlayOne(table.Pool(), Store(Bytes(op.key)));
    ghost var filled, stashNext := table.SlotsNext(table.KeyHash(arg)), table.StashNext(table.KeyHash(arg));
    var r := table.WriteValue(arg, op.value);
    added, fatal := r == WriteResult.Added, r.Fatal();
    if added {
      GrewSlowly(table, old(table.lgSize), filled, stashNext);
      OneMore(old(table.contents), table.handlers.canon(op.key), op.value);
    }
  }

  lemma UnmappedKey(m: map<Key, Key>, k: Key)
    ensures k !in m ==> m - {k} == m
  {
  }

  lemma StoredIff(table: Coucal)
    requires table.Valid()
    ensures table.names.Keys == table.contents.Keys
  {
    hide Represents, Spelt, Coucal.NamesShape, Coucal.Shape;
  }

  method PerformInc(table: Coucal, op: Op) returns (value: Value, fatal: bool)
    requires table.Valid() && op.Inc?
    modifies table.Repr()
    ensures fresh(table.Repr() - old(table.Repr()))
    ensures Accounted(table, old(table.contents), old(BooksOf(table)), BooksOf(table), op, fatal)
    ensures value == Sum(old(table.ValueOf(table.handlers.canon(op.key))), op.inc)
    ensures !fatal ==> table.Valid()
    ensures !fatal ==> table.contents == old(table.contents)[table.handlers.canon(op.key) := value]
    ensures fatal ==>
      && Adds(table.handlers.canon, old(table.contents), op)
      && table.Stopped(old(table.contents)[table.handlers.canon(op.key) := value])
      && (old(table.stashSize) == STASH_SIZE || old(table.lgSize) == MAX_LG_SIZE)
  {
    hide Coucal.Valid, Coucal.Layout, StringPool.CString, Owned, Coucal.Collision, Coucal.Exceeded, AfterStore;
    hide Coucal.RoomFor, Coucal.AtLimit, Coucal.SlotsNext, Coucal.StashNext, Coucal.GrewIfNeeded, Sum;
    ValidSize(table);
    var arg := SomeArg(table, op.key);
    PlayOne(table.Pool(), Store(Bytes(op.key)));
    ghost var filled, stashNext := table.SlotsNext(table.KeyHash(arg)), table.StashNext(table.KeyHash(arg));
    var r;
    r, value := table.Inc(arg, op.inc);
    fatal := r.Fatal();
    if r == WriteResult.Added {
      GrewSlowly(table, old(table.lgSize), filled, stashNext);
      OneMore(old(table.contents), table.handlers.canon(op.key), value);
    }
  }

  lemma OneMore(m: map<Key, Value>, k: Key, v: Value)
    ensures k !in m ==> |m[k := v]| == |m| + 1
  {
    assert m[k := v].Keys == m.Keys + {k};
  }

  lemma ValidSize(table: Coucal)
    requires table.Valid()
    ensures MIN_LG_SIZE <= table.lgSize
  {
    hide Represents, Spelt, Coucal.NamesShape, Coucal.Shape;
  }

  method PerformRemove(table: Coucal, op: Op) returns (removed: bool)
    requires table.Valid() && op.Remove?
    modifies table.Repr()
    ensures fresh(table.Repr() - old(table.Repr()))
    ensures Accounted(table, old(table.contents), old(BooksOf(table)), BooksOf(table), op, false) && table.Valid()
    ensures removed <==> table.handlers.canon(op.key) in old(table.contents)
    ensures table.contents == old(table.contents) - {table.handlers.canon(op.key)}
  {
    hide Coucal.Valid, Coucal.Layout, StringPool.CString, Owned, AfterDrop, Cleared;
    var arg := SomeArg(table, op.key);
    ghost var k := table.handlers.canon(op.key);
    PlayOne(table.Pool(), Drop(Bytes(table.StoredKey(k))));
    UnmappedKey(table.names, k);
    StoredIff(table);
    removed := table.Remove(arg);
  }

  /** One operation on a hashtable. It can fail only when it adds an entry, and then either the
      stash is full and every item in it and the one in hand have both slots occupied, or the
      table is at the size limit; either way the items stand for the map with that entry. */
  method Perform(table: Coucal, op: Op, ghost replies: seq<Reply>) returns (reply: Reply, fatal: bool)
    requires table.Valid()
    modifies table.Repr()
    ensures fresh(table.Repr() - old(table.Repr()))
    ensures !fatal ==> table.Valid()
    ensures !fatal ==>
      Model(table.contents, replies + [reply]) == Step(table.handlers.canon, Model(old(table.contents), replies), op)
    ensures fatal ==>
      && Adds(table.handlers.canon, old(table.contents), op)
      && table.Stopped(Step(table.handlers.canon, Model(old(table.contents), replies), op).m)
    ensures fatal ==> old(table.stashSize) == STASH_SIZE || old(table.lgSize) == MAX_LG_SIZE
    ensures Accounted(table, old(table.contents), old(BooksOf(table)), BooksOf(table), op, fatal)
  {
    hide Coucal.Valid, Coucal.Layout, Owned, Coucal.Stopped, Sum, Accounted;
    fatal := false;
    match op {
      case Write(key, value) =>
        var added;
        added, fatal := PerformWrite(table, op);
        reply := Wrote(added);
      case Remove(key) =>
        var removed := PerformRemove(table, op);
        reply := Removed(removed);
      case Read(key) =>
        var arg := SomeArg(table, key);
        var found, value := Look(table, arg);
        reply := Got(if found then Some(value) else None);
        NothingChanged(table, table.contents, op, false);
      case Inc(key, inc) =>
        var value;
        value, fatal := PerformInc(table, op);
        reply := Became(value);
      case Count =>
        var n := table.NItems();
        reply := Counted(n);
        NothingChanged(table, table.contents, op, false);
    }
  }

  method Look(table: Coucal, arg: KeyArg) returns (found: bool, value: Value)
    requires table.Valid() && table.ArgOk(arg)
    ensures found <==> table.handlers.canon(table.ArgKey(arg)) in table.contents
    ensures found ==> value == table.contents[table.handlers.canon(table.ArgKey(arg))]
  {
    hide Coucal.Consistent, Coucal.Loaded, Coucal.Accounts;
    found, value := table.ReadValue(arg);
  }

  lemma NothingChanged(table: Coucal, m: map<Key, Value>, op: Op, fatal: bool)
    requires op.Read? || op.Count?
    ensures Accounted(table, m, BooksOf(table), BooksOf(table), op, fatal)
  {
    PlayOne(table.Pool(), Store(0));
    assert table.freed + multiset{} == table.freed && table.written + multiset{} == table.written;
  }

  /** The table doubles at most once, and only with at least eight entries. */
  lemma GrewSlowly(table: Coucal, lg: nat, filled: Slots.Both, stashNext: nat)
    requires table.Valid() && lg >= MIN_LG_SIZE && table.GrewIfNeeded(lg, filled, stashNext)
    ensures lg <= table.lgSize <= lg + if |table.contents| >= STASH_SIZE / 2 then 1 else 0
  {
    hide Coucal.Valid, BothAlike, Coucal.AllTried, Coucal.Slots;
    Pow2Monotonic(MIN_LG_SIZE, lg);
  }

  /** A run replies as a finite map does, and ends with the same entries. It stops early only
      at an operation that adds an entry, when that hits a stash collision or the size limit:
      not before there are eight entries, whatever the hash. */
  method Run(table: Coucal, ops: seq<Op>) returns (replies: seq<Reply>, fatal: bool)
    requires table.Valid()
    modifies table.Repr()
    ensures |replies| <= |ops| && (fatal <==> |replies| < |ops|)
    ensures replies == Replay(table.handlers.canon, old(table.contents), ops, |replies|).replies
    ensures !fatal && NoInc(ops, |ops|) ==>
      table.edited == old(table.edited) && table.written == old(table.written) + Writes(ops, |ops|)
    ensures fresh(table.Repr() - old(table.Repr()))
    ensures !fatal ==> table.Valid()
    ensures !fatal ==> table.contents == Replay(table.handlers.canon, old(table.contents), ops, |ops|).m
    ensures fatal ==> StoppedAt(table, old(table.contents), ops, |replies|)
    ensures !fatal && table.customKeys ==>
      table.dupCount == old(table.dupCount) + Additions(table.handlers.canon, old(table.contents), ops, |ops|)
    ensures !fatal && !table.customKeys ==>
      table.Pool()
      == Played(old(table.Pool()), AllTraffic(table.handlers.canon, old(table.contents), old(table.names), ops, |ops|))
    ensures !fatal ==>
      table.names == AllNamed(table.handlers.canon, old(table.contents), old(table.names), ops, |ops|)
    ensures table.freed ==
      if table.valueFree then old(table.freed) + AllLeft(table.handlers.canon, old(table.contents), ops, |replies|)
      else old(table.freed)
    ensures !fatal ==>
      && old(table.lgSize) <= table.lgSize
      && table.lgSize <= old(table.lgSize) + AllCrowds(table.handlers.canon, old(table.contents), ops, |ops|)
  {
    hide Coucal.Valid, Step, Coucal.Stopped, Adds, Accounted, AllAccounted, BooksOf;
    replies, fatal := [], false;
    ghost var canon, m, a := table.handlers.canon, table.contents, BooksOf(table);
    FreedBooks(table);
    AccountedFirst(table, m, a, ops);
    for i := 0 to |ops|
      invariant table.Valid() && fresh(table.Repr() - old(table.Repr()))
      invariant !fatal && |replies| == i
      invariant Model(table.contents, replies) == Replay(canon, m, ops, i)
      invariant AllAccounted(table, m, a, BooksOf(table), ops, i)
    {
      ghost var b := BooksOf(table);
      var reply;
      reply, fatal := Perform(table, ops[i], replies);
      if fatal {
        StoppedLate(table, Replay(canon, m, ops, i), ops[i]);
        AccountedStop(table, m, a, b, BooksOf(table), ops, i);
        FreedBooks(table);
        return;
      }
      AccountedNext(table, m, a, b, BooksOf(table), ops, i);
      StepReplies(canon, Replay(canon, m, ops, i), ops[i]);
      replies := replies + [reply];
    }
    BooksClosed(table, m, a, BooksOf(table), ops);
    FreedBooks(table);
  }

  lemma FreedBooks(table: Coucal)
    ensures var b := BooksOf(table);
      b == Books(table.dupCount, table.Pool(), table.names, table.lgSize, table.edited, table.freed, table.written)
  {
  }

  lemma BooksClosed(table: Coucal, m: map<Key, Value>, a: Books, b: Books, ops: seq<Op>)
    requires AllAccounted(table, m, a, b, ops, |ops|)
    ensures var canon, n := table.handlers.canon, |ops|;
      && (table.customKeys ==> b.dupCount == a.dupCount + Additions(canon, m, ops, n))
      && (!table.customKeys ==> b.pool == Played(a.pool, AllTraffic(canon, m, a.names, ops, n)))
      && b.freed == (if table.valueFree then a.freed + AllLeft(canon, m, ops, n) else a.freed)
      && b.names == AllNamed(canon, m, a.names, ops, n)
      && a.lgSize <= b.lgSize <= a.lgSize + AllCrowds(canon, m, ops, n)
      && (NoInc(ops, n) ==> b.edited == a.edited && b.written == a.written + Writes(ops, n))
  {
  }

  /** How operation n of a run fails: it adds an entry to the map of the operations before, of
      at least eight entries, or seventeen for a collision; and the items stand for the map
      with that entry. */
  ghost predicate StoppedAt(table: Coucal, m: map<Key, Value>, ops: seq<Op>, n: nat)
    reads table, table.items, table.stash, table.buffer
    requires n < |ops|
  {
    var canon, before := table.handlers.canon, Replay(table.handlers.canon, m, ops, n);
    var after := Step(canon, before, ops[n]).m;
    && Adds(canon, before.m, ops[n]) && table.Stopped(after)
    && |before.m| >= STASH_SIZE / 2 && (table.Collision(after) ==> |before.m| > STASH_SIZE)
  }

  lemma StoppedLate(table: Coucal, before: Model, op: Op)
    requires Adds(table.handlers.canon, before.m, op)
    requires table.Stopped(Step(table.handlers.canon, before, op).m)
    ensures |before.m| >= STASH_SIZE / 2
    ensures table.Collision(Step(table.handlers.canon, before, op).m) ==> |before.m| > STASH_SIZE
  {
    hide Coucal.Collision, Coucal.Exceeded;
    var after, k := Step(table.handlers.canon, before, op).m, table.handlers.canon(op.key);
    table.StoppedSize(after);
    assert after.Keys == before.m.Keys + {k};
  }

  /** The whole life of a hashtable, from creation to deletion: it replies as an initially
      empty map does. Each non-NULL value written, if no counter is used, has been passed to
      the free handler once, and so has the key that the dup handler made for each entry added.
      It is cut short only as a run is; in a table created with more than 2^23 slots, only by
      the size limit. */
  method Lifetime(initialSize: nat, handlers: Handlers, customKeys: bool, valueFree: bool, ops: seq<Op>)
    returns (table: Coucal?, replies: seq<Reply>, fatal: bool)
    requires handlers.Lawful()
    ensures table == null <==> initialSize > Pow2(MAX_LG_SIZE)
    ensures |replies| <= |ops| && (table != null ==> (fatal <==> |replies| < |ops|))
    ensures replies == Replay(handlers.canon, map[], ops, |replies|).replies
    ensures table != null && !fatal && valueFree && NoInc(ops, |ops|) ==> table.freed == Writes(ops, |ops|)
    ensures table != null && !fatal ==>
      var last := Replay(handlers.canon, map[], ops, |ops|);
      table.freed == (if valueFree then AllLeft(handlers.canon, map[], ops, |ops|) + OwnedIn(last.m) else multiset{})
    ensures table != null && fatal && !valueFree ==> table.freed == multiset{}
    ensures table != null && !fatal && customKeys ==>
      table.dups == map[] && table.dupsFreed == table.dupCount == Additions(handlers.canon, map[], ops, |ops|)
    ensures table != null ==> table.handlers == handlers && table.customKeys == customKeys
    ensures table != null && fatal ==> StoppedAt(table, map[], ops, |replies|)
    ensures table != null && fatal && initialSize > Pow2(23) ==> table.AtLimit()
  {
    hide Coucal.Valid, Replay, Writes, Adds, Coucal.Exceeded, Collided, Pow2, Additions, StoppedAt, Coucal.Stranded;
    hide AllLeft, OwnedIn;
    table := Coucal.New(initialSize, handlers, customKeys, valueFree);
    if table == null {
      replies, fatal := [], false;
      NothingReplied(handlers.canon, ops);
    } else {
      if table.initialLg <= 23 {
        Pow2Monotonic(table.initialLg, 23);
      }
      replies, fatal := Run(table, ops);
      if fatal {
        StoppedOrLimit(table, ops, |replies|);
      } else {
        table.Delete();
      }
    }
  }

  lemma StoppedOrLimit(table: Coucal, ops: seq<Op>, n: nat)
    requires n < |ops| && StoppedAt(table, map[], ops, n)
    ensures table.AtLimit() || table.initialLg + 9 <= table.lgSize <= MAX_LG_SIZE
  {
    hide Coucal.Stranded, Coucal.Consistent, Replay;
  }

  lemma NothingReplied(canon: Key -> Key, ops: seq<Op>)
    ensures Replay(canon, map[], ops, 0).replies == []
  {
  }

  lemma StepReplies(canon: Key -> Key, model: Model, op: Op)
    ensures |Step(canon, model, op).replies| == |model.replies| + 1
  {
  }

  // ----- What holds after any run -----

  /** All the bytes that compactions ever copied are at most three times those released. */
  lemma CompactionsPaid(table: Coucal)
    requires table.Valid()
    ensures table.copied <= 3 * table.released
  {
  }

  /** So a run from an empty pool copies at most three times the bytes of the keys that it
      removes. */
  lemma RunPaid(table: Coucal, traffic: seq<PoolOp>)
    requires table.Valid() && table.Pool() == Played(NO_POOL, traffic)
    ensures table.copied <= 3 * DroppedBytes(traffic)
  {
    hide Played, DroppedBytes;
    CompactionsPaid(table);
    PlayedReleased(NO_POOL, traffic);
  }

  /** A pool that is never all dead is at least half live, and at most four times the size of
      the most bytes ever in use. */
  lemma RunPoolSize(table: Coucal, traffic: seq<PoolOp>)
    requires table.Pool() == Played(NO_POOL, traffic) && NeverAllDead(NO_POOL, traffic)
    ensures table.poolSize <= 2 * table.poolUsed + 1
    ensures table.poolCapacity <= Max(MIN_POOL_CAPACITY, 4 * Peak(NO_POOL, traffic))
  {
    hide Played, Peak;
    EmptyPlay(NO_POOL);
    DenseUntil(NO_POOL, traffic, |traffic|);
    assert traffic[..|traffic|] == traffic;
    CapacityBound(NO_POOL, traffic);
  }

  lemma EmptyPlay(p: PoolState)
    ensures Played(p, []) == p
  {
  }

  /** Writing and removing one key, n times. */
  function InTurn(key: Key, n: nat): seq<Op> {
    if n == 0 then [] else InTurn(key, n - 1) + [Write(key, 0), Remove(key)]
  }

  lemma WriteTraffic(canon: Key -> Key, ops: seq<Op>, n: nat, key: Key)
    requires key != [] && n + 2 <= |ops|
    requires ops[n] == Write(key, 0) && ops[n + 1] == Remove(key) && Replay(canon, map[], ops, n).m == map[]
    requires AllNamed(canon, map[], map[], ops, n) == map[]
    ensures Replay(canon, map[], ops, n + 2).m == map[] && AllNamed(canon, map[], map[], ops, n + 2) == map[]
    ensures AllTraffic(canon, map[], map[], ops, n + 2)
         == AllTraffic(canon, map[], map[], ops, n) + [Store(|key| + 1), Drop(|key| + 1)]
  {
    assert Replay(canon, map[], ops, n + 1).m == map[canon(key) := 0];
    assert AllNamed(canon, map[], map[], ops, n + 1) == map[canon(key) := key];
    assert AllTraffic(canon, map[], map[], ops, n + 1)
        == AllTraffic(canon, map[], map[], ops, n) + [Store(|key| + 1)];
  }

  lemma {:induction false} InTurnTraffic(canon: Key -> Key, key: Key, n: nat)
    requires key != []
    ensures |InTurn(key, n)| == 2 * n && Replay(canon, map[], InTurn(key, n), 2 * n).m == map[]
    ensures AllNamed(canon, map[], map[], InTurn(key, n), 2 * n) == map[]
    ensures AllTraffic(canon, map[], map[], InTurn(key, n), 2 * n) == Churn(|key| + 1, n)
  {
    hide Replay, AllTraffic, AllNamed;
    var ops := InTurn(key, n);
    if n == 0 {
      NothingDone(canon, ops);
    } else {
      var init := InTurn(key, n - 1);
      InTurnTraffic(canon, key, n - 1);
      ReplayPrefix(canon, map[], map[], init, ops, 2 * n - 2);
      WriteTraffic(canon, ops, 2 * n - 2, key);
    }
  }

  lemma NothingDone(canon: Key -> Key, ops: seq<Op>)
    ensures Replay(canon, map[], ops, 0).m == map[] && AllNamed(canon, map[], map[], ops, 0) == map[]
    ensures AllTraffic(canon, map[], map[], ops, 0) == []
  {
  }

  lemma {:induction false} ReplaySame(canon: Key -> Key, m: map<Key, Value>, a: seq<Op>, b: seq<Op>, n: nat)
    requires n <= |a| <= |b| && a == b[..|a|]
    ensures Replay(canon, m, a, n) == Replay(canon, m, b, n)
  {
    hide Step;
    if n > 0 {
      ReplaySame(canon, m, a, b, n - 1);
      assert a[n - 1] == b[n - 1];
    }
  }

  lemma {:induction false} ReplayPrefix(canon: Key -> Key, m: map<Key, Value>, names: map<Key, Key>,
                                        a: seq<Op>, b: seq<Op>, n: nat)
    requires n <= |a| <= |b| && a == b[..|a|]
    ensures Replay(canon, m, a, n) == Replay(canon, m, b, n)
    ensures AllNamed(canon, m, names, a, n) == AllNamed(canon, m, names, b, n)
    ensures AllTraffic(canon, m, names, a, n) == AllTraffic(canon, m, names, b, n)
  {
    hide Replay, Traffic, Named;
    ReplaySame(canon, m, a, b, n);
    if n > 0 {
      ReplayPrefix(canon, m, names, a, b, n - 1);
      assert a[n - 1] == b[n - 1];
    }
  }

  /** Before operation i of such a run, there is one entry at most. */
  lemma {:induction false} InTurnSmall(canon: Key -> Key, key: Key, n: nat, i: nat)
    requires key != [] && i <= |InTurn(key, n)|
    ensures |Replay(canon, map[], InTurn(key, n), i).m| <= 1
  {
    hide Replay, AllTraffic, AllNamed;
    var ops := InTurn(key, n);
    InTurnTraffic(canon, key, n);
    if i < 2 * n {
      var init := InTurn(key, n - 1);
      InTurnTraffic(canon, key, n - 1);
      if i <= 2 * n - 2 {
        InTurnSmall(canon, key, n - 1, i);
        ReplayPrefix(canon, map[], map[], init, ops, i);
      } else {
        ReplayPrefix(canon, map[], map[], init, ops, 2 * n - 2);
        OneWrite(canon, ops, 2 * n - 2);
      }
    }
  }

  lemma OneWrite(canon: Key -> Key, ops: seq<Op>, n: nat)
    requires n < |ops| && ops[n].Write? && Replay(canon, map[], ops, n).m == map[]
    ensures |Replay(canon, map[], ops, n + 1).m| == 1
  {
    assert Replay(canon, map[], ops, n + 1).m == map[canon(ops[n].key) := ops[n].value];
  }

  /** Writing and removing one key in turn, often enough, takes a pool of any size. */
  method Churns(table: Coucal, key: Key, n: nat)
    requires table.Valid() && table.contents == map[] && table.names == map[] && table.Pool() == NO_POOL
    requires !table.customKeys && key != []
    modifies table.Repr()
    ensures table.Valid() && table.contents == map[]
    ensures table.Pool() == Played(NO_POOL, Churn(|key| + 1, n))
  {
    hide Coucal.Valid, Played, Churn, Replay, AllTraffic, AllNamed, Coucal.Stopped, Coucal.Collision, Adds, AllLeft;
    ghost var canon := table.handlers.canon;
    var replies, fatal := Run(table, InTurn(key, n));
    if fatal {
      InTurnSmall(canon, key, n, |replies|);
      assert false;
    }
    InTurnTraffic(canon, key, n);
  }

  /** A live pooled key is a non-empty string, its NUL included, below the watermark. */
  lemma LiveKeyIsString(table: Coucal, x: Item)
    requires table.Valid() && x in table.Live() && x.name.Pooled?
    ensures var off, k := x.name.addr - table.base, StringPool.KeyAt(table.Mem(), x.name);
      0 <= off && k != [] && StringPool.Spells(table.buffer[..], off, k) && off + |k| + 1 <= table.poolSize
  {
    hide LiveOf, Represents, SlotsOk, StringPool.PoolOk;
    StringPool.PooledKey(table.Mem(), table.poolSize, table.poolUsed, table.Live(), x);
  }

  /** No two live keys share a byte of the pool, and no empty key is in it. */
  lemma LiveKeysApart(table: Coucal, x: Item, y: Item)
    requires table.Valid() && x in table.Live() && y in table.Live() && x != y
    ensures StringPool.Apart(table.Mem(), x, y)
    ensures StringPool.KeyAt(table.Mem(), x.name) == [] ==> !x.name.Pooled?
  {
    hide LiveOf, Represents, SlotsOk, StringPool.CString;
    if x.name.Pooled? {
      LiveKeyIsString(table, x);
    }
    assert !table.customKeys ==> StringPool.Apart(table.Mem(), x, y);
  }

  /** The pool holds the live keys and nothing else but what was released: `poolUsed` is what
      they take. */
  lemma PoolAccounts(table: Coucal)
    requires table.Valid()
    ensures table.poolUsed == Total(table.Live(), StringPool.Footprints(table.Mem()))
    ensures table.poolUsed <= table.poolSize <= table.poolCapacity == table.buffer.Length
  {
    hide LiveOf, Represents, SlotsOk;
    if table.customKeys {
      CustomFootprints(table.Mem(), table.Live());
    }
  }

  lemma {:induction false} CustomFootprints(mem: StringPool.Memory, live: multiset<Item>)
    requires forall x :: x in live ==> x.name.Dup?
    ensures Total(live, StringPool.Footprints(mem)) == 0
    decreases |live|
  {
    if x :| x in live {
      TotalRemove(live, x, StringPool.Footprints(mem));
      CustomFootprints(mem, live - multiset{x});
    }
  }

  /** No entry is lost or stored twice: the slots in use are as many as the entries, and fewer
      than half of the table. */
  lemma LoadBound(table: Coucal)
    requires table.Valid()
    ensures |LiveOf(table.items[..])| + table.stashSize == table.used == |table.contents|
    ensures 2 * table.used < Pow2(table.lgSize) == table.items.Length
    ensures table.stashSize <= table.stashExtent <= STASH_SIZE
    ensures table.initialLg <= table.lgSize && table.stashSize < STASH_SIZE / 2 + (table.lgSize - table.initialLg)
  {
    hide Represents, StringPool.NamesOk, StringPool.KeyAt;
    LiveOfConcat(table.items[..], table.stash[..]);
    RepresentsCount(table.handlers, table.Mem(), table.Live(), table.contents);
    SlotsScannable(table.lgSize, table.items[..], table.stash[..], table.stashSize, table.stashExtent);
  }
}
