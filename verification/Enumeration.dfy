/** Enumerating a hashtable while its entries are removed, replaced or incremented. */
module Enumeration {
  import opened Items
  import opened Contents
  import opened Slots
  import opened Hashtable
  import StringPool

  // ----- The order of an enumeration -----

  /** The first occupied location at or above index, or the number of locations. */
  ghost function Seek(layout: seq<Option<Key>>, index: nat): (r: nat)
    ensures index <= |layout| ==> index <= r <= |layout|
    ensures r < |layout| ==> layout[r].Some? && index <= r
    ensures forall i :: index <= i < r && i < |layout| ==> layout[i].None?
    ensures index >= |layout| ==> r == index
    decreases |layout| - index
  {
    if index >= |layout| || layout[index].Some? then index else Seek(layout, index + 1)
  }

  lemma {:induction false} SeekIs(layout: seq<Option<Key>>, index: nat, r: nat)
    requires index <= r
    requires forall i :: index <= i < r && i < |layout| ==> layout[i].None?
    requires if r < |layout| then layout[r].Some? else true
    ensures r < |layout| ==> Seek(layout, index) == r
    ensures r >= |layout| ==> Seek(layout, index) >= |layout|
    decreases r - index
  {
    if index < r && index < |layout| {
      SeekIs(layout, index + 1, r);
    }
  }

  // ----- A whole enumeration -----

  /** No key is at two locations. */
  ghost predicate UniqueKeys(layout: seq<Option<Key>>) {
    forall i, j :: 0 <= i < j < |layout| && layout[i].Some? ==> layout[i] != layout[j]
  }

  ghost predicate Holds(layout: seq<Option<Key>>, k: Key) {
    Some(k) in layout
  }

  /** An enumeration in progress: the keys where they are now, the cursor, the keys returned
      so far, and whether the end was reached. */
  datatype Progress = Progress(layout: seq<Option<Key>>, index: nat, visited: seq<Key>, ended: bool)

  /** coucal_enum_next. At the end, the cursor may move on, above all locations. */
  ghost predicate NextStep(a: Progress, b: Progress) {
    var at := Seek(a.layout, a.index);
    if at < |a.layout| then
      b == a.(index := at + 1, visited := a.visited + [a.layout[at].value])
    else
      b == a.(index := b.index, ended := true) && a.index <= b.index
  }

  /** An edit between two calls: a removal, or anything that moves no key. */
  ghost predicate EditStep(a: Progress, b: Progress) {
    b == a.(layout := b.layout) && (b.layout == a.layout || exists k :: Cleared(a.layout, b.layout, k))
  }

  ghost predicate AnyStep(a: Progress, b: Progress) {
    NextStep(a, b) || EditStep(a, b)
  }

  /** A run of the enumeration from its creation. */
  ghost predicate IsRun(run: seq<Progress>, layout: seq<Option<Key>>) {
    && |run| > 0 && run[0] == Progress(layout, 0, [], false)
    && forall i :: 0 < i < |run| ==> AnyStep(run[i - 1], run[i])
  }

  /** What holds at any time of a run: the keys returned are distinct, were there at the
      start, and are not ahead of the cursor; all others still there are ahead. */
  ghost predicate Sound(start: seq<Option<Key>>, p: Progress) {
    && |p.layout| == |start| && UniqueKeys(p.layout)
    && (forall i :: 0 <= i < |start| ==> p.layout[i] == start[i] || p.layout[i].None?)
    && (forall i, j :: 0 <= i < j < |p.visited| ==> p.visited[i] != p.visited[j])
    && (forall i :: 0 <= i < |p.visited| ==> Holds(start, p.visited[i]))
    && (forall i :: p.index <= i < |p.layout| && p.layout[i].Some? ==> p.layout[i].value !in p.visited)
    && (forall i :: 0 <= i < p.index && i < |p.layout| && p.layout[i].Some? ==> p.layout[i].value in p.visited)
    && (p.ended ==> forall i :: p.index <= i < |p.layout| ==> p.layout[i].None?)
  }

  lemma StepSound(start: seq<Option<Key>>, a: Progress, b: Progress)
    requires UniqueKeys(start) && Sound(start, a) && AnyStep(a, b)
    ensures Sound(start, b)
  {
    if NextStep(a, b) {
      NextSound(start, a, b);
    } else {
      EditSound(start, a, b);
    }
  }

  lemma NextSound(start: seq<Option<Key>>, a: Progress, b: Progress)
    requires UniqueKeys(start) && Sound(start, a) && NextStep(a, b)
    ensures Sound(start, b)
  {
    var at := Seek(a.layout, a.index);
    if at < |a.layout| {
      var k := a.layout[at].value;
      assert start[at] == Some(k);
      assert forall i :: 0 <= i < |a.layout| && i != at ==> a.layout[i] != Some(k);
    }
  }

  lemma EditSound(start: seq<Option<Key>>, a: Progress, b: Progress)
    requires UniqueKeys(start) && Sound(start, a) && EditStep(a, b)
    ensures Sound(start, b)
  {
    if b.layout != a.layout {
      var k :| Cleared(a.layout, b.layout, k);
      var i :| 0 <= i < |a.layout| && a.layout[i] == Some(k) && b.layout == a.layout[i := None];
    }
  }

  lemma {:induction false} RunSound(start: seq<Option<Key>>, run: seq<Progress>, n: nat)
    requires UniqueKeys(start) && IsRun(run, start) && n < |run|
    ensures Sound(start, run[n])
  {
    if n > 0 {
      RunSound(start, run, n - 1);
      assert AnyStep(run[n - 1], run[n]);
      StepSound(start, run[n - 1], run[n]);
    }
  }

  /** Whatever is removed or edited on the way, an enumeration returns no key twice, only
      keys that were there, and, once at the end, every key that is still there. */
  lemma EveryKeyOnce(start: seq<Option<Key>>, run: seq<Progress>)
    requires UniqueKeys(start) && IsRun(run, start)
    ensures var last := run[|run| - 1];
      && (forall k :: multiset(last.visited)[k] <= 1)
      && (forall k :: k in last.visited ==> Holds(start, k))
      && (last.ended ==> forall k :: Holds(last.layout, k) ==> multiset(last.visited)[k] == 1)
  {
    var last := run[|run| - 1];
    RunSound(start, run, |run| - 1);
    DistinctOnce(last.visited);
    if last.ended {
      forall k | Holds(last.layout, k)
        ensures multiset(last.visited)[k] == 1
      {
        var i :| 0 <= i < |last.layout| && last.layout[i] == Some(k);
        assert k in last.visited;
      }
    }
  }

  lemma {:induction false} DistinctOnce(s: seq<Key>)
    requires forall i, j :: 0 <= i < j < |s| ==> s[i] != s[j]
    ensures forall k :: multiset(s)[k] <= 1
  {
    if s != [] {
      var n := |s| - 1;
      DistinctOnce(s[..n]);
      assert s == s[..n] + [s[n]];
      assert s[n] !in s[..n];
    }
  }

  /** Whenever a key is returned in a run, it is there at the time of the call, and was not
      returned before. */
  lemma NeverDeletedNorAgain(start: seq<Option<Key>>, run: seq<Progress>, n: nat)
    requires UniqueKeys(start) && IsRun(run, start) && n + 1 < |run|
    ensures run[n + 1].visited == run[n].visited ||
      exists k :: run[n + 1].visited == run[n].visited + [k] && k !in run[n].visited && Holds(run[n].layout, k)
  {
    RunSound(start, run, n);
    assert AnyStep(run[n], run[n + 1]);
    var a := run[n];
    var at := Seek(a.layout, a.index);
    if NextStep(a, run[n + 1]) && at < |a.layout| {
      assert a.layout[at] in a.layout;
    }
  }

  // ----- The enumerator -----

  /** The layout of a hashtable holds each key of the map at one location. */
  lemma LayoutHolds(table: Coucal)
    requires table.Valid()
    ensures UniqueKeys(table.Layout()) && |table.Layout()| == table.items.Length + STASH_SIZE
    ensures forall k :: Holds(table.Layout(), k) <==> k in table.contents
  {
    hide StringPool.KeyAt, LiveOf, StringPool.NamesOk;
    LayoutOfContents(table.handlers, table.Mem(), table.Locs(), table.contents);
  }

  lemma LayoutOfContents(h: Handlers, mem: StringPool.Memory, locs: seq<Item>, contents: map<Key, Value>)
    requires Clean(locs) && Represents(h, mem, LiveOf(locs), contents)
    ensures UniqueKeys(LayoutOf(h, mem, locs))
    ensures forall k :: Holds(LayoutOf(h, mem, locs), k) <==> k in contents
  {
    hide StringPool.KeyAt;
    var layout := LayoutOf(h, mem, locs);
    forall i, j | 0 <= i < j < |layout| && layout[i].Some?
      ensures layout[i] != layout[j]
    {
      assert locs[i] in LiveOf(locs) && (locs[j].Live() ==> locs[j] in LiveOf(locs));
      assert SameItem(h, mem, locs[i], locs[j]) || layout[i] != layout[j];
      if layout[i] == layout[j] {
        LiveOfOnce(locs, i, j);
        assert false;
      }
    }
    forall k
      ensures Holds(layout, k) <==> k in contents
    {
      if Holds(layout, k) {
        var i :| 0 <= i < |layout| && layout[i] == Some(k);
        assert locs[i] in LiveOf(locs) && Entry(h, mem, contents, locs[i]);
      }
      if k in contents {
        assert Stored(h, mem, LiveOf(locs), k);
        var x :| x in LiveOf(locs) && MapKey(h, mem, x) == k;
        var i :| 0 <= i < |locs| && locs[i] == x;
        assert layout[i] == Some(k);
      }
    }
  }

  /** The locations of the table and of the stash. */
  lemma LayoutSlots(table: Coucal)
    requires table.Consistent()
    ensures |table.Layout()| == table.items.Length + STASH_SIZE && table.items.Length == Pow2(table.lgSize)
    ensures forall i :: 0 <= i < table.items.Length ==> (table.Layout()[i].Some? <==> table.items[i].Live())
    ensures forall i :: table.items.Length <= i < table.items.Length + STASH_SIZE ==>
      (table.Layout()[i].Some? <==> table.stash[i - table.items.Length].Live())
    ensures table.stashExtent <= STASH_SIZE == table.stash.Length
    ensures forall i :: table.stashExtent <= i < STASH_SIZE ==> !table.stash[i].Live()
  {
    hide StringPool.KeyAt, LiveOf, Represents, StringPool.NamesOk, Items.And, MapKey;
  }

  /** struct_coucal_enum. */
  class Enumerator {
    const table: Coucal
    var index: nat

    constructor (table: Coucal)
      ensures this.table == table && index == 0
    {
      this.table := table;
      index := 0;
    }

    /** coucal_enum_next: the location of the next live item; Absent is the NULL at the end. */
    method Next() returns (loc: Loc)
      requires table.Consistent()
      modifies this
      ensures var at := Seek(table.Layout(), old(index));
        if at < |table.Layout()| then
          loc != Absent && table.LocOk(loc) && table.LocIndex(loc) == at && index == at + 1
        else
          loc == Absent && index >= old(index)
    {
      hide Coucal.Consistent, Coucal.Layout, Seek;
      LayoutSlots(table);
      var hashSize := Pow2(table.lgSize);
      ghost var layout := table.Layout();
      while index < hashSize && !table.items[index].Live()
        invariant old(index) <= index
        invariant forall i :: old(index) <= i < index && i < |layout| ==> layout[i].None?
      {
        assert layout[index].None?;
        index := index + 1;
      }
      if index < hashSize {
        loc := InTable(index);
        SeekIs(layout, old(index), index);
        index := index + 1;
        return;
      }
      while index < hashSize + table.stashExtent && !table.stash[index - hashSize].Live()
        invariant old(index) <= index && hashSize <= index
        invariant forall i :: old(index) <= i < index && i < |layout| ==> layout[i].None?
      {
        assert layout[index].None?;
        index := index + 1;
      }
      if index < hashSize + table.stashExtent {
        loc := InStash(index - hashSize);
        SeekIs(layout, old(index), index);
        index := index + 1;
      } else {
        loc := Absent;
        SeekIs(layout, old(index), if index <= |layout| then |layout| else index);
      }
    }
  }

  // ----- Enumerating and editing -----

  /** An edit that is allowed during an enumeration; Change and Bump of a key without an
      entry are not made. */
  datatype Edit = Erase(key: Key) | Change(key: Key, value: Value) | Bump(key: Key, inc: Value)

  /** The map after an edit. */
  ghost function Edited(canon: Key -> Key, m: map<Key, Value>, edit: Edit): map<Key, Value> {
    var k := canon(edit.key);
    match edit
    case Erase(_) => m - {k}
    case Change(_, v) => if k in m then m[k := v] else m
    case Bump(_, inc) => if k in m then m[k := Sum(m[k], inc)] else m
  }

  /** The map after the first n edits of a list. */
  ghost function EditedBy(canon: Key -> Key, m: map<Key, Value>, edits: seq<Edit>, n: nat): map<Key, Value>
    requires n <= |edits|
  {
    if n == 0 then m else Edited(canon, EditedBy(canon, m, edits, n - 1), edits[n - 1])
  }

  /** The map after the first n lists of edits. */
  ghost function EditedInTurn(canon: Key -> Key, m: map<Key, Value>, edits: nat -> seq<Edit>, n: nat): map<Key, Value> {
    if n == 0 then m
    else EditedBy(canon, EditedInTurn(canon, m, edits, n - 1), edits(n - 1), |edits(n - 1)|)
  }

  method ApplyEdit(table: Coucal, edit: Edit)
    requires table.Valid()
    modifies table.Repr()
    ensures table.Valid() && fresh(table.Repr() - old(table.Repr()))
    ensures table.contents == Edited(table.handlers.canon, old(table.contents), edit)
    ensures table.Layout() == old(table.Layout())
         || (edit.Erase? && Cleared(old(table.Layout()), table.Layout(), table.handlers.canon(edit.key)))
  {
    hide Coucal.Consistent, Coucal.Loaded, Coucal.Accounts, Coucal.Layout, StringPool.CString, Cleared;
    hide Coucal.Collision, Coucal.Exceeded;
    var found, _ := table.ReadValue(Text(edit.key));
    match edit {
      case Erase(k) =>
        var _ := table.Remove(Text(k));
      case Change(k, v) =>
        if found {
          var _ := table.WriteValue(Text(k), v);
        }
      case Bump(k, inc) =>
        if found {
          var _, _ := table.Inc(Text(k), inc);
        }
    }
  }

  lemma RunGrows(run: seq<Progress>, layout: seq<Option<Key>>, p: Progress)
    requires IsRun(run, layout) && AnyStep(run[|run| - 1], p)
    ensures IsRun(run + [p], layout)
  {
    var run' := run + [p];
    forall i | 0 < i < |run'|
      ensures AnyStep(run'[i - 1], run'[i])
    {
      assert i < |run| ==> AnyStep(run[i - 1], run[i]);
    }
  }

  /** The last progress of a run. */
  ghost function Last(run: seq<Progress>): Progress
    requires |run| > 0
  {
    run[|run| - 1]
  }

  method ApplyEdits(table: Coucal, edits: seq<Edit>, ghost run: seq<Progress>, ghost start: seq<Option<Key>>)
    returns (ghost run': seq<Progress>)
    requires table.Valid() && IsRun(run, start) && |run| > 0 && Last(run).layout == table.Layout()
    modifies table.Repr()
    ensures table.Valid() && fresh(table.Repr() - old(table.Repr()))
    ensures IsRun(run', start) && |run'| > 0 && Last(run') == Last(run).(layout := table.Layout())
    ensures table.contents == EditedBy(table.handlers.canon, old(table.contents), edits, |edits|)
    ensures |table.Layout()| == |old(table.Layout())|
  {
    hide Coucal.Valid, Coucal.Layout, Cleared, IsRun, Edited;
    run' := run;
    for i := 0 to |edits|
      invariant table.Valid() && fresh(table.Repr() - old(table.Repr()))
      invariant IsRun(run', start) && |run'| > 0 && Last(run') == Last(run).(layout := table.Layout())
      invariant table.contents == EditedBy(table.handlers.canon, old(table.contents), edits, i)
      invariant |table.Layout()| == |old(table.Layout())|
    {
      ghost var before := table.Layout();
      ApplyEdit(table, edits[i]);
      ghost var p := Last(run').(layout := table.Layout());
      assert EditStep(Last(run'), p);
      ClearedLength(before, table.Layout());
      RunGrows(run', start, p);
      run' := run' + [p];
    }
  }

  lemma ClearedLength(before: seq<Option<Key>>, after: seq<Option<Key>>)
    requires before == after || exists k :: Cleared(before, after, k)
    ensures |before| == |after|
  {
  }

  /** One call of coucal_enum_next in an enumeration, and the key of what it returns. */
  method Visit(e: Enumerator, visited: seq<Key>, ghost run: seq<Progress>, ghost start: seq<Option<Key>>)
    returns (ended: bool, visited': seq<Key>, ghost run': seq<Progress>)
    requires e.table.Valid() && IsRun(run, start) && |run| > 0
    requires Last(run) == Progress(e.table.Layout(), e.index, visited, false)
    modifies e
    ensures IsRun(run', start) && |run'| > 0 && Last(run') == Progress(e.table.Layout(), e.index, visited', ended)
    ensures visited <= visited' && forall i :: |visited| <= i < |visited'| ==> visited'[i] in e.table.contents
    ensures |visited'| == if ended then |visited| else |visited| + 1
    ensures !ended ==> old(e.index) < e.index <= |e.table.Layout()|
  {
    hide Coucal.Consistent, Coucal.Loaded, Coucal.Accounts, Coucal.Layout, Coucal.Live, IsRun, NextStep, MapKey;
    ghost var a := Last(run);
    var loc := e.Next();
    ended, visited' := loc == Absent, visited;
    if loc != Absent {
      e.table.LocIsEntry(loc);
      visited' := visited + [MapKey(e.table.handlers, e.table.Mem(), e.table.ItemAt(loc))];
    }
    ghost var b := Progress(e.table.Layout(), e.index, visited', ended);
    NextStepIs(a, b);
    RunGrows(run, start, b);
    run' := run + [b];
  }

  /** A full enumeration, with a list of edits made before each call. Every key returned has an
      entry at that time. Every entry that is still there at the end was visited once, and no
      key was visited twice. */
  method Enumerate(table: Coucal, edits: nat -> seq<Edit>) returns (visited: seq<Key>)
    requires table.Valid()
    modifies table.Repr()
    ensures table.Valid()
    ensures table.contents == EditedInTurn(table.handlers.canon, old(table.contents), edits, |visited| + 1)
    ensures fresh(table.Repr() - old(table.Repr()))
    ensures forall i :: 0 <= i < |visited| ==>
      visited[i] in EditedInTurn(table.handlers.canon, old(table.contents), edits, i + 1)
    ensures forall k :: k in table.contents ==> multiset(visited)[k] == 1
    ensures forall k :: k in visited ==> k in old(table.contents) && multiset(visited)[k] == 1
  {
    hide Coucal.Valid, Coucal.Layout, IsRun, EditedBy, EditedInTurn, UniqueKeys, Holds;
    visited := [];
    ghost var start, calls := table.Layout(), 0;
    LayoutHolds(table);
    var e := new Enumerator(table);
    ghost var run := [Progress(start, 0, [], false)];
    RunStarts(start);
    EditedNext(table.handlers.canon, table.contents, edits, 0);
    var ended := false;
    while !ended
      invariant table.Valid() && fresh(table.Repr() - old(table.Repr())) && e !in table.Repr() && e.table == table
      invariant IsRun(run, start) && |run| > 0
      invariant Last(run) == Progress(table.Layout(), e.index, visited, ended)
      invariant |table.Layout()| == |start| && (!ended ==> e.index <= |start|)
      invariant calls == if ended then |visited| + 1 else |visited|
      invariant forall i :: 0 <= i < |visited| ==>
        visited[i] in EditedInTurn(table.handlers.canon, old(table.contents), edits, i + 1)
      invariant table.contents == EditedInTurn(table.handlers.canon, old(table.contents), edits, calls)
      decreases !ended, |start| - e.index
    {
      run := ApplyEdits(table, edits(|visited|), run, start);
      EditedNext(table.handlers.canon, old(table.contents), edits, calls);
      calls := calls + 1;
      ended, visited, run := Visit(e, visited, run, start);
    }
    LayoutHolds(table);
    AllVisited(start, run, old(table.contents), table.contents);
  }

  lemma EditedNext(canon: Key -> Key, m: map<Key, Value>, edits: nat -> seq<Edit>, n: nat)
    ensures EditedInTurn(canon, m, edits, 0) == m
    ensures EditedInTurn(canon, m, edits, n + 1)
         == EditedBy(canon, EditedInTurn(canon, m, edits, n), edits(n), |edits(n)|)
  {
  }

  /** A run to the end, in terms of the maps before and after. */
  lemma AllVisited(start: seq<Option<Key>>, run: seq<Progress>, before: map<Key, Value>, after: map<Key, Value>)
    requires UniqueKeys(start) && IsRun(run, start) && |run| > 0 && Last(run).ended
    requires forall k :: Holds(start, k) <==> k in before
    requires forall k :: Holds(Last(run).layout, k) <==> k in after
    ensures forall k :: k in after ==> multiset(Last(run).visited)[k] == 1
    ensures forall k :: k in Last(run).visited ==> k in before && multiset(Last(run).visited)[k] == 1
  {
    hide UniqueKeys, Holds, IsRun;
    EveryKeyOnce(start, run);
  }

  lemma RunStarts(start: seq<Option<Key>>)
    ensures IsRun([Progress(start, 0, [], false)], start)
  {
  }

  lemma NextStepIs(a: Progress, b: Progress)
    requires var at := Seek(a.layout, a.index);
      if at < |a.layout| then
        b == a.(index := at + 1, visited := a.visited + [a.layout[at].value])
      else
        b == a.(index := b.index, ended := true) && a.index <= b.index
    ensures NextStep(a, b)
  {
  }
}
