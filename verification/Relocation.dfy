/** Moving the pool: copying it elsewhere as it is, or compacting it. */
module Relocation {
  import opened Items
  import opened StringPool
  import opened Contents

  // ----- realloc -----

  /** The name of the same string, in a buffer that moved from base to base'. */
  function Rebase(base: nat, base': nat, x: Item): Item {
    if x.name.Pooled? && x.name.addr >= base then x.(name := Pooled(x.name.addr - base + base')) else x
  }

  ghost function Rebased(base: nat, base': nat, locs: seq<Item>): seq<Item> {
    seq(|locs|, i requires 0 <= i < |locs| => Rebase(base, base', locs[i]))
  }

  lemma RebasePooled(mem: Memory, mem': Memory, size: nat, used: nat, live: multiset<Item>, x: Item)
    requires PoolOk(mem, size, used, live) && x in live && x.name.Pooled?
    requires size <= |mem'.bytes| && mem'.bytes[..size] == mem.bytes[..size]
    ensures var x' := Rebase(mem.base, mem'.base, x);
      KeyAt(mem', x'.name) == KeyAt(mem, x.name) && InPool(mem', size, x'.name.addr)
  {
    PooledKey(mem, size, used, live, x);
    var off, n := x.name.addr - mem.base, Footprint(mem, x);
    SliceOfPrefix(mem'.bytes, mem.bytes, size, off, off + n);
    CStringMoved(mem.bytes, off, mem'.bytes, off, KeyAt(mem, x.name));
    assert mem'.bytes[off] == mem'.bytes[off..off + n][0] == mem.bytes[off..off + n][0];
  }

  lemma RebaseSlot(mem: Memory, mem': Memory, size: nat, used: nat, locs: seq<Item>, i: nat)
    requires Clean(locs) && PoolOk(mem, size, used, LiveOf(locs))
    requires size <= |mem'.bytes| && mem'.bytes[..size] == mem.bytes[..size]
    requires i < |locs|
    ensures var x' := Rebase(mem.base, mem'.base, locs[i]);
      && RenamedSlot(mem, mem', locs[i], x')
      && (locs[i].name.Pooled? ==> InPool(mem', size, x'.name.addr))
  {
    assert locs[i].Live() ==> locs[i] in LiveOf(locs);
    if locs[i].name.Pooled? {
      RebasePooled(mem, mem', size, used, LiveOf(locs), locs[i]);
    }
  }

  lemma RebaseApart(mem: Memory, mem': Memory, size: nat, x: Item, y: Item)
    requires Apart(mem, x, y)
    requires x.name.Pooled? ==> InPool(mem, size, x.name.addr)
    requires y.name.Pooled? ==> InPool(mem, size, y.name.addr)
    requires RenamedSlot(mem, mem', x, Rebase(mem.base, mem'.base, x))
    requires RenamedSlot(mem, mem', y, Rebase(mem.base, mem'.base, y))
    ensures Apart(mem', Rebase(mem.base, mem'.base, x), Rebase(mem.base, mem'.base, y))
  {
  }

  lemma RebaseRenamed(mem: Memory, mem': Memory, size: nat, used: nat, locs: seq<Item>)
    requires Clean(locs) && PoolOk(mem, size, used, LiveOf(locs))
    requires size <= |mem'.bytes| && mem'.bytes[..size] == mem.bytes[..size]
    ensures Renamed(mem, mem', locs, Rebased(mem.base, mem'.base, locs))
    ensures AllInPool(mem', size, locs, Rebased(mem.base, mem'.base, locs))
  {
    forall i | 0 <= i < |locs|
      ensures var x' := Rebase(mem.base, mem'.base, locs[i]);
        && RenamedSlot(mem, mem', locs[i], x')
        && (locs[i].name.Pooled? ==> InPool(mem', size, x'.name.addr))
    {
      RebaseSlot(mem, mem', size, used, locs, i);
    }
  }

  lemma RebaseAllApart(mem: Memory, mem': Memory, size: nat, used: nat, locs: seq<Item>)
    requires Clean(locs) && PoolOk(mem, size, used, LiveOf(locs))
    requires Renamed(mem, mem', locs, Rebased(mem.base, mem'.base, locs))
    ensures AllApart(mem', LiveOf(Rebased(mem.base, mem'.base, locs)))
  {
    var locs' := Rebased(mem.base, mem'.base, locs);
    forall x, y {:trigger Apart(mem', x, y)} | x in LiveOf(locs') && y in LiveOf(locs') && x != y
      ensures Apart(mem', x, y)
    {
      var i := RenamedFrom(mem, mem', locs, locs', x);
      var j := RenamedFrom(mem, mem', locs, locs', y);
      assert Apart(mem, locs[i], locs[j]);
      RebaseApart(mem, mem', size, locs[i], locs[j]);
    }
  }

  /** A buffer with the same bytes at another address, and names moved along. */
  lemma RebaseSound(mem: Memory, mem': Memory, size: nat, used: nat, locs: seq<Item>)
    requires Clean(locs) && PoolOk(mem, size, used, LiveOf(locs))
    requires Bounded(mem', size) && mem'.bytes[..size] == mem.bytes[..size]
    ensures var locs' := Rebased(mem.base, mem'.base, locs);
      Renamed(mem, mem', locs, locs') && PoolOk(mem', size, used, LiveOf(locs'))
  {
    RebaseRenamed(mem, mem', size, used, locs);
    RebaseAllApart(mem, mem', size, used, locs);
    RenamedPool(mem, mem', size, used, locs, Rebased(mem.base, mem'.base, locs), size);
  }

  /** Slots that held pooled names still do. */
  ghost predicate AllInPool(mem': Memory, size': nat, locs: seq<Item>, locs': seq<Item>) {
    && |locs'| == |locs|
    && (forall i :: 0 <= i < |locs| && !locs[i].name.Pooled? ==> locs'[i] == locs[i])
    && forall i :: 0 <= i < |locs| && locs[i].name.Pooled? ==>
         locs'[i].name.Pooled? && InPool(mem', size', locs'[i].name.addr)
  }

  lemma RenamedFootprints(mem: Memory, mem': Memory, locs: seq<Item>, locs': seq<Item>)
    requires Renamed(mem, mem', locs, locs')
    requires forall i :: 0 <= i < |locs| ==> (locs'[i].name.Pooled? <==> locs[i].name.Pooled?)
    ensures Total(LiveOf(locs'), Footprints(mem')) == Total(LiveOf(locs), Footprints(mem))
  {
    var f, g := Footprints(mem), Footprints(mem');
    forall i | 0 <= i < |locs|
      ensures f(locs[i]) == g(locs'[i])
    {
      assert RenamedSlot(mem, mem', locs[i], locs'[i]);
    }
    SlotSumAgree(locs, locs', f, g);
    SlotSumTotal(locs, f);
    SlotSumTotal(locs', g);
  }

  lemma RenamedPool(mem: Memory, mem': Memory, size: nat, used: nat, locs: seq<Item>, locs': seq<Item>,
                    size': nat)
    requires Clean(locs) && Renamed(mem, mem', locs, locs') && PoolOk(mem, size, used, LiveOf(locs))
    requires AllInPool(mem', size', locs, locs') && AllApart(mem', LiveOf(locs'))
    requires used <= size' && Bounded(mem', size')
    ensures PoolOk(mem', size', used, LiveOf(locs'))
  {
    RenamedFootprints(mem, mem', locs, locs');
    forall x | x in LiveOf(locs')
      ensures x.name.Shared? || (x.name.Pooled? && InPool(mem', size', x.name.addr))
    {
      var i := RenamedFrom(mem, mem', locs, locs', x);
    }
  }

  /** The relocation loops of a realloc that moved the buffer. */
  lemma RebasedParts(base: nat, base': nat, items: seq<Item>, stash: seq<Item>, extent: nat,
                     items': seq<Item>, stash': seq<Item>)
    requires |items'| == |items| && |stash'| == |stash| && extent <= |stash|
    requires forall j :: 0 <= j < |items| ==> items'[j] == Rebase(base, base', items[j])
    requires forall j :: 0 <= j < extent ==> stash'[j] == Rebase(base, base', stash[j])
    requires forall j :: extent <= j < |stash| ==> stash'[j] == stash[j] && !stash[j].Live()
    ensures items' + stash' == Rebased(base, base', items + stash)
  {
  }

  lemma RebasedInPlace(base: nat, locs: seq<Item>)
    ensures Rebased(base, base, locs) == locs
  {
  }

  // ----- Compaction -----

  /** A pooled name is an address in the buffer of a non-empty, terminated string. */
  ghost predicate Spelled(mem: Memory, x: Item) {
    x.name.Pooled? ==>
      && mem.base <= x.name.addr && KeyAt(mem, x.name) != []
      && Spells(mem.bytes, x.name.addr - mem.base, KeyAt(mem, x.name))
  }

  ghost predicate AllSpelled(mem: Memory, locs: seq<Item>) {
    forall i {:trigger Spelled(mem, locs[i])} :: 0 <= i < |locs| ==> Spelled(mem, locs[i])
  }

  lemma PoolSpelled(mem: Memory, size: nat, used: nat, locs: seq<Item>)
    requires Clean(locs) && PoolOk(mem, size, used, LiveOf(locs))
    ensures AllSpelled(mem, locs)
  {
    forall i {:trigger Spelled(mem, locs[i])} | 0 <= i < |locs|
      ensures Spelled(mem, locs[i])
    {
      if locs[i].name.Pooled? {
        assert locs[i] in LiveOf(locs);
        PooledKey(mem, size, used, LiveOf(locs), locs[i]);
      }
    }
  }

  /** What an item adds to a compacted pool. */
  ghost function Bytes(mem: Memory, x: Item): (r: seq<Byte>)
    ensures |r| == Footprint(mem, x)
  {
    if x.name.Pooled? then KeyAt(mem, x.name) + [0] else []
  }

  /** The compacted pool for the first n slots: the live strings one after the other. */
  ghost function Packed(mem: Memory, locs: seq<Item>, n: nat): seq<Byte>
    requires n <= |locs|
  {
    if n == 0 then [] else Packed(mem, locs, n - 1) + Bytes(mem, locs[n - 1])
  }

  function RelocateTo(x: Item, addr: nat): Item {
    if x.name.Pooled? then x.(name := Pooled(addr)) else x
  }

  ghost function Relocate(mem: Memory, base': nat, locs: seq<Item>, i: nat): Item
    requires i < |locs|
  {
    RelocateTo(locs[i], base' + |Packed(mem, locs, i)|)
  }

  ghost function Relocated(mem: Memory, base': nat, locs: seq<Item>): seq<Item> {
    seq(|locs|, i requires 0 <= i < |locs| => Relocate(mem, base', locs, i))
  }

  /** The two relocation loops together: those over the table, and over the stash up to its
      extent, above which all slots are free. */
  lemma RelocatedParts(mem: Memory, base': nat, items: seq<Item>, stash: seq<Item>, extent: nat,
                       items': seq<Item>, stash': seq<Item>)
    requires |items'| == |items| && |stash'| == |stash| && extent <= |stash|
    requires forall j :: 0 <= j < |items| ==> items'[j] == Relocate(mem, base', items + stash, 0 + j)
    requires forall j :: 0 <= j < extent ==> stash'[j] == Relocate(mem, base', items + stash, |items| + j)
    requires forall j :: extent <= j < |stash| ==> stash'[j] == stash[j] && !stash[j].Live()
    ensures items' + stash' == Relocated(mem, base', items + stash)
  {
    hide Packed;
    var locs, locs' := items + stash, items' + stash';
    forall j | 0 <= j < |locs|
      ensures locs'[j] == Relocate(mem, base', locs, j)
    {
      if j < |items| {
        assert items'[j] == Relocate(mem, base', locs, 0 + j);
      } else {
        var i := j - |items|;
        assert i < extent ==> stash'[i] == Relocate(mem, base', locs, |items| + i);
      }
    }
  }

  lemma {:induction false} PackedLength(mem: Memory, locs: seq<Item>, n: nat)
    requires n <= |locs|
    ensures |Packed(mem, locs, n)| == SlotSum(locs[..n], Footprints(mem))
  {
    hide KeyAt, Footprint, Bytes;
    if n > 0 {
      PackedLength(mem, locs, n - 1);
      assert locs[..n][..n - 1] == locs[..n - 1];
    }
  }

  lemma PackedStep(mem: Memory, locs: seq<Item>, i: nat)
    requires i < |locs|
    ensures Packed(mem, locs, i + 1) == Packed(mem, locs, i) + Bytes(mem, locs[i])
    ensures |Packed(mem, locs, i)| + Footprint(mem, locs[i]) <= |Packed(mem, locs, |locs|)|
  {
    PackedPrefix(mem, locs, i + 1, |locs|);
  }

  lemma PackedNothing(mem: Memory, locs: seq<Item>)
    ensures Packed(mem, locs, 0) == []
  {
  }

  /** Free slots add nothing. */
  lemma {:induction false} PackedFree(mem: Memory, locs: seq<Item>, n: nat)
    requires n <= |locs| && forall i :: n <= i < |locs| ==> !locs[i].Live()
    ensures Packed(mem, locs, |locs|) == Packed(mem, locs, n)
    decreases |locs| - n
  {
    if n < |locs| {
      PackedFree(mem, locs, n + 1);
      assert Bytes(mem, locs[n]) == [];
      assert Packed(mem, locs, n + 1) == Packed(mem, locs, n) + [];
    }
  }

  lemma {:induction false} PackedPrefix(mem: Memory, locs: seq<Item>, i: nat, j: nat)
    requires i <= j <= |locs|
    ensures Packed(mem, locs, i) <= Packed(mem, locs, j)
    decreases j - i
  {
    hide Bytes, KeyAt;
    if i < j {
      PackedPrefix(mem, locs, i, j - 1);
      var a, b, c := Packed(mem, locs, i), Packed(mem, locs, j - 1), Bytes(mem, locs[j - 1]);
      assert Packed(mem, locs, j) == b + c;
      assert a <= b + c;
    }
  }

  lemma {:induction false} PackedEnds(mem: Memory, locs: seq<Item>, n: nat)
    requires n <= |locs|
    ensures var p := Packed(mem, locs, n); |p| > 0 ==> p[|p| - 1] == 0
  {
    if n > 0 {
      PackedEnds(mem, locs, n - 1);
    }
  }

  /** Each live string is found in the compacted pool where its item now points. */
  lemma PackedKey(mem: Memory, bytes': seq<Byte>, locs: seq<Item>, i: nat)
    requires i < |locs| && locs[i].name.Pooled? && Packed(mem, locs, |locs|) <= bytes'
    ensures var off, k := |Packed(mem, locs, i)|, KeyAt(mem, locs[i].name);
      && off + |k| + 1 <= |Packed(mem, locs, |locs|)| <= |bytes'|
      && CString(bytes', off) == k && (k != [] ==> bytes'[off] != 0)
  {
    var off, k := |Packed(mem, locs, i)|, KeyAt(mem, locs[i].name);
    PackedPrefix(mem, locs, i + 1, |locs|);
    assert bytes'[off..off + |k| + 1] == Packed(mem, locs, i + 1)[off..];
    SpellsSlice(bytes', off, k);
    CStringIs(bytes', off, k);
  }

  lemma RelocatePooled(mem: Memory, mem': Memory, locs: seq<Item>, i: nat)
    requires i < |locs| && locs[i].name.Pooled? && KeyAt(mem, locs[i].name) != []
    requires Packed(mem, locs, |locs|) <= mem'.bytes
    ensures var x' := Relocate(mem, mem'.base, locs, i);
      && KeyAt(mem', x'.name) == KeyAt(mem, locs[i].name)
      && InPool(mem', |Packed(mem, locs, |locs|)|, x'.name.addr)
  {
    hide Packed, CString;
    PackedKey(mem, mem'.bytes, locs, i);
    var off := |Packed(mem, locs, i)|;
    assert Relocate(mem, mem'.base, locs, i).name == Pooled(mem'.base + off);
    assert KeyAt(mem', Pooled(mem'.base + off)) == CString(mem'.bytes, off);
  }

  lemma RelocateSlot(mem: Memory, mem': Memory, size: nat, used: nat, locs: seq<Item>, i: nat)
    requires Clean(locs) && PoolOk(mem, size, used, LiveOf(locs))
    requires i < |locs| && Packed(mem, locs, |locs|) <= mem'.bytes && mem'.dups == mem.dups
    ensures var x' := Relocate(mem, mem'.base, locs, i);
      && RenamedSlot(mem, mem', locs[i], x')
      && (locs[i].name.Pooled? ==> InPool(mem', |Packed(mem, locs, |locs|)|, x'.name.addr))
  {
    if locs[i].Live() {
      assert locs[i] in LiveOf(locs);
      if locs[i].name.Pooled? {
        PooledKey(mem, size, used, LiveOf(locs), locs[i]);
        RelocatePooled(mem, mem', locs, i);
      }
    }
  }

  lemma RelocatedRenamed(mem: Memory, mem': Memory, size: nat, used: nat, locs: seq<Item>)
    requires Clean(locs) && PoolOk(mem, size, used, LiveOf(locs))
    requires mem'.dups == mem.dups && Packed(mem, locs, |locs|) <= mem'.bytes
    ensures Renamed(mem, mem', locs, Relocated(mem, mem'.base, locs))
    ensures AllInPool(mem', |Packed(mem, locs, |locs|)|, locs, Relocated(mem, mem'.base, locs))
  {
    hide Packed, KeyAt;
    forall i | 0 <= i < |locs|
      ensures var x' := Relocate(mem, mem'.base, locs, i);
        && RenamedSlot(mem, mem', locs[i], x')
        && (locs[i].name.Pooled? ==> InPool(mem', |Packed(mem, locs, |locs|)|, x'.name.addr))
    {
      RelocateSlot(mem, mem', size, used, locs, i);
    }
  }

  lemma RelocatedAllApart(mem: Memory, mem': Memory, locs: seq<Item>)
    requires Clean(locs) && Renamed(mem, mem', locs, Relocated(mem, mem'.base, locs))
    ensures AllApart(mem', LiveOf(Relocated(mem, mem'.base, locs)))
  {
    hide Packed, KeyAt;
    var locs' := Relocated(mem, mem'.base, locs);
    forall x, y {:trigger Apart(mem', x, y)} | x in LiveOf(locs') && y in LiveOf(locs') && x != y
      ensures Apart(mem', x, y)
    {
      var i := RenamedFrom(mem, mem', locs, locs', x);
      var j := RenamedFrom(mem, mem', locs, locs', y);
      if i < j {
        RelocatedApart(mem, mem', locs, i, j);
      } else {
        RelocatedApart(mem, mem', locs, j, i);
      }
    }
  }

  /** The compacted pool is as long as all the live strings together. */
  lemma PackedUsed(mem: Memory, size: nat, used: nat, locs: seq<Item>)
    requires PoolOk(mem, size, used, LiveOf(locs))
    ensures |Packed(mem, locs, |locs|)| == used
  {
    PackedLength(mem, locs, |locs|);
    assert locs[..|locs|] == locs;
    SlotSumTotal(locs, Footprints(mem));
  }

  /** Compaction keeps the content of every live key, gives the keys disjoint ranges, and
      leaves no hole: the strings fill the pool up to the high watermark. */
  lemma CompactionSound(mem: Memory, mem': Memory, size: nat, used: nat, locs: seq<Item>)
    requires Clean(locs) && PoolOk(mem, size, used, LiveOf(locs))
    requires mem'.dups == mem.dups && Packed(mem, locs, |locs|) <= mem'.bytes
    ensures |Packed(mem, locs, |locs|)| == used
    ensures var locs' := Relocated(mem, mem'.base, locs);
      Renamed(mem, mem', locs, locs') && PoolOk(mem', used, used, LiveOf(locs'))
  {
    hide Packed, KeyAt, Bytes, Renamed;
    PackedUsed(mem, size, used, locs);
    RelocatedRenamed(mem, mem', size, used, locs);
    RelocatedAllApart(mem, mem', locs);
    PackedEnds(mem, locs, |locs|);
    RenamedPool(mem, mem', size, used, locs, Relocated(mem, mem'.base, locs), used);
  }

  lemma RelocatedApart(mem: Memory, mem': Memory, locs: seq<Item>, i: nat, j: nat)
    requires i < j < |locs| && RenamedSlot(mem, mem', locs[i], Relocate(mem, mem'.base, locs, i))
    ensures var x, y := Relocate(mem, mem'.base, locs, i), Relocate(mem, mem'.base, locs, j);
      x.name.Pooled? && y.name.Pooled? ==> x.name.addr + Footprint(mem', x) <= y.name.addr
  {
    PackedPrefix(mem, locs, i + 1, j);
  }
}
