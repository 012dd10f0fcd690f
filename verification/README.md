# A model of the coucal hashtable

The project models coucal, a C hashtable from strings to values, and proves that it is a finite map.
The table is an array of 2^n slots in which each item sits at one of two positions given by its two
hashes. An item that cannot be placed by kicking others around goes to a stash of 16 entries. Keys live
as NUL-terminated strings in one pool buffer that is grown, compacted and shrunk while the items point
into it. Entries can be enumerated while others are removed, replaced or incremented.

| file | contents |
|---|---|
| `Items.dfy` | keys, hashes, names, items; multisets of live items and sums over them |
| `Cuckoo.dfy` | the displacement walk as a function, what it conserves, walks in a full set of slots |
| `Trails.dfy` | where the walk goes, read off the table before it starts; why its budget is enough |
| `Rounds.dfy` | how often the walk places an item |
| `Placement.dfy` | exactly when an item has room, and when the code stashes one that has |
| `StringPool.dfy` | C strings in the pool, its invariant, storing and releasing a key |
| `PoolSize.dfy` | the sizes of the pool under any sequence of keys stored and released: when it stays dense, how large it gets |
| `Relocation.dfy` | moving and compacting the pool |
| `Contents.dfy` | the finite map that the live items stand for, lookups, ownership of the values |
| `Slots.dfy` | table and stash together: stashing, draining, doubling, merging, holes |
| `Hashtable.dfy` | class `Coucal`: the state of the hashtable and the operations that update it in place |
| `Runs.dfy` | runs of operations against the same runs on a finite map, and a whole lifetime |
| `Enumeration.dfy` | enumerations during which entries are edited |
| `Murmur.dfy` | MurmurHash3_x86_128 against a fold over zero-padded blocks |

How the C code is read:

- The invariant is `Coucal.Valid`; its ghost field `contents` is the map, and `names` gives the key that
  each entry was first written with. Ghost fields also count the
  bytes copied and released, the values written and freed, and the dup'd keys given back. They are tied
  to the real fields by the invariant or by the contract of the method that changes them.
- The hash and the comparison of keys are handlers given at construction. The comparison is given by a
  canonical form: two keys are equal when they have the same one (the identity for strcmp). All results
  hold for all hashes, `hash1 == hash2` and equal positions included, provided that equal keys have
  equal hashes (`Handlers.Lawful`). Hashes have 32 bits (COUCAL_HASH_SIZE).
- A name is NULL, the shared empty string, an address in the pool, or a pointer made by a dup handler.
  malloc and realloc return an arbitrary address; strings of the caller's are never at an address of
  the pool, and an address of the pool given as a key is that of a live key, of the tail of one, or of
  a dead one.
- Values are 64-bit words, 0 being the NULL pointer.
- The two fatal assertions that a correct caller can hit, a stash collision and the size limit, are
  results of their own (`StashCollision`, `TooLarge`). All other assertions of the modelled code about
  its own state appear as `assert` or are implied by the checks on array indices, and cannot fail.
- Code that the source repeats is one method: the search (`Find`), the loop that lowers the extent of
  the stash (`TrimStash`). The macros RELOCATE_STRING and RECOMPUTE_STRING are methods. A pool buffer
  that is NULL is an empty array.

Four places where the code does not do what a comment says, or would lead to expect; the model follows the code:

- `coucal_inc` and `coucal_dec` are documented to return the new value (coucal.h:461-473) but cast it
  to int. `Increment` and `Decrement` state for which entries they do; `IncOfLargest` is an entry for
  which they do not.
- The walk gives up when it meets the initial hash again, which need not mean that it is looping (the
  source has a note about it, coucal.c:1055). `EarlyBreakGivesUp` is a table on which an item is
  stashed although it has room, and `EarlyBreakReached` is how that table comes about. The predicate
  `CutShort` on the table and the item, which does not mention the walk, says exactly when this
  happens: both home slots are occupied, the trail of other positions from the first one closes, the
  full hash that leads back to its start is the item's first one, and the trail from the second home
  slot gets to a free slot.
- The pool is said to be compacted from time to time (coucal.h:53-54). What that copies is bounded
  (`RunPaid`), but not the pool: one whose last live key is released is not compacted (coucal.c:811),
  and growth picks the new capacity before it compacts (coucal.c:767-770). One key written and removed
  in turn makes it larger than any bound (`ChurnGrows`); `RunPoolSize` bounds the pool of every run in
  which it is never all dead.
- `coucal_realloc_pool` is said not to change the capacity (coucal.c:663); it does.

## Model

| member | source | states |
|---|---|---|
| Cuckoo.WalkConserves | coucal.c:1010-1061 | every step of the walk keeps the multiset of table items plus the item in hand, keeps each table item at one of its two positions, and never frees a slot |
| Cuckoo.AddConserves | coucal.c:982-1061 | adding an item adds that item to table and hand together and loses or duplicates none, with or without the early break |
| Cuckoo.KickedOn | coucal.c:1036-1049 | an item kicked from one of its positions goes on to the other, from its first one by its second hash |
| Cuckoo.CrowdedWalk | coucal.c:1010-1061 | a walk in a closed set of full slots never leaves it, whatever the number of loops |
| Trails.NoRoom | coucal.c:1010-1061 | when neither the trail from the first position nor the one from the second gets to a free slot, a closed set of full slots holds both positions of the item |
| Trails.Forward | coucal.c:1010-1061 | on a path of distinct slots where each item leads to the next, the walk moves every item on by one; it ends in the table at a free last slot, and otherwise goes on, or breaks, with the item of the last slot |
| Trails.Unwind | coucal.c:1010-1061 | back at a slot of its trail, the walk moves every item before it back by one, then goes on with the first item to its second position; it breaks exactly at the hash that leads back to the start or when that item's two hashes are equal |
| Trails.OffTheTrail | coucal.c:1010-1061 | after that, all items off the trail and all before the slot it came back to are where they were |
| Trails.Closing | coucal.c:1010-1061 | on a trail that closes, the walk breaks exactly when the full hash that leads back to its start, or the item's second one, is the initial one; otherwise it reaches the second position with the table unchanged off the trail |
| Trails.SecondWalk | coucal.c:1010-1061 | a second trail that gets to a free slot without meeting the first: the walk moves every item on it by one and ends in that slot |
| Trails.TrailsFit | coucal.c:1010-1011 | below half load, both trails and the way back fit in 2^lg_size loops |
| Trails.AddJustified | coucal.c:1010-1082 | below half load, an item is placed if and only if a trail is free and the walk is not cut short, both read off the table beforehand; an item left in hand has both slots occupied, and a set of slots is overcrowded unless the walk was cut short |
| Rounds.PlacedTwiceAtMost | coucal.c:1010-1061 | a walk that ends at a free slot places no item more than twice |
| Placement.CrowdedUnplaceable | coucal.c:1063-1082 | an item in hand over a closed full set fits in no arrangement of the table whatsoever |
| Placement.PlacedIffPlaceable | coucal.c:982-1061 | some arrangement has room for the item if and only if one of its trails is free; the code places it exactly in these cases but for those, told from the table beforehand, in which the early break cuts the walk short; running out of loops means that no arrangement has room |
| Placement.EarlyBreakGivesUp | coucal.c:1054-1059 | a table of 16 slots with two items in which the early break stashes an item that has room |
| Placement.EarlyBreakReached | coucal.c:1054-1059 | adding two items to an empty table gives that table |
| Items.LowBitsMask | coucal.c:833-837 | the low bits of a hash are its bitwise and with the mask 2^n - 1 |
| Items.LowBitsRemainder | coucal.c:833-837 | the low bits are the remainder modulo 2^n |
| Items.PosRemainder | coucal.c:833-842 | a position is the hash modulo the size of the table |
| Items.PosDoubled | coucal.c:1246-1252 | under a mask with one more bit, a position stays or moves up by the old size |
| Slots.StashSizeBound | coucal.c:1063-1072 | live entries are at most as many as the slots below the extent, and as many when there is no hole |
| Slots.EmptyStash | coucal.c:945-957 | a stash of size 0 has extent 0, so testing the size is enough to skip the scan |
| Slots.StashPut | coucal.c:1063-1074 | with fewer than 16 live entries, the first hole or the slot at the extent is a valid place, and taking it keeps the stash invariant |
| Slots.AddLive | coucal.c:982-1082 | whichever way an item is added, table and stash together hold exactly that item more |
| Slots.AddBlocked | coucal.c:1010-1082 | if every stashed item had both slots occupied, so it is after adding an item |
| Slots.AddCollides | coucal.c:1063-1144 | when an item fits neither in the table nor in the stash, table, stash and hand together hold the old items and the new one, and if every stashed item was blocked, all 16 entries and the item in hand are |
| Slots.CollidedLive | coucal.c:1063-1144 | a stash collision takes more than 16 live items, whatever the hash |
| Slots.BlockedLive | coucal.c:1197-1198 | half a stash of blocked entries takes more than 8 live items |
| Slots.AddAlike | coucal.c:982-1061 | where an item goes and what is left in hand depends only on the hashes and on which slots are free, not on names or values |
| Slots.PlacedIff | coucal.c:982-1061 | an item goes in the table exactly when one of its trails is free and the walk is not cut short |
| Slots.EntryRemoved | coucal.c:901-913 | clearing a slot, with keys moved around, removes that entry of the map, its stored key and that location only |
| Slots.DrainStep | coucal.c:1156-1172 | moving a stashed item to a free home slot keeps the live items and the invariants |
| Slots.SplitStep | coucal.c:1242-1265 | when the item of slot i is moved, its destination is i plus the old size and is free, though the array is being scanned and changed |
| Slots.SplitHome | coucal.c:1238-1269 | once all slots are split, every item is at one of its positions under the new mask |
| Slots.SplitFound | coucal.c:1238-1269 | an item at its first position is at its first position in the doubled table, any other at its second |
| Slots.ExplainedStep | coucal.c:1288-1298 | an entry left in the stash by the merge can only live in slots that more live items than there are of them are bound to, or was left by a walk that was cut short |
| Slots.RegrownAlike | coucal.c:1225-1301 | doubling and merging depends only on hashes and free slots |
| Slots.MergeRoom | coucal.c:1288-1298 | before each entry of the merge is added, there is room for it in the stash, and less load than before in the table |
| Slots.MergeStep | coucal.c:1288-1298 | what was added plus what is still to add are the live items of before |
| Slots.MergeDone | coucal.c:1301 | after the merge all live items are there, and the stash is not larger |
| Slots.RemovedFromStash | coucal.c:1429-1443 | a removal from the stash leaves a sound table, and a stash that is sound but for its extent, even when the pool was compacted |
| StringPool.CStringEnds | coucal.c:734-738 | a string that starts at or before a NUL ends there at the latest |
| StringPool.PooledKey | coucal.c:734-785 | a live pooled key is not empty and ends, NUL included, below the watermark |
| StringPool.AppendKeepsKeys | coucal.c:773-778 | appending a string changes no live key |
| StringPool.AppendedName | coucal.c:773-778 | it gives a name for exactly that string, above all live keys |
| StringPool.NewNameJoins | coucal.c:964-970 | an item with a new name joins the live ones, and `pool.used` grows by its length plus one |
| StringPool.ReleaseKeepsKeys | coucal.c:806-808 | emptying a released key changes no other key |
| StringPool.NameFreed | coucal.c:797-831 | releasing a name, of whatever kind, keeps the names of all other items and lowers `pool.used` by what it took; a name is never released twice |
| StringPool.DupAdd | coucal.c:788-793 | a key made by the dup handler is owned by the one item that gets it |
| StringPool.DupDrop | coucal.c:825-831 | it is given back with that item, and was not given back before |
| Relocation.RebaseSound | coucal.c:664-716 | after a realloc that moves the pool, the names moved along denote the same keys and the pool invariant holds |
| Relocation.PackedUsed | coucal.c:581-661 | the live strings together take exactly `pool.used` bytes, so they fit any capacity of at least that |
| Relocation.CompactionSound | coucal.c:581-661 | compaction keeps the content of every live key, gives them disjoint ranges and leaves no dead byte |
| Contents.MatchIsEntry | coucal.c:563-571 | an item that matches a key and some hashes is the key's entry, and the hashes are the key's |
| Contents.NoMatchNoEntry | coucal.h:489-492 | when none does, the key has no entry or the hashes are not its own |
| Contents.RepresentsAdd | coucal.c:964-970 | an item with a new key extends the map by that entry |
| Contents.RepresentsRemove | coucal.c:901-913 | dropping an item removes its entry and no other |
| Contents.RepresentsReplace | coucal.c:928-955 | changing the value of an item changes its entry and no other |
| Contents.SpeltAdd | coucal.c:964-970 | a new item is stored with the key as it was given |
| Contents.SpeltRemove | coucal.c:901-913 | a removal takes that stored key away and no other |
| Contents.SpeltRevalued | coucal.c:928-955 | a replacement keeps the key as it was first written |
| Contents.RepresentsRenamed | coucal.c:581-716 | moving keys around and renaming the items along keeps the map |
| Contents.RepresentsCount | coucal.c:1612-1616 | there are as many live items as entries |
| Contents.BalancedReplaced | coucal.h:316-323 | freeing the old value on replace keeps: values written = values freed plus values held |
| Contents.BalancedAdded | coucal.h:316-323 | so does adding an entry, with nothing freed |
| Contents.BalancedRemoved | coucal.h:316-323 | so does removing one and freeing its value |
| Contents.OwnedEverywhere | coucal.c:1641-1660 | the non-NULL values found slot by slot are those of the map, with multiplicity |
| Contents.OwnedInCounts | coucal.h:316-323 | a non-NULL value is held as often as it is the value of a key |
| Hashtable.Coucal.StashItem | coucal.c:1063-1082 | puts the item in the first hole or at the extent, exactly when fewer than 16 entries are live; keeps the stash invariant |
| Hashtable.Coucal.Displace | coucal.c:1010-1061 | the loop computes the walk; "unexpected position" is unreachable |
| Hashtable.Coucal.InsertItem | coucal.c:982-1082 | puts the item at its first position if that is free, else at its second if that is, else as the walk says, with what is left in hand in the first hole of the stash |
| Hashtable.Coucal.AddItem | coucal.c:982-1082 | adds exactly one item and keeps the slots sound; fails exactly when the walk fails and the stash is full, and then the stash is unchanged, table, stash and the item the walk left in hand are the old items plus the new one, and all of the stash and that item are blocked |
| Hashtable.Coucal.TryItem | coucal.c:982-1082 | the stash gets one entry more exactly when no trail is free or the walk is cut short |
| Hashtable.Coucal.TrimStash | coucal.c:1174-1177 | afterwards the extent is zero or ends on a live entry |
| Hashtable.Coucal.DrainSlot | coucal.c:1156-1172 | one stashed item moves to its first position if that is free, else to its second if that is, and otherwise has no free slot |
| Hashtable.Coucal.DrainStash | coucal.c:1153-1178 | keeps all live items; every remaining entry has both slots occupied; table and stash are those of the draining function |
| Hashtable.Coucal.Enlarge | coucal.c:1228-1236 | twice the slots, the lower ones as before, the upper ones free |
| Hashtable.Coucal.SplitSlotAt | coucal.c:1239-1268 | one slot is split in place; no item is lost; "bad position" is unreachable |
| Hashtable.Coucal.Double | coucal.c:1225-1269 | each item goes to the position under the new mask of the hash by which it was where it was, the first one if both lead there; none is lost |
| Hashtable.Coucal.MergeEntry | coucal.c:1289-1297 | adds a stash entry back; it cannot fail |
| Hashtable.Coucal.MergeStash | coucal.c:1275-1310 | keeps all live items, whatever holes the stash had; adds every entry again, in order, by the walk: what is left in the stash is overcrowded or was cut short; the stash does not grow; the fatal branch is unreachable |
| Hashtable.Coucal.RelocateString | coucal.c:612-638 | copies one string, NUL included, to the end of the new pool, in bounds |
| Hashtable.Coucal.RelocateItem | coucal.c:612-638 | the same for an item, whose name then denotes the copy; free and empty names are skipped |
| Hashtable.Coucal.RelocateSlots | coucal.c:640-646 | a loop over slots appends their strings in order and renames their items |
| Hashtable.Coucal.CompactPool | coucal.c:581-661 | every item keeps its key; the pool holds the live strings and nothing else; fits any capacity of at least `pool.used` |
| Hashtable.Coucal.RebaseSlots | coucal.c:697-711 | moves every pooled name by the displacement of the pool; the offset assertion holds |
| Hashtable.Coucal.MovePool | coucal.c:684-695 | same bytes, possibly at another address |
| Hashtable.Coucal.ReallocPool | coucal.c:664-723 | compacts exactly when less than three quarters are live; either way every item keeps its key and the new capacity is there |
| Hashtable.Coucal.AppendKey | coucal.c:773-785 | the name made denotes the key, and all other keys stay |
| Hashtable.Coucal.GrowPool | coucal.c:750-771 | the new capacity is 256 doubled as often as needed and no more; every item keeps its key |
| Hashtable.Coucal.DupNameInternal | coucal.c:734-785 | the name made denotes what the argument denoted at the call, even if the argument points into a pool that is moved or compacted meanwhile; all other keys stay; the sizes of the pool change as the model of them says |
| Hashtable.Coucal.DuplicateName | coucal.c:788-793 | the same with a dup handler, whose key is new |
| Hashtable.Coucal.CompactIfSparse | coucal.c:810-820 | compacts exactly when there are live bytes and they are less than half of the pool, and halves the capacity exactly when less than a quarter is used; all keys stay |
| Hashtable.Coucal.FreeKeyInternal | coucal.c:797-821 | releases exactly the bytes of the key, keeps all other keys, and leaves a pool that is at least half live or has no live key; no duplicate release |
| Hashtable.Coucal.FreeKey | coucal.c:825-831 | the same for a name of any kind: the pool gives back the bytes of the key, a dup'd key is given back once |
| Hashtable.Coucal.FreeDup | coucal.c:825-831 | the free handler gets a key that it was not given before, and all other keys stay |
| Hashtable.Coucal.DelValue | coucal.c:889-899 | passes a non-NULL value to the free handler, once, and clears it |
| Hashtable.Coucal.DelItem | coucal.c:901-913 | clears one slot, in table or stash; all other items keep their place, hashes, value and key |
| Hashtable.Coucal.Find | coucal.c:928-955 | finds a matching live item, or there is none in the table or the stash |
| Hashtable.Coucal.FetchValueHashes | coucal.c:1335-1365 | finds an entry if and only if the hashes are the key's and the key has one; it is the key's entry |
| Hashtable.Coucal.ReadValue | coucal.c:1373-1383 | tells whether the map has the key, and its value |
| Hashtable.Coucal.PutValue | coucal.c:1385-1390 | assigning to a found value changes that entry of the map and moves nothing |
| Hashtable.Coucal.ReplaceValue | coucal.c:928-955 | the entry has the new value, the old one is freed once, nothing moves |
| Hashtable.Coucal.RemoveFromTable | coucal.c:1416-1427 | clears the slot; all others stay, up to the address of their keys |
| Hashtable.Coucal.RemoveFromStash | coucal.c:1429-1446 | leaves a hole or lowers the extent; all other entries stay where they are |
| Hashtable.Coucal.RemoveSlot | coucal.c:1411-1453 | the same for a slot of either |
| Hashtable.Coucal.RemoveAt | coucal.c:1411-1453 | the entry and its stored key leave the map, its value is freed, the pool gets back the bytes of that key, and no other key changes location |
| Hashtable.Coucal.NameEntry | coucal.c:965-966 | making a name keeps the map and the slots, up to names |
| Hashtable.Coucal.PrepareEntry | coucal.c:957-967 | drained and named, table and stash have the same free slots and hashes as the drained ones |
| Hashtable.Coucal.AddNamed | coucal.c:967-970 | adding the item of a new name adds the entry under the key that the name denotes; the stash gets one entry more exactly when no trail is free or the walk is cut short; fails exactly when that is so and the stash is full, and then table, stash and hand stand for the map with that entry |
| Hashtable.Coucal.AddEntry | coucal.c:957-971 | draining the stash, naming and adding yields exactly one new entry, stored with the bytes of the argument; the stash is as long as after draining, or one longer when the walk finds no slot in the drained table; fails exactly when it would exceed 16, and then table, stash and hand stand for the map with that entry, all of the stash and the hand being blocked |
| Hashtable.Coucal.Grow | coucal.c:1210-1312 | doubling and merging keeps all live items, brings the load below one half and does not enlarge the stash; every stash entry was tried again by the walk; free slots and hashes are those of the regrown table |
| Hashtable.Coucal.GrowIfNeeded | coucal.c:1186-1312 | grows exactly when half of the table or of the stash is in use; one doubling is enough; fails exactly at the size limit |
| Hashtable.Coucal.AddCounted | coucal.c:1180-1316 | counts the entry; keeps `used` equal to the live items, the load below one half, and the stash below 8 entries plus one per doubling; a stash collision comes exactly when there is no room, after nine doublings at least, with table, stash and hand standing for the map with the entry; at the size limit the entry is added and counted and the table is sound; the table doubles if and only if half of it, or of the stash after the addition, is in use; free slots and hashes are then exactly those of the drained table with the item added, regrown if so |
| Hashtable.Coucal.AddUsed | coucal.c:1183-1194 | the entry is added and counted, with the stash as long as the trails in the drained table say, or there is no room |
| Hashtable.Coucal.StoppedSize | coucal.c:1180-1316 | a write that fails makes a map of more than 8 entries, and of more than 17 for a collision |
| Hashtable.Coucal.WriteValue | coucal.c:1180-1316 | updates the map at the key; replaced if and only if the key had an entry; a replacement moves nothing, makes no key and frees the old value; a stash collision comes exactly for a new key that has no room once the stash is drained, after nine doublings at least, the items then standing for the map with the entry; the size limit comes exactly when an entry was added at the largest size and half of the table or of the stash is in use; the pool takes the bytes of a new key; it is stored as it was given, and a replacement keeps the stored key; the stash gets longer only when the walk finds no slot in the drained table, and the table doubles if and only if half of it or of the stash is then in use |
| Hashtable.Coucal.Inc | coucal.c:1385-1397 | sets the entry to its value, or 0, plus the increment, less 2^64 or not, and returns it; frees nothing; moves nothing when there was an entry, and else does what a write does; the write of a new counter never replaces |
| Hashtable.Coucal.Increment | coucal.c:1399-1401 | the entry becomes one more, modulo 2^64, and frees nothing; what is returned is congruent to it modulo 2^32, and is the entry plus one if and only if the entry was at least -2^31 - 1 and below 2^31 - 1 |
| Hashtable.Coucal.Decrement | coucal.c:1403-1405 | the entry becomes one less, modulo 2^64, and frees nothing; what is returned is congruent to it modulo 2^32, and is the entry minus one if and only if the entry was above -2^31 and at most 2^31 |
| Hashtable.IncReturnsValue | coucal.h:461-473 | the int returned is the value promised exactly for those entries |
| Hashtable.CastsCongruent | coucal.c:1399-1405 | the cast gives the int that is congruent modulo 2^32 |
| Hashtable.IncOfLargest | coucal.c:1399-1401 | incremented at 2^31 - 1, the value returned is -2^31 |
| Hashtable.Coucal.Remove | coucal.c:1455-1467 | removes exactly the key's entry; removed if and only if it had one; frees its value and gives back the bytes of its stored key; no other key changes location |
| Hashtable.Coucal.NItems | coucal.c:1612-1616 | the number of entries of the map |
| Hashtable.Coucal.constructor | coucal.c:1504-1551 | an empty map that satisfies the invariant |
| Hashtable.Coucal.New | coucal.c:1488-1510 | the smallest power of two from 16 up that is at least the initial size; NULL exactly above 2^32; an empty map, stash and pool |
| Hashtable.Coucal.DeleteSlot | coucal.c:1641-1660 | passes the value to the free handler, if there is one, and gives back the key when there is a handler |
| Hashtable.Coucal.DeleteKey | coucal.c:1641-1660 | a dup'd key is given back for the first time |
| Hashtable.Coucal.Delete | coucal.c:1629-1673 | passes every non-NULL value that the map still holds to the free handler exactly once, and nothing when there is no handler; so every value written has been freed once, unless some were edited in place; every dup'd key is given back exactly once |
| Enumeration.SeekIs | coucal.c:1685-1707 | skipping free slots leads to the next occupied location, or past the end |
| Enumeration.LayoutOfContents | coucal.c:1685-1707 | each key of the map is at exactly one location, and nothing else is |
| Enumeration.StepSound | coucal.h:504-512 | whatever an edit or a step does, keys returned are distinct and behind the cursor, others still present are ahead |
| Enumeration.RunSound | coucal.h:504-512 | so it is at any time of any run |
| Enumeration.EveryKeyOnce | coucal.h:504-512 | a finished enumeration has returned every key still there exactly once, and no key twice |
| Enumeration.NeverDeletedNorAgain | coucal.h:504-512 | a key that is returned is there at that time and was not returned before |
| Enumeration.Enumerator.Next | coucal.c:1685-1707 | returns the live item at the first occupied location from the cursor on, holes and the extent notwithstanding, or NULL when there is none |
| Enumeration.ApplyEdit | coucal.c:1411-1446 | makes the edit on the map; a removal clears its key's location and moves nothing; a replacement or an increment of an entry moves nothing |
| Enumeration.Visit | coucal.c:1685-1707 | one call of coucal_enum_next is one step of a run |
| Enumeration.Enumerate | tests.c:989-1075 | with arbitrary edits made before each call, all of them in order: every key returned has an entry at that time; every entry left at the end was visited once, no key twice, and only keys that were there |
| Runs.Perform | fuzz/coucal_fuzz.c:60-106 | one operation, its key given as a string or as any address of the pool where it is, replies and changes the entries as on a finite map; or it adds an entry and hits a stash collision or the size limit, and the items stand for the map with that entry; exactly the values replaced or removed are freed, if there is a handler; the stored keys, the pool and the dup'd keys change as the operation says; the table doubles at most once, and only when the operation adds an entry to at least seven others |
| Runs.Run | fuzz/coucal_fuzz.c:48-106 | any run of writes, removals, reads, increments and counts replies as the same run on a finite map; it stops early only at an operation that adds an entry to eight others at least, or seventeen for a collision, whatever the hash, and then the items stand for the map with that entry; the keys dup'd are as many as the entries added, the values freed are those replaced or removed, none without a handler; the stored keys and the sizes of the pool follow from the operations; the table doubles at most as often as an entry is added to at least seven others |
| Runs.Lifetime | coucal.h:316-323 | from creation to deletion: replies as an initially empty map; the values freed are the non-NULL values of the run's write operations, once each, counters or not, those freed are the values replaced or removed and those left at the end, and none without a handler; the dup'd keys given back are as many as the entries added; it stops early as a run does, and only at the size limit when created with more than 2^23 slots |
| Runs.CompactionsPaid | coucal.h:53-54 | at any time, the bytes copied by all compactions are at most three times the bytes released |
| Runs.RunPaid | coucal.h:53-54 | a run on a new hashtable copies by compactions at most three times the bytes of the keys that it removes |
| Runs.RunPoolSize | coucal.c:767-820 | as long as the pool is never all dead, it is at least half live and its capacity is at most 256 or four times the most bytes ever in use |
| Runs.Churns | coucal.c:767-820 | a run that writes and removes one key in turn does to the pool what `ChurnGrows` says |
| PoolSize.DenseIffNeverAllDead | coucal.c:810-820 | the pool is at least half live all the time exactly when there is never a time at which all of it is dead |
| PoolSize.CapacityBound | coucal.c:750-820 | its capacity is then at most 256 or four times the most bytes ever in use |
| PoolSize.FitDoubles | coucal.c:767-769 | the capacity is a power of two times 256, and half of it would not do |
| PoolSize.ChurnGrows | coucal.c:767-811 | storing and releasing one key often enough makes the capacity larger than any bound |
| PoolSize.ChurnPeak | coucal.c:767-811 | although no more than that one key is ever in use |
| Runs.PoolAccounts | coucal.c:779-780 | `pool.used` is the sum of the lengths plus one of the live pooled keys; used <= size <= capacity |
| Runs.LiveKeyIsString | coucal.c:734-785 | a live pooled key is a non-empty, terminated string below the watermark |
| Runs.LiveKeysApart | coucal.c:797-821 | two live keys share no byte of the pool; the empty key is never in it |
| Runs.LoadBound | coucal.c:1186-1225 | table items plus stash entries are `used`, the number of entries, which is below half of the table; stash size <= extent <= 16, and below 8 plus the number of doublings |
| Murmur.CasesMakeWord | murmurhash3.h:107-131 | the fall-through cases of four bytes make up the little-endian word |
| Murmur.SkippedCase | murmurhash3.h:107-131 | skipping a case is having a zero byte |
| Murmur.SkippedWord | murmurhash3.h:107-131 | skipping all cases of a word is mixing in a zero word |
| Murmur.TailWord | murmurhash3.h:109-130 | the cases that are run for a word give the zero-padded word, for any number of bytes left |
| Murmur.GetBlock | murmurhash3.h:32-38 | a block at a negative index from the end is the word counted from the start, in bounds |
| Murmur.TailSwitch | murmurhash3.h:93-131 | the switch is the mixing of the zero-padded last block |
| Murmur.MixBlock | murmurhash3.h:71-90 | the in-place mixing of a block is the block step of the fold |
| Murmur.Finalize | murmurhash3.h:136-155 | the in-place finalization is that of the definition |
| Murmur.MurmurHash3 | murmurhash3.h:51-157 | for every length, the in-place code computes the fold over zero-padded 16-byte blocks |
| Murmur.RotlBits | murmurhash3.h:27-31 | rotation takes bit i to bit i + r, around the end |
| Murmur.FMixBijective | murmurhash3.h:39-48 | the final mixing has an inverse |
| Murmur.HashOfA | murmurhash3.h:51-157 | the hash of the one byte "a" with seed 0 |
| Murmur.HashOfSample | murmurhash3.h:51-157 | the hash of 47 given bytes, two whole blocks and a tail in all four words, with seed 42 |

## Left out

- Logging, statistics, print and assertion handlers, the name of a table: output only.
- The MD5 and FNV hashes; the use of Murmur by the table and its fix-up for equal hashes: the table is proved for any hash.
- COUCAL_HASH_SIZE 64, and big-endian hosts for Murmur.
- Allocation failure and the overflow of machine words in sizes; the overflow assertion of the doubling cannot fire with 32-bit hashes and a 64-bit size_t.
- The typed wrappers (coucal_read_pvoid, coucal_write, coucal_readptr and others), which only repack the value; coucal_exists is ReadValue without its value.
- The setters (handlers are fixed at construction, as coucal.h requires once there are entries), coucal_memory_size, coucal_hash_size.
- Enumerating while adding entries, which coucal.h leaves undefined.
- Average-case and probability claims.
- Writing through a pointer from coucal_fetch_value, other than by coucal_inc and coucal_dec: the ownership of values is then the caller's (`edited`).
- Calling a handler: the free handlers are seen only through what they are given.
- Hashtable.Coucal.WriteValue: after a stash collision, says where the items are but not that the rest of the state is sound, because the program stops there.
- Hashtable.Coucal.GrowIfNeeded: does not model that the size is already incremented when the size limit is asserted.
- Hashtable.Coucal.ReplaceValue: does not model the clearing of the old value just before it is overwritten.
- Hashtable.Coucal.Delete: leaves the pool's fields other than its buffer as they are, because the structure itself is freed.
