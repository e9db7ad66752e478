# Slot allocators of src/extra, modelled in Dafny

The repository benchmarks slot maps: containers that store a value and give
back a small copyable key through which the value can later be read,
overwritten or removed. Three of them are the repository's own code, and
this project models those three. Each one becomes a Dafny class whose fields
are the vectors of the Rust struct, held as `seq` values that its methods
reassign.

- `NaiveSlotMap` (`naive.dfy`, module `Naive`) is a compacting generational
  map.
  - `data` holds the values packed, and is kept packed by `swap_remove`.
  - `slots[s]` holds the forward pointer `outer` into `data` and a `u16`
    generation.
  - `inner` is a permutation of the slot indices. Its prefix maps each dense
    position back to the slot that owns it. Its suffix is the stack of free
    slots.
- `UniqueNaiveSlotMap` (`unique.dfy`, module `Unique`) is the same design,
  with the permutation stored in a third field `inner` of each slot. It
  differs from the naive map in three places:
  - `get` does not check the slot index;
  - `clear` advances generations with wrap-around;
  - `remove` advances a generation `v` to `v + ((v + 1) mod 65536)`.
- `BvMap` (`bvmap.dfy`, module `BitVecMap`) is a non-compacting map without
  generations.
  - Each cell holds either a value or a link of an intrusive LIFO free list.
    The source stores this as a `union`; here it is the datatype `Cell`.
  - A bit vector records which cells are occupied.
  - `nextFree` is the head of the free list, and `|cells|` marks its end.
- `common.dfy` (module `Common`) holds what the maps share: `Option`, the
  `u16`/`u32` ranges, `Vec::swap_remove`, and permutation lemmas.

Each class has ghost fields for its public view and mapping:
- `Contents` maps live key to value (index to value for `BvMap`).
- `Pos` is the inverse of the permutation in the two compacting maps.
- `Issued` holds every key handed out by the naive map.
- `Free` is the free list of `BvMap`.

`Valid()` is the representation invariant, and every public state-changing
method preserves it. A method states its whole new state and its effect on the
public view. Lemmas prove the facts the source relies on:
- the permutation and back pointers agree;
- the free list is well formed and is exactly the chain of links from
  `nextFree`;
- swap-removal keeps every other key's value;
- the generation arithmetic behaves as described.

Handles are `Key(idx, ver)` for the compacting maps. The key type parameter
`K` of `UniqueNaiveSlotMap` is phantom and is dropped. The `K` of `BvMap` is
the handle type, converted to and from a cell index through `usize`
(bvmap.rs:50, 78, 82, 106). The model fixes `K = usize`, as the unit test at
bvmap.rs:158 does, so a `BvMap` handle is a `nat` cell index.

## Model

| member | source | states |
|---|---|---|
| Common.SwapRemove | src/extra/naive.rs:91 | `swap_remove(i)`: the result is one shorter, the last element now sits at `i`, and every other position is unchanged |
| Common.SwapRemovePermutes | src/extra/naive.rs:91 | after `swap_remove`, the removed element plus what remains is exactly the old vector, as a multiset |
| Common.SwapKeepsPermutation | src/extra/naive.rs:93-96 | swapping two entries of a permutation, and the matching entries of its inverse, gives a permutation and its inverse |
| Common.IdentityIsPermutation | src/extra/naive.rs:51-55 | the counter loop of `clear` leaves `inner` as the identity permutation, which is its own inverse |
| Common.AppendPermutation | src/extra/naive.rs:62-67 | appending slot `n` at position `n` extends the permutation |
| Naive.InsertAppendKeepsInv | src/extra/naive.rs:60-68 | when there is no free slot, `insert` appends slot `Key(n, 0)`. That key was never issued, and the new state satisfies the invariant with `Contents + {key -> value}` |
| Naive.AppendAbstraction | src/extra/naive.rs:60-68 | the appended slot's key `Key(n, 0)` was not live, and after the append the live keys are the old ones plus it |
| Naive.InsertReuseKeepsInv | src/extra/naive.rs:69-79 | reusing the slot `inner[len]` at its current generation gives a key never issued before, and the state satisfies the invariant with the new entry added |
| Naive.ReuseBackPointers | src/extra/naive.rs:71-74 | pointing the reused slot at position `len` extends the back-pointer agreement to `len + 1` positions |
| Naive.ReuseAbstraction | src/extra/naive.rs:69-79 | the reused slot's key was not live, and after reuse the live keys are the old ones plus it |
| Naive.ReuseIssued | src/extra/naive.rs:71-77 | the reused slot's current key was never issued. Afterwards no issued key is ahead of its slot's generation, and one that matches names an occupied slot |
| Naive.RemoveKeepsInv | src/extra/naive.rs:89-97 | the remove step keeps the shape, the permutation, the back pointers and the issued-key facts, and leaves `Contents - {key}` |
| Naive.RemovePermutation | src/extra/naive.rs:93-96 | the two writes into `inner` keep it a permutation, with its updated inverse |
| Naive.RemoveBackPointers | src/extra/naive.rs:91-97 | after the swap-removal, the slot of the moved value points at its new dense position |
| Naive.RemoveAbstraction | src/extra/naive.rs:91-97 | every other live key still reads its own value after the swap-removal |
| Naive.RemoveIssued | src/extra/naive.rs:90 | after the bump, the removed key and every older key of that slot are behind its generation |
| Naive.WriteKeepsInv | src/extra/naive.rs:117 | writing dense position `p` changes only the owner's entry in `Contents` |
| Naive.RemoveGenerations | src/extra/naive.rs:90-97 | `remove` changes only the removed slot's generation |
| Naive.AppendGenerations | src/extra/naive.rs:63-66 | a new slot has generation 0 |
| Naive.RepointGenerations | src/extra/naive.rs:74 | repointing `outer` changes no generation |
| Naive.ClearKeepsInv | src/extra/naive.rs:46-56 | after the `clear` loops the map is empty and satisfies the invariant, and no issued key matches its slot any more |
| Naive.NaiveSlotMap.IssuedKeyIsSafe | src/extra/naive.rs:103-109 | an issued key never sends the unchecked read out of range or matches a free slot, and it matches exactly when it is live |
| Naive.NaiveSlotMap.LiveKeyReadsItself | src/extra/naive.rs:108 | a live key's slot points at the dense position holding its value |
| Naive.NaiveSlotMap.IssuedKeysAreSafe | src/extra/naive.rs:103-109 | the same as `IssuedKeyIsSafe`, for all issued keys at once |
| Naive.NaiveSlotMap.MatchingKeyReadsOwner | src/extra/naive.rs:103-109 | a matching key reads the value of the live key that owns its dense position, which is the key itself when it is live |
| Naive.NaiveSlotMap.constructor | src/extra/naive.rs:24-30 | `new`: three empty vectors and an empty map |
| Naive.NaiveSlotMap.Len | src/extra/naive.rs:41-43 | `len` is the number of live keys |
| Naive.NaiveSlotMap.Clear | src/extra/naive.rs:46-56 | `clear` empties `data`, adds 1 to every generation, and resets `inner` to the identity. Every issued key then fails |
| Naive.NaiveSlotMap.BumpVersions | src/extra/naive.rs:48-50 | the first loop of `clear` adds 1 to every slot's generation and writes nothing else |
| Naive.NaiveSlotMap.ResetFreeStack | src/extra/naive.rs:51-55 | the counter loop of `clear` sets `inner[i] = i` and writes nothing else |
| Naive.NaiveSlotMap.Insert | src/extra/naive.rs:59-81 | `insert` returns the `NextKey` of the old state, a key never issued before. `Contents` gains `key -> value`, `data` gains `value` at its end, and either slot `Key(n, 0)` is appended to `slots` and `inner`, or the reused slot's `outer` is set to the old `len` and `inner` is unchanged |
| Naive.NaiveSlotMap.InsertNewSlot | src/extra/naive.rs:62-68 | with no free slot, `insert` returns `Key(old len, 0)` and appends `Slot(n, 0)` to `slots` and `n` to `inner` |
| Naive.NaiveSlotMap.InsertFreeSlot | src/extra/naive.rs:69-79 | otherwise `insert` returns `Key(inner[len], its current generation)`, points that slot's `outer` at the old `len`, and leaves `inner` and every generation unchanged |
| Naive.NaiveSlotMap.Remove | src/extra/naive.rs:84-100 | a matching key gets `Some` of its value, and the rest of the results follow from that (see below this table) |
| Naive.NaiveSlotMap.RemoveLive | src/extra/naive.rs:89-98 | the body of `remove` after the check: returns the key's value and drops only that key. `data` is the `swap_remove` at the key's `outer`, `inner` has the two writes of naive.rs:93-96 (`Relinked`), and `slots` has the generation `ver + 1` and the moved value's new `outer` (`Unlinked`) |
| Naive.NaiveSlotMap.Get | src/extra/naive.rs:103-109 | `get` is `Some` exactly when the index is in range and the generation matches. A live key reads its value, and an issued key is `Some` exactly when it is live |
| Naive.NaiveSlotMap.WriteAt | src/extra/naive.rs:117 | a write through the reference `get_mut` returns updates the owner's value and nothing else |
| Naive.NaiveSlotMap.GetMut | src/extra/naive.rs:112-118 | `get_mut` is `Some(old value)` exactly when the key matches. The write replaces `data` at the slot's `outer`, and `slots`, `inner` and `Pos` are unchanged. A mismatch changes nothing |
| Naive.NaiveSlotMap.GetUnchecked | src/extra/naive.rs:121-127 | for an index in range, `get_unchecked` agrees with `get` |
| Naive.NaiveSlotMap.GetUncheckedMut | src/extra/naive.rs:130-136 | for an index in range, `get_unchecked_mut` agrees with `get_mut`, with the same new `data`, `slots`, `inner` and `Pos` |
| Naive.NaiveSlotMap.Index | src/extra/naive.rs:153-155 | `map[key]` for a matching key is the value `get` returns |
| Naive.NaiveSlotMap.IndexMut | src/extra/naive.rs:161-163 | writing through `map[key]` replaces `data` at the slot's `outer`, and so the owner's value; `slots`, `inner` and `Pos` are unchanged |
| Naive.NaiveSlotMap.Iter | src/extra/naive.rs:139-141 | `iter` yields `len` values in dense order, each live key's value once, at that key's dense position |
| Naive.NaiveSlotMap.IterOwners | src/extra/naive.rs:139-141 | each dense position belongs to a distinct live key whose value it holds |
| Naive.AddTwiceRemoveFirstSwaps | src/extra/naive.rs:285-293 | after inserting 0 and 1 and removing the first key, the second key still reads 1 and `len` is 1 |
| Naive.AddRemoveOldKey | src/extra/naive.rs:243-260 | after removing the only key, `len` is 0 and both `remove` and `get` with that key return `None` |
| Naive.AddClear | src/extra/naive.rs:204-210 | after `clear`, `len` is 0 and the old key reads `None` |
| Unique.WrappingInc | src/extra/unique.rs:50 | `wrapping_add(1)`: `v + 1`, except that 65535 becomes 0; never a fixed point |
| Unique.BumpFitsExactly | src/extra/unique.rs:86 | the `+=` of `remove` stays within `u16` exactly for versions up to 32767 and for 65535 |
| Unique.RemoveBump | src/extra/unique.rs:86 | the bump of `remove` is `2v + 1` below 65535, and it leaves `v` unchanged exactly at 65535 |
| Unique.AllOnesBelowHalf | src/extra/unique.rs:86 | `2^n - 1` stays within 32767 for n < 16 and reaches it at n = 15 |
| Unique.Orbit | src/extra/unique.rs:86 | after `n` removals from generation 0, a slot's generation is `2^n - 1` for n <= 16 and 65535 from then on |
| Unique.InsertAppendKeepsInv | src/extra/unique.rs:59-65 | with no free slot, `insert` appends `Slot(n, 0, n)`. Its key was not live, and the invariant holds with the new entry |
| Unique.AppendPermutation | src/extra/unique.rs:60-64 | the appended slot extends the permutation stored in the `inner` fields |
| Unique.AppendBackPointers | src/extra/unique.rs:60-64 | the appended slot is its own back pointer |
| Unique.AppendAbstraction | src/extra/unique.rs:59-65 | the appended slot's key was not live, and the live keys gain exactly it |
| Unique.AppendLive | src/extra/unique.rs:59-65 | after the append, every live key, old or new, reads its value |
| Unique.AppendOccupied | src/extra/unique.rs:59-65 | after the append, every occupied slot's current key is live |
| Unique.InsertReuseKeepsInv | src/extra/unique.rs:66-77 | reusing slot `slots[len].inner` at its current generation gives a key that is not live, and the invariant holds with the new entry |
| Unique.ReusePermutation | src/extra/unique.rs:71 | writing `outer` leaves the permutation untouched |
| Unique.ReuseBackPointers | src/extra/unique.rs:68-71 | the reused slot points at position `len`, which extends the back pointers |
| Unique.ReuseAbstraction | src/extra/unique.rs:66-77 | the reused key was not live, and the live keys gain exactly it |
| Unique.ReuseLive | src/extra/unique.rs:66-77 | after reuse, every live key reads its value |
| Unique.ReuseOccupied | src/extra/unique.rs:66-77 | after reuse, every occupied slot's current key is live |
| Unique.UnlinkedFieldwise | src/extra/unique.rs:86-93 | the four slot writes of `remove`, spelled out field by field |
| Unique.RemoveKeepsInv | src/extra/unique.rs:85-93 | the remove step keeps the shape, the permutation and the back pointers, and leaves `Contents - {key}` |
| Unique.UnlinkKeepsInv | src/extra/unique.rs:85-93 | the exact new `slots`, `data` and inverse of `remove` satisfy the invariant with `Contents - {key}` |
| Unique.RemovePermutation | src/extra/unique.rs:89-92 | the two `inner` writes keep a permutation with the updated inverse |
| Unique.RelinkInnerInverse | src/extra/unique.rs:89-92 | after the rewiring, every entry of the permutation is where its inverse says |
| Unique.RelinkPosInverse | src/extra/unique.rs:89-92 | after the rewiring, the inverse sends every slot to the entry holding it |
| Unique.RemoveBackPointers | src/extra/unique.rs:87-93 | the slot of the moved value points at the vacated dense position |
| Unique.RemoveAbstraction | src/extra/unique.rs:87-93 | every other live key still reads its own value, and every occupied slot is live |
| Unique.RemoveLiveValues | src/extra/unique.rs:87-93 | every other live key still reads its own value after the swap-removal |
| Unique.RemoveOccupied | src/extra/unique.rs:87-93 | every slot still occupied after the swap-removal carries a live key |
| Unique.WriteKeepsInv | src/extra/unique.rs:119 | writing dense position `p` changes only the owner's entry |
| Unique.ClearKeepsInv | src/extra/unique.rs:46-54 | after `clear` the map is empty and the invariant holds with the identity permutation |
| Unique.UniqueNaiveSlotMap.LiveKeyReadsItself | src/extra/unique.rs:103 | a live key matches, and its slot points at the dense position holding its value |
| Unique.UniqueNaiveSlotMap.MatchingKeyReadsOwner | src/extra/unique.rs:98-104 | a matching key reads the value of the live key owning its dense position, which is the key itself when it is live |
| Unique.UniqueNaiveSlotMap.constructor | src/extra/unique.rs:26-32 | `new`: empty vectors and an empty map |
| Unique.UniqueNaiveSlotMap.Len | src/extra/unique.rs:42-44 | `len` is the number of live keys |
| Unique.UniqueNaiveSlotMap.Clear | src/extra/unique.rs:46-54 | `clear` empties `data`, advances every generation with wrap-around, and sets `inner` to the slot's own index. No key that matched before still matches |
| Unique.UniqueNaiveSlotMap.ResetSlots | src/extra/unique.rs:48-53 | the loop of `clear` writes exactly the wrapped generation and `inner = i` into each slot |
| Unique.UniqueNaiveSlotMap.Insert | src/extra/unique.rs:56-78 | `insert` returns the old `NextKey`, which was not live, and adds `key -> value`. It either appends `Slot(n, 0, n)` or repoints the reused slot |
| Unique.UniqueNaiveSlotMap.InsertNewSlot | src/extra/unique.rs:59-65 | with no free slot, `insert` returns `Key(old len, 0)` and appends |
| Unique.UniqueNaiveSlotMap.InsertFreeSlot | src/extra/unique.rs:66-77 | otherwise `insert` returns the key of slot `slots[len].inner` at its unchanged generation |
| Unique.UniqueNaiveSlotMap.Remove | src/extra/unique.rs:80-96 | a matching key gets `Some` of its value, and the rest of the results follow from that (see below this table) |
| Unique.UniqueNaiveSlotMap.RemoveLive | src/extra/unique.rs:85-95 | the body of `remove` after the check: returns the value, drops only that key, and leaves exactly the `swap_remove`d data and the rewired slots |
| Unique.UniqueNaiveSlotMap.RemoveWrapping | src/extra/unique.rs:80-96 | `remove` with the intended `wrapping_add(1)` bump: the same results and the same new `data` and slots as `remove`, at generation `wrapping_add(ver, 1)`. The removed key no longer matches after its removal |
| Unique.WrapStepsReturn | src/extra/unique.rs:50 | `n` steps of `wrapping_add(1)` reach `(v + n) mod 65536`, which is `v` again exactly when `n` is a multiple of 65536 |
| Unique.RemovedKeyReturns | src/extra/unique.rs:50 | after a removal that bumped `v` once, the slot is back at `v` after `n` more bumps exactly when `n + 1` is a multiple of 65536, first at `n = 65535` |
| Unique.UniqueNaiveSlotMap.Get | src/extra/unique.rs:98-104 | for an index in range (the source does not check it), `get` is `Some` exactly when the generation matches, and a live key reads its value |
| Unique.UniqueNaiveSlotMap.WriteAt | src/extra/unique.rs:119 | a write through the reference `get_mut` returns updates the owner's value and nothing else |
| Unique.UniqueNaiveSlotMap.GetMut | src/extra/unique.rs:114-120 | `get_mut` checks the index: it is `Some` exactly when the key matches, and then it is what `get` returned. The write replaces `data` at the slot's `outer`, and `slots` and `Pos` are unchanged. A mismatch or an index out of range changes nothing |
| Unique.UniqueNaiveSlotMap.GetUnchecked | src/extra/unique.rs:122-128 | for an index in range, `get_unchecked` agrees with `get` |
| Unique.UniqueNaiveSlotMap.GetUncheckedMut | src/extra/unique.rs:130-136 | for an index in range, `get_unchecked_mut` agrees with `get_mut`, with the same new `data`, `slots` and `Pos` |
| Unique.UniqueNaiveSlotMap.Index | src/extra/unique.rs:150-152 | `map[key]` for a matching key is the value `get` returns |
| Unique.UniqueNaiveSlotMap.IndexMut | src/extra/unique.rs:156-158 | writing through `map[key]` replaces `data` at the slot's `outer`, and so the owner's value; `slots` and `Pos` are unchanged |
| Unique.UniqueNaiveSlotMap.Iter | src/extra/unique.rs:138-140 | `iter` yields `len` values in dense order, each live key's value once |
| Unique.UniqueNaiveSlotMap.IterOwners | src/extra/unique.rs:138-140 | each dense position belongs to a distinct live key whose value it holds |
| Unique.StaleKeyReadsSibling | src/extra/unique.rs:80-104 | a run of inserts and removes in which a removed key `Key(0, 65535)` goes on matching, and `get` with it returns another key's value |
| Unique.RemoveRound | src/extra/unique.rs:86 | one insert/remove round on a lone free slot moves its generation one step along `Orbit` |
| Unique.RemoveAtFixedPoint | src/extra/unique.rs:80-104 | at generation 65535, removing a key leaves it matching, and it then reads the value that moved into its dense position |
| Unique.RunToFixedPoint | src/extra/unique.rs:56-96 | sixteen insert/remove rounds on a new map leave its one slot free at generation 65535, and its first key was `Key(0, 0)` |
| Unique.ClearRevivesFirstKey | src/extra/unique.rs:46-96 | after sixteen insert/remove rounds and a `clear`, the slot's first key `Key(0, 0)` matches again, and the next `insert` returns it a second time |
| BitVecMap.ChainIsWalk | src/extra/bvmap.rs:37-40 | following links from `next_free` visits exactly the ghost free list, in order |
| BitVecMap.DistinctBelow | src/extra/bvmap.rs:37-40 | a free list of distinct cells below `n` has at most `n` entries, so the walk ends |
| BitVecMap.OccupySet | src/extra/bvmap.rs:69-76 | storing a value in cell `k` and setting its bit adds `k -> v` and nothing else |
| BitVecMap.OccupyPush | src/extra/bvmap.rs:63-66 | pushing an occupied cell adds `len -> v` and nothing else |
| BitVecMap.Vacate | src/extra/bvmap.rs:108-110 | clearing a bit and storing a link removes exactly `k` |
| BitVecMap.PushKeepsInv | src/extra/bvmap.rs:62-67 | an append happens only when the free list is empty, and the invariant holds with the end marker moved to the new length |
| BitVecMap.PopKeepsInv | src/extra/bvmap.rs:68-76 | popping the head keeps the invariant, with the rest of the list headed by the stored link |
| BitVecMap.VacateKeepsInv | src/extra/bvmap.rs:107-110 | a removed cell pushed on the free list keeps the invariant, with `[k] + free` |
| BitVecMap.PushChain | src/extra/bvmap.rs:109-110 | a cell linked to the old head, in front of the list, is a well-formed free list |
| BitVecMap.Indices | src/extra/bvmap.rs:92-103 | the set-bit indices in strictly ascending order, each in range, and every set bit listed |
| BitVecMap.ValuesLength | src/extra/bvmap.rs:92-103 | the `zip`+`filter_map` yields one value per set bit |
| BitVecMap.ValueAtIndex | src/extra/bvmap.rs:92-103 | its `j`-th value is the value of the cell at the `j`-th set bit |
| BitVecMap.ValuesAtIndices | src/extra/bvmap.rs:92-103 | together: values and set-bit indices correspond one for one |
| BitVecMap.BvMap.constructor | src/extra/bvmap.rs:51-58 | `new`: no cells, no bits, `next_free` 0, empty map |
| BitVecMap.BvMap.FreeListFollowsLinks | src/extra/bvmap.rs:37-40 | in a valid map the free list has at most `len` entries and is exactly the chain of links from `next_free` |
| BitVecMap.BvMap.Insert | src/extra/bvmap.rs:60-79 | `insert` returns the old `next_free`, an index that was not occupied. If the free list is empty it appends a cell and moves `next_free` to the new length; otherwise it pops the head and follows its link. `Contents` gains `k -> v`, other cells are untouched, and `get(k) == Some(v)` |
| BitVecMap.BvMap.Get | src/extra/bvmap.rs:81-90 | `get` is `Some` exactly for an index in range whose bit is set, and then it is that index's value |
| BitVecMap.BvMap.Remove | src/extra/bvmap.rs:105-115 | for an occupied index, `remove` returns its value, clears the bit and makes the cell the new head linked to the old one. For any other index it returns `None` and changes nothing |
| BitVecMap.BvMap.Iter | src/extra/bvmap.rs:92-103 | `iter` yields, for each set bit in ascending order, that index's value |
| BitVecMap.BvMap.Clone | src/extra/bvmap.rs:118-139 | `clone` gives a fresh valid map with the same cells, bits, head and contents |
| BitVecMap.CopyCells | src/extra/bvmap.rs:120-131 | the copy loop of `clone` copies each cell either as a value or as a link, and the result equals the original vector |
| BitVecMap.Basic | src/extra/bvmap.rs:157-165 | the unit test `basic`: `get(a1) == Some(11)`, `get(34) == None`, `remove(a2) == Some(12)`, then `get(a2) == None` |

The rest of `Naive.NaiveSlotMap.Remove`:
- any other key gets `None` and changes nothing;
- a successful call shrinks `len` by one and sets the slot's generation to
  `ver + 1`;
- the key then no longer matches;
- the next `insert` returns `Key(idx, ver + 1)`.

The rest of `Unique.UniqueNaiveSlotMap.Remove`:
- any other key gets `None` and changes nothing;
- a successful call sets the generation to the bump of `ver`;
- the removed key matches again exactly when `ver` is 65535;
- the next `insert` reuses the slot at its new generation.

## Left out

- `with_capacity` (naive.rs:32-38, unique.rs:34-40) is left out because it is
  only a capacity hint and behaves like `new`.
- `iter_mut` and the `IntoIterator` impls are borrowing plumbing over `iter`,
  so they are left out. A write through a mutable reference is modelled once,
  as `WriteAt`.
- Naive.NaiveSlotMap.Index: the `unwrap()` panic of `index` on a key that
  does not match (naive.rs:154) is the precondition `Matches(key)`.
- Naive.NaiveSlotMap.IndexMut: the `unwrap()` panic of `index_mut` on a key
  that does not match (naive.rs:162) is the precondition `Matches(key)`.
- Unique.UniqueNaiveSlotMap.Index: the `unwrap()` panic of `index` on a key
  that does not match (unique.rs:151) is the precondition `Matches(key)`.
- Unique.UniqueNaiveSlotMap.IndexMut: the `unwrap()` panic of `index_mut` on
  a key that does not match (unique.rs:157) is the precondition
  `Matches(key)`.
- Unique.UniqueNaiveSlotMap.RemoveWrapping: the contract states that the
  removed key no longer matches once the call returns, not that it never
  matches again. The slot is left one step past the key's generation, so it
  returns to the key's after 65535 more wrapping bumps, 65536 counting the
  removal's own (`RemovedKeyReturns`), as with any 16-bit generation.
- In-place mutation through the references that `get_mut` and `index_mut`
  return is modelled by a new value given to the method.
- `ManuallyDrop`, the raw `union` and the `Drop` impl of `BvMap`
  (bvmap.rs:141-151) concern memory management, which Dafny does not have.
  The tagged `Cell` datatype stands for the union.
- `SmallBitVec` internals are left out; the bit vector is a `seq<bool>`.
- Cloning a value (`V: Clone`) is modelled as a copy of the value.
- The derived `Clone` of the two compacting maps is left out.
- The `as u32` truncations in `insert` are not modelled. Instead `insert`
  requires fewer than 2^32 values.
- Naive.NaiveSlotMap.Clear: a debug-mode overflow of `version += 1`
  (naive.rs:49) is excluded by a precondition that every generation is
  below 65535.
- Naive.NaiveSlotMap.Remove: the `+= 1` overflow at naive.rs:90 is excluded
  by a precondition that the key's generation is below 65535.
- Unique.UniqueNaiveSlotMap.Remove: the overflow of the `+=` at unique.rs:86
  (generations 32768..65534) is excluded by the precondition `BumpFits`.
  `BumpFitsExactly` proves that `BumpFits` holds exactly for generations up
  to 32767 and for 65535.
- Unique.UniqueNaiveSlotMap.Get: the unchecked slot index at unique.rs:99 is
  a precondition. So is the unchecked `data` read of all the `get` variants
  in both maps (`InBounds`), because a value past the end is undefined
  behaviour.
- Naive.NaiveSlotMap.Remove and Unique.UniqueNaiveSlotMap.Remove require
  `Admissible(key)`: a matching key must be live. The naive map proves this
  of every issued key (`IssuedKeysAreSafe`). In the unique map the
  generation fixed point breaks it, so that map keeps no `Issued` set. The
  source has no such check. A removed key at generation 65535 goes on
  matching, and a second `remove` with it reads the stale `outer` `p` of its
  free slot `f`. Let `w` be the slot that owns dense position `p`; its key
  keeps matching with `outer == p`. If `p` is at or past the end of `data`,
  the `swap_remove` panics. Otherwise it discards `w`'s value. Then the
  writes of unique.rs:91-92 set entry `len` of the permutation to `f` and
  then entry `p` to the owner of the moved value, which is `w` again when
  `p` was the last position. If `p` was not the last position, `w`'s key
  now reads the moved value, `w` drops out of the permutation and `f`
  appears in it twice. If `p` was the last position, the permutation is
  unchanged and `w`'s key points one past the end of `data`, a read that is
  undefined behaviour. The next `insert` then hands out `w`'s key again.
  From the end state of `StaleKeyReadsSibling` (one value, owned by
  `Key(1, 0)`), a second `remove((0, 65535))` empties `data` while
  `Key(1, 0)` still matches, and the next `insert` returns `Key(1, 0)`
  again. A third `remove((0, 65535))` straight after the second panics in
  `swap_remove`, because `data` is empty.
- Unique.UniqueNaiveSlotMap.Clear: the contract states only that no key
  that matched before `clear` matches after it, not that every key the map
  ever issued fails, as the naive map's `Clear` does. The bump at
  unique.rs:86 is the reason. After sixteen removes a slot sits at 65535,
  and the `wrapping_add(1)` of unique.rs:50 takes it to 0. The slot's first
  key `Key(0, 0)` then matches again, and the next `insert` hands it out a
  second time (`ClearRevivesFirstKey`). So `clear` fails to invalidate a
  removed key after sixteen removes and one `clear`, long before its
  generations could wrap around.
- The longer `complex` test (naive.rs:307-362) and the two-key variants of
  `add_get` and `add_remove` are not replayed as scenarios. Their facts
  follow from the contracts of `Insert`, `Get`, `Remove` and `Clear`.
- The criterion benchmark adapters, the benchmark harness, `src/lib.rs` and
  `moomap` are left out. They are timing code over other crates and hold no
  logic of these maps.

## Findings

| source | as written | input that shows it | evidently intended | confidence | as-written member | corrected member |
|---|---|---|---|---|---|---|
| src/extra/unique.rs:86 | `remove` sets the generation to `v + wrapping_add(v, 1)`. That doubles it plus one, stays at 65535 once it gets there, and overflows for 32768..65534 | insert and remove on one slot sixteen times, so its generation runs 0, 1, 3, ..., 32767, 65535. Then call `insert` (key `(0, 65535)`), `insert` again, `remove((0, 65535))` and `get((0, 65535))`. The `get` returns the second value. Alternatively, after the sixteen rounds call `clear`: the generation wraps from 65535 to 0, the first key `(0, 0)` matches again, and the next `insert` returns `(0, 0)` a second time | advance the generation by `wrapping_add(1)`, as `clear` does, so a removed key no longer matches after its removal | not executed | Unique.UniqueNaiveSlotMap.Remove, Unique.Orbit, Unique.StaleKeyReadsSibling, Unique.ClearRevivesFirstKey | Unique.UniqueNaiveSlotMap.RemoveWrapping, Unique.WrappingInc |
