/** The compacting generational slot map of src/extra/unique.rs.

    The design is that of the naive map with the `inner` vector folded into
    the slots: `slots[p].inner` is entry `p` of the permutation, so for a
    dense position `p < |data|` it names the slot that owns `p`, and the
    entries at and above `|data|` are the stack of free slots.

    Three things differ from the naive map: `get` does not check the slot
    index, `clear` advances generations with wrap-around, and `remove`
    advances a generation `v` to `v + ((v + 1) mod 65536)` rather than to
    `v + 1`. That bump has the fixed point 65535, at which a removed key
    goes on matching its slot.

    The ghost fields give the public view: `Contents` maps every live key to
    its value and `Pos` is the inverse of the permutation. */
module Unique {
  import opened Common

  /** A handle: slot index and the generation it was issued at. */
  datatype Key = Key(idx: u32, ver: u16)

  datatype Slot = Slot(outer: u32, version: u16, inner: u32)

  // ---------------------------------------------------------------------------
  // Generation arithmetic
  // ---------------------------------------------------------------------------

  /** `wrapping_add(1)` on a `u16`: never a fixed point. */
  function WrappingInc(v: u16): (r: u16)
    ensures r != v
    ensures r == if v == U16_LIMIT - 1 then 0 else v + 1
  {
    (v + 1) % U16_LIMIT
  }

  /** The `+=` of `remove` does not overflow a `u16`. */
  predicate BumpFits(v: u16)
  {
    v + WrappingInc(v) < U16_LIMIT
  }

  /** `BumpFits` holds exactly for the lower half of the range and for 65535. */
  lemma BumpFitsExactly(v: u16)
    ensures BumpFits(v) <==> v <= 0x7FFF || v == U16_LIMIT - 1
  {
  }

  /** `version += version.wrapping_add(1)`: doubles and adds one, except at
      65535, where it adds zero. */
  function RemoveBump(v: u16): (r: u16)
    requires BumpFits(v)
    ensures r == v <==> v == U16_LIMIT - 1
    ensures v < U16_LIMIT - 1 ==> r == 2 * v + 1
  {
    v + WrappingInc(v)
  }

  /** The generation after `n` further `wrapping_add(1)` steps from `v`. */
  function WrapSteps(v: u16, n: nat): u16
  {
    if n == 0 then v else WrappingInc(WrapSteps(v, n - 1))
  }

  /** Stepping with `wrapping_add(1)` counts modulo 65536, so it comes back
      to the generation it started from exactly when the number of steps is a
      multiple of 65536. */
  lemma {:induction false} WrapStepsReturn(v: u16, n: nat)
    ensures WrapSteps(v, n) == (v + n) % U16_LIMIT
    ensures WrapSteps(v, n) == v <==> n % U16_LIMIT == 0
  {
    if n > 0 {
      WrapStepsReturn(v, n - 1);
    }
    ModuloReturn(v, n);
  }

  /** After the removal's own bump, the slot's generation comes back to the
      removed key's after `n` more bumps exactly when `n + 1` is a multiple of
      65536, so the first such `n` is 65535. */
  lemma RemovedKeyReturns(v: u16, n: nat)
    ensures WrapSteps(WrappingInc(v), n) == WrapSteps(v, n + 1)
    ensures WrapSteps(WrappingInc(v), n) == v <==> (n + 1) % U16_LIMIT == 0
  {
    WrapStepsReturn(WrappingInc(v), n);
    WrapStepsReturn(v, n + 1);
  }

  lemma ModuloReturn(v: u16, n: nat)
    ensures (v + n) % U16_LIMIT == v <==> n % U16_LIMIT == 0
  {
    var q, r := n / U16_LIMIT, n % U16_LIMIT;
    assert n == q * U16_LIMIT + r;
    assert (v + n) % U16_LIMIT == (v + r) % U16_LIMIT;
  }

  /** `2^n - 1`, the number whose lowest `n` bits are set. */
  function AllOnes(n: nat): nat
  {
    if n == 0 then 0 else 2 * AllOnes(n - 1) + 1
  }

  lemma {:induction false} AllOnesBelowHalf(n: nat)
    requires n < 16
    ensures AllOnes(n) <= 0x7FFF
    ensures n == 15 ==> AllOnes(n) == 0x7FFF
    decreases 16 - n
  {
    if n < 15 {
      AllOnesBelowHalf(n + 1);
    } else {
      assert AllOnes(15) == 0x7FFF;
    }
  }

  /** The generation of a slot that starts at 0 and is removed from `n`
      times with no `clear` in between: `2^n - 1` for the first sixteen
      removals, and 65535 from then on. */
  function Orbit(n: nat): (r: u16)
    ensures n <= 16 ==> r == AllOnes(n)
    ensures n >= 16 ==> r == U16_LIMIT - 1
  {
    if n == 0 then 0
    else
      var v := Orbit(n - 1);
      if n <= 16 then AllOnesBelowHalf(n - 1); RemoveBump(v)
      else RemoveBump(v)
  }

  // ---------------------------------------------------------------------------
  // The representation invariant, over the fields passed explicitly
  // ---------------------------------------------------------------------------

  /** The `inner` fields hold a permutation of the slot indices, and `pos`
      is its inverse: entry `p` of the permutation is `slots[p].inner`. */
  ghost predicate InnerPermutation(slots: seq<Slot>, pos: seq<nat>)
  {
    |slots| == |pos| && InnerInverse(slots, pos) && PosInverse(slots, pos)
  }

  /** `pos` undoes the permutation: entry `p` names a slot whose position is `p`. */
  ghost predicate InnerInverse(slots: seq<Slot>, pos: seq<nat>)
  {
    forall p {:trigger slots[p].inner} :: 0 <= p < |slots| ==> slots[p].inner < |pos| && pos[slots[p].inner] == p
  }

  /** The permutation undoes `pos`: the entry at the position of slot `s` is `s`. */
  ghost predicate PosInverse(slots: seq<Slot>, pos: seq<nat>)
  {
    forall s {:trigger pos[s]} :: 0 <= s < |pos| ==> pos[s] < |slots| && slots[pos[s]].inner == s
  }

  ghost predicate Shape(slots: seq<Slot>, n: nat, pos: seq<nat>)
  {
    |slots| == |pos| && n <= |slots| <= U32_LIMIT
  }

  /** Every occupied slot (one whose entry in the permutation is below `n`)
      points forward to that entry's position. With `InnerPermutation` this
      says that the slot named by `slots[p].inner` points forward to `p`. */
  ghost predicate BackPointers(slots: seq<Slot>, n: nat, pos: seq<nat>)
  {
    forall s {:trigger slots[s].outer} :: 0 <= s < |slots| && s < |pos| && pos[s] < n ==> slots[s].outer == pos[s]
  }

  /** Key `k` names an occupied slot at that slot's current generation. */
  ghost predicate Live(slots: seq<Slot>, n: nat, pos: seq<nat>, k: Key)
  {
    k.idx < |slots| && k.idx < |pos| && slots[k.idx].version == k.ver && pos[k.idx] < n
  }

  /** Every key of `contents` is live and maps to the value at its dense position. */
  ghost predicate LiveValues<T>(slots: seq<Slot>, data: seq<T>, pos: seq<nat>, contents: map<Key, T>)
  {
    forall k :: k in contents ==> Live(slots, |data|, pos, k) && contents[k] == data[pos[k.idx]]
  }

  /** The current key of every occupied slot is in `contents`. */
  ghost predicate OccupiedListed<T>(slots: seq<Slot>, data: seq<T>, pos: seq<nat>, contents: map<Key, T>)
  {
    forall s: u32 {:trigger slots[s].version} :: s < |slots| && s < |pos| && pos[s] < |data| ==> Key(s, slots[s].version) in contents
  }

  /** `contents` holds exactly the live keys, each with the value stored for it. */
  ghost predicate Abstraction<T>(slots: seq<Slot>, data: seq<T>, pos: seq<nat>, contents: map<Key, T>)
  {
    LiveValues(slots, data, pos, contents) && OccupiedListed(slots, data, pos, contents) && |contents| == |data|
  }

  ghost predicate Inv<T>(slots: seq<Slot>, data: seq<T>, pos: seq<nat>, contents: map<Key, T>)
  {
    && Shape(slots, |data|, pos)
    && InnerPermutation(slots, pos)
    && BackPointers(slots, |data|, pos)
    && Abstraction(slots, data, pos, contents)
  }

  /** `insert` with no free slot: a new slot at the end, its own entry of
      the permutation, generation 0. */
  lemma InsertAppendKeepsInv<T>(slots: seq<Slot>, data: seq<T>, pos: seq<nat>, contents: map<Key, T>, value: T)
    requires Inv(slots, data, pos, contents)
    requires |data| == |slots| < U32_LIMIT
    ensures Key(|slots|, 0) !in contents
    ensures var n := |slots|;
            var slots', data', pos' := slots + [Slot(n, 0, n)], data + [value], pos + [n];
            && Shape(slots', |data'|, pos') && InnerPermutation(slots', pos')
            && BackPointers(slots', |data'|, pos')
            && Abstraction(slots', data', pos', contents[Key(n, 0) := value])
  {
    AppendPermutation(slots, pos);
    AppendBackPointers(slots, pos);
    AppendAbstraction(slots, data, pos, contents, value);
  }

  lemma AppendPermutation(slots: seq<Slot>, pos: seq<nat>)
    requires InnerPermutation(slots, pos) && |slots| < U32_LIMIT
    ensures InnerPermutation(slots + [Slot(|slots|, 0, |slots|)], pos + [|slots|])
  {
    var n := |slots|;
    var slots', pos' := slots + [Slot(n, 0, n)], pos + [n];
    forall p | 0 <= p < |slots'| ensures slots'[p].inner < |pos'| && pos'[slots'[p].inner] == p {
      if p < n { assert slots'[p] == slots[p]; }
    }
  }

  lemma AppendBackPointers(slots: seq<Slot>, pos: seq<nat>)
    requires InnerPermutation(slots, pos) && BackPointers(slots, |slots|, pos) && |slots| < U32_LIMIT
    ensures BackPointers(slots + [Slot(|slots|, 0, |slots|)], |slots| + 1, pos + [|slots|])
  {
    var n := |slots|;
    var slots', pos' := slots + [Slot(n, 0, n)], pos + [n];
    forall s | 0 <= s < |slots'| && s < |pos'| && pos'[s] < n + 1 ensures slots'[s].outer == pos'[s] {
      if s < n { assert slots'[s] == slots[s] && pos'[s] == pos[s]; }
    }
  }

  lemma AppendAbstraction<T>(slots: seq<Slot>, data: seq<T>, pos: seq<nat>, contents: map<Key, T>, value: T)
    requires InnerPermutation(slots, pos) && Abstraction(slots, data, pos, contents)
    requires |data| == |slots| < U32_LIMIT
    ensures Key(|slots|, 0) !in contents
    ensures Abstraction(slots + [Slot(|slots|, 0, |slots|)], data + [value], pos + [|slots|], contents[Key(|slots|, 0) := value])
  {
    var n := |slots|;
    assert Key(n, 0) !in contents;
    assert |contents[Key(n, 0) := value]| == |contents| + 1;
    AppendLive(slots, data, pos, contents, value);
    AppendOccupied(slots, data, pos, contents, value);
  }

  lemma AppendLive<T>(slots: seq<Slot>, data: seq<T>, pos: seq<nat>, contents: map<Key, T>, value: T)
    requires LiveValues(slots, data, pos, contents) && |data| == |slots| == |pos| < U32_LIMIT
    ensures LiveValues(slots + [Slot(|slots|, 0, |slots|)], data + [value], pos + [|slots|], contents[Key(|slots|, 0) := value])
  {
    var n := |slots|;
    var slots', data', pos' := slots + [Slot(n, 0, n)], data + [value], pos + [n];
    var contents' := contents[Key(n, 0) := value];
    forall k | k in contents' ensures Live(slots', |data'|, pos', k) && contents'[k] == data'[pos'[k.idx]] {
      if k != Key(n, 0) {
        assert k in contents && k.idx < n;
        assert slots'[k.idx] == slots[k.idx] && pos'[k.idx] == pos[k.idx];
      }
    }
  }

  lemma AppendOccupied<T>(slots: seq<Slot>, data: seq<T>, pos: seq<nat>, contents: map<Key, T>, value: T)
    requires InnerPermutation(slots, pos) && OccupiedListed(slots, data, pos, contents)
    requires |data| == |slots| < U32_LIMIT
    ensures OccupiedListed(slots + [Slot(|slots|, 0, |slots|)], data + [value], pos + [|slots|], contents[Key(|slots|, 0) := value])
  {
    var n := |slots|;
    var slots', data', pos' := slots + [Slot(n, 0, n)], data + [value], pos + [n];
    forall s: u32 | s < |slots'| && s < |pos'| && pos'[s] < |data'|
      ensures Key(s, slots'[s].version) in contents[Key(n, 0) := value]
    {
      if s < n {
        assert slots'[s] == slots[s] && pos'[s] == pos[s] < |data|;
        assert Key(s, slots[s].version) in contents;
      }
    }
  }

  /** `insert` reusing the slot named by entry `|data|` of the permutation, at
      its current generation. */
  lemma InsertReuseKeepsInv<T>(slots: seq<Slot>, data: seq<T>, pos: seq<nat>, contents: map<Key, T>,
                               value: T, key: Key, slots': seq<Slot>, data': seq<T>, contents': map<Key, T>)
    requires Inv(slots, data, pos, contents)
    requires |data| < |slots|
    requires key == Key(slots[|data|].inner, slots[slots[|data|].inner].version)
    requires slots' == slots[key.idx := slots[key.idx].(outer := |data|)]
    requires data' == data + [value] && contents' == contents[key := value]
    ensures key !in contents
    ensures Inv(slots', data', pos, contents')
  {
    assert pos[key.idx] == |data|;
    ReusePermutation(slots, pos, key.idx, |data|, slots');
    ReuseBackPointers(slots, |data|, pos, key.idx, slots');
    ReuseAbstraction(slots, data, pos, contents, value, key, slots');
  }

  lemma ReusePermutation(slots: seq<Slot>, pos: seq<nat>, s: nat, n: u32, slots': seq<Slot>)
    requires InnerPermutation(slots, pos) && s < |slots| && slots' == slots[s := slots[s].(outer := n)]
    ensures InnerPermutation(slots', pos)
  {
    forall p | 0 <= p < |slots'| ensures slots'[p].inner < |pos| && pos[slots'[p].inner] == p {
      assert slots'[p].inner == slots[p].inner;
    }
  }

  lemma ReuseBackPointers(slots: seq<Slot>, n: nat, pos: seq<nat>, s: nat, slots': seq<Slot>)
    requires Shape(slots, n, pos) && InnerPermutation(slots, pos) && BackPointers(slots, n, pos)
    requires n < |slots| && s == slots[n].inner && slots' == slots[s := slots[s].(outer := n)]
    ensures BackPointers(slots', n + 1, pos)
  {
    forall t | 0 <= t < |slots'| && t < |pos| && pos[t] < n + 1 ensures slots'[t].outer == pos[t] {
      if t != s { assert slots[pos[t]].inner == t; }
    }
  }

  lemma ReuseAbstraction<T>(slots: seq<Slot>, data: seq<T>, pos: seq<nat>, contents: map<Key, T>,
                            value: T, key: Key, slots': seq<Slot>)
    requires Shape(slots, |data|, pos) && InnerPermutation(slots, pos)
    requires Abstraction(slots, data, pos, contents)
    requires |data| < |slots| && key == Key(slots[|data|].inner, slots[slots[|data|].inner].version)
    requires slots' == slots[key.idx := slots[key.idx].(outer := |data|)]
    ensures key !in contents
    ensures Abstraction(slots', data + [value], pos, contents[key := value])
  {
    assert pos[key.idx] == |data|;
    assert !Live(slots, |data|, pos, key);
    assert |contents[key := value]| == |contents| + 1;
    ReuseLive(slots, data, pos, contents, value, key, slots');
    ReuseOccupied(slots, data, pos, contents, value, key, slots');
  }

  lemma ReuseLive<T>(slots: seq<Slot>, data: seq<T>, pos: seq<nat>, contents: map<Key, T>,
                     value: T, key: Key, slots': seq<Slot>)
    requires Shape(slots, |data|, pos) && LiveValues(slots, data, pos, contents)
    requires key.idx < |slots| && pos[key.idx] == |data| < U32_LIMIT
    requires slots' == slots[key.idx := slots[key.idx].(outer := |data|)]
    requires key.ver == slots[key.idx].version
    ensures LiveValues(slots', data + [value], pos, contents[key := value])
  {
    var data', contents' := data + [value], contents[key := value];
    forall k | k in contents' ensures Live(slots', |data'|, pos, k) && contents'[k] == data'[pos[k.idx]] {
      if k != key { assert k in contents; }
    }
  }

  lemma ReuseOccupied<T>(slots: seq<Slot>, data: seq<T>, pos: seq<nat>, contents: map<Key, T>,
                         value: T, key: Key, slots': seq<Slot>)
    requires Shape(slots, |data|, pos) && InnerPermutation(slots, pos) && OccupiedListed(slots, data, pos, contents)
    requires key.idx < |slots| && pos[key.idx] == |data| < U32_LIMIT && key.ver == slots[key.idx].version
    requires slots' == slots[key.idx := slots[key.idx].(outer := |data|)]
    ensures OccupiedListed(slots', data + [value], pos, contents[key := value])
  {
    var data', contents' := data + [value], contents[key := value];
    forall t: u32 | t < |slots'| && t < |pos| && pos[t] < |data'| ensures Key(t, slots'[t].version) in contents' {
      if t != key.idx {
        assert slots[pos[t]].inner == t && slots[|data|].inner == key.idx;
        assert slots'[t] == slots[t];
        assert Key(t, slots[t].version) in contents;
      }
    }
  }

  /** The slots after `remove` of the key of slot `s` at dense position `r`,
      field by field: slot `s` has the new generation `v`; entry `last` of
      the permutation (the old last dense position, top of the free stack
      from now on) is `s`; the slot `u` whose value moved into the hole takes
      entry `r` and points forward to `r`. */
  ghost predicate RemovedSlots(slots: seq<Slot>, s: nat, v: u16, r: u32, last: nat, u: u32, slots': seq<Slot>)
  {
    && |slots'| == |slots|
    && forall t :: 0 <= t < |slots'| ==>
         && slots'[t].version == (if t == s then v else slots[t].version)
         && slots'[t].outer == (if t == u then r else slots[t].outer)
         && slots'[t].inner == (if t == r then u else if t == last then s else slots[t].inner)
  }

  /** The slots after the writes of `remove`, in the order the source makes
      them: the generation of `s`, then entry `last` of the permutation, entry
      `r`, and the forward pointer of `u`. */
  function Unlinked(slots: seq<Slot>, s: u32, v: u16, r: u32, last: nat, u: u32): seq<Slot>
    requires s < |slots| && r < |slots| && last < |slots| && u < |slots|
  {
    var bumped := slots[s := slots[s].(version := v)];
    var parked := bumped[last := bumped[last].(inner := s)];
    var relinked := parked[r := parked[r].(inner := u)];
    relinked[u := relinked[u].(outer := r)]
  }

  /** The writes of `remove`, read field by field. */
  lemma UnlinkedFieldwise(slots: seq<Slot>, s: u32, v: u16, r: u32, last: nat, u: u32)
    requires s < |slots| && r < |slots| && last < |slots| && u < |slots|
    ensures RemovedSlots(slots, s, v, r, last, u, Unlinked(slots, s, v, r, last, u))
  {
  }

  /** One `remove` of the live key `key`, with `pos'` the new inverse. */
  ghost predicate RemoveStep<T>(slots: seq<Slot>, data: seq<T>, pos: seq<nat>, contents: map<Key, T>,
                                key: Key, v: u16, slots': seq<Slot>, data': seq<T>, pos': seq<nat>)
  {
    && Inv(slots, data, pos, contents)
    && Live(slots, |data|, pos, key) && key in contents
    && var r := pos[key.idx];
       var last := |data| - 1;
       var u := slots[last].inner;
       && r < |data| && u < |pos|
       && RemovedSlots(slots, key.idx, v, r, last, u, slots')
       && data' == SwapRemove(data, r)
       && pos' == pos[key.idx := last][u := r]
  }

  /** `remove` of a live key keeps the representation invariant, whatever
      the new generation of its slot. */
  lemma RemoveKeepsInv<T>(slots: seq<Slot>, data: seq<T>, pos: seq<nat>, contents: map<Key, T>,
                          key: Key, v: u16, slots': seq<Slot>, data': seq<T>, pos': seq<nat>)
    requires RemoveStep(slots, data, pos, contents, key, v, slots', data', pos')
    ensures Shape(slots', |data'|, pos') && InnerPermutation(slots', pos')
    ensures BackPointers(slots', |data'|, pos')
    ensures Abstraction(slots', data', pos', contents - {key})
  {
    RemovePermutation(slots, data, pos, contents, key, v, slots', data', pos');
    RemoveBackPointers(slots, data, pos, contents, key, v, slots', data', pos');
    RemoveAbstraction(slots, data, pos, contents, key, v, slots', data', pos');
  }

  /** `RemoveKeepsInv` for the slots written in the source's order. */
  lemma UnlinkKeepsInv<T>(slots: seq<Slot>, data: seq<T>, pos: seq<nat>, contents: map<Key, T>,
                          key: Key, v: u16, slots': seq<Slot>, data': seq<T>, pos': seq<nat>)
    requires Inv(slots, data, pos, contents)
    requires Live(slots, |data|, pos, key) && key in contents
    requires var r := pos[key.idx];
             var last := |data| - 1;
             var u := slots[last].inner;
             && r < |data| && u < |pos|
             && slots' == Unlinked(slots, key.idx, v, r, last, u)
             && data' == SwapRemove(data, r)
             && pos' == pos[key.idx := last][u := r]
    ensures Inv(slots', data', pos', contents - {key})
  {
    var r := pos[key.idx];
    var last := |data| - 1;
    UnlinkedFieldwise(slots, key.idx, v, r, last, slots[last].inner);
    RemoveKeepsInv(slots, data, pos, contents, key, v, slots', data', pos');
  }

  lemma RemovePermutation<T>(slots: seq<Slot>, data: seq<T>, pos: seq<nat>, contents: map<Key, T>,
                             key: Key, v: u16, slots': seq<Slot>, data': seq<T>, pos': seq<nat>)
    requires RemoveStep(slots, data, pos, contents, key, v, slots', data', pos')
    ensures InnerPermutation(slots', pos')
  {
    var s, last := key.idx, |data| - 1;
    var r := pos[s];
    var u := slots[last].inner;
    assert slots[r].inner == s;
    RelinkInnerInverse(slots, pos, s, v, r, last, u, slots', pos');
    RelinkPosInverse(slots, pos, s, v, r, last, u, slots', pos');
  }

  /** The permutation after `remove` is undone by the new `pos`. */
  lemma RelinkInnerInverse(slots: seq<Slot>, pos: seq<nat>, s: nat, v: u16, r: u32, last: nat, u: u32,
                           slots': seq<Slot>, pos': seq<nat>)
    requires InnerPermutation(slots, pos) && r < |slots| && last < |slots|
    requires slots[r].inner == s && slots[last].inner == u
    requires RemovedSlots(slots, s, v, r, last, u, slots') && pos' == pos[s := last][u := r]
    ensures InnerInverse(slots', pos')
  {
    forall p | 0 <= p < |slots'| ensures slots'[p].inner < |pos'| && pos'[slots'[p].inner] == p {
      if p == r {
        assert slots'[r].inner == u;
      } else if p == last {
        assert slots'[last].inner == s && pos[s] == r && pos[u] == last;
      } else {
        var t := slots[p].inner;
        assert slots'[p].inner == t && pos[t] == p;
      }
    }
  }

  /** The new `pos` after `remove` is undone by the permutation. */
  lemma RelinkPosInverse(slots: seq<Slot>, pos: seq<nat>, s: nat, v: u16, r: u32, last: nat, u: u32,
                         slots': seq<Slot>, pos': seq<nat>)
    requires InnerPermutation(slots, pos) && r < |slots| && last < |slots|
    requires slots[r].inner == s && slots[last].inner == u
    requires RemovedSlots(slots, s, v, r, last, u, slots') && pos' == pos[s := last][u := r]
    ensures PosInverse(slots', pos')
  {
    assert pos[s] == r && pos[u] == last;
    forall t | 0 <= t < |pos'| ensures pos'[t] < |slots'| && slots'[pos'[t]].inner == t {
      if t == u {
        assert slots'[r].inner == u;
      } else if t == s {
        assert slots'[last].inner == s;
      } else {
        assert slots[pos[t]].inner == t;
        assert slots'[pos[t]].inner == t;
      }
    }
  }

  lemma RemoveBackPointers<T>(slots: seq<Slot>, data: seq<T>, pos: seq<nat>, contents: map<Key, T>,
                              key: Key, v: u16, slots': seq<Slot>, data': seq<T>, pos': seq<nat>)
    requires RemoveStep(slots, data, pos, contents, key, v, slots', data', pos')
    ensures BackPointers(slots', |data'|, pos')
  {
    var s, n := key.idx, |data|;
    var r := pos[s];
    var u := slots[n - 1].inner;
    assert slots[r].inner == s && slots[s].outer == r;
    assert pos[u] == n - 1;
    forall t | 0 <= t < |slots'| && t < |pos'| && pos'[t] < n - 1 ensures slots'[t].outer == pos'[t] {
      if t != u {
        assert slots[pos[t]].inner == t;
      }
    }
  }

  lemma RemoveAbstraction<T>(slots: seq<Slot>, data: seq<T>, pos: seq<nat>, contents: map<Key, T>,
                             key: Key, v: u16, slots': seq<Slot>, data': seq<T>, pos': seq<nat>)
    requires RemoveStep(slots, data, pos, contents, key, v, slots', data', pos')
    ensures Abstraction(slots', data', pos', contents - {key})
  {
    assert |contents - {key}| == |contents| - 1;
    RemoveLiveValues(slots, data, pos, contents, key, v, slots', data', pos');
    RemoveOccupied(slots, data, pos, contents, key, v, slots', data', pos');
  }

  lemma RemoveLiveValues<T>(slots: seq<Slot>, data: seq<T>, pos: seq<nat>, contents: map<Key, T>,
                            key: Key, v: u16, slots': seq<Slot>, data': seq<T>, pos': seq<nat>)
    requires RemoveStep(slots, data, pos, contents, key, v, slots', data', pos')
    ensures LiveValues(slots', data', pos', contents - {key})
  {
    var s, last := key.idx, |data| - 1;
    var r := pos[s];
    var u := slots[last].inner;
    assert slots[r].inner == s && slots[s].outer == r;
    assert pos[u] == last;
    var contents' := contents - {key};
    forall k | k in contents' ensures Live(slots', |data'|, pos', k) && contents'[k] == data'[pos'[k.idx]] {
      assert k in contents && k.idx != s;
      if k.idx == u {
        assert r != last;
      } else {
        assert pos[k.idx] != r && pos[k.idx] != last;
      }
    }
  }

  lemma RemoveOccupied<T>(slots: seq<Slot>, data: seq<T>, pos: seq<nat>, contents: map<Key, T>,
                          key: Key, v: u16, slots': seq<Slot>, data': seq<T>, pos': seq<nat>)
    requires RemoveStep(slots, data, pos, contents, key, v, slots', data', pos')
    ensures OccupiedListed(slots', data', pos', contents - {key})
  {
    var s, last := key.idx, |data| - 1;
    var r := pos[s];
    var u := slots[last].inner;
    assert slots[r].inner == s;
    assert pos[u] == last;
    forall t: u32 | t < |slots'| && t < |pos'| && pos'[t] < |data'| ensures Key(t, slots'[t].version) in contents - {key} {
      assert t != s;
      assert Key(t, slots[t].version) in contents;
    }
  }

  /** Writing through the reference to dense position `p` changes the value of
      the key that owns `p` and nothing else. */
  lemma WriteKeepsInv<T>(slots: seq<Slot>, data: seq<T>, pos: seq<nat>, contents: map<Key, T>, p: nat, value: T)
    requires Inv(slots, data, pos, contents) && p < |data|
    ensures Key(slots[p].inner, slots[slots[p].inner].version) in contents
    ensures Inv(slots, data[p := value], pos, contents[Key(slots[p].inner, slots[slots[p].inner].version) := value])
  {
    var o := Key(slots[p].inner, slots[slots[p].inner].version);
    assert pos[o.idx] == p;
    assert o in contents;
    var data', contents' := data[p := value], contents[o := value];
    assert contents'.Keys == contents.Keys;
    forall k | k in contents' ensures Live(slots, |data'|, pos, k) && contents'[k] == data'[pos[k.idx]] {
      if k != o {
        assert k in contents;
        assert slots[pos[k.idx]].inner == k.idx;
      }
    }
  }

  /** `clear`: nothing stored and the identity permutation, whatever the generations. */
  lemma ClearKeepsInv<T>(slots: seq<Slot>, data': seq<T>, pos': seq<nat>, contents': map<Key, T>)
    requires |slots| <= U32_LIMIT && data' == [] && contents' == map[]
    requires forall p :: 0 <= p < |slots| ==> slots[p].inner == p
    requires |pos'| == |slots| && forall s :: 0 <= s < |pos'| ==> pos'[s] == s
    ensures Inv(slots, data', pos', contents')
  {
  }

  // ---------------------------------------------------------------------------
  // The map
  // ---------------------------------------------------------------------------

  class UniqueNaiveSlotMap<T> {
    var slots: seq<Slot>
    var data: seq<T>

    ghost var Contents: map<Key, T>
    ghost var Pos: seq<nat>

    ghost predicate Valid()
      reads this
    {
      Inv(slots, data, Pos, Contents)
    }

    /** The version check of `get` and `remove`: the slot exists and has the key's generation. */
    predicate Matches(key: Key)
      reads this
    {
      key.idx < |slots| && slots[key.idx].version == key.ver
    }

    /** A matching key does not send the unchecked read of `data` out of range. */
    ghost predicate InBounds(key: Key)
      reads this
    {
      Matches(key) ==> slots[key.idx].outer < |data|
    }

    /** A matching key names an occupied slot, so `remove` keeps the
        structure intact. A key removed at generation 65535 is not admissible. */
    ghost predicate Admissible(key: Key)
      reads this
    {
      Matches(key) ==> key in Contents
    }

    /** The live key whose value sits at dense position `p`. */
    ghost function Owner(p: nat): Key
      reads this
      requires Valid() && p < |data|
    {
      Key(slots[p].inner, slots[slots[p].inner].version)
    }

    /** The key the next `insert` hands out. */
    ghost function NextKey(): Key
      reads this
      requires Valid() && |data| < U32_LIMIT
    {
      if |data| == |slots| then Key(|slots|, 0)
      else Key(slots[|data|].inner, slots[slots[|data|].inner].version)
    }

    /** A live key's slot points at the dense position that holds its value. */
    lemma LiveKeyReadsItself(key: Key)
      requires Valid() && key in Contents
      ensures Matches(key) && slots[key.idx].outer == Pos[key.idx] < |data|
      ensures Contents[key] == data[slots[key.idx].outer]
    {
      assert slots[Pos[key.idx]].inner == key.idx;
    }

    /** What a matching key reads: the value of the live key that owns the
        slot's dense position, which is the key itself when it is live. */
    lemma MatchingKeyReadsOwner(key: Key)
      requires Valid() && InBounds(key) && Matches(key)
      ensures Owner(slots[key.idx].outer) in Contents
      ensures Contents[Owner(slots[key.idx].outer)] == data[slots[key.idx].outer]
      ensures key in Contents ==> Owner(slots[key.idx].outer) == key
    {
      var p := slots[key.idx].outer;
      var o := slots[p].inner;
      assert Pos[o] == p;
      assert Key(o, slots[o].version) in Contents;
      if key in Contents {
        assert slots[Pos[key.idx]].inner == key.idx;
      }
    }

    /** `new` */
    constructor ()
      ensures Valid()
      ensures slots == [] && data == [] && Contents == map[]
    {
      slots, data := [], [];
      Contents, Pos := map[], [];
    }

    /** `len`: the number of live values. */
    function Len(): (n: nat)
      reads this
      requires Valid()
      ensures n == |Contents|
    {
      |data|
    }

    /** `clear`: drops every value, advances every generation by one with
        wrap-around and makes the permutation the identity. No key that
        matched before matches afterwards. */
    method Clear()
      requires Valid()
      modifies this
      ensures Valid()
      ensures data == [] && Contents == map[]
      ensures |slots| == old(|slots|)
      ensures forall s :: 0 <= s < |slots| ==>
                slots[s] == old(slots[s]).(version := WrappingInc(old(slots[s]).version), inner := s)
      ensures forall k :: old(Matches(k)) ==> !Matches(k)
    {
      data := [];
      ResetSlots();
      Pos, Contents := seq(|slots|, s => s), map[];
      ClearKeepsInv(slots, data, Pos, Contents);
    }

    /** The loop of `clear`. */
    method ResetSlots()
      requires |slots| <= U32_LIMIT
      modifies this
      ensures |slots| == old(|slots|)
      ensures forall s :: 0 <= s < |slots| ==>
                slots[s] == old(slots[s]).(version := WrappingInc(old(slots[s]).version), inner := s)
      ensures data == old(data) && unchanged(`Pos, `Contents)
    {
      var counter := 0;
      while counter < |slots|
        invariant 0 <= counter <= |slots| == old(|slots|)
        invariant forall s :: 0 <= s < counter ==>
                    slots[s] == old(slots[s]).(version := WrappingInc(old(slots[s]).version), inner := s)
        invariant forall s :: counter <= s < |slots| ==> slots[s] == old(slots[s])
        invariant data == old(data) && unchanged(`Pos, `Contents)
      {
        slots := slots[counter := slots[counter].(version := WrappingInc(slots[counter].version), inner := counter)];
        counter := counter + 1;
      }
    }

    /** `insert`: stores `value` at the end of `data` and hands out a slot.
        With no free slot a new one is appended at generation 0; otherwise the
        slot named by entry `|data|` of the permutation is reused at the
        generation it already has. */
    method Insert(value: T) returns (key: Key)
      requires Valid() && |data| < U32_LIMIT
      modifies this
      ensures Valid()
      ensures key == old(NextKey())
      ensures key !in old(Contents) && Contents == old(Contents)[key := value]
      ensures data == old(data) + [value]
      ensures old(|data|) == old(|slots|) ==> slots == old(slots) + [Slot(key.idx, 0, key.idx)]
      ensures old(|data|) < old(|slots|) ==> slots == old(slots)[key.idx := old(slots[key.idx]).(outer := old(|data|))]
    {
      if |data| == |slots| {
        key := InsertNewSlot(value);
      } else {
        key := InsertFreeSlot(value);
      }
    }

    /** `insert` with an empty free stack: a new slot at generation 0. */
    method InsertNewSlot(value: T) returns (key: Key)
      requires Valid() && |data| == |slots| < U32_LIMIT
      modifies this
      ensures Valid()
      ensures key == Key(old(|slots|), 0) == old(NextKey())
      ensures key !in old(Contents) && Contents == old(Contents)[key := value]
      ensures data == old(data) + [value]
      ensures slots == old(slots) + [Slot(key.idx, 0, key.idx)]
    {
      var index := |data|;
      data := data + [value];
      slots := slots + [Slot(index, 0, index)];
      Pos := Pos + [index];
      key := Key(index, 0);
      Contents := Contents[key := value];
      InsertAppendKeepsInv(old(slots), old(data), old(Pos), old(Contents), value);
    }

    /** `insert` popping the top of the free stack, at the generation the slot already has. */
    method InsertFreeSlot(value: T) returns (key: Key)
      requires Valid() && |data| < |slots|
      modifies this
      ensures Valid()
      ensures key == old(NextKey())
      ensures key !in old(Contents) && Contents == old(Contents)[key := value]
      ensures data == old(data) + [value]
      ensures slots == old(slots)[key.idx := old(slots[key.idx]).(outer := old(|data|))]
    {
      var index := |data|;
      data := data + [value];
      var keyIndex := slots[index].inner;
      var version := slots[keyIndex].version;
      slots := slots[keyIndex := slots[keyIndex].(outer := index)];
      key := Key(keyIndex, version);
      Contents := Contents[key := value];
      InsertReuseKeepsInv(old(slots), old(data), Pos, old(Contents), value, key, slots, data, Contents);
    }

    /** `remove`: for a key of the right generation, advances the generation
        `v` to `v + ((v + 1) mod 65536)`, swap-removes the value, repoints the
        slot whose value moved into the hole and pushes the freed slot on the
        free stack. Any other key gets `None` and changes nothing. The removed
        key stops matching unless its generation was 65535. */
    method Remove(key: Key) returns (removed: Option<T>)
      requires Valid() && Admissible(key)
      requires Matches(key) ==> BumpFits(key.ver)
      modifies this
      ensures Valid()
      ensures removed.Some? <==> old(Matches(key))
      ensures removed == if key in old(Contents) then Some(old(Contents)[key]) else None
      ensures Contents == (if removed.Some? then old(Contents) - {key} else old(Contents))
      ensures removed.None? ==> unchanged(this)
      ensures removed.Some? ==>
                && data == SwapRemove(old(data), old(slots[key.idx].outer))
                && RemovedSlots(old(slots), key.idx, RemoveBump(key.ver), old(slots[key.idx].outer),
                                |data|, old(slots)[|data|].inner, slots)
                && slots[key.idx].version == RemoveBump(key.ver)
                && (Matches(key) <==> key.ver == U16_LIMIT - 1)
                && NextKey() == Key(key.idx, RemoveBump(key.ver))
    {
      if key.idx >= |slots| || slots[key.idx].version != key.ver {
        return None;
      }
      var value := RemoveLive(key, RemoveBump(key.ver));
      removed := Some(value);
      UnlinkedFieldwise(old(slots), key.idx, RemoveBump(key.ver), old(slots[key.idx].outer), |data|, old(slots)[|data|].inner);
    }

    /** The body of `remove` once the generation check has passed, with the
        new generation `v` of the key's slot as a parameter. */
    method RemoveLive(key: Key, v: u16) returns (value: T)
      requires Valid() && key in Contents
      modifies this
      ensures Valid()
      ensures value == old(Contents)[key]
      ensures Contents == old(Contents) - {key}
      ensures data == SwapRemove(old(data), old(slots[key.idx].outer))
      ensures slots == Unlinked(old(slots), key.idx, v, old(slots[key.idx].outer), |data|, old(slots)[|data|].inner)
    {
      LiveKeyReadsItself(key);
      ghost var pos0, contents0 := Pos, Contents;
      var slots0, data0 := slots, data;
      var removeIndex := slots0[key.idx].outer;
      var slots' := slots0[key.idx := slots0[key.idx].(version := v)];
      value := data0[removeIndex];
      var data' := SwapRemove(data0, removeIndex);
      var last := |data'|;
      var updateIndex := slots'[last].inner;
      slots' := slots'[last := slots'[last].(inner := key.idx)];
      slots' := slots'[removeIndex := slots'[removeIndex].(inner := updateIndex)];
      slots' := slots'[updateIndex := slots'[updateIndex].(outer := removeIndex)];
      ghost var pos': seq<nat> := pos0[key.idx := last][updateIndex := removeIndex];
      slots, data, Pos, Contents := slots', data', pos', contents0 - {key};
      UnlinkKeepsInv(slots0, data0, pos0, contents0, key, v, slots, data, Pos);
    }

    /** `remove` with the bump written as `wrapping_add(1)`: whatever its
        generation, the removed key no longer matches once the call returns.
        The slot is then one step past the key's generation, so it can match
        again only after 65535 more wrapping bumps, 65536 counting the
        removal's own (`RemovedKeyReturns`). */
    method RemoveWrapping(key: Key) returns (removed: Option<T>)
      requires Valid() && Admissible(key)
      modifies this
      ensures Valid()
      ensures removed.Some? <==> old(Matches(key))
      ensures removed == if key in old(Contents) then Some(old(Contents)[key]) else None
      ensures Contents == (if removed.Some? then old(Contents) - {key} else old(Contents))
      ensures removed.None? ==> unchanged(this)
      ensures removed.Some? ==>
                && data == SwapRemove(old(data), old(slots[key.idx].outer))
                && RemovedSlots(old(slots), key.idx, WrappingInc(key.ver), old(slots[key.idx].outer),
                                |data|, old(slots)[|data|].inner, slots)
                && slots[key.idx].version == WrappingInc(key.ver)
                && NextKey() == Key(key.idx, WrappingInc(key.ver))
      ensures !Matches(key)
    {
      if key.idx >= |slots| || slots[key.idx].version != key.ver {
        return None;
      }
      var value := RemoveLive(key, WrappingInc(key.ver));
      removed := Some(value);
      UnlinkedFieldwise(old(slots), key.idx, WrappingInc(key.ver), old(slots[key.idx].outer), |data|, old(slots)[|data|].inner);
    }

    /** `get`: the slot index is not checked, so the caller must keep it in
        range. `None` unless the slot has the key's generation; then the value
        at the slot's dense position. */
    function Get(key: Key): (r: Option<T>)
      reads this
      requires Valid() && key.idx < |slots| && InBounds(key)
      ensures r.Some? <==> Matches(key)
      ensures key in Contents ==> r == Some(Contents[key])
      ensures r.Some? ==> Owner(slots[key.idx].outer) in Contents
                          && r.value == Contents[Owner(slots[key.idx].outer)]
    {
      if slots[key.idx].version != key.ver then None
      else
        MatchingKeyReadsOwner(key);
        Some(data[slots[key.idx].outer])
    }

    /** The model of assigning `value` through the `&mut T` that points at
        dense position `p`. */
    method WriteAt(p: nat, value: T)
      requires Valid() && p < |data|
      modifies this
      ensures Valid()
      ensures data == old(data)[p := value]
      ensures Contents == old(Contents)[old(Owner(p)) := value]
      ensures slots == old(slots) && Pos == old(Pos)
    {
      WriteKeepsInv(slots, data, Pos, Contents, p, value);
      data := data[p := value];
      Contents := Contents[Key(slots[p].inner, slots[slots[p].inner].version) := value];
    }

    /** `get_mut`, followed by a write of `value` through the reference it
        returns. Unlike `get`, the slot index is checked: an index out of range
        gets `None`, as does a key of another generation, and nothing changes. */
    method GetMut(key: Key, value: T) returns (previous: Option<T>)
      requires Valid() && InBounds(key)
      modifies this
      ensures Valid()
      ensures previous.Some? <==> old(Matches(key))
      ensures key in old(Contents) ==> previous == Some(old(Contents)[key]) && Contents == old(Contents)[key := value]
      ensures key.idx < old(|slots|) ==> previous == old(Get(key))
      ensures previous.Some? ==> Contents == old(Contents)[old(Owner(slots[key.idx].outer)) := value]
      ensures previous.None? ==> unchanged(this)
      ensures |data| == old(|data|)
      ensures slots == old(slots) && Pos == old(Pos)
      ensures previous.Some? ==> data == old(data)[old(slots[key.idx].outer) := value]
    {
      if key.idx >= |slots| || slots[key.idx].version != key.ver {
        return None;
      }
      MatchingKeyReadsOwner(key);
      var p := slots[key.idx].outer;
      previous := Some(data[p]);
      WriteAt(p, value);
    }

    /** `get_unchecked`: the same reads as `get`. */
    function GetUnchecked(key: Key): (r: Option<T>)
      reads this
      requires Valid() && key.idx < |slots| && InBounds(key)
      ensures r == Get(key)
      ensures r.Some? <==> slots[key.idx].version == key.ver
      ensures key in Contents ==> r == Some(Contents[key])
    {
      if slots[key.idx].version != key.ver then None
      else Some(data[slots[key.idx].outer])
    }

    /** `get_unchecked_mut` followed by a write through the reference; the slot
        index must be in range. */
    method GetUncheckedMut(key: Key, value: T) returns (previous: Option<T>)
      requires Valid() && key.idx < |slots| && InBounds(key)
      modifies this
      ensures Valid()
      ensures previous == old(Get(key))
      ensures key in old(Contents) ==> Contents == old(Contents)[key := value]
      ensures previous.Some? ==> Contents == old(Contents)[old(Owner(slots[key.idx].outer)) := value]
      ensures previous.None? ==> unchanged(this)
      ensures |data| == old(|data|)
      ensures slots == old(slots) && Pos == old(Pos)
      ensures previous.Some? ==> data == old(data)[old(slots[key.idx].outer) := value]
    {
      if slots[key.idx].version != key.ver {
        return None;
      }
      MatchingKeyReadsOwner(key);
      var p := slots[key.idx].outer;
      previous := Some(data[p]);
      WriteAt(p, value);
    }

    /** `map[key]`: `get(key).unwrap()`. */
    function Index(key: Key): (r: T)
      reads this
      requires Valid() && InBounds(key) && Matches(key)
      ensures Get(key) == Some(r)
      ensures key in Contents ==> r == Contents[key]
    {
      Get(key).value
    }

    /** `map[key] = value`: `get_mut(key).unwrap()` and a write through it. */
    method IndexMut(key: Key, value: T)
      requires Valid() && InBounds(key) && Matches(key)
      modifies this
      ensures Valid()
      ensures key in old(Contents) ==> Contents == old(Contents)[key := value]
      ensures Contents == old(Contents)[old(Owner(slots[key.idx].outer)) := value]
      ensures |data| == old(|data|)
      ensures slots == old(slots) && Pos == old(Pos)
      ensures data == old(data)[old(slots[key.idx].outer) := value]
    {
      MatchingKeyReadsOwner(key);
      WriteAt(slots[key.idx].outer, value);
    }

    /** `iter`: the values in dense order. Every live value appears exactly
        once, at the dense position its slot points to. */
    function Iter(): (r: seq<T>)
      reads this
      requires Valid()
      ensures |r| == |Contents|
      ensures forall k :: k in Contents ==> Pos[k.idx] < |r| && r[Pos[k.idx]] == Contents[k]
      ensures forall p :: 0 <= p < |r| ==> Owner(p) in Contents && Contents[Owner(p)] == r[p]
      ensures forall p, q :: 0 <= p < q < |r| ==> Owner(p) != Owner(q)
    {
      IterOwners();
      data
    }

    lemma IterOwners()
      requires Valid()
      ensures forall p :: 0 <= p < |data| ==> Owner(p) in Contents && Contents[Owner(p)] == data[p]
      ensures forall p, q :: 0 <= p < q < |data| ==> Owner(p) != Owner(q)
    {
      forall p | 0 <= p < |data| ensures Owner(p) in Contents && Contents[Owner(p)] == data[p] {
        assert Pos[slots[p].inner] == p;
        assert Key(slots[p].inner, slots[slots[p].inner].version) in Contents;
      }
      forall p, q | 0 <= p < q < |data| ensures Owner(p) != Owner(q) {
        assert Pos[slots[p].inner] == p && Pos[slots[q].inner] == q;
      }
    }
  }

  // ---------------------------------------------------------------------------
  // A removed key that matches again
  // ---------------------------------------------------------------------------

  /** A map whose only slot is free, at generation `v`. */
  ghost predicate OneFreeSlot(m: UniqueNaiveSlotMap<int>, v: u16)
    reads m
  {
    m.Valid() && m.Contents == map[] && |m.slots| == 1 && m.slots[0].version == v && m.slots[0].inner == 0
  }

  /** Sixteen insert/remove rounds on a single slot bring its generation to
      65535. The key then handed out for the slot is removed (it would be
      removed for good under a `+1` bump), a second value is stored in a new
      slot and moves into the freed dense position, and `get` with the
      removed key returns that second value. */
  method StaleKeyReadsSibling() returns (stale: Key, removed: Option<int>, got: Option<int>)
    ensures stale == Key(0, U16_LIMIT - 1) && removed == Some(1)
    ensures got == Some(2)
  {
    var m, first := RunToFixedPoint();
    stale, removed, got := RemoveAtFixedPoint(m);
  }

  /** Sixteen insert/remove rounds on a single slot bring its generation to
      65535, and `clear` wraps it to 0. The slot's first key `Key(0, 0)`,
      removed in the first round, then matches again, and the next `insert`
      hands it out a second time. */
  method ClearRevivesFirstKey() returns (first: Key, revived: bool, again: Key)
    ensures first == Key(0, 0) && revived && again == first
  {
    var m;
    m, first := RunToFixedPoint();
    m.Clear();
    assert m.slots[0].version == 0 && m.data == [];
    revived := m.Matches(first);
    again := m.Insert(7);
  }

  /** Sixteen insert/remove rounds on a new map: its single slot, whose first
      key was `first`, ends free at generation 65535. */
  method RunToFixedPoint() returns (m: UniqueNaiveSlotMap<int>, first: Key)
    ensures fresh(m) && first == Key(0, 0) && OneFreeSlot(m, U16_LIMIT - 1)
  {
    m := new UniqueNaiveSlotMap<int>();
    first := m.Insert(0);
    var r := m.Remove(first);
    var i := 1;
    while i < 16
      invariant 1 <= i <= 16 && OneFreeSlot(m, Orbit(i))
    {
      RemoveRound(m, i);
      i := i + 1;
    }
  }

  /** One insert/remove round on the single free slot of `m`. */
  method RemoveRound(m: UniqueNaiveSlotMap<int>, ghost n: nat)
    requires n < 16 && OneFreeSlot(m, Orbit(n))
    modifies m
    ensures OneFreeSlot(m, Orbit(n + 1))
  {
    AllOnesBelowHalf(n);
    var k := m.Insert(0);
    var r := m.Remove(k);
  }

  /** The rounds after the single slot of `m` has reached generation 65535. */
  method RemoveAtFixedPoint(m: UniqueNaiveSlotMap<int>) returns (stale: Key, removed: Option<int>, got: Option<int>)
    requires OneFreeSlot(m, U16_LIMIT - 1)
    modifies m
    ensures stale == Key(0, U16_LIMIT - 1) && removed == Some(1)
    ensures got == Some(2)
  {
    stale := m.Insert(1);
    var sibling := m.Insert(2);
    removed := m.Remove(stale);
    got := m.Get(stale);
  }
}
