/** The compacting generational slot map of src/extra/naive.rs.

    Values live packed in `data`. `slots[s]` is the forward pointer of slot `s`
    (its position `outer` in `data`) together with its 16-bit generation. The
    vector `inner` is a permutation of the slot indices: its prefix
    `inner[..|data|]` maps each dense position back to the slot that owns it,
    and its suffix `inner[|data|..]` is the stack of free slots, the most
    recently freed one on top at `inner[|data|]`.

    The ghost fields give the public view: `Contents` maps every live key to
    its value, `Issued` holds every key `Insert` ever returned, and `Pos` is
    the inverse of `inner` (where each slot sits in `inner`). */
module Naive {
  import opened Common

  /** A handle: slot index and the generation it was issued at. */
  datatype Key = Key(idx: u32, ver: u16)

  datatype Slot = Slot(outer: u32, version: u16)

  // ---------------------------------------------------------------------------
  // The representation invariant, over the fields passed explicitly
  // ---------------------------------------------------------------------------

  ghost predicate Shape(slots: seq<Slot>, n: nat, inner: seq<u32>, pos: seq<nat>)
  {
    |inner| == |slots| == |pos| && n <= |slots| <= U32_LIMIT
  }

  /** The slot that owns dense position `p` points forward to `p`. */
  ghost predicate BackPointers(slots: seq<Slot>, n: nat, inner: seq<u32>)
  {
    forall p :: 0 <= p < n ==> p < |inner| && inner[p] < |slots| && slots[inner[p]].outer == p
  }

  /** Key `k` names an occupied slot (one in the first `n` entries of `inner`)
      at that slot's current generation. */
  ghost predicate Live(slots: seq<Slot>, n: nat, pos: seq<nat>, k: Key)
  {
    k.idx < |slots| && k.idx < |pos| && slots[k.idx].version == k.ver && pos[k.idx] < n
  }

  /** `contents` holds exactly the live keys, each with the value stored for it. */
  ghost predicate Abstraction<T>(slots: seq<Slot>, data: seq<T>, pos: seq<nat>, contents: map<Key, T>)
  {
    && (forall k :: k in contents ==> Live(slots, |data|, pos, k) && contents[k] == data[pos[k.idx]])
    && (forall s: u32 :: s < |slots| && s < |pos| && pos[s] < |data| ==> Key(s, slots[s].version) in contents)
    && |contents| == |data|
  }

  /** Every live key was issued; no issued key is ahead of its slot's
      generation, and one that matches it names an occupied slot. */
  ghost predicate IssuedKeys<T>(slots: seq<Slot>, n: nat, pos: seq<nat>, contents: map<Key, T>, issued: set<Key>)
  {
    && contents.Keys <= issued
    && forall k :: k in issued ==>
         && k.idx < |slots| && k.idx < |pos|
         && k.ver <= slots[k.idx].version
         && (k.ver == slots[k.idx].version ==> pos[k.idx] < n)
  }

  ghost predicate Inv<T>(slots: seq<Slot>, data: seq<T>, inner: seq<u32>, pos: seq<nat>,
                         contents: map<Key, T>, issued: set<Key>)
  {
    && Shape(slots, |data|, inner, pos)
    && IsPermutation(inner, pos)
    && BackPointers(slots, |data|, inner)
    && Abstraction(slots, data, pos, contents)
    && IssuedKeys(slots, |data|, pos, contents, issued)
  }

  /** `insert` with no free slot: a new slot at the end, generation 0. */
  lemma InsertAppendKeepsInv<T>(slots: seq<Slot>, data: seq<T>, inner: seq<u32>, pos: seq<nat>,
                                contents: map<Key, T>, issued: set<Key>, value: T)
    requires Inv(slots, data, inner, pos, contents, issued)
    requires |data| == |slots| < U32_LIMIT
    ensures Key(|slots|, 0) !in issued
    ensures var n := |slots|;
            var slots', data', inner', pos' := slots + [Slot(n, 0)], data + [value], inner + [n], pos + [n];
            && Shape(slots', |data'|, inner', pos') && IsPermutation(inner', pos')
            && BackPointers(slots', |data'|, inner')
            && Abstraction(slots', data', pos', contents[Key(n, 0) := value])
            && IssuedKeys(slots', |data'|, pos', contents[Key(n, 0) := value], issued + {Key(n, 0)})
  {
    var n := |slots|;
    AppendPermutation(inner, pos, n);
    AppendAbstraction(slots, data, pos, contents, value);
  }

  lemma AppendAbstraction<T>(slots: seq<Slot>, data: seq<T>, pos: seq<nat>, contents: map<Key, T>, value: T)
    requires Abstraction(slots, data, pos, contents) && |data| == |slots| == |pos| < U32_LIMIT
    requires forall s :: 0 <= s < |pos| ==> pos[s] < |data|
    ensures Key(|slots|, 0) !in contents
    ensures Abstraction(slots + [Slot(|slots|, 0)], data + [value], pos + [|slots|], contents[Key(|slots|, 0) := value])
  {
    var n := |slots|;
    var key := Key(n, 0);
    var slots', data', pos' := slots + [Slot(n, 0)], data + [value], pos + [n];
    var contents' := contents[key := value];
    assert key !in contents;
    forall k | k in contents' ensures Live(slots', |data'|, pos', k) && contents'[k] == data'[pos'[k.idx]] {
      if k != key { assert k in contents; }
    }
    forall s: u32 | s < |slots'| && s < |pos'| && pos'[s] < |data'| ensures Key(s, slots'[s].version) in contents' {
      if s < n { assert pos[s] < |data|; }
    }
  }

  /** `insert` reusing the top of the free stack at its current generation. */
  lemma InsertReuseKeepsInv<T>(slots: seq<Slot>, data: seq<T>, inner: seq<u32>, pos: seq<nat>,
                               contents: map<Key, T>, issued: set<Key>, value: T,
                               key: Key, slots': seq<Slot>)
    requires Inv(slots, data, inner, pos, contents, issued)
    requires |data| < |slots|
    requires key == Key(inner[|data|], slots[inner[|data|]].version)
    requires slots' == slots[key.idx := slots[key.idx].(outer := |data|)]
    ensures key !in issued
    ensures Inv(slots', data + [value], inner, pos, contents[key := value], issued + {key})
  {
    var n := |data|;
    var s := key.idx;
    assert pos[s] == n;
    ReuseBackPointers(slots, n, inner, pos, s, slots');
    ReuseAbstraction(slots, data, inner, pos, contents, value, key, slots');
    ReuseIssued(slots, n, pos, contents, issued, value, key, slots');
  }

  lemma ReuseBackPointers(slots: seq<Slot>, n: nat, inner: seq<u32>, pos: seq<nat>, s: nat, slots': seq<Slot>)
    requires Shape(slots, n, inner, pos) && IsPermutation(inner, pos) && BackPointers(slots, n, inner)
    requires n < |slots| && s == inner[n] && slots' == slots[s := slots[s].(outer := n)]
    ensures BackPointers(slots', n + 1, inner)
  {
    forall p | 0 <= p < n + 1 ensures p < |inner| && inner[p] < |slots'| && slots'[inner[p]].outer == p {
      if p < n { assert pos[inner[p]] == p; }
    }
  }

  lemma ReuseAbstraction<T>(slots: seq<Slot>, data: seq<T>, inner: seq<u32>, pos: seq<nat>,
                            contents: map<Key, T>, value: T, key: Key, slots': seq<Slot>)
    requires Shape(slots, |data|, inner, pos) && IsPermutation(inner, pos)
    requires Abstraction(slots, data, pos, contents)
    requires |data| < |slots| && key == Key(inner[|data|], slots[inner[|data|]].version)
    requires slots' == slots[key.idx := slots[key.idx].(outer := |data|)]
    ensures key !in contents
    ensures Abstraction(slots', data + [value], pos, contents[key := value])
  {
    var n := |data|;
    var data', contents' := data + [value], contents[key := value];
    assert pos[key.idx] == n;
    forall k | k in contents' ensures Live(slots', |data'|, pos, k) && contents'[k] == data'[pos[k.idx]] {
      if k != key { assert k in contents; }
    }
    forall t: u32 | t < |slots'| && t < |pos| && pos[t] < |data'| ensures Key(t, slots'[t].version) in contents' {
      if pos[t] == n { assert inner[pos[t]] == t; }
    }
  }

  lemma ReuseIssued<T>(slots: seq<Slot>, n: nat, pos: seq<nat>, contents: map<Key, T>, issued: set<Key>,
                       value: T, key: Key, slots': seq<Slot>)
    requires |pos| == |slots| && n < U32_LIMIT && IssuedKeys(slots, n, pos, contents, issued)
    requires key.idx < |slots| && pos[key.idx] == n && key.ver == slots[key.idx].version
    requires slots' == slots[key.idx := slots[key.idx].(outer := n)]
    ensures key !in issued
    ensures IssuedKeys(slots', n + 1, pos, contents[key := value], issued + {key})
  {
  }

  /** One `remove` of the live key `key`: the generation of its slot is bumped,
      its value is swap-removed from `data`, the slot whose value moved into
      the hole is repointed, and the freed slot goes on top of the free stack
      at `inner[|data'|]`. */
  ghost predicate RemoveStep<T>(slots: seq<Slot>, data: seq<T>, inner: seq<u32>, pos: seq<nat>,
      contents: map<Key, T>, issued: set<Key>, key: Key,
      slots': seq<Slot>, data': seq<T>, inner': seq<u32>, pos': seq<nat>)
  {
    && Inv(slots, data, inner, pos, contents, issued)
    && Live(slots, |data|, pos, key) && key in contents && key.ver < U16_LIMIT - 1
    && var r := pos[key.idx];
       var last := |data| - 1;
       var u := inner[last];
       var bumped := slots[key.idx := slots[key.idx].(version := key.ver + 1)];
       && data' == SwapRemove(data, r)
       && inner' == inner[last := key.idx][r := u]
       && pos' == pos[key.idx := last][u := r]
       && slots' == bumped[u := bumped[u].(outer := r)]
  }

  /** The slots after `remove` of the key of slot `s`: slot `s` is at the new
      generation `v`, and slot `u`, whose value moved into the hole at dense
      position `r`, points forward to `r`. */
  function Unlinked(slots: seq<Slot>, s: nat, v: u16, u: nat, r: u32): seq<Slot>
    requires s < |slots| && u < |slots|
  {
    var bumped := slots[s := slots[s].(version := v)];
    bumped[u := bumped[u].(outer := r)]
  }

  /** The permutation after `remove`: the freed slot `s` goes on top of the
      free stack at `last`, and the slot `u` that owned `last` takes the hole `r`. */
  function Relinked(inner: seq<u32>, last: nat, s: u32, r: nat, u: u32): seq<u32>
    requires last < |inner| && r < |inner|
  {
    inner[last := s][r := u]
  }

  /** `remove` of a live key keeps the representation invariant. */
  lemma RemoveKeepsInv<T>(slots: seq<Slot>, data: seq<T>, inner: seq<u32>, pos: seq<nat>,
      contents: map<Key, T>, issued: set<Key>, key: Key,
      slots': seq<Slot>, data': seq<T>, inner': seq<u32>, pos': seq<nat>)
    requires RemoveStep(slots, data, inner, pos, contents, issued, key, slots', data', inner', pos')
    ensures Shape(slots', |data'|, inner', pos') && IsPermutation(inner', pos')
    ensures BackPointers(slots', |data'|, inner')
    ensures Abstraction(slots', data', pos', contents - {key})
    ensures IssuedKeys(slots', |data'|, pos', contents - {key}, issued)
  {
    RemovePermutation(slots, data, inner, pos, contents, issued, key, slots', data', inner', pos');
    RemoveBackPointers(slots, data, inner, pos, contents, issued, key, slots', data', inner', pos');
    RemoveAbstraction(slots, data, inner, pos, contents, issued, key, slots', data', inner', pos');
    RemoveIssued(slots, data, inner, pos, contents, issued, key, slots', data', inner', pos');
  }

  lemma RemovePermutation<T>(slots: seq<Slot>, data: seq<T>, inner: seq<u32>, pos: seq<nat>,
      contents: map<Key, T>, issued: set<Key>, key: Key,
      slots': seq<Slot>, data': seq<T>, inner': seq<u32>, pos': seq<nat>)
    requires RemoveStep(slots, data, inner, pos, contents, issued, key, slots', data', inner', pos')
    ensures IsPermutation(inner', pos')
  {
    var s, r, last := key.idx, pos[key.idx], |data| - 1;
    assert inner[r] == s && pos[inner[last]] == last;
    SwapKeepsPermutation(inner, pos, last, r);
  }

  lemma RemoveBackPointers<T>(slots: seq<Slot>, data: seq<T>, inner: seq<u32>, pos: seq<nat>,
      contents: map<Key, T>, issued: set<Key>, key: Key,
      slots': seq<Slot>, data': seq<T>, inner': seq<u32>, pos': seq<nat>)
    requires RemoveStep(slots, data, inner, pos, contents, issued, key, slots', data', inner', pos')
    ensures BackPointers(slots', |data'|, inner')
  {
    var s, r, n := key.idx, pos[key.idx], |data|;
    forall p | 0 <= p < n - 1 ensures p < |inner'| && inner'[p] < |slots'| && slots'[inner'[p]].outer == p {
      if p != r {
        assert inner'[p] == inner[p];
        assert pos[inner[p]] == p;
      }
    }
  }

  lemma RemoveAbstraction<T>(slots: seq<Slot>, data: seq<T>, inner: seq<u32>, pos: seq<nat>,
      contents: map<Key, T>, issued: set<Key>, key: Key,
      slots': seq<Slot>, data': seq<T>, inner': seq<u32>, pos': seq<nat>)
    requires RemoveStep(slots, data, inner, pos, contents, issued, key, slots', data', inner', pos')
    ensures Abstraction(slots', data', pos', contents - {key})
  {
    var s, r, last := key.idx, pos[key.idx], |data| - 1;
    var u := inner[last];
    var contents' := contents - {key};
    assert pos[u] == last;
    forall k | k in contents' ensures Live(slots', |data'|, pos', k) && contents'[k] == data'[pos'[k.idx]] {
      assert k in contents && k.idx != s;
      if k.idx == u {
        assert r != last;
      } else {
        assert pos[k.idx] != r && pos[k.idx] != last;
      }
    }
    forall t: u32 | t < |slots'| && t < |pos'| && pos'[t] < |data'| ensures Key(t, slots'[t].version) in contents' {
      assert t != s;
      assert Key(t, slots[t].version) in contents;
    }
    assert |contents'| == |contents| - 1;
  }

  lemma RemoveIssued<T>(slots: seq<Slot>, data: seq<T>, inner: seq<u32>, pos: seq<nat>,
      contents: map<Key, T>, issued: set<Key>, key: Key,
      slots': seq<Slot>, data': seq<T>, inner': seq<u32>, pos': seq<nat>)
    requires RemoveStep(slots, data, inner, pos, contents, issued, key, slots', data', inner', pos')
    ensures IssuedKeys(slots', |data'|, pos', contents - {key}, issued)
  {
    var r, n := pos[key.idx], |data|;
    var u := inner[n - 1];
    forall k | k in issued
      ensures k.idx < |slots'| && k.idx < |pos'| && k.ver <= slots'[k.idx].version
              && (k.ver == slots'[k.idx].version ==> pos'[k.idx] < n - 1)
    {
      if k.idx != key.idx && k.ver == slots'[k.idx].version && k.idx != u {
        assert pos[k.idx] != r && pos[k.idx] != n - 1;
      }
    }
  }

  /** Writing through the reference to dense position `p` changes the value of
      the key that owns `p` and nothing else. */
  lemma WriteKeepsInv<T>(slots: seq<Slot>, data: seq<T>, inner: seq<u32>, pos: seq<nat>,
                         contents: map<Key, T>, issued: set<Key>, p: nat, value: T)
    requires Inv(slots, data, inner, pos, contents, issued) && p < |data|
    ensures Key(inner[p], slots[inner[p]].version) in contents
    ensures Inv(slots, data[p := value], inner, pos, contents[Key(inner[p], slots[inner[p]].version) := value], issued)
  {
    var o := Key(inner[p], slots[inner[p]].version);
    assert pos[o.idx] == p;
    assert o in contents;
    var data', contents' := data[p := value], contents[o := value];
    assert contents'.Keys == contents.Keys;
    forall k | k in contents' ensures Live(slots, |data'|, pos, k) && contents'[k] == data'[pos[k.idx]] {
      if k != o {
        assert k in contents;
        assert inner[pos[k.idx]] == k.idx;
      }
    }
  }

  /** The generation of every slot, in slot order. */
  ghost function Generations(slots: seq<Slot>): (g: seq<u16>)
    ensures |g| == |slots| && forall s :: 0 <= s < |slots| ==> g[s] == slots[s].version
  {
    seq(|slots|, s requires 0 <= s < |slots| => slots[s].version)
  }

  /** `remove` changes the generation of the removed key's slot only. */
  lemma RemoveGenerations(slots: seq<Slot>, s: nat, v: u16, u: nat, r: u32, slots': seq<Slot>)
    requires s < |slots| && u < |slots|
    requires var bumped := slots[s := slots[s].(version := v)];
             slots' == bumped[u := bumped[u].(outer := r)]
    ensures Generations(slots') == Generations(slots)[s := v]
  {
  }

  /** A slot appended by `insert` starts at generation 0. */
  lemma AppendGenerations(slots: seq<Slot>)
    requires |slots| < U32_LIMIT
    ensures Generations(slots + [Slot(|slots|, 0)]) == Generations(slots) + [0]
  {
  }

  /** Repointing a slot at a new dense position leaves every generation as it was. */
  lemma RepointGenerations(slots: seq<Slot>, k: nat, p: u32)
    requires k < |slots|
    ensures Generations(slots[k := slots[k].(outer := p)]) == Generations(slots)
  {
  }

  /** `clear`: all generations advanced, nothing stored, identity free stack. */
  lemma ClearKeepsInv<T>(slots: seq<Slot>, issued: set<Key>, slots': seq<Slot>, data': seq<T>, inner': seq<u32>,
                         pos': seq<nat>, contents': map<Key, T>)
    requires |slots| <= U32_LIMIT && data' == [] && contents' == map[]
    requires forall k :: k in issued ==> k.idx < |slots| && k.ver <= slots[k.idx].version
    requires |slots'| == |slots| && forall s :: 0 <= s < |slots| ==> slots[s].version < U16_LIMIT - 1
    requires forall s :: 0 <= s < |slots'| ==> slots'[s] == slots[s].(version := slots[s].version + 1)
    requires |inner'| == |slots| && forall p :: 0 <= p < |inner'| ==> inner'[p] == p
    requires |pos'| == |slots| && forall s :: 0 <= s < |pos'| ==> pos'[s] == s
    ensures Inv(slots', data', inner', pos', contents', issued)
    ensures forall k :: k in issued ==> k.idx < |slots'| && k.ver != slots'[k.idx].version
  {
    IdentityIsPermutation(inner', pos');
    assert IssuedKeys(slots', 0, pos', contents', issued) by {
      forall k | k in issued
        ensures k.idx < |slots'| && k.idx < |pos'| && k.ver <= slots'[k.idx].version
                && (k.ver == slots'[k.idx].version ==> pos'[k.idx] < 0)
      {
        assert k.ver <= slots[k.idx].version;
      }
    }
  }

  // ---------------------------------------------------------------------------
  // The map
  // ---------------------------------------------------------------------------

  class NaiveSlotMap<T> {
    var slots: seq<Slot>
    var data: seq<T>
    var inner: seq<u32>

    ghost var Contents: map<Key, T>
    ghost var Issued: set<Key>
    ghost var Pos: seq<nat>

    ghost predicate Valid()
      reads this
    {
      Inv(slots, data, inner, Pos, Contents, Issued)
    }

    /** The version check of `get` and `remove`: the slot exists and has the key's generation. */
    predicate Matches(key: Key)
      reads this
    {
      key.idx < |slots| && slots[key.idx].version == key.ver
    }

    /** A matching key does not send the unchecked read of `data` out of range. */
    ghost predicate InBounds(key: Key)
      reads this
    {
      Matches(key) ==> slots[key.idx].outer < |data|
    }

    /** A matching key names an occupied slot, so `remove` keeps the structure intact. */
    ghost predicate Admissible(key: Key)
      reads this
    {
      Matches(key) ==> key.idx < |Pos| && Pos[key.idx] < |data|
    }

    /** The live key whose value sits at dense position `p`. */
    ghost function Owner(p: nat): Key
      reads this
      requires Valid() && p < |data|
    {
      Key(inner[p], slots[inner[p]].version)
    }

    /** The key the next `insert` hands out. */
    ghost function NextKey(): Key
      reads this
      requires Valid() && |data| < U32_LIMIT
    {
      if |data| == |slots| then Key(|slots|, 0)
      else Key(inner[|data|], slots[inner[|data|]].version)
    }

    /** A key returned by `insert` of this map meets the preconditions of the
        reading and removing operations, and it matches its slot exactly while
        it is live. Keys are plain copyable values, so a key built by hand or
        taken from another map may match a free slot; `Admissible` rules those
        out of `remove`. */
    lemma IssuedKeyIsSafe(key: Key)
      requires Valid() && key in Issued
      ensures InBounds(key) && Admissible(key)
      ensures Matches(key) <==> key in Contents
    {
      if Matches(key) {
        assert inner[Pos[key.idx]] == key.idx;
        assert Key(key.idx, slots[key.idx].version) in Contents;
      }
    }

    /** A live key's slot points at the dense position that holds its value. */
    lemma LiveKeyReadsItself(key: Key)
      requires Valid() && key in Contents
      ensures key.idx < |slots| && slots[key.idx].outer == Pos[key.idx] < |data|
      ensures Contents[key] == data[slots[key.idx].outer]
    {
      assert inner[Pos[key.idx]] == key.idx;
    }

    /** `IssuedKeyIsSafe` for every issued key at once. */
    lemma IssuedKeysAreSafe()
      requires Valid()
      ensures forall k :: k in Issued ==> InBounds(k) && Admissible(k) && (Matches(k) <==> k in Contents)
    {
      forall k | k in Issued ensures InBounds(k) && Admissible(k) && (Matches(k) <==> k in Contents) {
        IssuedKeyIsSafe(k);
      }
    }

    /** What a matching key reads: the value of the live key that owns the
        slot's dense position, which is the key itself when it is live. */
    lemma MatchingKeyReadsOwner(key: Key)
      requires Valid() && InBounds(key) && Matches(key)
      ensures Owner(slots[key.idx].outer) in Contents
      ensures Contents[Owner(slots[key.idx].outer)] == data[slots[key.idx].outer]
      ensures key in Contents ==> Owner(slots[key.idx].outer) == key
    {
      var p := slots[key.idx].outer;
      var o := inner[p];
      assert pos_o: Pos[o] == p;
      assert Key(o, slots[o].version) in Contents;
      if key in Contents {
        assert inner[Pos[key.idx]] == key.idx;
      }
    }

    /** `new` */
    constructor ()
      ensures Valid()
      ensures slots == [] && data == [] && inner == []
      ensures Contents == map[] && Issued == {}
    {
      slots, data, inner := [], [], [];
      Contents, Issued, Pos := map[], {}, [];
    }

    /** `len`: the number of live values. */
    function Len(): (n: nat)
      reads this
      requires Valid()
      ensures n == |Contents|
    {
      |data|
    }

    /** `clear`: drops every value, advances every generation by one and
        rebuilds the free stack as `0, 1, ..., |slots| - 1`. */
    method Clear()
      requires Valid()
      requires forall s :: 0 <= s < |slots| ==> slots[s].version < U16_LIMIT - 1
      modifies this
      ensures Valid()
      ensures data == [] && Contents == map[] && Issued == old(Issued)
      ensures |slots| == old(|slots|)
      ensures forall s :: 0 <= s < |slots| ==>
                slots[s] == old(slots[s]).(version := old(slots[s]).version + 1)
      ensures |inner| == |slots| && forall p :: 0 <= p < |inner| ==> inner[p] == p
      ensures forall k :: k in old(Issued) ==> !Matches(k)
    {
      data := [];
      BumpVersions();
      ResetFreeStack();
      Pos, Contents := seq(|slots|, s => s), map[];
      ClearKeepsInv(old(slots), Issued, slots, data, inner, Pos, Contents);
    }

    /** The first loop of `clear`: every slot's generation goes up by one. */
    method BumpVersions()
      requires forall s :: 0 <= s < |slots| ==> slots[s].version < U16_LIMIT - 1
      modifies this
      ensures |slots| == old(|slots|)
      ensures forall s :: 0 <= s < |slots| ==>
                slots[s] == old(slots[s]).(version := old(slots[s]).version + 1)
      ensures data == old(data) && inner == old(inner)
      ensures unchanged(`Pos, `Contents, `Issued)
    {
      var i := 0;
      while i < |slots|
        invariant 0 <= i <= |slots| == old(|slots|)
        invariant forall s :: 0 <= s < i ==>
                    slots[s] == old(slots[s]).(version := old(slots[s]).version + 1)
        invariant forall s :: i <= s < |slots| ==> slots[s] == old(slots[s])
        invariant data == old(data) && inner == old(inner) && unchanged(`Pos, `Contents, `Issued)
      {
        slots := slots[i := slots[i].(version := slots[i].version + 1)];
        i := i + 1;
      }
    }

    /** The second loop of `clear`: the free stack becomes `0, 1, ..., |inner| - 1`. */
    method ResetFreeStack()
      requires |inner| <= U32_LIMIT
      modifies this
      ensures |inner| == old(|inner|) && forall p :: 0 <= p < |inner| ==> inner[p] == p
      ensures slots == old(slots) && data == old(data)
      ensures unchanged(`Pos, `Contents, `Issued)
    {
      var counter := 0;
      while counter < |inner|
        invariant 0 <= counter <= |inner| == old(|inner|)
        invariant forall p :: 0 <= p < counter ==> inner[p] == p
        invariant slots == old(slots) && data == old(data) && unchanged(`Pos, `Contents, `Issued)
      {
        inner := inner[counter := counter];
        counter := counter + 1;
      }
    }

    /** `insert`: stores `value` at the end of `data` and hands out a slot.
        With no free slot a new one is appended at generation 0; otherwise the
        top of the free stack, `inner[|data|]`, is reused at the generation it
        already has. */
    method Insert(value: T) returns (key: Key)
      requires Valid() && |data| < U32_LIMIT
      modifies this
      ensures Valid()
      ensures key == old(NextKey())
      ensures key !in old(Issued) && Issued == old(Issued) + {key}
      ensures Contents == old(Contents)[key := value]
      ensures data == old(data) + [value]
      ensures old(|data|) == old(|slots|) ==>
                slots == old(slots) + [Slot(key.idx, 0)] && inner == old(inner) + [key.idx]
      ensures old(|data|) < old(|slots|) ==>
                slots == old(slots)[key.idx := old(slots[key.idx]).(outer := old(|data|))] && inner == old(inner)
      ensures Generations(slots) == old(Generations(slots)) + if old(|data|) == old(|slots|) then [0] else []
    {
      if |data| == |slots| {
        key := InsertNewSlot(value);
      } else {
        key := InsertFreeSlot(value);
      }
    }

    /** `insert` with an empty free stack: a new slot at generation 0. */
    method InsertNewSlot(value: T) returns (key: Key)
      requires Valid() && |data| == |slots| < U32_LIMIT
      modifies this
      ensures Valid()
      ensures key == Key(old(|slots|), 0) == old(NextKey())
      ensures key !in old(Issued) && Issued == old(Issued) + {key}
      ensures Contents == old(Contents)[key := value]
      ensures data == old(data) + [value]
      ensures slots == old(slots) + [Slot(key.idx, 0)] && inner == old(inner) + [key.idx]
      ensures Generations(slots) == old(Generations(slots)) + [0]
    {
      var index := |data|;
      data := data + [value];
      slots := slots + [Slot(index, 0)];
      inner := inner + [index];
      Pos := Pos + [index];
      key := Key(index, 0);
      Contents := Contents[key := value];
      Issued := Issued + {key};
      InsertAppendKeepsInv(old(slots), old(data), old(inner), old(Pos), old(Contents), old(Issued), value);
      AppendGenerations(old(slots));
    }

    /** `insert` popping the top of the free stack, at the generation the slot already has. */
    method InsertFreeSlot(value: T) returns (key: Key)
      requires Valid() && |data| < |slots|
      modifies this
      ensures Valid()
      ensures key == Key(old(inner[|data|]), old(slots[inner[|data|]].version)) == old(NextKey())
      ensures key !in old(Issued) && Issued == old(Issued) + {key}
      ensures Contents == old(Contents)[key := value]
      ensures data == old(data) + [value]
      ensures slots == old(slots)[key.idx := old(slots[key.idx]).(outer := old(|data|))] && inner == old(inner)
      ensures Generations(slots) == old(Generations(slots))
    {
      var index := |data|;
      data := data + [value];
      var keyIndex := inner[index];
      var version := slots[keyIndex].version;
      slots := slots[keyIndex := slots[keyIndex].(outer := index)];
      key := Key(keyIndex, version);
      Contents := Contents[key := value];
      Issued := Issued + {key};
      RepointGenerations(old(slots), keyIndex, index);
      InsertReuseKeepsInv(old(slots), old(data), old(inner), old(Pos), old(Contents), old(Issued), value,
                          key, slots);
    }

    /** `remove`: for a key of the right generation, bumps the generation,
        swap-removes the value, repoints the slot whose value moved into the
        hole, and pushes the freed slot on the free stack. Any other key gets
        `None` and changes nothing. */
    method Remove(key: Key) returns (removed: Option<T>)
      requires Valid() && Admissible(key)
      requires Matches(key) ==> key.ver < U16_LIMIT - 1
      modifies this
      ensures Valid()
      ensures removed.Some? <==> old(Matches(key))
      ensures removed == if key in old(Contents) then Some(old(Contents)[key]) else None
      ensures Contents == (if removed.Some? then old(Contents) - {key} else old(Contents))
      ensures Issued == old(Issued)
      ensures removed.None? ==> unchanged(this)
      ensures removed.Some? ==>
                && |data| == old(|data|) - 1 && |slots| == old(|slots|)
                && slots[key.idx].version == key.ver + 1
                && !Matches(key)
                && NextKey() == Key(key.idx, key.ver + 1)
                && Generations(slots) == old(Generations(slots))[key.idx := key.ver + 1]
                && data == SwapRemove(old(data), old(slots[key.idx].outer))
                && inner == Relinked(old(inner), |data|, key.idx, old(slots[key.idx].outer), old(inner)[|data|])
                && slots == Unlinked(old(slots), key.idx, key.ver + 1, old(inner)[|data|], old(slots[key.idx].outer))
    {
      if key.idx >= |slots| || slots[key.idx].version != key.ver {
        assert key !in Contents;
        return None;
      }
      assert inner[Pos[key.idx]] == key.idx;
      var value := RemoveLive(key);
      removed := Some(value);
    }

    /** The body of `remove` once the generation check has passed. */
    method RemoveLive(key: Key) returns (value: T)
      requires Valid() && key in Contents && key.ver < U16_LIMIT - 1
      modifies this
      ensures Valid()
      ensures value == old(Contents)[key]
      ensures Contents == old(Contents) - {key} && unchanged(`Issued)
      ensures |data| == old(|data|) - 1 && |slots| == old(|slots|)
      ensures slots[key.idx].version == key.ver + 1
      ensures inner[|data|] == key.idx
      ensures Generations(slots) == old(Generations(slots))[key.idx := key.ver + 1]
      ensures data == SwapRemove(old(data), old(slots[key.idx].outer))
      ensures inner == Relinked(old(inner), |data|, key.idx, old(slots[key.idx].outer), old(inner)[|data|])
      ensures slots == Unlinked(old(slots), key.idx, key.ver + 1, old(inner)[|data|], old(slots[key.idx].outer))
    {
      LiveKeyReadsItself(key);
      var removeIndex := slots[key.idx].outer;
      slots := slots[key.idx := slots[key.idx].(version := slots[key.idx].version + 1)];
      value := data[removeIndex];
      data := SwapRemove(data, removeIndex);
      var last := |data|;
      var updateIndex := inner[last];
      inner := inner[last := key.idx];
      inner := inner[removeIndex := updateIndex];
      slots := slots[updateIndex := slots[updateIndex].(outer := removeIndex)];
      Pos := Pos[key.idx := last][updateIndex := removeIndex];
      Contents := Contents - {key};
      RemoveGenerations(old(slots), key.idx, key.ver + 1, updateIndex, removeIndex, slots);
      RemoveKeepsInv(old(slots), old(data), old(inner), old(Pos), old(Contents), Issued, key,
                     slots, data, inner, Pos);
    }

    /** `get`: `None` unless the slot exists and has the key's generation; then
        the value at the slot's dense position. */
    function Get(key: Key): (r: Option<T>)
      reads this
      requires Valid() && InBounds(key)
      ensures r.Some? <==> Matches(key)
      ensures key in Contents ==> r == Some(Contents[key])
      ensures key in Issued ==> (r.Some? <==> key in Contents)
      ensures r.Some? ==> Owner(slots[key.idx].outer) in Contents
                          && r.value == Contents[Owner(slots[key.idx].outer)]
    {
      if key.idx >= |slots| then None
      else if slots[key.idx].version != key.ver then None
      else
        MatchingKeyReadsOwner(key);
        Some(data[slots[key.idx].outer])
    }
    /** A value handed to the caller for writing: the model of assigning
        `value` through the `&mut T` that points at dense position `p`. */
    method WriteAt(p: nat, value: T)
      requires Valid() && p < |data|
      modifies this
      ensures Valid()
      ensures data == old(data)[p := value]
      ensures Contents == old(Contents)[old(Owner(p)) := value]
      ensures slots == old(slots) && inner == old(inner) && Issued == old(Issued) && Pos == old(Pos)
    {
      WriteKeepsInv(slots, data, inner, Pos, Contents, Issued, p, value);
      data := data[p := value];
      Contents := Contents[Key(inner[p], slots[inner[p]].version) := value];
    }

    /** `get_mut`, followed by a write of `value` through the reference it
        returns: a key of the right generation has its value replaced, and the
        previous value is returned; any other key gets `None` and changes nothing. */
    method GetMut(key: Key, value: T) returns (previous: Option<T>)
      requires Valid() && InBounds(key)
      modifies this
      ensures Valid()
      ensures previous.Some? <==> old(Matches(key))
      ensures previous == old(Get(key))
      ensures key in old(Contents) ==> Contents == old(Contents)[key := value]
      ensures previous.Some? ==> Contents == old(Contents)[old(Owner(slots[key.idx].outer)) := value]
      ensures previous.None? ==> unchanged(this)
      ensures Issued == old(Issued) && |data| == old(|data|)
      ensures slots == old(slots) && inner == old(inner) && Pos == old(Pos)
      ensures previous.Some? ==> data == old(data)[old(slots[key.idx].outer) := value]
    {
      if key.idx >= |slots| || slots[key.idx].version != key.ver {
        return None;
      }
      MatchingKeyReadsOwner(key);
      var p := slots[key.idx].outer;
      previous := Some(data[p]);
      WriteAt(p, value);
    }

    /** `get_unchecked`: `get` without the bounds check on the slot index,
        which the caller must guarantee. */
    function GetUnchecked(key: Key): (r: Option<T>)
      reads this
      requires Valid() && key.idx < |slots| && InBounds(key)
      ensures r == Get(key)
      ensures r.Some? <==> slots[key.idx].version == key.ver
      ensures key in Contents ==> r == Some(Contents[key])
    {
      if slots[key.idx].version != key.ver then None
      else Some(data[slots[key.idx].outer])
    }

    /** `get_unchecked_mut` followed by a write through the reference, as for
        `GetMut`; the slot index must be in range. */
    method GetUncheckedMut(key: Key, value: T) returns (previous: Option<T>)
      requires Valid() && key.idx < |slots| && InBounds(key)
      modifies this
      ensures Valid()
      ensures previous == old(Get(key))
      ensures key in old(Contents) ==> Contents == old(Contents)[key := value]
      ensures previous.Some? ==> Contents == old(Contents)[old(Owner(slots[key.idx].outer)) := value]
      ensures previous.None? ==> unchanged(this)
      ensures Issued == old(Issued) && |data| == old(|data|)
      ensures slots == old(slots) && inner == old(inner) && Pos == old(Pos)
      ensures previous.Some? ==> data == old(data)[old(slots[key.idx].outer) := value]
    {
      if slots[key.idx].version != key.ver {
        return None;
      }
      MatchingKeyReadsOwner(key);
      var p := slots[key.idx].outer;
      previous := Some(data[p]);
      WriteAt(p, value);
    }

    /** `map[key]`: `get(key).unwrap()`, which panics unless the key matches. */
    function Index(key: Key): (r: T)
      reads this
      requires Valid() && InBounds(key) && Matches(key)
      ensures Get(key) == Some(r)
      ensures key in Contents ==> r == Contents[key]
    {
      Get(key).value
    }

    /** `map[key] = value`: `get_mut(key).unwrap()` and a write through it. */
    method IndexMut(key: Key, value: T)
      requires Valid() && InBounds(key) && Matches(key)
      modifies this
      ensures Valid()
      ensures key in old(Contents) ==> Contents == old(Contents)[key := value]
      ensures Contents == old(Contents)[old(Owner(slots[key.idx].outer)) := value]
      ensures Issued == old(Issued) && |data| == old(|data|)
      ensures slots == old(slots) && inner == old(inner) && Pos == old(Pos)
      ensures data == old(data)[old(slots[key.idx].outer) := value]
    {
      MatchingKeyReadsOwner(key);
      WriteAt(slots[key.idx].outer, value);
    }

    /** `iter`: the values in dense order. Every live value appears exactly
        once, at the dense position its slot points to. */
    function Iter(): (r: seq<T>)
      reads this
      requires Valid()
      ensures |r| == |Contents|
      ensures forall k :: k in Contents ==> Pos[k.idx] < |r| && r[Pos[k.idx]] == Contents[k]
      ensures forall p :: 0 <= p < |r| ==> Owner(p) in Contents && Contents[Owner(p)] == r[p]
      ensures forall p, q :: 0 <= p < q < |r| ==> Owner(p) != Owner(q)
    {
      IterOwners();
      data
    }

    lemma IterOwners()
      requires Valid()
      ensures forall p :: 0 <= p < |data| ==> Owner(p) in Contents && Contents[Owner(p)] == data[p]
      ensures forall p, q :: 0 <= p < q < |data| ==> Owner(p) != Owner(q)
    {
      forall p | 0 <= p < |data| ensures Owner(p) in Contents && Contents[Owner(p)] == data[p] {
        assert Pos[inner[p]] == p;
        assert Key(inner[p], slots[inner[p]].version) in Contents;
      }
      forall p, q | 0 <= p < q < |data| ensures Owner(p) != Owner(q) {
        assert Pos[inner[p]] == p && Pos[inner[q]] == q;
      }
    }
  }

  // ---------------------------------------------------------------------------
  // Scenarios from the unit tests of src/extra/naive.rs
  // ---------------------------------------------------------------------------

  /** Removing the first of two values moves the second into its dense
      position; the second key still reads its own value. */
  method AddTwiceRemoveFirstSwaps() returns (got: Option<int>, len: nat)
    ensures got == Some(1) && len == 1
  {
    var m := new NaiveSlotMap<int>();
    var first := m.Insert(0);
    var second := m.Insert(1);
    m.IssuedKeysAreSafe();
    var _ := m.Remove(first);
    m.IssuedKeysAreSafe();
    got := m.Get(second);
    len := m.Len();
  }

  /** A removed key reads `None` and removes nothing a second time. */
  method AddRemoveOldKey() returns (got: Option<int>, again: Option<int>, len: nat)
    ensures got == None && again == None && len == 0
  {
    var m := new NaiveSlotMap<int>();
    var first := m.Insert(0);
    assert first in m.Contents && m.Valid();
    var _ := m.Remove(first);
    assert m.Contents == map[] && !m.Matches(first);
    got := m.Get(first);
    len := m.Len();
    again := m.Remove(first);
  }

  /** `clear` empties the map; the key handed out before reads `None`. */
  method AddClear() returns (got: Option<int>, len: nat)
    ensures got == None && len == 0
  {
    var m := new NaiveSlotMap<int>();
    var first := m.Insert(0);
    m.Clear();
    got := m.Get(first);
    len := m.Len();
  }
}
