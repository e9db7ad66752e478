/** `BvMap` (src/extra/bvmap.rs): a map from cell indices to values with no
    generations and no compaction. `cells` holds, per index, either a value
    or a link of the intrusive free list (a `union` in the source); `bits`
    records which indices are occupied; `nextFree` is the head of the free
    list, a LIFO stack whose end marker is `|cells|`. The key of a value is
    just its cell index. */
module BitVecMap {
  import opened Common

  /** One cell of `vec`: a stored value, or the index of the next free cell. */
  datatype Cell<V> = Value(v: V) | Link(next: nat)

  // ---------------------------------------------------------------------------
  // The free list
  // ---------------------------------------------------------------------------

  /** The entry after position `i` of the free list: the next listed cell, or
      the end marker `n` after the last one. */
  function Successor(free: seq<nat>, i: nat, n: nat): nat
  {
    if i + 1 < |free| then free[i + 1] else n
  }

  /** `free` is the free list starting at `head`: each listed cell links to
      the next one, the last links to `|cells|`, and an empty list has the end
      marker as its head. */
  ghost predicate FreeChain<V>(head: nat, cells: seq<Cell<V>>, free: seq<nat>)
  {
    && head == (if |free| == 0 then |cells| else free[0])
    && forall i :: 0 <= i < |free| ==> free[i] < |cells| && cells[free[i]] == Link(Successor(free, i, |cells|))
  }

  ghost predicate Distinct(free: seq<nat>)
  {
    forall i, j :: 0 <= i < j < |free| ==> free[i] != free[j]
  }

  /** The representation invariant: one bit per cell, a set bit exactly on the
      cells holding a value, and a free list of distinct cells that visits
      every cell whose bit is clear. */
  ghost predicate Inv<V>(nextFree: nat, bits: seq<bool>, cells: seq<Cell<V>>, free: seq<nat>)
  {
    && |bits| == |cells|
    && (forall i :: 0 <= i < |cells| ==> (bits[i] <==> cells[i].Value?))
    && FreeChain(nextFree, cells, free)
    && Distinct(free)
    && (forall i :: 0 <= i < |cells| && !bits[i] ==> i in free)
  }

  /** The cells reached by following at most `n` links from `head`, stopping
      at the first index that is out of range or holds a value. */
  function Walk<V>(cells: seq<Cell<V>>, head: nat, n: nat): seq<nat>
    decreases n
  {
    if n == 0 || head >= |cells| || cells[head].Value? then []
    else [head] + Walk(cells, cells[head].next, n - 1)
  }

  /** Following links from the head visits exactly the free list, in order,
      and then stops at the end marker. */
  lemma {:induction false} ChainIsWalk<V>(head: nat, cells: seq<Cell<V>>, free: seq<nat>, n: nat)
    requires FreeChain(head, cells, free) && |free| <= n
    ensures Walk(cells, head, n) == free
    decreases |free|
  {
    if |free| > 0 {
      var rest := free[1..];
      var next := Successor(free, 0, |cells|);
      assert cells[head] == Link(next);
      forall i | 0 <= i < |rest| ensures rest[i] < |cells| && cells[rest[i]] == Link(Successor(rest, i, |cells|)) {
        assert rest[i] == free[i + 1];
        assert Successor(rest, i, |cells|) == Successor(free, i + 1, |cells|);
      }
      ChainIsWalk(next, cells, rest, n - 1);
      assert free == [head] + rest;
    }
  }

  /** A list of distinct indices below `n` has at most `n` entries. */
  lemma {:induction false} DistinctBelow(free: seq<nat>, n: nat)
    requires Distinct(free) && forall i :: 0 <= i < |free| ==> free[i] < n
    ensures |free| <= n
    decreases n
  {
    if |free| > 0 {
      assert free[0] < n;
      if j :| 0 <= j < |free| && free[j] == n - 1 {
        var rest := free[..j] + free[j + 1..];
        assert forall i :: 0 <= i < |rest| ==> rest[i] == (if i < j then free[i] else free[i + 1]);
        DistinctBelow(rest, n - 1);
      } else {
        DistinctBelow(free, n - 1);
      }
    }
  }

  // ---------------------------------------------------------------------------
  // The abstraction: occupied index -> value
  // ---------------------------------------------------------------------------

  /** The values stored at the occupied indices. */
  function Occupied<V>(bits: seq<bool>, cells: seq<Cell<V>>): map<nat, V>
  {
    map i | 0 <= i < |cells| && i < |bits| && bits[i] && cells[i].Value? :: cells[i].v
  }

  /** Storing `v` in cell `k` and setting its bit adds `k -> v` and changes no other index. */
  lemma OccupySet<V>(bits: seq<bool>, cells: seq<Cell<V>>, k: nat, v: V)
    requires |bits| == |cells| && k < |cells|
    ensures Occupied(bits[k := true], cells[k := Value(v)]) == Occupied(bits, cells)[k := v]
  {
    var a, b := Occupied(bits[k := true], cells[k := Value(v)]), Occupied(bits, cells)[k := v];
    assert forall i :: i in a <==> i in b;
    assert forall i :: i in a ==> a[i] == b[i];
  }

  /** Appending an occupied cell holding `v` adds `|cells| -> v`. */
  lemma OccupyPush<V>(bits: seq<bool>, cells: seq<Cell<V>>, v: V)
    requires |bits| == |cells|
    ensures Occupied(bits + [true], cells + [Value(v)]) == Occupied(bits, cells)[|cells| := v]
  {
    var a, b := Occupied(bits + [true], cells + [Value(v)]), Occupied(bits, cells)[|cells| := v];
    assert forall i :: i in a <==> i in b;
    assert forall i :: i in a ==> a[i] == b[i];
  }

  /** Clearing the bit of cell `k` and turning it into a link removes `k` and nothing else. */
  lemma Vacate<V>(bits: seq<bool>, cells: seq<Cell<V>>, k: nat, next: nat)
    requires |bits| == |cells| && k < |cells|
    ensures Occupied(bits[k := false], cells[k := Link(next)]) == Occupied(bits, cells) - {k}
  {
    var a, b := Occupied(bits[k := false], cells[k := Link(next)]), Occupied(bits, cells) - {k};
    assert forall i :: i in a <==> i in b;
    assert forall i :: i in a ==> a[i] == b[i];
  }

  // ---------------------------------------------------------------------------
  // The invariant across `insert` and `remove`
  // ---------------------------------------------------------------------------

  /** `insert` with an empty free list appends an occupied cell, and the end
      marker moves to the new length. */
  lemma PushKeepsInv<V>(nextFree: nat, bits: seq<bool>, cells: seq<Cell<V>>, free: seq<nat>, v: V,
                        nextFree': nat, bits': seq<bool>, cells': seq<Cell<V>>)
    requires Inv(nextFree, bits, cells, free) && nextFree == |cells|
    requires nextFree' == nextFree + 1 && bits' == bits + [true] && cells' == cells + [Value(v)]
    ensures free == []
    ensures Inv(nextFree', bits', cells', free)
  {
  }

  /** `insert` with a non-empty free list pops its head, and the link stored
      there becomes the new head. */
  lemma PopKeepsInv<V>(nextFree: nat, bits: seq<bool>, cells: seq<Cell<V>>, free: seq<nat>, v: V,
                       nextFree': nat, bits': seq<bool>, cells': seq<Cell<V>>)
    requires Inv(nextFree, bits, cells, free) && nextFree != |cells|
    requires nextFree < |cells| && cells[nextFree].Link? && nextFree' == cells[nextFree].next
    requires bits' == bits[nextFree := true] && cells' == cells[nextFree := Value(v)]
    ensures Inv(nextFree', bits', cells', free[1..])
  {
    var rest := free[1..];
    forall i | 0 <= i < |rest| ensures rest[i] < |cells'| && cells'[rest[i]] == Link(Successor(rest, i, |cells'|)) {
      assert rest[i] == free[i + 1] != free[0];
      assert Successor(rest, i, |cells|) == Successor(free, i + 1, |cells|);
    }
    forall i | 0 <= i < |cells'| && !bits'[i] ensures i in rest {
      assert i in free && i != free[0];
      var j :| 0 <= j < |free| && free[j] == i;
      assert rest[j - 1] == i;
    }
  }

  /** `remove` of an occupied cell pushes it on the free list, linked to the old head. */
  lemma VacateKeepsInv<V>(nextFree: nat, bits: seq<bool>, cells: seq<Cell<V>>, free: seq<nat>, k: nat,
                          bits': seq<bool>, cells': seq<Cell<V>>)
    requires Inv(nextFree, bits, cells, free) && k < |bits| && bits[k]
    requires bits' == bits[k := false] && cells' == cells[k := Link(nextFree)]
    ensures Inv(k, bits', cells', [k] + free)
  {
    assert forall i :: 0 <= i < |free| ==> free[i] != k by {
      forall i | 0 <= i < |free| ensures free[i] != k {
        assert cells[free[i]].Link?;
      }
    }
    PushChain(nextFree, cells, free, k, cells');
    var free' := [k] + free;
    assert Distinct(free') by {
      forall i, j | 0 <= i < j < |free'| ensures free'[i] != free'[j] {
        if i > 0 { assert free'[i] == free[i - 1] && free'[j] == free[j - 1]; }
      }
    }
  }

  /** A free list with a cell `k` pushed in front, linked to the old head. */
  lemma PushChain<V>(head: nat, cells: seq<Cell<V>>, free: seq<nat>, k: nat, cells': seq<Cell<V>>)
    requires FreeChain(head, cells, free) && k < |cells| && cells' == cells[k := Link(head)]
    requires forall i :: 0 <= i < |free| ==> free[i] != k
    ensures FreeChain(k, cells', [k] + free)
  {
    var free' := [k] + free;
    forall i | 0 <= i < |free'| ensures free'[i] < |cells'| && cells'[free'[i]] == Link(Successor(free', i, |cells'|)) {
      if i > 0 {
        assert free'[i] == free[i - 1];
        assert Successor(free', i, |cells|) == Successor(free, i - 1, |cells|);
      }
    }
  }

  // ---------------------------------------------------------------------------
  // `iter`: the occupied values in ascending index order
  // ---------------------------------------------------------------------------

  /** The indices `base + i` of the set bits, in ascending order. */
  function Indices(bits: seq<bool>, base: nat): (r: seq<nat>)
    ensures forall j :: 0 <= j < |r| ==> base <= r[j] < base + |bits| && bits[r[j] - base]
    ensures forall j, l :: 0 <= j < l < |r| ==> r[j] < r[l]
    ensures forall i :: base <= i < base + |bits| && bits[i - base] ==> i in r
    decreases |bits|
  {
    if |bits| == 0 then []
    else
      var rest := Indices(bits[1..], base + 1);
      if bits[0] then [base] + rest else rest
  }

  /** The zip of the cells with their bits, keeping the values of the occupied ones. */
  function Values<V>(cells: seq<Cell<V>>, bits: seq<bool>): seq<V>
    requires |cells| == |bits| && forall i :: 0 <= i < |bits| && bits[i] ==> cells[i].Value?
    decreases |cells|
  {
    if |cells| == 0 then []
    else
      var rest := Values(cells[1..], bits[1..]);
      if bits[0] then [cells[0].v] + rest else rest
  }

  /** `Values` keeps exactly as many entries as `Indices` lists. */
  lemma {:induction false} ValuesLength<V>(cells: seq<Cell<V>>, bits: seq<bool>, base: nat)
    requires |cells| == |bits| && forall i :: 0 <= i < |bits| && bits[i] ==> cells[i].Value?
    ensures |Values(cells, bits)| == |Indices(bits, base)|
    decreases |cells|
  {
    if |cells| > 0 {
      ValuesLength(cells[1..], bits[1..], base + 1);
    }
  }

  /** The `j`-th value is the one in the cell at the `j`-th listed index. */
  lemma {:induction false} ValueAtIndex<V>(cells: seq<Cell<V>>, bits: seq<bool>, base: nat, j: nat)
    requires |cells| == |bits| && forall i :: 0 <= i < |bits| && bits[i] ==> cells[i].Value?
    requires j < |Values(cells, bits)| && j < |Indices(bits, base)|
    ensures Indices(bits, base)[j] - base < |cells|
    ensures cells[Indices(bits, base)[j] - base].Value?
    ensures Values(cells, bits)[j] == cells[Indices(bits, base)[j] - base].v
    decreases |cells|
  {
    var rest, restIdx := Values(cells[1..], bits[1..]), Indices(bits[1..], base + 1);
    if bits[0] && j == 0 {
      assert Values(cells, bits) == [cells[0].v] + rest;
      assert Indices(bits, base) == [base] + restIdx;
    } else {
      var k := if bits[0] then j - 1 else j;
      assert Values(cells, bits)[j] == rest[k];
      assert Indices(bits, base)[j] == restIdx[k];
      ValueAtIndex(cells[1..], bits[1..], base + 1, k);
      assert cells[1..][restIdx[k] - (base + 1)] == cells[restIdx[k] - base];
    }
  }

  /** `Values` lists, one for one, the values at the indices `Indices` lists. */
  lemma ValuesAtIndices<V>(cells: seq<Cell<V>>, bits: seq<bool>, base: nat)
    requires |cells| == |bits| && forall i :: 0 <= i < |bits| && bits[i] ==> cells[i].Value?
    ensures |Values(cells, bits)| == |Indices(bits, base)|
    ensures forall j :: 0 <= j < |Values(cells, bits)| ==>
              Values(cells, bits)[j] == cells[Indices(bits, base)[j] - base].v
  {
    ValuesLength(cells, bits, base);
    forall j | 0 <= j < |Values(cells, bits)|
      ensures Values(cells, bits)[j] == cells[Indices(bits, base)[j] - base].v
    {
      ValueAtIndex(cells, bits, base, j);
    }
  }

  // ---------------------------------------------------------------------------
  // The map
  // ---------------------------------------------------------------------------

  class BvMap<V> {
    var nextFree: nat
    var bits: seq<bool>
    var cells: seq<Cell<V>>

    /** The free list, head first. */
    ghost var Free: seq<nat>

    ghost predicate Valid()
      reads this
    {
      Inv(nextFree, bits, cells, Free)
    }

    /** Occupied index -> stored value. */
    function Contents(): map<nat, V>
      reads this
    {
      Occupied(bits, cells)
    }

    /** `new`: no cells, and the free list is empty (its head is the end marker 0). */
    constructor()
      ensures Valid() && Contents() == map[]
      ensures nextFree == 0 && bits == [] && cells == []
    {
      nextFree, bits, cells := 0, [], [];
      Free := [];
    }

    /** The ghost free list is the one the links spell out, starting at `nextFree`. */
    lemma FreeListFollowsLinks()
      requires Valid()
      ensures |Free| <= |cells|
      ensures Walk(cells, nextFree, |cells|) == Free
    {
      DistinctBelow(Free, |cells|);
      ChainIsWalk(nextFree, cells, Free, |cells|);
    }

    /** `insert`: takes the head of the free list if there is one, otherwise
        appends a cell; either way the key is the old `nextFree`, and no other
        index changes. */
    method Insert(v: V) returns (k: nat)
      requires Valid()
      modifies this
      ensures Valid()
      ensures k == old(nextFree) && k !in old(Contents()) && Contents() == old(Contents())[k := v]
      ensures Get(k) == Some(v)
      ensures old(nextFree) == old(|cells|) ==>
                cells == old(cells) + [Value(v)] && bits == old(bits) + [true] && nextFree == |cells|
      ensures old(nextFree) != old(|cells|) ==>
                && old(nextFree) < old(|cells|) && old(cells[nextFree]).Link?
                && cells == old(cells)[k := Value(v)] && bits == old(bits)[k := true]
                && nextFree == old(cells[nextFree]).next
      ensures Free == if old(nextFree) == old(|cells|) then old(Free) else old(Free)[1..]
    {
      ghost var nextFree0, bits0, cells0, free0 := nextFree, bits, cells, Free;
      var next := nextFree;
      if next == |cells| {
        cells := cells + [Value(v)];
        bits := bits + [true];
        nextFree := nextFree + 1;
        PushKeepsInv(nextFree0, bits0, cells0, free0, v, nextFree, bits, cells);
        OccupyPush(bits0, cells0, v);
      } else {
        assert free0[0] == next;
        var slot := cells[next];
        cells := cells[next := Value(v)];
        nextFree := slot.next;
        bits := bits[next := true];
        Free := Free[1..];
        PopKeepsInv(nextFree0, bits0, cells0, free0, v, nextFree, bits, cells);
        OccupySet(bits0, cells0, next, v);
      }
      k := next;
    }

    /** `get`: `None` for an index out of range or with a clear bit, otherwise
        the value in the cell. */
    function Get(k: nat): (r: Option<V>)
      reads this
      requires Valid()
      ensures r.Some? <==> k < |bits| && bits[k]
      ensures r == if k in Contents() then Some(Contents()[k]) else None
    {
      if k < |bits| && bits[k] then Some(cells[k].v) else None
    }

    /** `remove`: for an occupied index, returns its value, clears its bit and
        pushes the cell on the free list; any other index gets `None` and
        nothing changes. The next `insert` returns the removed index. */
    method Remove(k: nat) returns (r: Option<V>)
      requires Valid()
      modifies this
      ensures Valid()
      ensures r == if k in old(Contents()) then Some(old(Contents())[k]) else None
      ensures Contents() == old(Contents()) - {k}
      ensures r.None? ==> unchanged(this)
      ensures r.Some? ==>
                && bits == old(bits)[k := false] && cells == old(cells)[k := Link(old(nextFree))]
                && nextFree == k && Free == [k] + old(Free)
      ensures Get(k) == None
    {
      if k < |bits| && bits[k] {
        ghost var nextFree0, bits0, cells0, free0 := nextFree, bits, cells, Free;
        bits := bits[k := false];
        var next := nextFree;
        nextFree := k;
        var slot := cells[k];
        cells := cells[k := Link(next)];
        Free := [k] + Free;
        r := Some(slot.v);
        VacateKeepsInv(nextFree0, bits0, cells0, free0, k, bits, cells);
        Vacate(bits0, cells0, k, next);
      } else {
        r := None;
      }
    }

    /** `iter`: the values of the occupied cells, in ascending index order,
        one for each set bit. */
    function Iter(): (r: seq<V>)
      reads this
      requires Valid()
      ensures |r| == |Indices(bits, 0)|
      ensures forall j :: 0 <= j < |r| ==> Indices(bits, 0)[j] in Contents() && r[j] == Contents()[Indices(bits, 0)[j]]
    {
      ValuesAtIndices(cells, bits, 0);
      Values(cells, bits)
    }

    /** `clone`: a new map with a copy of every cell, value or link, the same
        bits and the same free-list head. */
    method Clone() returns (c: BvMap<V>)
      requires Valid()
      ensures fresh(c) && c.Valid()
      ensures c.cells == cells && c.bits == bits && c.nextFree == nextFree && c.Contents() == Contents()
    {
      var vec := CopyCells(cells, bits);
      c := new BvMap();
      c.cells, c.bits, c.nextFree := vec, bits, nextFree;
      c.Free := Free;
    }
  }

  /** The loop of `clone`: each occupied cell gets a copy of its value, each
      free cell a copy of its link, so the new vector equals the old one. */
  method CopyCells<V>(cells: seq<Cell<V>>, bits: seq<bool>) returns (vec: seq<Cell<V>>)
    requires |bits| == |cells| && forall i :: 0 <= i < |cells| ==> (bits[i] <==> cells[i].Value?)
    ensures vec == cells
  {
    vec := [];
    var i := 0;
    while i < |cells|
      invariant 0 <= i <= |cells| && |vec| == i
      invariant forall j :: 0 <= j < i ==> vec[j] == cells[j]
    {
      var cell: Cell<V>;
      if bits[i] {
        cell := Value(cells[i].v);
      } else {
        cell := Link(cells[i].next);
      }
      vec := vec + [cell];
      i := i + 1;
    }
  }

  // ---------------------------------------------------------------------------
  // Scenario from the unit test of src/extra/bvmap.rs
  // ---------------------------------------------------------------------------

  /** `basic`: two inserts, a read of each kind and a removal. */
  method Basic() returns (got1: Option<int>, got34: Option<int>, removed: Option<int>, got2: Option<int>)
    ensures got1 == Some(11) && got34 == None
    ensures removed == Some(12) && got2 == None
  {
    var m := new BvMap<int>();
    var a1 := m.Insert(11);
    var a2 := m.Insert(12);
    got1 := m.Get(a1);
    got34 := m.Get(34);
    removed := m.Remove(a2);
    got2 := m.Get(a2);
  }
}
