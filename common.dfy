/** Shared vocabulary of the three slot allocators: an optional result, the
    fixed-width integer types of the handles, and the vector operation that
    the compacting maps use to keep their dense store packed. */
module Common {

  /** `Option<T>`: `None` is the "absent" outcome of a lookup or removal. */
  datatype Option<T> = None | Some(value: T)

  const U16_LIMIT: int := 0x1_0000
  const U32_LIMIT: int := 0x1_0000_0000

  /** Rust `u16`: slot generations. */
  type u16 = x: int | 0 <= x < 0x1_0000
  /** Rust `u32`: slot indices and dense positions. */
  type u32 = x: int | 0 <= x < 0x1_0000_0000

  /** `Vec::swap_remove(i)`: the last element takes the place of element `i`
      and the vector shrinks by one; nothing else moves. */
  function SwapRemove<T>(s: seq<T>, i: nat): (r: seq<T>)
    requires i < |s|
    ensures |r| == |s| - 1
    ensures i < |r| ==> r[i] == s[|s| - 1]
    ensures forall j :: 0 <= j < |r| && j != i ==> r[j] == s[j]
  {
    var last := |s| - 1;
    if i == last then
      assert s == s[..last] + [s[last]];
      s[..last]
    else
      assert s == s[..i] + [s[i]] + s[i + 1..last] + [s[last]];
      assert s[..last][i := s[last]] == s[..i] + [s[last]] + s[i + 1..last];
      s[..last][i := s[last]]
  }

  /** Together with the removed element, the result of `SwapRemove` holds
      exactly what the vector held. */
  lemma SwapRemovePermutes<T>(s: seq<T>, i: nat)
    requires i < |s|
    ensures multiset(SwapRemove(s, i)) + multiset{s[i]} == multiset(s)
  {
    var last := |s| - 1;
    if i == last {
      assert s == s[..last] + [s[last]];
    } else {
      assert s == s[..i] + [s[i]] + s[i + 1..last] + [s[last]];
      assert SwapRemove(s, i) == s[..i] + [s[last]] + s[i + 1..last];
    }
  }

  /** `inner` is a permutation of `0..|inner|`, and `pos` is its inverse: the
      back pointers and free stack of the compacting maps, and where each slot
      sits in them. */
  ghost predicate IsPermutation(inner: seq<u32>, pos: seq<nat>)
  {
    && |inner| == |pos|
    && (forall p :: 0 <= p < |inner| ==> inner[p] < |pos| && pos[inner[p]] == p)
    && (forall s :: 0 <= s < |pos| ==> pos[s] < |inner| && inner[pos[s]] == s)
  }

  /** Exchanging two entries of a permutation, and their inverse entries, gives a permutation. */
  lemma SwapKeepsPermutation(inner: seq<u32>, pos: seq<nat>, i: nat, j: nat)
    requires IsPermutation(inner, pos) && i < |inner| && j < |inner|
    ensures IsPermutation(inner[i := inner[j]][j := inner[i]], pos[inner[j] := i][inner[i] := j])
  {
    var inner', pos' := inner[i := inner[j]][j := inner[i]], pos[inner[j] := i][inner[i] := j];
    forall p | 0 <= p < |inner'| ensures inner'[p] < |pos'| && pos'[inner'[p]] == p {
      if p != i && p != j {
        assert inner[p] != inner[i] && inner[p] != inner[j];
      }
    }
    forall s | 0 <= s < |pos'| ensures pos'[s] < |inner'| && inner'[pos'[s]] == s {
      if s != inner[i] && s != inner[j] {
        assert pos[s] != i && pos[s] != j;
      }
    }
  }

  /** The identity is a permutation and its own inverse. */
  lemma IdentityIsPermutation(inner: seq<u32>, pos: seq<nat>)
    requires |inner| == |pos|
    requires forall p :: 0 <= p < |inner| ==> inner[p] == p
    requires forall s :: 0 <= s < |pos| ==> pos[s] == s
    ensures IsPermutation(inner, pos)
  {
  }

  /** A new slot appended to the permutation at its own position. */
  lemma AppendPermutation(inner: seq<u32>, pos: seq<nat>, n: nat)
    requires IsPermutation(inner, pos) && |inner| == n < U32_LIMIT
    ensures IsPermutation(inner + [n], pos + [n])
  {
    var inner', pos' := inner + [n], pos + [n];
    forall p | 0 <= p < |inner'| ensures inner'[p] < |pos'| && pos'[inner'[p]] == p {
      if p < n { assert inner'[p] == inner[p]; }
    }
  }
}
