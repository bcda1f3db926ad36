/** Slots and boards: the records the puzzle page keeps in its `slots` state
    (src/app/page.tsx:9-17), the `find` lookups it performs on them, and the
    invariant every board it builds satisfies. */
module Slots {

  datatype Option<T> = None | Some(value: T)

  /** The role a slot plays relative to the empty slot: the slot at id e-1 is
      tagged Left, e+1 Right, e-N Top and e+N Bottom. */
  datatype Direction = Left | Right | Top | Bottom

  /** One grid position. `id` is its fixed row-major index, `value` its tile
      number (0 for the empty slot). */
  datatype Slot = Slot(id: int, value: int, isActive: bool, isEmpty: bool, direction: Option<Direction>)

  /** `array.find(value => value.value === 0)`: the index of the first slot
      holding value 0. */
  function FindEmpty(b: seq<Slot>): (r: Option<nat>)
    ensures r.Some? ==> r.value < |b| && b[r.value].value == 0
    ensures r.Some? ==> forall k :: 0 <= k < r.value ==> b[k].value != 0
    ensures r.None? ==> forall k :: 0 <= k < |b| ==> b[k].value != 0
  {
    if |b| == 0 then None
    else if b[0].value == 0 then Some(0)
    else
      match FindEmpty(b[1..])
      case None => None
      case Some(i) => Some(i + 1)
  }

  /** `array.find(value => value.id === id)`: the index of the first slot
      with that id. */
  function FindId(b: seq<Slot>, id: int): (r: Option<nat>)
    ensures r.Some? ==> r.value < |b| && b[r.value].id == id
    ensures r.Some? ==> forall k :: 0 <= k < r.value ==> b[k].id != id
    ensures r.None? ==> forall k :: 0 <= k < |b| ==> b[k].id != id
  {
    if |b| == 0 then None
    else if b[0].id == id then Some(0)
    else
      match FindId(b[1..], id)
      case None => None
      case Some(i) => Some(i + 1)
  }

  /** `Array.from({length: n}, (_, index) => index)`: the values 0..n-1 in order. */
  function Iota(n: nat): seq<int>
  {
    seq(n, i => i)
  }

  /** The tile numbers of a board, slot by slot. */
  function Values(b: seq<Slot>): seq<int>
  {
    seq(|b|, i requires 0 <= i < |b| => b[i].value)
  }

  /** Exchanges the elements at positions i and j. */
  function Swap(s: seq<int>, i: nat, j: nat): seq<int>
    requires i < |s| && j < |s|
  {
    s[i := s[j]][j := s[i]]
  }

  /** A board as the page builds it: ids are the row-major positions, the
      values are a permutation of 0..|b|-1, and `isEmpty` marks value 0. */
  ghost predicate IsBoard(b: seq<Slot>)
  {
    (forall i :: 0 <= i < |b| ==> b[i].id == i && (b[i].isEmpty <==> b[i].value == 0)) &&
    multiset(Values(b)) == multiset(Iota(|b|))
  }

  /** No slot holding value 0 is marked active. */
  ghost predicate HoleInactive(b: seq<Slot>)
  {
    forall k :: 0 <= k < |b| && b[k].value == 0 ==> !b[k].isActive
  }

  /** Every number below n occurs exactly once in Iota(n), and nothing else does. */
  lemma {:induction false} IotaCount(n: nat, v: int)
    ensures multiset(Iota(n))[v] == if 0 <= v < n then 1 else 0
  {
    if n > 0 {
      assert Iota(n) == Iota(n - 1) + [n - 1];
      IotaCount(n - 1, v);
    }
  }

  lemma SwapPermutes(s: seq<int>, i: nat, j: nat)
    requires i < |s| && j < |s|
    ensures multiset(Swap(s, i, j)) == multiset(s)
  {
    if i != j {
      var t := s[i := s[j]];
      assert multiset(t) == multiset(s) - multiset{s[i]} + multiset{s[j]};
      assert multiset(t[j := s[i]]) == multiset(t) - multiset{t[j]} + multiset{s[i]};
    }
  }

  lemma TwoOccurrences(s: seq<int>, i: nat, j: nat)
    requires i < j < |s| && s[i] == s[j]
    ensures multiset(s)[s[i]] >= 2
  {
    assert s == s[..j] + s[j..];
    assert s[..j][i] == s[i];
    assert s[i] in multiset(s[..j]);
    assert s[j..][0] == s[j];
    assert s[j] in multiset(s[j..]);
  }

  /** A sequence with the multiset of 0..|s|-1 holds each of those values exactly once. */
  lemma PermutationOfRange(s: seq<int>)
    requires multiset(s) == multiset(Iota(|s|))
    ensures forall k :: 0 <= k < |s| ==> 0 <= s[k] < |s|
    ensures forall i, j :: 0 <= i < j < |s| ==> s[i] != s[j]
    ensures forall v :: 0 <= v < |s| ==> v in s
  {
    forall k | 0 <= k < |s|
      ensures 0 <= s[k] < |s|
    {
      assert s[k] in multiset(s);
      IotaCount(|s|, s[k]);
    }
    forall i, j | 0 <= i < j < |s|
      ensures s[i] != s[j]
    {
      if s[i] == s[j] {
        TwoOccurrences(s, i, j);
        IotaCount(|s|, s[i]);
      }
    }
    forall v | 0 <= v < |s|
      ensures v in s
    {
      IotaCount(|s|, v);
      assert v in multiset(s);
    }
  }

  /** A non-empty board has exactly one empty slot, and `find` on value 0 returns it. */
  lemma OneEmptySlot(b: seq<Slot>)
    requires IsBoard(b) && |b| > 0
    ensures FindEmpty(b).Some?
    ensures forall k :: 0 <= k < |b| ==> (b[k].value == 0 <==> k == FindEmpty(b).value)
    ensures forall k :: 0 <= k < |b| ==> (b[k].isEmpty <==> k == FindEmpty(b).value)
  {
    var vs := Values(b);
    PermutationOfRange(vs);
    assert 0 in vs;
    var z :| 0 <= z < |vs| && vs[z] == 0;
    var h := FindEmpty(b).value;
    forall k | 0 <= k < |b| && b[k].value == 0
      ensures k == h
    {
      assert vs[k] == vs[h];
    }
  }

  /** On a board, `find` by id returns the slot at that position, or nothing
      when the id is outside 0..|b|-1. */
  lemma FindIdOnBoard(b: seq<Slot>, x: int)
    requires forall i :: 0 <= i < |b| ==> b[i].id == i
    ensures FindId(b, x) == if 0 <= x < |b| then Some(x) else None
  {
    var r := FindId(b, x);
    if 0 <= x < |b| {
      assert b[x].id == x;
    }
  }
}
