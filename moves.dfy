/** The board `handleClick` prepares (src/app/page.tsx:104-128): the empty
    slot's position receives the clicked tile, the clicked position becomes
    the empty slot, and every other slot is kept as it is. */
module Moves {
  import opened Slots
  import opened Grid
  import opened Adjacency

  /** `slots.map` in `handleClick`. The empty position gets the clicked tile,
      always tagged `'right'` and active; the clicked position gets value 0,
      no direction, empty and inactive. The position test is by id, and the
      empty slot's test comes first. */
  function Moved(b: seq<Slot>, clicked: Slot, emptyId: int): (r: seq<Slot>)
    ensures |r| == |b|
    ensures forall k :: 0 <= k < |b| ==> r[k].id == b[k].id
  {
    seq(|b|, k requires 0 <= k < |b| =>
      if b[k].id == emptyId then Slot(emptyId, clicked.value, true, false, Some(Right))
      else if b[k].id == clicked.id then Slot(clicked.id, 0, false, true, None)
      else b[k])
  }

  /** Clicking a tile c of a board exchanges it with the empty slot h: the
      values are swapped at the two positions, the result is again a board,
      and its only empty slot is c. Every other slot is unchanged. */
  lemma MoveSwapsWithHole(b: seq<Slot>, c: nat)
    requires IsBoard(b) && c < |b| && b[c].value != 0
    ensures FindEmpty(b).Some?
    ensures var h := FindEmpty(b).value; var r := Moved(b, b[c], b[h].id);
      IsBoard(r) && Values(r) == Swap(Values(b), h, c) &&
      r[h] == Slot(h, b[c].value, true, false, Some(Right)) &&
      r[c] == Slot(c, 0, false, true, None) &&
      (forall k :: 0 <= k < |b| && k != h && k != c ==> r[k] == b[k]) &&
      FindEmpty(r) == Some(c)
  {
    OneEmptySlot(b);
    var h := FindEmpty(b).value;
    var r := Moved(b, b[c], b[h].id);
    MovedPositions(b, h, c);
    SwapPermutes(Values(b), h, c);
    assert forall k :: 0 <= k < |r| ==> r[k].id == k && (r[k].isEmpty <==> r[k].value == 0);
    assert IsBoard(r);
    OneEmptySlot(r);
  }

  /** Where ids are positions and h holds 0, the map touches exactly
      positions h and c, exchanging their values. */
  lemma MovedPositions(b: seq<Slot>, h: nat, c: nat)
    requires h < |b| && c < |b| && h != c && b[h].value == 0
    requires forall i :: 0 <= i < |b| ==> b[i].id == i
    ensures var r := Moved(b, b[c], b[h].id);
      r[h] == Slot(h, b[c].value, true, false, Some(Right)) &&
      r[c] == Slot(c, 0, false, true, None) &&
      (forall k :: 0 <= k < |b| && k != h && k != c ==> r[k] == b[k]) &&
      Values(r) == Swap(Values(b), h, c)
  {
    var r := Moved(b, b[c], b[h].id);
    assert Values(r) == Swap(Values(b), h, c);
  }

  /** The click's guards on a board: it goes ahead exactly when the tile is
      active and carries a direction. On a settled board that is exactly a
      grid neighbour of the empty slot, and the direction is its role. */
  lemma AcceptedClickIsNeighbour(b: seq<Slot>, n: int, c: nat)
    requires Settled(b, n) && c < |b|
    ensures b[c].isActive <==> Role(n, FindEmpty(b).value, c).Some?
    ensures b[c].isActive ==> b[c].direction.Some? && b[c].value != 0
  {
    OneEmptySlot(b);
  }

  /** A completed move on a settled board of size N >= 3: the committed board
      is the old one with the clicked tile and the empty slot exchanged, it is
      settled around the new empty slot c, and the tile that moved is tagged
      with its true role relative to c (the opposite of the role it had),
      not with the constant `'right'` the click wrote on it. */
  lemma CommitSettles(b: seq<Slot>, n: int, c: nat)
    requires n >= 3 && Settled(b, n) && c < |b| && b[c].isActive
    ensures FindEmpty(b).Some?
    ensures var h := FindEmpty(b).value; var m := Moved(b, b[c], b[h].id);
      Resolve(m, n).Some? &&
      Values(Resolve(m, n).value) == Swap(Values(b), h, c) &&
      Settled(Resolve(m, n).value, n) &&
      FindEmpty(Resolve(m, n).value) == Some(c) &&
      Resolve(m, n).value[h].direction == Some(Opposite(b[c].direction.value))
  {
    OneEmptySlot(b);
    var h := FindEmpty(b).value;
    assert Role(n, h, c).Some?;
    MoveSwapsWithHole(b, c);
    var m := Moved(b, b[c], b[h].id);
    ResolveMarksGridNeighbours(m, n, c);
    RoleSymmetric(n, h, c);
    var r := Resolve(m, n).value;
    OneEmptySlot(r);
    assert r[c].value == 0;
  }
}
