/** The page's `setNearSlots` (src/app/page.tsx:54-88): find the empty slot,
    tag the slots at ids e-1, e+1, e-N and e+N with their direction, drop the
    left/right candidates that would wrap across a row boundary, and mark the
    survivors active in a fresh copy of the board. */
module Adjacency {
  import opened Slots
  import opened Grid

  /** The loop that fills `ownValues` (src/app/page.tsx:57-63): for each id i
      that starts a row, push i and the last id of that row. The result holds
      exactly the ids in the first and last columns. */
  method EdgeIds(n: int) returns (own: seq<int>)
    requires n >= 1
    ensures forall x :: x in own <==> IsEdge(n, x)
  {
    own := [];
    var i := 0;
    while i < n * n
      invariant 0 <= i <= n * n
      invariant forall x :: x in own <==> IsEdge(n, x) && x - x % n < i
    {
      if i % n == 0 {
        RowEnds(n, i);
        own := own + [i, i + n - 1];
      } else {
        forall x | IsEdge(n, x)
          ensures x - x % n != i
        {
          RowStartAligned(n, x);
        }
      }
      i := i + 1;
    }
  }

  lemma RowStartAligned(n: int, x: int)
    requires n > 0
    ensures (x - x % n) % n == 0
  {
    assert x == (x / n) * n + x % n;
    DivModUnique(x - x % n, n, x / n, 0);
  }

  /** A row that starts at id i < N*N ends at id i + N - 1, still on the board. */
  lemma RowEnds(n: int, i: int)
    requires n >= 1 && 0 <= i < n * n && i % n == 0
    ensures IsEdge(n, i) && IsEdge(n, i + n - 1)
    ensures (i + n - 1) - (i + n - 1) % n == i
  {
    RowBelow(n, i);
    var q := i / n;
    assert i == q * n;
    MulAtLeast(n - q, n);
    assert (n - q) * n == n * n - q * n;
    DivModUnique(i + n - 1, n, q, n - 1);
  }

  /** `slot.direction = d` on the slot that `find` returned, if any. */
  function TagAt(b: seq<Slot>, at: Option<nat>, d: Direction): (r: seq<Slot>)
    requires at.Some? ==> at.value < |b|
    ensures |r| == |b|
  {
    match at
    case None => b
    case Some(k) => b[k := b[k].(direction := Some(d))]
  }

  /** The final `array.map` (src/app/page.tsx:83-87): a copy of every slot,
      active exactly when its id is one of the surviving candidates' ids. */
  function Activate(t: seq<Slot>, near: seq<int>): (r: seq<Slot>)
    ensures |r| == |t|
  {
    seq(|t|, k requires 0 <= k < |t| => t[k].(isActive := t[k].id in near))
  }

  /** The ids of the candidates that survive, in the order `[right, left, top, bottom]`. */
  function NearIds(right: Option<int>, left: Option<int>, top: Option<int>, bottom: Option<int>): seq<int>
  {
    (if right.Some? then [right.value] else []) + (if left.Some? then [left.value] else []) +
    (if top.Some? then [top.value] else []) + (if bottom.Some? then [bottom.value] else [])
  }

  /** The board after the four `direction` writes for the empty slot's id e
      (src/app/page.tsx:64-71). */
  function Tagged(b: seq<Slot>, e: int, n: int): (r: seq<Slot>)
    ensures |r| == |b|
  {
    TagAll(b, FindId(b, e - 1), FindId(b, e + 1), FindId(b, e - n),
           FindId(b, e + n))
  }

  /** The four writes, in the source's order: left, right, top, bottom. */
  function TagAll(b: seq<Slot>, left: Option<nat>, right: Option<nat>, top: Option<nat>, bottom: Option<nat>): (r: seq<Slot>)
    requires left.Some? ==> left.value < |b|
    requires right.Some? ==> right.value < |b|
    requires top.Some? ==> top.value < |b|
    requires bottom.Some? ==> bottom.value < |b|
    ensures |r| == |b|
  {
    TagAt(TagAt(TagAt(TagAt(b, left, Left), right, Right), top, Top), bottom, Bottom)
  }

  /** The ids of `nearItems` (src/app/page.tsx:72-81): the candidates found on
      the board, less the left/right ones that the wrap correction drops. */
  function Near(b: seq<Slot>, e: int, n: int): seq<int>
  {
    var wrap := IsEdge(n, e);
    var keepRight := FindId(b, e + 1).Some? && !(wrap && IsEdge(n, e + 1));
    var keepLeft := FindId(b, e - 1).Some? && !(wrap && IsEdge(n, e - 1));
    NearIds(if keepRight then Some(e + 1) else None, if keepLeft then Some(e - 1) else None,
            if FindId(b, e - n).Some? then Some(e - n) else None,
            if FindId(b, e + n).Some? then Some(e + n) else None)
  }

  /** What `setNearSlots` hands to `setSlots`, or None when it returns early
      because no slot holds value 0. */
  function Resolve(b: seq<Slot>, n: int): Option<seq<Slot>>
  {
    match FindEmpty(b)
    case None => None
    case Some(h) => Some(Activate(Tagged(b, b[h].id, n), Near(b, b[h].id, n)))
  }

  /** `setNearSlots` as the page runs it: the four `find`s, the in-place
      `direction` writes on the slots found, the edge-id list and the wrap
      correction, then the fresh, re-activated copy. */
  method ResolveAdjacency(board: seq<Slot>, n: int) returns (r: Option<seq<Slot>>)
    requires n >= 1
    ensures r == Resolve(board, n)
    ensures r.None? <==> forall k :: 0 <= k < |board| ==> board[k].value != 0
  {
    var emptySlot := FindEmpty(board);
    if emptySlot.None? {
      return None;
    }
    var e := board[emptySlot.value].id;
    var ownValues := EdgeIds(n);
    var work := new Slot[|board|](k requires 0 <= k < |board| => board[k]);
    assert work[..] == board;
    var left, right, top, bottom := WriteDirections(work, e, n);
    ghost var found := (left, right, top, bottom);
    if e in ownValues {
      if right.Some? && e + 1 in ownValues {
        right := None;
      }
      if left.Some? && e - 1 in ownValues {
        left := None;
      }
    }
    var near := NearIds(if right.Some? then Some(e + 1) else None, if left.Some? then Some(e - 1) else None,
                        if top.Some? then Some(e - n) else None, if bottom.Some? then Some(e + n) else None);
    ResolveParts(board, e, n, found.0, found.1, found.2, found.3, ownValues, near);
    r := Some(Activate(work[..], near));
  }

  /** The pieces ResolveAdjacency computes are those of Resolve. */
  lemma ResolveParts(board: seq<Slot>, e: int, n: int, left: Option<nat>, right: Option<nat>, top: Option<nat>,
                     bottom: Option<nat>, ownValues: seq<int>, near: seq<int>)
    requires left == FindId(board, e - 1) && right == FindId(board, e + 1)
    requires top == FindId(board, e - n) && bottom == FindId(board, e + n)
    requires forall x :: x in ownValues <==> IsEdge(n, x)
    requires var wrap := e in ownValues;
      near == NearIds(if right.Some? && !(wrap && e + 1 in ownValues) then Some(e + 1) else None,
                      if left.Some? && !(wrap && e - 1 in ownValues) then Some(e - 1) else None,
                      if top.Some? then Some(e - n) else None, if bottom.Some? then Some(e + n) else None)
    ensures TagAll(board, left, right, top, bottom) == Tagged(board, e, n)
    ensures near == Near(board, e, n)
  {
    assert (e in ownValues) == IsEdge(n, e);
    assert (e + 1 in ownValues) == IsEdge(n, e + 1);
    assert (e - 1 in ownValues) == IsEdge(n, e - 1);
  }

  /** The four `find`s by id and the `direction` writes on the slots they
      return (src/app/page.tsx:64-71), in place on the page's working array.
      The lookups compare ids only, which the writes do not touch. */
  method WriteDirections(work: array<Slot>, e: int, n: int) returns (left: Option<nat>, right: Option<nat>, top: Option<nat>, bottom: Option<nat>)
    modifies work
    ensures left == FindId(old(work[..]), e - 1) && right == FindId(old(work[..]), e + 1)
    ensures top == FindId(old(work[..]), e - n) && bottom == FindId(old(work[..]), e + n)
    ensures work[..] == TagAll(old(work[..]), left, right, top, bottom)
  {
    ghost var board := work[..];
    left := WriteDirection(work, e - 1, Left);
    FindSameIds(work[..], board, e + 1);
    right := WriteDirection(work, e + 1, Right);
    FindSameIds(work[..], board, e - n);
    top := WriteDirection(work, e - n, Top);
    FindSameIds(work[..], board, e + n);
    bottom := WriteDirection(work, e + n, Bottom);
  }

  /** `const s = array.find(value => value.id === id); if (s) s.direction = d`. */
  method WriteDirection(work: array<Slot>, id: int, d: Direction) returns (at: Option<nat>)
    modifies work
    ensures at == FindId(old(work[..]), id)
    ensures work[..] == TagAt(old(work[..]), at, d)
    ensures forall i :: 0 <= i < work.Length ==> work[i].id == old(work[i].id)
  {
    at := FindId(work[..], id);
    if at.Some? {
      work[at.value] := work[at.value].(direction := Some(d));
    }
  }

  /** `find` by id sees only ids: boards with the same ids give the same answer. */
  lemma FindSameIds(a: seq<Slot>, b: seq<Slot>, x: int)
    requires |a| == |b| && forall i :: 0 <= i < |a| ==> a[i].id == b[i].id
    ensures FindId(a, x) == FindId(b, x)
  {
    var ra, rb := FindId(a, x), FindId(b, x);
    if ra.Some? {
      assert b[ra.value].id == x;
    }
    if rb.Some? {
      assert a[rb.value].id == x;
    }
  }

  /** The direction the page's index arithmetic writes on id k when the empty
      slot has id e (the last write wins, as in the source's order). */
  function Offset(n: int, e: int, k: int): Option<Direction>
  {
    if k == e + n then Some(Bottom)
    else if k == e - n then Some(Top)
    else if k == e + 1 then Some(Right)
    else if k == e - 1 then Some(Left)
    else None
  }

  /** The row-wrap correction drops the left/right candidate k. */
  predicate WrapDropped(n: int, e: int, k: int)
  {
    (k == e - 1 || k == e + 1) && IsEdge(n, e) && IsEdge(n, k)
  }

  /** A board whose activity tags are those of its own empty slot's grid
      neighbours on the N×N grid, each tagged with its role. */
  ghost predicate Settled(b: seq<Slot>, n: int)
  {
    n > 0 && |b| == n * n && IsBoard(b) && FindEmpty(b).Some? &&
    forall k :: 0 <= k < |b| ==>
      (b[k].isActive <==> Role(n, FindEmpty(b).value, k).Some?) &&
      (b[k].isActive ==> b[k].direction == Role(n, FindEmpty(b).value, k))
  }

  /** On any board, the resolver keeps every slot's position, id, value and
      `isEmpty`; it activates exactly the candidates that escape the wrap
      correction; and it writes the candidate's direction on every candidate,
      dropped or not, leaving every other slot's direction as it was. */
  lemma ResolveOnBoard(b: seq<Slot>, n: int, h: nat)
    requires n >= 2 && IsBoard(b) && h < |b| && b[h].value == 0
    ensures Resolve(b, n).Some?
    ensures |Resolve(b, n).value| == |b|
    ensures forall k :: 0 <= k < |b| ==>
      var s := Resolve(b, n).value[k];
      s.id == k && s.value == b[k].value && s.isEmpty == b[k].isEmpty &&
      (s.isActive <==> Offset(n, h, k).Some? && !WrapDropped(n, h, k)) &&
      s.direction == if Offset(n, h, k).Some? then Offset(n, h, k) else b[k].direction
  {
    OneEmptySlot(b);
    assert FindEmpty(b) == Some(h);
    assert b[h].id == h;
    var r := Resolve(b, n).value;
    assert r == Activate(Tagged(b, h, n), Near(b, h, n));
    forall k | 0 <= k < |b|
      ensures r[k].id == k && r[k].value == b[k].value && r[k].isEmpty == b[k].isEmpty
      ensures r[k].isActive <==> Offset(n, h, k).Some? && !WrapDropped(n, h, k)
      ensures r[k].direction == if Offset(n, h, k).Some? then Offset(n, h, k) else b[k].direction
    {
      TaggedOnBoard(b, n, h, k);
      NearOnBoard(b, n, h, k);
    }
  }

  /** Where the ids are the positions, the direction writes land on exactly
      the in-range ids among e-1, e+1, e-N, e+N. */
  lemma TaggedOnBoard(b: seq<Slot>, n: int, h: int, k: int)
    requires n >= 2 && 0 <= k < |b|
    requires forall i :: 0 <= i < |b| ==> b[i].id == i
    ensures Tagged(b, h, n)[k] == if Offset(n, h, k).Some? then b[k].(direction := Offset(n, h, k)) else b[k]
  {
    FindIdOnBoard(b, h - 1);
    FindIdOnBoard(b, h + 1);
    FindIdOnBoard(b, h - n);
    FindIdOnBoard(b, h + n);
    var left, right, top, bottom := FindId(b, h - 1), FindId(b, h + 1), FindId(b, h - n), FindId(b, h + n);
    TagAllAt(b, left, right, top, bottom, k);
    assert (bottom == Some(k)) == (k == h + n);
    assert (top == Some(k)) == (k == h - n);
    assert (right == Some(k)) == (k == h + 1);
    assert (left == Some(k)) == (k == h - 1);
  }

  /** Slot k after the four writes: the last write that hit it decides its direction. */
  lemma TagAllAt(b: seq<Slot>, left: Option<nat>, right: Option<nat>, top: Option<nat>, bottom: Option<nat>, k: int)
    requires left.Some? ==> left.value < |b|
    requires right.Some? ==> right.value < |b|
    requires top.Some? ==> top.value < |b|
    requires bottom.Some? ==> bottom.value < |b|
    requires 0 <= k < |b|
    ensures TagAll(b, left, right, top, bottom)[k] ==
      b[k].(direction :=
        if bottom == Some(k) then Some(Bottom) else if top == Some(k) then Some(Top)
        else if right == Some(k) then Some(Right) else if left == Some(k) then Some(Left)
        else b[k].direction)
  {
    var t1 := TagAt(b, left, Left);
    var t2 := TagAt(t1, right, Right);
    var t3 := TagAt(t2, top, Top);
    assert t1[k] == if left == Some(k) then b[k].(direction := Some(Left)) else b[k];
    assert t2[k] == if right == Some(k) then t1[k].(direction := Some(Right)) else t1[k];
    assert t3[k] == if top == Some(k) then t2[k].(direction := Some(Top)) else t2[k];
  }

  /** An id is among `nearItems` exactly when one of the four surviving candidates carries it. */
  lemma NearIdsMember(right: Option<int>, left: Option<int>, top: Option<int>, bottom: Option<int>, k: int)
    ensures k in NearIds(right, left, top, bottom) <==>
      right == Some(k) || left == Some(k) || top == Some(k) || bottom == Some(k)
  {
  }

  /** Where the ids are the positions, id k survives as a candidate exactly
      when it is one of e-1, e+1, e-N, e+N and the wrap correction spares it. */
  lemma NearOnBoard(b: seq<Slot>, n: int, h: int, k: int)
    requires n >= 2 && 0 <= k < |b|
    requires forall i :: 0 <= i < |b| ==> b[i].id == i
    ensures k in Near(b, h, n) <==> Offset(n, h, k).Some? && !WrapDropped(n, h, k)
  {
    NearMember(b, h, n, k);
    SideVerdict(b, n, h, k, h + 1);
    SideVerdict(b, n, h, k, h - 1);
    FindIdOnBoard(b, h - n);
    FindIdOnBoard(b, h + n);
    CandidateCases(n, h, k, WrapDropped(n, h, k),
                   FindId(b, h + 1).Some? && !(IsEdge(n, h) && IsEdge(n, h + 1)) && h + 1 == k,
                   FindId(b, h - 1).Some? && !(IsEdge(n, h) && IsEdge(n, h - 1)) && h - 1 == k,
                   FindId(b, h - n).Some? && h - n == k, FindId(b, h + n).Some? && h + n == k);
  }

  /** Membership in `nearItems`, candidate by candidate. */
  lemma NearMember(b: seq<Slot>, e: int, n: int, k: int)
    ensures k in Near(b, e, n) <==>
      (FindId(b, e + 1).Some? && !(IsEdge(n, e) && IsEdge(n, e + 1)) && e + 1 == k) ||
      (FindId(b, e - 1).Some? && !(IsEdge(n, e) && IsEdge(n, e - 1)) && e - 1 == k) ||
      (FindId(b, e - n).Some? && e - n == k) || (FindId(b, e + n).Some? && e + n == k)
  {
    var wrap := IsEdge(n, e);
    var right := if FindId(b, e + 1).Some? && !(wrap && IsEdge(n, e + 1)) then Some(e + 1) else None;
    var left := if FindId(b, e - 1).Some? && !(wrap && IsEdge(n, e - 1)) then Some(e - 1) else None;
    var top := if FindId(b, e - n).Some? then Some(e - n) else None;
    var bottom := if FindId(b, e + n).Some? then Some(e + n) else None;
    NearIdsMember(right, left, top, bottom, k);
  }

  /** The left/right candidate x is kept as id k exactly when k is x and the wrap correction spares it. */
  lemma SideVerdict(b: seq<Slot>, n: int, h: int, k: int, x: int)
    requires 0 <= k < |b| && (x == h + 1 || x == h - 1)
    requires forall i :: 0 <= i < |b| ==> b[i].id == i
    ensures (FindId(b, x).Some? && !(IsEdge(n, h) && IsEdge(n, x)) && x == k) <==> (k == x && !WrapDropped(n, h, k))
  {
    FindIdOnBoard(b, x);
  }

  /** The case analysis behind NearOnBoard, over the four candidates' verdicts. */
  lemma CandidateCases(n: int, h: int, k: int, dropped: bool, isRight: bool, isLeft: bool, isTop: bool, isBottom: bool)
    requires n >= 2
    requires dropped ==> k == h - 1 || k == h + 1
    requires isRight <==> k == h + 1 && !dropped
    requires isLeft <==> k == h - 1 && !dropped
    requires isTop <==> k == h - n
    requires isBottom <==> k == h + n
    ensures isRight || isLeft || isTop || isBottom <==> Offset(n, h, k).Some? && !dropped
  {
  }

  /** The main property: for 3 <= N, on a board of N*N slots the resolver
      marks active exactly the grid neighbours of the empty slot (never the
      empty slot, never across a row wrap), tags each with its role, and
      leaves the result a settled board. An inactive slot keeps its old
      direction, except a candidate dropped by the wrap correction, which
      keeps the direction just written on it. */
  lemma ResolveMarksGridNeighbours(b: seq<Slot>, n: int, h: nat)
    requires n >= 3 && |b| == n * n && IsBoard(b) && h < |b| && b[h].value == 0
    ensures Resolve(b, n).Some?
    ensures var r := Resolve(b, n).value;
      |r| == |b| && Values(r) == Values(b) &&
      forall k :: 0 <= k < |b| ==>
        r[k].id == k && r[k].value == b[k].value && r[k].isEmpty == b[k].isEmpty &&
        (r[k].isActive <==> Role(n, h, k).Some?) &&
        (r[k].isActive ==> r[k].direction == Role(n, h, k)) &&
        (!r[k].isActive ==> r[k].direction == if WrapDropped(n, h, k) then Offset(n, h, k) else b[k].direction)
    ensures Settled(Resolve(b, n).value, n)
  {
    ResolveOnBoard(b, n, h);
    var r := Resolve(b, n).value;
    forall k | 0 <= k < |b|
      ensures (r[k].isActive <==> Role(n, h, k).Some?)
      ensures r[k].isActive ==> r[k].direction == Role(n, h, k)
      ensures !r[k].isActive ==> r[k].direction == if WrapDropped(n, h, k) then Offset(n, h, k) else b[k].direction
    {
      RoleOfCandidates(n, h, k);
    }
    assert Values(r) == Values(b);
    assert IsBoard(r);
    OneEmptySlot(r);
    assert FindEmpty(r).value == h;
  }

  /** On a board of any size N >= 2 the resolver returns a board with the
      same values, hence the same empty slot, and never marks that slot active. */
  lemma ResolveKeepsHoleInactive(b: seq<Slot>, n: int)
    requires n >= 2 && IsBoard(b) && |b| > 0
    ensures Resolve(b, n).Some?
    ensures IsBoard(Resolve(b, n).value) && HoleInactive(Resolve(b, n).value)
    ensures Values(Resolve(b, n).value) == Values(b)
    ensures FindEmpty(Resolve(b, n).value) == FindEmpty(b)
  {
    OneEmptySlot(b);
    var h := FindEmpty(b).value;
    ResolveOnBoard(b, n, h);
    var r := Resolve(b, n).value;
    assert Values(r) == Values(b);
    OneEmptySlot(r);
    assert r[h].value == 0;
  }
}
