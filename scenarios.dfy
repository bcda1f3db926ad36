/** Concrete 3×3 boards: the resolver and a move on small examples, derived
    from the general lemmas. */
module Scenarios {
  import opened Slots
  import opened Grid
  import opened Adjacency
  import opened Builder
  import opened Moves

  /** The values of a 3×3 board with the empty slot in the centre, id 4. */
  function CentreValues(): seq<int>
  {
    [1, 2, 3, 4] + [0] + [5, 6, 7, 8]
  }

  /** The values of a 3×3 board with the empty slot at the end of the first row, id 2. */
  function RowEndValues(): seq<int>
  {
    [1, 2] + [0] + [3, 4, 5, 6, 7, 8]
  }

  /** Moving the 0 of 0..n-1 to a later position permutes the values. */
  lemma RotatedPermutes(a: seq<int>, c: seq<int>)
    requires [0] + a + c == Iota(1 + |a| + |c|)
    ensures multiset(a + [0] + c) == multiset(Iota(1 + |a| + |c|))
  {
    assert multiset(a + [0] + c) == multiset(a) + multiset([0]) + multiset(c);
    assert multiset([0] + a + c) == multiset([0]) + multiset(a) + multiset(c);
  }

  lemma CentreIsBoard()
    ensures IsBoard(Built(CentreValues())) && Built(CentreValues())[4].value == 0
  {
    RotatedPermutes([1, 2, 3, 4], [5, 6, 7, 8]);
    BuiltIsBoard(CentreValues());
    assert CentreValues()[4] == 0;
  }

  lemma RowEndIsBoard()
    ensures IsBoard(Built(RowEndValues())) && Built(RowEndValues())[2].value == 0
  {
    RotatedPermutes([1, 2], [3, 4, 5, 6, 7, 8]);
    BuiltIsBoard(RowEndValues());
    assert RowEndValues()[2] == 0;
  }

  /** Empty slot in the centre: ids 1, 3, 5 and 7 are active, tagged Top,
      Left, Right and Bottom; no other slot is active. */
  lemma CentreScenario()
    ensures Resolve(Built(CentreValues()), 3).Some?
    ensures var r := Resolve(Built(CentreValues()), 3).value;
      |r| == 9 &&
      (forall k :: 0 <= k < 9 ==> (r[k].isActive <==> k == 1 || k == 3 || k == 5 || k == 7)) &&
      r[1].direction == Some(Top) && r[3].direction == Some(Left) &&
      r[5].direction == Some(Right) && r[7].direction == Some(Bottom)
  {
    CentreIsBoard();
    var b := Built(CentreValues());
    ResolveMarksGridNeighbours(b, 3, 4);
    var r := Resolve(b, 3).value;
    assert !IsEdge(3, 4);
    forall k | 0 <= k < 9
      ensures r[k].isActive <==> k == 1 || k == 3 || k == 5 || k == 7
    {
      RoleOfCandidates(3, 4, k);
    }
    RoleOfCandidates(3, 4, 1);
    RoleOfCandidates(3, 4, 3);
    RoleOfCandidates(3, 4, 5);
    RoleOfCandidates(3, 4, 7);
  }

  /** The centre board, resolved, is settled. */
  lemma CentreSettled()
    ensures Resolve(Built(CentreValues()), 3).Some?
    ensures var r := Resolve(Built(CentreValues()), 3).value;
      Settled(r, 3) && r[4].value == 0
  {
    CentreIsBoard();
    ResolveMarksGridNeighbours(Built(CentreValues()), 3, 4);
  }

  /** Empty slot at the end of the first row: only id 1 (Left) and id 5
      (Bottom) are active. Id 3, which starts the next row, is not, although
      its id is one more than the empty slot's. */
  lemma RowEndScenario()
    ensures Resolve(Built(RowEndValues()), 3).Some?
    ensures var r := Resolve(Built(RowEndValues()), 3).value;
      |r| == 9 &&
      (forall k :: 0 <= k < 9 ==> (r[k].isActive <==> k == 1 || k == 5)) &&
      r[1].direction == Some(Left) && r[5].direction == Some(Bottom) && !r[3].isActive
  {
    RowEndIsBoard();
    var b := Built(RowEndValues());
    ResolveMarksGridNeighbours(b, 3, 2);
    var r := Resolve(b, 3).value;
    assert IsEdge(3, 2) && IsEdge(3, 3) && !IsEdge(3, 1);
    forall k | 0 <= k < 9
      ensures r[k].isActive <==> k == 1 || k == 5
    {
      RoleOfCandidates(3, 2, k);
    }
    RoleOfCandidates(3, 2, 1);
    RoleOfCandidates(3, 2, 5);
  }

  /** From the centre board, clicking id 1 (tagged Top) and committing: id 4
      holds the tile that was at id 1, is active and tagged Bottom, and id 1
      is the new empty slot. */
  lemma MoveScenario()
    ensures Resolve(Built(CentreValues()), 3).Some?
    ensures var r := Resolve(Built(CentreValues()), 3).value;
      |r| == 9 && Resolve(Moved(r, r[1], 4), 3).Some? &&
      var s := Resolve(Moved(r, r[1], 4), 3).value;
      |s| == 9 && s[4].value == r[1].value && s[4].isActive && s[4].direction == Some(Bottom) &&
      s[1].value == 0 && s[1].isEmpty && !s[1].isActive
  {
    CentreScenario();
    CentreSettled();
    var r := Resolve(Built(CentreValues()), 3).value;
    MoveUpIntoCentre(r);
  }

  /** On a settled 3×3 board with the empty slot in the centre, committing a
      click on id 1 brings its tile down into id 4, tagged Bottom. */
  lemma MoveUpIntoCentre(r: seq<Slot>)
    requires Settled(r, 3) && r[4].value == 0 && r[1].isActive && r[1].direction == Some(Top)
    ensures Resolve(Moved(r, r[1], 4), 3).Some?
    ensures var s := Resolve(Moved(r, r[1], 4), 3).value;
      |s| == 9 && s[4].value == r[1].value && s[4].isActive && s[4].direction == Some(Bottom) &&
      s[1].value == 0 && s[1].isEmpty && !s[1].isActive
  {
    OneEmptySlot(r);
    assert r[4].id == 4;
    CommitSettles(r, 3, 1);
    var s := Resolve(Moved(r, r[1], 4), 3).value;
    assert Values(s)[4] == Swap(Values(r), 4, 1)[4];
    RoleOfCandidates(3, 1, 4);
    RoleOfCandidates(3, 1, 1);
  }
}
