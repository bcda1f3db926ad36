/** The page's `generateSlots` (src/app/page.tsx:39-52): the values 0..N*N-1,
    shuffled, become one fresh slot each, in row-major order, all inactive and
    with no direction. */
module Builder {
  import opened Slots

  /** The board the push loop produces from the shuffled values: slot i has
      id i, the i-th value, and is empty exactly when that value is 0. */
  function Built(values: seq<int>): (r: seq<Slot>)
    ensures |r| == |values|
  {
    seq(|values|, i requires 0 <= i < |values| => Slot(i, values[i], false, values[i] == 0, None))
  }

  /** The `for` loop with `newSlots.push` (src/app/page.tsx:42-50). */
  method BuildSlots(values: seq<int>, n: int) returns (board: seq<Slot>)
    requires n >= 0 && |values| == n * n
    ensures board == Built(values)
  {
    board := [];
    var i := 0;
    while i < n * n
      invariant 0 <= i <= n * n
      invariant board == Built(values)[..i]
    {
      board := board + [Slot(i, values[i], false, values[i] == 0, None)];
      i := i + 1;
    }
  }

  /** Built from a permutation of 0..N*N-1, the result is a board: its values
      are the shuffled ones, no slot is active or carries a direction, and
      exactly one slot, the one holding 0, is empty. */
  lemma BuiltIsBoard(values: seq<int>)
    requires multiset(values) == multiset(Iota(|values|))
    ensures IsBoard(Built(values))
    ensures Values(Built(values)) == values
    ensures forall k :: 0 <= k < |values| ==> !Built(values)[k].isActive && Built(values)[k].direction.None?
    ensures |values| > 0 ==> FindEmpty(Built(values)).Some?
    ensures |values| > 0 ==> forall k :: 0 <= k < |values| ==> (Built(values)[k].isEmpty <==> k == FindEmpty(Built(values)).value)
  {
    var b := Built(values);
    assert Values(b) == values;
    if |values| > 0 {
      OneEmptySlot(b);
    }
  }
}
