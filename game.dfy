/** The page component's state machine (src/app/page.tsx:19-170): the board
    size, the board, the `animate` marker that gates clicks, and the commit
    that the `setTimeout` callback performs once the slide animation ends.

    React's state setters become field updates; the timer becomes the
    `pending` field, holding what the callback's closure captured (the
    prepared board and the board size of the render that scheduled it), and
    `CompleteAnimation` is the callback firing. */
module Game {
  import opened Slots
  import opened Shuffle
  import opened Adjacency
  import opened Builder
  import opened Moves

  /** The `animate` state: which slot slides, and in which direction. */
  datatype Marker = Marker(slotID: int, direction: Direction)

  /** A scheduled commit: the board `handleClick` prepared and the board
      size the callback's `setNearSlots` closure sees. */
  datatype Pending = Pending(board: seq<Slot>, size: int)

  /** The board `generateSlots` deals for size N and the given draws. */
  function Dealt(n: nat, picks: seq<nat>): Option<seq<Slot>>
    requires ValidPicks(n * n, picks)
  {
    Resolve(Built(Shuffled(Iota(n * n), picks, n * n)), n)
  }

  /** `generateSlots` (src/app/page.tsx:39-52): the values 0..N*N-1 in a
      fresh array, shuffled in place, one slot pushed per value, and the
      result resolved against the empty slot. The board it deals is settled:
      exactly the empty slot's grid neighbours are active. */
  method NewBoard(n: nat, picks: seq<nat>) returns (board: seq<Slot>)
    requires 3 <= n && ValidPicks(n * n, picks)
    ensures Dealt(n, picks).Some? && board == Dealt(n, picks).value
    ensures Settled(board, n) && HoleInactive(board)
    ensures multiset(Values(board)) == multiset(Iota(n * n))
  {
    var values := new int[n * n](i => i);
    assert values[..] == Iota(n * n);
    ShuffleArray(values, picks);
    var built := BuildSlots(values[..], n);
    BuiltIsBoard(values[..]);
    var r := ResolveAdjacency(built, n);
    ResolveMarksGridNeighbours(built, n, FindEmpty(built).value);
    ResolveKeepsHoleInactive(built, n);
    board := r.value;
  }

  class Game {
    /** `slotsSize`: the board is size × size. */
    var size: int
    /** `slots`: the board as last committed. */
    var slots: seq<Slot>
    /** `animate`: set while a slide is under way. */
    var animate: Option<Marker>
    /** The `setTimeout` callback scheduled by the last accepted click, if it has not fired. */
    var pending: Option<Pending>

    /** What every reachable state satisfies: the size passed the input's
        guard, the board is a board whose empty slot is inactive, and a
        commit is pending exactly while a slide is marked, on a board whose
        empty slot is the sliding tile's old position. */
    ghost predicate Valid()
      reads this
    {
      3 <= size <= 10 && |slots| > 0 && IsBoard(slots) && HoleInactive(slots) &&
      (animate.Some? <==> pending.Some?) &&
      (pending.Some? ==>
         3 <= pending.value.size <= 10 && |pending.value.board| > 0 && IsBoard(pending.value.board) &&
         FindEmpty(pending.value.board) == Some(animate.value.slotID))
    }

    /** The board agrees with the size: it is settled on the size × size
        grid, and a pending commit was prepared for this size. */
    ghost predicate Synced()
      reads this
    {
      Valid() && Settled(slots, size) &&
      (pending.Some? ==> pending.value.size == size && |pending.value.board| == size * size)
    }

    /** The component once mounted: size 5 (src/app/page.tsx:21), no slide
        under way, and a dealt board. */
    constructor (picks: seq<nat>)
      requires ValidPicks(25, picks)
      ensures size == 5 && animate.None? && pending.None?
      ensures Dealt(5, picks).Some? && slots == Dealt(5, picks).value
      ensures Synced()
    {
      var board := NewBoard(5, picks);
      size := 5;
      slots := board;
      animate := None;
      pending := None;
    }

    /** The reset button and the effect on `slotsSize` (src/app/page.tsx:148-150, 157):
        deal a new board for the current size. A slide under way is not
        cancelled: its commit will still replace the new board. */
    method Generate(picks: seq<nat>)
      requires Valid() && ValidPicks(size * size, picks)
      modifies this
      ensures size == old(size) && animate == old(animate) && pending == old(pending)
      ensures Valid() && Settled(slots, size)
      ensures Dealt(size, picks).Some? && slots == Dealt(size, picks).value
      ensures old(Synced()) ==> Synced()
    {
      slots := NewBoard(size, picks);
    }

    /** `handleClick` (src/app/page.tsx:102-140). Ignored unless the tile is
        active and no slide is under way; otherwise, when the tile carries a
        direction, the slide is marked and the move is scheduled, with the
        board exchanging the tile and the empty slot. The board itself does
        not change until the commit. */
    method HandleClick(slot: Slot) returns (moved: bool)
      requires Valid() && slot in slots
      modifies this
      ensures moved <==> old(animate).None? && slot.isActive && FindEmpty(old(slots)).Some? && slot.direction.Some?
      ensures moved ==> animate == Some(Marker(slot.id, slot.direction.value))
      ensures moved ==> pending == Some(Pending(Moved(old(slots), slot, old(slots)[FindEmpty(old(slots)).value].id), old(size)))
      ensures !moved ==> animate == old(animate) && pending == old(pending)
      ensures slots == old(slots) && size == old(size)
      ensures Valid() && (old(Synced()) ==> Synced())
    {
      if !slot.isActive || animate.Some? {
        return false;
      }
      var emptySlot := FindEmpty(slots);
      if emptySlot.None? {
        return false;
      }
      var newArrayOfSlots := Moved(slots, slot, slots[emptySlot.value].id);
      if slot.direction.None? {
        return false;
      }
      ClickedTileMoves(slots, slot);
      animate := Some(Marker(slot.id, slot.direction.value));
      pending := Some(Pending(newArrayOfSlots, size));
      moved := true;
    }

    /** The `setTimeout` callback (src/app/page.tsx:136-139): resolve the
        prepared board with the size its closure captured, commit it, and
        clear the marker. When the state was in sync, the committed board is
        settled and its empty slot is where the tile was. */
    method CompleteAnimation()
      requires Valid() && pending.Some?
      modifies this
      ensures Resolve(old(pending.value.board), old(pending.value.size)).Some?
      ensures slots == Resolve(old(pending.value.board), old(pending.value.size)).value
      ensures FindEmpty(slots) == Some(old(animate.value.slotID))
      ensures animate.None? && pending.None? && size == old(size)
      ensures Valid() && (old(Synced()) ==> Synced())
    {
      var p := pending.value;
      var r := ResolveAdjacency(p.board, p.size);
      CommitFacts(p.board, p.size, size);
      slots := r.value;
      animate := None;
      pending := None;
    }

    /** The board-size input (src/app/page.tsx:163-171) with the effect on
        `slotsSize`: a size outside 3..10 is refused, the same size changes
        nothing, and a new size deals a new board of that size. A slide
        under way keeps the old size in its closure, so its commit will
        bring back a board of the old size: the state is then out of sync. */
    method Resize(newSize: int, picks: seq<nat>)
      requires Valid()
      requires 3 <= newSize <= 10 && newSize != size ==> ValidPicks(newSize * newSize, picks)
      modifies this
      ensures if 3 <= newSize <= 10 && newSize != old(size)
        then size == newSize && Dealt(newSize, picks).Some? && slots == Dealt(newSize, picks).value
        else size == old(size) && slots == old(slots)
      ensures animate == old(animate) && pending == old(pending)
      ensures Valid()
      ensures old(pending).None? && old(Synced()) ==> Synced()
      ensures old(Synced()) && old(pending).Some? && size != old(size) ==> !Synced()
    {
      if newSize > 10 || newSize < 3 {
        return;
      }
      if newSize == size {
        return;
      }
      ghost var stale := pending.Some? && pending.value.size == size;
      size := newSize;
      Generate(picks);
      assert stale ==> pending.value.size != size;
    }
  }

  /** The board a commit resolves is again a board with an inactive empty
      slot in the same place; resolved with the current size, it is settled. */
  lemma CommitFacts(board: seq<Slot>, n: int, size: int)
    requires 3 <= n && |board| > 0 && IsBoard(board)
    ensures Resolve(board, n).Some?
    ensures var r := Resolve(board, n).value;
      |r| == |board| && IsBoard(r) && HoleInactive(r) && FindEmpty(r) == FindEmpty(board) &&
      (n == size && |board| == size * size ==> Settled(r, size))
  {
    ResolveKeepsHoleInactive(board, n);
    if n == size && |board| == size * size {
      OneEmptySlot(board);
      ResolveMarksGridNeighbours(board, size, FindEmpty(board).value);
    }
  }

  /** A tile the page lets the player click, if active, is not the empty
      slot; moving it yields a board whose empty slot is the tile's position. */
  lemma ClickedTileMoves(b: seq<Slot>, slot: Slot)
    requires IsBoard(b) && HoleInactive(b) && slot in b && slot.isActive
    ensures FindEmpty(b).Some?
    ensures var m := Moved(b, slot, b[FindEmpty(b).value].id);
      IsBoard(m) && |m| == |b| && FindEmpty(m) == Some(slot.id)
  {
    var c :| 0 <= c < |b| && b[c] == slot;
    MoveSwapsWithHole(b, c);
  }
}
