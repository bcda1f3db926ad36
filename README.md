# Barley-break board model

A Dafny model of the board state machine of a sliding-tile puzzle page
("barley-break", an N×N generalisation of the 15-puzzle). The page is one
React component, `src/app/page.tsx`. The model covers these parts of it:

- the Fisher–Yates shuffle of the values 0..N²-1;
- the loop that builds one slot per value;
- the adjacency resolver `setNearSlots`. It finds the empty slot. It tags the
  slots at ids e-1, e+1, e-N and e+N with a direction. It drops left/right
  candidates that would wrap across a row. It marks the survivors active;
- `handleClick`, which prepares the board after a move;
- the animation marker that locks out clicks;
- the timer callback that commits the move;
- the board-size input.

Modules, in dependency order:

- `Slots`: the slot record, the `find` lookups, and the board invariant
  (`IsBoard`): ids are positions, values are a permutation of 0..N²-1, and
  `isEmpty` marks value 0.
- `Shuffle`: `shuffleArray`, in place on an `array<int>`. The random draws are a
  parameter. It is proved against a specification function. Lemmas show
  that it permutes and that it can reach every permutation.
- `Grid`: row-major geometry. `Role(n, e, k)` says where cell k lies next to
  cell e on the grid. It is the reference that the page's index arithmetic is
  checked against.
- `Adjacency`: `setNearSlots` as a method (`ResolveAdjacency`). It uses the
  edge-id loop, the four in-place direction writes on a working array, and the
  wrap correction. It is proved equal to the function `Resolve`. Lemmas prove
  that for N ≥ 3 the active slots are exactly the grid neighbours of the empty
  slot, each tagged with its role.
- `Builder`: the push loop of `generateSlots`.
- `Moves`: the `slots.map` of `handleClick`, and what a committed move does.
- `Game`: the component's state as a class. The fields are `size`, `slots`,
  `animate` and `pending`. `pending` is the scheduled `setTimeout` callback:
  the prepared board, plus the board size its closure captured. The methods
  are the mount, the reset/regenerate, the click, the timer firing, and a
  resize.
- `Scenarios`: concrete 3×3 boards.

The main results are these:

- `ResolveMarksGridNeighbours`: the row-wrap rule (`ownValues`) is exactly
  grid adjacency once N ≥ 3.
- `CommitSettles`: a click, once committed, swaps the tile with the empty slot
  and leaves a settled board.
- `Game.Synced()`: the state stays in sync through clicks, commits and
  regenerations.
- `Game.Game.Resize`: a resize while a slide is under way breaks that sync,
  because the pending callback still carries the old size.

Three points where the code's behaviour is easy to misread; the model
follows the code:

- **Direction tags.** The code tags the slot at id e-1 `'left'`, so a tag names
  the slot's own side of the empty slot, not the side on which the empty
  slot lies.
- **Inactive slots keep their direction.** The resolver does not clear the
  direction of slots that are not candidates. An inactive slot keeps whatever
  direction it had, and a left/right candidate dropped by the wrap correction
  keeps the direction just written on it. This is stated in
  `ResolveMarksGridNeighbours`.
- **Direction writes mutate in place.** They change the slot objects that
  `find` returned, in the array handed to the resolver. `WriteDirection`
  models this on an `array<Slot>`.

## Model

| member | source | states |
|---|---|---|
| Slots.FindEmpty | src/app/page.tsx:55 | the index of the first slot holding value 0, or None when no slot holds 0 |
| Slots.FindId | src/app/page.tsx:64 | the index of the first slot with the given id, or None when no slot has it |
| Slots.OneEmptySlot | src/app/page.tsx:55-56 | on a non-empty board exactly one slot holds 0 and is `isEmpty`, so the resolver's early return never fires |
| Slots.FindIdOnBoard | src/app/page.tsx:64-70 | on a board, `find` by id returns the slot at that position when the id is in 0..N²-1, and nothing otherwise |
| Shuffle.ShuffleArray | src/app/page.tsx:24-36 | the in-place loop leaves the array equal to the specification's shuffle, and with the same multiset of values |
| Shuffle.ShufflePermutes | src/app/page.tsx:24-36 | the shuffle only rearranges: length and multiset are kept |
| Shuffle.ShuffledRangeIsPermutation | src/app/page.tsx:39-41 | shuffling 0..n-1 yields every value in range exactly once |
| Shuffle.ShuffleReachesEvery | src/app/page.tsx:24-36 | every rearrangement of the input comes from some admissible sequence of draws |
| Grid.RoleOfCandidates | src/app/page.tsx:57-75 | for N ≥ 3, e-1 and e+1 are grid neighbours exactly when e and the candidate are not both edge ids; e-N and e+N always are |
| Grid.RoleSymmetric | src/app/page.tsx:64-71 | if k is e's neighbour in one direction, e is k's neighbour in the opposite one |
| Grid.AtMostFourNeighbours | src/app/page.tsx:76-81 | at most four cells are neighbours of a cell |
| Grid.AtLeastTwoNeighbours | src/app/page.tsx:76-81 | on a board of size N ≥ 3, every cell has at least two neighbours: one in its row and one in its column |
| Adjacency.EdgeIds | src/app/page.tsx:57-63 | the list holds exactly the ids in the first and last columns |
| Adjacency.WriteDirection | src/app/page.tsx:64-65 | a `find` by id and a direction write on the slot found; ids are untouched |
| Adjacency.WriteDirections | src/app/page.tsx:64-71 | the four finds return the lookups on the original board, and the array ends with the four writes applied in order |
| Adjacency.ResolveAdjacency | src/app/page.tsx:54-88 | the method returns the specification `Resolve`, which is None exactly when no slot holds 0 |
| Adjacency.TaggedOnBoard | src/app/page.tsx:64-71 | on a board the writes land on exactly the in-range ids e±1 and e±N, and the last write wins |
| Adjacency.NearOnBoard | src/app/page.tsx:72-81 | an id survives as a candidate exactly when it is e±1 or e±N and the wrap correction spares it |
| Adjacency.ResolveOnBoard | src/app/page.tsx:54-88 | on any board, positions, ids, values and `isEmpty` are kept; active slots are the surviving candidates; every candidate gets its direction and every other slot keeps its own |
| Adjacency.ResolveMarksGridNeighbours | src/app/page.tsx:54-88 | for N ≥ 3, the active slots are exactly the grid neighbours of the empty slot, each tagged with its role; the result is settled |
| Adjacency.ResolveKeepsHoleInactive | src/app/page.tsx:83-87 | the result is a board with the same values and the same empty slot, and that slot is never active |
| Builder.BuildSlots | src/app/page.tsx:42-50 | the push loop yields slot i with id i, the i-th value, inactive, and empty exactly when the value is 0 |
| Builder.BuiltIsBoard | src/app/page.tsx:39-50 | built from a permutation of 0..N²-1 the slots form a board: nothing active, no direction, one empty slot |
| Moves.Moved | src/app/page.tsx:106-128 | the prepared board has the same length and the same ids at every position |
| Moves.MoveSwapsWithHole | src/app/page.tsx:104-128 | clicking tile c swaps its value with the empty slot's; the result is a board whose only empty slot is c; the filled slot is active and tagged `'right'`; nothing else changes |
| Moves.AcceptedClickIsNeighbour | src/app/page.tsx:103 | on a settled board a tile passes the `isActive` guard exactly when it is a grid neighbour of the empty slot, and then it has a direction and is not empty |
| Moves.CommitSettles | src/app/page.tsx:136-139 | a committed move on a settled board swaps the two values and yields a settled board whose empty slot is the clicked position; the moved tile's constant `'right'` is replaced by its true role |
| Game.NewBoard | src/app/page.tsx:39-52 | `generateSlots` deals the specification's board, which is settled, has an inactive empty slot, and holds each of 0..N²-1 once |
| Game.Game.constructor | src/app/page.tsx:90-92 | after mounting: size 5, no slide under way, a dealt board, in sync |
| Game.Game.Generate | src/app/page.tsx:148-150 | regenerating deals a new settled board for the current size, leaves a pending slide alone, and keeps the state in sync |
| Game.Game.HandleClick | src/app/page.tsx:102-140 | a click is taken exactly when no slide is under way and the tile is active with a direction; it then marks the slide and schedules the swapped board with the current size, without changing the board |
| Game.Game.CompleteAnimation | src/app/page.tsx:136-139 | the callback commits the resolved pending board, using its captured size; the new empty slot is the tile's old position; the marker is cleared; sync is kept |
| Game.Game.Resize | src/app/page.tsx:165-169 | sizes outside 3..10 and the current size change nothing; a new size deals a board of that size; doing so during a slide leaves the state out of sync |
| Game.ClickedTileMoves | src/app/page.tsx:106-128 | an active tile is not the empty slot, and moving it yields a board whose empty slot is the tile's id |
| Scenarios.CentreScenario | src/app/page.tsx:64-87 | 3×3 with the empty slot at id 4: ids 1, 3, 5, 7 are active, tagged Top, Left, Right, Bottom |
| Scenarios.RowEndScenario | src/app/page.tsx:72-75 | 3×3 with the empty slot at id 2: only ids 1 (Left) and 5 (Bottom) are active; id 3, at the start of the next row, is not |
| Scenarios.MoveUpIntoCentre | src/app/page.tsx:102-139 | on a settled 3×3 board with the empty slot at id 4, committing a click on id 1 moves the tile to id 4, tagged Bottom; id 1 becomes the inactive empty slot |

## Left out

- Rendering is not modelled: the grid layout, `generateTemplateColumns`, `slotSize`, the CSS move classes chosen from `animate` and `direction`, and the reset icon.
- Time is not modelled. The 150 ms `setTimeout` delay becomes a `pending` field, and the callback firing becomes the `CompleteAnimation` call. Any interleaving of calls can be expressed, but durations are not.
- `Math.random` is not modelled. The draws are a parameter constrained to the range `Math.floor(Math.random() * currentIndex)` produces; their distribution is not modelled.
- Game.Game.Resize: takes the size as an integer. The parsing of the input text with `parseInt` is not modelled. Non-numeric text yields NaN, passes the guards and sets the size to NaN; a prefix such as "4x" is read as 4.
- Game.Game.constructor: models the mount as one deal. On mount both effects run `generateSlots`, and the second reshuffles the first one's array. By `ShuffleReachesEvery`, that reaches the same set of boards.
- Game.NewBoard: always starts from a fresh 0..N²-1 array. It does not model reuse of one render's `randomValues` array across several `generateSlots` calls in that render.
- The extra `type` field that the final `map` of `setNearSlots` adds to active slots is not modelled; nothing reads it.
- The prepared board of `handleClick` shares its unchanged slot objects with the current `slots` state. The resolver's in-place direction writes therefore also reach the committed board's objects before the commit. The model works on values, so this aliasing is not captured.
- Boards with N < 3 are not modelled; the size input refuses them. Grid-neighbour results are stated for N ≥ 3, and the resolver-on-board facts for N ≥ 2.
- Whether a dealt board is solvable is not modelled, and neither is win detection; the page checks neither.
