# Sliding puzzle solver

A model of the solver in `sliding-puzzle.py`. It solves an m by n sliding-tile puzzle (the "Enigma
1444" back-slide puzzle). The board is a row-major list of m·n cells. The blank is 0, and the
target's last cell is the blank.

The `Puzzle` object holds the board, the blank's cell and a move log, and turns the board so it
is never wider than high (the width `m` is at most the height `n`). The solver works like this:

- It places the tiles of the top row one by one, routing the blank around the tiles already
  placed.
- It finishes the row with a fixed eight-slide manoeuvre.
- It solves the rest of the board as a smaller puzzle.
- A 2 by 2 base case closes the recursion, and a two-wide solver with a sixteen-slide manoeuvre
  handles boards two cells wide.

The Dafny modules follow that structure:

- `Wrappers`: `Option`, `Result`, and the `Outcome` of an operation. An outcome is `Done`, or
  `Fail` with the exception the program would raise (`InvalidMove`, `Unreachable`, `NotFound`,
  `Impossible`, `BadSetup`).
- `Lists`: `chunk`, `flatten`, `zip` and the transposition `flatten(zip(*chunk(s, m)))` that
  turns a board. Also `list.index`.
- `Grid`: cells, rows and columns; the neighbours `adjacent` yields, in its order; one slide as
  an exchange with the blank (`Swap`); a run of slides (`Slid`) and the "each slide starts next to
  the blank" condition (`Chain`).
- `MoveLog`: the move log of `move` and `place`. Entries are `Slide(tile)` or `Placing(tile)`. A
  slide that repeats the last slide in the log cancels it, and the log plays back (`Replay`) to
  the board it describes.
- `Router`: the blank router inside `blank`. It labels cells with their distance from the blank
  (frozen cells start at the sentinel `m + n`), takes `min((h[p], p))` over the destinations, and
  walks back along decreasing labels.
- `Parity`: the inversion count, the solvability class of a board, and the parity repair of
  `scramble`.
- `Maneuvers`: the fixed slide sequences that finish a row, and what they do to a board.
- `Reduction`: the smaller puzzle of `reduce` seen inside the whole board. Cell `i` of the
  smaller board, un-turned when it was turned, lies at cell `Lift(i)` below the top row. Slides,
  log entries and whole logs played on the smaller board are the same slides played on the whole
  board.
- `SlidingPuzzle`:
  - the constructor's checks and turning (`Configure`), the constructor itself (`Create`, which
    reports a refusal as an error and builds the puzzle on the accepted set-up), and the
    dispatch of `solve` (`Strategy`);
  - the routing method `Route`;
  - the class `Puzzle`, with fields `m`, `n`, `flipped`, `grid`, `target`, `b` and `moves`,
    whose methods update those fields in place as the program does. A ghost field `origin`
    holds the board the move log starts from.

## Cleanliness and correctness

When a destination cannot be reached without crossing frozen cells, the router may still return a
route through a frozen cell (one labelled from the sentinel level). The ghost result `clean`
records that every routing of a solver run chose a destination labelled below the sentinel.

`Route` and `Blank` are proved clean for a single destination (every call in the solver passes
one). They are clean when the blank is already there, or when that destination is reachable from
the blank by a path shorter than `m + n` that avoids the frozen cells. `Carry` passes this on. A
step is `Done` and clean when the cell next to the tile is reachable that way around the frozen
cells and the tile.

The solver's correctness is stated in these terms: a run that ends `Done` and `clean`, on a target
whose entries are distinct, leaves `grid == target`.

The log is tied to the board by `Replays()`. It says the board repeats no value, and the log played
back from `origin` (`MoveLog.Replay`) reaches the board.

- `Create` and the constructor establish it for a board without repeats.
- `Scramble` restarts it on an empty log.
- Every method that slides tiles keeps it: `Move` through `MoveLog.LoggedReplay`, and `Place`
  through the marker it logs.
- `Reduce` keeps it through `Reduction.AbsorbReplays`, which plays the smaller puzzle's log on the
  whole board. This works because log entries name tiles, and turning the smaller board keeps
  which cells are neighbours.

So the log `solve` returns plays back from the starting board to the final one.

## Model

| member | source | states |
|---|---|---|
| Lists.Chunk | sliding-puzzle.py:28-33 | every chunk is non-empty and at most `k` long; no chunks for width 0 |
| Lists.ChunkFlatten | sliding-puzzle.py:28-37 | flattening the chunks gives back the list; every chunk but the last is full width |
| Lists.MinLength | sliding-puzzle.py:57-58 | the shortest row's length: a lower bound attained by some row |
| Lists.Zip | sliding-puzzle.py:57-58 | `zip(*rows)`: as many columns as the shortest row, each column one entry per row, `r[j][i] == rows[i][j]` |
| Lists.TransposeAt | sliding-puzzle.py:57-58 | turning a w by h board moves cell (i, j) to (j, i) |
| Lists.TransposeTwice | sliding-puzzle.py:57-58 | turning a board twice, with the widths swapped, restores it (the un-turn at line 182) |
| Lists.TransposeHas | sliding-puzzle.py:57-58 | turning keeps exactly the same values |
| Lists.TransposeDistinct | sliding-puzzle.py:57-58 | turning keeps the entries distinct |
| Lists.TransposeLast | sliding-puzzle.py:53-58 | turning keeps the last cell, so the turned target still ends in the blank |
| Lists.IndexOf | sliding-puzzle.py:64 | `list.index`: the first position holding the value, and none exactly when the value is absent |
| Lists.DistinctIndex | sliding-puzzle.py:184 | in a list of distinct values, the index of the entry at `k` is `k` |
| Grid.Adjacent | sliding-puzzle.py:87-93 | at most four neighbours |
| Grid.AdjacentOrder | sliding-puzzle.py:87-93 | neighbours come up, down, left, right, in that order |
| Grid.AdjacentMembers | sliding-puzzle.py:87-93 | a cell is yielded exactly when it is the cell above, below, left or right and that cell exists |
| Grid.AdjacentCells | sliding-puzzle.py:87-93 | the neighbours are exactly the on-board cells one step away in a row or a column |
| Grid.AdjacentInside | sliding-puzzle.py:87-93 | no neighbour is off the board |
| Grid.AdjacentSymmetric | sliding-puzzle.py:87-93 | `q` neighbours `p` exactly when `p` neighbours `q` |
| Grid.Swap | sliding-puzzle.py:104 | one slide exchanges the blank's cell and the tile's cell |
| Grid.SwapMultiset | sliding-puzzle.py:104 | a slide keeps the board's contents |
| Grid.SwapDistinct | sliding-puzzle.py:104 | a slide keeps the entries distinct |
| Grid.ChainPrefix | sliding-puzzle.py:98-100 | a run of slides is valid up to step k+1 exactly when it is valid up to k and step k starts next to the blank |
| Grid.SlidFacts | sliding-puzzle.py:96-113 | after a run of slides the blank is at the last cell slid, contents and distinctness are kept, and untouched cells keep their tiles |
| Grid.SlidSnoc | sliding-puzzle.py:98-104 | one more slide is one more exchange with the blank |
| Grid.NeighbourhoodAt | sliding-puzzle.py:133 | the precomputed neighbour table agrees with `adjacent` cell by cell |
| Grid.NeighbourhoodSymmetric | sliding-puzzle.py:133 | the neighbour relation the router walks is symmetric |
| MoveLog.LastSlide | sliding-puzzle.py:106-111 | the backward scan finds the latest slide entry, with only placing markers after it, or none |
| MoveLog.RecordEffect | sliding-puzzle.py:102-111 | recording a slide leaves the markers alone and pushes the tile onto the slides, cancelling a repeat of the last slide |
| MoveLog.RecordCompacted | sliding-puzzle.py:102-111 | a compacted log stays compacted: no slide directly repeats the slide before it |
| MoveLog.RecordAppends | sliding-puzzle.py:102-111 | a slide that does not repeat the last one is appended |
| MoveLog.CompactIdempotent | sliding-puzzle.py:106-111 | the reference compaction pass yields a compacted log and changes nothing on a compacted one |
| MoveLog.Apply | sliding-puzzle.py:102-104 | playing one entry back keeps the board's contents |
| MoveLog.ReplayAppend | sliding-puzzle.py:102-111 | playing back a log in two parts is playing back the first and then the second |
| MoveLog.ReplayRecord | sliding-puzzle.py:102-111 | a log with one more recorded slide plays back to the board after that slide, also when the slide cancelled an earlier one |
| MoveLog.LoggedMarkers | sliding-puzzle.py:96-113 | a run of slides adds no markers and keeps the log compacted |
| MoveLog.LoggedReplay | sliding-puzzle.py:96-113 | the log after a run of slides plays back to the board after those slides |
| Router.Expand | sliding-puzzle.py:133-134 | expanding one cell labels its unlabelled neighbours one higher and keeps every labelling fact |
| Router.Sweep | sliding-puzzle.py:130-134 | a pass over every cell of the current level expands all of them |
| Router.PassShrinks | sliding-puzzle.py:129-135 | each level either labels new cells or moves the search toward its end, so the loop terminates |
| Router.Distances | sliding-puzzle.py:122-135 | the final labels: blank 0, frozen cells the sentinel, every labelled cell one above a neighbour, and no neighbour more than one above a cell |
| Router.Nearest | sliding-puzzle.py:137 | `min((h[p], p))`: none when a destination is unlabelled or there is none; otherwise a destination no later than any other in (label, index) order |
| Router.StepDown | sliding-puzzle.py:140-146 | a cell at a level below the sentinel has a neighbour one level lower |
| Router.Backtrack | sliding-puzzle.py:139-146 | the walk back ends at the destination and climbs one label a step from a neighbour of the blank |
| Router.TrailDone | sliding-puzzle.py:139-146 | the finished trail has exactly `d` cells, labelled 1 to `d`, and is a walk from the blank |
| Router.RouteBound | sliding-puzzle.py:122-135 | along any path from the blank that avoids frozen cells, the i-th cell is labelled at most i+1 |
| Router.WalkChain | sliding-puzzle.py:133-143 | a walk in the neighbour table is exactly a valid run of slides |
| Parity.InversionsCons | sliding-puzzle.py:77 | the count of a list is the inversions its head makes with the rest plus those of the rest |
| Parity.SwapParity | sliding-puzzle.py:104 | exchanging the blank with a tile `k` cells away changes the inversion parity by `k` |
| Parity.SlideClass | sliding-puzzle.py:96-113 | one slide keeps the board's class (inversions for odd width; inversions plus the blank's row for even width) |
| Parity.ClassInvariant | sliding-puzzle.py:96-113 | every run of slides keeps the class |
| Parity.Kept | sliding-puzzle.py:82 | the smallest of the first three cells, and the first of equals |
| Parity.FixShape | sliding-puzzle.py:82-83 | the repair swaps the two larger of the first three cells |
| Parity.FixFlips | sliding-puzzle.py:82-83 | the repair flips the inversion parity |
| Parity.FixKeeps | sliding-puzzle.py:82-83 | the repair keeps the contents and the blank's cell |
| Parity.ClassFlip | sliding-puzzle.py:80-83 | the repair moves a board into the other class |
| Parity.ScrambleAsWrittenClass | sliding-puzzle.py:77-83 | the scrambler as written always yields class 0 for odd width and class 1 for even width, whatever the target |
| Parity.ScrambleClass | sliding-puzzle.py:77-83 | the corrected scrambler yields the target's class, with the contents kept |
| Parity.ClassesApart | sliding-puzzle.py:96-113 | no run of slides reaches a target of another class |
| Parity.ScrambleAsWrittenStuck | sliding-puzzle.py:77-83 | the as-written scrambler turns the ordered 2 by 3 board into one no run of slides solves |
| Maneuvers.EndGame | sliding-puzzle.py:233 | the eight cells of the end-of-row manoeuvre |
| Maneuvers.EndGameChain | sliding-puzzle.py:233 | on a board at least three wide, with the blank below cell m-3, every slide of the manoeuvre is valid |
| Maneuvers.EndGameEffect | sliding-puzzle.py:233 | the manoeuvre returns the blank to its cell and rotates three tiles: the one below the row's end moves up into the end, and all else is unchanged |
| Maneuvers.NarrowEndGame | sliding-puzzle.py:211 | the sixteen cells of the two-wide manoeuvre |
| Maneuvers.NarrowEndGameChain | sliding-puzzle.py:211 | with the blank at cell 2 every slide of the sixteen is valid |
| Maneuvers.NarrowEndGameEffect | sliding-puzzle.py:211 | the sixteen slides return the blank to cell 2 and rotate cells 1, 3, 5, so the tile at 3 reaches 1 |
| Maneuvers.EndGameOffBoard | sliding-puzzle.py:226-233 | on a board two wide the manoeuvre's first cell is -1, off the board, so it is not a valid run |
| Maneuvers.Enclosed | sliding-puzzle.py:232 | on a board two wide, a path avoiding cells 0 and 3 never reaches cell 1 |
| Reduction.LiftCell | sliding-puzzle.py:182-183 | cell i of the smaller board lies below the top row of the whole board, one row lower and in the same column (row and column exchanged when it was turned) |
| Reduction.LiftLink | sliding-puzzle.py:87-93 | cells next to each other on the smaller board are next to each other on the whole board |
| Reduction.TransposeTo | sliding-puzzle.py:182 | turning moves cell i to cell `Across(i)` |
| Reduction.TransposeFrom | sliding-puzzle.py:182 | cell k of the turned board comes from cell `Across(k)` with the sides exchanged |
| Reduction.AcrossTwice | sliding-puzzle.py:182 | the cell map of turning, applied again with the sides exchanged, gives the cell back |
| Reduction.TransposeSwap | sliding-puzzle.py:182 | turning a board after a slide is sliding the turned board between the turned cells |
| Reduction.LiftAt | sliding-puzzle.py:182-183 | the whole board holds cell i of the smaller board at `Lift(i)` |
| Reduction.LiftSwap | sliding-puzzle.py:182-183 | a slide on the smaller board is the slide between the lifted cells on the whole board |
| Reduction.ApplyLifted | sliding-puzzle.py:102-104 | a log entry played on the smaller board plays the same way on the whole board, and the whole board stays without repeats |
| Reduction.ReplayLifted | sliding-puzzle.py:180-185 | a whole log played on the smaller board plays the same way on the whole board |
| Reduction.AbsorbReplays | sliding-puzzle.py:180-185 | a log that plays back to the board, followed by the smaller puzzle's log played from the rest of that board, plays back to the board `reduce` assembles, which has no repeats |
| SlidingPuzzle.Ordered | sliding-puzzle.py:51 | the default board: tiles 1 to k-1 in order, then the blank |
| SlidingPuzzle.OrientFacts | sliding-puzzle.py:55-59 | turning keeps the length, the last cell and the values, and a turned board turns back |
| SlidingPuzzle.ConfigureRefuses | sliding-puzzle.py:50-64 | set-up fails exactly when a side is below 2, a length is wrong, the target's last cell is not the blank, or the board has no blank |
| SlidingPuzzle.ConfigureSetup | sliding-puzzle.py:50-64 | an accepted set-up is turned exactly when m > n, keeps the cell count, finds the blank, and holds the (turned) boards |
| SlidingPuzzle.StrategyFits | sliding-puzzle.py:237-245 | the 2 by 2 solver gets only 2 by 2, the two-wide solver every board two wide, the general solver every board at least three wide; the dispatch as written differs exactly for 2 by n with n ≥ 4 |
| SlidingPuzzle.StrategyAsWrittenNarrow | sliding-puzzle.py:237-245 | the dispatch as written sends 2 by 4 to the general solver |
| SlidingPuzzle.Append | sliding-puzzle.py:102-111 | the log scan of `move` computes the recorded log |
| SlidingPuzzle.NearestRoute | sliding-puzzle.py:137-146 | a destination below the sentinel is reached by a valid, frozen-avoiding route that is no longer than any such path to any destination |
| SlidingPuzzle.NearestShortest | sliding-puzzle.py:137 | the chosen label is no more than the length of any frozen-avoiding path to a destination |
| SlidingPuzzle.ReachClean | sliding-puzzle.py:122-137 | a destination reachable by a frozen-avoiding path shorter than the sentinel gets a label below it |
| SlidingPuzzle.Route | sliding-puzzle.py:117-146 | the empty route when the blank is already there; otherwise, when clean, a shortest valid route to a destination that avoids frozen cells; for a single destination (every call in the solver passes one), clean whenever a short frozen-avoiding path to it exists |
| SlidingPuzzle.TopRowStep | sliding-puzzle.py:220-222 | placing tile i at cell i without disturbing cells 0..i-1 extends the solved prefix |
| SlidingPuzzle.LiftedBelow | sliding-puzzle.py:224-227 | placing the row's last tile at the cell below its target keeps the m-1 placed tiles |
| SlidingPuzzle.EndRowKept | sliding-puzzle.py:232 | a blank move that avoids the row and the cell below its end keeps both |
| SlidingPuzzle.SlideUpRow | sliding-puzzle.py:229-230 | with the blank at the row's end, sliding the tile below it completes the row |
| SlidingPuzzle.EndGameRow | sliding-puzzle.py:233 | played from the blank below the row's third cell from the right, with the tile for the row's last cell waiting below it and the rest of the row in place, the manoeuvre completes the row |
| SlidingPuzzle.Reduced | sliding-puzzle.py:175-182 | the smaller puzzle has fewer cells, m fewer, and is turned exactly when m > n - 1; its target is the rest of the target and its board the rest of the board, turned as the constructor turns them; distinct targets and boards stay distinct |
| SlidingPuzzle.Unturned | sliding-puzzle.py:182 | un-turning keeps the cell count and whether the blank is present |
| SlidingPuzzle.Rejoin | sliding-puzzle.py:183 | a correct top row joined with a correct rest is the target |
| SlidingPuzzle.Create | sliding-puzzle.py:48-65 | the constructor fails exactly when `Configure` refuses the arguments, with its reason; otherwise the new puzzle holds the accepted set-up, is ready, and has an empty log that plays back to the board; a board given without repeats gives `Replays()` |
| SlidingPuzzle.SetupDistinct | sliding-puzzle.py:55-62 | the board the constructor keeps, turned or not, repeats no value when the board it was given repeats none |
| SlidingPuzzle.Puzzle.constructor | sliding-puzzle.py:58-64 | the fields are the given accepted set-up, the blank is on its cell, and the empty log plays back to the board |
| SlidingPuzzle.Puzzle.Copy | sliding-puzzle.py:67-69 | a fresh puzzle with the same shape, board and target, unturned, with the blank found and an empty log; a board without repeats gives a copy with `Replays()` |
| SlidingPuzzle.Puzzle.Scramble | sliding-puzzle.py:71-84 | fails exactly when the shuffled board has no blank; otherwise the blank's cell and the board repaired by the corrected test of Findings row 1 (its class differs from the target's), which reaches the target's class; the log is kept, and an empty log restarts from the new board with `Replays()` for distinct tiles |
| SlidingPuzzle.Reshuffle | sliding-puzzle.py:72-84 | no blank exactly when the shuffle has none; otherwise the first blank and the shuffle repaired by the corrected test, which for distinct tiles keeps the contents and the blank and reaches the target's class |
| SlidingPuzzle.Run | sliding-puzzle.py:98-111 | the loop over the slides: the first `k` are a legal run from the blank, the board and the log are those after them, and it stops early exactly at a cell not next to the blank |
| SlidingPuzzle.Puzzle.Move | sliding-puzzle.py:95-113 | the slides up to the first invalid one are made and logged; Done exactly when all are valid; on failure the blank field is left as it was and the failing slide is not next to the blank; with the blank on its cell, the log still plays back from `origin` to the board |
| SlidingPuzzle.RunReplays | sliding-puzzle.py:96-113 | a run of slides from a board without repeats whose log plays back leaves a log that plays back to the new board, still without repeats |
| SlidingPuzzle.MarkerReplays | sliding-puzzle.py:154 | a placing marker does not change what the log plays back to |
| SlidingPuzzle.Puzzle.Blank | sliding-puzzle.py:115-148 | no change when the blank is already at a destination; otherwise a valid run of slides, logged; when clean, a shortest frozen-avoiding route that keeps the frozen cells; for a single destination (every call in the solver passes one), clean whenever a short frozen-avoiding path to it exists; `Replays()` is kept |
| SlidingPuzzle.Puzzle.Place | sliding-puzzle.py:150-172 | `NotFound` exactly when the tile is absent; a marker is logged; the tile ends in the target's column, at the higher of its row and the target row; when clean it is there and the frozen cells are kept |
| SlidingPuzzle.Puzzle.CarryRight | sliding-puzzle.py:159-162 | the tile moves right, in its row, to the target column; frozen cells are kept |
| SlidingPuzzle.Puzzle.CarryUp | sliding-puzzle.py:164-167 | the tile moves up, in its column, to the target row; frozen cells are kept |
| SlidingPuzzle.Puzzle.CarryLeft | sliding-puzzle.py:169-172 | the tile moves left, in its row, to the target column; frozen cells are kept |
| SlidingPuzzle.Puzzle.Carry | sliding-puzzle.py:160-161 | routing the blank to the next cell and sliding the tile moves it one cell and keeps the frozen cells; Done and clean whenever the blank is at that cell or reaches it by a path shorter than m + n around the frozen cells and the tile; `Replays()` is kept |
| SlidingPuzzle.Puzzle.PlaceRow | sliding-puzzle.py:219-222 | when clean, the first m-1 tiles of the top row are in place; `Replays()` is kept |
| SlidingPuzzle.Puzzle.PlaceNext | sliding-puzzle.py:220-222 | one pass of the loop places tile i at cell i; when clean the solved prefix grows to cell i; `Replays()` is kept |
| SlidingPuzzle.Puzzle.LiftLast | sliding-puzzle.py:224-227 | either the row's last tile is already in place and nothing changes, or it is placed below its target cell and the row so far is kept |
| SlidingPuzzle.Puzzle.EndRow | sliding-puzzle.py:229-233 | when clean, the whole top row is in place |
| SlidingPuzzle.Puzzle.SlideUp | sliding-puzzle.py:229-230 | one slide up completes the row |
| SlidingPuzzle.Puzzle.BlankBelow | sliding-puzzle.py:232 | when clean, the blank is below cell m-3 and the row and the lifted tile are kept |
| SlidingPuzzle.Puzzle.TurnEnd | sliding-puzzle.py:233 | from the position the end of the row sets up, the eight slides are all valid (`Done`) and complete the row |
| SlidingPuzzle.Puzzle.EndPair | sliding-puzzle.py:205-211 | when clean, cells 0 and 1 of a two-wide board are in place |
| SlidingPuzzle.Puzzle.PairBlank | sliding-puzzle.py:210 | when clean, the blank reaches cell 2 and cells 0 and 3 are kept |
| SlidingPuzzle.Puzzle.PairTurn | sliding-puzzle.py:211 | from the position the pair steps set up, the sixteen slides are all valid (`Done`) and complete the top row |
| SlidingPuzzle.Puzzle.Reduce | sliding-puzzle.py:174-185 | on failure nothing changes; on success the top row and the log so far are kept, the blank field is the first 0 of the board, and when clean the rest of the board is the rest of the target; `Replays()` is kept across the smaller puzzle's solve |
| SlidingPuzzle.Puzzle.Lower | sliding-puzzle.py:176-178 | the smaller puzzle exists exactly when the constructor accepts the rest of the target and board, and a refusal is reported as the constructor's error; the puzzle built is fresh and ready, has m fewer cells, its board is the constructor's board for the rest of the board (un-turned, the rest itself), its log is empty and starts at its board, and its target is the rest of the target, turned when it is flipped, distinct when the whole target is; a board without repeats gives it `Replays()` |
| SlidingPuzzle.Restack | sliding-puzzle.py:182-184 | the kept top row over the smaller board, un-turned when it was turned; the blank is the first 0 of the result |
| SlidingPuzzle.Puzzle.Absorb | sliding-puzzle.py:182-185 | the board becomes the kept top row over the smaller board, un-turned; the blank field is the first 0; the log is the old log followed by the smaller puzzle's; when that log plays back from the smaller puzzle's start, which was the rest of the board, the whole log plays back to the new board |
| SlidingPuzzle.Puzzle.Solve2x2 | sliding-puzzle.py:187-194 | `Done` only with the board equal to the target; `Impossible` only with the blank on its cell and the board differing from the target; otherwise a routing failure; `Replays()` is kept |
| SlidingPuzzle.Puzzle.PairRow | sliding-puzzle.py:199-211 | on a board two wide, a clean run on a target without repeats leaves cells 0 and 1 as in the target |
| SlidingPuzzle.Puzzle.SolveTwoWide | sliding-puzzle.py:196-213 | on a board two wide and at least three long, a clean success is the target |
| SlidingPuzzle.Puzzle.SolveIt | sliding-puzzle.py:215-235 | on a board at least three wide, a clean success is the target |
| SlidingPuzzle.Puzzle.Solve | sliding-puzzle.py:237-245 | every success keeps the shape; a 2 by 2 success, and every clean success, is the target; `Replays()` is kept, so the returned log plays back from the starting board to the final one |

## Left out

- The Tk user interface, the command line, timing and the program's entry point are not part of this model.
- `random.shuffle` is not modelled. `SlidingPuzzle.Puzzle.Scramble` takes the shuffled board as a parameter, with the same contents as the board.
- Python 2 and Python 3 differ when `min` compares a missing label, and when `None > 1` is evaluated. The model takes the outcome of an unlabelled destination to be `Unreachable` in both cases.
- SlidingPuzzle.Puzzle.Move: a slide to a cell outside the board (the index -1 of the general end-of-row manoeuvre on a board two wide) fails at once. Python would wrap -1 around to the last cell and fail one slide later. The corrected dispatch never issues such a slide.
- SlidingPuzzle.Puzzle.Place: requires the target cell `p` to be on the board. Every call in the program passes such a cell.
- SlidingPuzzle.Puzzle.SolveIt: requires a board at least three wide. That is the corrected dispatch, see Findings.
- SlidingPuzzle.Puzzle.Solve: proves soundness only, assuming the target's entries are distinct (the program never checks this). It does not prove completeness: that every solvable board ends `Done` and clean.
- SlidingPuzzle.Puzzle.Solve: the state after a failure is not described beyond the shape. In the program the exception leaves a half-moved board.
- SlidingPuzzle.Puzzle.Reduce: the sub-puzzle's log is appended as it is. A slide at the seam that repeats the last slide is not cancelled, as in the program (`extend`).
- SlidingPuzzle.Puzzle.Reduce: the constructor's "no blank" error, which is a `ValueError` of `list.index`, is reported as `NotFound`, and its other assertion failures as `BadSetup`.
- SlidingPuzzle.Puzzle.Solve: dispatches by the corrected `Strategy` of Findings row 2. A 2 by n board with n ≥ 4 goes to `SolveTwoWide`, not to `solveit` as lines 241-244 do. The dispatch as written is SlidingPuzzle.StrategyAsWritten.
- SlidingPuzzle.Puzzle.Scramble: repairs by the corrected test of Findings row 1 (`NeedsFix`). The test of line 80 as written is Parity.NeedsFixAsWritten.
- SlidingPuzzle.Puzzle.Move: keeps `Replays()` only when the blank field is on the blank. Every method that calls it is in that state.

## Findings

| source | as written | input that shows it | evidently intended | confidence | as-written member | corrected member |
|---|---|---|---|---|---|---|
| sliding-puzzle.py:80-83 | for even width the board is repaired when inversions plus the blank's row are even, so every scramble lands in one fixed class whatever the target | 2 by 3 board `[1, 2, 3, 4, 5, 0]` with the same target: the repair yields `[1, 3, 2, 4, 5, 0]`, from which no run of slides reaches the target | repair when the board's class differs from the target's class | high; not executed | Parity.ScrambleAsWrittenClass, Parity.ScrambleAsWrittenStuck | Parity.ScrambleClass, SlidingPuzzle.Reshuffle, SlidingPuzzle.Puzzle.Scramble |
| sliding-puzzle.py:237-245 | only 2 by 3 goes to `solve2x3`; 2 by n with n ≥ 4 goes to `solveit`, whose end-of-row step needs a width of 3 | 2 by 4, target `[1, 2, 3, 4, 5, 6, 7, 0]`, initial `[1, 3, 4, 2, 5, 6, 7, 0]`: tile 2 is placed below cell 1 with the blank elsewhere, and routing the blank to cell 1 around cells 0 and 3 fails | every board two wide goes to the two-wide solver, which reduces to a shorter board | high; not executed | SlidingPuzzle.StrategyAsWrittenNarrow, Maneuvers.EndGameOffBoard, Maneuvers.Enclosed | SlidingPuzzle.StrategyFits, SlidingPuzzle.Puzzle.SolveTwoWide, SlidingPuzzle.Puzzle.Solve |
