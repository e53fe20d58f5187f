# Schelling segregation engine

A model of the Schelling segregation simulation as its two JavaScript engines
implement it.

- **Canvas version** (`docs/js/schelling.js`).
- **Table version** (`experimental-sociology/js/schelling.js`). Its pools of
  agents and blank cells are lists of table cells, and each cell's id numbers
  the board row-major.

Both versions share the same state:

- a square `boardWidth x boardWidth` board whose cells hold `'R'`, `'B'` or
  `' '`;
- a round counter;
- in the table version only, the `totalAgents` count made by the last reset.

The program itself is two flat script files, one per version. The first five
modules below are shared abstractions over what the two versions have in
common; the last two follow each file's own engine:

- `Board`: cells, the grid, the census of cell types, and the random fill of a
  reset.
- `Neighbourhood`: the 3x3 window count behind `percentSimilar`, the
  satisfaction test, and the table version's `sum`.
- `Scan`: row-major scans listing the blank cells, the agents, and the
  satisfied and unsatisfied agents.
- `Pool`: the pool of blank cells and the move both versions make with it;
  `RoundMoves` is the moving step of a whole round.
- `Report`: `roundNumber`, the reported percentage (NaN when there are no
  agents), and turning a draw into an index.
- `Canvas`: the canvas engine as a class with `board`, `boardWidth` and
  `round` fields. Its methods are the source's loops, proved against the
  functions above.
- `Table`: the table engine. It adds the cell-id encoding, the
  `getUnsatisfiedAgents` filter over ids, `moveToRandom` on an id pool, and
  its `doOneRound`.

Inputs from the user interface become parameters:

- the threshold slider: `threshold: real`;
- the size and the empty and red ratios: arguments of `Reset`;
- `Math.random()`: a grid of `Draw`s for a reset, and a function
  `rolls: nat -> real` with values in [0, 1) whose k-th value is the k-th
  mover's draw.

Numbers are modelled as exact reals rather than floating point.

Points where the two versions differ, kept apart in the model:

- The canvas version skips a mover once the pool is empty. The table version
  has no such guard: reading the id of an undefined pool entry throws.
  `Table.Engine.DoOneRound` returns `Err(EmptyPool)` after the round counter
  has already been incremented, with the board unchanged.
- The canvas `isSatisfied` tests `percentSimilar >= threshold`; the table one
  tests `threshold <= percentSimilar`. The two are the same predicate.
- The table version recounts over the cells that held agents before the
  moves. See "## Findings".

Two facts about the reported numbers:

- With zero agents the code computes `0/0` (NaN); the model shows it as
  `None`.
- `Math.round` rounds halves up.

## Model

| member | source | states |
|---|---|---|
| Board.FillCell | docs/js/schelling.js:121-128 | an empty ratio of 0 leaves no cell blank and one of 1 blanks every cell; a red ratio of 1 makes no agent blue and one of 0 makes no agent red |
| Board.Filled | docs/js/schelling.js:118-131 | the reset board has the draws' shape, and each cell is red, blue or blank exactly as that cell's two draws decide |
| Neighbourhood.WindowIndex | docs/js/schelling.js:207-211 | the offsets (dr, dc) in [-1, 1]^2 are exactly the window indices 0..8 in loop order, and index 4 is the cell itself |
| Neighbourhood.CountedIsNeighbour | docs/js/schelling.js:209-212 | a counted window cell is on the board, adjacent to (row, col) and distinct from it: nothing wraps around |
| Neighbourhood.TallyBounds | docs/js/schelling.js:204-221 | after n window cells, similar <= occupied, and occupied is at most n, or n - 1 once past the centre |
| Neighbourhood.NeighbourhoodBounds | docs/js/schelling.js:203-222 | 0 <= similar <= occupied <= 8, and the percentage lies in [0, 100] |
| Neighbourhood.Percent | docs/js/schelling.js:222 | the percentage is 100 when no neighbour is occupied, and otherwise p * occupied == 100 * similar |
| Neighbourhood.PercentSimilar | docs/js/schelling.js:203-222 | `percentSimilar` lies in [0, 100], and is 100 iff every occupied neighbour is similar |
| Neighbourhood.Satisfied | docs/js/schelling.js:225-228 | `isSatisfied`: the percentage reaches the threshold; what that means in counts is proved by Neighbourhood.SatisfiedIff and Neighbourhood.SatisfiedThresholds |
| Neighbourhood.SatisfiedThresholds | docs/js/schelling.js:225-228 | every agent is satisfied at a threshold <= 0, none at a threshold > 100, and one whose occupied neighbours are all similar at any threshold <= 100 |
| Neighbourhood.PercentRange | docs/js/schelling.js:222 | with similar <= occupied the percentage lies in [0, 100], and it is 100 iff similar == occupied |
| Neighbourhood.PercentAtLeast | docs/js/schelling.js:222-227 | `percent >= t` holds iff either no neighbour is occupied and t <= 100, or t * occupied <= 100 * similar |
| Neighbourhood.SatisfiedIff | docs/js/schelling.js:225-228 | satisfied iff (occupied == 0 and threshold <= 100) or (occupied > 0 and threshold * occupied <= 100 * similar), with no division |
| Neighbourhood.OccupiedSplits | docs/js/schelling.js:213-217 | the occupied neighbours are the red ones plus the blue ones |
| Neighbourhood.Sum | experimental-sociology/js/schelling.js:94-106 | `sum(r, c, search)` counts at most the eight neighbours; Neighbourhood.SumCounts proves which |
| Neighbourhood.SumCounts | experimental-sociology/js/schelling.js:94-106 | for any `search`, blank included, `sum(r, c, search)` is the number of in-bounds neighbours holding `search`; the ineffective `c+1 >= 0` guard is harmless only because a read past the row end matches nothing |
| Neighbourhood.HoldingIsSimilar | docs/js/schelling.js:213-217 | for an agent type, the neighbours holding it are exactly the similar neighbours `percentSimilar` counts |
| Neighbourhood.SumIsSimilar | experimental-sociology/js/schelling.js:94-106 | for an agent type, `sum(r, c, search)` equals the similar count of `percentSimilar` |
| Neighbourhood.Visit | docs/js/schelling.js:209-219 | visiting one offset advances the occupied and similar tallies from window cell k to k + 1 |
| Report.RoundNumber | docs/js/schelling.js:232-235 | `roundNumber(x, digits)` is a whole number of steps of 10^-digits, within half a step of x and closed above: halves round up |
| Report.RoundTenthsRange | docs/js/schelling.js:189 | rounding a percentage in [0, 100] to one decimal stays in [0, 100], and 100 stays 100 |
| Report.RoundTenthsExact | experimental-sociology/js/schelling.js:333-337 | a value that already has at most one decimal is returned unchanged |
| Report.SatisfiedPercent | docs/js/schelling.js:189 | the reported percentage is NaN (`None`) exactly when there are no agents |
| Report.SatisfiedPercentRange | docs/js/schelling.js:189 | the reported percentage is NaN exactly when there are no agents; otherwise it lies in [0, 100], and it is 100 when every agent is satisfied (the converse fails: Report.HundredShownEarly) |
| Report.HundredShownEarly | docs/js/schelling.js:189-198 | 1999 satisfied agents of 2000 are shown as 100.0 %, while the stop test, which compares the counts, goes on |
| Report.Pick | docs/js/schelling.js:164 | `Math.floor(roll * n)` with a draw in [0, 1) and n > 0 is a valid index in [0, n) |
| Scan.Selected | docs/js/schelling.js:147-157 | the row-major scan of the cells a selector keeps; Scan.SelectedExact proves what it lists |
| Scan.SelectedExact | docs/js/schelling.js:147-157 | a row-major scan lists exactly the cells it keeps, each once; in particular the blank cells it lists are exactly the empty cells |
| Scan.AgentsPartition | docs/js/schelling.js:179-188 | the agent count is the count of satisfied agents plus the count of unsatisfied agents |
| Pool.RemoveAt | docs/js/schelling.js:172 | `splice(i, 1)` keeps the entries before i and shifts those after it down by one |
| Pool.BlanksArePool | docs/js/schelling.js:147-150 | the blank cells found by the scan form an exact pool: every listed cell is blank, every blank cell is listed, and none twice |
| Pool.Moved | docs/js/schelling.js:168-169 | after the two writes the source is blank, the destination holds the source's agent (when they differ), and every other cell is unchanged |
| Pool.MoveCensus | docs/js/schelling.js:168-169 | writing the agent into a blank cell and blanking its source keeps the counts of 'R', 'B' and ' ' |
| Pool.MovePool | docs/js/schelling.js:168-173 | after a move, splicing out the destination and pushing the source keeps the pool exactly the blank cells |
| Pool.MoveStep | docs/js/schelling.js:164-173 | one move keeps the pool exact and its length, keeps the census, lands the agent on the picked cell, blanks its source, and changes no other cell |
| Pool.Turn | docs/js/schelling.js:161-173 | a turn keeps the board square, the pool's length and the pool on the board; with an empty pool nothing changes |
| Pool.MoveAll | docs/js/schelling.js:160-174 | the moving loop keeps the board square and the pool's length; with no blank cell the board is unchanged |
| Pool.TurnKeeps | docs/js/schelling.js:160-174 | each turn keeps the pool exact and the census, keeps the movers still to come on their agents, and moves no agent outside the movers |
| Pool.MoveAllKeeps | docs/js/schelling.js:160-174 | the whole moving loop keeps those invariants |
| Pool.KeptStep | docs/js/schelling.js:161-173 | one more turn of the moving loop keeps those invariants |
| Pool.MoverHoldsAgent | docs/js/schelling.js:153-169 | when its turn comes, each unsatisfied agent's source cell still holds the agent the snapshot recorded |
| Pool.RoundMoves | docs/js/schelling.js:146-174 | the moving step of a round, from the scan's movers and pool, keeps the board square |
| Pool.RoundMovesKeep | docs/js/schelling.js:146-174 | a round's moves keep the pool exactly the blank cells and its length and keep the census; agents satisfied at the scan never move; with no blank cell or no unsatisfied agent the board is unchanged |
| Canvas.PercentSimilar | docs/js/schelling.js:203-222 | the counting loop returns 100 with no occupied neighbour, and otherwise similar / occupied * 100 over the in-bounds Moore neighbourhood |
| Canvas.IsSatisfied | docs/js/schelling.js:225-228 | the result is true iff the percentage is at least the threshold |
| Canvas.ScanBoard | docs/js/schelling.js:143-157 | the scan returns exactly the unsatisfied agents and the blank cells, in row-major order |
| Canvas.Recount | docs/js/schelling.js:177-188 | the recount returns the number of agents and the number of satisfied agents on the board |
| Canvas.Engine.Reset | docs/js/schelling.js:103-131 | a reset sets the width, sets round to 0, and fills the board cell by cell as the draws decide |
| Canvas.Engine.MoveOne | docs/js/schelling.js:161-173 | the loop body performs exactly one turn: nothing when the pool is empty, otherwise the recorded agent moves to the picked cell and the pool is updated |
| Canvas.Engine.MoveUnsatisfied | docs/js/schelling.js:160-174 | the moving loop leaves the board and the pool as the turns of the movers, in order, leave them |
| Canvas.Engine.DoOneRound | docs/js/schelling.js:139-198 | the round counter goes up by 1; the board becomes the round's moves; the counts reported are the agents and the satisfied agents of the new board; the percentage is their rounded ratio (NaN with no agent); the simulation stops iff every agent is satisfied |
| Table.Encode | experimental-sociology/js/schelling.js:247 | for a column in [0, w), the id `w * row + col` divides back to the row and leaves the column as remainder |
| Table.Decode | experimental-sociology/js/schelling.js:240-241 | the cell an id of the table names lies on the board |
| Table.EncodeDecode | experimental-sociology/js/schelling.js:240-247 | decoding an id (floor(pos / w), pos % w) and encoding back with `w * row + col` gives the id back |
| Table.DecodeEncode | experimental-sociology/js/schelling.js:284-285 | every board cell encodes to an id in [0, w^2) that decodes back to the same cell |
| Table.IdsRoundTrip | experimental-sociology/js/schelling.js:312-315 | a list of cells turned into ids gives valid ids that decode back to the same list |
| Table.UnsatisfiedIds | experimental-sociology/js/schelling.js:275-297 | the filtered list is no longer than its input, and its ids are ids of the table |
| Table.UnsatisfiedIdsExact | experimental-sociology/js/schelling.js:278-294 | the filter keeps an id iff it is listed and its cell fails `isSatisfied` with whatever the board holds there |
| Table.UnsatisfiedIdsAppend | experimental-sociology/js/schelling.js:278-294 | filtering two joined lists is joining the two filtered lists |
| Table.UnsatisfiedOfAgents | experimental-sociology/js/schelling.js:303-304 | before any move, filtering the agents' ids yields exactly the ids of the unsatisfied agents, in row-major order |
| Table.RecountAgrees | experimental-sociology/js/schelling.js:321-322 | on the board the agent list was taken from, the agent count minus the count of unsatisfied ids is the number of satisfied agents |
| Table.RoundIds | experimental-sociology/js/schelling.js:303-309 | the agents' and blank cells' ids are valid, the first filter yields the unsatisfied agents' ids, and the blank and unsatisfied ids decode to the scan's lists |
| Table.PoolIdsStep | experimental-sociology/js/schelling.js:258-259 | pushing the source's id and then splicing at rand < old length is, on the cells named, splicing out the destination and appending the source |
| Table.PercentSimilar | experimental-sociology/js/schelling.js:108-135 | the counting loop over absolute rows and columns returns 100 with no occupied neighbour, otherwise similar / occupied * 100 |
| Table.IsSatisfied | experimental-sociology/js/schelling.js:146-153 | `similar <= sim` holds iff the agent is satisfied |
| Table.GetUnsatisfiedAgents | experimental-sociology/js/schelling.js:275-297 | the loop returns exactly the filtered id list |
| Table.UnsatisfiedIdsStep | experimental-sociology/js/schelling.js:278-294 | filtering one more id appends it exactly when its cell is unsettled |
| Table.Engine.Reset | experimental-sociology/js/schelling.js:340-401 | a reset sets the width, sets round to 0, fills the board as the draws decide, and sets `totalAgents` to the number of agents placed |
| Table.Engine.FillBoard | experimental-sociology/js/schelling.js:364-401 | the fill loops leave the board filled as the draws decide, with `totalAgents` counting the non-blank cells |
| Table.Engine.FillRow | experimental-sociology/js/schelling.js:377-400 | filling one row writes that row's cells as the draws decide, leaves the rows above and below as they were, and adds that row's agents to `totalAgents` |
| Table.Engine.MoveToRandom | experimental-sociology/js/schelling.js:226-259 | with an empty pool the call fails and nothing changes; otherwise board and pool become exactly one turn of the agent at (row, col) |
| Table.Engine.MoveListed | experimental-sociology/js/schelling.js:310-317 | the `each` callback decodes the id and advances board and pool by one mover's turn, or fails on an empty pool |
| Table.Engine.MoveUnsatisfied | experimental-sociology/js/schelling.js:309-318 | the moving loop fails iff the pool is empty and some agent is listed; the board ends as the movers' turns leave it |
| Table.Engine.DoOneRound | experimental-sociology/js/schelling.js:299-329 | the round counter goes up by 1; the round fails iff there is no blank cell and some agent is unsatisfied; the board becomes the round's moves; the recount filters the pre-move agent ids over the new board; stop iff that count covers every listed id |
| Table.Engine.DoOneRoundRescanned | experimental-sociology/js/schelling.js:299-329 | the same round with the agents queried again after the moves: the counts are the agents and the satisfied agents of the new board |
| Table.StartAgents | experimental-sociology/js/schelling.js:303 | on the example board the agents are the first two cells, ids 0 and 1 |
| Table.StartUnhappy | experimental-sociology/js/schelling.js:304 | on the example board both agents are unsatisfied at threshold 50 |
| Table.StartBlanks | experimental-sociology/js/schelling.js:309 | the blank cells of the example board, in document order |
| Table.PickFour | experimental-sociology/js/schelling.js:233 | a draw of 0.6 picks entry 4 of a pool of seven |
| Table.FirstMove | experimental-sociology/js/schelling.js:226-259 | the red agent moves to (2, 0), and its cell joins the end of the pool |
| Table.SecondMove | experimental-sociology/js/schelling.js:226-259 | the blue agent moves to (2, 1) |
| Table.RoundOfTwo | experimental-sociology/js/schelling.js:310-318 | a round with two unsatisfied agents is their two turns in scan order |
| Table.StartMoves | experimental-sociology/js/schelling.js:310-318 | with every draw 0.6 the example round ends with both agents in the bottom row |
| Table.StaleRecount | experimental-sociology/js/schelling.js:321-322 | after that round, filtering the pre-move ids 0 and 1 finds no unsatisfied cell |
| Table.EndUnhappy | experimental-sociology/js/schelling.js:327-329 | after that round, no agent on the board is satisfied |

## Left out

- The DOM and jQuery wiring: slider labels, button enabling, `drawBoard` and
  `setSatisfied`. These are display only. The board array they mirror is
  modelled.
- The HTML that the table version's `resize` builds. What `resize` feeds the
  engine is modelled: `boardWidth` (line 409) is `Reset`'s width argument,
  and the row-major `pos<index>` ids (lines 412-417) are `Table.Encode`.
- Table.Engine.DoOneRound: the table version's round finds its agents and
  blank cells through the cells' CSS classes (`$('.blue').add('.red')` at
  line 303 and `$('td.blank')` at line 309), not through the board array.
  The model assumes those classes mirror the board, as the reset
  (lines 382-393) and `moveToRandom` (lines 254-255) keep them, and reads
  the board instead; the classes themselves are not modelled.
- The timers `startClick`, `stopClick` and `updateDelay`. One round is one
  method call, and "stop" is the `stop` field of the round's summary.
- The distribution of `Math.random()`. Draws are parameters in [0, 1).
- Floating point. Percentages and ratios are exact reals, and NaN is `None`.
- `moveToNearest` in the table version. It is never called, and as written it
  does not terminate: `radius` is never incremented, and one loop increments
  `c` while testing `c >= col - 1`.
- `testPercentSimilar` in the table version. It only calls `percentSimilar`
  and discards the result.
- The pages' other scripts (`alpha_beta.js`, `monte_carlo_multiply.js`).
  These are floating-point approximations and drawing, with no engine state.
- The table version reads the red ratio from `#red` or `#red-blue`. Either
  way it is the `redRatio` argument of `Reset`.
- Pool.MoveAll: its own contract gives only the shape of the result. The
  invariants the moving loop keeps are in Pool.MoveAllKeeps and
  Pool.RoundMovesKeep.

## Findings

| source | as written | input that shows it | evidently intended | confidence | as-written member | corrected member |
|---|---|---|---|---|---|---|
| experimental-sociology/js/schelling.js:303, 321-322 | after the moves, `getUnsatisfiedAgents($allAgents)` is applied to the cells that held agents before the moves; a moved agent's old cell is now blank and counts as satisfied when it has no occupied neighbour | 3x3 board `R B _ / _ _ _ / _ _ _`, threshold 50, every draw 0.6: both agents (ids 0 and 1) are unsatisfied and move to (2, 0) and (2, 1); the recount over ids 0 and 1 finds both satisfied, so the round reports 2 of 2 satisfied (100 %) and stops, although neither agent is satisfied | recount the agents on the board after the moves, as the canvas version does | not executed | Table.StaleRecount | Table.Engine.DoOneRoundRescanned |
