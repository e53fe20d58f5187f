/**
 * The canvas version of the engine (docs/js/schelling.js): a global board
 * and round counter, a round that snapshots the unsatisfied agents and the
 * blank cells, moves each unsatisfied agent to a random blank cell while a
 * blank cell is left, and recounts satisfaction on the new board.
 */
module Canvas {
  import opened Board
  import opened Neighbourhood
  import opened Scan
  import opened Pool
  import opened Report

  /** `percentSimilar(row, col, agent)`: the counting loop over the 3x3 window. */
  method PercentSimilar(g: Grid, w: nat, row: int, col: int, agent: Cell) returns (p: real)
    requires IsSquare(g, w)
    ensures p == Percent(Occupied(g, row, col, 9), Similar(g, row, col, agent, 9))
  {
    var occupied, similar := 0, 0;
    ghost var k := 0;
    var dr := -1;
    while dr <= 1
      invariant -1 <= dr <= 2 && k == (dr + 1) * 3
      invariant occupied == Occupied(g, row, col, k)
      invariant similar == Similar(g, row, col, agent, k)
    {
      var dc := -1;
      while dc <= 1
        invariant -1 <= dc <= 2 && k == (dr + 1) * 3 + dc + 1
        invariant occupied == Occupied(g, row, col, k)
        invariant similar == Similar(g, row, col, agent, k)
      {
        occupied, similar := Visit(g, w, row, col, agent, dr, dc, occupied, similar);
        k := k + 1;
        dc := dc + 1;
      }
      dr := dr + 1;
    }
    p := if occupied == 0 then 100.0 else similar as real / occupied as real * 100.0;
  }

  /** `isSatisfied(row, col, agent)`, with the threshold slider's value passed in. */
  method IsSatisfied(g: Grid, w: nat, row: int, col: int, agent: Cell, threshold: real) returns (b: bool)
    requires IsSquare(g, w)
    ensures b <==> Satisfied(g, row, col, agent, threshold)
  {
    var p := PercentSimilar(g, w, row, col, agent);
    b := p >= threshold;
  }

  /**
   * Step 1 of `doOneRound`: one row-major pass that lists the blank cells and
   * the agents that are not satisfied.
   */
  method ScanBoard(g: Grid, w: nat, threshold: real) returns (unsatisfied: seq<Pos>, blankCells: seq<Pos>)
    requires IsSquare(g, w)
    ensures unsatisfied == Selected(g, Unhappy(threshold))
    ensures blankCells == Selected(g, Blank)
  {
    unsatisfied, blankCells := [], [];
    var r := 0;
    while r < w
      invariant 0 <= r <= w
      invariant unsatisfied == Select(g, Unhappy(threshold), r)
      invariant blankCells == Select(g, Blank, r)
    {
      var c := 0;
      while c < w
        invariant 0 <= c <= w
        invariant unsatisfied == Select(g, Unhappy(threshold), r) + SelectRow(g, Unhappy(threshold), r, c)
        invariant blankCells == Select(g, Blank, r) + SelectRow(g, Blank, r, c)
      {
        if g[r][c] == Empty {
          blankCells := blankCells + [Pos(r, c)];
        } else {
          var ok := IsSatisfied(g, w, r, c, g[r][c], threshold);
          if !ok {
            unsatisfied := unsatisfied + [Pos(r, c)];
          }
        }
        c := c + 1;
      }
      r := r + 1;
    }
  }

  /** Step 3 of `doOneRound`: count the agents and the satisfied agents on the board. */
  method Recount(g: Grid, w: nat, threshold: real) returns (totalAgents: nat, numSatisfied: nat)
    requires IsSquare(g, w)
    ensures totalAgents == |Selected(g, Agent)|
    ensures numSatisfied == |Selected(g, Happy(threshold))|
  {
    totalAgents, numSatisfied := 0, 0;
    var r := 0;
    while r < w
      invariant 0 <= r <= w
      invariant totalAgents == |Select(g, Agent, r)|
      invariant numSatisfied == |Select(g, Happy(threshold), r)|
    {
      var c := 0;
      while c < w
        invariant 0 <= c <= w
        invariant totalAgents == |Select(g, Agent, r)| + |SelectRow(g, Agent, r, c)|
        invariant numSatisfied == |Select(g, Happy(threshold), r)| + |SelectRow(g, Happy(threshold), r, c)|
      {
        if g[r][c] == Red || g[r][c] == Blue {
          totalAgents := totalAgents + 1;
          var ok := IsSatisfied(g, w, r, c, g[r][c], threshold);
          if ok {
            numSatisfied := numSatisfied + 1;
          }
        }
        c := c + 1;
      }
      r := r + 1;
    }
  }

  /** The engine's global state: the board, its width and the round counter. */
  class Engine {
    var board: Grid
    var boardWidth: nat
    var round: nat

    ghost predicate Valid()
      reads this
    {
      IsSquare(board, boardWidth)
    }

    /** The state before the first reset: no board yet, round 0. */
    constructor ()
      ensures Valid() && board == [] && boardWidth == 0 && round == 0
    {
      board, boardWidth, round := [], 0, 0;
    }

    /**
     * `resetClick`: a fresh `width x width` board whose every cell is decided
     * by its own draws, and round 0.
     */
    method Reset(width: nat, emptyRatio: real, redRatio: real, draws: seq<seq<Draw>>)
      requires IsSquare(draws, width)
      modifies this
      ensures Valid() && boardWidth == width && round == 0
      ensures board == Filled(draws, emptyRatio, redRatio)
    {
      boardWidth := width;
      round := 0;
      board := seq(width, _ => seq(width, _ => Empty));
      var r := 0;
      while r < width
        invariant 0 <= r <= width
        invariant Valid() && boardWidth == width && round == 0
        invariant forall i, j :: 0 <= i < width && 0 <= j < width ==>
          board[i][j] == if i < r then FillCell(draws[i][j], emptyRatio, redRatio) else Empty
      {
        var c := 0;
        while c < width
          invariant 0 <= c <= width
          invariant Valid() && boardWidth == width && round == 0
          invariant forall i, j :: 0 <= i < width && 0 <= j < width ==>
            board[i][j] == if i < r || (i == r && j < c) then FillCell(draws[i][j], emptyRatio, redRatio) else Empty
        {
          var d := draws[r][c];
          if d.occupy < 1.0 - emptyRatio {
            board := Set(board, Pos(r, c), if d.colour < redRatio then Red else Blue);
          } else {
            board := Set(board, Pos(r, c), Empty);
          }
          c := c + 1;
        }
        r := r + 1;
      }
      var f := Filled(draws, emptyRatio, redRatio);
      forall i | 0 <= i < width
        ensures board[i] == f[i]
      {
        assert |board[i]| == |f[i]|;
        assert forall j :: 0 <= j < width ==> board[i][j] == f[i][j];
      }
    }

    /**
     * Step 2 of `doOneRound`: each agent of the snapshot `movers`, in order,
     * moves to the blank cell its draw picks while the pool is not empty;
     * the agent written is the one the snapshot recorded. Board and pool end
     * as `MoveAll` says.
     */
    method MoveUnsatisfied(movers: seq<Pos>, blankCells: seq<Pos>, rolls: nat -> real) returns (pool: seq<Pos>)
      requires Valid()
      requires forall k :: 0 <= k < |movers| ==> InBounds(board, movers[k]) && At(board, movers[k]) != Empty
      requires Distinct(movers)
      requires PoolExact(board, blankCells)
      requires forall k: nat :: 0.0 <= rolls(k) < 1.0
      modifies this
      ensures Valid() && boardWidth == old(boardWidth) && round == old(round)
      ensures MoveState(board, pool) == MoveAll(boardWidth, old(board), blankCells, movers, rolls, |movers|)
    {
      var snapshot := board;
      assert MoveReady(boardWidth, snapshot, blankCells, movers, rolls);
      pool := blankCells;
      var k := 0;
      while k < |movers|
        invariant 0 <= k <= |movers|
        invariant Valid() && boardWidth == old(boardWidth) && round == old(round)
        invariant MoveState(board, pool) == MoveAll(boardWidth, snapshot, blankCells, movers, rolls, k)
      {
        ghost var before := MoveAll(boardWidth, snapshot, blankCells, movers, rolls, k);
        assert board == before.board && pool == before.pool;
        MoverHoldsAgent(boardWidth, snapshot, blankCells, movers, rolls, k);
        assert At(board, movers[k]) == At(snapshot, movers[k]);
        pool := MoveOne(movers[k], At(snapshot, movers[k]), pool, rolls(k));
        assert MoveAll(boardWidth, snapshot, blankCells, movers, rolls, k + 1)
          == Turn(boardWidth, before, movers[k], rolls(k));
        k := k + 1;
      }
    }

    /**
     * The body of the moving loop for one snapshot entry: if a blank cell is
     * left, the recorded agent is written into the cell the draw picks, its
     * source is blanked, the pick leaves the pool and the source joins it.
     */
    method MoveOne(src: Pos, agent: Cell, blankCells: seq<Pos>, roll: real) returns (pool: seq<Pos>)
      requires Valid() && InBounds(board, src) && agent == At(board, src) && 0.0 <= roll < 1.0
      requires forall k :: 0 <= k < |blankCells| ==> InBounds(board, blankCells[k])
      modifies this
      ensures Valid() && boardWidth == old(boardWidth) && round == old(round)
      ensures MoveState(board, pool) == Turn(boardWidth, MoveState(old(board), blankCells), src, roll)
    {
      pool := blankCells;
      if |pool| == 0 {
        return;
      }
      var idx := Pick(roll, |pool|);
      var dst := pool[idx];
      board := Set(board, dst, agent);
      board := Set(board, src, Empty);
      pool := RemoveAt(pool, idx) + [src];
    }

    /**
     * `doOneRound`: advance the round counter, let the agents the scan found
     * unsatisfied move (`RoundMoves`), and report the recount on the new
     * board. The simulation stops exactly when every agent is satisfied.
     */
    method DoOneRound(threshold: real, rolls: nat -> real) returns (summary: Summary)
      requires Valid()
      requires forall k: nat :: 0.0 <= rolls(k) < 1.0
      modifies this
      ensures Valid() && boardWidth == old(boardWidth)
      ensures round == old(round) + 1
      ensures board == RoundMoves(boardWidth, old(board), threshold, rolls).board
      ensures summary.totalAgents == |Selected(board, Agent)|
      ensures summary.numSatisfied == |Selected(board, Happy(threshold))|
      ensures summary.percent == SatisfiedPercent(summary.numSatisfied, summary.totalAgents)
      ensures summary.stop <==> summary.numSatisfied == summary.totalAgents
    {
      round := round + 1;
      var unsatisfied, blankCells := ScanBoard(board, boardWidth, threshold);
      SelectedExact(board, Unhappy(threshold));
      BlanksArePool(board);
      var pool := MoveUnsatisfied(unsatisfied, blankCells, rolls);
      var totalAgents, numSatisfied := Recount(board, boardWidth, threshold);
      summary := Summary(totalAgents, numSatisfied, SatisfiedPercent(numSatisfied, totalAgents),
                         numSatisfied == totalAgents);
    }
  }
}
