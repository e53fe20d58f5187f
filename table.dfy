/**
 * The table version of the engine (experimental-sociology/js/schelling.js):
 * the board is mirrored by table cells whose ids number the cells row-major
 * (`pos0`, `pos1`, ...), and the pools of agents and blank cells are lists of
 * such cells. A round keeps the list of agents it starts with and recounts
 * satisfaction over those same cells after the moves.
 */
module Table {
  import opened Board
  import opened Neighbourhood
  import opened Scan
  import opened Pool
  import opened Report

  /**
   * The id number of the table cell at `p`: `boardWidth * row + col`. With
   * the column inside the row, the row and the column can be read back from
   * the id.
   */
  function Encode(w: nat, p: Pos): (id: int)
    ensures 0 <= p.col < w ==> id / w == p.row && id % w == p.col
  {
    if 0 <= p.col < w then
      DivUnique(w, p.row, p.col);
      w * p.row + p.col
    else
      w * p.row + p.col
  }

  /**
   * The cell an id number names: `(floor(pos / w), pos % w)`. For an id of
   * the table the cell is on the board.
   */
  function Decode(w: nat, pos: int): (p: Pos)
    requires 0 <= pos < w * w
    ensures 0 <= p.row < w && 0 <= p.col < w
  {
    DivBound(w, pos);
    Pos(pos / w, pos % w)
  }

  lemma DivBound(w: nat, pos: int)
    requires 0 <= pos < w * w
    ensures w > 0 && 0 <= pos / w < w && w * (pos / w) + pos % w == pos
  {
  }

  /** Multiplying by `w` keeps order; the division proofs below need it spelled out. */
  lemma MulMono(w: nat, a: int, b: int)
    requires a <= b
    ensures w * a <= w * b
  {
  }

  /** Every id of the table names a cell that encodes back to it. */
  lemma EncodeDecode(w: nat, pos: int)
    requires 0 <= pos < w * w
    ensures Encode(w, Decode(w, pos)) == pos
  {
    DivBound(w, pos);
  }

  /** Euclidean division of `w * q + m` by `w`, for `0 <= m < w`, gives back `q` and `m`. */
  lemma DivUnique(w: nat, q: int, m: int)
    requires 0 <= m < w
    ensures (w * q + m) / w == q && (w * q + m) % w == m
  {
    var pos := w * q + m;
    var d := q - pos / w;
    assert pos == w * (pos / w) + pos % w && 0 <= pos % w < w;
    assert w * d == w * q - w * (pos / w);
    assert -(w as int) < w * d < w;
    if d >= 1 {
      MulMono(w, 1, d);
    } else if d <= -1 {
      MulMono(w, d, -1);
    }
  }

  /** Every cell of the board encodes to an id of the table, and decodes back. */
  lemma DecodeEncode(w: nat, p: Pos)
    requires 0 <= p.row < w && 0 <= p.col < w
    ensures 0 <= Encode(w, p) < w * w
    ensures Decode(w, Encode(w, p)) == p
  {
    MulMono(w, p.row, w - 1);
    assert w * (w - 1) == w * w - w;
    DivUnique(w, p.row, p.col);
  }

  /** The ids of a list of cells, in the same order. */
  function Ids(w: nat, ps: seq<Pos>): (ids: seq<int>)
    ensures |ids| == |ps|
    ensures forall k :: 0 <= k < |ps| ==> ids[k] == Encode(w, ps[k])
  {
    seq(|ps|, k requires 0 <= k < |ps| => Encode(w, ps[k]))
  }

  /** Every entry names a cell of the `w x w` table. */
  predicate ValidIds(w: nat, ids: seq<int>) {
    forall k :: 0 <= k < |ids| ==> 0 <= ids[k] < w * w
  }

  /** The cells a list of ids names, in the same order. */
  function Decoded(w: nat, ids: seq<int>): (ps: seq<Pos>)
    requires ValidIds(w, ids)
    ensures |ps| == |ids|
    ensures forall k :: 0 <= k < |ids| ==> ps[k] == Decode(w, ids[k])
  {
    seq(|ids|, k requires 0 <= k < |ids| => Decode(w, ids[k]))
  }

  /** The ids of cells on the board are ids of the table and decode back to those cells. */
  lemma IdsRoundTrip(w: nat, ps: seq<Pos>)
    requires forall k :: 0 <= k < |ps| ==> 0 <= ps[k].row < w && 0 <= ps[k].col < w
    ensures ValidIds(w, Ids(w, ps))
    ensures Decoded(w, Ids(w, ps)) == ps
  {
    forall k | 0 <= k < |ps|
      ensures 0 <= Ids(w, ps)[k] < w * w && Decode(w, Ids(w, ps)[k]) == ps[k]
    {
      DecodeEncode(w, ps[k]);
    }
  }

  /** The cell named by `id` holds an agent that is not satisfied (or is blank and fails the test). */
  predicate Unsettled(g: Grid, w: nat, threshold: real, id: int)
    requires IsSquare(g, w) && 0 <= id < w * w
  {
    var p := Decode(w, id);
    !Satisfied(g, p.row, p.col, g[p.row][p.col], threshold)
  }

  /**
   * `getUnsatisfiedAgents(ids)`: the ids, in order, whose cell fails
   * `isSatisfied` with whatever the board now holds there.
   */
  function UnsatisfiedIds(g: Grid, w: nat, threshold: real, ids: seq<int>): (r: seq<int>)
    requires IsSquare(g, w) && ValidIds(w, ids)
    ensures |r| <= |ids| && ValidIds(w, r)
  {
    if ids == [] then []
    else
      var last := ids[|ids| - 1];
      UnsatisfiedIds(g, w, threshold, ids[..|ids| - 1]) + (if Unsettled(g, w, threshold, last) then [last] else [])
  }

  /** The filter keeps exactly the listed ids whose cell is unsettled. */
  lemma {:induction false} UnsatisfiedIdsExact(g: Grid, w: nat, threshold: real, ids: seq<int>)
    requires IsSquare(g, w) && ValidIds(w, ids)
    ensures forall id :: id in UnsatisfiedIds(g, w, threshold, ids) <==> id in ids && Unsettled(g, w, threshold, id)
  {
    if ids != [] {
      var front := ids[..|ids| - 1];
      UnsatisfiedIdsExact(g, w, threshold, front);
      assert ids == front + [ids[|ids| - 1]];
    }
  }

  lemma {:induction false} UnsatisfiedIdsAppend(g: Grid, w: nat, threshold: real, a: seq<int>, b: seq<int>)
    requires IsSquare(g, w) && ValidIds(w, a) && ValidIds(w, b)
    ensures ValidIds(w, a + b)
    ensures UnsatisfiedIds(g, w, threshold, a + b)
      == UnsatisfiedIds(g, w, threshold, a) + UnsatisfiedIds(g, w, threshold, b)
  {
    if b != [] {
      var b' := b[..|b| - 1];
      UnsatisfiedIdsAppend(g, w, threshold, a, b');
      assert (a + b)[..|a + b| - 1] == a + b';
    } else {
      assert a + b == a;
    }
  }

  lemma IdsAppend(w: nat, a: seq<Pos>, b: seq<Pos>)
    ensures Ids(w, a + b) == Ids(w, a) + Ids(w, b)
  {
  }

  /** Filtering the ids of the cells `a` through `getUnsatisfiedAgents` gives the ids of the cells `ua`. */
  predicate FiltersTo(g: Grid, w: nat, threshold: real, a: seq<Pos>, ua: seq<Pos>) {
    IsSquare(g, w) && ValidIds(w, Ids(w, a)) && UnsatisfiedIds(g, w, threshold, Ids(w, a)) == Ids(w, ua)
  }

  /** Filtering two joined lists of cells' ids is joining the two filtered lists. */
  lemma UnsatisfiedJoin(g: Grid, w: nat, threshold: real, a: seq<Pos>, b: seq<Pos>, ua: seq<Pos>, ub: seq<Pos>)
    requires FiltersTo(g, w, threshold, a, ua) && FiltersTo(g, w, threshold, b, ub)
    ensures FiltersTo(g, w, threshold, a + b, ua + ub)
  {
    IdsAppend(w, a, b);
    IdsAppend(w, ua, ub);
    UnsatisfiedIdsAppend(g, w, threshold, Ids(w, a), Ids(w, b));
  }

  /** One cell: filtering its id (if it holds an agent) keeps it exactly when it holds an unsatisfied agent. */
  lemma UnsatisfiedCell(g: Grid, w: nat, threshold: real, p: Pos)
    requires IsSquare(g, w) && 0 <= p.row < w && 0 <= p.col < w
    ensures FiltersTo(g, w, threshold, if Keep(g, p, Agent) then [p] else [], if Keep(g, p, Unhappy(threshold)) then [p] else [])
  {
    DecodeEncode(w, p);
    var id := Encode(w, p);
    if Keep(g, p, Agent) {
      assert Ids(w, [p]) == [id];
      assert [id][..0] == [];
      assert UnsatisfiedIds(g, w, threshold, [id]) == if Unsettled(g, w, threshold, id) then [id] else [];
    } else {
      assert Ids(w, []) == [];
    }
  }

  lemma {:induction false} UnsatisfiedRow(g: Grid, w: nat, threshold: real, i: nat, c: nat)
    requires IsSquare(g, w) && i < w && c <= w
    ensures FiltersTo(g, w, threshold, SelectRow(g, Agent, i, c), SelectRow(g, Unhappy(threshold), i, c))
  {
    if c > 0 {
      var a, ua := SelectRow(g, Agent, i, c - 1), SelectRow(g, Unhappy(threshold), i, c - 1);
      UnsatisfiedRow(g, w, threshold, i, c - 1);
      assert FiltersTo(g, w, threshold, a, ua);
      var p := Pos(i, c - 1);
      var b, ub := if Keep(g, p, Agent) then [p] else [], if Keep(g, p, Unhappy(threshold)) then [p] else [];
      UnsatisfiedCell(g, w, threshold, p);
      assert FiltersTo(g, w, threshold, b, ub);
      UnsatisfiedJoin(g, w, threshold, a, b, ua, ub);
    } else {
      assert Ids(w, []) == [];
    }
  }

  lemma {:induction false} UnsatisfiedRows(g: Grid, w: nat, threshold: real, r: nat)
    requires IsSquare(g, w) && r <= w
    ensures FiltersTo(g, w, threshold, Select(g, Agent, r), Select(g, Unhappy(threshold), r))
  {
    if r > 0 {
      UnsatisfiedRows(g, w, threshold, r - 1);
      UnsatisfiedRow(g, w, threshold, r - 1, w);
      UnsatisfiedJoin(g, w, threshold, Select(g, Agent, r - 1), SelectRow(g, Agent, r - 1, w),
                      Select(g, Unhappy(threshold), r - 1), SelectRow(g, Unhappy(threshold), r - 1, w));
    } else {
      assert Ids(w, []) == [];
    }
  }

  /**
   * Before any move, filtering the agents' cells (`$('.blue').add('.red')`,
   * in document order) through `getUnsatisfiedAgents` yields exactly the
   * cells of the unsatisfied agents, in row-major order.
   */
  lemma UnsatisfiedOfAgents(g: Grid, w: nat, threshold: real)
    requires IsSquare(g, w)
    ensures ValidIds(w, Ids(w, Selected(g, Agent)))
    ensures UnsatisfiedIds(g, w, threshold, Ids(w, Selected(g, Agent))) == Ids(w, Selected(g, Unhappy(threshold)))
  {
    UnsatisfiedRows(g, w, threshold, w);
  }

  /**
   * On the board the agent list was taken from, `numSatisfied =
   * |allAgents| - |unsatisfied|` is the number of satisfied agents: the same
   * count the canvas version's recount makes.
   */
  lemma RecountAgrees(g: Grid, w: nat, threshold: real)
    requires IsSquare(g, w)
    ensures ValidIds(w, Ids(w, Selected(g, Agent)))
    ensures |Selected(g, Agent)| - |UnsatisfiedIds(g, w, threshold, Ids(w, Selected(g, Agent)))|
      == |Selected(g, Happy(threshold))|
  {
    UnsatisfiedOfAgents(g, w, threshold);
    AgentsPartition(g, threshold);
  }

  /** `percentSimilar(row, col, agent)`: loops over the absolute rows and columns of the window. */
  method PercentSimilar(g: Grid, w: nat, row: int, col: int, agent: Cell) returns (p: real)
    requires IsSquare(g, w)
    ensures p == Percent(Occupied(g, row, col, 9), Similar(g, row, col, agent, 9))
  {
    var occupied, similar := 0, 0;
    ghost var k := 0;
    var r := row - 1;
    while r <= row + 1
      invariant row - 1 <= r <= row + 2 && k == (r - row + 1) * 3
      invariant occupied == Occupied(g, row, col, k)
      invariant similar == Similar(g, row, col, agent, k)
    {
      var c := col - 1;
      while c <= col + 1
        invariant col - 1 <= c <= col + 2 && k == (r - row + 1) * 3 + c - col + 1
        invariant occupied == Occupied(g, row, col, k)
        invariant similar == Similar(g, row, col, agent, k)
      {
        occupied, similar := Visit(g, w, row, col, agent, r - row, c - col, occupied, similar);
        k := k + 1;
        c := c + 1;
      }
      r := r + 1;
    }
    if occupied == 0 {
      return 100.0;
    } else {
      return similar as real / occupied as real * 100.0;
    }
  }

  /** `isSatisfied(row, col, agent)`: `similar <= sim`, with the slider's value passed in. */
  method IsSatisfied(g: Grid, w: nat, row: int, col: int, agent: Cell, threshold: real) returns (b: bool)
    requires IsSquare(g, w)
    ensures b <==> Satisfied(g, row, col, agent, threshold)
  {
    var sim := PercentSimilar(g, w, row, col, agent);
    b := threshold <= sim;
  }

  /** `getUnsatisfiedAgents($allAgents)`: the filter, one cell at a time. */
  method GetUnsatisfiedAgents(g: Grid, w: nat, threshold: real, allAgents: seq<int>) returns (unsatisfied: seq<int>)
    requires IsSquare(g, w) && ValidIds(w, allAgents)
    ensures unsatisfied == UnsatisfiedIds(g, w, threshold, allAgents)
  {
    unsatisfied := [];
    var k := 0;
    while k < |allAgents|
      invariant 0 <= k <= |allAgents|
      invariant unsatisfied == UnsatisfiedIds(g, w, threshold, allAgents[..k])
    {
      var pos := allAgents[k];
      var row := pos / w;
      var col := pos % w;
      assert Pos(row, col) == Decode(w, pos);
      var ok := IsSatisfied(g, w, row, col, g[row][col], threshold);
      UnsatisfiedIdsStep(g, w, threshold, allAgents, k);
      if !ok {
        unsatisfied := unsatisfied + [pos];
      }
      k := k + 1;
    }
    assert allAgents[..k] == allAgents;
  }

  /** Filtering one more id of a list appends that id exactly when its cell is unsettled. */
  lemma UnsatisfiedIdsStep(g: Grid, w: nat, threshold: real, ids: seq<int>, k: nat)
    requires IsSquare(g, w) && ValidIds(w, ids) && k < |ids|
    ensures ValidIds(w, ids[..k]) && ValidIds(w, ids[..k + 1])
    ensures UnsatisfiedIds(g, w, threshold, ids[..k + 1])
      == UnsatisfiedIds(g, w, threshold, ids[..k]) + (if Unsettled(g, w, threshold, ids[k]) then [ids[k]] else [])
  {
    assert ids[..k + 1][..k] == ids[..k];
  }

  /** The engine's global state: the board, its width, the agent count of the last reset and the round counter. */
  class Engine {
    var board: Grid
    var boardWidth: nat
    var totalAgents: nat
    var round: nat

    ghost predicate Valid()
      reads this
    {
      IsSquare(board, boardWidth)
    }

    /** The state before the first reset: no board yet, no agents, round 0. */
    constructor ()
      ensures Valid() && board == [] && boardWidth == 0 && totalAgents == 0 && round == 0
    {
      board, boardWidth, totalAgents, round := [], 0, 0, 0;
    }

    /**
     * `resetClick`: a fresh `width x width` board whose every cell is decided
     * by its own draws, round 0, and `totalAgents` the number of agents placed.
     */
    method Reset(width: nat, emptyRatio: real, redRatio: real, draws: seq<seq<Draw>>)
      requires IsSquare(draws, width)
      modifies this
      ensures Valid() && boardWidth == width && round == 0
      ensures board == Filled(draws, emptyRatio, redRatio)
      ensures totalAgents == |Selected(board, Agent)|
    {
      boardWidth := width;
      round := 0;
      board := seq(width, _ => seq(width, _ => Empty));
      totalAgents := 0;
      FillBoard(emptyRatio, redRatio, draws);
    }

    /**
     * The nested loop of `resetClick` over a board of the right size: every
     * cell gets the value its draws decide, and `totalAgents` counts the
     * agents placed.
     */
    method FillBoard(emptyRatio: real, redRatio: real, draws: seq<seq<Draw>>)
      requires Valid() && IsSquare(draws, boardWidth) && totalAgents == 0
      modifies this
      ensures Valid() && boardWidth == old(boardWidth) && round == old(round)
      ensures board == Filled(draws, emptyRatio, redRatio)
      ensures totalAgents == |Selected(board, Agent)|
    {
      ghost var f := Filled(draws, emptyRatio, redRatio);
      var empty := 1.0 - emptyRatio;
      var r := 0;
      while r < boardWidth
        invariant 0 <= r <= boardWidth
        invariant Valid()
        invariant boardWidth == old(boardWidth) && round == old(round)
        invariant board[..r] == f[..r]
        invariant totalAgents == |Select(f, Agent, r)|
      {
        FillRow(r, empty, redRatio, draws, emptyRatio, f);
        SelectStep(f, Agent, r);
        r := r + 1;
      }
      assert board == board[..r] && f == f[..r];
    }

    /**
     * One pass of `resetClick`'s inner loop: row r of the board gets the
     * cells its draws decide (an agent when `occupy < empty`), the rows
     * above keep theirs, the rows below are untouched, and `totalAgents` grows by the agents placed in
     * row r.
     */
    method FillRow(r: nat, empty: real, redRatio: real, draws: seq<seq<Draw>>, ghost emptyRatio: real, ghost f: Grid)
      requires Valid() && r < boardWidth && IsSquare(draws, boardWidth)
      requires empty == 1.0 - emptyRatio && f == Filled(draws, emptyRatio, redRatio)
      requires board[..r] == f[..r]
      modifies this
      ensures Valid() && boardWidth == old(boardWidth) && round == old(round)
      ensures board[..r + 1] == f[..r + 1]
      ensures board[r + 1..] == old(board)[r + 1..]
      ensures totalAgents == old(totalAgents) + |SelectRow(f, Agent, r, boardWidth)|
    {
      var c := 0;
      while c < boardWidth
        invariant 0 <= c <= boardWidth
        invariant Valid()
        invariant boardWidth == old(boardWidth) && round == old(round)
        invariant board[..r] == f[..r]
        invariant board[r][..c] == f[r][..c]
        invariant board[r + 1..] == old(board)[r + 1..]
        invariant totalAgents == old(totalAgents) + |SelectRow(f, Agent, r, c)|
      {
        var val: Cell;
        if draws[r][c].occupy < empty {
          if draws[r][c].colour < redRatio {
            val := Red;
          } else {
            val := Blue;
          }
          totalAgents := totalAgents + 1;
        } else {
          val := Empty;
        }
        ghost var prev := board;
        board := Set(board, Pos(r, c), val);
        assert board[..r] == prev[..r];
        assert board[r + 1..] == prev[r + 1..];
        AgentCountStep(f, r, c);
        c := c + 1;
      }
      assert board[r] == board[r][..c] && f[r] == f[r][..c];
    }

    /**
     * `moveToRandom(row, col, $blankCells)`: with an empty pool the id of an
     * undefined cell is read and the call fails before anything changes;
     * otherwise the agent at (row, col) is written into the cell the draw
     * picks, its own cell is blanked, its id is pushed onto the pool and the
     * picked entry spliced out.
     */
    method MoveToRandom(row: int, col: int, blankCells: seq<int>, roll: real) returns (r: Result<seq<int>>)
      requires Valid() && 0 <= row < boardWidth && 0 <= col < boardWidth
      requires ValidIds(boardWidth, blankCells) && 0.0 <= roll < 1.0
      modifies this
      ensures Valid() && boardWidth == old(boardWidth) && totalAgents == old(totalAgents) && round == old(round)
      ensures r.Err? <==> blankCells == []
      ensures r.Err? ==> r.error == EmptyPool && board == old(board)
      ensures r.Ok? ==>
        && ValidIds(boardWidth, r.value)
        && MoveState(board, Decoded(boardWidth, r.value))
           == Turn(boardWidth, MoveState(old(board), Decoded(boardWidth, blankCells)), Pos(row, col), roll)
    {
      var agent := board[row][col];
      var numCells := |blankCells|;
      if numCells == 0 {
        return Err(EmptyPool);
      }
      var rand := Pick(roll, numCells);
      var toCell := blankCells[rand];
      var dest := Decode(boardWidth, toCell);
      board := Set(board, dest, agent);
      board := Set(board, Pos(row, col), Empty);
      var newPos := boardWidth * row + col;
      var pool := blankCells + [newPos];
      pool := RemoveAt(pool, rand);
      PoolIdsStep(boardWidth, blankCells, rand, Pos(row, col));
      r := Ok(pool);
    }

    /**
     * Step 2 of `doOneRound` (`$unsatisfied.each(...)`): each listed agent in
     * turn goes through `moveToRandom`; the first call on an empty pool fails
     * the round. Board and pool end as `MoveAll` says for the cells the ids
     * name.
     */
    method MoveUnsatisfied(movers: seq<int>, blankCells: seq<int>, rolls: nat -> real) returns (r: Result<seq<int>>)
      requires Valid() && ValidIds(boardWidth, movers) && ValidIds(boardWidth, blankCells)
      requires forall k: nat :: 0.0 <= rolls(k) < 1.0
      modifies this
      ensures Valid() && boardWidth == old(boardWidth) && totalAgents == old(totalAgents) && round == old(round)
      ensures r.Err? <==> blankCells == [] && movers != []
      ensures r.Err? ==> r.error == EmptyPool
      ensures var s := MoveAll(boardWidth, old(board), Decoded(boardWidth, blankCells), Decoded(boardWidth, movers),
                               rolls, |movers|);
        && board == s.board
        && (r.Ok? ==> ValidIds(boardWidth, r.value) && Decoded(boardWidth, r.value) == s.pool)
    {
      ghost var snapshot := board;
      assert MoveArgs(boardWidth, snapshot, Decoded(boardWidth, blankCells), Decoded(boardWidth, movers), rolls);
      var pool := blankCells;
      var k := 0;
      while k < |movers|
        invariant 0 <= k <= |movers|
        invariant Valid() && boardWidth == old(boardWidth) && totalAgents == old(totalAgents) && round == old(round)
        invariant |pool| == |blankCells|
        invariant k > 0 ==> |pool| > 0
        invariant MovedSoFar(boardWidth, snapshot, blankCells, movers, rolls, k, board, pool)
      {
        var res := MoveListed(movers, k, pool, rolls, snapshot, blankCells);
        if res.Err? {
          return Err(res.error);
        }
        pool := res.value;
        k := k + 1;
      }
      r := Ok(pool);
    }

    /**
     * The callback `$unsatisfied.each` runs on entry `index` of the list:
     * the id is turned into a row and a column and the agent there goes
     * through `moveToRandom`. Board and pool go from the state `MoveAll`
     * gives after `index` entries to the state it gives after one more.
     */
    method MoveListed(movers: seq<int>, index: nat, pool: seq<int>, rolls: nat -> real, ghost snapshot: Grid,
                      ghost blankCells: seq<int>) returns (res: Result<seq<int>>)
      requires Valid() && index < |movers|
      requires MovedSoFar(boardWidth, snapshot, blankCells, movers, rolls, index, board, pool)
      modifies this
      ensures Valid() && boardWidth == old(boardWidth) && totalAgents == old(totalAgents) && round == old(round)
      ensures res.Err? <==> pool == []
      ensures res.Err? ==> res.error == EmptyPool && board == old(board)
      ensures res.Ok? ==>
        |res.value| == |pool| && MovedSoFar(boardWidth, snapshot, blankCells, movers, rolls, index + 1, board, res.value)
    {
      ghost var cells, who := Decoded(boardWidth, blankCells), Decoded(boardWidth, movers);
      ghost var before := MoveAll(boardWidth, snapshot, cells, who, rolls, index);
      var pos := movers[index];
      var row := pos / boardWidth;
      var col := pos % boardWidth;
      assert Pos(row, col) == who[index];
      res := MoveToRandom(row, col, pool, rolls(index));
      assert MoveAll(boardWidth, snapshot, cells, who, rolls, index + 1) == Turn(boardWidth, before, who[index], rolls(index));
    }

    /**
     * `doOneRound`: advance the round counter, list the agents' cells and the
     * unsatisfied among them, move those (failing on an empty pool), then
     * recount over the cells listed at the start. The simulation stops when
     * that count covers every listed cell.
     */
    method DoOneRound(threshold: real, rolls: nat -> real) returns (r: Result<Summary>)
      requires Valid()
      requires forall k: nat :: 0.0 <= rolls(k) < 1.0
      modifies this
      ensures Valid() && boardWidth == old(boardWidth) && totalAgents == old(totalAgents)
      ensures round == old(round) + 1
      ensures r.Err? <==> Selected(old(board), Blank) == [] && Selected(old(board), Unhappy(threshold)) != []
      ensures r.Err? ==> r.error == EmptyPool
      ensures board == RoundMoves(boardWidth, old(board), threshold, rolls).board
      ensures ValidIds(boardWidth, Ids(boardWidth, Selected(old(board), Agent)))
      ensures r.Ok? ==>
        var agents := Ids(boardWidth, Selected(old(board), Agent));
        && r.value.totalAgents == |agents|
        && r.value.numSatisfied == |agents| - |UnsatisfiedIds(board, boardWidth, threshold, agents)|
        && r.value.percent == SatisfiedPercent(r.value.numSatisfied, r.value.totalAgents)
        && (r.value.stop <==> r.value.numSatisfied == r.value.totalAgents)
    {
      round := round + 1;
      ghost var g := board;
      RoundIds(g, boardWidth, threshold);
      var allAgents := Ids(boardWidth, Selected(board, Agent));
      var unsatisfied := GetUnsatisfiedAgents(board, boardWidth, threshold, allAgents);
      var blankCells := Ids(boardWidth, Selected(board, Blank));
      var moved := MoveUnsatisfied(unsatisfied, blankCells, rolls);
      assert board == RoundMoves(boardWidth, g, threshold, rolls).board;
      if moved.Err? {
        return Err(moved.error);
      }
      unsatisfied := GetUnsatisfiedAgents(board, boardWidth, threshold, allAgents);
      var numSatisfied := |allAgents| - |unsatisfied|;
      var percSatisfied := SatisfiedPercent(numSatisfied, |allAgents|);
      r := Ok(Summary(|allAgents|, numSatisfied, percSatisfied, numSatisfied == |allAgents|));
    }

    /**
     * `doOneRound` with the recount taken over the agents on the board after
     * the moves (`$('.blue').add('.red')` queried again): the counts are
     * those of the current board, as in the canvas version.
     */
    method DoOneRoundRescanned(threshold: real, rolls: nat -> real) returns (r: Result<Summary>)
      requires Valid()
      requires forall k: nat :: 0.0 <= rolls(k) < 1.0
      modifies this
      ensures Valid() && boardWidth == old(boardWidth) && totalAgents == old(totalAgents)
      ensures round == old(round) + 1
      ensures r.Err? <==> Selected(old(board), Blank) == [] && Selected(old(board), Unhappy(threshold)) != []
      ensures r.Err? ==> r.error == EmptyPool
      ensures board == RoundMoves(boardWidth, old(board), threshold, rolls).board
      ensures r.Ok? ==>
        && r.value.totalAgents == |Selected(board, Agent)|
        && r.value.numSatisfied == |Selected(board, Happy(threshold))|
        && r.value.percent == SatisfiedPercent(r.value.numSatisfied, r.value.totalAgents)
        && (r.value.stop <==> r.value.numSatisfied == r.value.totalAgents)
    {
      round := round + 1;
      ghost var g := board;
      RoundIds(g, boardWidth, threshold);
      var allAgents := Ids(boardWidth, Selected(board, Agent));
      var unsatisfied := GetUnsatisfiedAgents(board, boardWidth, threshold, allAgents);
      var blankCells := Ids(boardWidth, Selected(board, Blank));
      var moved := MoveUnsatisfied(unsatisfied, blankCells, rolls);
      assert board == RoundMoves(boardWidth, g, threshold, rolls).board;
      if moved.Err? {
        return Err(moved.error);
      }
      RecountAgrees(board, boardWidth, threshold);
      var agentsNow := Ids(boardWidth, Selected(board, Agent));
      unsatisfied := GetUnsatisfiedAgents(board, boardWidth, threshold, agentsNow);
      var numSatisfied := |agentsNow| - |unsatisfied|;
      var percSatisfied := SatisfiedPercent(numSatisfied, |agentsNow|);
      r := Ok(Summary(|agentsNow|, numSatisfied, percSatisfied, numSatisfied == |agentsNow|));
    }
  }

  /**
   * After the first k listed agents have gone through `moveToRandom`, the
   * board and the cells the pool's ids name are the state `MoveAll` gives
   * after k moves of the cells the ids name.
   */
  ghost predicate MovedSoFar(w: nat, snapshot: Grid, blankCells: seq<int>, movers: seq<int>, rolls: nat -> real,
                             k: nat, board: Grid, pool: seq<int>) {
    && ValidIds(w, blankCells) && ValidIds(w, movers) && ValidIds(w, pool) && k <= |movers|
    && MoveArgs(w, snapshot, Decoded(w, blankCells), Decoded(w, movers), rolls)
    && MoveState(board, Decoded(w, pool)) == MoveAll(w, snapshot, Decoded(w, blankCells), Decoded(w, movers), rolls, k)
  }

  /**
   * The id lists a round starts from: the agents' and the blank cells' ids
   * are ids of the table, filtering the agents' ids gives the ids of the
   * unsatisfied agents, and the blank and unsatisfied ids name those cells.
   */
  lemma RoundIds(g: Grid, w: nat, threshold: real)
    requires IsSquare(g, w)
    ensures ValidIds(w, Ids(w, Selected(g, Agent))) && ValidIds(w, Ids(w, Selected(g, Blank)))
    ensures UnsatisfiedIds(g, w, threshold, Ids(w, Selected(g, Agent))) == Ids(w, Selected(g, Unhappy(threshold)))
    ensures Decoded(w, Ids(w, Selected(g, Blank))) == Selected(g, Blank)
    ensures Decoded(w, Ids(w, Selected(g, Unhappy(threshold)))) == Selected(g, Unhappy(threshold))
  {
    UnsatisfiedOfAgents(g, w, threshold);
    SelectedOnBoard(g, w, Blank);
    SelectedOnBoard(g, w, Unhappy(threshold));
    IdsRoundTrip(w, Selected(g, Blank));
    IdsRoundTrip(w, Selected(g, Unhappy(threshold)));
  }

  lemma SelectedOnBoard(g: Grid, w: nat, sel: Selector)
    requires IsSquare(g, w)
    ensures forall k :: 0 <= k < |Selected(g, sel)| ==> 0 <= Selected(g, sel)[k].row < w && 0 <= Selected(g, sel)[k].col < w
  {
    var ps := Selected(g, sel);
    SelectedExact(g, sel);
    forall k | 0 <= k < |ps|
      ensures 0 <= ps[k].row < w && 0 <= ps[k].col < w
    {
      assert ps[k] in ps;
      assert InBounds(g, ps[k]);
    }
  }

  lemma SelectStep(g: Grid, sel: Selector, r: nat)
    requires r < |g|
    ensures |Select(g, sel, r + 1)| == |Select(g, sel, r)| + |SelectRow(g, sel, r, |g[r]|)|
  {
  }

  /** Filling cell (r, c) adds one to the agent count exactly when the cell gets an agent. */
  lemma AgentCountStep(f: Grid, r: nat, c: nat)
    requires r < |f| && c < |f[r]|
    ensures |SelectRow(f, Agent, r, c + 1)| == |SelectRow(f, Agent, r, c)| + (if f[r][c] != Empty then 1 else 0)
  {
  }

  /** Push-then-splice on ids is splice-then-append on the cells they name. */
  lemma PoolIdsStep(w: nat, ids: seq<int>, i: int, src: Pos)
    requires ValidIds(w, ids) && 0 <= i < |ids| && 0 <= src.row < w && 0 <= src.col < w
    ensures ValidIds(w, RemoveAt(ids + [Encode(w, src)], i))
    ensures Decoded(w, RemoveAt(ids + [Encode(w, src)], i)) == RemoveAt(Decoded(w, ids), i) + [src]
  {
    DecodeEncode(w, src);
    var a := RemoveAt(ids + [Encode(w, src)], i);
    var b := RemoveAt(Decoded(w, ids), i) + [src];
    assert |Decoded(w, a)| == |b|;
    forall k | 0 <= k < |b|
      ensures Decoded(w, a)[k] == b[k]
    {
      if k < i {
      } else if k < |ids| - 1 {
        assert a[k] == ids[k + 1];
      } else {
        assert a[k] == Encode(w, src);
      }
    }
  }
  /** The board of the stale-recount example: a red and a blue agent side by side in the top row. */
  const StartBoard: Grid := [[Red, Blue, Empty], [Empty, Empty, Empty], [Empty, Empty, Empty]]

  /** The same two agents after both moved to the bottom row. */
  const EndBoard: Grid := [[Empty, Empty, Empty], [Empty, Empty, Empty], [Red, Blue, Empty]]

  /** On `StartBoard` the red agent's only occupied neighbour is the blue one. */
  lemma StartRed()
    ensures Occupied(StartBoard, 0, 0, 9) == 1 && Similar(StartBoard, 0, 0, Red, 9) == 0
  {
    assert Occupied(StartBoard, 0, 0, 3) == 0 && Similar(StartBoard, 0, 0, Red, 3) == 0;
    assert Occupied(StartBoard, 0, 0, 6) == 1 && Similar(StartBoard, 0, 0, Red, 6) == 0;
  }

  /** On `StartBoard` the blue agent's only occupied neighbour is the red one. */
  lemma StartBlue()
    ensures Occupied(StartBoard, 0, 1, 9) == 1 && Similar(StartBoard, 0, 1, Blue, 9) == 0
  {
    assert Occupied(StartBoard, 0, 1, 3) == 0 && Similar(StartBoard, 0, 1, Blue, 3) == 0;
    assert Occupied(StartBoard, 0, 1, 6) == 1 && Similar(StartBoard, 0, 1, Blue, 6) == 0;
  }

  /** On `EndBoard` the red agent's only occupied neighbour is the blue one. */
  lemma EndRed()
    ensures Occupied(EndBoard, 2, 0, 9) == 1 && Similar(EndBoard, 2, 0, Red, 9) == 0
  {
    assert Occupied(EndBoard, 2, 0, 3) == 0 && Similar(EndBoard, 2, 0, Red, 3) == 0;
    assert Occupied(EndBoard, 2, 0, 6) == 1 && Similar(EndBoard, 2, 0, Red, 6) == 0;
  }

  /** On `EndBoard` the blue agent's only occupied neighbour is the red one. */
  lemma EndBlue()
    ensures Occupied(EndBoard, 2, 1, 9) == 1 && Similar(EndBoard, 2, 1, Blue, 9) == 0
  {
    assert Occupied(EndBoard, 2, 1, 3) == 0 && Similar(EndBoard, 2, 1, Blue, 3) == 0;
    assert Occupied(EndBoard, 2, 1, 6) == 1 && Similar(EndBoard, 2, 1, Blue, 6) == 0;
  }

  /** On `EndBoard` the two top-left cells have no occupied neighbour. */
  lemma EndTopAlone()
    ensures Occupied(EndBoard, 0, 0, 9) == 0 && Occupied(EndBoard, 0, 1, 9) == 0
  {
    assert Occupied(EndBoard, 0, 0, 5) == 0 && Occupied(EndBoard, 0, 1, 5) == 0;
  }

  /** The agents of `StartBoard` are the first two cells of the top row, ids 0 and 1. */
  lemma StartAgents()
    ensures Selected(StartBoard, Agent) == [Pos(0, 0), Pos(0, 1)]
    ensures Ids(3, Selected(StartBoard, Agent)) == [0, 1]
  {
    assert Ids(3, [Pos(0, 0), Pos(0, 1)]) == [0, 1];
  }

  /** Both agents of `StartBoard` are unsatisfied at 50%. */
  lemma StartUnhappy()
    ensures Selected(StartBoard, Unhappy(50.0)) == [Pos(0, 0), Pos(0, 1)]
  {
    StartRed();
    StartBlue();
    assert !Satisfied(StartBoard, 0, 0, Red, 50.0) && !Satisfied(StartBoard, 0, 1, Blue, 50.0);
    assert SelectRow(StartBoard, Unhappy(50.0), 0, 3) == [Pos(0, 0), Pos(0, 1)];
    assert SelectRow(StartBoard, Unhappy(50.0), 1, 3) == [];
    assert SelectRow(StartBoard, Unhappy(50.0), 2, 3) == [];
  }

  /** The blank cells of `StartBoard`, in row-major order. */
  lemma StartBlanks()
    ensures Selected(StartBoard, Blank) == [Pos(0, 2), Pos(1, 0), Pos(1, 1), Pos(1, 2), Pos(2, 0), Pos(2, 1), Pos(2, 2)]
  {
    assert SelectRow(StartBoard, Blank, 1, 3) == [Pos(1, 0), Pos(1, 1), Pos(1, 2)];
    assert SelectRow(StartBoard, Blank, 2, 3) == [Pos(2, 0), Pos(2, 1), Pos(2, 2)];
  }

  /** A draw of 0.6 picks entry 4 of a pool of seven. */
  lemma PickFour()
    ensures Pick(0.6, 7) == 4
  {
    assert 4.0 <= 0.6 * 7.0 < 5.0;
  }

  /** The red agent moves first, to entry 4 of the pool, (2, 0); its cell joins the end of the pool. */
  lemma FirstMove()
    ensures Turn(3, MoveState(StartBoard, [Pos(0, 2), Pos(1, 0), Pos(1, 1), Pos(1, 2), Pos(2, 0), Pos(2, 1), Pos(2, 2)]), Pos(0, 0), 0.6)
      == MoveState([[Empty, Blue, Empty], [Empty, Empty, Empty], [Red, Empty, Empty]],
                   [Pos(0, 2), Pos(1, 0), Pos(1, 1), Pos(1, 2), Pos(2, 1), Pos(2, 2), Pos(0, 0)])
  {
    PickFour();
    var pool := [Pos(0, 2), Pos(1, 0), Pos(1, 1), Pos(1, 2), Pos(2, 0), Pos(2, 1), Pos(2, 2)];
    assert RemoveAt(pool, 4) == [Pos(0, 2), Pos(1, 0), Pos(1, 1), Pos(1, 2), Pos(2, 1), Pos(2, 2)];
    var h := Moved(StartBoard, Pos(0, 0), Pos(2, 0));
    assert h[0] == [Empty, Blue, Empty] && h[1] == [Empty, Empty, Empty] && h[2] == [Red, Empty, Empty];
  }

  /** The blue agent moves next, to entry 4 of the new pool, (2, 1). */
  lemma SecondMove()
    ensures Turn(3, MoveState([[Empty, Blue, Empty], [Empty, Empty, Empty], [Red, Empty, Empty]],
                              [Pos(0, 2), Pos(1, 0), Pos(1, 1), Pos(1, 2), Pos(2, 1), Pos(2, 2), Pos(0, 0)]), Pos(0, 1), 0.6).board
      == EndBoard
  {
    PickFour();
    var h := Moved([[Empty, Blue, Empty], [Empty, Empty, Empty], [Red, Empty, Empty]], Pos(0, 1), Pos(2, 1));
    assert h[0] == [Empty, Empty, Empty] && h[1] == [Empty, Empty, Empty] && h[2] == [Red, Blue, Empty];
  }

  /** A round with two movers is their two turns, in scan order, from the scanned pool. */
  lemma RoundOfTwo(w: nat, g: Grid, threshold: real, rolls: nat -> real, a: Pos, b: Pos)
    requires IsSquare(g, w) && forall k: nat :: 0.0 <= rolls(k) < 1.0
    requires Selected(g, Unhappy(threshold)) == [a, b]
    ensures InBounds(g, a) && InBounds(g, b) && forall k :: 0 <= k < |Selected(g, Blank)| ==> InBounds(g, Selected(g, Blank)[k])
    ensures var s1 := Turn(w, MoveState(g, Selected(g, Blank)), a, rolls(0));
      && InBounds(s1.board, b)
      && RoundMoves(w, g, threshold, rolls) == Turn(w, s1, b, rolls(1))
  {
    SelectedExact(g, Blank);
    SelectedExact(g, Unhappy(threshold));
    assert a in Selected(g, Unhappy(threshold)) && b in Selected(g, Unhappy(threshold));
    var pool, movers := Selected(g, Blank), [a, b];
    assert MoveAll(w, g, pool, movers, rolls, 1) == Turn(w, MoveState(g, pool), a, rolls(0));
  }

  /** With every draw 0.6, the red agent lands on (2, 0) and the blue agent on (2, 1). */
  lemma StartMoves(rolls: nat -> real)
    requires forall k: nat :: rolls(k) == 0.6
    ensures forall k: nat :: 0.0 <= rolls(k) < 1.0
    ensures RoundMoves(3, StartBoard, 50.0, rolls).board == EndBoard
  {
    StartUnhappy();
    StartBlanks();
    RoundOfTwo(3, StartBoard, 50.0, rolls, Pos(0, 0), Pos(0, 1));
    assert rolls(0) == 0.6 && rolls(1) == 0.6;
    FirstMove();
    SecondMove();
  }

  /**
   * The table version recounts over the cells that held agents before the
   * move: on `StartBoard` those are ids 0 and 1 (`StartAgents`), and after
   * the round they are the two blank cells of `EndBoard`'s top row
   * (`StartMoves`). With no occupied neighbour each counts as settled, so
   * the filter drops both ids and the round reports 2 of 2 agents
   * satisfied, and stops, while neither agent is (`EndUnhappy`).
   */
  lemma StaleRecount()
    ensures UnsatisfiedIds(EndBoard, 3, 50.0, [0, 1]) == []
  {
    EndTopAlone();
    assert Decode(3, 0) == Pos(0, 0) && Decode(3, 1) == Pos(0, 1);
    assert !Unsettled(EndBoard, 3, 50.0, 0) && !Unsettled(EndBoard, 3, 50.0, 1);
    assert [0, 1][..1] == [0] && [0][..0] == [];
  }

  /** On `EndBoard` neither agent is satisfied. */
  lemma EndUnhappy()
    ensures Selected(EndBoard, Happy(50.0)) == []
  {
    EndRed();
    EndBlue();
    assert Satisfied(EndBoard, 2, 0, Red, 50.0) == false && Satisfied(EndBoard, 2, 1, Blue, 50.0) == false;
    assert SelectRow(EndBoard, Happy(50.0), 2, 3) == [];
  }
}
