/**
 * The pool of blank cells a round keeps beside the board, and the one move
 * both versions make with it: an agent goes to the chosen blank cell, its own
 * cell becomes blank, the destination leaves the pool and the vacated cell
 * joins it.
 */
module Pool {
  import opened Board
  import opened Scan
  import opened Report

  /** The pool lists exactly the blank cells of the board, each once. */
  ghost predicate PoolExact(g: Grid, pool: seq<Pos>) {
    && (forall k :: 0 <= k < |pool| ==> InBounds(g, pool[k]) && At(g, pool[k]) == Empty)
    && (forall p :: InBounds(g, p) && At(g, p) == Empty ==> p in pool)
    && Distinct(pool)
  }

  /** `s.splice(i, 1)`: `s` without its i-th entry. */
  function RemoveAt<T>(s: seq<T>, i: int): (r: seq<T>)
    requires 0 <= i < |s|
    ensures |r| == |s| - 1
    ensures forall k :: 0 <= k < i ==> r[k] == s[k]
    ensures forall k :: i <= k < |r| ==> r[k] == s[k + 1]
  {
    s[..i] + s[i + 1..]
  }

  /**
   * The board after an agent at `src` moves to `dst`: the agent is written
   * first, then its source blanked. The agent ends at `dst`, `src` ends
   * blank, and every other cell keeps what it held.
   */
  function Moved(g: Grid, src: Pos, dst: Pos): (h: Grid)
    requires InBounds(g, src) && InBounds(g, dst)
    ensures |h| == |g| && forall i :: 0 <= i < |g| ==> |h[i]| == |g[i]|
    ensures At(h, src) == Empty
    ensures src != dst ==> At(h, dst) == At(g, src)
    ensures forall q :: InBounds(g, q) && q != src && q != dst ==> At(h, q) == At(g, q)
  {
    Set(Set(g, dst, At(g, src)), src, Empty)
  }

  /** The blank cells found by a scan form an exact pool. */
  lemma BlanksArePool(g: Grid)
    ensures PoolExact(g, Selected(g, Blank))
  {
    SelectedExact(g, Blank);
  }

  /**
   * One move keeps the pool exact, keeps its length, and keeps how many
   * cells hold 'R', 'B' and ' ': the agent lands on the chosen blank cell, its
   * source becomes blank, and no other cell changes.
   */
  lemma MoveStep(g: Grid, pool: seq<Pos>, i: int, src: Pos)
    requires PoolExact(g, pool) && 0 <= i < |pool|
    requires InBounds(g, src) && At(g, src) != Empty
    ensures var h := Moved(g, src, pool[i]);
      && PoolExact(h, RemoveAt(pool, i) + [src])
      && |RemoveAt(pool, i) + [src]| == |pool|
      && Census(h) == Census(g)
      && At(h, pool[i]) == At(g, src) && At(h, src) == Empty
      && (forall q :: InBounds(g, q) && q != src && q != pool[i] ==> At(h, q) == At(g, q))
  {
    MovePool(g, pool, i, src);
    MoveCensus(g, src, pool[i]);
  }

  /** Moving an agent onto a blank cell keeps the census. */
  lemma MoveCensus(g: Grid, src: Pos, dst: Pos)
    requires InBounds(g, src) && InBounds(g, dst)
    requires At(g, src) != Empty && At(g, dst) == Empty
    ensures Census(Moved(g, src, dst)) == Census(g)
  {
    var a := At(g, src);
    var mid := Set(g, dst, a);
    CensusSet(g, dst, a);
    assert At(mid, src) == a;
    CensusSet(mid, src, Empty);
  }

  lemma MovePool(g: Grid, pool: seq<Pos>, i: int, src: Pos)
    requires PoolExact(g, pool) && 0 <= i < |pool|
    requires InBounds(g, src) && At(g, src) != Empty
    ensures PoolExact(Moved(g, src, pool[i]), RemoveAt(pool, i) + [src])
  {
    var dst := pool[i];
    var h := Moved(g, src, dst);
    assert src != dst;
    var rest := RemoveAt(pool, i);
    forall k | 0 <= k < |rest|
      ensures InBounds(h, rest[k]) && At(h, rest[k]) == Empty
    {
      if k < i { assert rest[k] == pool[k]; } else { assert rest[k] == pool[k + 1]; }
    }
    forall p | InBounds(h, p) && At(h, p) == Empty
      ensures p in rest + [src]
    {
      if p != src {
        assert p != dst;
        assert p in pool;
        var k :| 0 <= k < |pool| && pool[k] == p;
        if k < i { assert rest[k] == p; } else { assert rest[k - 1] == p; }
      }
    }
    assert Distinct(rest) by {
      forall x, y | 0 <= x < y < |rest| ensures rest[x] != rest[y] {
        var x' := if x < i then x else x + 1;
        var y' := if y < i then y else y + 1;
        assert rest[x] == pool[x'] && rest[y] == pool[y'];
      }
    }
    DistinctAppend(rest, [src]);
  }

  /** The board and the pool part-way through a round's moving loop. */
  datatype MoveState = MoveState(board: Grid, pool: seq<Pos>)

  /**
   * One mover's turn: with a non-empty pool, the agent at `src` takes the
   * blank cell its draw picks, the pick leaves the pool and `src` joins it at
   * the end; with an empty pool nothing happens.
   */
  function Turn(w: nat, s: MoveState, src: Pos, roll: real): (t: MoveState)
    requires IsSquare(s.board, w) && InBounds(s.board, src) && 0.0 <= roll < 1.0
    requires forall k :: 0 <= k < |s.pool| ==> InBounds(s.board, s.pool[k])
    ensures IsSquare(t.board, w) && |t.pool| == |s.pool|
    ensures forall k :: 0 <= k < |t.pool| ==> InBounds(t.board, t.pool[k])
    ensures s.pool == [] ==> t == s
  {
    if |s.pool| == 0 then s
    else
      var i := Pick(roll, |s.pool|);
      MoveState(Moved(s.board, src, s.pool[i]), RemoveAt(s.pool, i) + [src])
  }

  /** The start of a moving loop: a square board, movers and pool on it, and draws in [0, 1). */
  ghost predicate MoveArgs(w: nat, g: Grid, pool: seq<Pos>, movers: seq<Pos>, rolls: nat -> real) {
    && IsSquare(g, w)
    && (forall k :: 0 <= k < |movers| ==> InBounds(g, movers[k]))
    && (forall k :: 0 <= k < |pool| ==> InBounds(g, pool[k]))
    && (forall k: nat :: 0.0 <= rolls(k) < 1.0)
  }

  /** The board and pool after the first n movers have had their turn. */
  function MoveAll(w: nat, g: Grid, pool: seq<Pos>, movers: seq<Pos>, rolls: nat -> real, n: nat): (s: MoveState)
    requires MoveArgs(w, g, pool, movers, rolls) && n <= |movers|
    ensures IsSquare(s.board, w) && |s.pool| == |pool|
    ensures forall k :: 0 <= k < |s.pool| ==> InBounds(s.board, s.pool[k])
    ensures forall k :: 0 <= k < |movers| ==> InBounds(s.board, movers[k])
    ensures pool == [] ==> s == MoveState(g, pool)
  {
    if n == 0 then MoveState(g, pool)
    else Turn(w, MoveAll(w, g, pool, movers, rolls, n - 1), movers[n - 1], rolls(n - 1))
  }

  /**
   * What holds of the state `s` reached after n turns from board `g`: the
   * pool is exactly the blank cells, the census is that of `g`, the movers
   * still to come still hold their agents, and no agent outside `movers` has
   * moved.
   */
  ghost predicate Kept(w: nat, g: Grid, movers: seq<Pos>, n: nat, s: MoveState) {
    && PoolExact(s.board, s.pool)
    && Census(s.board) == Census(g)
    && (forall j :: n <= j < |movers| && InBounds(g, movers[j]) && InBounds(s.board, movers[j]) ==>
          At(s.board, movers[j]) == At(g, movers[j]))
    && (forall p :: InBounds(g, p) && InBounds(s.board, p) && At(g, p) != Empty && p !in movers ==>
          At(s.board, p) == At(g, p))
  }

  /**
   * The moving loop keeps `Kept` turn after turn when the movers are distinct
   * agents and the pool starts exact.
   */
  lemma {:induction false} MoveAllKeeps(w: nat, g: Grid, pool: seq<Pos>, movers: seq<Pos>, rolls: nat -> real, n: nat)
    requires MoveReady(w, g, pool, movers, rolls) && n <= |movers|
    ensures Kept(w, g, movers, n, MoveAll(w, g, pool, movers, rolls, n))
  {
    if n == 0 {
      assert MoveAll(w, g, pool, movers, rolls, n) == MoveState(g, pool);
    } else {
      MoveAllKeeps(w, g, pool, movers, rolls, n - 1);
      ghost var prev := MoveAll(w, g, pool, movers, rolls, n - 1);
      assert Kept(w, g, movers, n - 1, prev);
      KeptStep(w, g, pool, movers, rolls, n, prev);
    }
  }

  /** One more turn of the moving loop takes `Kept` from n - 1 turns to n. */
  lemma KeptStep(w: nat, g: Grid, pool: seq<Pos>, movers: seq<Pos>, rolls: nat -> real, n: nat, prev: MoveState)
    requires MoveReady(w, g, pool, movers, rolls) && 0 < n <= |movers|
    requires prev == MoveAll(w, g, pool, movers, rolls, n - 1)
    requires Kept(w, g, movers, n - 1, prev)
    ensures Kept(w, g, movers, n, MoveAll(w, g, pool, movers, rolls, n))
  {
    assert IsSquare(prev.board, w);
    assert forall j :: 0 <= j < |movers| ==> InBounds(prev.board, movers[j]);
    assert forall j :: 0 <= j < |prev.pool| ==> InBounds(prev.board, prev.pool[j]);
    assert 0.0 <= rolls(n - 1) < 1.0;
    TurnKeeps(w, g, movers, n, prev, rolls(n - 1));
  }

  /** The n-th turn (counting from 1) takes `Kept` from n - 1 turns to n. */
  lemma TurnKeeps(w: nat, g: Grid, movers: seq<Pos>, n: nat, s: MoveState, roll: real)
    requires 0 < n <= |movers| && Distinct(movers) && 0.0 <= roll < 1.0
    requires IsSquare(g, w) && IsSquare(s.board, w)
    requires forall j :: 0 <= j < |movers| ==>
      InBounds(g, movers[j]) && InBounds(s.board, movers[j]) && At(g, movers[j]) != Empty
    requires forall j :: 0 <= j < |s.pool| ==> InBounds(s.board, s.pool[j])
    requires Kept(w, g, movers, n - 1, s)
    ensures Kept(w, g, movers, n, Turn(w, s, movers[n - 1], roll))
  {
    if |s.pool| > 0 {
      var i := Pick(roll, |s.pool|);
      var src, dst := movers[n - 1], s.pool[i];
      MoveStep(s.board, s.pool, i, src);
      var h := Moved(s.board, src, dst);
      forall j | n <= j < |movers|
        ensures At(h, movers[j]) == At(g, movers[j])
      {
        assert movers[j] != src;
        assert At(s.board, movers[j]) != Empty;
      }
    }
  }

  /**
   * The moving step of a round on board `g`: the agents the scan found
   * unsatisfied take their turns, in scan order, over the pool of blank
   * cells the same scan listed.
   */
  function RoundMoves(w: nat, g: Grid, threshold: real, rolls: nat -> real): (s: MoveState)
    requires IsSquare(g, w)
    requires forall k: nat :: 0.0 <= rolls(k) < 1.0
    ensures IsSquare(s.board, w)
  {
    SelectedExact(g, Blank);
    SelectedExact(g, Unhappy(threshold));
    var movers := Selected(g, Unhappy(threshold));
    MoveAll(w, g, Selected(g, Blank), movers, rolls, |movers|)
  }

  /**
   * A round's moving step keeps the pool exactly the blank cells and its
   * length, keeps the census of 'R', 'B' and ' ', never moves an agent that
   * was satisfied, and leaves the board as it was when there is no blank
   * cell or no unsatisfied agent.
   */
  lemma RoundMovesKeep(w: nat, g: Grid, threshold: real, rolls: nat -> real)
    requires IsSquare(g, w)
    requires forall k: nat :: 0.0 <= rolls(k) < 1.0
    ensures var s := RoundMoves(w, g, threshold, rolls);
      && PoolExact(s.board, s.pool) && |s.pool| == |Selected(g, Blank)|
      && Census(s.board) == Census(g)
      && (forall p :: InBounds(g, p) && Keep(g, p, Happy(threshold)) ==> At(s.board, p) == At(g, p))
      && (Selected(g, Blank) == [] || Selected(g, Unhappy(threshold)) == [] ==> s.board == g)
  {
    SelectedExact(g, Blank);
    SelectedExact(g, Unhappy(threshold));
    var movers := Selected(g, Unhappy(threshold));
    BlanksArePool(g);
    assert MoveReady(w, g, Selected(g, Blank), movers, rolls);
    MoveAllKeeps(w, g, Selected(g, Blank), movers, rolls, |movers|);
    if movers == [] {
      assert MoveAll(w, g, Selected(g, Blank), movers, rolls, 0) == MoveState(g, Selected(g, Blank));
    }
  }

  /** The movers are distinct agents and the pool starts exact. */
  ghost predicate MoveReady(w: nat, g: Grid, pool: seq<Pos>, movers: seq<Pos>, rolls: nat -> real) {
    && MoveArgs(w, g, pool, movers, rolls)
    && Distinct(movers)
    && (forall j :: 0 <= j < |movers| ==> InBounds(g, movers[j]) && At(g, movers[j]) != Empty)
    && PoolExact(g, pool)
  }

  /** When its turn comes, a mover still holds the agent it held at the start. */
  lemma MoverHoldsAgent(w: nat, g: Grid, pool: seq<Pos>, movers: seq<Pos>, rolls: nat -> real, k: nat)
    requires MoveReady(w, g, pool, movers, rolls) && k < |movers|
    ensures At(MoveAll(w, g, pool, movers, rolls, k).board, movers[k]) == At(g, movers[k])
  {
    MoveAllKeeps(w, g, pool, movers, rolls, k);
  }
}
