/**
 * The Schelling board shared by both versions of the engine: a square grid of
 * cells, each holding a red agent 'R', a blue agent 'B' or blank ' '.
 */
module Board {

  /** The contents of one cell ('R', 'B' or ' ' in the source). */
  datatype Cell = Red | Blue | Empty

  /** A (row, column) coordinate. */
  datatype Pos = Pos(row: int, col: int)

  /** The board as rows of cells, row-major like the source's `board[r][c]`. */
  type Grid = seq<seq<Cell>>

  /** `g` has `w` rows of `w` entries each. */
  predicate IsSquare<T>(g: seq<seq<T>>, w: int) {
    |g| == w && forall i :: 0 <= i < |g| ==> |g[i]| == w
  }

  predicate InBounds(g: Grid, p: Pos) {
    0 <= p.row < |g| && 0 <= p.col < |g[p.row]|
  }

  function At(g: Grid, p: Pos): Cell
    requires InBounds(g, p)
  {
    g[p.row][p.col]
  }

  /** The board after writing `x` into cell `p` (`board[r][c] = x`). */
  function Set(g: Grid, p: Pos, x: Cell): (h: Grid)
    requires InBounds(g, p)
    ensures |h| == |g| && forall i :: 0 <= i < |g| ==> |h[i]| == |g[i]|
    ensures forall w :: IsSquare(g, w) ==> IsSquare(h, w)
    ensures At(h, p) == x
    ensures forall q :: InBounds(g, q) && q != p ==> At(h, q) == At(g, q)
  {
    g[p.row := g[p.row][p.col := x]]
  }

  /** All cells of the board, row after row. */
  function Flatten(g: Grid): seq<Cell> {
    if g == [] then [] else Flatten(g[..|g| - 1]) + g[|g| - 1]
  }

  /** How many cells hold each of 'R', 'B' and ' '. */
  function Census(g: Grid): multiset<Cell> {
    multiset(Flatten(g))
  }

  lemma MultisetUpdate(s: seq<Cell>, i: int, x: Cell)
    requires 0 <= i < |s|
    ensures multiset(s[i := x]) == multiset(s) - multiset{s[i]} + multiset{x}
  {
    assert s == s[..i] + [s[i]] + s[i + 1..];
    assert s[i := x] == s[..i] + [x] + s[i + 1..];
  }

  /** Writing one cell replaces one entry of the census by another. */
  lemma {:induction false} CensusSet(g: Grid, p: Pos, x: Cell)
    requires InBounds(g, p)
    ensures At(g, p) in Census(g)
    ensures Census(Set(g, p, x)) == Census(g) - multiset{At(g, p)} + multiset{x}
  {
    var n := |g|;
    if p.row == n - 1 {
      CensusSetLastRow(g, p, x);
    } else {
      var h := Set(g, p, x);
      assert Census(g) == Census(g[..n - 1]) + multiset(g[n - 1]);
      assert h[..n - 1] == Set(g[..n - 1], p, x);
      assert Census(h) == Census(Set(g[..n - 1], p, x)) + multiset(g[n - 1]);
      CensusSet(g[..n - 1], p, x);
    }
  }

  /** `CensusSet` for a cell of the last row: only that row's census changes. */
  lemma CensusSetLastRow(g: Grid, p: Pos, x: Cell)
    requires InBounds(g, p) && p.row == |g| - 1
    ensures At(g, p) in Census(g)
    ensures Census(Set(g, p, x)) == Census(g) - multiset{At(g, p)} + multiset{x}
  {
    var n := |g|;
    var h := Set(g, p, x);
    var above := Census(g[..n - 1]);
    assert Census(g) == above + multiset(g[n - 1]);
    assert h[..n - 1] == g[..n - 1];
    assert Census(h) == above + multiset(g[n - 1][p.col := x]);
    MultisetUpdate(g[n - 1], p.col, x);
    assert At(g, p) in multiset(g[n - 1]);
  }

  /** No entry of `s` occurs twice. */
  predicate Distinct<T(==)>(s: seq<T>) {
    forall i, j :: 0 <= i < j < |s| ==> s[i] != s[j]
  }

  lemma DistinctAppend<T>(a: seq<T>, b: seq<T>)
    requires Distinct(a) && Distinct(b)
    requires forall x :: x in a ==> x !in b
    ensures Distinct(a + b)
  {
    forall i, j | 0 <= i < j < |a + b|
      ensures (a + b)[i] != (a + b)[j]
    {
      if j >= |a| && i < |a| {
        assert (a + b)[i] in a && (a + b)[j] in b;
      }
    }
  }

  /** Two uniform draws in [0, 1) for one cell at reset: whether it is occupied, and its colour. */
  datatype Draw = Draw(occupy: real, colour: real)

  /**
   * The cell a reset produces from one cell's draws: occupied when the first
   * draw is below `1 - emptyRatio`, and then red when the second is below
   * `redRatio`, blue otherwise. For draws in [0, 1), as `Math.random()`
   * gives, no cell is blank at 0% empty and every cell is at 100%; no cell
   * is blue at 100% red and none red at 0%.
   */
  function FillCell(d: Draw, emptyRatio: real, redRatio: real): (c: Cell)
    ensures emptyRatio <= 0.0 && d.occupy < 1.0 ==> c != Empty
    ensures emptyRatio >= 1.0 && d.occupy >= 0.0 ==> c == Empty
    ensures redRatio >= 1.0 && d.colour < 1.0 ==> c != Blue
    ensures redRatio <= 0.0 && d.colour >= 0.0 ==> c != Red
  {
    if d.occupy < 1.0 - emptyRatio then
      if d.colour < redRatio then Red else Blue
    else
      Empty
  }

  /** The board a reset produces from a square grid of draws. */
  function Filled(draws: seq<seq<Draw>>, emptyRatio: real, redRatio: real): (g: Grid)
    ensures |g| == |draws|
    ensures forall i :: 0 <= i < |g| ==> |g[i]| == |draws[i]|
    ensures forall i, j :: 0 <= i < |g| && 0 <= j < |g[i]| ==> g[i][j] == FillCell(draws[i][j], emptyRatio, redRatio)
  {
    seq(|draws|, i requires 0 <= i < |draws| =>
      seq(|draws[i]|, j requires 0 <= j < |draws[i]| => FillCell(draws[i][j], emptyRatio, redRatio)))
  }
}
