/**
 * The similarity rule shared by both versions: over the in-bounds Moore
 * (8-cell) neighbourhood of a cell, count the occupied neighbours and those
 * of the queried agent's type; the percentage is 100 when no neighbour is
 * occupied and `similar / occupied * 100` otherwise.
 */
module Neighbourhood {
  import opened Board

  /**
   * The k-th cell (0 <= k < 9) of the 3x3 window around (row, col), row by
   * row, as the source's two nested offset loops visit them; k == 4 is the
   * cell itself. Coordinates are plain offsets: nothing wraps around.
   */
  function WindowCell(row: int, col: int, k: int): Pos {
    Pos(row - 1 + k / 3, col - 1 + k % 3)
  }

  /** Window cell k is counted: it is not the centre and lies on the board. */
  predicate Counted(g: Grid, row: int, col: int, k: int) {
    k != 4 && InBounds(g, WindowCell(row, col, k))
  }

  /** Occupied neighbours among the first n window cells. */
  function Occupied(g: Grid, row: int, col: int, n: nat): nat {
    if n == 0 then 0
    else
      Occupied(g, row, col, n - 1) +
      (if Counted(g, row, col, n - 1) && At(g, WindowCell(row, col, n - 1)) != Empty then 1 else 0)
  }

  /** Occupied neighbours of type `agent` among the first n window cells. */
  function Similar(g: Grid, row: int, col: int, agent: Cell, n: nat): nat {
    if n == 0 then 0 else Similar(g, row, col, agent, n - 1) + SimilarAt(g, row, col, agent, n - 1)
  }

  /** Whether window cell k is an occupied neighbour of type `agent`. */
  function SimilarAt(g: Grid, row: int, col: int, agent: Cell, k: int): nat {
    if Counted(g, row, col, k) && At(g, WindowCell(row, col, k)) != Empty
       && At(g, WindowCell(row, col, k)) == agent then 1 else 0
  }

  /**
   * The value `percentSimilar` returns for the given counts: 100 with no
   * occupied neighbour, otherwise the share of similar neighbours in percent.
   */
  function Percent(occupied: nat, similar: nat): (p: real)
    ensures occupied == 0 ==> p == 100.0
    ensures occupied > 0 ==> p * occupied as real == 100.0 * similar as real
  {
    if occupied == 0 then 100.0 else similar as real / occupied as real * 100.0
  }

  /**
   * `percentSimilar(row, col, agent)` over the whole neighbourhood: it lies in
   * [0, 100], and it is 100 exactly when every occupied neighbour is of type
   * `agent` (which includes having none).
   */
  function PercentSimilar(g: Grid, row: int, col: int, agent: Cell): (p: real)
    ensures 0.0 <= p <= 100.0
    ensures p == 100.0 <==> Similar(g, row, col, agent, 9) == Occupied(g, row, col, 9)
  {
    TallyBounds(g, row, col, agent, 9);
    PercentRange(Occupied(g, row, col, 9), Similar(g, row, col, agent, 9));
    Percent(Occupied(g, row, col, 9), Similar(g, row, col, agent, 9))
  }

  /** `isSatisfied(row, col, agent)`: the percentage reaches the threshold. */
  predicate Satisfied(g: Grid, row: int, col: int, agent: Cell, threshold: real) {
    PercentSimilar(g, row, col, agent) >= threshold
  }

  /** The offsets (dr, dc) in [-1, 1]^2 are exactly the window indices, in loop order. */
  lemma WindowIndex(row: int, col: int, dr: int, dc: int)
    requires -1 <= dr <= 1 && -1 <= dc <= 1
    ensures 0 <= (dr + 1) * 3 + dc + 1 < 9
    ensures WindowCell(row, col, (dr + 1) * 3 + dc + 1) == Pos(row + dr, col + dc)
    ensures (dr + 1) * 3 + dc + 1 == 4 <==> dr == 0 && dc == 0
  {
    var k := (dr + 1) * 3 + dc + 1;
    assert k / 3 == dr + 1 && k % 3 == dc + 1 by {
      if dr == -1 { assert k == dc + 1; }
      else if dr == 0 { assert k == 3 + dc + 1; }
      else { assert k == 6 + dc + 1; }
    }
  }

  /** A counted window cell is a true neighbour: adjacent, distinct from (row, col), on the board. */
  lemma CountedIsNeighbour(g: Grid, row: int, col: int, k: int)
    requires 0 <= k < 9 && Counted(g, row, col, k)
    ensures var p := WindowCell(row, col, k);
      InBounds(g, p) && p != Pos(row, col) &&
      -1 <= p.row - row <= 1 && -1 <= p.col - col <= 1
  {
  }

  /** The counts grow by at most one per window cell, and the centre adds nothing. */
  lemma {:induction false} TallyBounds(g: Grid, row: int, col: int, agent: Cell, n: nat)
    ensures Similar(g, row, col, agent, n) <= Occupied(g, row, col, n)
    ensures Occupied(g, row, col, n) <= (if n > 4 then n - 1 else n)
  {
    if n > 0 {
      TallyBounds(g, row, col, agent, n - 1);
    }
  }

  /** `0 <= similar <= occupied <= 8`, and the percentage lies in [0, 100]. */
  lemma NeighbourhoodBounds(g: Grid, row: int, col: int, agent: Cell)
    ensures Similar(g, row, col, agent, 9) <= Occupied(g, row, col, 9) <= 8
    ensures 0.0 <= PercentSimilar(g, row, col, agent) <= 100.0
  {
    TallyBounds(g, row, col, agent, 9);
  }

  /**
   * With no more similar than occupied neighbours, the percentage lies in
   * [0, 100], and it is 100 exactly when all occupied neighbours are similar.
   */
  lemma PercentRange(occupied: nat, similar: nat)
    requires similar <= occupied
    ensures 0.0 <= Percent(occupied, similar) <= 100.0
    ensures Percent(occupied, similar) == 100.0 <==> similar == occupied
  {
    if occupied > 0 {
      var q := similar as real / occupied as real;
      assert q * occupied as real == similar as real;
      assert q <= 1.0;
      assert Percent(occupied, similar) == q * 100.0;
      if q == 1.0 {
        assert similar == occupied;
      }
    }
  }

  /**
   * Satisfaction without division: an agent is satisfied exactly when it has
   * no occupied neighbour and the threshold is at most 100, or when
   * `100 * similar >= threshold * occupied`.
   */
  lemma SatisfiedIff(g: Grid, row: int, col: int, agent: Cell, threshold: real)
    ensures var occupied, similar := Occupied(g, row, col, 9), Similar(g, row, col, agent, 9);
      Satisfied(g, row, col, agent, threshold) <==>
        (occupied == 0 && threshold <= 100.0) ||
        (occupied > 0 && threshold * occupied as real <= 100.0 * similar as real)
  {
    PercentAtLeast(Occupied(g, row, col, 9), Similar(g, row, col, agent, 9), threshold);
  }

  /**
   * Any agent is satisfied at threshold 0 or below, none above 100, and one
   * whose occupied neighbours are all of its type (or who has none) at any
   * threshold up to 100.
   */
  lemma SatisfiedThresholds(g: Grid, row: int, col: int, agent: Cell, threshold: real)
    ensures threshold <= 0.0 ==> Satisfied(g, row, col, agent, threshold)
    ensures threshold > 100.0 ==> !Satisfied(g, row, col, agent, threshold)
    ensures threshold <= 100.0 && Similar(g, row, col, agent, 9) == Occupied(g, row, col, 9) ==>
      Satisfied(g, row, col, agent, threshold)
  {
  }

  /**
   * The percentage reaches `t` exactly when there is no occupied neighbour and
   * `t <= 100`, or when `t * occupied <= 100 * similar`.
   */
  lemma PercentAtLeast(occupied: nat, similar: nat, t: real)
    ensures Percent(occupied, similar) >= t <==>
      (occupied == 0 && t <= 100.0) || (occupied > 0 && t * occupied as real <= 100.0 * similar as real)
  {
    if occupied > 0 {
      var o, s := occupied as real, similar as real;
      var p := Percent(occupied, similar);
      assert p * o == 100.0 * s;
      if p >= t {
        assert p * o >= t * o;
      } else {
        assert p * o < t * o;
      }
    }
  }

  /** Occupied neighbours are the red ones plus the blue ones. */
  lemma {:induction false} OccupiedSplits(g: Grid, row: int, col: int, n: nat)
    ensures Occupied(g, row, col, n) == Similar(g, row, col, Red, n) + Similar(g, row, col, Blue, n)
  {
    if n > 0 {
      OccupiedSplits(g, row, col, n - 1);
    }
  }

  /** The table version's `board[r][c] == search`, where a read past the end of a row yields `undefined`. */
  predicate CellIs(g: Grid, r: int, c: int, search: Cell)
    requires 0 <= r < |g|
  {
    0 <= c < |g[r]| && g[r][c] == search
  }

  /** One term of `sum`: `(test) ? 1 : 0`. */
  function Hit(test: bool): nat {
    if test then 1 else 0
  }

  /**
   * The table version's `sum(r, c, search)`: eight guarded neighbour tests.
   * The guard on the right-hand neighbour (`c + 1 >= 0`) is always true; that
   * neighbour is still not counted past the right edge only because the read
   * falls off the row.
   */
  function Sum(g: Grid, w: int, r: int, c: int, search: Cell): (n: nat)
    requires IsSquare(g, w) && 0 <= r < w && 0 <= c < w
    ensures n <= 8
  {
    Hit(r - 1 >= 0 && c - 1 >= 0 && CellIs(g, r - 1, c - 1, search)) +
    Hit(r - 1 >= 0 && CellIs(g, r - 1, c, search)) +
    Hit(r - 1 >= 0 && c + 1 < w && CellIs(g, r - 1, c + 1, search)) +
    Hit(c - 1 >= 0 && CellIs(g, r, c - 1, search)) +
    Hit(c + 1 >= 0 && CellIs(g, r, c + 1, search)) +
    Hit(c - 1 >= 0 && r + 1 < w && CellIs(g, r + 1, c - 1, search)) +
    Hit(r + 1 < w && CellIs(g, r + 1, c, search)) +
    Hit(c + 1 < w && r + 1 < w && CellIs(g, r + 1, c + 1, search))
  }

  /** Whether window cell k is an in-bounds neighbour holding `search`. */
  function HoldsAt(g: Grid, row: int, col: int, search: Cell, k: int): nat {
    if Counted(g, row, col, k) && At(g, WindowCell(row, col, k)) == search then 1 else 0
  }

  /** In-bounds neighbours holding `search` among the first n window cells. */
  function Holding(g: Grid, row: int, col: int, search: Cell, n: nat): nat {
    if n == 0 then 0 else Holding(g, row, col, search, n - 1) + HoldsAt(g, row, col, search, n - 1)
  }

  /** For an agent type, holding it and being a similar neighbour are the same test. */
  lemma {:induction false} HoldingIsSimilar(g: Grid, row: int, col: int, agent: Cell, n: nat)
    requires agent != Empty
    ensures Holding(g, row, col, agent, n) == Similar(g, row, col, agent, n)
  {
    if n > 0 {
      HoldingIsSimilar(g, row, col, agent, n - 1);
    }
  }

  /** Window cell (dr + 1) * 3 + dc + 1 counts exactly when (r + dr, c + dc) is an in-bounds neighbour holding `search`. */
  lemma HoldsAtOffset(g: Grid, r: int, c: int, search: Cell, dr: int, dc: int)
    requires -1 <= dr <= 1 && -1 <= dc <= 1 && !(dr == 0 && dc == 0)
    ensures HoldsAt(g, r, c, search, (dr + 1) * 3 + dc + 1) ==
      Hit(0 <= r + dr < |g| && CellIs(g, r + dr, c + dc, search))
  {
    WindowIndex(r, c, dr, dc);
  }

  /** The whole-window count as the sum of its nine terms. */
  lemma HoldingNine(g: Grid, r: int, c: int, search: Cell)
    ensures Holding(g, r, c, search, 9) == HoldsAt(g, r, c, search, 0) + HoldsAt(g, r, c, search, 1) + HoldsAt(g, r, c, search, 2) + HoldsAt(g, r, c, search, 3) + HoldsAt(g, r, c, search, 4) + HoldsAt(g, r, c, search, 5) + HoldsAt(g, r, c, search, 6) + HoldsAt(g, r, c, search, 7) + HoldsAt(g, r, c, search, 8)
  {
    assert Holding(g, r, c, search, 1) == Holding(g, r, c, search, 0) + HoldsAt(g, r, c, search, 0);
    assert Holding(g, r, c, search, 2) == Holding(g, r, c, search, 1) + HoldsAt(g, r, c, search, 1);
    assert Holding(g, r, c, search, 3) == Holding(g, r, c, search, 2) + HoldsAt(g, r, c, search, 2);
    assert Holding(g, r, c, search, 4) == Holding(g, r, c, search, 3) + HoldsAt(g, r, c, search, 3);
    assert Holding(g, r, c, search, 5) == Holding(g, r, c, search, 4) + HoldsAt(g, r, c, search, 4);
    assert Holding(g, r, c, search, 6) == Holding(g, r, c, search, 5) + HoldsAt(g, r, c, search, 5);
    assert Holding(g, r, c, search, 7) == Holding(g, r, c, search, 6) + HoldsAt(g, r, c, search, 6);
    assert Holding(g, r, c, search, 8) == Holding(g, r, c, search, 7) + HoldsAt(g, r, c, search, 7);
    assert Holding(g, r, c, search, 9) == Holding(g, r, c, search, 8) + HoldsAt(g, r, c, search, 8);
  }

  /** The terms of `sum` for the row above match the window cells there. */
  lemma SumRowAbove(g: Grid, w: int, r: int, c: int, search: Cell)
    requires IsSquare(g, w) && 0 <= r < w && 0 <= c < w
    ensures Hit(r - 1 >= 0 && c - 1 >= 0 && CellIs(g, r - 1, c - 1, search)) + Hit(r - 1 >= 0 && CellIs(g, r - 1, c, search)) + Hit(r - 1 >= 0 && c + 1 < w && CellIs(g, r - 1, c + 1, search)) ==
      HoldsAt(g, r, c, search, 0) + HoldsAt(g, r, c, search, 1) + HoldsAt(g, r, c, search, 2)
  {
    HoldsAtOffset(g, r, c, search, -1, -1);
    HoldsAtOffset(g, r, c, search, -1, 0);
    HoldsAtOffset(g, r, c, search, -1, 1);
  }

  /** The terms of `sum` for the agent's own row match the window cells there. */
  lemma SumSameRow(g: Grid, w: int, r: int, c: int, search: Cell)
    requires IsSquare(g, w) && 0 <= r < w && 0 <= c < w
    ensures Hit(c - 1 >= 0 && CellIs(g, r, c - 1, search)) + Hit(c + 1 >= 0 && CellIs(g, r, c + 1, search)) ==
      HoldsAt(g, r, c, search, 3) + HoldsAt(g, r, c, search, 5)
  {
    HoldsAtOffset(g, r, c, search, 0, -1);
    HoldsAtOffset(g, r, c, search, 0, 1);
  }

  /** The terms of `sum` for the row below match the window cells there. */
  lemma SumRowBelow(g: Grid, w: int, r: int, c: int, search: Cell)
    requires IsSquare(g, w) && 0 <= r < w && 0 <= c < w
    ensures Hit(c - 1 >= 0 && r + 1 < w && CellIs(g, r + 1, c - 1, search)) + Hit(r + 1 < w && CellIs(g, r + 1, c, search)) + Hit(c + 1 < w && r + 1 < w && CellIs(g, r + 1, c + 1, search)) ==
      HoldsAt(g, r, c, search, 6) + HoldsAt(g, r, c, search, 7) + HoldsAt(g, r, c, search, 8)
  {
    HoldsAtOffset(g, r, c, search, 1, -1);
    HoldsAtOffset(g, r, c, search, 1, 0);
    HoldsAtOffset(g, r, c, search, 1, 1);
  }

  /**
   * `sum(r, c, search)` counts the in-bounds neighbours holding `search`,
   * blank included: the ineffective `c + 1 >= 0` guard is harmless only
   * because a read past the row end matches nothing.
   */
  lemma SumCounts(g: Grid, w: int, r: int, c: int, search: Cell)
    requires IsSquare(g, w) && 0 <= r < w && 0 <= c < w
    ensures Sum(g, w, r, c, search) == Holding(g, r, c, search, 9)
  {
    HoldingNine(g, r, c, search);
    assert HoldsAt(g, r, c, search, 4) == 0;
    SumRowAbove(g, w, r, c, search);
    SumSameRow(g, w, r, c, search);
    SumRowBelow(g, w, r, c, search);
  }

  /** For an agent type, `sum` counts exactly the similar neighbours of `percentSimilar`. */
  lemma SumIsSimilar(g: Grid, w: int, r: int, c: int, search: Cell)
    requires IsSquare(g, w) && 0 <= r < w && 0 <= c < w
    requires search != Empty
    ensures Sum(g, w, r, c, search) == Similar(g, r, c, search, 9)
  {
    SumCounts(g, w, r, c, search);
    HoldingIsSimilar(g, r, c, search, 9);
  }

  /** What visiting offset (dr, dc) adds to the two counts. */
  lemma TallyStep(g: Grid, w: nat, row: int, col: int, agent: Cell, dr: int, dc: int)
    requires IsSquare(g, w) && -1 <= dr <= 1 && -1 <= dc <= 1
    ensures var k, rr, cc := (dr + 1) * 3 + dc + 1, row + dr, col + dc;
      var hit := !(dr == 0 && dc == 0) && 0 <= rr < w && 0 <= cc < w && g[rr][cc] != Empty;
      && Occupied(g, row, col, k + 1) == Occupied(g, row, col, k) + (if hit then 1 else 0)
      && Similar(g, row, col, agent, k + 1) == Similar(g, row, col, agent, k) + (if hit && g[rr][cc] == agent then 1 else 0)
  {
    WindowIndex(row, col, dr, dc);
  }

  /** The body of both versions' window loops: count the neighbour at (row + dr, col + dc) unless it is the cell itself. */
  method Visit(g: Grid, w: nat, row: int, col: int, agent: Cell, dr: int, dc: int, occupied: nat, similar: nat)
    returns (occupied': nat, similar': nat)
    requires IsSquare(g, w) && -1 <= dr <= 1 && -1 <= dc <= 1
    requires occupied == Occupied(g, row, col, (dr + 1) * 3 + dc + 1)
    requires similar == Similar(g, row, col, agent, (dr + 1) * 3 + dc + 1)
    ensures occupied' == Occupied(g, row, col, (dr + 1) * 3 + dc + 2)
    ensures similar' == Similar(g, row, col, agent, (dr + 1) * 3 + dc + 2)
  {
    TallyStep(g, w, row, col, agent, dr, dc);
    occupied', similar' := occupied, similar;
    if dr == 0 && dc == 0 {
      return;
    }
    var rr, cc := row + dr, col + dc;
    if rr >= 0 && rr < w && cc >= 0 && cc < w {
      if g[rr][cc] != Empty {
        occupied' := occupied' + 1;
        if g[rr][cc] == agent {
          similar' := similar' + 1;
        }
      }
    }
  }
}
