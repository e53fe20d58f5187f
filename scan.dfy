/**
 * Row-major scans of the board, as both versions make them: the blank cells,
 * the agents, and the agents that are (un)satisfied, each listed in the order
 * `for r { for c { ... } }` (or document order of the table cells) visits them.
 */
module Scan {
  import opened Board
  import opened Neighbourhood

  /** Which cells a scan keeps. */
  datatype Selector = Blank | Agent | Unhappy(threshold: real) | Happy(threshold: real)

  predicate Keep(g: Grid, p: Pos, sel: Selector)
    requires InBounds(g, p)
  {
    match sel
    case Blank => At(g, p) == Empty
    case Agent => At(g, p) != Empty
    case Unhappy(t) => At(g, p) != Empty && !Satisfied(g, p.row, p.col, At(g, p), t)
    case Happy(t) => At(g, p) != Empty && Satisfied(g, p.row, p.col, At(g, p), t)
  }

  /** The kept cells of row i among its first c columns, left to right. */
  function SelectRow(g: Grid, sel: Selector, i: nat, c: nat): seq<Pos>
    requires i < |g| && c <= |g[i]|
  {
    if c == 0 then []
    else SelectRow(g, sel, i, c - 1) + (if Keep(g, Pos(i, c - 1), sel) then [Pos(i, c - 1)] else [])
  }

  /** The kept cells of the first r rows, row after row. */
  function Select(g: Grid, sel: Selector, r: nat): seq<Pos>
    requires r <= |g|
  {
    if r == 0 then [] else Select(g, sel, r - 1) + SelectRow(g, sel, r - 1, |g[r - 1]|)
  }

  /** The kept cells of the whole board, in row-major order. */
  function Selected(g: Grid, sel: Selector): seq<Pos> {
    Select(g, sel, |g|)
  }

  lemma {:induction false} SelectRowExact(g: Grid, sel: Selector, i: nat, c: nat)
    requires i < |g| && c <= |g[i]|
    ensures forall p :: p in SelectRow(g, sel, i, c) <==> p.row == i && 0 <= p.col < c && Keep(g, p, sel)
    ensures Distinct(SelectRow(g, sel, i, c))
  {
    if c > 0 {
      SelectRowExact(g, sel, i, c - 1);
      var tail := if Keep(g, Pos(i, c - 1), sel) then [Pos(i, c - 1)] else [];
      DistinctAppend(SelectRow(g, sel, i, c - 1), tail);
    }
  }

  lemma {:induction false} SelectExact(g: Grid, sel: Selector, r: nat)
    requires r <= |g|
    ensures forall p :: p in Select(g, sel, r) <==> 0 <= p.row < r && InBounds(g, p) && Keep(g, p, sel)
    ensures Distinct(Select(g, sel, r))
  {
    if r > 0 {
      SelectExact(g, sel, r - 1);
      SelectRowExact(g, sel, r - 1, |g[r - 1]|);
      DistinctAppend(Select(g, sel, r - 1), SelectRow(g, sel, r - 1, |g[r - 1]|));
    }
  }

  /**
   * A scan lists exactly the kept cells of the board, each once. In
   * particular `Selected(g, Blank)` is exactly the set of empty cells.
   */
  lemma SelectedExact(g: Grid, sel: Selector)
    ensures forall p :: p in Selected(g, sel) <==> InBounds(g, p) && Keep(g, p, sel)
    ensures Distinct(Selected(g, sel))
  {
    SelectExact(g, sel, |g|);
  }

  lemma {:induction false} SelectRowPartition(g: Grid, t: real, i: nat, c: nat)
    requires i < |g| && c <= |g[i]|
    ensures |SelectRow(g, Agent, i, c)| == |SelectRow(g, Happy(t), i, c)| + |SelectRow(g, Unhappy(t), i, c)|
  {
    if c > 0 {
      SelectRowPartition(g, t, i, c - 1);
    }
  }

  lemma {:induction false} SelectPartition(g: Grid, t: real, r: nat)
    requires r <= |g|
    ensures |Select(g, Agent, r)| == |Select(g, Happy(t), r)| + |Select(g, Unhappy(t), r)|
  {
    if r > 0 {
      SelectPartition(g, t, r - 1);
      SelectRowPartition(g, t, r - 1, |g[r - 1]|);
    }
  }

  /** Every agent is either satisfied or unsatisfied: the two counts add up to the agent count. */
  lemma AgentsPartition(g: Grid, t: real)
    ensures |Selected(g, Agent)| == |Selected(g, Happy(t))| + |Selected(g, Unhappy(t))|
  {
    SelectPartition(g, t, |g|);
  }
}
