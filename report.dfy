/**
 * What one round reports, and the two pieces of number handling both
 * versions share: `roundNumber(x, digits)` and turning a `Math.random()`
 * draw into an index (`Math.floor(Math.random() * n)`).
 */
module Report {

  datatype Option<T> = None | Some(value: T)

  /** How a round can fail: the table version reads the id of an undefined pool entry. */
  datatype Error = EmptyPool

  datatype Result<T> = Ok(value: T) | Err(error: Error)

  /**
   * The outcome of `doOneRound`: the agents counted, those satisfied, the
   * percentage shown (`None` where the source computes `0/0`, i.e. NaN), and
   * whether the round stops the simulation.
   */
  datatype Summary = Summary(totalAgents: nat, numSatisfied: nat, percent: Option<real>, stop: bool)

  function Pow10(digits: nat): (m: nat)
    ensures m >= 1
  {
    if digits == 0 then 1 else 10 * Pow10(digits - 1)
  }

  /** 10^digits as a real. */
  function Scale(digits: nat): real {
    Pow10(digits) as real
  }

  /**
   * `Math.round(x * 10^digits) / 10^digits`: a whole number of steps of
   * 10^-digits, and with h half such a step it lies in (x - h, x + h], so
   * halves round up.
   */
  function RoundNumber(x: real, digits: nat): (y: real)
    ensures OnGrid(y, digits)
    ensures x * Scale(digits) - 0.5 < y * Scale(digits) <= x * Scale(digits) + 0.5
  {
    assert Scale(digits) >= 1.0;
    WholeSteps(x * Scale(digits) + 0.5, Scale(digits));
    GridSteps((x * Scale(digits) + 0.5).Floor, digits);
    (x * Scale(digits) + 0.5).Floor as real / Scale(digits)
  }

  /** `y` is a whole number of steps of 10^-digits. */
  predicate OnGrid(y: real, digits: nat) {
    IsWhole(y * Scale(digits))
  }

  /** k steps of 10^-digits lie on the grid of that step. */
  lemma GridSteps(k: int, digits: nat)
    ensures OnGrid(k as real / Scale(digits), digits)
  {
    assert k as real / Scale(digits) * Scale(digits) == k as real;
    assert (k as real).Floor == k;
  }

  /** Dividing `v.Floor` by `m > 0` and scaling back gives back `v.Floor`, within one of `v`. */
  lemma WholeSteps(v: real, m: real)
    requires m > 0.0
    ensures v - 1.0 < v.Floor as real / m * m <= v
  {
    assert v.Floor as real / m * m == v.Floor as real;
  }

  /** `r` has no fractional part. */
  predicate IsWhole(r: real) {
    r.Floor as real == r
  }

  /** A value with at most one decimal is shown as it is. */
  lemma RoundTenthsExact(n: int)
    ensures RoundNumber(n as real / 10.0, 1) == n as real / 10.0
  {
    assert Pow10(1) == 10;
    assert (n as real / 10.0) * 10.0 + 0.5 == n as real + 0.5;
    var k := (n as real + 0.5).Floor;
    assert k as real <= n as real + 0.5 < k as real + 1.0;
    assert k == n;
    assert RoundNumber(n as real / 10.0, 1) == k as real / 10.0;
  }

  /** The percentage of satisfied agents as shown: NaN (`None`) when there are no agents. */
  function SatisfiedPercent(numSatisfied: nat, totalAgents: nat): (r: Option<real>)
    ensures r.None? <==> totalAgents == 0
  {
    if totalAgents == 0 then None
    else Some(RoundNumber(numSatisfied as real / totalAgents as real * 100.0, 1))
  }

  /**
   * With agents present, the shown percentage lies in [0, 100], and it is
   * 100 when all are satisfied. The converse fails: see `HundredShownEarly`.
   */
  lemma SatisfiedPercentRange(numSatisfied: nat, totalAgents: nat)
    requires numSatisfied <= totalAgents
    ensures SatisfiedPercent(numSatisfied, totalAgents).None? <==> totalAgents == 0
    ensures SatisfiedPercent(numSatisfied, totalAgents).Some? ==>
      0.0 <= SatisfiedPercent(numSatisfied, totalAgents).value <= 100.0
    ensures totalAgents > 0 && numSatisfied == totalAgents ==> SatisfiedPercent(numSatisfied, totalAgents) == Some(100.0)
  {
    if totalAgents > 0 && numSatisfied == totalAgents {
      AllOfAll(totalAgents as real);
      RoundTenthsRange(100.0);
    } else if totalAgents > 0 {
      var s, t := numSatisfied as real, totalAgents as real;
      var x := s / t * 100.0;
      assert x * t == 100.0 * s;
      assert 0.0 <= x <= 100.0;
      RoundTenthsRange(x);
    }
  }

  /** All of a positive count is 100 per cent. */
  lemma AllOfAll(t: real)
    requires t > 0.0
    ensures t / t * 100.0 == 100.0
  {
  }

  /** Rounding a percentage to tenths keeps it in [0, 100], and keeps 100. */
  lemma RoundTenthsRange(x: real)
    requires 0.0 <= x <= 100.0
    ensures 0.0 <= RoundNumber(x, 1) <= 100.0
    ensures x == 100.0 ==> RoundNumber(x, 1) == 100.0
  {
    assert Scale(1) == 10.0;
    var f := (x * 10.0 + 0.5).Floor;
    assert RoundNumber(x, 1) == f as real / 10.0;
    assert 0 <= f <= 1000;
    if x == 100.0 {
      assert f == 1000;
    }
  }

  /**
   * The shown percentage can read 100 while an agent is still unsatisfied:
   * 1999 of 2000 is 99.95, which rounds up to 100.0. The stop test compares
   * the counts, so the run goes on.
   */
  lemma HundredShownEarly()
    ensures SatisfiedPercent(1999, 2000) == Some(100.0)
  {
    var x := 1999.0 / 2000.0 * 100.0;
    assert x == 99.95;
    assert (x * 10.0 + 0.5).Floor == 1000;
  }

  /** `Math.floor(roll * n)`: a draw in [0, 1) picks an index of a pool of n > 0 entries. */
  function Pick(roll: real, n: nat): (i: int)
    ensures 0.0 <= roll < 1.0 && n > 0 ==> 0 <= i < n
  {
    assert 0.0 <= roll < 1.0 && n > 0 ==> 0.0 <= roll * n as real < n as real;
    (roll * n as real).Floor
  }
}
