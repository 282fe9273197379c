/** One tracked staff line of `src/staves.rs`: the `Staff` record with its
    Kalman state `(x, p)` and its growing buffer of `(pixels, column)`
    entries, together with `get_mean`, `get_prediction` and
    `push_pixels`. */
module Tracking {
  import opened Types
  import opened Wrappers
  import opened Kalman
  import opened Matching

  /** One buffer entry: the 1-based rows absorbed in a 1-based column. */
  datatype Entry = Entry(pixels: seq<nat>, column: nat)

  /** The observation model and the measurement noise of every staff. */
  const H: M2x2 := Identity
  const R: M2x2 := Identity

  /** The sum of the rows, which bounds every single row. */
  function Sum(xs: seq<nat>): (r: nat)
    ensures xs == [] ==> r == 0
    ensures forall i :: 0 <= i < |xs| ==> xs[i] <= r
  {
    if xs == [] then 0 else xs[0] + Sum(xs[1..])
  }

  /** `get_mean`: the mean of the pixel centres `x + 0.5`, or `None` for
      an empty list. */
  function Mean(xs: seq<nat>): (r: Option<real>)
    ensures r.None? <==> |xs| == 0
    ensures r.Some? ==> r.value * |xs| as real == Sum(xs) as real + 0.5 * |xs| as real
  {
    if |xs| == 0 then None
    else Some((Sum(xs) as real + |xs| as real * 0.5) / |xs| as real)
  }

  lemma {:induction false} SumBounds(xs: seq<nat>, lo: nat, hi: nat)
    requires forall i :: 0 <= i < |xs| ==> lo <= xs[i] <= hi
    ensures |xs| * lo <= Sum(xs) <= |xs| * hi
  {
    if xs != [] {
      SumBounds(xs[1..], lo, hi);
      assert |xs| == |xs[1..]| + 1;
      MulSucc(|xs[1..]|, lo);
      MulSucc(|xs[1..]|, hi);
    }
  }

  lemma MulSucc(n: nat, a: nat)
    ensures (n + 1) * a == n * a + a
  {
  }

  /** The mean lies between the centres of the lowest and the highest
      pixel. */
  lemma MeanBounds(xs: seq<nat>, lo: nat, hi: nat)
    requires |xs| > 0
    requires forall i :: 0 <= i < |xs| ==> lo <= xs[i] <= hi
    ensures lo as real + 0.5 <= Mean(xs).value <= hi as real + 0.5
  {
    SumBounds(xs, lo, hi);
    CentreOfBounds(Sum(xs), |xs|, Mean(xs).value, lo, hi);
  }

  lemma CentreOfBounds(sum: nat, n: nat, m: real, lo: nat, hi: nat)
    requires n > 0 && m * n as real == sum as real + 0.5 * n as real
    requires n * lo <= sum <= n * hi
    ensures lo as real + 0.5 <= m <= hi as real + 0.5
  {
    ScaledBounds(n, sum, lo, hi);
    CentreBounds(sum as real, n as real, m, lo as real, hi as real);
  }

  lemma ScaledBounds(n: nat, sum: nat, lo: nat, hi: nat)
    requires n * lo <= sum <= n * hi
    ensures n as real * lo as real <= sum as real <= n as real * hi as real
  {
    assert (n * lo) as real == n as real * lo as real;
    assert (n * hi) as real == n as real * hi as real;
  }

  lemma CentreBounds(sum: real, n: real, m: real, lo: real, hi: real)
    requires n > 0.0 && m * n == sum + 0.5 * n
    requires n * lo <= sum <= n * hi
    ensures lo + 0.5 <= m <= hi + 0.5
  {
    assert (lo + 0.5) * n == n * lo + 0.5 * n;
    assert (hi + 0.5) * n == n * hi + 0.5 * n;
    CancelPositive(lo + 0.5, m, n);
    CancelPositive(m, hi + 0.5, n);
  }

  lemma CancelPositive(a: real, b: real, n: real)
    requires n > 0.0 && a * n <= b * n
    ensures a <= b
  {
  }

  /** The source's test vectors. */
  lemma MeanExamples()
    ensures Mean([5, 7, 9]) == Some(7.5)
    ensures Mean([1, 2, 3, 4]) == Some(3.0)
    ensures Mean([]) == None
  {
    assert Sum([5, 7, 9]) == 21 by {
      assert [5, 7, 9][1..] == [7, 9] && [7, 9][1..] == [9] && [9][1..] == [];
    }
    assert Sum([1, 2, 3, 4]) == 10 by {
      assert [1, 2, 3, 4][1..] == [2, 3, 4] && [2, 3, 4][1..] == [3, 4];
      assert [3, 4][1..] == [4] && [4][1..] == [];
    }
  }

  /** The transition over `dy` columns: the row moves by `dy` times the
      slope, the slope stays. */
  function Transition(dy: real): (a: M2x2)
    ensures dy == 0.0 ==> a == Identity
  {
    M2x2(1.0, dy, 0.0, 1.0)
  }

  /** The transition moves the row by `dy` times the slope and keeps the
      slope; it is invertible, and two gaps in a row compose into one. */
  lemma TransitionMoves(dy: real, dz: real, x: M2x1)
    ensures DotMV(Transition(dy), x) == M2x1(x.v0 + dy * x.v1, x.v1)
    ensures Det(Transition(dy)) == 1.0
    ensures Dot(Transition(dy), Transition(dz)) == Transition(dy + dz)
  {
  }

  /** The measured slope as the code computes it. Operator precedence makes
      this `xMean - (lastMean / dy)`, not the slope
      `(xMean - lastMean) / dy`; the model keeps the code's reading. For
      neighbouring columns it is the change of the mean row. */
  function Speed(xMean: real, lastMean: real, dy: real): (r: real)
    requires dy != 0.0
    ensures dy == 1.0 ==> r == xMean - lastMean
  {
    xMean - lastMean / dy
  }

  /** The two readings agree exactly for neighbouring columns, as long as
      the new mean row is not zero (a mean of 1-based pixel centres is at
      least 1.5). */
  lemma SpeedPrecedence(xMean: real, lastMean: real, dy: real)
    requires dy != 0.0 && xMean != 0.0
    ensures Speed(xMean, lastMean, dy) == (xMean - lastMean) / dy <==> dy == 1.0
  {
    var lhs, rhs := Speed(xMean, lastMean, dy), (xMean - lastMean) / dy;
    assert lhs * dy == xMean * dy - lastMean;
    assert rhs * dy == xMean - lastMean;
    if lhs == rhs {
      calc {
        xMean * (dy - 1.0);
        xMean * dy - lastMean - (xMean - lastMean);
        lhs * dy - rhs * dy;
        0.0;
      }
      assert dy - 1.0 == 0.0;
    }
  }

  /** The new state after `push_pixels(xs, y)` on state `(x, p)` whose last
      entry is `last`: predict over the column gap, then update with the
      measured mean row and slope. The update cannot fail while the
      covariance is diagonal and non-negative, which it stays. */
  function Absorbed(x: M2x1, p: M2x2, last: Entry, xs: seq<nat>, y: nat): (r: Result<(M2x1, M2x2), KalmanError>)
    requires |xs| > 0 && |last.pixels| > 0
    requires last.column < y
    ensures IsDiagonalNonNeg(p) ==> r.Success? && IsDiagonalNonNeg(r.value.1)
  {
    var dy := y as real - last.column as real;
    var a := Transition(dy);
    var xMean, lastMean := Mean(xs).value, Mean(last.pixels).value;
    var measure := M2x1(xMean, Speed(xMean, lastMean, dy));
    var predicted := Predict(x, p, a);
    if IsDiagonalNonNeg(p) then
      StepKeepsDiagonalNonNeg(x, p, a, measure);
      Update(predicted.0, predicted.1, measure, H, R)
    else
      Update(predicted.0, predicted.1, measure, H, R)
  }

  /** A line at rest on row `row`, seen again on that row in the next
      column, keeps its state. */
  lemma SteadyLineStaysPut(row: nat, col: nat, q0: real, q1: real)
    requires q0 >= 0.0 && q1 >= 0.0
    ensures Absorbed(M2x1(row as real + 0.5, 0.0), Diag(q0, q1), Entry([row], col), [row], col + 1).Success?
    ensures Absorbed(M2x1(row as real + 0.5, 0.0), Diag(q0, q1), Entry([row], col), [row], col + 1).value.0
      == M2x1(row as real + 0.5, 0.0)
  {
    var c := row as real + 0.5;
    var x, p := M2x1(c, 0.0), Diag(q0, q1);
    assert Sum([row]) == row by { assert [row][1..] == []; }
    assert Mean([row]) == Some(c);
    var dy := (col + 1) as real - col as real;
    assert dy == 1.0;
    var predicted := Predict(x, p, Transition(dy));
    assert predicted.0 == M2x1(c, 0.0);
    PredictKeepsDiagonalNonNeg(x, p, Transition(dy));
    UpdateWithIdentity(predicted.0, predicted.1, M2x1(c, 0.0));
    assert Speed(c, c, dy) == 0.0;
  }

  /** The prediction for column `y` of a staff in state `(x, p)` last seen
      in column `lastColumn`: the state is propagated over the gap and the
      predicted row and slope are reported. */
  function PredictAt(x: M2x1, p: M2x2, lastColumn: nat, y: nat): (r: Prediction)
    ensures r.fromY == lastColumn as real
    ensures r.x == x.v0 + (y as real - r.fromY) * x.v1
    ensures r.bias == x.v1
  {
    var lastY := lastColumn as real;
    var predicted := Predict(x, p, Transition(y as real - lastY)).0;
    Prediction(lastY, predicted.v0, predicted.v1)
  }

  /** A history the tracker can have built: non-empty, every entry holds
      pixels, and the columns strictly increase. */
  predicate WellFormedHistory(buffer: seq<Entry>)
  {
    |buffer| > 0
    && (forall i :: 0 <= i < |buffer| ==> |buffer[i].pixels| > 0)
    && (forall i, j :: 0 <= i < j < |buffer| ==> buffer[i].column < buffer[j].column)
  }

  /** The state a staff holds after its history: created from the first
      entry, then every later entry absorbed in turn. */
  function Replay(buffer: seq<Entry>): (r: (M2x1, M2x2))
    requires WellFormedHistory(buffer)
    ensures IsDiagonalNonNeg(r.1)
    decreases |buffer|
  {
    if |buffer| == 1 then (M2x1(Mean(buffer[0].pixels).value, 0.0), Identity)
    else
      var init := buffer[..|buffer| - 1];
      var e := buffer[|buffer| - 1];
      var s := Replay(init);
      Absorbed(s.0, s.1, init[|init| - 1], e.pixels, e.column).value
  }

  /** A history stays well formed when an entry for a later column is
      appended. */
  lemma HistoryAppend(buffer: seq<Entry>, e: Entry)
    requires WellFormedHistory(buffer)
    requires |e.pixels| > 0 && buffer[|buffer| - 1].column < e.column
    ensures WellFormedHistory(buffer + [e])
    ensures (buffer + [e])[..|buffer|] == buffer
  {
    var b := buffer + [e];
    assert forall i :: 0 <= i < |buffer| ==> b[i] == buffer[i];
    forall i, j | 0 <= i < j < |b| ensures b[i].column < b[j].column {
      if j == |buffer| && i < |buffer| - 1 {
        assert buffer[i].column < buffer[|buffer| - 1].column;
      }
    }
  }

  /** `Staff`: the tracked line. Its state is always the replay of its
      buffer. */
  class Staff {
    var x: M2x1
    var p: M2x2
    var buffer: seq<Entry>

    ghost predicate Valid()
      reads this
    {
      WellFormedHistory(buffer) && (x, p) == Replay(buffer)
    }

    /** `Staff::new`: the buffer holds the first entry, the state is the
        mean row at rest, the covariance is the identity. */
    constructor(xs: seq<nat>, y: nat)
      requires |xs| > 0
      ensures buffer == [Entry(xs, y)]
      ensures x == M2x1(Mean(xs).value, 0.0) && p == Identity
      ensures Valid()
    {
      x := M2x1(Mean(xs).value, 0.0);
      p := Identity;
      buffer := [Entry(xs, y)];
    }

    /** `get_prediction`: the row the line is expected on in column `y`,
        extrapolated along the slope from the column it was last seen
        in. */
    function GetPrediction(y: nat): (r: Prediction)
      reads this
      requires |buffer| > 0
      ensures r.fromY == buffer[|buffer| - 1].column as real
      ensures r.x == x.v0 + (y as real - r.fromY) * x.v1
      ensures r.bias == x.v1
    {
      PredictAt(x, p, buffer[|buffer| - 1].column, y)
    }

    /** `push_pixels`: absorbs the pixels `xs` seen in column `y` and
        appends the entry to the buffer; earlier entries are kept. */
    method PushPixels(xs: seq<nat>, y: nat)
      requires Valid()
      requires |xs| > 0 && buffer[|buffer| - 1].column < y
      modifies this
      ensures buffer == old(buffer) + [Entry(xs, y)]
      ensures Absorbed(old(x), old(p), old(buffer[|buffer| - 1]), xs, y) == Success((x, p))
      ensures Valid()
    {
      var last := buffer[|buffer| - 1];
      var r := Absorbed(x, p, last, xs, y);
      HistoryAppend(buffer, Entry(xs, y));
      x, p := r.value.0, r.value.1;
      buffer := buffer + [Entry(xs, y)];
    }
  }
}
