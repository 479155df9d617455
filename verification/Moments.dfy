/** The sliding multi-factor fit (src/multifactor.rs): anchored moments kept in
    place across a slide, refolded every window's length, and never trusted while
    a non-finite row is in the frame. */
module Moments {
  import opened Solve
  import opened Fitting
  import opened Log

  /** The carrier's fields as a value. */
  datatype Totals = Totals(rows: real, anchorX: Vector, anchorY: real,
                           sumX: Vector, sumY: real, xx: Matrix, xy: Vector, yy: real)

  ghost predicate Sized(t: Totals, k: nat) {
    |t.anchorX| == k && |t.sumX| == k && |t.xy| == k && Square(t.xx, k)
  }

  /** The fields are the window's own moments about the current anchor. */
  ghost predicate Holds(t: Totals, w: Window, k: nat)
    requires Sized(t, k) && IsWindow(w, k)
  {
    && t.rows == |w.y| as real
    && t.sumY == Sum(w.y, t.anchorY)
    && t.yy == Moment(w.y, t.anchorY, w.y, t.anchorY)
    && (forall i :: 0 <= i < k ==> t.sumX[i] == Sum(w.xs[i], t.anchorX[i]))
    && (forall i :: 0 <= i < k ==> t.xy[i] == Moment(w.xs[i], t.anchorX[i], w.y, t.anchorY))
    && forall i, j :: 0 <= i < k && 0 <= j < k ==> t.xx[i][j] == Moment(w.xs[i], t.anchorX[i], w.xs[j], t.anchorX[j])
  }

  /** The deviation of one row from the anchor. */
  ghost function RowDeviation(t: Totals, w: Window, k: nat, row: nat): (d: Vector)
    requires Sized(t, k) && IsWindow(w, k) && row < |w.y|
    ensures |d| == k
  {
    seq(k, i requires 0 <= i < k => w.xs[i][row] - t.anchorX[i])
  }

  ghost function Scaled(s: real, d: Vector): (r: Vector)
    ensures |r| == |d|
  {
    seq(|d|, i requires 0 <= i < |d| => s * d[i])
  }

  /** m + s dᵀ. */
  ghost function Outer(m: Matrix, k: nat, s: Vector, d: Vector): (r: Matrix)
    requires Square(m, k) && |s| == |d| == k
    ensures Square(r, k)
  {
    seq(k, i requires 0 <= i < k => Axpy(m[i], s[i], d))
  }

  /** One row folded in (`sign` 1) or out (`sign` -1). */
  ghost function Folded(t: Totals, w: Window, k: nat, row: nat, sign: real): (r: Totals)
    requires Sized(t, k) && IsWindow(w, k) && row < |w.y|
    ensures Sized(r, k)
  {
    var d, e := RowDeviation(t, w, k, row), w.y[row] - t.anchorY;
    Totals(t.rows + sign, t.anchorX, t.anchorY, Axpy(t.sumX, sign, d), t.sumY + sign * e,
           Outer(t.xx, k, Scaled(sign, d), d), Axpy(t.xy, e, Scaled(sign, d)), t.yy + sign * e * e)
  }

  lemma FoldedEntries(t: Totals, w: Window, k: nat, row: nat, sign: real, i: nat, j: nat, p: real, q: real, e: real)
    requires Sized(t, k) && IsWindow(w, k) && row < |w.y| && i < k && j < k && (sign == 1.0 || sign == -1.0)
    requires p == w.xs[i][row] - t.anchorX[i] && q == w.xs[j][row] - t.anchorX[j] && e == w.y[row] - t.anchorY
    ensures Folded(t, w, k, row, sign).xx[i][j] == if sign == 1.0 then t.xx[i][j] + p * q else t.xx[i][j] - p * q
    ensures Folded(t, w, k, row, sign).xy[i] == if sign == 1.0 then t.xy[i] + p * e else t.xy[i] - p * e
  {
    SignedProduct(sign, p, q);
    SignedProduct(sign, p, e);
    assert RowDeviation(t, w, k, row)[i] == p && RowDeviation(t, w, k, row)[j] == q;
  }

  lemma SignedProduct(sign: real, p: real, q: real)
    requires sign == 1.0 || sign == -1.0
    ensures sign * p * q == q * (sign * p) == if sign == 1.0 then p * q else 0.0 - p * q
  {
  }

  lemma FoldedResponse(t: Totals, w: Window, k: nat, row: nat, sign: real, e: real)
    requires Sized(t, k) && IsWindow(w, k) && row < |w.y| && (sign == 1.0 || sign == -1.0) && e == w.y[row] - t.anchorY
    ensures Folded(t, w, k, row, sign).yy == if sign == 1.0 then t.yy + e * e else t.yy - e * e
    ensures Folded(t, w, k, row, sign).sumY == if sign == 1.0 then t.sumY + e else t.sumY - e
  {
    SignedProduct(sign, e, e);
  }

  /** Folding in the row after the window holds the longer window. */
  lemma AddHolds(t: Totals, w: Window, k: nat, lo: nat, hi: nat)
    requires Sized(t, k) && IsWindow(w, k) && lo <= hi < |w.y|
    requires Holds(t, Slice(w, k, lo, hi), k)
    ensures Holds(Folded(t, w, k, hi, 1.0), Slice(w, k, lo, hi + 1), k)
  {
    var r, e := Folded(t, w, k, hi, 1.0), w.y[hi] - t.anchorY;
    MomentGrows(w.y, t.anchorY, w.y, t.anchorY, lo, hi, e, e);
    FoldedResponse(t, w, k, hi, 1.0, e);
    forall i, j | 0 <= i < k && 0 <= j < k
      ensures r.xx[i][j] == Moment(w.xs[i][lo..hi + 1], t.anchorX[i], w.xs[j][lo..hi + 1], t.anchorX[j])
      ensures r.xy[i] == Moment(w.xs[i][lo..hi + 1], t.anchorX[i], w.y[lo..hi + 1], t.anchorY)
      ensures r.sumX[i] == Sum(w.xs[i][lo..hi + 1], t.anchorX[i])
    {
      AddedEntry(t, w, k, lo, hi, i, j);
    }
  }

  lemma AddedEntry(t: Totals, w: Window, k: nat, lo: nat, hi: nat, i: nat, j: nat)
    requires Sized(t, k) && IsWindow(w, k) && lo <= hi < |w.y| && i < k && j < k
    requires Holds(t, Slice(w, k, lo, hi), k)
    ensures Folded(t, w, k, hi, 1.0).xx[i][j]
         == Moment(w.xs[i][lo..hi + 1], t.anchorX[i], w.xs[j][lo..hi + 1], t.anchorX[j])
    ensures Folded(t, w, k, hi, 1.0).xy[i] == Moment(w.xs[i][lo..hi + 1], t.anchorX[i], w.y[lo..hi + 1], t.anchorY)
    ensures Folded(t, w, k, hi, 1.0).sumX[i] == Sum(w.xs[i][lo..hi + 1], t.anchorX[i])
  {
    var p, q, e := w.xs[i][hi] - t.anchorX[i], w.xs[j][hi] - t.anchorX[j], w.y[hi] - t.anchorY;
    FoldedEntries(t, w, k, hi, 1.0, i, j, p, q, e);
    MomentGrows(w.xs[i], t.anchorX[i], w.xs[j], t.anchorX[j], lo, hi, p, q);
    MomentGrows(w.xs[i], t.anchorX[i], w.y, t.anchorY, lo, hi, p, e);
    assert t.xx[i][j] == Moment(w.xs[i][lo..hi], t.anchorX[i], w.xs[j][lo..hi], t.anchorX[j]);
  }

  /** Folding out the window's first row holds the shorter window. */
  lemma RemoveHolds(t: Totals, w: Window, k: nat, lo: nat, hi: nat)
    requires Sized(t, k) && IsWindow(w, k) && lo < hi <= |w.y|
    requires Holds(t, Slice(w, k, lo, hi), k)
    ensures Holds(Folded(t, w, k, lo, -1.0), Slice(w, k, lo + 1, hi), k)
  {
    var r, e := Folded(t, w, k, lo, -1.0), w.y[lo] - t.anchorY;
    MomentShrinks(w.y, t.anchorY, w.y, t.anchorY, lo, hi, e, e);
    FoldedResponse(t, w, k, lo, -1.0, e);
    forall i, j | 0 <= i < k && 0 <= j < k
      ensures r.xx[i][j] == Moment(w.xs[i][lo + 1..hi], t.anchorX[i], w.xs[j][lo + 1..hi], t.anchorX[j])
      ensures r.xy[i] == Moment(w.xs[i][lo + 1..hi], t.anchorX[i], w.y[lo + 1..hi], t.anchorY)
      ensures r.sumX[i] == Sum(w.xs[i][lo + 1..hi], t.anchorX[i])
    {
      RemovedEntry(t, w, k, lo, hi, i, j);
    }
  }

  lemma RemovedEntry(t: Totals, w: Window, k: nat, lo: nat, hi: nat, i: nat, j: nat)
    requires Sized(t, k) && IsWindow(w, k) && lo < hi <= |w.y| && i < k && j < k
    requires Holds(t, Slice(w, k, lo, hi), k)
    ensures Folded(t, w, k, lo, -1.0).xx[i][j]
         == Moment(w.xs[i][lo + 1..hi], t.anchorX[i], w.xs[j][lo + 1..hi], t.anchorX[j])
    ensures Folded(t, w, k, lo, -1.0).xy[i] == Moment(w.xs[i][lo + 1..hi], t.anchorX[i], w.y[lo + 1..hi], t.anchorY)
    ensures Folded(t, w, k, lo, -1.0).sumX[i] == Sum(w.xs[i][lo + 1..hi], t.anchorX[i])
  {
    var p, q, e := w.xs[i][lo] - t.anchorX[i], w.xs[j][lo] - t.anchorX[j], w.y[lo] - t.anchorY;
    FoldedEntries(t, w, k, lo, -1.0, i, j, p, q, e);
    MomentShrinks(w.xs[i], t.anchorX[i], w.xs[j], t.anchorX[j], lo, hi, p, q);
    MomentShrinks(w.xs[i], t.anchorX[i], w.y, t.anchorY, lo, hi, p, e);
    assert t.xx[i][j] == Moment(w.xs[i][lo..hi], t.anchorX[i], w.xs[j][lo..hi], t.anchorX[j]);
  }

  /** No rows, no moments, whatever the anchor. */
  ghost predicate Zeroed(t: Totals, k: nat)
    requires Sized(t, k)
  {
    && t.rows == t.sumY == t.yy == 0.0
    && (forall i :: 0 <= i < k ==> t.sumX[i] == t.xy[i] == 0.0)
    && forall i, j :: 0 <= i < k && 0 <= j < k ==> t.xx[i][j] == 0.0
  }

  lemma ZeroedHolds(t: Totals, w: Window, k: nat, lo: nat)
    requires Sized(t, k) && IsWindow(w, k) && lo <= |w.y| && Zeroed(t, k)
    ensures Holds(t, Slice(w, k, lo, lo), k)
  {
  }

  /** An anchored moment about the means. */
  function Centering(moment: real, rows: real, meanU: real, meanV: real): real { moment - rows * meanU * meanV }

  /** What the code's centering step computes from the fields. */
  lemma CenteringOf(t: Totals, w: Window, k: nat, i: nat, j: nat, meanI: real, meanJ: real, meanY: real)
    requires Sized(t, k) && IsWindow(w, k) && |w.y| > 0 && Holds(t, w, k) && i < k && j < k
    requires meanI == t.sumX[i] / t.rows && meanJ == t.sumX[j] / t.rows && meanY == t.sumY / t.rows
    ensures Centering(t.xx[i][j], t.rows, meanI, meanJ) == Spreads(w, k)[i][j]
    ensures Centering(t.xy[i], t.rows, meanI, meanY) == Covariances(w, k)[i]
    ensures t.anchorX[i] + meanI == Mean(w.xs[i])
  {
    MeanBack(t.sumX[i], t.rows, meanI);
    MeanBack(t.sumX[j], t.rows, meanJ);
    MeanBack(t.sumY, t.rows, meanY);
    CenteringForgetsAnchors(w.xs[i], t.anchorX[i], w.xs[j], t.anchorX[j], meanI, meanJ);
    CenteringForgetsAnchors(w.xs[i], t.anchorX[i], w.y, t.anchorY, meanI, meanY);
  }

  lemma MeanBack(sum: real, rows: real, mean: real)
    requires rows > 0.0 && mean == sum / rows
    ensures rows * mean == sum
  {
  }

  lemma TotalOf(t: Totals, w: Window, k: nat, meanY: real)
    requires Sized(t, k) && IsWindow(w, k) && |w.y| > 0 && Holds(t, w, k)
    requires meanY == t.sumY / t.rows
    ensures Centering(t.yy, t.rows, meanY, meanY) == Spread(w.y, w.y)
    ensures t.anchorY + meanY == Mean(w.y)
  {
    MeanBack(t.sumY, t.rows, meanY);
    CenteringForgetsAnchors(w.y, t.anchorY, w.y, t.anchorY, meanY, meanY);
  }


  /** Anchor plus shifted mean is the mean, for every column. */
  lemma MeansOf(t: Totals, w: Window, k: nat, meanY: real)
    requires Sized(t, k) && IsWindow(w, k) && |w.y| > 0 && Holds(t, w, k)
    requires meanY == t.sumY / t.rows
    ensures t.rows != 0.0 && t.anchorY + meanY == Mean(w.y)
    ensures Centering(t.yy, t.rows, meanY, meanY) == Spread(w.y, w.y)
    ensures forall p :: 0 <= p < k ==> t.anchorX[p] + t.sumX[p] / t.rows == Mean(w.xs[p])
  {
    TotalOf(t, w, k, meanY);
    forall p | 0 <= p < k ensures t.anchorX[p] + t.sumX[p] / t.rows == Mean(w.xs[p]) {
      CenteringOf(t, w, k, p, p, t.sumX[p] / t.rows, t.sumX[p] / t.rows, meanY);
    }
  }

  // ------------------------------------------------------------------ the fit

  /** A fit's R²: none for an unidentified window, undefined when the response
      does not vary. */
  datatype Fit = NotIdentified | NoVariance | Explains(share: real)

  datatype Output = Coefficient(slot: nat) | RSquared

  predicate Addresses(output: Output, k: nat) { output.Coefficient? ==> output.slot <= k }

  /** What a fit over a window must be. */
  ghost predicate IsFit(w: Window, k: nat, fit: Fit, c: Vector)
    requires IsWindow(w, k) && |c| == k + 1
  {
    match fit
    case NotIdentified => !Identified(w, k)
    case NoVariance => Identified(w, k) && LeastSquares(w, k, c) && Spread(w.y, w.y) <= 0.0
    case Explains(share) =>
      && Identified(w, k) && LeastSquares(w, k, c) && Spread(w.y, w.y) > 0.0
      && share == 1.0 - Sse(w, k, c) / Spread(w.y, w.y) && 0.0 <= share <= 1.0
  }

  /** What a window may answer: the coefficient or the share of its best fit, NULL
      exactly when there is none. */
  ghost predicate Reports(w: Window, k: nat, output: Output, answer: Option<real>)
    requires IsWindow(w, k) && Addresses(output, k)
  {
    exists fit, c: Vector :: |c| == k + 1 && IsFit(w, k, fit, c) && answer == Picked(fit, c, output)
  }

  function Picked(fit: Fit, c: Vector, output: Output): Option<real>
    requires output.Coefficient? ==> output.slot < |c|
  {
    if fit.NotIdentified? then None
    else if output.Coefficient? then Some(c[output.slot])
    else if fit.Explains? then Some(fit.share) else None
  }

  /** The answer does not depend on how it was reached: no anchor, no schedule. */
  lemma ReportsOneAnswer(w: Window, k: nat, output: Output, one: Option<real>, other: Option<real>)
    requires IsWindow(w, k) && Addresses(output, k)
    requires Reports(w, k, output, one) && Reports(w, k, output, other)
    ensures one == other
  {
    var fit, c: Vector :| |c| == k + 1 && IsFit(w, k, fit, c) && one == Picked(fit, c, output);
    var fit', c': Vector :| |c'| == k + 1 && IsFit(w, k, fit', c') && other == Picked(fit', c', output);
    if Identified(w, k) { FitIsUnique(w, k, c, c'); }
  }

  /** Without `Picked`: NULL from an unidentified window; otherwise a coefficient
      output is the best fit's, and R² is NULL on a flat response and else one less
      the squared misses' share of the response's spread. */
  lemma ReportMeans(w: Window, k: nat, c: Vector, output: Output, answer: Option<real>)
    requires IsWindow(w, k) && |c| == k + 1 && Addresses(output, k) && Reports(w, k, output, answer)
    ensures !Identified(w, k) ==> answer == None
    ensures Identified(w, k) && LeastSquares(w, k, c) && output.Coefficient? ==> answer == Some(c[output.slot])
    ensures Identified(w, k) && LeastSquares(w, k, c) && output.RSquared? ==>
              answer == if Spread(w.y, w.y) <= 0.0 then None
                        else Some(1.0 - SquaredMisses(w, k, c, |w.y|) / Spread(w.y, w.y))
  {
    var fit, c': Vector :| |c'| == k + 1 && IsFit(w, k, fit, c') && answer == Picked(fit, c', output);
    if Identified(w, k) && LeastSquares(w, k, c) {
      FitIsUnique(w, k, c, c');
      SseIsMisses(w, k, c);
    }
  }

  lemma NothingMissed(misses: real, total: real)
    requires total > 0.0 && misses == 0.0
    ensures 1.0 - misses / total == 1.0
  {
  }

  /** Data on a line answers that line's coefficients and, unless flat, an R² of 1. */
  lemma LineIsReported(w: Window, k: nat, line: Vector, output: Output, answer: Option<real>)
    requires IsWindow(w, k) && |line| == k + 1 && Addresses(output, k) && Identified(w, k)
    requires forall r :: 0 <= r < |w.y| ==> w.y[r] == LineAt(w, k, line, r, k)
    requires Reports(w, k, output, answer)
    ensures output.Coefficient? ==> answer == Some(line[output.slot])
    ensures output.RSquared? ==> answer == if Spread(w.y, w.y) > 0.0 then Some(1.0) else None
  {
    LineIsRecovered(w, k, line, line);
    ReportMeans(w, k, line, output, answer);
    SseIsMisses(w, k, line);
    if Spread(w.y, w.y) > 0.0 { NothingMissed(SquaredMisses(w, k, line, |w.y|), Spread(w.y, w.y)); }
  }

  /** No row of the range is non-finite. */
  ghost predicate Clean(poisoned: seq<bool>, lo: nat, hi: nat)
    requires hi <= |poisoned|
  {
    forall r :: lo <= r < hi ==> !poisoned[r]
  }

  lemma CleanGrows(poisoned: seq<bool>, lo: nat, row: nat)
    requires lo <= row < |poisoned|
    ensures Clean(poisoned, lo, row + 1) <==> Clean(poisoned, lo, row) && !poisoned[row]
  {
  }

  /** Before the first step everything is as it was, after the last as it will be. */
  lemma Ends<T>(was: seq<T>, now: seq<T>)
    requires |was| == |now|
    ensures now[..0] + was[0..] == was && now[..|now|] + was[|now|..] == now
  {
  }

  lemma Advance<T>(was: seq<T>, now: seq<T>, i: nat)
    requires i < |was| == |now|
    ensures (now[..i] + was[i..])[i := now[i]] == now[..i + 1] + was[i + 1..]
  {
  }

  ghost function Grid(m: array2<real>, k: nat): (g: Matrix)
    requires m.Length0 == k && m.Length1 == k
    reads m
    ensures Square(g, k)
  {
    seq(k, i requires 0 <= i < k reads m => seq(k, j requires 0 <= j < k reads m => m[i, j]))
  }

  class FactorMoments {
    const k: nat
    var rows: real
    const anchorX: array<real>
    var anchorY: real
    const sumX: array<real>
    var sumY: real
    const crossXX: array2<real>
    const crossXY: array<real>
    var crossYY: real
    const scratchMatrix: array2<real>
    const deviation: array<real>
    /** A non-finite value has entered the sums since the last refold. */
    ghost var tainted: bool

    ghost predicate Valid() {
      && anchorX.Length == sumX.Length == crossXY.Length == deviation.Length == k
      && crossXX.Length0 == crossXX.Length1 == scratchMatrix.Length0 == scratchMatrix.Length1 == k
      && anchorX != sumX && anchorX != crossXY && anchorX != deviation
      && sumX != crossXY && sumX != deviation && crossXY != deviation && crossXX != scratchMatrix
    }

    ghost function Repr(): set<object> {
      {this, anchorX, sumX, crossXX, crossXY, scratchMatrix, deviation}
    }

    ghost function Contents(): (t: Totals)
      requires Valid()
      reads this, anchorX, sumX, crossXX, crossXY
      ensures Sized(t, k)
    {
      Totals(rows, anchorX[..], anchorY, sumX[..], sumY, Grid(crossXX, k), crossXY[..], crossYY)
    }

    constructor (factors: nat)
      ensures Valid() && k == factors && !tainted && Zeroed(Contents(), k)
      ensures fresh(Repr())
    {
      k, rows, anchorY, sumY, crossYY, tainted := factors, 0.0, 0.0, 0.0, 0.0, false;
      anchorX := new real[factors](_ => 0.0);
      sumX := new real[factors](_ => 0.0);
      crossXX := new real[factors, factors]((_, _) => 0.0);
      crossXY := new real[factors](_ => 0.0);
      scratchMatrix := new real[factors, factors]((_, _) => 0.0);
      deviation := new real[factors](_ => 0.0);
    }

    /** The shared body of entering and leaving. */
    method Accumulate(w: Window, row: nat, sign: real, ghost poisoned: seq<bool>)
      requires Valid() && IsWindow(w, k) && row < |w.y| == |poisoned|
      modifies this, sumX, crossXX, crossXY, deviation
      ensures Contents() == Folded(old(Contents()), w, k, row, sign)
      ensures tainted == (old(tainted) || poisoned[row])
    {
      ghost var was := Contents();
      ghost var now := Folded(was, w, k, row, sign);
      Deviate(w, row);
      var response := w.y[row] - anchorY;
      rows := rows + sign;
      sumY := sumY + sign * response;
      crossYY := crossYY + sign * response * response;
      AccumulateFactors(sign, response, was, now);
      tainted := tainted || poisoned[row];
    }

    method Deviate(w: Window, row: nat)
      requires Valid() && IsWindow(w, k) && row < |w.y|
      modifies deviation
      ensures deviation[..] == RowDeviation(Contents(), w, k, row)
    {
      for i := 0 to k
        invariant forall p :: 0 <= p < i ==> deviation[p] == w.xs[p][row] - anchorX[p]
      {
        deviation[i] := w.xs[i][row] - anchorX[i];
      }
    }

    /** The target reached for the factors below `i`, the rest as they were. */
    ghost predicate Midway(was: Totals, now: Totals, i: nat)
      requires Valid() && Sized(was, k) && Sized(now, k) && i <= k
      reads sumX, crossXX, crossXY
    {
      && sumX[..] == now.sumX[..i] + was.sumX[i..]
      && crossXY[..] == now.xy[..i] + was.xy[i..]
      && Grid(crossXX, k) == now.xx[..i] + was.xx[i..]
    }

    method AccumulateFactors(sign: real, response: real, ghost was: Totals, ghost now: Totals)
      requires Valid() && Sized(was, k) && Sized(now, k)
      requires sumX[..] == was.sumX && crossXY[..] == was.xy && Grid(crossXX, k) == was.xx
      requires now.sumX == Axpy(was.sumX, sign, deviation[..])
      requires now.xy == Axpy(was.xy, response, Scaled(sign, deviation[..]))
      requires now.xx == Outer(was.xx, k, Scaled(sign, deviation[..]), deviation[..])
      modifies sumX, crossXX, crossXY
      ensures sumX[..] == now.sumX && crossXY[..] == now.xy && Grid(crossXX, k) == now.xx
    {
      Ends(was.sumX, now.sumX);
      Ends(was.xy, now.xy);
      Ends(was.xx, now.xx);
      for i := 0 to k
        invariant Midway(was, now, i)
      {
        var scale := sign * deviation[i];
        FactorStep(was, now, i, sign, scale, response);
        AccumulateFactor(i, scale, response, was, now);
      }
    }

    lemma FactorStep(was: Totals, now: Totals, i: nat, sign: real, scale: real, response: real)
      requires Valid() && Sized(was, k) && Sized(now, k) && i < k && scale == sign * deviation[i]
      requires now.sumX == Axpy(was.sumX, sign, deviation[..])
      requires now.xy == Axpy(was.xy, response, Scaled(sign, deviation[..]))
      requires now.xx == Outer(was.xx, k, Scaled(sign, deviation[..]), deviation[..])
      ensures now.sumX[i] == was.sumX[i] + scale
      ensures now.xy[i] == was.xy[i] + scale * response
      ensures now.xx[i] == Axpy(was.xx[i], scale, deviation[..])
    {
      assert Scaled(sign, deviation[..])[i] == scale;
    }

    method AccumulateFactor(i: nat, scale: real, response: real, ghost was: Totals, ghost now: Totals)
      requires Valid() && Sized(was, k) && Sized(now, k) && i < k && Midway(was, now, i)
      requires now.sumX[i] == was.sumX[i] + scale
      requires now.xy[i] == was.xy[i] + scale * response
      requires now.xx[i] == Axpy(was.xx[i], scale, deviation[..])
      modifies sumX, crossXX, crossXY
      ensures Midway(was, now, i + 1)
    {
      AccumulateRow(i, scale);
      Advance(was.xx, now.xx, i);
      Advance(was.sumX, now.sumX, i);
      Advance(was.xy, now.xy, i);
      assert sumX[..][i] == was.sumX[i] && crossXY[..][i] == was.xy[i];
      sumX[i] := sumX[i] + scale;
      crossXY[i] := crossXY[i] + scale * response;
    }

    method AccumulateRow(i: nat, scale: real)
      requires Valid() && i < k
      modifies crossXX
      ensures var was := old(Grid(crossXX, k)); Grid(crossXX, k) == was[i := Axpy(was[i], scale, deviation[..])]
    {
      ghost var was := Grid(crossXX, k);
      ghost var target := Axpy(was[i], scale, deviation[..]);
      for j := 0 to k
        invariant forall p, q :: 0 <= p < k && 0 <= q < k ==>
                    crossXX[p, q] == if p == i && q < j then target[q] else was[p][q]
      {
        crossXX[i, j] := crossXX[i, j] + scale * deviation[j];
      }
      GridIs(was[i := target]);
    }

    lemma GridIs(g: Matrix)
      requires Valid() && Square(g, k)
      requires forall p, q :: 0 <= p < k && 0 <= q < k ==> crossXX[p, q] == g[p][q]
      ensures Grid(crossXX, k) == g
    {
      forall p | 0 <= p < k ensures Grid(crossXX, k)[p] == g[p] {
      }
    }

    /** The entering row. */
    method Add(w: Window, row: nat, ghost lo: nat, ghost poisoned: seq<bool>)
      requires Valid() && IsWindow(w, k) && lo <= row < |w.y| == |poisoned|
      requires Holds(Contents(), Slice(w, k, lo, row), k)
      modifies this, sumX, crossXX, crossXY, deviation
      ensures Holds(Contents(), Slice(w, k, lo, row + 1), k)
      ensures tainted == (old(tainted) || poisoned[row])
    {
      AddHolds(Contents(), w, k, lo, row);
      Accumulate(w, row, 1.0, poisoned);
    }

    /** The leaving row. */
    method Remove(w: Window, row: nat, ghost hi: nat, ghost poisoned: seq<bool>)
      requires Valid() && IsWindow(w, k) && row < hi <= |w.y| == |poisoned|
      requires Holds(Contents(), Slice(w, k, row, hi), k)
      modifies this, sumX, crossXX, crossXY, deviation
      ensures Holds(Contents(), Slice(w, k, row + 1, hi), k)
      ensures tainted == (old(tainted) || poisoned[row])
    {
      RemoveHolds(Contents(), w, k, row, hi);
      Accumulate(w, row, -1.0, poisoned);
    }

    method Clear()
      requires Valid()
      modifies this, sumX, crossXX, crossXY
      ensures Zeroed(Contents(), k) && !tainted
    {
      rows, sumY, crossYY, tainted := 0.0, 0.0, 0.0, false;
      forall i | 0 <= i < k { sumX[i] := 0.0; }
      forall i | 0 <= i < k { crossXY[i] := 0.0; }
      forall i, j | 0 <= i < k && 0 <= j < k { crossXX[i, j] := 0.0; }
    }

    /** The rebuild: anchor on the window's last row and fold it fresh. */
    method Refold(w: Window, lo: nat, hi: nat, ghost poisoned: seq<bool>)
      requires Valid() && IsWindow(w, k) && lo <= hi <= |w.y| == |poisoned|
      modifies this, anchorX, sumX, crossXX, crossXY, deviation
      ensures Holds(Contents(), Slice(w, k, lo, hi), k)
      ensures tainted <==> !Clean(poisoned, lo, hi)
    {
      Clear();
      ZeroedHolds(Contents(), w, k, lo);
      if hi <= lo { return; }
      Anchor(w, hi - 1);
      ZeroedHolds(Contents(), w, k, lo);
      for row := lo to hi
        invariant Holds(Contents(), Slice(w, k, lo, row), k)
        invariant tainted <==> !Clean(poisoned, lo, row)
      {
        CleanGrows(poisoned, lo, row);
        Add(w, row, lo, poisoned);
      }
    }

    /** One frame to the next: the new row in, the departed rows out. */
    method Slide(w: Window, heldFrom: nat, lo: nat, row: nat, ghost poisoned: seq<bool>)
      requires Valid() && IsWindow(w, k) && heldFrom <= lo <= row < |w.y| == |poisoned|
      requires Holds(Contents(), Slice(w, k, heldFrom, row), k) && !tainted
      requires Clean(poisoned, heldFrom, row + 1)
      modifies this, sumX, crossXX, crossXY, deviation
      ensures Holds(Contents(), Slice(w, k, lo, row + 1), k) && !tainted
    {
      Add(w, row, heldFrom, poisoned);
      RemoveAll(w, heldFrom, lo, row, poisoned);
    }

    method RemoveAll(w: Window, heldFrom: nat, lo: nat, row: nat, ghost poisoned: seq<bool>)
      requires Valid() && IsWindow(w, k) && heldFrom <= lo <= row < |w.y| == |poisoned|
      requires Holds(Contents(), Slice(w, k, heldFrom, row + 1), k) && !tainted
      requires Clean(poisoned, heldFrom, row + 1)
      modifies this, sumX, crossXX, crossXY, deviation
      ensures Holds(Contents(), Slice(w, k, lo, row + 1), k) && !tainted
    {
      for stale := heldFrom to lo
        invariant Holds(Contents(), Slice(w, k, stale, row + 1), k)
        invariant !tainted
      {
        assert !poisoned[stale];
        Remove(w, stale, row + 1, poisoned);
      }
    }

    /** Takes the anchor from a data row. */
    method Anchor(w: Window, row: nat)
      requires Valid() && IsWindow(w, k) && row < |w.y| && Zeroed(Contents(), k)
      modifies this`anchorY, anchorX
      ensures Zeroed(Contents(), k)
      ensures anchorY == w.y[row] && forall i :: 0 <= i < k ==> anchorX[i] == w.xs[i][row]
    {
      forall i | 0 <= i < k { anchorX[i] := w.xs[i][row]; }
      anchorY := w.y[row];
    }

    // ---------------------------------------------------------------- the fit

    /** The centered system, written into the scratch matrix and `betas`. */
    method Center(betas: array<real>, meanY: real, ghost w: Window)
      requires Valid() && IsWindow(w, k) && |w.y| > 0 && Holds(Contents(), w, k)
      requires betas.Length == k && betas != anchorX && betas != sumX && betas != crossXY
      requires meanY == sumY / rows
      modifies scratchMatrix, betas
      ensures Shadow(scratchMatrix, Spreads(w, k), k) && betas[..] == Covariances(w, k)
    {
      ghost var t := Contents();
      for i := 0 to k
        invariant forall p, q :: 0 <= p < i && 0 <= q < k ==> scratchMatrix[p, q] == Spreads(w, k)[p][q]
        invariant forall p :: 0 <= p < i ==> betas[p] == Covariances(w, k)[p]
      {
        var meanI := sumX[i] / rows;
        CenterRow(i, meanI, meanY, w);
        CenteringOf(t, w, k, i, i, meanI, meanI, meanY);
        betas[i] := Centering(crossXY[i], rows, meanI, meanY);
      }
    }

    method CenterRow(i: nat, meanI: real, ghost meanY: real, ghost w: Window)
      requires Valid() && IsWindow(w, k) && |w.y| > 0 && Holds(Contents(), w, k) && i < k
      requires meanI == sumX[i] / rows && meanY == sumY / rows
      modifies scratchMatrix
      ensures forall q :: 0 <= q < k ==> scratchMatrix[i, q] == Spreads(w, k)[i][q]
      ensures forall p, q :: 0 <= p < k && 0 <= q < k && p != i ==> scratchMatrix[p, q] == old(scratchMatrix[p, q])
    {
      ghost var t, target := Contents(), Spreads(w, k)[i];
      for j := 0 to k
        invariant forall q :: 0 <= q < j ==> scratchMatrix[i, q] == target[q]
        invariant forall p, q :: 0 <= p < k && 0 <= q < k && p != i ==> scratchMatrix[p, q] == old(scratchMatrix[p, q])
      {
        var meanJ := sumX[j] / rows;
        CenteringOf(t, w, k, i, j, meanI, meanJ, meanY);
        scratchMatrix[i, j] := Centering(crossXX[i, j], rows, meanI, meanJ);
      }
    }

    /** ŷ through the window means, undoing the anchor. */
    method Undo(betas: array<real>, meanY: real, ghost w: Window) returns (intercept: real)
      requires Valid() && IsWindow(w, k) && |w.y| > 0 && betas.Length == k && rows != 0.0
      requires anchorY + meanY == Mean(w.y)
      requires forall p :: 0 <= p < k ==> anchorX[p] + sumX[p] / rows == Mean(w.xs[p])
      ensures intercept == Intercept(w, k, betas[..], k)
    {
      ghost var b := betas[..];
      intercept := anchorY + meanY;
      for p := 0 to k
        invariant intercept == Intercept(w, k, b, p)
      {
        var level := anchorX[p] + sumX[p] / rows;
        intercept := intercept - level * betas[p];
      }
    }

    /** Solves the window's centered system; writes the intercept and the
        coefficients over `out`. */
    method FitWindow(out: array<real>, sqrt: real -> real, ghost w: Window) returns (fit: Fit)
      requires Valid() && IsWindow(w, k) && Holds(Contents(), w, k) && !tainted
      requires out.Length == k + 1 && out !in {anchorX, sumX, crossXY}
      requires forall d :: d > 0.0 ==> sqrt(d) > 0.0 && sqrt(d) * sqrt(d) == d
      modifies out, scratchMatrix
      ensures IsFit(w, k, fit, out[..])
      ensures Contents() == old(Contents())
    {
      if rows < k as real + 1.0 { return NotIdentified; }
      var meanY := sumY / rows;
      var betas := new real[k];
      var ok, cross := SolveCentered(betas, meanY, sqrt, w);
      if !ok { return NotIdentified; }
      MeansOf(Contents(), w, k, meanY);
      var total := Centering(crossYY, rows, meanY, meanY);
      var intercept := Undo(betas, meanY, w);
      fit := Report(out, betas, cross, intercept, total, k, w);
    }

    method SolveCentered(betas: array<real>, meanY: real, sqrt: real -> real, ghost w: Window)
      returns (ok: bool, cross: Vector)
      requires Valid() && IsWindow(w, k) && |w.y| > 0 && Holds(Contents(), w, k)
      requires betas.Length == k && betas != anchorX && betas != sumX && betas != crossXY
      requires meanY == sumY / rows
      requires forall d :: d > 0.0 ==> sqrt(d) > 0.0 && sqrt(d) * sqrt(d) == d
      modifies scratchMatrix, betas
      ensures cross == Covariances(w, k)
      ensures ok <==> UsablySpd(Spreads(w, k), k)
      ensures ok ==> Solves(Spreads(w, k), k, betas[..], cross)
    {
      Center(betas, meanY, w);
      cross := betas[..];
      ok := SolveSpd(scratchMatrix, betas, k, sqrt, Spreads(w, k));
    }
  }

  method Explained(betas: Vector, cross: Vector) returns (explained: real)
    requires |betas| == |cross|
    ensures explained == Dot(betas, cross, |betas|)
  {
    explained := 0.0;
    for p := 0 to |betas|
      invariant explained == Dot(betas, cross, p)
    {
      explained := explained + betas[p] * cross[p];
    }
  }

  /** Writes the coefficients out and reports the explained share. */
  method Report(out: array<real>, betas: array<real>, cross: Vector, intercept: real, total: real, k: nat,
                ghost w: Window)
    returns (fit: Fit)
    requires IsWindow(w, k) && |w.y| > 0 && Identified(w, k) && betas.Length == k && out.Length == k + 1 && out != betas
    requires cross == Covariances(w, k) && Solves(Spreads(w, k), k, betas[..], cross)
    requires intercept == Intercept(w, k, betas[..], k) && total == Spread(w.y, w.y)
    modifies out
    ensures IsFit(w, k, fit, out[..])
  {
    var explained := Explained(betas[..], cross);
    Write(out, intercept, betas);
    FitCloses(w, k, out[..], betas[..], explained, total);
    fit := Share(explained, total);
  }

  method Write(out: array<real>, intercept: real, betas: array<real>)
    requires out.Length == betas.Length + 1 && out != betas
    modifies out
    ensures out[..] == [intercept] + betas[..]
  {
    out[0] := intercept;
    forall p | 0 <= p < betas.Length { out[p + 1] := betas[p]; }
  }

  function Share(explained: real, total: real): Fit {
    if total > 0.0 then Explains(explained / total) else NoVariance
  }

  lemma FitCloses(w: Window, k: nat, c: Vector, betas: Vector, explained: real, total: real)
    requires IsWindow(w, k) && |betas| == k && |w.y| > 0 && Identified(w, k)
    requires Solves(Spreads(w, k), k, betas, Covariances(w, k)) && c == [Intercept(w, k, betas, k)] + betas
    requires explained == Dot(betas, Covariances(w, k), k) && total == Spread(w.y, w.y)
    ensures IsFit(w, k, Share(explained, total), c)
  {
    assert c[1..] == betas;
    CenteredIsLeastSquares(w, k, c);
    if total > 0.0 { RSquaredIsShare(w, k, c, explained, total, explained / total); }
  }

  // ---------------------------------------------------------------- the sweep

  const USIZE_MAX: nat := 0xFFFF_FFFF_FFFF_FFFF

  /** Saturating at zero: the frame of `row` starts `preceding` rows back. */
  function FrameLow(row: nat, preceding: nat): nat { if row < preceding then 0 else row - preceding }

  function WindowLength(preceding: nat): nat { if preceding < USIZE_MAX then preceding + 1 else USIZE_MAX }

  /** A frame ends at its row and reaches `preceding` rows back, no further; a full one
      is as long as the sweep goes without a rebuild. */
  lemma FrameReach(w: Window, k: nat, row: nat, preceding: nat)
    requires IsWindow(w, k) && row < |w.y|
    ensures var frame := Slice(w, k, FrameLow(row, preceding), row + 1);
            && |frame.y| == (if row < preceding then row else preceding) + 1
            && (forall r :: row - |frame.y| < r <= row ==> w.y[r] == frame.y[r - (row - |frame.y| + 1)])
            && (forall i, r :: 0 <= i < k && row - |frame.y| < r <= row ==>
                  w.xs[i][r] == frame.xs[i][r - (row - |frame.y| + 1)])
            && (preceding <= row < 18446744073709551615 ==> |frame.y| == WindowLength(preceding))
  {
  }

  ghost function Count(poisoned: seq<bool>, lo: nat, hi: nat): (c: nat)
    requires hi <= |poisoned|
    ensures c == 0 <==> Clean(poisoned, lo, hi)
    decreases hi
  {
    if hi <= lo then 0 else Count(poisoned, lo, hi - 1) + if poisoned[hi - 1] then 1 else 0
  }

  lemma {:induction false} CountHead(poisoned: seq<bool>, lo: nat, hi: nat)
    requires lo < hi <= |poisoned|
    ensures Count(poisoned, lo, hi) == (if poisoned[lo] then 1 else 0) + Count(poisoned, lo + 1, hi)
    decreases hi
  {
    if hi <= lo + 1 {
    } else {
      CountHead(poisoned, lo, hi - 1);
    }
  }

  /** How a row's frame was answered. */
  datatype Schedule = Recomputed | Rebuilt | Slid

  /** The last rebuild was `since` slides ago, and nothing but slides since. */
  ghost predicate SlidSince(plan: seq<Schedule>, since: nat) {
    && since < |plan| && plan[|plan| - 1 - since] == Rebuilt
    && forall p :: |plan| - since <= p < |plan| ==> plan[p] == Slid
  }

  ghost predicate SlidWithin(plan: seq<Schedule>, window: nat) {
    exists since: nat :: 1 <= since <= window && SlidSince(plan, since)
  }

  ghost predicate RowScheduled(plan: seq<Schedule>, row: nat, poisoned: seq<bool>, preceding: nat)
    requires row < |plan| <= |poisoned|
  {
    && (plan[row] == Recomputed <==> !Clean(poisoned, FrameLow(row, preceding), row + 1))
    && (plan[row] == Slid ==> SlidWithin(plan[..row + 1], WindowLength(preceding)))
  }

  /** Row by row: recomputed exactly where a non-finite row is in the frame, and
      never more than a window's length of slides since a rebuild. */
  ghost predicate Scheduled(plan: seq<Schedule>, poisoned: seq<bool>, preceding: nat)
    requires |plan| <= |poisoned|
  {
    forall row :: 0 <= row < |plan| ==> RowScheduled(plan, row, poisoned, preceding)
  }

  /** A clean frame gets its own window's answer, any other the recompute's. */
  ghost predicate RowAnswered(answer: Option<real>, row: nat, w: Window, k: nat, output: Output, poisoned: seq<bool>,
                              preceding: nat, recompute: (nat, nat) -> Option<real>)
    requires IsWindow(w, k) && Addresses(output, k) && row < |w.y| == |poisoned|
  {
    if Clean(poisoned, FrameLow(row, preceding), row + 1)
    then Reports(Slice(w, k, FrameLow(row, preceding), row + 1), k, output, answer)
    else answer == recompute(FrameLow(row, preceding), row + 1)
  }

  ghost predicate Answered(out: seq<Option<real>>, w: Window, k: nat, output: Output, poisoned: seq<bool>,
                           preceding: nat, recompute: (nat, nat) -> Option<real>)
    requires IsWindow(w, k) && Addresses(output, k) && |out| <= |w.y| == |poisoned|
  {
    forall row :: 0 <= row < |out| ==> RowAnswered(out[row], row, w, k, output, poisoned, preceding, recompute)
  }

  lemma AnsweredGrows(out: seq<Option<real>>, answer: Option<real>, w: Window, k: nat, output: Output,
                      poisoned: seq<bool>, preceding: nat, recompute: (nat, nat) -> Option<real>)
    requires IsWindow(w, k) && Addresses(output, k) && |out| < |w.y| == |poisoned|
    requires Answered(out, w, k, output, poisoned, preceding, recompute)
    requires RowAnswered(answer, |out|, w, k, output, poisoned, preceding, recompute)
    ensures Answered(out + [answer], w, k, output, poisoned, preceding, recompute)
  {
  }

  /** The frame's non-finite count, kept as the frame moves. */
  method Leave(poisoned: seq<bool>, low: nat, lo: nat, hi: nat, counted: nat) returns (dirty: nat)
    requires low <= lo <= hi <= |poisoned| && counted == Count(poisoned, low, hi)
    ensures dirty == Count(poisoned, lo, hi)
  {
    dirty := counted;
    for leaving := low to lo
      invariant dirty == Count(poisoned, leaving, hi)
    {
      CountHead(poisoned, leaving, hi);
      if poisoned[leaving] { dirty := dirty - 1; }
    }
  }

  class MultiFactorRegression {
    const factors: nat
    const output: Output

    constructor (k: nat, reported: Output)
      requires k >= 1 && Addresses(reported, k)
      ensures factors == k && output == reported
    {
      factors, output := k, reported;
    }

    method Answer(moments: FactorMoments, sqrt: real -> real, ghost w: Window) returns (answer: Option<real>)
      requires moments.Valid() && moments.k == factors && IsWindow(w, factors) && Addresses(output, factors)
      requires Holds(moments.Contents(), w, factors) && !moments.tainted
      requires forall d :: d > 0.0 ==> sqrt(d) > 0.0 && sqrt(d) * sqrt(d) == d
      modifies moments.scratchMatrix
      ensures moments.Contents() == old(moments.Contents())
      ensures Reports(w, factors, output, answer)
    {
      var coefficients := new real[factors + 1];
      var fit := moments.FitWindow(coefficients, sqrt, w);
      answer := Picked(fit, coefficients[..], output);
    }

    /** One frame on its own. */
    method Evaluate(args: Window, sqrt: real -> real) returns (answer: Option<real>)
      requires IsWindow(args, factors) && Addresses(output, factors)
      requires forall d :: d > 0.0 ==> sqrt(d) > 0.0 && sqrt(d) * sqrt(d) == d
      ensures Reports(args, factors, output, answer)
    {
      var moments := new FactorMoments(factors);
      moments.Refold(args, 0, |args.y|, seq(|args.y|, _ => false));
      WholeSlice(args, factors);
      answer := Answer(moments, sqrt, args);
    }

    /** A clean frame: rebuilt when a window's length has gone by (or the
        accumulator is stale), slid otherwise. */
    method CleanFrame(moments: FactorMoments, w: Window, poisoned: seq<bool>, heldFrom: nat, lo: nat, row: nat,
                      sinceRebuild: nat, window: nat, sqrt: real -> real)
      returns (answer: Option<real>, since: nat)
      requires moments.Valid() && moments.k == factors && IsWindow(w, factors) && Addresses(output, factors)
      requires heldFrom <= lo <= row < |w.y| == |poisoned| && Clean(poisoned, lo, row + 1)
      requires sinceRebuild < window ==> Carried(moments, w, poisoned, heldFrom, row)
      requires forall d :: d > 0.0 ==> sqrt(d) > 0.0 && sqrt(d) * sqrt(d) == d
      modifies moments.Repr()
      ensures Carried(moments, w, poisoned, lo, row + 1)
      ensures Reports(Slice(w, factors, lo, row + 1), factors, output, answer)
      ensures since == if sinceRebuild >= window then 0 else sinceRebuild + 1
    {
      if sinceRebuild >= window {
        moments.Refold(w, lo, row + 1, poisoned);
        since := 0;
      } else {
        moments.Slide(w, heldFrom, lo, row, poisoned);
        since := sinceRebuild + 1;
      }
      answer := Answer(moments, sqrt, Slice(w, factors, lo, row + 1));
    }

    /** The accumulator is exactly the frame's moments, and untainted. */
    ghost predicate Carried(moments: FactorMoments, w: Window, poisoned: seq<bool>, lo: nat, hi: nat)
      requires moments.Valid() && moments.k == factors && IsWindow(w, factors) && lo <= hi <= |w.y| == |poisoned|
      reads moments, moments.anchorX, moments.sumX, moments.crossXX, moments.crossXY
    {
      Holds(moments.Contents(), Slice(w, factors, lo, hi), factors) && !moments.tainted && Clean(poisoned, lo, hi)
    }

    /** One row's frame: counted, then recomputed, rebuilt or slid. */
    method Frame(moments: FactorMoments, w: Window, poisoned: seq<bool>, preceding: nat, low: nat, row: nat,
                 sinceRebuild: nat, counted: nat, sqrt: real -> real, recompute: (nat, nat) -> Option<real>,
                 ghost out: seq<Option<real>>)
      returns (answer: Option<real>, since: nat, dirty: nat, ghost step: Schedule)
      requires moments.Valid() && moments.k == factors && IsWindow(w, factors) && Addresses(output, factors)
      requires low <= FrameLow(row, preceding) && low <= row < |w.y| == |poisoned|
      requires counted == Count(poisoned, low, row)
      requires sinceRebuild < WindowLength(preceding) ==> Carried(moments, w, poisoned, low, row)
      requires forall d :: d > 0.0 ==> sqrt(d) > 0.0 && sqrt(d) * sqrt(d) == d
      requires |out| == row && Answered(out, w, factors, output, poisoned, preceding, recompute)
      modifies moments.Repr()
      ensures dirty == Count(poisoned, FrameLow(row, preceding), row + 1)
      ensures Answered(out + [answer], w, factors, output, poisoned, preceding, recompute)
      ensures step == Recomputed <==> !Clean(poisoned, FrameLow(row, preceding), row + 1)
      ensures step == Recomputed ==> since == USIZE_MAX
      ensures step == Rebuilt ==> since == 0
      ensures step == Slid ==> sinceRebuild < WindowLength(preceding) && since == sinceRebuild + 1
      ensures since < WindowLength(preceding) ==> Carried(moments, w, poisoned, FrameLow(row, preceding), row + 1)
    {
      var lo := FrameLow(row, preceding);
      dirty := counted;
      if poisoned[row] { dirty := dirty + 1; }
      dirty := Leave(poisoned, low, lo, row + 1, dirty);
      if dirty > 0 {
        answer, since, step := recompute(lo, row + 1), USIZE_MAX, Recomputed;
      } else {
        var window := WindowLength(preceding);
        step := if sinceRebuild >= window then Rebuilt else Slid;
        answer, since := CleanFrame(moments, w, poisoned, low, lo, row, sinceRebuild, window, sqrt);
      }
      AnsweredGrows(out, answer, w, factors, output, poisoned, preceding, recompute);
    }

    /** The incremental sweep over every row's trailing frame. */
    method EvaluateFrames(w: Window, poisoned: seq<bool>, preceding: nat, sqrt: real -> real,
                          recompute: (nat, nat) -> Option<real>)
      returns (out: seq<Option<real>>, ghost plan: seq<Schedule>)
      requires IsWindow(w, factors) && Addresses(output, factors) && |poisoned| == |w.y|
      requires forall d :: d > 0.0 ==> sqrt(d) > 0.0 && sqrt(d) * sqrt(d) == d
      ensures |out| == |plan| == |w.y|
      ensures Answered(out, w, factors, output, poisoned, preceding, recompute)
      ensures Scheduled(plan, poisoned, preceding)
    {
      var moments := new FactorMoments(factors);
      out, plan := Sweep(moments, w, poisoned, preceding, sqrt, recompute);
    }

    method Sweep(moments: FactorMoments, w: Window, poisoned: seq<bool>, preceding: nat, sqrt: real -> real,
                 recompute: (nat, nat) -> Option<real>)
      returns (out: seq<Option<real>>, ghost plan: seq<Schedule>)
      requires moments.Valid() && moments.k == factors
      requires IsWindow(w, factors) && Addresses(output, factors) && |poisoned| == |w.y|
      requires forall d :: d > 0.0 ==> sqrt(d) > 0.0 && sqrt(d) * sqrt(d) == d
      modifies moments.Repr()
      ensures |out| == |plan| == |w.y|
      ensures Answered(out, w, factors, output, poisoned, preceding, recompute)
      ensures Scheduled(plan, poisoned, preceding)
    {
      out, plan := [], [];
      ghost var counts: seq<nat> := [];
      var low: nat, sinceRebuild: nat, dirty: nat := 0, USIZE_MAX, 0;
      for row := 0 to |w.y|
        invariant |out| == row && low <= FrameLow(row, preceding) && low <= row
        invariant dirty == Count(poisoned, low, row)
        invariant sinceRebuild < WindowLength(preceding) ==> Carried(moments, w, poisoned, low, row)
        invariant Answered(out, w, factors, output, poisoned, preceding, recompute)
        invariant Chained(plan, counts, sinceRebuild, poisoned, preceding, row)
      {
        ghost var since, step := sinceRebuild, Recomputed;
        var answer;
        answer, sinceRebuild, dirty, step :=
          Frame(moments, w, poisoned, preceding, low, row, sinceRebuild, dirty, sqrt, recompute, out);
        low := FrameLow(row, preceding);
        ChainGrows(plan, counts, since, step, sinceRebuild, poisoned, preceding);
        out, plan, counts := out + [answer], plan + [step], counts + [sinceRebuild];
      }
      ChainIsScheduled(plan, counts, sinceRebuild, poisoned, preceding);
    }
  }

  /** How one row's slide count follows from the last. */
  ghost predicate Link(plan: seq<Schedule>, counts: seq<nat>, row: nat, poisoned: seq<bool>, preceding: nat)
    requires row < |plan| == |counts| <= |poisoned|
  {
    && (plan[row] == Recomputed <==> !Clean(poisoned, FrameLow(row, preceding), row + 1))
    && (plan[row] == Recomputed ==> counts[row] == USIZE_MAX)
    && (plan[row] == Rebuilt ==> counts[row] == 0)
    && (plan[row] == Slid ==>
          row > 0 && counts[row - 1] < WindowLength(preceding) && counts[row] == counts[row - 1] + 1)
  }

  ghost predicate Chained(plan: seq<Schedule>, counts: seq<nat>, since: nat, poisoned: seq<bool>, preceding: nat,
                          rows: nat) {
    && |plan| == |counts| == rows <= |poisoned|
    && since == (if rows == 0 then USIZE_MAX else counts[rows - 1])
    && forall row :: 0 <= row < rows ==> Link(plan, counts, row, poisoned, preceding)
  }

  lemma ChainGrows(plan: seq<Schedule>, counts: seq<nat>, since: nat, step: Schedule, next: nat,
                   poisoned: seq<bool>, preceding: nat)
    requires Chained(plan, counts, since, poisoned, preceding, |plan|) && |plan| < |poisoned|
    requires step == Recomputed <==> !Clean(poisoned, FrameLow(|plan|, preceding), |plan| + 1)
    requires step == Recomputed ==> next == USIZE_MAX
    requires step == Rebuilt ==> next == 0
    requires step == Slid ==> since < WindowLength(preceding) && next == since + 1
    ensures Chained(plan + [step], counts + [next], next, poisoned, preceding, |plan| + 1)
  {
    var plan', counts' := plan + [step], counts + [next];
    forall row | 0 <= row < |plan'| ensures Link(plan', counts', row, poisoned, preceding) {
      if row < |plan| { assert Link(plan, counts, row, poisoned, preceding); }
    }
  }

  /** A chain of slide counts is a schedule. */
  lemma {:induction false} ChainIsScheduled(plan: seq<Schedule>, counts: seq<nat>, since: nat, poisoned: seq<bool>,
                                            preceding: nat)
    requires Chained(plan, counts, since, poisoned, preceding, |plan|)
    ensures Scheduled(plan, poisoned, preceding)
    ensures since < WindowLength(preceding) ==> SlidSince(plan, since)
  {
    if plan == [] {
    } else {
      var n := |plan| - 1;
      var before := plan[..n];
      assert Link(plan, counts, n, poisoned, preceding);
      forall row | 0 <= row < n ensures Link(before, counts[..n], row, poisoned, preceding) {
        assert Link(plan, counts, row, poisoned, preceding);
      }
      var since' := if n == 0 then USIZE_MAX else counts[n - 1];
      ChainIsScheduled(before, counts[..n], since', poisoned, preceding);
      PlanStep(before, plan, poisoned, preceding, since);
    }
  }

  /** The plan grows by one row and stays scheduled. */
  lemma PlanStep(before: seq<Schedule>, plan: seq<Schedule>, poisoned: seq<bool>, preceding: nat, since: nat)
    requires |plan| == |before| + 1 <= |poisoned| && plan[..|before|] == before
    requires Scheduled(before, poisoned, preceding)
    requires plan[|before|] == Recomputed <==> !Clean(poisoned, FrameLow(|before|, preceding), |before| + 1)
    requires plan[|before|] == Slid ==> 1 <= since <= WindowLength(preceding) && SlidSince(before, since - 1)
    ensures Scheduled(plan, poisoned, preceding)
    ensures plan[|before|] == Slid ==> SlidSince(plan, since)
  {
    forall row | 0 <= row < |plan| ensures RowScheduled(plan, row, poisoned, preceding) {
      if row < |before| {
        assert RowScheduled(before, row, poisoned, preceding);
        assert plan[..row + 1] == before[..row + 1];
      } else {
        assert plan[..row + 1] == plan;
        assert plan[row] == Slid ==> SlidSince(plan, since);
      }
    }
  }

  /** Two schedules over the same column answer alike: the sweep is the recompute. */
  lemma SchedulesAgree(one: seq<Option<real>>, other: seq<Option<real>>, w: Window, k: nat, output: Output,
                       poisoned: seq<bool>, preceding: nat, recompute: (nat, nat) -> Option<real>)
    requires IsWindow(w, k) && Addresses(output, k) && |one| == |other| <= |w.y| == |poisoned|
    requires Answered(one, w, k, output, poisoned, preceding, recompute)
    requires Answered(other, w, k, output, poisoned, preceding, recompute)
    ensures one == other
  {
    forall row | 0 <= row < |one| ensures one[row] == other[row] {
      if Clean(poisoned, FrameLow(row, preceding), row + 1) {
        ReportsOneAnswer(Slice(w, k, FrameLow(row, preceding), row + 1), k, output, one[row], other[row]);
      }
    }
  }

  lemma WholeSlice(w: Window, k: nat)
    requires IsWindow(w, k)
    ensures Slice(w, k, 0, |w.y|) == w
  {
    assert w.y[0..|w.y|] == w.y;
    assert forall i :: 0 <= i < k ==> Slice(w, k, 0, |w.y|).xs[i] == w.xs[i];
  }
}