/** What a fit over one window means (src/multifactor.rs): the raw normal
    equations, their centered form, and why a solution is the best fit. */
module Fitting {
  import opened Solve

  /** One frame: `k` factor columns and a response, row for row. */
  datatype Window = Window(xs: seq<Vector>, y: Vector)

  ghost predicate IsWindow(w: Window, k: nat) {
    |w.xs| == k && forall i :: 0 <= i < k ==> |w.xs[i]| == |w.y|
  }

  ghost function Slice(w: Window, k: nat, lo: nat, hi: nat): (s: Window)
    requires IsWindow(w, k) && lo <= hi <= |w.y|
    ensures IsWindow(s, k)
  {
    Window(seq(k, i requires 0 <= i < k => w.xs[i][lo..hi]), w.y[lo..hi])
  }

  // ------------------------------------------------------------------ vectors

  ghost function Ones(n: nat): Vector { seq(n, _ => 1.0) }

  /** u + s·v. */
  ghost function Axpy(u: Vector, s: real, v: Vector): (w: Vector)
    requires |u| == |v|
    ensures |w| == |u|
  {
    seq(|u|, r requires 0 <= r < |u| => u[r] + s * v[r])
  }

  /** Deviations from an anchor. */
  ghost function Dev(u: Vector, a: real): (w: Vector)
    ensures |w| == |u|
  {
    seq(|u|, r requires 0 <= r < |u| => u[r] - a)
  }

  ghost function Inner(u: Vector, v: Vector): real
    requires |u| == |v|
  {
    Dot(u, v, |u|)
  }

  lemma {:induction false} DotLinear(u: Vector, s: real, v: Vector, w: Vector, n: nat)
    requires |u| == |v| == |w| && n <= |u|
    ensures Dot(Axpy(u, s, v), w, n) == Dot(u, w, n) + s * Dot(v, w, n)
  {
    if n == 0 {
    } else {
      DotLinear(u, s, v, w, n - 1);
      Distribute(u[n - 1], s, v[n - 1], w[n - 1], Dot(v, w, n - 1));
    }
  }

  lemma Distribute(u: real, s: real, v: real, w: real, rest: real)
    ensures (u + s * v) * w + s * rest == u * w + s * (rest + v * w)
  {
  }

  lemma InnerLinear(u: Vector, s: real, v: Vector, w: Vector)
    requires |u| == |v| == |w|
    ensures Inner(Axpy(u, s, v), w) == Inner(u, w) + s * Inner(v, w)
    ensures Inner(w, Axpy(u, s, v)) == Inner(w, u) + s * Inner(w, v)
  {
    var n := |u|;
    DotLinear(u, s, v, w, n);
    DotCommutes(w, Axpy(u, s, v), n);
    DotCommutes(w, u, n);
    DotCommutes(w, v, n);
  }

  lemma InnerDev(u: Vector, a: real, v: Vector)
    requires |u| == |v|
    ensures Inner(v, Dev(u, a)) == Inner(v, u) - a * Inner(v, Ones(|u|))
    ensures Inner(Dev(u, a), v) == Inner(u, v) - a * Inner(Ones(|u|), v)
  {
    assert Dev(u, a) == Axpy(u, -a, Ones(|u|));
    InnerLinear(u, -a, Ones(|u|), v);
  }

  lemma {:induction false} DotSquare(u: Vector, n: nat)
    requires n <= |u|
    ensures Dot(u, u, n) >= 0.0
  {
    if n == 0 {
    } else {
      DotSquare(u, n - 1);
      SquareIsNonNegative(u[n - 1]);
    }
  }

  lemma SquareIsNonNegative(x: real)
    ensures x * x >= 0.0
  {
  }

  lemma {:induction false} DotOnes(n: nat, m: nat)
    requires m <= n
    ensures Dot(Ones(n), Ones(n), m) == m as real
  {
    if m == 0 {
    } else {
      DotOnes(n, m - 1);
    }
  }

  // ------------------------------------------------------------------ moments

  /** Σ (u − a)(v − b), the anchored cross moment. */
  ghost function Moment(u: Vector, a: real, v: Vector, b: real): real
    requires |u| == |v|
  {
    Inner(Dev(u, a), Dev(v, b))
  }

  /** Σ (u − a). */
  ghost function Sum(u: Vector, a: real): real { Moment(u, a, Ones(|u|), 0.0) }

  ghost function Mean(u: Vector): real
    requires |u| > 0
  {
    Sum(u, 0.0) / |u| as real
  }

  /** Σ (u − ū)(v − v̄). */
  ghost function Spread(u: Vector, v: Vector): real
    requires |u| == |v| > 0
  {
    Moment(u, Mean(u), v, Mean(v))
  }

  /** A row entering at the end adds its own product. */
  lemma MomentAppend(u: Vector, a: real, v: Vector, b: real, p: real, q: real)
    requires |u| == |v|
    ensures Moment(u + [p], a, v + [q], b) == Moment(u, a, v, b) + (p - a) * (q - b)
  {
    DotPrefix(Dev(u + [p], a), Dev(v + [q], b), Dev(u, a), Dev(v, b), |u|);
  }

  lemma {:induction false} DotHead(u: Vector, v: Vector, p: real, q: real, n: nat)
    requires n <= |u| && n <= |v|
    ensures Dot([p] + u, [q] + v, n + 1) == p * q + Dot(u, v, n)
  {
    if n == 0 {
    } else {
      DotHead(u, v, p, q, n - 1);
    }
  }

  /** A row leaving at the front takes its own product away. */
  lemma MomentPrepend(u: Vector, a: real, v: Vector, b: real, p: real, q: real)
    requires |u| == |v|
    ensures Moment([p] + u, a, [q] + v, b) == (p - a) * (q - b) + Moment(u, a, v, b)
  {
    assert Dev([p] + u, a) == [p - a] + Dev(u, a);
    assert Dev([q] + v, b) == [q - b] + Dev(v, b);
    DotHead(Dev(u, a), Dev(v, b), p - a, q - b, |u|);
  }

  /** A row entering, by its deviations. */
  lemma MomentGains(u: Vector, a: real, v: Vector, b: real, last: real, other: real, p: real, q: real)
    requires |u| == |v| && p == last - a && q == other - b
    ensures Moment(u + [last], a, v + [other], b) == Moment(u, a, v, b) + p * q
  {
    MomentAppend(u, a, v, b, last, other);
  }

  /** A row leaving, solved for what is left; `p` and `q` are the row's deviations. */
  lemma MomentDrops(u: Vector, a: real, v: Vector, b: real, first: real, second: real, p: real, q: real)
    requires |u| == |v| && p == first - a && q == second - b
    ensures Moment(u, a, v, b) == Moment([first] + u, a, [second] + v, b) - p * q
  {
    MomentPrepend(u, a, v, b, first, second);
  }

  /** A range one row longer at the end; `p` and `q` are the row's deviations. */
  lemma MomentGrows(u: Vector, a: real, v: Vector, b: real, lo: nat, hi: nat, p: real, q: real)
    requires |u| == |v| && lo <= hi < |u| && p == u[hi] - a && q == v[hi] - b
    ensures Moment(u[lo..hi + 1], a, v[lo..hi + 1], b) == Moment(u[lo..hi], a, v[lo..hi], b) + p * q
    ensures Sum(u[lo..hi + 1], a) == Sum(u[lo..hi], a) + p
  {
    assert u[lo..hi + 1] == u[lo..hi] + [u[hi]] && v[lo..hi + 1] == v[lo..hi] + [v[hi]];
    assert Ones(hi + 1 - lo) == Ones(hi - lo) + [1.0];
    MomentAppend(u[lo..hi], a, v[lo..hi], b, u[hi], v[hi]);
    MomentAppend(u[lo..hi], a, Ones(hi - lo), 0.0, u[hi], 1.0);
  }

  /** A range one row shorter at the front. */
  lemma MomentShrinks(u: Vector, a: real, v: Vector, b: real, lo: nat, hi: nat, p: real, q: real)
    requires |u| == |v| && lo < hi <= |u| && p == u[lo] - a && q == v[lo] - b
    ensures Moment(u[lo + 1..hi], a, v[lo + 1..hi], b) == Moment(u[lo..hi], a, v[lo..hi], b) - p * q
    ensures Sum(u[lo + 1..hi], a) == Sum(u[lo..hi], a) - p
  {
    assert u[lo..hi] == [u[lo]] + u[lo + 1..hi] && v[lo..hi] == [v[lo]] + v[lo + 1..hi];
    assert Ones(hi - lo) == [1.0] + Ones(hi - lo - 1);
    MomentPrepend(u[lo + 1..hi], a, v[lo + 1..hi], b, u[lo], v[lo]);
    MomentPrepend(u[lo + 1..hi], a, Ones(hi - lo - 1), 0.0, u[lo], 1.0);
  }

  /** Moving both anchors. */
  lemma MomentMoves(u: Vector, a: real, v: Vector, b: real)
    requires |u| == |v|
    ensures Moment(u, a, v, b) == Inner(u, v) - b * Sum(u, 0.0) - a * Sum(v, 0.0) + |u| as real * (a * b)
    ensures Sum(u, a) == Sum(u, 0.0) - |u| as real * a
    ensures Sum(u, 0.0) == Inner(u, Ones(|u|)) == Inner(Ones(|u|), u)
  {
    var n := |u|;
    DotOnes(n, n);
    InnerDev(u, a, Dev(v, b));
    InnerDev(v, b, u);
    InnerDev(v, b, Ones(n));
    SumIsInner(u);
    SumIsInner(v);
    InnerDev(u, a, Ones(n));
    assert Dev(Ones(n), 0.0) == Ones(n);
    Product(n as real, a, b, Inner(u, v), Sum(u, 0.0), Sum(v, 0.0));
  }

  lemma Product(n: real, a: real, b: real, uv: real, su: real, sv: real)
    ensures uv - b * su - a * (sv - b * n) == uv - b * su - a * sv + n * (a * b)
  {
  }

  lemma SumIsInner(u: Vector)
    ensures Sum(u, 0.0) == Inner(u, Ones(|u|)) == Inner(Ones(|u|), u)
  {
    assert Dev(Ones(|u|), 0.0) == Ones(|u|);
    assert Dev(u, 0.0) == u;
    DotCommutes(u, Ones(|u|), |u|);
  }

  lemma MeanTimesCount(u: Vector)
    requires |u| > 0
    ensures |u| as real * Mean(u) == Sum(u, 0.0)
  {
  }

  /** Whatever the anchors, centering the moments gives the spread. */
  lemma CenteringForgetsAnchors(u: Vector, a: real, v: Vector, b: real, meanU: real, meanV: real)
    requires |u| == |v| > 0
    requires |u| as real * meanU == Sum(u, a) && |u| as real * meanV == Sum(v, b)
    ensures Moment(u, a, v, b) - |u| as real * meanU * meanV == Spread(u, v)
    ensures a + meanU == Mean(u)
  {
    var n := |u| as real;
    MomentMoves(u, a, v, b);
    MomentMoves(v, b, u, a);
    MomentMoves(u, Mean(u), v, Mean(v));
    MeanTimesCount(u);
    MeanTimesCount(v);
    SameMean(n, a, meanU, Mean(u), Sum(u, 0.0));
    SameMean(n, b, meanV, Mean(v), Sum(v, 0.0));
    CenteringAlgebra(n, a, b, meanU, meanV, Mean(u), Mean(v), Inner(u, v), Sum(u, 0.0), Sum(v, 0.0));
  }

  lemma SameMean(n: real, a: real, shifted: real, mean: real, sum: real)
    requires n > 0.0 && n * shifted == sum - n * a && n * mean == sum
    ensures a + shifted == mean
  {
    assert (a + shifted - mean) * n == 0.0;
  }

  lemma CenteringAlgebra(n: real, a: real, b: real, p: real, q: real, mu: real, mv: real, uv: real, su: real, sv: real)
    requires mu == a + p && mv == b + q && su == n * mu && sv == n * mv
    ensures uv - b * su - a * sv + n * (a * b) - n * p * q == uv - mv * su - mu * sv + n * (mu * mv)
  {
    assert su == n * a + n * p && sv == n * b + n * q;
    assert b * su == n * (a * b) + n * (p * b);
    assert a * sv == n * (a * b) + n * (a * q);
    assert mv * su == n * (mu * mv) && mu * sv == n * (mu * mv);
    assert mu * mv == a * b + a * q + p * b + p * q;
  }

  lemma SpreadIsInner(u: Vector, v: Vector)
    requires |u| == |v| > 0
    ensures Inner(u, Dev(v, Mean(v))) == Spread(u, v) == Spread(v, u)
    ensures Inner(Ones(|u|), Dev(v, Mean(v))) == 0.0
  {
    var n := |u|;
    var d := Dev(v, Mean(v));
    DotOnes(n, n);
    InnerDev(v, Mean(v), Ones(n));
    SumIsInner(v);
    MeanTimesCount(v);
    InnerDev(u, Mean(u), d);
    DotCommutes(Dev(u, Mean(u)), d, n);
  }

  // ------------------------------------------------------------ the fitted line

  /** The first `j` factors' fitted values: c[0] + Σ c[p + 1]·x[p]. */
  ghost function Fitted(w: Window, k: nat, c: Vector, j: nat): (f: Vector)
    requires IsWindow(w, k) && |c| == k + 1 && j <= k
    ensures |f| == |w.y|
  {
    if j == 0 then seq(|w.y|, _ => c[0]) else Axpy(Fitted(w, k, c, j - 1), c[j], w.xs[j - 1])
  }

  ghost function Residual(w: Window, k: nat, c: Vector): (e: Vector)
    requires IsWindow(w, k) && |c| == k + 1
    ensures |e| == |w.y|
  {
    Axpy(w.y, -1.0, Fitted(w, k, c, k))
  }

  /** The squared error. */
  ghost function Sse(w: Window, k: nat, c: Vector): real
    requires IsWindow(w, k) && |c| == k + 1
  {
    Inner(Residual(w, k, c), Residual(w, k, c))
  }

  /** What the first `j` factors of row `r` say the response is. */
  ghost function LineAt(w: Window, k: nat, c: Vector, r: nat, j: nat): real
    requires IsWindow(w, k) && |c| == k + 1 && r < |w.y| && j <= k
  {
    if j == 0 then c[0] else LineAt(w, k, c, r, j - 1) + c[j] * w.xs[j - 1][r]
  }

  ghost function Squared(v: real): real { v * v }

  /** The squared misses of the first `n` rows, added up. */
  ghost function SquaredMisses(w: Window, k: nat, c: Vector, n: nat): real
    requires IsWindow(w, k) && |c| == k + 1 && n <= |w.y|
  {
    if n == 0 then 0.0
    else SquaredMisses(w, k, c, n - 1) + Squared(w.y[n - 1] - LineAt(w, k, c, n - 1, k))
  }

  lemma {:induction false} FittedIsLine(w: Window, k: nat, c: Vector, r: nat, j: nat)
    requires IsWindow(w, k) && |c| == k + 1 && r < |w.y| && j <= k
    ensures Fitted(w, k, c, j)[r] == LineAt(w, k, c, r, j)
  {
    if j == 0 {
    } else {
      FittedIsLine(w, k, c, r, j - 1);
    }
  }

  lemma DotSquares(e: Vector, n: nat)
    requires 0 < n <= |e|
    ensures Dot(e, e, n) == Dot(e, e, n - 1) + Squared(e[n - 1])
  {
  }

  lemma {:induction false} ErrorsAddUp(w: Window, k: nat, c: Vector, n: nat)
    requires IsWindow(w, k) && |c| == k + 1 && n <= |w.y|
    ensures Dot(Residual(w, k, c), Residual(w, k, c), n) == SquaredMisses(w, k, c, n)
  {
    if n == 0 {
    } else {
      ErrorsAddUp(w, k, c, n - 1);
      FittedIsLine(w, k, c, n - 1, k);
      DotSquares(Residual(w, k, c), n);
    }
  }

  /** The squared error, row by row: the response less the line, squared. */
  lemma SseIsMisses(w: Window, k: nat, c: Vector)
    requires IsWindow(w, k) && |c| == k + 1
    ensures Sse(w, k, c) == SquaredMisses(w, k, c, |w.y|)
  {
    ErrorsAddUp(w, k, c, |w.y|);
  }

  /** The raw normal equations: the residual is orthogonal to every column. */
  ghost predicate LeastSquares(w: Window, k: nat, c: Vector)
    requires IsWindow(w, k) && |c| == k + 1
  {
    && Inner(Residual(w, k, c), Ones(|w.y|)) == 0.0
    && forall i :: 0 <= i < k ==> Inner(Residual(w, k, c), w.xs[i]) == 0.0
  }

  lemma {:induction false} FittedIsOrthogonal(w: Window, k: nat, c: Vector, g: Vector, j: nat)
    requires IsWindow(w, k) && |c| == |g| == k + 1 && j <= k && LeastSquares(w, k, c)
    ensures Inner(Residual(w, k, c), Fitted(w, k, g, j)) == 0.0
  {
    var e := Residual(w, k, c);
    if j == 0 {
      assert Fitted(w, k, g, 0) == Axpy(Ones(|w.y|), g[0] - 1.0, Ones(|w.y|));
      InnerLinear(Ones(|w.y|), g[0] - 1.0, Ones(|w.y|), e);
    } else {
      FittedIsOrthogonal(w, k, c, g, j - 1);
      InnerLinear(Fitted(w, k, g, j - 1), g[j], w.xs[j - 1], e);
    }
  }

  /** No other coefficients do better on this window. */
  lemma LeastSquaresIsBest(w: Window, k: nat, c: Vector, g: Vector)
    requires IsWindow(w, k) && |c| == |g| == k + 1 && LeastSquares(w, k, c)
    ensures Sse(w, k, c) <= Sse(w, k, g)
  {
    var e, e' := Residual(w, k, c), Residual(w, k, g);
    var d := Axpy(Fitted(w, k, c, k), -1.0, Fitted(w, k, g, k));
    assert e' == Axpy(e, 1.0, d);
    InnerLinear(e, 1.0, d, e');
    InnerLinear(e, 1.0, d, e);
    InnerLinear(e, 1.0, d, d);
    InnerLinear(Fitted(w, k, c, k), -1.0, Fitted(w, k, g, k), e);
    FittedIsOrthogonal(w, k, c, c, k);
    FittedIsOrthogonal(w, k, c, g, k);
    DotCommutes(d, e, |e|);
    DotSquare(d, |d|);
  }

  // -------------------------------------------------------- the centered system

  ghost function Spreads(w: Window, k: nat): (m: Matrix)
    requires IsWindow(w, k) && |w.y| > 0
    ensures Square(m, k)
  {
    seq(k, i requires 0 <= i < k => seq(k, j requires 0 <= j < k => Spread(w.xs[i], w.xs[j])))
  }

  ghost function Covariances(w: Window, k: nat): (c: Vector)
    requires IsWindow(w, k) && |w.y| > 0
    ensures |c| == k
  {
    seq(k, i requires 0 <= i < k => Spread(w.xs[i], w.y))
  }

  /** Σ_{p < j} c[p + 1]·⟨x_p, v⟩. */
  ghost function Mixed(w: Window, k: nat, c: Vector, v: Vector, j: nat): real
    requires IsWindow(w, k) && |c| == k + 1 && |v| == |w.y| && j <= k
  {
    if j == 0 then 0.0 else Mixed(w, k, c, v, j - 1) + c[j] * Inner(w.xs[j - 1], v)
  }

  lemma {:induction false} FittedAgainst(w: Window, k: nat, c: Vector, v: Vector, j: nat)
    requires IsWindow(w, k) && |c| == k + 1 && |v| == |w.y| && j <= k
    ensures Inner(Fitted(w, k, c, j), v) == c[0] * Inner(Ones(|v|), v) + Mixed(w, k, c, v, j)
  {
    if j == 0 {
      assert Fitted(w, k, c, 0) == Axpy(Ones(|v|), c[0] - 1.0, Ones(|v|));
      InnerLinear(Ones(|v|), c[0] - 1.0, Ones(|v|), v);
    } else {
      FittedAgainst(w, k, c, v, j - 1);
      InnerLinear(Fitted(w, k, c, j - 1), c[j], w.xs[j - 1], v);
    }
  }

  lemma ResidualAgainst(w: Window, k: nat, c: Vector, v: Vector)
    requires IsWindow(w, k) && |c| == k + 1 && |v| == |w.y|
    ensures Inner(Residual(w, k, c), v) == Inner(w.y, v) - c[0] * Inner(Ones(|v|), v) - Mixed(w, k, c, v, k)
  {
    InnerLinear(w.y, -1.0, Fitted(w, k, c, k), v);
    FittedAgainst(w, k, c, v, k);
  }

  /** Against a centered column, the factor sum is a row of the centered system. */
  lemma {:induction false} MixedIsRow(w: Window, k: nat, c: Vector, i: nat, j: nat)
    requires IsWindow(w, k) && |c| == k + 1 && |w.y| > 0 && i < k && j <= k
    ensures Mixed(w, k, c, Dev(w.xs[i], Mean(w.xs[i])), j) == SymDot(Spreads(w, k), k, c[1..], i, j)
  {
    if j == 0 {
    } else {
      MixedIsRow(w, k, c, i, j - 1);
      SpreadIsInner(w.xs[j - 1], w.xs[i]);
      assert Sym(Spreads(w, k), k, i, j - 1) == Spread(w.xs[j - 1], w.xs[i]);
    }
  }

  /** ȳ − Σ_{p < j} x̄_p·c[p + 1]. */
  ghost function Intercept(w: Window, k: nat, betas: Vector, j: nat): real
    requires IsWindow(w, k) && |betas| == k && |w.y| > 0 && j <= k
  {
    if j == 0 then Mean(w.y) else Intercept(w, k, betas, j - 1) - Mean(w.xs[j - 1]) * betas[j - 1]
  }

  lemma {:induction false} InterceptAgainstOnes(w: Window, k: nat, c: Vector, j: nat)
    requires IsWindow(w, k) && |c| == k + 1 && |w.y| > 0 && j <= k
    ensures Inner(w.y, Ones(|w.y|)) - Mixed(w, k, c, Ones(|w.y|), j) == |w.y| as real * Intercept(w, k, c[1..], j)
  {
    if j == 0 {
      SumIsInner(w.y);
      MeanTimesCount(w.y);
    } else {
      InterceptAgainstOnes(w, k, c, j - 1);
      var x := w.xs[j - 1];
      SumIsInner(x);
      MeanTimesCount(x);
      Spreading(|w.y| as real, Intercept(w, k, c[1..], j - 1), Mean(x), c[j], Sum(x, 0.0));
    }
  }

  lemma Spreading(n: real, before: real, mean: real, beta: real, sum: real)
    requires sum == n * mean
    ensures n * before - beta * sum == n * (before - mean * beta)
  {
  }

  /** The system the code solves: centered factors against the centered response,
      with the intercept through the means. */
  ghost predicate Centered(w: Window, k: nat, c: Vector)
    requires IsWindow(w, k) && |c| == k + 1 && |w.y| > 0
  {
    && Solves(Spreads(w, k), k, c[1..], Covariances(w, k))
    && c[0] == Intercept(w, k, c[1..], k)
  }

  /** Solving the centered system is solving the raw normal equations, and back. */
  lemma CenteredIsLeastSquares(w: Window, k: nat, c: Vector)
    requires IsWindow(w, k) && |c| == k + 1 && |w.y| > 0
    ensures Centered(w, k, c) <==> LeastSquares(w, k, c)
  {
    var n, e := |w.y|, Residual(w, k, c);
    InterceptEquation(w, k, c);
    if Inner(e, Ones(n)) == 0.0 {
      forall i | 0 <= i < k
        ensures Inner(e, w.xs[i]) == Covariances(w, k)[i] - SymDot(Spreads(w, k), k, c[1..], i, k)
      {
        ColumnEquation(w, k, c, i);
        BalancedDev(e, w.xs[i], Mean(w.xs[i]));
      }
    }
  }

  /** Deviations from any level look alike to a balanced vector. */
  lemma BalancedDev(e: Vector, x: Vector, a: real)
    requires |e| == |x| && Inner(e, Ones(|e|)) == 0.0
    ensures Inner(e, Dev(x, a)) == Inner(e, x)
  {
    InnerDev(x, a, e);
  }

  lemma InterceptEquation(w: Window, k: nat, c: Vector)
    requires IsWindow(w, k) && |c| == k + 1 && |w.y| > 0
    ensures Inner(Residual(w, k, c), Ones(|w.y|)) == 0.0 <==> c[0] == Intercept(w, k, c[1..], k)
  {
    var n := |w.y|;
    ResidualAgainst(w, k, c, Ones(n));
    DotOnes(n, n);
    InterceptAgainstOnes(w, k, c, k);
    ZeroFactor(n as real, Intercept(w, k, c[1..], k), c[0], Inner(Residual(w, k, c), Ones(n)));
  }

  lemma ZeroFactor(n: real, b: real, c: real, x: real)
    requires n > 0.0 && x == n * b - c * n
    ensures x == 0.0 <==> c == b
  {
    assert x == n * (b - c);
  }

  lemma ColumnEquation(w: Window, k: nat, c: Vector, i: nat)
    requires IsWindow(w, k) && |c| == k + 1 && |w.y| > 0 && i < k
    ensures Inner(Residual(w, k, c), Dev(w.xs[i], Mean(w.xs[i])))
         == Covariances(w, k)[i] - SymDot(Spreads(w, k), k, c[1..], i, k)
  {
    ResidualCentered(w, k, c, w.xs[i]);
    MixedIsRow(w, k, c, i, k);
    CovarianceAt(w, k, i);
  }

  lemma CovarianceAt(w: Window, k: nat, i: nat)
    requires IsWindow(w, k) && |w.y| > 0 && i < k
    ensures Covariances(w, k)[i] == Spread(w.y, w.xs[i])
  {
    SpreadIsInner(w.y, w.xs[i]);
  }

  /** Against a centered column the intercept drops out. */
  lemma ResidualCentered(w: Window, k: nat, c: Vector, x: Vector)
    requires IsWindow(w, k) && |c| == k + 1 && |x| == |w.y| > 0
    ensures Inner(Residual(w, k, c), Dev(x, Mean(x))) == Spread(w.y, x) - Mixed(w, k, c, Dev(x, Mean(x)), k)
  {
    ResidualAgainst(w, k, c, Dev(x, Mean(x)));
    SpreadIsInner(w.y, x);
  }

  // ------------------------------------------------------- identified, and R²

  /** Enough rows, and factors that are not near-duplicates. */
  ghost predicate Identified(w: Window, k: nat)
    requires IsWindow(w, k)
  {
    |w.y| >= k + 1 && UsablySpd(Spreads(w, k), k)
  }

  /** An identified window has one best fit. */
  lemma FitIsUnique(w: Window, k: nat, c: Vector, g: Vector)
    requires IsWindow(w, k) && |c| == |g| == k + 1 && Identified(w, k)
    requires LeastSquares(w, k, c) && LeastSquares(w, k, g)
    ensures c == g
  {
    CenteredIsLeastSquares(w, k, c);
    CenteredIsLeastSquares(w, k, g);
    SolutionUnique(Spreads(w, k), k, c[1..], g[1..], Covariances(w, k));
    assert c == [c[0]] + c[1..] && g == [g[0]] + g[1..];
  }

  lemma {:induction false} DotOfZeros(u: Vector, v: Vector, n: nat)
    requires n <= |u| && n <= |v| && forall r :: 0 <= r < n ==> u[r] == 0.0
    ensures Dot(u, v, n) == 0.0
  {
    if n == 0 {
    } else {
      DotOfZeros(u, v, n - 1);
    }
  }

  /** Data on a line is fitted by that line and by no other. */
  lemma LineIsRecovered(w: Window, k: nat, line: Vector, c: Vector)
    requires IsWindow(w, k) && |line| == |c| == k + 1 && Identified(w, k)
    requires forall r :: 0 <= r < |w.y| ==> w.y[r] == LineAt(w, k, line, r, k)
    ensures LeastSquares(w, k, c) <==> c == line
    ensures Sse(w, k, line) == 0.0
  {
    var e := Residual(w, k, line);
    forall r | 0 <= r < |w.y| ensures e[r] == 0.0 { FittedIsLine(w, k, line, r, k); }
    DotOfZeros(e, Ones(|w.y|), |w.y|);
    DotOfZeros(e, e, |w.y|);
    forall i | 0 <= i < k ensures Inner(e, w.xs[i]) == 0.0 { DotOfZeros(e, w.xs[i], |w.y|); }
    if LeastSquares(w, k, c) { FitIsUnique(w, k, c, line); }
  }

  lemma {:induction false} MixedIsExplained(w: Window, k: nat, c: Vector, j: nat)
    requires IsWindow(w, k) && |c| == k + 1 && |w.y| > 0 && j <= k
    ensures Mixed(w, k, c, Dev(w.y, Mean(w.y)), j) == Dot(c[1..], Covariances(w, k), j)
  {
    if j == 0 {
    } else {
      MixedIsExplained(w, k, c, j - 1);
      SpreadIsInner(w.xs[j - 1], w.y);
    }
  }

  /** What the fit explains is what its error leaves over. */
  lemma ExplainedIsRest(w: Window, k: nat, c: Vector)
    requires IsWindow(w, k) && |c| == k + 1 && |w.y| > 0 && LeastSquares(w, k, c)
    ensures Dot(c[1..], Covariances(w, k), k) == Spread(w.y, w.y) - Sse(w, k, c)
  {
    var e, f := Residual(w, k, c), Fitted(w, k, c, k);
    InnerLinear(w.y, -1.0, f, e);
    FittedIsOrthogonal(w, k, c, c, k);
    InnerDev(w.y, Mean(w.y), e);
    ResidualAgainst(w, k, c, Dev(w.y, Mean(w.y)));
    SpreadIsInner(w.y, w.y);
    MixedIsExplained(w, k, c, k);
  }

  lemma {:induction false} FlatFitted(w: Window, k: nat, c: Vector, j: nat)
    requires IsWindow(w, k) && |c| == k + 1 && j <= k && forall p :: 1 <= p <= k ==> c[p] == 0.0
    ensures forall r :: 0 <= r < |w.y| ==> Fitted(w, k, c, j)[r] == c[0]
  {
    if j == 0 {
    } else {
      FlatFitted(w, k, c, j - 1);
    }
  }

  /** The fit never does worse than the mean alone. */
  lemma SseWithinTotal(w: Window, k: nat, c: Vector)
    requires IsWindow(w, k) && |c| == k + 1 && |w.y| > 0 && LeastSquares(w, k, c)
    ensures 0.0 <= Sse(w, k, c) <= Spread(w.y, w.y)
  {
    var flat := [Mean(w.y)] + seq(k, _ => 0.0);
    LeastSquaresIsBest(w, k, c, flat);
    FlatFitted(w, k, flat, k);
    assert Residual(w, k, flat) == Dev(w.y, Mean(w.y));
    DotSquare(Residual(w, k, c), |w.y|);
  }

  /** R² is one less the unexplained share, and a share. */
  lemma RSquaredIsShare(w: Window, k: nat, c: Vector, explained: real, total: real, r2: real)
    requires IsWindow(w, k) && |c| == k + 1 && |w.y| > 0 && LeastSquares(w, k, c)
    requires explained == Dot(c[1..], Covariances(w, k), k) && total == Spread(w.y, w.y)
    requires total > 0.0 && r2 == explained / total
    ensures r2 == 1.0 - Sse(w, k, c) / total
    ensures 0.0 <= r2 <= 1.0
  {
    ExplainedIsRest(w, k, c);
    SseWithinTotal(w, k, c);
    ShareAlgebra(Sse(w, k, c), total, r2);
  }

  lemma ShareAlgebra(sse: real, total: real, r2: real)
    requires 0.0 <= sse <= total && total > 0.0 && r2 == (total - sse) / total
    ensures r2 == 1.0 - sse / total && 0.0 <= r2 <= 1.0
  {
    var share := sse / total;
    DivideBack(sse, total, share);
    DivideBack(total - sse, total, r2);
    SharesAddUp(share, r2, total, sse);
    SignOfQuotient(share, total);
    SignOfQuotient(r2, total);
  }

  lemma SharesAddUp(share: real, r2: real, total: real, sse: real)
    requires total > 0.0 && share * total == sse && r2 * total == total - sse
    ensures r2 == 1.0 - share
  {
    var z := r2 + share - 1.0;
    assert z * total == 0.0;
    ZeroProduct(z, total);
  }

  lemma ZeroProduct(z: real, d: real)
    requires d > 0.0 && z * d == 0.0
    ensures z == 0.0
  {
    if z > 0.0 { ProductPositive(z, d, z * d); }
    if z < 0.0 { ProductPositive(0.0 - z, d, (0.0 - z) * d); }
  }

  lemma SignOfQuotient(q: real, d: real)
    requires d > 0.0 && q * d >= 0.0
    ensures q >= 0.0
  {
    if q < 0.0 { ProductPositive(0.0 - q, d, (0.0 - q) * d); }
  }
}
