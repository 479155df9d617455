/** The two-column sliding statistics (src/table.rs): moments about a shift taken
    from the data, the two-pass evaluation they must agree with, and what the
    finished statistics mean. */
module Sweep {
  import opened Solve
  import opened Fitting
  import opened Moments
  import opened Log

  /** A frame's population moments about its own means. */
  datatype Population = Population(rows: nat, varY: real, varX: real, covar: real, meanY: real, meanX: real)

  ghost function PopulationOf(y: Vector, x: Vector): Population
    requires |y| == |x| > 0
  {
    var n := |y| as real;
    Population(|y|, Spread(y, y) / n, Spread(x, x) / n, Spread(y, x) / n, Mean(y), Mean(x))
  }

  class ShiftedMoments {
    var n: real
    var sy: real
    var sx: real
    var syy: real
    var sxx: real
    var sxy: real
    const ky: real
    const kx: real

    /** The sums are the frame's own, about the shift. */
    ghost predicate Holds(y: Vector, x: Vector)
      requires |y| == |x|
      reads this
    {
      && n == |y| as real && sy == Sum(y, ky) && sx == Sum(x, kx)
      && syy == Moment(y, ky, y, ky) && sxx == Moment(x, kx, x, kx) && sxy == Moment(y, ky, x, kx)
    }

    constructor (shiftY: real, shiftX: real)
      ensures Holds([], []) && ky == shiftY && kx == shiftX
    {
      n, sy, sx, syy, sxx, sxy, ky, kx := 0.0, 0.0, 0.0, 0.0, 0.0, 0.0, shiftY, shiftX;
    }

    /** The entering row: the frame grows at the end. */
    method Add(yi: real, xi: real, ghost y: Vector, ghost x: Vector)
      requires |y| == |x| && Holds(y, x)
      modifies this
      ensures Holds(y + [yi], x + [xi])
    {
      var dy, dx := yi - ky, xi - kx;
      n := n + 1.0;
      sy := sy + dy;
      sx := sx + dx;
      syy := syy + dy * dy;
      sxx := sxx + dx * dx;
      sxy := sxy + dy * dx;
      SumAppend(y, ky, yi);
      SumAppend(x, kx, xi);
      MomentGains(y, ky, y, ky, yi, yi, dy, dy);
      MomentGains(x, kx, x, kx, xi, xi, dx, dx);
      MomentGains(y, ky, x, kx, yi, xi, dy, dx);
    }

    /** The leaving row: the frame shrinks at the front. */
    method Remove(yi: real, xi: real, ghost y: Vector, ghost x: Vector)
      requires |y| == |x| && Holds([yi] + y, [xi] + x)
      modifies this
      ensures Holds(y, x)
    {
      var dy, dx := yi - ky, xi - kx;
      n := n - 1.0;
      sy := sy - dy;
      sx := sx - dx;
      syy := syy - dy * dy;
      sxx := sxx - dx * dx;
      sxy := sxy - dy * dx;
      SumPrepend(y, ky, yi);
      SumPrepend(x, kx, xi);
      MomentDrops(y, ky, y, ky, yi, yi, dy, dy);
      MomentDrops(x, kx, x, kx, xi, xi, dx, dx);
      MomentDrops(y, ky, x, kx, yi, xi, dy, dx);
    }

    /** Whatever the shift, the population moments about the window means. */
    method Read(ghost y: Vector, ghost x: Vector) returns (p: Population)
      requires |y| == |x| > 0 && Holds(y, x)
      ensures p == PopulationOf(y, x)
    {
      var my, mx := sy / n, sx / n;
      Unshifted(y, ky, y, ky, n, my, my);
      Unshifted(x, kx, x, kx, n, mx, mx);
      Unshifted(y, ky, x, kx, n, my, mx);
      p := Population(n.Floor, syy / n - my * my, sxx / n - mx * mx, sxy / n - my * mx, ky + my, kx + mx);
    }
  }

  lemma SumAppend(u: Vector, a: real, p: real)
    ensures Sum(u + [p], a) == Sum(u, a) + (p - a)
  {
    assert Ones(|u| + 1) == Ones(|u|) + [1.0];
    MomentAppend(u, a, Ones(|u|), 0.0, p, 1.0);
  }

  lemma SumPrepend(u: Vector, a: real, p: real)
    ensures Sum([p] + u, a) == (p - a) + Sum(u, a)
  {
    assert Ones(|u| + 1) == [1.0] + Ones(|u|);
    MomentPrepend(u, a, Ones(|u|), 0.0, p, 1.0);
  }

  /** Dividing the anchored moment first and centering after gives the spread's share. */
  lemma Unshifted(u: Vector, a: real, v: Vector, b: real, n: real, meanU: real, meanV: real)
    requires |u| == |v| > 0 && n == |u| as real && meanU == Sum(u, a) / n && meanV == Sum(v, b) / n
    ensures Moment(u, a, v, b) / n - meanU * meanV == Spread(u, v) / n
    ensures a + meanU == Mean(u) && b + meanV == Mean(v)
  {
    MeanBack(Sum(u, a), n, meanU);
    MeanBack(Sum(v, b), n, meanV);
    CenteringForgetsAnchors(u, a, v, b, meanU, meanV);
    CenteringForgetsAnchors(v, b, u, a, meanV, meanU);
    DivideThrough(Moment(u, a, v, b), n, meanU * meanV, Spread(u, v));
  }

  lemma DivideThrough(m: real, n: real, c: real, s: real)
    requires n > 0.0 && m - n * c == s
    ensures m / n - c == s / n
  {
    var q, r := m / n, s / n;
    DivideBack(m, n, q);
    DivideBack(s, n, r);
    assert (q - c - r) * n == 0.0;
    ZeroProduct(q - c - r, n);
  }

  // ---------------------------------------------------------------- the sweep

  /** What a row's cell holds: SQL NULL, the NaN of a division 0/0, or a value. */
  datatype Answer = Null | NotANumber | Value(value: real)

  function Told(o: Option<real>): Answer {
    match o
    case None => Null
    case Some(v) => Value(v)
  }

  /** A clean frame reports its own population's value, any other the recompute's. */
  ghost predicate RowSwept(answer: Answer, i: nat, y: Vector, x: Vector, w: nat, poisoned: seq<bool>,
                           finish: Population -> Answer, recompute: (nat, nat) -> Answer)
    requires i < |y| == |x| == |poisoned| && w >= 1
  {
    var lo := FrameLow(i, w - 1);
    if Clean(poisoned, lo, i + 1) then answer == finish(PopulationOf(y[lo..i + 1], x[lo..i + 1]))
    else answer == recompute(lo, i + 1)
  }

  ghost predicate Swept(out: seq<Answer>, y: Vector, x: Vector, w: nat, poisoned: seq<bool>,
                        finish: Population -> Answer, recompute: (nat, nat) -> Answer)
    requires |out| <= |y| == |x| == |poisoned| && w >= 1
  {
    forall i :: 0 <= i < |out| ==> RowSwept(out[i], i, y, x, w, poisoned, finish, recompute)
  }

  lemma SweptGrows(out: seq<Answer>, answer: Answer, y: Vector, x: Vector, w: nat, poisoned: seq<bool>,
                   finish: Population -> Answer, recompute: (nat, nat) -> Answer)
    requires |out| < |y| == |x| == |poisoned| && w >= 1
    requires Swept(out, y, x, w, poisoned, finish, recompute)
    requires RowSwept(answer, |out|, y, x, w, poisoned, finish, recompute)
    ensures Swept(out + [answer], y, x, w, poisoned, finish, recompute)
  {
  }

  /** A fresh accumulator about the newest row, folded over the frame. */
  method Rebuild(y: Vector, x: Vector, lo: nat, i: nat) returns (moments: ShiftedMoments)
    requires lo <= i < |y| == |x|
    ensures fresh(moments) && moments.Holds(y[lo..i + 1], x[lo..i + 1])
    ensures moments.ky == y[i] && moments.kx == x[i]
  {
    moments := new ShiftedMoments(y[i], x[i]);
    for j := lo to i + 1
      invariant moments.Holds(y[lo..j], x[lo..j])
    {
      moments.Add(y[j], x[j], y[lo..j], x[lo..j]);
      assert y[lo..j + 1] == y[lo..j] + [y[j]] && x[lo..j + 1] == x[lo..j] + [x[j]];
    }
  }

  /** One frame to the next: row `i` in, row `i - w` out once the frame is full. */
  method Slide(moments: ShiftedMoments, y: Vector, x: Vector, i: nat, w: nat)
    requires 1 <= w && i < |y| == |x| && i > 0
    requires moments.Holds(y[FrameLow(i - 1, w - 1)..i], x[FrameLow(i - 1, w - 1)..i])
    modifies moments
    ensures moments.Holds(y[FrameLow(i, w - 1)..i + 1], x[FrameLow(i, w - 1)..i + 1])
  {
    ghost var held, lo := FrameLow(i - 1, w - 1), FrameLow(i, w - 1);
    moments.Add(y[i], x[i], y[held..i], x[held..i]);
    assert y[held..i + 1] == y[held..i] + [y[i]] && x[held..i + 1] == x[held..i] + [x[i]];
    if i >= w {
      assert y[held..i + 1] == [y[i - w]] + y[lo..i + 1] && x[held..i + 1] == [x[i - w]] + x[lo..i + 1];
      moments.Remove(y[i - w], x[i - w], y[lo..i + 1], x[lo..i + 1]);
    }
  }

  /** The sweep over one contiguous run: a running count of non-finite rows decides
      between the accumulator and the per-frame arithmetic. */
  method ShiftedSweep(y: Vector, x: Vector, w: nat, poisoned: seq<bool>,
                      finish: Population -> Answer, recompute: (nat, nat) -> Answer)
    returns (out: seq<Answer>, ghost plan: seq<Schedule>)
    requires |y| == |x| == |poisoned| && 1 <= w <= USIZE_MAX
    ensures |out| == |plan| == |y| && Swept(out, y, x, w, poisoned, finish, recompute)
    ensures Scheduled(plan, poisoned, w - 1)
  {
    out, plan := [], [];
    ghost var counts: seq<nat> := [];
    var moments := new ShiftedMoments(0.0, 0.0);
    var dirty: nat, sinceRebuild: nat := 0, USIZE_MAX;
    for i := 0 to |y|
      invariant |out| == i && fresh(moments)
      invariant dirty == Count(poisoned, PriorLow(i, w), i)
      invariant sinceRebuild < w ==> i > 0 && Carried(moments, y, x, i, w)
      invariant Swept(out, y, x, w, poisoned, finish, recompute)
      invariant Chained(plan, counts, sinceRebuild, poisoned, w - 1, i)
    {
      ghost var since, step := sinceRebuild, Recomputed;
      var answer;
      moments, answer, sinceRebuild, dirty, step :=
        SweepRow(moments, y, x, i, w, sinceRebuild, dirty, poisoned, finish, recompute, out);
      ChainGrows(plan, counts, since, step, sinceRebuild, poisoned, w - 1);
      out, plan, counts := out + [answer], plan + [step], counts + [sinceRebuild];
    }
    ChainIsScheduled(plan, counts, sinceRebuild, poisoned, w - 1);
  }

  /** One row: counted, then recomputed, rebuilt or slid, and emitted. */
  method SweepRow(held: ShiftedMoments, y: Vector, x: Vector, i: nat, w: nat, sinceRebuild: nat, counted: nat,
                  poisoned: seq<bool>, finish: Population -> Answer, recompute: (nat, nat) -> Answer,
                  ghost out: seq<Answer>)
    returns (moments: ShiftedMoments, answer: Answer, since: nat, dirty: nat, ghost step: Schedule)
    requires i < |y| == |x| == |poisoned| && 1 <= w <= USIZE_MAX && counted == Count(poisoned, PriorLow(i, w), i)
    requires sinceRebuild < w ==> i > 0 && Carried(held, y, x, i, w)
    requires |out| == i && Swept(out, y, x, w, poisoned, finish, recompute)
    modifies held
    ensures moments == held || fresh(moments)
    ensures dirty == Count(poisoned, FrameLow(i, w - 1), i + 1)
    ensures Swept(out + [answer], y, x, w, poisoned, finish, recompute)
    ensures step == Recomputed <==> !Clean(poisoned, FrameLow(i, w - 1), i + 1)
    ensures step == Recomputed ==> since == USIZE_MAX
    ensures step == Rebuilt ==> since == 0
    ensures step == Slid ==> sinceRebuild < w && since == sinceRebuild + 1
    ensures since < w ==> Carried(moments, y, x, i + 1, w)
  {
    var lo := if i + 1 < w then 0 else i + 1 - w;
    dirty := Recount(poisoned, i, w, counted);
    if dirty > 0 {
      moments, answer, since, step := held, recompute(lo, i + 1), USIZE_MAX, Recomputed;
    } else {
      step := if sinceRebuild >= w then Rebuilt else Slid;
      var p;
      moments, p, since := CleanFrame(held, y, x, lo, i, w, sinceRebuild);
      answer := finish(p);
    }
    SweptGrows(out, answer, y, x, w, poisoned, finish, recompute);
  }

  /** Where the frame before row `i` began. */
  function PriorLow(i: nat, w: nat): nat
    requires w >= 1
  {
    if i == 0 then 0 else FrameLow(i - 1, w - 1)
  }

  ghost predicate Carried(moments: ShiftedMoments, y: Vector, x: Vector, i: nat, w: nat)
    requires i <= |y| == |x| && w >= 1
    reads moments
  {
    moments.Holds(y[PriorLow(i, w)..i], x[PriorLow(i, w)..i])
  }

  /** The newest row counted in, the departed one counted out. */
  method Recount(poisoned: seq<bool>, i: nat, w: nat, counted: nat) returns (dirty: nat)
    requires i < |poisoned| && w >= 1 && counted == Count(poisoned, PriorLow(i, w), i)
    ensures dirty == Count(poisoned, FrameLow(i, w - 1), i + 1)
  {
    dirty := counted;
    if poisoned[i] { dirty := dirty + 1; }
    if i >= w {
      CountHead(poisoned, i - w, i + 1);
      if poisoned[i - w] { dirty := dirty - 1; }
    }
  }

  /** A clean frame: rebuilt when the accumulator is stale or `w` slides old. */
  method CleanFrame(held: ShiftedMoments, y: Vector, x: Vector, lo: nat, i: nat, w: nat, sinceRebuild: nat)
    returns (moments: ShiftedMoments, p: Population, since: nat)
    requires i < |y| == |x| && w >= 1 && lo == FrameLow(i, w - 1)
    requires sinceRebuild < w ==> i > 0 && Carried(held, y, x, i, w)
    modifies held
    ensures moments == held || fresh(moments)
    ensures Carried(moments, y, x, i + 1, w) && p == PopulationOf(y[lo..i + 1], x[lo..i + 1])
    ensures since == if sinceRebuild >= w then 0 else sinceRebuild + 1
  {
    moments := held;
    if sinceRebuild >= w {
      moments := Rebuild(y, x, lo, i);
      since := 0;
    } else {
      Slide(moments, y, x, i, w);
      since := sinceRebuild + 1;
    }
    p := moments.Read(y[lo..i + 1], x[lo..i + 1]);
  }

  // ------------------------------------------------------------- the two passes

  method Average(u: Vector) returns (mean: real)
    requires |u| > 0
    ensures mean == Mean(u)
  {
    var total := 0.0;
    for r := 0 to |u|
      invariant total == Sum(u[..r], 0.0)
    {
      total := total + u[r];
      SumAppend(u[..r], 0.0, u[r]);
      assert u[..r + 1] == u[..r] + [u[r]];
    }
    assert u[..|u|] == u;
    mean := total / |u| as real;
  }

  /** The sums of deviations and products about the means, in one second pass. */
  method SecondPass(y: Vector, x: Vector, meanY: real, meanX: real)
    returns (sumY: real, sumX: real, syy: real, sxx: real, sxy: real)
    requires |y| == |x|
    ensures sumY == Sum(y, meanY) && sumX == Sum(x, meanX)
    ensures syy == Moment(y, meanY, y, meanY) && sxx == Moment(x, meanX, x, meanX) && sxy == Moment(y, meanY, x, meanX)
  {
    sumY, sumX, syy, sxx, sxy := 0.0, 0.0, 0.0, 0.0, 0.0;
    for r := 0 to |y|
      invariant sumY == Sum(y[..r], meanY) && sumX == Sum(x[..r], meanX)
      invariant syy == Moment(y[..r], meanY, y[..r], meanY) && sxx == Moment(x[..r], meanX, x[..r], meanX)
      invariant sxy == Moment(y[..r], meanY, x[..r], meanX)
    {
      var dy, dx := y[r] - meanY, x[r] - meanX;
      sumY := sumY + dy;
      sumX := sumX + dx;
      syy := syy + dy * dy;
      sxx := sxx + dx * dx;
      sxy := sxy + dy * dx;
      SumAppend(y[..r], meanY, y[r]);
      SumAppend(x[..r], meanX, x[r]);
      MomentAppend(y[..r], meanY, y[..r], meanY, y[r], y[r]);
      MomentAppend(x[..r], meanX, x[..r], meanX, x[r], x[r]);
      MomentAppend(y[..r], meanY, x[..r], meanX, y[r], x[r]);
      assert y[..r + 1] == y[..r] + [y[r]] && x[..r + 1] == x[..r] + [x[r]];
    }
    assert y[..|y|] == y && x[..|x|] == x;
  }

  /** The correction is idle: deviations about the mean sum to nothing. */
  lemma CorrectionIsZero(u: Vector)
    requires |u| > 0
    ensures Sum(u, Mean(u)) == 0.0
  {
    MomentMoves(u, Mean(u), u, 0.0);
    MeanTimesCount(u);
  }

  /** The two passes: means, then corrected sums about them. */
  method CorrectedSums(y: Vector, x: Vector)
    returns (meanY: real, meanX: real, sumX: real, syy: real, sxx: real, sxy: real)
    requires |y| == |x| > 0
    ensures meanY == Mean(y) && meanX == Mean(x) && sumX == Sum(x, Mean(x))
    ensures syy == Spread(y, y) && sxx == Spread(x, x) && sxy == Spread(y, x)
  {
    var count := |y| as real;
    meanY := Average(y);
    meanX := Average(x);
    var sumY;
    sumY, sumX, syy, sxx, sxy := SecondPass(y, x, meanY, meanX);
    CorrectionIsZero(y);
    CorrectionIsZero(x);
    assert sumY * sumY / count == 0.0 && sumX * sumX / count == 0.0 && sumY * sumX / count == 0.0;
    syy := syy - sumY * sumY / count;
    sxx := sxx - sumX * sumX / count;
    sxy := sxy - sumY * sumX / count;
  }

  // ------------------------------------------------------------- the statistics

  /** The statistics read off a frame's population moments. */
  datatype Statistic = VarPop | StddevPop | CovarPop | Corr | EigenMax | RegrSlope | RegrIntercept | RegrR2

  function Clamp01(v: real): (c: real)
    ensures 0.0 <= c <= 1.0 && (0.0 <= v <= 1.0 ==> c == v)
  {
    if v < 0.0 then 0.0 else if v > 1.0 then 1.0 else v
  }

  /** The line through the means, at x = 0. */
  function AtZero(meanY: real, meanX: real, slope: real): real { meanY - slope * meanX }

  /** Half-trace plus radius. */
  function Eigen(varY: real, varX: real, covar: real, sqrt: real -> real): real {
    (varY + varX) / 2.0 + Hypot((varY - varX) / 2.0, covar, sqrt)
  }

  function Geometric(a: real, b: real, sqrt: real -> real): real { sqrt(a * b) }

  function Hypot(a: real, b: real, sqrt: real -> real): real { sqrt(a * a + b * b) }

  function Quotient(n: real, d: real): real
    requires d != 0.0
  {
    n / d
  }

  lemma QuotientBack(n: real, d: real)
    requires d > 0.0
    ensures Quotient(n, d) * d == n
  {
    var q := n / d;
    DivideBack(n, d, q);
  }

  function SquaredCorrelation(sxy: real, sxx: real, syy: real): real
    requires sxx * syy != 0.0
  {
    sxy * sxy / (sxx * syy)
  }

  ghost predicate IsRoot(sqrt: real -> real) {
    forall d :: d >= 0.0 ==> sqrt(d) >= 0.0 && sqrt(d) * sqrt(d) == d
  }

  lemma RootPositive(sqrt: real -> real, a: real, b: real)
    requires IsRoot(sqrt) && a > 0.0 && b > 0.0
    ensures a * b > 0.0 && Geometric(a, b, sqrt) > 0.0
    ensures Geometric(a, b, sqrt) * Geometric(a, b, sqrt) == a * b
  {
    ProductPositive(a, b, a * b);
  }

  /** The finalization both schedules share. */
  function Finish(kind: Statistic, p: Population, sqrt: real -> real): Option<real>
    requires IsRoot(sqrt)
  {
    match kind
    case VarPop => Some(if p.varY < 0.0 then 0.0 else p.varY)
    case StddevPop => Some(sqrt(if p.varY < 0.0 then 0.0 else p.varY))
    case CovarPop => Some(p.covar)
    case Corr =>
      if p.varY <= 0.0 || p.varX <= 0.0 then None
      else RootPositive(sqrt, p.varY, p.varX); Some(Quotient(p.covar, Geometric(p.varY, p.varX, sqrt)))
    case EigenMax =>
      if p.rows < 2 then None else Some(Eigen(p.varY, p.varX, p.covar, sqrt))
    case RegrSlope => if p.rows < 2 || p.varX <= 0.0 then None else Some(p.covar / p.varX)
    case RegrIntercept =>
      if p.rows < 2 || p.varX <= 0.0 then None else Some(AtZero(p.meanY, p.meanX, p.covar / p.varX))
    case RegrR2 =>
      if p.rows < 2 || p.varX <= 0.0 || p.varY <= 0.0 then None
      else RootPositive(sqrt, p.varX, p.varY); Some(Clamp01(SquaredCorrelation(p.covar, p.varX, p.varY)))
  }

  /** The frame of row `i` on its own: the answer a sweep must give. */
  ghost function FrameAnswer(kind: Statistic, y: Vector, x: Vector, preceding: nat, i: nat, sqrt: real -> real): Answer
    requires i < |y| == |x| && IsRoot(sqrt)
  {
    var lo := FrameLow(i, preceding);
    Told(Finish(kind, PopulationOf(y[lo..i + 1], x[lo..i + 1]), sqrt))
  }

  /** The sweep's window length, `preceding + 1` on 64 bits, not saturated. */
  function WrappedLength(preceding: nat): (w: nat)
    requires preceding <= USIZE_MAX
    ensures w == if preceding == USIZE_MAX then 0 else preceding + 1
  {
    (preceding + 1) % (USIZE_MAX + 1)
  }

  /** What the finalization makes of moments no row was folded into: 0/0 passes
      the clamp and both tests of a correlation; the others count rows. */
  function OfNoRows(kind: Statistic): Answer {
    match kind
    case VarPop | StddevPop | CovarPop | Corr => NotANumber
    case EigenMax | RegrSlope | RegrIntercept | RegrR2 => Null
  }

  /** NULL are exactly the statistics no single row has either. */
  lemma NoRowsIsNull(kind: Statistic, sqrt: real -> real)
    requires IsRoot(sqrt)
    ensures OfNoRows(kind) == Null <==> forall p: Population :: p.rows < 2 ==> Finish(kind, p, sqrt) == None
    ensures OfNoRows(kind) != Null ==> OfNoRows(kind) == NotANumber
  {
    var p := Population(1, 1.0, 1.0, 1.0, 0.0, 0.0);
    if OfNoRows(kind) != Null { assert p.rows < 2 && Finish(kind, p, sqrt) != None; }
  }

  /** What the sweep tells a clean row. */
  ghost function SweepAnswer(kind: Statistic, y: Vector, x: Vector, preceding: nat, i: nat, sqrt: real -> real): Answer
    requires i < |y| == |x| && preceding <= USIZE_MAX && IsRoot(sqrt)
  {
    if WrappedLength(preceding) == 0 then OfNoRows(kind) else FrameAnswer(kind, y, x, preceding, i, sqrt)
  }

  /** Row by row: the answer is what the statistic is of the rows at most `preceding`
      back, a value or NULL as it has one or not. */
  lemma AnswerIsFrames(kind: Statistic, y: Vector, x: Vector, preceding: nat, i: nat, sqrt: real -> real,
                       fy: Vector, fx: Vector)
    requires i < |y| == |x| && preceding < 18446744073709551615 && IsRoot(sqrt)
    requires |fy| == |fx| == (if preceding < i then preceding else i) + 1
    requires forall r :: 0 <= r < |fy| ==> fy[r] == y[i + 1 - |fy| + r] && fx[r] == x[i + 1 - |fy| + r]
    ensures SweepAnswer(kind, y, x, preceding, i, sqrt) == FrameAnswer(kind, y, x, preceding, i, sqrt)
    ensures forall v :: Finish(kind, PopulationOf(fy, fx), sqrt) == Some(v)
                   <==> FrameAnswer(kind, y, x, preceding, i, sqrt) == Value(v)
    ensures Finish(kind, PopulationOf(fy, fx), sqrt) == None
       <==> FrameAnswer(kind, y, x, preceding, i, sqrt) == Null
  {
    var lo := FrameLow(i, preceding);
    assert fy == y[lo..i + 1] && fx == x[lo..i + 1];
  }

  /** A window of length 0: every frame starts past its row, every row is counted
      out as it is counted in, and every accumulator is rebuilt over nothing. */
  method SweepNothing(kind: Statistic, y: Vector, x: Vector, poisoned: seq<bool>) returns (out: seq<Answer>)
    requires |y| == |x| == |poisoned|
    ensures |out| == |y| && forall i :: 0 <= i < |out| ==> out[i] == OfNoRows(kind)
  {
    out := [];
    var dirty := 0;
    for i := 0 to |y|
      invariant dirty == 0 && |out| == i
      invariant forall r :: 0 <= r < |out| ==> out[r] == OfNoRows(kind)
    {
      if poisoned[i] { dirty := dirty + 1; }
      if poisoned[i] { dirty := dirty - 1; }
      out := out + [OfNoRows(kind)];
    }
  }

  lemma SweptTells(kind: Statistic, y: Vector, x: Vector, preceding: nat, poisoned: seq<bool>, sqrt: real -> real,
                   recompute: (nat, nat) -> Answer, finish: Population -> Answer, out: seq<Answer>)
    requires |out| == |y| == |x| == |poisoned| && preceding < USIZE_MAX && IsRoot(sqrt)
    requires Swept(out, y, x, preceding + 1, poisoned, finish, recompute)
    requires forall p :: finish(p) == Told(Finish(kind, p, sqrt))
    ensures forall i :: 0 <= i < |out| ==>
              out[i] == if !Clean(poisoned, FrameLow(i, preceding), i + 1)
                        then recompute(FrameLow(i, preceding), i + 1)
                        else SweepAnswer(kind, y, x, preceding, i, sqrt)
  {
    forall i | 0 <= i < |out|
      ensures out[i] == if !Clean(poisoned, FrameLow(i, preceding), i + 1)
                        then recompute(FrameLow(i, preceding), i + 1)
                        else SweepAnswer(kind, y, x, preceding, i, sqrt)
    {
      assert RowSwept(out[i], i, y, x, preceding + 1, poisoned, finish, recompute);
    }
  }

  method SweepStatistic(kind: Statistic, y: Vector, x: Vector, w: nat, poisoned: seq<bool>, sqrt: real -> real,
                        recompute: (nat, nat) -> Answer)
    returns (out: seq<Answer>, ghost plan: seq<Schedule>)
    requires |y| == |x| == |poisoned| && 1 <= w <= USIZE_MAX && IsRoot(sqrt)
    ensures |out| == |plan| == |y| && Scheduled(plan, poisoned, w - 1)
    ensures forall i :: 0 <= i < |out| ==>
              out[i] == if !Clean(poisoned, FrameLow(i, w - 1), i + 1) then recompute(FrameLow(i, w - 1), i + 1)
                        else SweepAnswer(kind, y, x, w - 1, i, sqrt)
  {
    var finish := p => Told(Finish(kind, p, sqrt));
    out, plan := ShiftedSweep(y, x, w, poisoned, finish, recompute);
    SweptTells(kind, y, x, w - 1, poisoned, sqrt, recompute, finish, out);
  }

  /** One statistic over every row's trailing frame.  At 2^64 - 1 `PRECEDING` the
      window length wraps to 0, and no row, non-finite or not, gets its frame. */
  method EvaluateFrames(kind: Statistic, y: Vector, x: Vector, preceding: nat, poisoned: seq<bool>,
                        sqrt: real -> real, recompute: (nat, nat) -> Answer)
    returns (out: seq<Answer>, ghost plan: seq<Schedule>)
    requires |y| == |x| == |poisoned| && preceding <= USIZE_MAX && IsRoot(sqrt)
    ensures |out| == |y|
    ensures forall i :: 0 <= i < |out| ==>
              out[i] == if preceding < USIZE_MAX && !Clean(poisoned, FrameLow(i, preceding), i + 1)
                        then recompute(FrameLow(i, preceding), i + 1)
                        else SweepAnswer(kind, y, x, preceding, i, sqrt)
    ensures preceding < USIZE_MAX ==> |plan| == |y| && Scheduled(plan, poisoned, preceding)
  {
    var w := WrappedLength(preceding);
    if w == 0 {
      out := SweepNothing(kind, y, x, poisoned);
      plan := [];
    } else {
      out, plan := SweepStatistic(kind, y, x, w, poisoned, sqrt, recompute);
      assert w - 1 == preceding;
    }
  }

  ghost predicate RefinesAt(kind: Statistic, y: Vector, x: Vector, preceding: nat, i: nat, sqrt: real -> real)
    requires i < |y| == |x| && preceding <= USIZE_MAX && IsRoot(sqrt)
  {
    SweepAnswer(kind, y, x, preceding, i, sqrt) == FrameAnswer(kind, y, x, preceding, i, sqrt)
  }

  /** The sweep refines the per-frame evaluation, on every column and row of every
      statistic, precisely when the frame is not the longest one. */
  lemma SweepRefinesIff(kind: Statistic, preceding: nat, sqrt: real -> real)
    requires preceding <= USIZE_MAX && IsRoot(sqrt)
    ensures (forall y: Vector, x: Vector, i: nat :: i < |y| == |x| ==> RefinesAt(kind, y, x, preceding, i, sqrt))
       <==> preceding < 18446744073709551615
  {
    if preceding == USIZE_MAX {
      LongestFrameMisses(kind, sqrt);
      assert !RefinesAt(kind, RAMP, RAMP, USIZE_MAX, 1, sqrt);
    }
  }

  const RAMP: Vector := [0.0, 1.0]

  lemma RampSpread()
    ensures Mean(RAMP) == 0.5 && Spread(RAMP, RAMP) == 0.5
  {
    assert Sum([], 0.0) == 0.0;
    SumAppend([], 0.0, 0.0);
    SumAppend([0.0], 0.0, 1.0);
    assert [] + [0.0] == [0.0] && [0.0] + [1.0] == RAMP;
    MomentAppend([], 0.5, [], 0.5, 0.0, 0.0);
    MomentAppend([0.0], 0.5, [0.0], 0.5, 1.0, 1.0);
  }

  /** Over the rows 0 and 1 every statistic has a value; the sweep finds none. */
  lemma LongestFrameMisses(kind: Statistic, sqrt: real -> real)
    requires IsRoot(sqrt)
    ensures SweepAnswer(kind, RAMP, RAMP, USIZE_MAX, 1, sqrt) == OfNoRows(kind)
    ensures FrameAnswer(kind, RAMP, RAMP, USIZE_MAX, 1, sqrt).Value?
  {
    assert RAMP[0..2] == RAMP;
    RampSpread();
  }

  /** A dispersion or pair statistic of one frame, by the two passes. */
  method EvaluatePair(kind: Statistic, y: Vector, x: Vector, sqrt: real -> real) returns (answer: Option<real>)
    requires |y| == |x| && IsRoot(sqrt)
    ensures answer == if |y| == 0 then None else Finish(kind, PopulationOf(y, x), sqrt)
  {
    if |y| == 0 { return None; }
    var count := |y| as real;
    var meanY, meanX, _, syy, sxx, sxy := CorrectedSums(y, x);
    answer := Finish(kind, Population(|y|, syy / count, sxx / count, sxy / count, meanY, meanX), sqrt);
  }

  /** A regression output of one frame, straight from the corrected sums. */
  method EvaluateRegression(kind: Statistic, y: Vector, x: Vector, sqrt: real -> real) returns (answer: Option<real>)
    requires |y| == |x| && IsRoot(sqrt) && (kind.RegrSlope? || kind.RegrIntercept? || kind.RegrR2?)
    ensures answer == if |y| == 0 then None else Finish(kind, PopulationOf(y, x), sqrt)
  {
    if |y| < 2 { return None; }
    var meanY, meanX, sumX, syy, sxx, sxy := CorrectedSums(y, x);
    SumsAgree(kind, y, x, sqrt);
    answer := FromSums(kind, syy, sxx, sxy, meanY, meanX, sumX / |y| as real, sqrt);
  }

  /** The line's height at x̄, less the drift the leftover offset would cause. */
  function CenteredIntercept(meanY: real, slope: real, offset: real): real { meanY - slope * offset }

  /** The regression outputs in terms of sums, as the two-pass path finishes them;
      `offset` is the deviations' mean. */
  function FromSums(kind: Statistic, syy: real, sxx: real, sxy: real, meanY: real, meanX: real, offset: real,
                    sqrt: real -> real): Option<real>
    requires IsRoot(sqrt)
  {
    if sxx <= 0.0 then None
    else if kind.RegrR2? then
      if syy <= 0.0 then None
      else RootPositive(sqrt, sxx, syy); Some(Clamp01(SquaredCorrelation(sxy, sxx, syy)))
    else if kind.RegrSlope? then Some(sxy / sxx)
    else Some(AtZero(CenteredIntercept(meanY, sxy / sxx, offset), meanX, sxy / sxx))
  }

  /** In exact arithmetic there is no leftover offset. */
  lemma NoOffset(x: Vector)
    requires |x| > 0
    ensures Sum(x, Mean(x)) / |x| as real == 0.0
  {
    CorrectionIsZero(x);
  }

  /** Sums or their per-row shares: the same regression. */
  lemma SumsAgree(kind: Statistic, y: Vector, x: Vector, sqrt: real -> real)
    requires |y| == |x| >= 2 && IsRoot(sqrt) && (kind.RegrSlope? || kind.RegrIntercept? || kind.RegrR2?)
    ensures FromSums(kind, Spread(y, y), Spread(x, x), Spread(y, x), Mean(y), Mean(x),
                     Sum(x, Mean(x)) / |y| as real, sqrt)
         == Finish(kind, PopulationOf(y, x), sqrt)
  {
    var p := PopulationOf(y, x);
    NoOffset(x);
    SharesCancel(Spread(y, y), Spread(x, x), Spread(y, x), |y| as real);
    if kind.RegrR2? && p.varX > 0.0 && p.varY > 0.0 {
      R2OfSums(y, x, sqrt);
    }
  }

  lemma R2OfSums(y: Vector, x: Vector, sqrt: real -> real)
    requires |y| == |x| >= 2 && IsRoot(sqrt) && Spread(x, x) > 0.0 && Spread(y, y) > 0.0
    ensures Spread(x, x) * Spread(y, y) != 0.0
    ensures Finish(RegrR2, PopulationOf(y, x), sqrt)
         == Some(Clamp01(SquaredCorrelation(Spread(y, x), Spread(x, x), Spread(y, y))))
  {
    SharesCancel(Spread(y, y), Spread(x, x), Spread(y, x), |y| as real);
  }

  /** Sums and their per-row shares give the same sign tests and the same ratios. */
  lemma SharesCancel(syy: real, sxx: real, sxy: real, n: real)
    requires n > 0.0
    ensures sxx / n > 0.0 <==> sxx > 0.0
    ensures syy / n > 0.0 <==> syy > 0.0
    ensures sxx > 0.0 ==> sxx / n != 0.0 && sxy / sxx == (sxy / n) / (sxx / n)
    ensures sxx > 0.0 && syy > 0.0 ==> sxx * syy != 0.0 && (sxx / n) * (syy / n) != 0.0
    ensures sxx > 0.0 && syy > 0.0 ==>
              SquaredCorrelation(sxy, sxx, syy) == SquaredCorrelation(sxy / n, sxx / n, syy / n)
  {
    var vy, vx, c := syy / n, sxx / n, sxy / n;
    DivideBack(syy, n, vy);
    DivideBack(sxx, n, vx);
    DivideBack(sxy, n, c);
    SameSign(vx, n, sxx);
    SameSign(vy, n, syy);
    if sxx > 0.0 {
      RatioOfShares(sxy, sxx, c, vx, n);
      if syy > 0.0 {
        ProductPositive(sxx, syy, sxx * syy);
        ProductPositive(vx, vy, vx * vy);
        ProductPositive(n, n, n * n);
        RegroupSquares(sxy, sxx, syy, c, vx, vy, n);
        RatioOfShares(sxy * sxy, sxx * syy, c * c, vx * vy, n * n);
      }
    }
  }

  lemma RegroupSquares(sxy: real, sxx: real, syy: real, c: real, vx: real, vy: real, n: real)
    requires c * n == sxy && vx * n == sxx && vy * n == syy
    ensures (c * c) * (n * n) == sxy * sxy && (vx * vy) * (n * n) == sxx * syy
  {
  }

  lemma SameSign(v: real, n: real, s: real)
    requires n > 0.0 && v * n == s
    ensures v > 0.0 <==> s > 0.0
  {
    if v > 0.0 { ProductPositive(v, n, s); }
    if v < 0.0 { ProductPositive(0.0 - v, n, 0.0 - s); }
  }

  lemma RatioOfShares(top: real, bottom: real, c: real, v: real, n: real)
    requires n > 0.0 && v > 0.0 && bottom > 0.0 && c * n == top && v * n == bottom
    ensures top / bottom == c / v
  {
    var q, r := top / bottom, c / v;
    DivideBack(top, bottom, q);
    DivideBack(c, v, r);
    CrossCancel(q, r, v, n, c, top, bottom);
  }

  lemma CrossCancel(q: real, r: real, v: real, n: real, c: real, top: real, bottom: real)
    requires bottom > 0.0 && q * bottom == top && r * v == c && c * n == top && v * n == bottom
    ensures q == r
  {
    assert r * bottom == r * v * n == top;
    QuotientsAgree(q, r, bottom);
  }

  // ------------------------------------------------- what the statistics mean

  /** Population moments scale back to sums by the row count. */
  lemma ScaleBack(y: Vector, x: Vector)
    requires |y| == |x| > 0
    ensures PopulationOf(y, x).varY * |y| as real == Spread(y, y)
    ensures PopulationOf(y, x).varX * |y| as real == Spread(x, x)
    ensures PopulationOf(y, x).covar * |y| as real == Spread(y, x)
    ensures PopulationOf(y, x).varX > 0.0 <==> Spread(x, x) > 0.0
    ensures PopulationOf(y, x).varY > 0.0 <==> Spread(y, y) > 0.0
  {
    var n, p := |y| as real, PopulationOf(y, x);
    DivideBack(Spread(y, y), n, p.varY);
    DivideBack(Spread(x, x), n, p.varX);
    DivideBack(Spread(y, x), n, p.covar);
    SameSign(p.varX, n, Spread(x, x));
    SameSign(p.varY, n, Spread(y, y));
  }

  lemma SpreadIsNonNegative(u: Vector)
    requires |u| > 0
    ensures Spread(u, u) >= 0.0
  {
    DotSquare(Dev(u, Mean(u)), |u|);
  }

  /** VAR_POP, STDDEV_POP and COVAR_POP are mean squares, their root and mean
      products of deviations; the clamp at zero never acts. */
  lemma DispersionMeans(y: Vector, x: Vector, v: real, s: real, c: real, sqrt: real -> real)
    requires |y| == |x| > 0 && IsRoot(sqrt)
    requires Finish(VarPop, PopulationOf(y, x), sqrt) == Some(v)
    requires Finish(StddevPop, PopulationOf(y, x), sqrt) == Some(s)
    requires Finish(CovarPop, PopulationOf(y, x), sqrt) == Some(c)
    ensures v * |y| as real == Spread(y, y) && c * |y| as real == Spread(y, x)
    ensures s >= 0.0 && s * s == v
  {
    ScaleBack(y, x);
    SpreadIsNonNegative(y);
    SignOfQuotient(PopulationOf(y, x).varY, |y| as real);
    assert v == PopulationOf(y, x).varY;
  }

  /** Which frames leave a regression output or the eigenvalue NULL. */
  lemma StatisticsDefined(y: Vector, x: Vector, sqrt: real -> real)
    requires |y| == |x| > 0 && IsRoot(sqrt)
    ensures Finish(RegrSlope, PopulationOf(y, x), sqrt).None? <==> |y| < 2 || Spread(x, x) == 0.0
    ensures Finish(RegrIntercept, PopulationOf(y, x), sqrt).None? <==> |y| < 2 || Spread(x, x) == 0.0
    ensures Finish(RegrR2, PopulationOf(y, x), sqrt).None? <==> |y| < 2 || Spread(x, x) == 0.0 || Spread(y, y) == 0.0
    ensures Finish(EigenMax, PopulationOf(y, x), sqrt).None? <==> |y| < 2
  {
    ScaleBack(y, x);
    SpreadIsNonNegative(y);
    SpreadIsNonNegative(x);
  }

  /** The closed form's slope and intercept satisfy the raw normal equations. */
  lemma ClosedFormIsLeastSquares(y: Vector, x: Vector, slope: real, intercept: real, sqrt: real -> real)
    requires |y| == |x| > 0 && IsRoot(sqrt)
    requires Finish(RegrSlope, PopulationOf(y, x), sqrt) == Some(slope)
    requires Finish(RegrIntercept, PopulationOf(y, x), sqrt) == Some(intercept)
    ensures LeastSquares(Window([x], y), 1, [intercept, slope])
  {
    var w, c, p := Window([x], y), [intercept, slope], PopulationOf(y, x);
    ScaleBack(y, x);
    DivideBack(p.covar, p.varX, slope);
    Rescale(slope, p.varX, p.covar, |y| as real, Spread(x, x), Spread(y, x));
    SpreadIsInner(x, y);
    assert c[1..] == [slope];
    OneFactor(w, slope);
    CenteredIsLeastSquares(w, 1, c);
  }

  lemma Rescale(slope: real, varX: real, covar: real, n: real, sxx: real, sxy: real)
    requires slope * varX == covar && varX * n == sxx && covar * n == sxy
    ensures slope * sxx == sxy
  {
  }

  /** With one factor the centered system is one equation. */
  lemma OneFactor(w: Window, slope: real)
    requires IsWindow(w, 1) && |w.y| > 0 && slope * Spread(w.xs[0], w.xs[0]) == Spread(w.xs[0], w.y)
    ensures Solves(Spreads(w, 1), 1, [slope], Covariances(w, 1))
    ensures Intercept(w, 1, [slope], 1) == Mean(w.y) - Mean(w.xs[0]) * slope
  {
    assert SymDot(Spreads(w, 1), 1, [slope], 0, 1)
        == SymDot(Spreads(w, 1), 1, [slope], 0, 0) + Sym(Spreads(w, 1), 1, 0, 0) * slope;
  }

  lemma ProjectionFits(y: Vector, x: Vector, t: real)
    requires |y| == |x| > 0 && t * Spread(x, x) == Spread(y, x)
    ensures t * Spread(y, x) <= Spread(y, y)
  {
    ResidualIsOrthogonal(Dev(y, Mean(y)), Dev(x, Mean(x)), t, 0.0 - t);
  }

  /** Taking the projection off leaves a square. */
  lemma ResidualIsOrthogonal(u: Vector, v: Vector, t: real, s: real)
    requires |u| == |v| && s == 0.0 - t && t * Inner(v, v) == Inner(u, v)
    ensures t * Inner(u, v) <= Inner(u, u)
  {
    var e := Axpy(u, s, v);
    AxpyAgainst(u, s, v, t);
    DotSquare(e, |e|);
  }

  lemma AxpyAgainst(u: Vector, s: real, v: Vector, t: real)
    requires |u| == |v| && s == 0.0 - t && t * Inner(v, v) == Inner(u, v)
    ensures Inner(Axpy(u, s, v), Axpy(u, s, v)) == Inner(u, u) - t * Inner(u, v)
  {
    var e := Axpy(u, s, v);
    InnerLinear(u, s, v, e);
    AxpyOrthogonal(u, s, v, t);
    InnerLinear(u, s, v, u);
    CompleteSquare(t, s, Inner(u, u), Inner(u, v), Inner(u, e), Inner(v, e), Inner(e, e));
  }

  lemma AxpyOrthogonal(u: Vector, s: real, v: Vector, t: real)
    requires |u| == |v| && s == 0.0 - t && t * Inner(v, v) == Inner(u, v)
    ensures Inner(v, Axpy(u, s, v)) == 0.0
  {
    InnerLinear(u, s, v, v);
    DotCommutes(u, v, |u|);
  }

  /** Σ(y − ȳ)(x − x̄) squared is at most the product of the two spreads. */
  lemma CauchySchwarz(y: Vector, x: Vector)
    requires |y| == |x| > 0 && Spread(x, x) > 0.0
    ensures Spread(y, x) * Spread(y, x) <= Spread(y, y) * Spread(x, x)
  {
    var t := Quotient(Spread(y, x), Spread(x, x));
    QuotientBack(Spread(y, x), Spread(x, x));
    ProjectionFits(y, x, t);
    WithinSpreads(t, Spread(y, y), Spread(x, x), Spread(y, x));
  }

  lemma CompleteSquare(t: real, s: real, a: real, c: real, ue: real, ve: real, e: real)
    requires s == 0.0 - t && ue == a + s * c && ve == 0.0 && e == ue + s * ve
    ensures e == a - t * c
  {
  }

  /** A correlation is undefined exactly when a side is flat. */
  lemma CorrDefined(y: Vector, x: Vector, sqrt: real -> real)
    requires |y| == |x| > 0 && IsRoot(sqrt)
    ensures Finish(Corr, PopulationOf(y, x), sqrt).None? <==> Spread(y, y) == 0.0 || Spread(x, x) == 0.0
  {
    ScaleBack(y, x);
    SpreadIsNonNegative(y);
    SpreadIsNonNegative(x);
  }

  /** A correlation is a signed share of the two spreads. */
  lemma CorrIsBounded(y: Vector, x: Vector, r: real, sqrt: real -> real)
    requires |y| == |x| > 0 && IsRoot(sqrt) && Finish(Corr, PopulationOf(y, x), sqrt) == Some(r)
    ensures -1.0 <= r <= 1.0
    ensures r * r * (Spread(y, y) * Spread(x, x)) == Spread(y, x) * Spread(y, x)
    ensures (r > 0.0 <==> Spread(y, x) > 0.0) && (r < 0.0 <==> Spread(y, x) < 0.0)
  {
    ScaleBack(y, x);
    CorrOf(PopulationOf(y, x), r, sqrt, |y| as real, y, x);
  }

  lemma CorrOf(p: Population, r: real, sqrt: real -> real, n: real, y: Vector, x: Vector)
    requires |y| == |x| > 0 && IsRoot(sqrt) && Finish(Corr, p, sqrt) == Some(r)
    requires n > 0.0 && p.varY * n == Spread(y, y) && p.varX * n == Spread(x, x) && p.covar * n == Spread(y, x)
    requires Spread(y, y) > 0.0 && Spread(x, x) > 0.0
    ensures -1.0 <= r <= 1.0
    ensures r * r * (Spread(y, y) * Spread(x, x)) == Spread(y, x) * Spread(y, x)
    ensures (r > 0.0 <==> Spread(y, x) > 0.0) && (r < 0.0 <==> Spread(y, x) < 0.0)
  {
    CauchySchwarz(y, x);
    CorrNumbers(p, r, sqrt, n, Spread(y, y), Spread(x, x), Spread(y, x));
  }

  lemma CorrNumbers(p: Population, r: real, sqrt: real -> real, n: real, a: real, b: real, s: real)
    requires IsRoot(sqrt) && Finish(Corr, p, sqrt) == Some(r)
    requires p.varY * n == a && p.varX * n == b && p.covar * n == s
    requires n > 0.0 && a > 0.0 && b > 0.0 && s * s <= a * b
    ensures -1.0 <= r <= 1.0
    ensures r * r * (a * b) == s * s
    ensures (r > 0.0 <==> s > 0.0) && (r < 0.0 <==> s < 0.0)
  {
    RootPositive(sqrt, p.varY, p.varX);
    var root := Geometric(p.varY, p.varX, sqrt);
    QuotientBack(p.covar, root);
    SignCarries(r, root, p.covar);
    SignCarries(p.covar, n, s);
    SquareOfCorr(r, root, p.varY, p.varX, p.covar, n, a, b, s);
    ProductPositive(a, b, a * b);
    UnitSquare(r, a * b, s * s);
  }

  lemma SignCarries(v: real, n: real, s: real)
    requires n > 0.0 && v * n == s
    ensures (v > 0.0 <==> s > 0.0) && (v < 0.0 <==> s < 0.0)
  {
    SameSign(v, n, s);
    SameSign(0.0 - v, n, 0.0 - s);
  }

  lemma SquareOfCorr(r: real, root: real, vy: real, vx: real, c: real, n: real, a: real, b: real, s: real)
    requires r * root == c && root * root == vy * vx && vy * n == a && vx * n == b && c * n == s
    ensures r * r * (a * b) == s * s
  {
    var m := root * n;
    assert m * m == (root * root) * (n * n);
    assert a * b == (vy * vx) * (n * n);
    assert r * m == s by { assert r * m == (r * root) * n; }
    assert r * r * (m * m) == (r * m) * (r * m);
  }

  lemma WithinSpreads(t: real, a: real, b: real, c: real)
    requires b > 0.0 && t * b == c && t * c <= a
    ensures c * c <= a * b
  {
    var d := a - t * c;
    assert d * b == a * b - c * c by { assert t * c * b == c * c; }
    if d > 0.0 { ProductPositive(d, b, d * b); }
  }

  lemma UnitSquare(r: real, d: real, s: real)
    requires d > 0.0 && r * r * d == s && s <= d
    ensures -1.0 <= r <= 1.0
  {
    var q := r * r;
    if q > 1.0 { ProductPositive(q - 1.0, d, (q - 1.0) * d); }
    if r > 1.0 { ProductPositive(r - 1.0, r + 1.0, (r - 1.0) * (r + 1.0)); }
    if r < -1.0 { ProductPositive(0.0 - r - 1.0, 1.0 - r, (0.0 - r - 1.0) * (1.0 - r)); }
  }

  /** R² of the closed form is one less the unexplained share; the clamp never acts. */
  lemma ClosedFormRSquared(y: Vector, x: Vector, slope: real, intercept: real, r2: real, sqrt: real -> real)
    requires |y| == |x| > 0 && IsRoot(sqrt)
    requires Finish(RegrSlope, PopulationOf(y, x), sqrt) == Some(slope)
    requires Finish(RegrIntercept, PopulationOf(y, x), sqrt) == Some(intercept)
    requires Finish(RegrR2, PopulationOf(y, x), sqrt) == Some(r2)
    ensures Spread(y, y) > 0.0
    ensures r2 == 1.0 - Sse(Window([x], y), 1, [intercept, slope]) / Spread(y, y)
  {
    ClosedFormIsLeastSquares(y, x, slope, intercept, sqrt);
    ScaleBack(y, x);
    var explained := slope * Spread(y, x);
    var share := Quotient(explained, Spread(y, y));
    OneFactorShare(y, x, slope, intercept, explained, share);
    RSquaredOf(PopulationOf(y, x), slope, r2, explained, share, sqrt, |y| as real, Spread(y, x), Spread(y, y));
  }

  lemma OneFactorShare(y: Vector, x: Vector, slope: real, intercept: real, explained: real, share: real)
    requires |y| == |x| > 0 && LeastSquares(Window([x], y), 1, [intercept, slope]) && Spread(y, y) > 0.0
    requires explained == slope * Spread(y, x) && share == Quotient(explained, Spread(y, y))
    ensures share == 1.0 - Sse(Window([x], y), 1, [intercept, slope]) / Spread(y, y) && 0.0 <= share <= 1.0
  {
    var c := [intercept, slope];
    SpreadIsInner(x, y);
    OneFactorExplains(Window([x], y), c);
    RSquaredIsShare(Window([x], y), 1, c, explained, Spread(y, y), share);
  }

  lemma RSquaredOf(p: Population, slope: real, r2: real, explained: real, share: real, sqrt: real -> real,
                   n: real, sxy: real, total: real)
    requires IsRoot(sqrt) && Finish(RegrSlope, p, sqrt) == Some(slope) && Finish(RegrR2, p, sqrt) == Some(r2)
    requires p.covar * n == sxy && p.varY * n == total && total > 0.0
    requires explained == slope * sxy && share == Quotient(explained, total) && 0.0 <= share <= 1.0
    ensures r2 == share
  {
    DivideBack(p.covar, p.varX, slope);
    QuotientBack(explained, total);
    SquaredBack(p.covar, p.varX, p.varY);
    SameShare(SquaredCorrelation(p.covar, p.varX, p.varY), share, slope, p.covar, p.varX, p.varY, n, sxy, total);
  }

  lemma OneFactorExplains(w: Window, c: Vector)
    requires IsWindow(w, 1) && |c| == 2 && |w.y| > 0
    ensures Dot(c[1..], Covariances(w, 1), 1) == c[1] * Spread(w.xs[0], w.y)
  {
    assert Dot(c[1..], Covariances(w, 1), 1) == Dot(c[1..], Covariances(w, 1), 0) + c[1] * Spread(w.xs[0], w.y);
  }

  lemma SquaredBack(c: real, vx: real, vy: real)
    requires vx > 0.0 && vy > 0.0
    ensures vx * vy != 0.0 && SquaredCorrelation(c, vx, vy) * (vx * vy) == c * c
  {
    ProductPositive(vx, vy, vx * vy);
    var d, n := vx * vy, c * c;
    var q := n / d;
    DivideBack(n, d, q);
  }

  lemma SameShare(raw: real, share: real, slope: real, c: real, vx: real, vy: real, n: real, sxy: real, total: real)
    requires vx > 0.0 && total > 0.0 && raw * (vx * vy) == c * c && slope * vx == c
    requires c * n == sxy && vy * n == total && share * total == slope * sxy
    ensures raw == share
  {
    var left, right := raw * vy, slope * c;
    assert left * vx == right * vx;
    QuotientsAgree(left, right, vx);
    assert raw * total == left * n == slope * sxy;
    QuotientsAgree(raw, share, total);
  }

  /** The reported eigenvalue is one, and no direction varies more. */
  lemma EigenIsLargest(y: Vector, x: Vector, top: real, a: real, b: real, sqrt: real -> real)
    requires |y| == |x| > 0 && IsRoot(sqrt)
    requires Finish(EigenMax, PopulationOf(y, x), sqrt) == Some(top)
    ensures var p := PopulationOf(y, x); (top - p.varY) * (top - p.varX) == p.covar * p.covar
    ensures var p := PopulationOf(y, x);
            p.varY * (a * a) + 2.0 * (p.covar * (a * b)) + p.varX * (b * b) <= top * (a * a + b * b)
  {
    var p := PopulationOf(y, x);
    EigenOf(p.varY, p.varX, p.covar, top, a, b, sqrt);
  }

  lemma EigenOf(vy: real, vx: real, c: real, top: real, a: real, b: real, sqrt: real -> real)
    requires IsRoot(sqrt) && top == Eigen(vy, vx, c, sqrt)
    ensures (top - vy) * (top - vx) == c * c
    ensures vy * (a * a) + 2.0 * (c * (a * b)) + vx * (b * b) <= top * (a * a + b * b)
  {
    var gap := (vy - vx) / 2.0;
    var radius := Hypot(gap, c, sqrt);
    HypotIsRoot(gap, c, sqrt);
    EigenNumbers(radius, gap, c, top - vy, top - vx, a, b);
    Directions(top, vy, vx, c, a * a, b * b, a * b, top - vy, top - vx);
  }

  lemma HypotIsRoot(a: real, b: real, sqrt: real -> real)
    requires IsRoot(sqrt)
    ensures Hypot(a, b, sqrt) >= 0.0
    ensures Hypot(a, b, sqrt) * Hypot(a, b, sqrt) == a * a + b * b
  {
    SquareIsNonNegative(a);
    SquareIsNonNegative(b);
  }

  lemma EigenNumbers(radius: real, gap: real, c: real, over: real, under: real, a: real, b: real)
    requires radius >= 0.0 && radius * radius == gap * gap + c * c
    requires over == radius - gap && under == radius + gap
    ensures over * under == c * c
    ensures over * (a * a) - 2.0 * (c * (a * b)) + under * (b * b) >= 0.0
  {
    RadiusDominates(radius, gap, c);
    Rayleigh(over, under, c, a, b);
  }

  lemma RadiusDominates(radius: real, gap: real, c: real)
    requires radius >= 0.0 && radius * radius == gap * gap + c * c
    ensures radius >= gap && radius >= 0.0 - gap
    ensures (radius - gap) * (radius + gap) == c * c
  {
    SquareIsNonNegative(c);
    if radius < gap { ProductPositive(gap - radius, gap + radius, (gap - radius) * (gap + radius)); }
    if radius < 0.0 - gap { ProductPositive(0.0 - gap - radius, radius - gap, (0.0 - gap - radius) * (radius - gap)); }
  }

  /** p·a² − 2c·ab + q·b² is never negative when pq = c² and p, q are not. */
  lemma Rayleigh(p: real, q: real, c: real, a: real, b: real)
    requires p >= 0.0 && q >= 0.0 && p * q == c * c
    ensures p * (a * a) - 2.0 * (c * (a * b)) + q * (b * b) >= 0.0
  {
    var form := p * (a * a) - 2.0 * (c * (a * b)) + q * (b * b);
    if p > 0.0 {
      SquareIsNonNegative(p * a - c * b);
      Completed(p, q, c, a, b);
      SignOfQuotient(form, p);
    } else {
      FlatCovariance(c);
      SquareIsNonNegative(b);
      ProductNonNegative(q, b * b);
    }
  }

  lemma ProductNonNegative(x: real, y: real)
    requires x >= 0.0 && y >= 0.0
    ensures x * y >= 0.0
  {
    if x > 0.0 && y > 0.0 { ProductPositive(x, y, x * y); }
  }

  lemma FlatCovariance(c: real)
    requires c * c == 0.0
    ensures c == 0.0
  {
    if c > 0.0 { ProductPositive(c, c, c * c); }
    if c < 0.0 { ProductPositive(0.0 - c, 0.0 - c, (0.0 - c) * (0.0 - c)); }
  }

  lemma Completed(p: real, q: real, c: real, a: real, b: real)
    requires p * q == c * c
    ensures (p * (a * a) - 2.0 * (c * (a * b)) + q * (b * b)) * p == (p * a - c * b) * (p * a - c * b)
  {
    assert (q * (b * b)) * p == (p * q) * (b * b) == (c * b) * (c * b);
    assert (p * (a * a)) * p == (p * a) * (p * a);
    assert (c * (a * b)) * p == (p * a) * (c * b);
  }

  lemma Directions(top: real, vy: real, vx: real, c: real, aa: real, bb: real, ab: real, over: real, under: real)
    requires over == top - vy && under == top - vx
    requires over * aa - 2.0 * (c * ab) + under * bb >= 0.0
    ensures vy * aa + 2.0 * (c * ab) + vx * bb <= top * (aa + bb)
  {
  }
}
