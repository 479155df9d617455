/** WHERE trees as the view layer reads and writes them: the closed-range chain
    it ANDs into a plan, and the ordering-key lower bound it extracts. */
module Predicates {
  import opened Keys
  import opened Ranges

  datatype CmpOp = Eq | Ne | Lt | Le | Gt | Ge
  datatype Number = Int(int_: i64) | Float(float: real)

  /** `Other` stands for every leaf the view layer does not look into. */
  datatype Predicate =
    | Compare(column: string, op: CmpOp, value: Number)
    | Other(leaf: nat)
    | And(left: Predicate, right: Predicate)
    | Or(left: Predicate, right: Predicate)
    | Not(inner: Predicate)

  datatype Truth = True | False | Unknown

  function Known(b: bool): Truth { if b then True else False }

  /** A row as a predicate sees it: numeric columns (None is NULL) and the truth
      of every other leaf. */
  datatype Env = Env(column: string -> Value, leaf: nat -> Truth)
  datatype Value = Null | Number_(n: real)

  function NumberOf(n: Number): real {
    match n case Int(i) => i as real case Float(x) => x
  }

  function Holds(op: CmpOp, x: real, y: real): bool {
    match op
    case Eq => x == y
    case Ne => x != y
    case Lt => x < y
    case Le => x <= y
    case Gt => x > y
    case Ge => x >= y
  }

  /** SQL's three-valued evaluation. */
  function Evaluate(p: Predicate, row: Env): Truth {
    match p
    case Compare(c, op, v) =>
      (match row.column(c) case Null => Unknown case Number_(x) => Known(Holds(op, x, NumberOf(v))))
    case Other(l) => row.leaf(l)
    case And(a, b) =>
      var x, y := Evaluate(a, row), Evaluate(b, row);
      if x.False? || y.False? then False else if x.True? && y.True? then True else Unknown
    case Or(a, b) =>
      var x, y := Evaluate(a, row), Evaluate(b, row);
      if x.True? || y.True? then True else if x.False? && y.False? then False else Unknown
    case Not(a) =>
      match Evaluate(a, row) case True => False case False => True case Unknown => Unknown
  }

  predicate Accepts(p: Predicate, row: Env) { Evaluate(p, row).True? }

  // ------------------------------------------------------------- laws of the logic

  /** Three-valued connectives: what each accepts and what it rejects. */
  lemma LogicLaws(p: Predicate, q: Predicate, row: Env)
    ensures Accepts(And(p, q), row) <==> Accepts(p, row) && Accepts(q, row)
    ensures Accepts(Or(p, q), row) <==> Accepts(p, row) || Accepts(q, row)
    ensures Accepts(Not(And(p, q)), row) <==> Accepts(Not(p), row) || Accepts(Not(q), row)
    ensures Accepts(Not(Or(p, q)), row) <==> Accepts(Not(p), row) && Accepts(Not(q), row)
    ensures Evaluate(Not(Not(p)), row) == Evaluate(p, row)
    ensures !(Accepts(p, row) && Accepts(Not(p), row))
    ensures !Accepts(p, row) && !Accepts(Not(p), row) <==> Evaluate(p, row).Unknown?
  {
  }

  /** A comparison with NULL is neither accepted nor rejected; otherwise the six
      operators are what they are on numbers. */
  lemma ComparisonLaws(column: string, v: Number, row: Env)
    ensures forall op :: row.column(column).Null? <==> Evaluate(Compare(column, op, v), row).Unknown?
    ensures Evaluate(Compare(column, Ge, v), row) == Evaluate(Not(Compare(column, Lt, v)), row)
    ensures Evaluate(Compare(column, Le, v), row) == Evaluate(Not(Compare(column, Gt, v)), row)
    ensures Evaluate(Compare(column, Ne, v), row) == Evaluate(Not(Compare(column, Eq, v)), row)
    ensures Evaluate(Compare(column, Le, v), row)
         == Evaluate(Or(Compare(column, Lt, v), Compare(column, Eq, v)), row)
    ensures !(Accepts(Compare(column, Lt, v), row) && Accepts(Compare(column, Gt, v), row))
    ensures row.column(column).Number_? && v.Int? ==>
              (Accepts(Compare(column, Eq, v), row) <==> row.column(column).n == v.int_ as real)
    ensures row.column(column).Number_? && v.Float? ==>
              (Accepts(Compare(column, Lt, v), row) <==> v.float - row.column(column).n > 0.0)
  {
  }

  datatype Bound = NoBound | AtLeast(key: i64)

  /** A float literal floors; out of range it clamps, as the cast does. */
  function FloorKey(n: Number): i64 {
    match n case Int(i) => i case Float(x) => Clamp(x.Floor)
  }

  /** A value no accepted row's ordering key is below, where one is derivable. */
  function OkeyLowerBound(p: Predicate, okey: string): Bound {
    match p
    case And(a, b) =>
      (match (OkeyLowerBound(a, okey), OkeyLowerBound(b, okey))
       case (AtLeast(x), AtLeast(y)) => AtLeast(if x >= y then x else y)
       case (AtLeast(x), NoBound) => AtLeast(x)
       case (NoBound, other) => other)
    case Or(a, b) =>
      (match (OkeyLowerBound(a, okey), OkeyLowerBound(b, okey))
       case (AtLeast(x), AtLeast(y)) => AtLeast(if x <= y then x else y)
       case _ => NoBound)
    case Compare(c, op, v) =>
      if c == okey && (op.Ge? || op.Eq? || op.Gt?) then AtLeast(FloorKey(v)) else NoBound
    case _ => NoBound
  }

  /** Soundness over every predicate tree, NULLs and UNKNOWN included: no row
      the predicate accepts has an ordering key below the bound. */
  lemma {:induction false} LowerBoundIsSound(p: Predicate, okey: string, row: Env, k: i64)
    requires row.column(okey) == Number_(k as real)
    requires Accepts(p, row) && OkeyLowerBound(p, okey).AtLeast?
    ensures OkeyLowerBound(p, okey).key <= k
  {
    match p {
      case And(a, b) =>
        if OkeyLowerBound(a, okey).AtLeast? { LowerBoundIsSound(a, okey, row, k); }
        if OkeyLowerBound(b, okey).AtLeast? { LowerBoundIsSound(b, okey, row, k); }
      case Or(a, b) =>
        if Accepts(a, row) { LowerBoundIsSound(a, okey, row, k); }
        if Accepts(b, row) { LowerBoundIsSound(b, okey, row, k); }
      case Compare(c, op, v) =>
      case _ =>
    }
  }

  /** The extracted bound promises at least `k`. */
  predicate Promises(b: Bound, k: int) { b.AtLeast? && b.key >= k }

  /** The bound is as good as its parts: AND takes the better of two, OR the worse,
      and a comparison from below gives its own literal. */
  lemma BoundIsBest(a: Predicate, b: Predicate, okey: string, k: int)
    ensures Promises(OkeyLowerBound(And(a, b), okey), k)
       <==> Promises(OkeyLowerBound(a, okey), k) || Promises(OkeyLowerBound(b, okey), k)
    ensures Promises(OkeyLowerBound(Or(a, b), okey), k)
       <==> Promises(OkeyLowerBound(a, okey), k) && Promises(OkeyLowerBound(b, okey), k)
  {
  }

  lemma LiteralBounds(okey: string, column: string, op: CmpOp, k: i64, x: real)
    ensures OkeyLowerBound(Compare(column, op, Int(k)), okey)
         == if column == okey && op in {Ge, Eq, Gt} then AtLeast(k) else NoBound
    ensures column == okey && op in {Ge, Eq, Gt} && MIN as real <= x <= MAX as real ==>
              var b := OkeyLowerBound(Compare(column, op, Float(x)), okey);
              b.AtLeast? && b.key as real <= x < b.key as real + 1.0
  {
  }

  /** The range chain: an OR of closed ranges over one column. */
  function RangesPredicate(column: string, ranges: seq<Range>): Predicate
    requires ranges != []
  {
    var last := ranges[|ranges| - 1];
    var arm := And(Compare(column, Ge, Int(last.lo)), Compare(column, Le, Int(last.hi)));
    if |ranges| == 1 then arm else Or(RangesPredicate(column, ranges[..|ranges| - 1]), arm)
  }

  /** On a NOT NULL column the chain and its negation split the rows exactly. */
  lemma {:induction false} RangesPredicateIsCover(column: string, ranges: seq<Range>, row: Env, k: i64)
    requires ranges != [] && row.column(column) == Number_(k as real)
    ensures Evaluate(RangesPredicate(column, ranges), row) == Known(Covers(ranges, k))
    ensures Accepts(Not(RangesPredicate(column, ranges)), row) <==> !Covers(ranges, k)
  {
    var init, last := ranges[..|ranges| - 1], ranges[|ranges| - 1];
    assert ranges == init + [last];
    CoversAppend(init, [last], k);
    CoversOne(last, k);
    assert Evaluate(And(Compare(column, Ge, Int(last.lo)), Compare(column, Le, Int(last.hi))), row)
        == Known(last.lo <= k <= last.hi);
    if |ranges| > 1 {
      RangesPredicateIsCover(column, init, row, k);
    } else {
      assert init == [];
    }
  }

  /** `restricted_to`: a run list as source-side key ranges. */
  function SourceRanges(runs: seq<Range>, d: Width): seq<Range> {
    seq(|runs|, i requires 0 <= i < |runs| => Range(BucketLow(runs[i].lo, d), BucketHigh(runs[i].hi, d)))
  }

  /** `view_ranges`: the same list over the stored bucket column. */
  function ViewRanges(runs: seq<Range>, scale: Width): seq<Range> {
    seq(|runs|, i requires 0 <= i < |runs| =>
      Range(SaturatingMul(runs[i].lo, scale), SaturatingMul(runs[i].hi, scale)))
  }

  /** The plan a fold runs accepts a source row exactly when its own predicate
      does and the row's bucket is in a run. */
  lemma RestrictedPlanSelects(column: string, own: Predicate, runs: seq<Range>, d: Width, row: Env, k: i64)
    requires runs != [] && AttainableEnds(runs, d)
    requires row.column(column) == Number_(k as real)
    ensures Accepts(And(RangesPredicate(column, SourceRanges(runs, d)), own), row)
       <==> Covers(runs, BucketOf(k, d)) && Accepts(own, row)
  {
    RangesPredicateIsCover(column, SourceRanges(runs, d), row, k);
    SourceHitIsBucketHit(runs, k, d);
    SourceCover(runs, d, k);
  }

  /** The clean half of a read keeps a stored row exactly when its bucket is in
      no run. */
  lemma CleanPlanSelects(column: string, runs: seq<Range>, d: Width, scale: Width, row: Env, b: i64)
    requires runs != [] && AttainableEnds(runs, d) && Attainable(b, d) && (scale == 1 || scale == d)
    requires row.column(column) == Number_((b * scale) as real)
    ensures Accepts(Not(RangesPredicate(column, ViewRanges(runs, scale))), row) <==> !Covers(runs, b)
  {
    if scale == d { BucketTimesWidthFits(b, d); }
    RangesPredicateIsCover(column, ViewRanges(runs, scale), row, b * scale);
    ViewHitIsBucketHit(runs, b, d, scale);
    ViewCover(runs, scale, b * scale);
  }

  lemma SourceCover(runs: seq<Range>, d: Width, k: i64)
    ensures Covers(SourceRanges(runs, d), k) <==> SourceHit(runs, k, d)
  {
    if i :| 0 <= i < |runs| && BucketLow(runs[i].lo, d) <= k <= BucketHigh(runs[i].hi, d) {
      assert SourceRanges(runs, d)[i].lo <= k <= SourceRanges(runs, d)[i].hi;
    }
  }

  lemma ViewCover(runs: seq<Range>, scale: Width, v: i64)
    ensures Covers(ViewRanges(runs, scale), v) <==> ViewHit(runs, v, scale)
  {
    if i :| 0 <= i < |runs| && SaturatingMul(runs[i].lo, scale) <= v <= SaturatingMul(runs[i].hi, scale) {
      assert ViewRanges(runs, scale)[i].lo <= v <= ViewRanges(runs, scale)[i].hi;
    }
  }
}
