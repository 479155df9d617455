/** What a refresh does to a view's durable state, on values: which buckets it
    folds, which it supersedes, where it leaves the stamps and the ceiling, and
    why the invariant survives it, or survives being interrupted by a crash. */
module Refresh {
  import opened Keys
  import opened Ranges
  import opened Log
  import opened Joins
  import opened Engine

  // ----------------------------------------------------------- the new ceiling

  ghost predicate IsFrontier(k: i64, dims: set<Row>) {
    && (exists d :: d in dims && d.okey == k)
    && forall d :: d in dims ==> d.okey <= k
  }

  lemma {:induction false} FrontierExists(dims: set<Row>)
    requires dims != {}
    ensures exists k: i64 :: IsFrontier(k, dims)
  {
    var a :| a in dims;
    var rest := dims - {a};
    if rest == {} {
      assert dims == {a};
      assert IsFrontier(a.okey, dims);
    } else {
      FrontierExists(rest);
      var m: i64 :| IsFrontier(m, rest);
      var top: i64 := if m <= a.okey then a.okey else m;
      assert IsFrontier(top, dims) by {
        forall d | d in dims ensures d.okey <= top { assert d == a || d in rest; }
        if top == m && m > a.okey { var d :| d in rest && d.okey == m; assert d in dims; }
      }
    }
  }

  /** The dimension's greatest ordering key, null-keyed rows included. */
  function Frontier(dims: set<Row>): (k: Option<i64>)
    ensures k.None? <==> dims == {}
    ensures k.Some? ==> IsFrontier(k.value, dims)
  {
    if dims == {} then None else
      FrontierExists(dims);
      var d :| d in dims && forall x :: x in dims ==> x.okey <= d.okey;
      Some(d.okey)
  }

  /** The rows' least ordering key. */
  function LeastKey(rows: set<Row>): (k: i64)
    requires rows != {}
    ensures (exists r :: r in rows && r.okey == k) && forall r :: r in rows ==> k <= r.okey
  {
    var keys := set r | r in rows :: r.okey;
    var r0 :| r0 in rows;
    assert r0.okey in keys;
    assert forall r :: r in rows ==> r.okey in keys;
    MinExists(keys);
    var m :| m in keys && forall x :: x in keys ==> m <= x;
    m
  }

  /** An as-of view materializes strictly below the low edge of the bucket that
      holds the reference frontier. */
  function AsOfCeiling(dims: set<Row>, d: Width): i64 {
    match Frontier(dims)
    case None => MIN
    case Some(k) => BucketLow(BucketOf(k, d), d)
  }

  /** A key is below the ceiling exactly when a reference row lies in a later bucket. */
  lemma CeilingIsFrontier(dims: set<Row>, d: Width, k: i64)
    ensures k < AsOfCeiling(dims, d) <==> exists r :: r in dims && BucketOf(k, d) < BucketOf(r.okey, d)
  {
    if dims != {} {
      var top := Frontier(dims).value;
      var r :| r in dims && r.okey == top;
      LowEdge(k, BucketOf(top, d), d);
      forall x | x in dims ensures BucketOf(x.okey, d) <= BucketOf(r.okey, d) { BucketOfMonotone(x.okey, top, d); }
    }
  }

  /** Below the ceiling matches are settled: a reference row as late as any changes none. */
  lemma SettledBelowCeiling(mode: AsOfMode, dims: Rows, d: Width, late: Row, f: Row)
    requires IdsUnique(dims + {late}) && forall x :: x in dims ==> x.okey <= late.okey
    requires f.okey < AsOfCeiling(dims, d)
    ensures Match(AsOfJoin(mode), f, dims + {late}) == Match(AsOfJoin(mode), f, dims)
  {
    CeilingIsFrontier(dims, d, f.okey);
    var r :| r in dims && BucketOf(f.okey, d) < BucketOf(r.okey, d);
    if r.okey <= f.okey { BucketOfMonotone(r.okey, f.okey, d); }
    assert Candidates(AsOfJoin(mode), f, dims + {late}) == Candidates(AsOfJoin(mode), f, dims);
  }

  // ------------------------------------------------------------ bucket sets

  /** Fact keys an as-of refresh folds: dirty or newly stable, below the new ceiling. */
  ghost predicate FoldKey(def: Definition, facts: Log, dims: Log, v: View, ceiling: i64, k: i64) {
    k < ceiling && (DirtyKey(def.kind, facts, dims, v, k) || v.ceiling <= k)
  }

  ghost predicate FoldBucket(def: Definition, facts: Log, dims: Log, v: View, ceiling: i64, b: i64) {
    exists k: i64 :: BucketOf(k, def.divide) == b && FoldKey(def, facts, dims, v, ceiling, k)
  }

  ghost function AsOfFold(def: Definition, facts: Log, dims: Log, v: View, ceiling: i64): iset<i64> {
    iset b: i64 | FoldBucket(def, facts, dims, v, ceiling, b)
  }

  /** The band a regressed frontier strands. */
  ghost predicate InBand(def: Definition, v: View, ceiling: i64, b: i64) {
    exists k: i64 :: BucketOf(k, def.divide) == b && ceiling <= k < v.ceiling
  }

  ghost function Band(def: Definition, v: View, ceiling: i64): iset<i64> {
    iset b: i64 | InBand(def, v, ceiling, b)
  }

  ghost function DirtyBuckets(def: Definition, facts: Log, dims: Log, v: View): iset<i64> {
    iset b: i64 | DirtyBucket(def, facts, dims, v, b)
  }

  /** Buckets `victims` out, the current answer of buckets `folds` in. */
  ghost function Replaced(def: Definition, facts: GoodLog, dims: GoodLog, table: set<ViewRow>,
                          victims: iset<i64>, folds: iset<i64>): set<ViewRow> {
    (table - RowsIn(table, victims)) + RowsIn(def.Current(facts, dims), folds)
  }

  ghost predicate Any(b: i64) { true }

  ghost function Everything(): iset<i64> { iset b: i64 | Any(b) }

  /** Buckets the rebuild floor folds: with a key up to the saturated ceiling - 1. */
  ghost predicate HasKeyBelow(def: Definition, ceiling: i64, b: i64) {
    exists k: i64 :: BucketOf(k, def.divide) == b && k <= SaturatingSub(ceiling, 1)
  }

  ghost function Below(def: Definition, ceiling: i64): iset<i64> {
    iset b: i64 | HasKeyBelow(def, ceiling, b)
  }

  /** A stamp above its source's watermark: a foreign pairing, trusted for nothing. */
  predicate Tampered(facts: Log, dims: Log, v: View, joined: bool) {
    facts.next < v.factStamp || (joined && dims.next < v.dimStamp)
  }

  ghost function RefreshedSingle(def: Definition, facts: GoodLog, dims: GoodLog, v: View): View {
    var dirty := DirtyBuckets(def, facts, dims, v);
    if Tampered(facts, dims, v, false) then v.(factStamp := facts.next, table := def.Current(facts, dims))
    else v.(factStamp := facts.next, table := Replaced(def, facts, dims, v.table, dirty, dirty))
  }

  ghost function RefreshedAsOf(def: Definition, facts: GoodLog, dims: GoodLog, v: View): View {
    var c := AsOfCeiling(dims.Live(), def.divide);
    var folds := AsOfFold(def, facts, dims, v, c);
    View(facts.next, dims.next, c,
         if dims.Live() == {} then (if v.ceiling > MIN then {} else v.table)
         else if Tampered(facts, dims, v, true) then RowsIn(def.Current(facts, dims), Below(def, c))
         else Replaced(def, facts, dims, v.table, folds + Band(def, v, c), folds))
  }

  ghost function RefreshedStar(def: Definition, facts: GoodLog, dims: GoodLog, v: View): View {
    var dirty := DirtyBuckets(def, facts, dims, v);
    if Tampered(facts, dims, v, true) || v.ceiling < MAX || dims.Touched(v.dimStamp) != {}
    then View(facts.next, dims.next, MAX, def.Current(facts, dims))
    else View(facts.next, dims.next, v.ceiling, Replaced(def, facts, dims, v.table, dirty, dirty))
  }

  ghost function Refreshed(def: Definition, facts: GoodLog, dims: GoodLog, v: View): View {
    match def.kind
    case NoJoin => RefreshedSingle(def, facts, dims, v)
    case AsOfJoin(_) => RefreshedAsOf(def, facts, dims, v)
    case EquiJoin => RefreshedStar(def, facts, dims, v)
  }

  // --------------------------------------------------------- invariant kept

  lemma RowsAtReplaced(def: Definition, facts: GoodLog, dims: GoodLog, table: set<ViewRow>,
                       victims: iset<i64>, folds: iset<i64>, b: i64)
    ensures RowsAt(Replaced(def, facts, dims, table, victims, folds), b)
         == (if b in victims then {} else RowsAt(table, b))
          + (if b in folds then RowsAt(def.Current(facts, dims), b) else {})
  {
  }

  /** Replaced tables stay on the bucket axis. */
  lemma ReplacedOnAxis(def: Definition, facts: GoodLog, dims: GoodLog, table: set<ViewRow>,
                       victims: iset<i64>, folds: iset<i64>)
    requires forall r :: r in table ==> Attainable(r.bucket, def.divide)
    ensures forall r :: r in Replaced(def, facts, dims, table, victims, folds) ==> Attainable(r.bucket, def.divide)
  {
    CurrentOnAxis(def, facts, dims);
  }

  lemma CurrentOnAxis(def: Definition, facts: GoodLog, dims: GoodLog)
    ensures forall r :: r in def.Current(facts, dims) ==> Attainable(r.bucket, def.divide)
  {
  }

  /** The state a refresh must reach: stamps at the watermarks and every bucket
      wholly below the ceiling stored as it is now. */
  ghost predicate Complete(def: Definition, facts: GoodLog, dims: GoodLog, v: View) {
    && v.factStamp == facts.next
    && (!def.kind.NoJoin? ==> v.dimStamp == dims.next)
    && (forall r :: r in v.table ==> Attainable(r.bucket, def.divide))
    && (def.kind.EquiJoin? ==> v.ceiling == MIN || v.ceiling == MAX)
    && forall b: i64 :: Attainable(b, def.divide) && !OpenBucket(def, v.ceiling, b) ==>
         RowsAt(v.table, b) == RowsAt(def.Current(facts, dims), b)
  }

  lemma CompleteIsInv(def: Definition, facts: GoodLog, dims: GoodLog, v: View)
    requires Complete(def, facts, dims, v)
    requires facts.durable == facts.next && dims.durable == dims.next
    requires def.kind.NoJoin? ==> v.dimStamp <= dims.durable
    ensures Inv(def, facts, dims, v)
  {
    forall b: i64 | Claimed(def, facts, dims, v, b)
      ensures RowsAt(v.table, b) == RowsAt(def.Current(Past(facts, v.factStamp), Past(dims, v.dimStamp)), b)
    {
      assert Past(facts, facts.next).Live() == facts.Live();
      if def.kind.NoJoin? {
        AnswerIsLocal(def, JoinRows(def.kind, def.left, facts.Live(), dims.Live()),
                      JoinRows(def.kind, def.left, facts.Live(), Past(dims, v.dimStamp).Live()), b);
      } else {
        assert Past(dims, dims.next).Live() == dims.Live();
      }
    }
  }

  /** A single-source view's materialization alone is the answer after a refresh. */
  lemma CompleteSingleIsCurrent(def: Definition, facts: GoodLog, dims: GoodLog, v: View)
    requires def.kind.NoJoin? && Complete(def, facts, dims, v)
    ensures v.table == def.Current(facts, dims)
  {
    CurrentOnAxis(def, facts, dims);
    forall b: i64 ensures RowsAt(v.table, b) == RowsAt(def.Current(facts, dims), b) {
      if !Attainable(b, def.divide) {
        assert RowsAt(v.table, b) == {} == RowsAt(def.Current(facts, dims), b);
      }
    }
    SameByBucket(v.table, def.Current(facts, dims));
  }

  lemma RefreshSingleCompletes(def: Definition, facts: GoodLog, dims: GoodLog, v: View)
    requires def.kind.NoJoin? && Inv(def, facts, dims, v)
    ensures Complete(def, facts, dims, RefreshedSingle(def, facts, dims, v))
  {
    var dirty := DirtyBuckets(def, facts, dims, v);
    ReplacedOnAxis(def, facts, dims, v.table, dirty, dirty);
    CurrentOnAxis(def, facts, dims);
    forall b: i64 | Attainable(b, def.divide)
      ensures RowsAt(Replaced(def, facts, dims, v.table, dirty, dirty), b) == RowsAt(def.Current(facts, dims), b)
    {
      RowsAtReplaced(def, facts, dims, v.table, dirty, dirty, b);
      if b !in dirty { CleanBucketIsCurrent(def, facts, dims, v, b); }
    }
  }

  lemma RefreshAsOfCompletes(def: Definition, facts: GoodLog, dims: GoodLog, v: View)
    requires def.kind.AsOfJoin? && Inv(def, facts, dims, v)
    ensures Complete(def, facts, dims, RefreshedAsOf(def, facts, dims, v))
  {
    var c := AsOfCeiling(dims.Live(), def.divide);
    var folds := AsOfFold(def, facts, dims, v, c);
    var victims := folds + Band(def, v, c);
    var after := RefreshedAsOf(def, facts, dims, v);
    ReplacedOnAxis(def, facts, dims, v.table, victims, folds);
    CurrentOnAxis(def, facts, dims);
    forall b: i64 | Attainable(b, def.divide) && !OpenBucket(def, c, b)
      ensures RowsAt(after.table, b) == RowsAt(def.Current(facts, dims), b)
    {
      var w: i64 :| BucketOf(w, def.divide) == b;
      assert w < c;
      if dims.Live() != {} {
        AsOfBucketCompletes(def, facts, dims, v, c, b);
      }
    }
  }

  lemma AsOfBucketCompletes(def: Definition, facts: GoodLog, dims: GoodLog, v: View, c: i64, b: i64)
    requires def.kind.AsOfJoin? && Inv(def, facts, dims, v)
    requires Attainable(b, def.divide) && !OpenBucket(def, c, b)
    ensures RowsAt(Replaced(def, facts, dims, v.table, AsOfFold(def, facts, dims, v, c) + Band(def, v, c),
                            AsOfFold(def, facts, dims, v, c)), b)
         == RowsAt(def.Current(facts, dims), b)
  {
    var folds := AsOfFold(def, facts, dims, v, c);
    RowsAtReplaced(def, facts, dims, v.table, folds + Band(def, v, c), folds, b);
    assert b !in Band(def, v, c);
    if b !in folds {
      forall k: i64 | BucketOf(k, def.divide) == b
        ensures !DirtyKey(def.kind, facts, dims, v, k) && k < v.ceiling
      {
        assert k < c;
        assert !FoldKey(def, facts, dims, v, c, k);
      }
      CleanBucketIsCurrent(def, facts, dims, v, b);
    }
  }

  lemma RefreshStarCompletes(def: Definition, facts: GoodLog, dims: GoodLog, v: View)
    requires def.kind.EquiJoin? && Inv(def, facts, dims, v)
    ensures Complete(def, facts, dims, RefreshedStar(def, facts, dims, v))
  {
    var dirty := DirtyBuckets(def, facts, dims, v);
    ReplacedOnAxis(def, facts, dims, v.table, dirty, dirty);
    CurrentOnAxis(def, facts, dims);
    if v.ceiling == MAX {
      forall b: i64 | Attainable(b, def.divide) && !OpenBucket(def, MAX, b)
        ensures RowsAt(Replaced(def, facts, dims, v.table, dirty, dirty), b) == RowsAt(def.Current(facts, dims), b)
      {
        RowsAtReplaced(def, facts, dims, v.table, dirty, dirty, b);
        if b !in dirty { CleanBucketIsCurrent(def, facts, dims, v, b); }
      }
    }
  }

  /** Where a refresh leaves the ceiling: an as-of view's just under the bucket of the
      latest reference row, a star view's parked at the top. */
  lemma RefreshedCeiling(def: Definition, facts: GoodLog, dims: GoodLog, v: View, k: i64)
    ensures var c := Refreshed(def, facts, dims, v).ceiling;
            && (def.kind.NoJoin? ==> c == v.ceiling)
            && (def.kind.EquiJoin? ==> c == MAX)
            && (def.kind.AsOfJoin? ==>
                  (k < c <==> exists r :: r in dims.Live() && BucketOf(k, def.divide) < BucketOf(r.okey, def.divide)))
  {
    CeilingIsFrontier(dims.Live(), def.divide, k);
  }

  lemma RefreshCompletes(def: Definition, facts: GoodLog, dims: GoodLog, v: View)
    requires Inv(def, facts, dims, v)
    ensures Complete(def, facts, dims, Refreshed(def, facts, dims, v))
    ensures facts.durable == facts.next && dims.durable == dims.next
        ==> Inv(def, facts, dims, Refreshed(def, facts, dims, v))
  {
    match def.kind {
      case NoJoin => RefreshSingleCompletes(def, facts, dims, v);
      case AsOfJoin(_) => RefreshAsOfCompletes(def, facts, dims, v);
      case EquiJoin => RefreshStarCompletes(def, facts, dims, v);
    }
    if facts.durable == facts.next && dims.durable == dims.next {
      CompleteIsInv(def, facts, dims, Refreshed(def, facts, dims, v));
    }
  }

  // -------------------------------------------------------------- interruption

  /** The buckets whose stored rows a refresh may rewrite. */
  ghost function Victims(def: Definition, facts: GoodLog, dims: GoodLog, v: View): iset<i64> {
    match def.kind
    case NoJoin => if Tampered(facts, dims, v, false) then Everything() else DirtyBuckets(def, facts, dims, v)
    case AsOfJoin(_) =>
      var c := AsOfCeiling(dims.Live(), def.divide);
      if dims.Live() == {} then (if v.ceiling > MIN then Everything() else iset{})
      else if Tampered(facts, dims, v, true) then Everything()
      else AsOfFold(def, facts, dims, v, c) + Band(def, v, c)
    case EquiJoin =>
      if Tampered(facts, dims, v, true) || v.ceiling < MAX || dims.Touched(v.dimStamp) != {} then Everything()
      else DirtyBuckets(def, facts, dims, v)
  }

  /** Those it also writes rows into; from the others it only removes them. */
  ghost function Refolded(def: Definition, facts: GoodLog, dims: GoodLog, v: View): iset<i64> {
    match def.kind
    case NoJoin => Victims(def, facts, dims, v)
    case AsOfJoin(_) =>
      var c := AsOfCeiling(dims.Live(), def.divide);
      if dims.Live() == {} then iset{}
      else if Tampered(facts, dims, v, true) then Below(def, c)
      else AsOfFold(def, facts, dims, v, c)
    case EquiJoin => Victims(def, facts, dims, v)
  }

  /** `table` is what a crash may find after the first materialization write: the
      re-folded buckets hold anything at all, the other victims at most what they
      held, the rest is as it was. */
  ghost predicate Spoiled(def: Definition, facts: GoodLog, dims: GoodLog, v: View, table: set<ViewRow>) {
    && (forall r :: r in table ==> Attainable(r.bucket, def.divide))
    && (forall b: i64 :: b !in Victims(def, facts, dims, v) ==> RowsAt(table, b) == RowsAt(v.table, b))
    && forall b: i64 :: b !in Refolded(def, facts, dims, v) ==> RowsAt(table, b) <= RowsAt(v.table, b)
  }

  /** A finished refresh is one such table. */
  lemma RefreshedTableIsSpoiled(def: Definition, facts: GoodLog, dims: GoodLog, v: View)
    requires Inv(def, facts, dims, v)
    ensures Spoiled(def, facts, dims, v, Refreshed(def, facts, dims, v).table)
  {
    RefreshCompletes(def, facts, dims, v);
    forall b: i64
      ensures b !in Victims(def, facts, dims, v) ==>
                RowsAt(Refreshed(def, facts, dims, v).table, b) == RowsAt(v.table, b)
      ensures b !in Refolded(def, facts, dims, v) ==>
                RowsAt(Refreshed(def, facts, dims, v).table, b) <= RowsAt(v.table, b)
    {
      RewrittenBucket(def, facts, dims, v, b);
    }
  }

  lemma RewrittenBucket(def: Definition, facts: GoodLog, dims: GoodLog, v: View, b: i64)
    requires Inv(def, facts, dims, v)
    ensures b !in Victims(def, facts, dims, v) ==>
              RowsAt(Refreshed(def, facts, dims, v).table, b) == RowsAt(v.table, b)
    ensures b !in Refolded(def, facts, dims, v) ==>
              RowsAt(Refreshed(def, facts, dims, v).table, b) <= RowsAt(v.table, b)
  {
    var c := AsOfCeiling(dims.Live(), def.divide);
    var dirty := DirtyBuckets(def, facts, dims, v);
    RowsAtReplaced(def, facts, dims, v.table, dirty, dirty, b);
    var folds := AsOfFold(def, facts, dims, v, c);
    RowsAtReplaced(def, facts, dims, v.table, folds + Band(def, v, c), folds, b);
    assert b in Everything();
  }

  /** So is every torn one: any of the removals and any of the insertions undone. */
  lemma TornRefreshIsSpoiled(def: Definition, facts: GoodLog, dims: GoodLog, v: View, table: set<ViewRow>)
    requires Inv(def, facts, dims, v)
    requires var after := Refreshed(def, facts, dims, v).table;
             v.table * after <= table <= v.table + after
    ensures Spoiled(def, facts, dims, v, table)
  {
    RefreshCompletes(def, facts, dims, v);
    var after := Refreshed(def, facts, dims, v).table;
    forall b: i64
      ensures b !in Victims(def, facts, dims, v) ==> RowsAt(table, b) == RowsAt(v.table, b)
      ensures b !in Refolded(def, facts, dims, v) ==> RowsAt(table, b) <= RowsAt(v.table, b)
    {
      RewrittenBucket(def, facts, dims, v, b);
      assert forall r :: r in RowsAt(table, b) ==> r in RowsAt(v.table, b) || r in RowsAt(after, b);
      assert forall r :: r in RowsAt(v.table, b) && r in RowsAt(after, b) ==> r in RowsAt(table, b);
    }
  }

  /** A bucket the record covers and no change names. */
  ghost predicate CleanBucket(def: Definition, facts: GoodLog, dims: GoodLog, v: View, b: i64) {
    && Attainable(b, def.divide)
    && !DirtyBucket(def, facts, dims, v, b)
    && !OpenBucket(def, v.ceiling, b)
  }

  /** A stored row of record `v` that a ceiling dropping to `lowered` removes,
      though its bucket is clean under `v`. */
  ghost predicate Stranded(def: Definition, lowered: i64, facts: GoodLog, dims: GoodLog, v: View, r: ViewRow) {
    && r in v.table
    && OpenBucket(def, lowered, r.bucket)
    && CleanBucket(def, facts, dims, v, r.bucket)
  }

  ghost predicate NothingStranded(def: Definition, lowered: i64, facts: GoodLog, dims: GoodLog, v: View) {
    forall r :: !Stranded(def, lowered, facts, dims, v, r)
  }

  /** The refresh strands nothing: only an as-of ceiling that drops can. */
  ghost predicate StrandsNothing(def: Definition, facts: GoodLog, dims: GoodLog, v: View) {
    def.kind.AsOfJoin? ==> NothingStranded(def, AsOfCeiling(dims.Live(), def.divide), facts, dims, v)
  }

  /** Outside what the record serves live, such a refresh never rewrites anything. */
  lemma CleanIsKept(def: Definition, facts: GoodLog, dims: GoodLog, v: View, table: set<ViewRow>, b: i64)
    requires Inv(def, facts, dims, v) && StrandsNothing(def, facts, dims, v)
    requires Spoiled(def, facts, dims, v, table) && CleanBucket(def, facts, dims, v, b)
    ensures RowsAt(table, b) == RowsAt(v.table, b)
  {
    if b in Victims(def, facts, dims, v) {
      if def.kind.AsOfJoin? {
        VictimIsAbove(def, facts, dims, v, b);
        if r :| r in RowsAt(v.table, b) {
          assert Stranded(def, AsOfCeiling(dims.Live(), def.divide), facts, dims, v, r);
        }
      } else {
        VictimIsDirtyOrOpen(def, facts, dims, v, b);
      }
    }
  }

  /** A clean bucket an as-of refresh rewrites is at the ceiling it sets, and only
      loses rows. */
  lemma VictimIsAbove(def: Definition, facts: GoodLog, dims: GoodLog, v: View, b: i64)
    requires def.kind.AsOfJoin? && Inv(def, facts, dims, v)
    requires b in Victims(def, facts, dims, v) && CleanBucket(def, facts, dims, v, b)
    ensures b !in Refolded(def, facts, dims, v)
    ensures OpenBucket(def, AsOfCeiling(dims.Live(), def.divide), b)
  {
    var c := AsOfCeiling(dims.Live(), def.divide);
    var w: i64 :| BucketOf(w, def.divide) == b;
    assert !FoldBucket(def, facts, dims, v, c, b);
    assert dims.Live() == {} ==> c == MIN <= w;
    if dims.Live() != {} { assert InBand(def, v, c, b); }
  }

  lemma VictimIsDirtyOrOpen(def: Definition, facts: GoodLog, dims: GoodLog, v: View, b: i64)
    requires !def.kind.AsOfJoin? && Inv(def, facts, dims, v)
    requires Attainable(b, def.divide) && b in Victims(def, facts, dims, v)
    ensures DirtyBucket(def, facts, dims, v, b) || OpenBucket(def, v.ceiling, b)
  {
    var w: i64 :| BucketOf(w, def.divide) == b;
    if def.kind.EquiJoin? && dims.Touched(v.dimStamp) != {} { assert DirtyKey(def.kind, facts, dims, v, w); }
  }

  lemma KeptAll(l: GoodLog)
    requires l.durable == l.next
    ensures Kept(l).rows == l.rows && Kept(l).kills == l.kills
  {
  }

  lemma SameDirty(def: Definition, f: Log, d: Log, f': Log, d': Log, v: View, b: i64)
    requires f.rows == f'.rows && f.kills == f'.kills && d.rows == d'.rows && d.kills == d'.kills
    ensures DirtyBucket(def, f, d, v, b) <==> DirtyBucket(def, f', d', v, b)
  {
    assert f.Touched(v.factStamp) == f'.Touched(v.factStamp);
    assert d.Touched(v.dimStamp) == d'.Touched(v.dimStamp);
    assert d.Live() == d'.Live();
    forall k: i64
      ensures DirtyKey(def.kind, f, d, v, k) <==> DirtyKey(def.kind, f', d', v, k)
    {
    }
  }

  lemma SameRecordSameDirt(def: Definition, facts: GoodLog, dims: GoodLog, a: View, b: View, i: i64)
    requires a.factStamp == b.factStamp && a.dimStamp == b.dimStamp
    ensures DirtyBucket(def, facts, dims, a, i) <==> DirtyBucket(def, facts, dims, b, i)
  {
    forall k: i64
      ensures DirtyKey(def.kind, facts, dims, a, k) <==> DirtyKey(def.kind, facts, dims, b, k)
    {
    }
  }

  /** Over flushed sources a claimed bucket is a clean one. */
  lemma ClaimedIsClean(def: Definition, facts: GoodLog, dims: GoodLog, v: View, table: set<ViewRow>, b: i64)
    requires facts.durable == facts.next && dims.durable == dims.next
    ensures Claimed(def, facts, dims, v.(table := table), b) <==> Claimed(def, facts, dims, v, b)
    ensures Claimed(def, facts, dims, v, b) <==> CleanBucket(def, facts, dims, v, b)
  {
    KeptAll(facts);
    KeptAll(dims);
    SameRecordSameDirt(def, Kept(facts), Kept(dims), v.(table := table), v, b);
    SameDirty(def, Kept(facts), Kept(dims), facts, dims, v, b);
  }

  /** Crash recovery.  Whatever an interrupted refresh that strands nothing left in
      its victim buckets, the invariant holds under the old record: reads stay
      exact and the next refresh heals. */
  lemma SpoiledKeepsInv(def: Definition, facts: GoodLog, dims: GoodLog, v: View, table: set<ViewRow>)
    requires Inv(def, facts, dims, v) && StrandsNothing(def, facts, dims, v)
    requires facts.durable == facts.next && dims.durable == dims.next
    requires Spoiled(def, facts, dims, v, table)
    ensures Inv(def, facts, dims, v.(table := table))
  {
    forall b: i64 | Claimed(def, facts, dims, v.(table := table), b)
      ensures RowsAt(table, b) == RowsAt(def.Current(Past(facts, v.factStamp), Past(dims, v.dimStamp)), b)
    {
      ClaimedIsClean(def, facts, dims, v, table, b);
      CleanIsKept(def, facts, dims, v, table, b);
    }
  }

  // --------------------------------------------------------- an older record

  /** In no bucket record `u` claims and `v`'s ceiling leaves open is a row stored,
      or owed at `u`'s stamps. */
  ghost predicate NothingBetween(def: Definition, facts: GoodLog, dims: GoodLog, u: View, v: View) {
    forall r :: r in v.table + def.Current(Past(facts, u.factStamp), Past(dims, u.dimStamp)) ==>
      Claimed(def, facts, dims, u, r.bucket) ==> !OpenBucket(def, v.ceiling, r.bucket)
  }

  /** A record whose ceiling is no higher leaves nothing in between. */
  lemma LowerCeilingLeavesNothing(def: Definition, facts: GoodLog, dims: GoodLog, u: View, v: View)
    requires !def.kind.NoJoin? ==> u.ceiling <= v.ceiling
    ensures NothingBetween(def, facts, dims, u, v)
  {
  }

  lemma OlderIsDirtier(def: Definition, facts: GoodLog, dims: GoodLog, u: View, v: View, b: i64)
    requires u.factStamp <= v.factStamp && u.dimStamp <= v.dimStamp
    requires DirtyBucket(def, facts, dims, v, b)
    ensures DirtyBucket(def, facts, dims, u, b)
  {
    var k: i64 :| BucketOf(k, def.divide) == b && DirtyKey(def.kind, facts, dims, v, k);
    assert facts.Touched(v.factStamp) <= facts.Touched(u.factStamp);
    assert dims.Touched(v.dimStamp) <= dims.Touched(u.dimStamp);
    assert DirtyKey(def.kind, facts, dims, u, k);
  }

  /** What no change since stamps `u` names had one answer at stamps `u` and `v`. */
  lemma FrozenBetween(def: Definition, facts: GoodLog, dims: GoodLog, u: View, v: View, b: i64)
    requires u.factStamp <= v.factStamp <= facts.durable && u.dimStamp <= v.dimStamp <= dims.durable
    requires Attainable(b, def.divide) && !DirtyBucket(def, Kept(facts), Kept(dims), u, b)
    ensures RowsAt(def.Current(Past(facts, v.factStamp), Past(dims, v.dimStamp)), b)
         == RowsAt(def.Current(Past(facts, u.factStamp), Past(dims, u.dimStamp)), b)
  {
    var f, d := Past(facts, v.factStamp), Past(dims, v.dimStamp);
    PastExtends(facts, v.factStamp, u.factStamp);
    PastExtends(dims, v.dimStamp, u.dimStamp);
    if DirtyBucket(def, f, d, u, b) {
      var k: i64 :| BucketOf(k, def.divide) == b && DirtyKey(def.kind, f, d, u, k);
      DirtyKeyMonotone(def.kind, f, d, Kept(facts), Kept(dims), u, k);
    }
    UntouchedIsFrozen(def, f, d, u, b);
  }

  lemma PastExtends(l: GoodLog, stamp: nat, older: nat)
    requires older <= stamp <= l.durable
    ensures Extends(Past(l, stamp), Kept(l))
    ensures Past(Past(l, stamp), older).Live() == Past(l, older).Live()
  {
    AtExtends(l, stamp);
    PastIsFixed(Past(l, stamp), l, older);
    assert Extends(Past(l, stamp), Kept(l)) by {
      assert Past(Kept(l), stamp).rows == Past(l, stamp).rows;
      assert Past(Kept(l), stamp).kills == Past(l, stamp).kills;
    }
  }

  /** An older record over the table of a newer one is right, whatever happened in
      between: what it claims has not changed since its stamps. */
  lemma OlderRecordHolds(def: Definition, facts: GoodLog, dims: GoodLog, u: View, v: View)
    requires Inv(def, facts, dims, v) && u.table == v.table
    requires u.factStamp <= v.factStamp && u.dimStamp <= v.dimStamp
    requires NothingBetween(def, facts, dims, u, v)
    requires def.kind.EquiJoin? ==> u.ceiling == MIN || u.ceiling == MAX
    ensures Inv(def, facts, dims, u)
  {
    forall b: i64 | Claimed(def, facts, dims, u, b)
      ensures RowsAt(u.table, b) == RowsAt(def.Current(Past(facts, u.factStamp), Past(dims, u.dimStamp)), b)
    {
      if OpenBucket(def, v.ceiling, b) {
        assert forall r :: r in RowsAt(u.table, b) ==> r in v.table;
        assert RowsAt(u.table, b) == {};
        assert RowsAt(def.Current(Past(facts, u.factStamp), Past(dims, u.dimStamp)), b) == {};
      } else {
        if DirtyBucket(def, Kept(facts), Kept(dims), v, b) {
          OlderIsDirtier(def, Kept(facts), Kept(dims), u, v, b);
        }
        assert Claimed(def, facts, dims, v, b);
        FrozenBetween(def, facts, dims, u, v, b);
      }
    }
  }

  // ----------------------------------------------- an old record over a new table

  /** The union read of stored rows `table` with live runs `runs` is the definition. */
  ghost predicate ReadsExactly(def: Definition, facts: GoodLog, dims: GoodLog, table: set<ViewRow>, runs: seq<Range>) {
    def.Clean(table, runs) + def.Restricted(facts, dims, runs) == def.Current(facts, dims)
  }

  lemma CleanAt(def: Definition, table: set<ViewRow>, runs: seq<Range>, b: i64)
    requires def.Valid() && AttainableEnds(runs, def.divide)
    requires forall r :: r in table ==> Attainable(r.bucket, def.divide)
    ensures RowsAt(def.Clean(table, runs), b) == if Covers(runs, b) then {} else RowsAt(table, b)
  {
    if Attainable(b, def.divide) {
      ViewHitIsBucketHit(runs, b, def.divide, def.scale);
    } else {
      assert RowsAt(table, b) == {};
    }
  }

  lemma RowsAtUnion(x: set<ViewRow>, y: set<ViewRow>, b: i64)
    ensures RowsAt(x + y, b) == RowsAt(x, b) + RowsAt(y, b)
  {
  }

  lemma ReadByBucket(def: Definition, facts: GoodLog, dims: GoodLog, table: set<ViewRow>, runs: seq<Range>, b: i64)
    requires def.Valid() && AttainableEnds(runs, def.divide)
    requires forall r :: r in table ==> Attainable(r.bucket, def.divide)
    ensures RowsAt(def.Clean(table, runs) + def.Restricted(facts, dims, runs), b)
         == if Covers(runs, b) || !Attainable(b, def.divide)
            then RowsAt(def.Current(facts, dims), b) else RowsAt(table, b)
  {
    RestrictedIsCurrent(def, facts, dims, runs, b);
    CleanAt(def, table, runs, b);
    RowsAtUnion(def.Clean(table, runs), def.Restricted(facts, dims, runs), b);
    if !Attainable(b, def.divide) {
      NoRowsOffAxis(def, JoinRows(def.kind, def.left, facts.Live(), dims.Live()), b);
      assert RowsAt(table, b) == {} && RowsAt(def.Current(facts, dims), b) == {};
    }
  }

  // ------------------------------------------------- the one unprotected window

  /** `table` is record `v`'s own, cut off at ceiling `c`: of the buckets `v` finds
      clean, those at or above `c` are empty and the others as they were. */
  ghost predicate Cut(def: Definition, c: i64, facts: GoodLog, dims: GoodLog, v: View, table: set<ViewRow>) {
    && (forall r :: r in table ==> Attainable(r.bucket, def.divide))
    && forall b: i64 :: CleanBucket(def, facts, dims, v, b) ==>
         RowsAt(table, b) == if OpenBucket(def, c, b) then {} else RowsAt(v.table, b)
  }

  /** No stranded row is in bucket `b`. */
  ghost predicate NoneStranded(def: Definition, c: i64, facts: GoodLog, dims: GoodLog, v: View, b: i64) {
    forall r :: Stranded(def, c, facts, dims, v, r) ==> r.bucket != b
  }

  lemma StrandedAt(def: Definition, c: i64, facts: GoodLog, dims: GoodLog, v: View, table: set<ViewRow>, b: i64)
    requires Inv(def, facts, dims, v) && Cut(def, c, facts, dims, v, table) && CleanBucket(def, facts, dims, v, b)
    ensures RowsAt(table, b) == RowsAt(def.Current(facts, dims), b) <==> NoneStranded(def, c, facts, dims, v, b)
  {
    CleanBucketIsCurrent(def, facts, dims, v, b);
    if OpenBucket(def, c, b) {
      if r :| r in RowsAt(v.table, b) {
        assert Stranded(def, c, facts, dims, v, r);
      } else {
        assert RowsAt(v.table, b) == {};
        assert forall r :: r in v.table && r.bucket == b ==> r in RowsAt(v.table, b);
      }
    }
  }

  /** Record `v` over a table cut off at `c` reads exactly precisely when no stored
      row it still finds clean lay at or above `c`. */
  lemma CutReads(def: Definition, c: i64, facts: GoodLog, dims: GoodLog, v: View, table: set<ViewRow>,
                 runs: seq<Range>)
    requires def.Valid() && Inv(def, facts, dims, v) && Cut(def, c, facts, dims, v, table)
    requires LiveRuns(def, facts, dims, v, runs)
    ensures ReadsExactly(def, facts, dims, table, runs) <==> NothingStranded(def, c, facts, dims, v)
  {
    var read := def.Clean(table, runs) + def.Restricted(facts, dims, runs);
    forall b: i64
      ensures RowsAt(read, b) == RowsAt(def.Current(facts, dims), b) <==> NoneStranded(def, c, facts, dims, v, b)
    {
      ReadByBucket(def, facts, dims, table, runs, b);
      if CleanBucket(def, facts, dims, v, b) { StrandedAt(def, c, facts, dims, v, table, b); }
    }
    if NothingStranded(def, c, facts, dims, v) {
      forall b: i64 ensures NoneStranded(def, c, facts, dims, v, b) {}
      SameByBucket(read, def.Current(facts, dims));
    } else {
      var r :| Stranded(def, c, facts, dims, v, r);
      assert !NoneStranded(def, c, facts, dims, v, r.bucket);
    }
  }

  /** When the next refresh heals such a state: precisely when every stranded row
      lies at or above the ceiling it sets.  A stranded row below it is in no range
      that refresh folds, and fresh stamps then hide its loss until a change names
      its key or the ceiling drops below it. */
  lemma CutHeals(def: Definition, c: i64, facts: GoodLog, dims: GoodLog, v: View, table: set<ViewRow>)
    requires def.kind.AsOfJoin? && Inv(def, facts, dims, v) && Cut(def, c, facts, dims, v, table)
    ensures Complete(def, facts, dims, Refreshed(def, facts, dims, v.(table := table)))
       <==> forall r :: Stranded(def, c, facts, dims, v, r) ==>
              OpenBucket(def, AsOfCeiling(dims.Live(), def.divide), r.bucket)
  {
    var c' := AsOfCeiling(dims.Live(), def.divide);
    var after := Refreshed(def, facts, dims, v.(table := table));
    HealedOnAxis(def, facts, dims, v.(table := table));
    forall b: i64 | Attainable(b, def.divide) && !OpenBucket(def, c', b)
      ensures RowsAt(after.table, b) == RowsAt(def.Current(facts, dims), b)
         <==> NoneStranded(def, c, facts, dims, v, b)
    {
      HealedBucket(def, c, facts, dims, v, table, b);
    }
    if r :| Stranded(def, c, facts, dims, v, r) && !OpenBucket(def, c', r.bucket) {
      assert !NoneStranded(def, c, facts, dims, v, r.bucket);
    }
  }

  lemma HealedOnAxis(def: Definition, facts: GoodLog, dims: GoodLog, v: View)
    requires def.kind.AsOfJoin? && forall r :: r in v.table ==> Attainable(r.bucket, def.divide)
    ensures forall r :: r in Refreshed(def, facts, dims, v).table ==> Attainable(r.bucket, def.divide)
  {
    var c := AsOfCeiling(dims.Live(), def.divide);
    var folds := AsOfFold(def, facts, dims, v, c);
    ReplacedOnAxis(def, facts, dims, v.table, folds + Band(def, v, c), folds);
    CurrentOnAxis(def, facts, dims);
  }

  /** A bucket below the new ceiling is re-folded, or clean and left as found. */
  lemma HealedBucket(def: Definition, c: i64, facts: GoodLog, dims: GoodLog, v: View, table: set<ViewRow>, b: i64)
    requires def.kind.AsOfJoin? && Inv(def, facts, dims, v) && Cut(def, c, facts, dims, v, table)
    requires Attainable(b, def.divide) && !OpenBucket(def, AsOfCeiling(dims.Live(), def.divide), b)
    ensures RowsAt(Refreshed(def, facts, dims, v.(table := table)).table, b)
         == RowsAt(def.Current(facts, dims), b)
       <==> NoneStranded(def, c, facts, dims, v, b)
  {
    var u := v.(table := table);
    var c' := AsOfCeiling(dims.Live(), def.divide);
    var folds := AsOfFold(def, facts, dims, u, c');
    var w: i64 :| BucketOf(w, def.divide) == b;
    assert w < c';
    assert b !in Band(def, u, c');
    RowsAtReplaced(def, facts, dims, u.table, folds + Band(def, u, c'), folds, b);
    SameRecordSameDirt(def, facts, dims, u, v, b);
    if b in folds {
      FoldedIsNotClean(def, facts, dims, u, b);
    } else {
      UnfoldedIsClean(def, facts, dims, u, b);
      StrandedAt(def, c, facts, dims, v, table, b);
    }
  }

  lemma FoldedIsNotClean(def: Definition, facts: GoodLog, dims: GoodLog, v: View, b: i64)
    requires FoldBucket(def, facts, dims, v, AsOfCeiling(dims.Live(), def.divide), b)
    requires def.kind.AsOfJoin?
    ensures DirtyBucket(def, facts, dims, v, b) || OpenBucket(def, v.ceiling, b)
  {
  }

  lemma UnfoldedIsClean(def: Definition, facts: GoodLog, dims: GoodLog, v: View, b: i64)
    requires def.kind.AsOfJoin? && Attainable(b, def.divide)
    requires !OpenBucket(def, AsOfCeiling(dims.Live(), def.divide), b)
    requires !FoldBucket(def, facts, dims, v, AsOfCeiling(dims.Live(), def.divide), b)
    ensures CleanBucket(def, facts, dims, v, b)
  {
    var c := AsOfCeiling(dims.Live(), def.divide);
    forall k: i64 | BucketOf(k, def.divide) == b
      ensures !DirtyKey(def.kind, facts, dims, v, k) && k < v.ceiling
    {
      assert k < c;
      assert !FoldKey(def, facts, dims, v, c, k);
    }
  }

  // --------------------------------------------------- refreshes keep a table cut

  /** As-of ceilings are low edges: no bucket straddles one. */
  lemma CeilingSplitsNothing(def: Definition, dims: GoodLog, b: i64, k: i64)
    requires def.kind.AsOfJoin? && BucketOf(k, def.divide) == b
    requires OpenBucket(def, AsOfCeiling(dims.Live(), def.divide), b)
    ensures AsOfCeiling(dims.Live(), def.divide) <= k
  {
    var c := AsOfCeiling(dims.Live(), def.divide);
    var k0: i64 :| BucketOf(k0, def.divide) == b && c <= k0;
    if Frontier(dims.Live()).Some? {
      var edge := BucketOf(Frontier(dims.Live()).value, def.divide);
      Attains(Frontier(dims.Live()).value, def.divide);
      LowEdge(k0, edge, def.divide);
      LowEdge(k, edge, def.divide);
    }
  }

  /** A refresh over a table cut off at the ceiling of its record moves the cut to
      its own ceiling, whether that drops or rises: `v` is an older record, `w` the
      one the refresh starts from. */
  lemma RefreshMovesCut(def: Definition, facts: GoodLog, dims: GoodLog, v: View, w: View, b: i64)
    requires def.kind.AsOfJoin? && Inv(def, facts, dims, v) && Inv(def, facts, dims, w)
    requires v.factStamp <= w.factStamp && v.dimStamp <= w.dimStamp && CleanBucket(def, facts, dims, v, b)
    requires RowsAt(w.table, b) == if OpenBucket(def, w.ceiling, b) then {} else RowsAt(v.table, b)
    ensures RowsAt(Refreshed(def, facts, dims, w).table, b)
         == if OpenBucket(def, AsOfCeiling(dims.Live(), def.divide), b) then {} else RowsAt(v.table, b)
  {
    if OpenBucket(def, AsOfCeiling(dims.Live(), def.divide), b) {
      OpenIsCleared(def, facts, dims, v, w, b);
    } else {
      RefreshCompletes(def, facts, dims, w);
      CleanBucketIsCurrent(def, facts, dims, v, b);
    }
  }

  lemma OpenIsCleared(def: Definition, facts: GoodLog, dims: GoodLog, v: View, w: View, b: i64)
    requires def.kind.AsOfJoin? && Inv(def, facts, dims, w)
    requires v.factStamp <= w.factStamp && v.dimStamp <= w.dimStamp && CleanBucket(def, facts, dims, v, b)
    requires OpenBucket(def, w.ceiling, b) ==> RowsAt(w.table, b) == {}
    requires OpenBucket(def, AsOfCeiling(dims.Live(), def.divide), b)
    ensures RowsAt(Refreshed(def, facts, dims, w).table, b) == {}
  {
    var c := AsOfCeiling(dims.Live(), def.divide);
    var folds := AsOfFold(def, facts, dims, w, c);
    var k: i64 :| BucketOf(k, def.divide) == b && c <= k;
    forall x: i64 | BucketOf(x, def.divide) == b ensures !FoldKey(def, facts, dims, w, c, x) {
      CeilingSplitsNothing(def, dims, b, x);
    }
    if !OpenBucket(def, w.ceiling, b) { assert InBand(def, w, c, b); }
    RowsAtReplaced(def, facts, dims, w.table, folds + Band(def, w, c), folds, b);
  }

  // -------------------------------------------------- fresh stamps, honest reads

  lemma FreshRead(def: Definition, facts: GoodLog, dims: GoodLog, v: View, runs: seq<Range>, b: i64)
    requires def.Valid() && def.kind.AsOfJoin? && v.factStamp == facts.next && v.dimStamp == dims.next
    requires forall r :: r in v.table ==> Attainable(r.bucket, def.divide)
    requires LiveRuns(def, facts, dims, v, runs)
    ensures RowsAt(def.Clean(v.table, runs) + def.Restricted(facts, dims, runs), b)
         == if Attainable(b, def.divide) && !OpenBucket(def, v.ceiling, b)
            then RowsAt(v.table, b) else RowsAt(def.Current(facts, dims), b)
  {
    assert facts.Touched(facts.next) == {} && dims.Touched(dims.next) == {};
    assert !DirtyBucket(def, facts, dims, v, b);
    ReadByBucket(def, facts, dims, v.table, runs, b);
  }

  /** With fresh stamps nothing is dirty, so what is incomplete is also misread. */
  lemma FreshReadsIffComplete(def: Definition, facts: GoodLog, dims: GoodLog, v: View, runs: seq<Range>)
    requires def.Valid() && def.kind.AsOfJoin? && v.factStamp == facts.next && v.dimStamp == dims.next
    requires forall r :: r in v.table ==> Attainable(r.bucket, def.divide)
    requires LiveRuns(def, facts, dims, v, runs)
    ensures ReadsExactly(def, facts, dims, v.table, runs) <==> Complete(def, facts, dims, v)
  {
    var read := def.Clean(v.table, runs) + def.Restricted(facts, dims, runs);
    if Complete(def, facts, dims, v) {
      forall b: i64 ensures RowsAt(read, b) == RowsAt(def.Current(facts, dims), b) {
        FreshRead(def, facts, dims, v, runs, b);
      }
      SameByBucket(read, def.Current(facts, dims));
    } else {
      var b: i64 :| Attainable(b, def.divide) && !OpenBucket(def, v.ceiling, b)
                 && RowsAt(v.table, b) != RowsAt(def.Current(facts, dims), b);
      FreshRead(def, facts, dims, v, runs, b);
    }
  }
}
