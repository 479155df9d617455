/** The maintained view as the object the engine keeps (src/view.rs): its
    refreshes and union reads, written as the loops and early exits they are,
    each proved equal to the value-level specification. */
module Views {
  import opened Keys
  import opened Ranges
  import opened Log
  import opened Joins
  import opened Engine
  import opened Refresh
  import opened Runs
  import opened Tables

  /** The number of buckets re-folded: each dirty bucket once. */
  ghost predicate CountsDirty(def: Definition, facts: Log, v: View, n: int) {
    exists bs: set<i64> :: (forall b :: b in bs <==> DirtyBucket(def, facts, EMPTY, v, b)) && |bs| == n
  }

  const U64_MAX: nat := 0xFFFF_FFFF_FFFF_FFFF

  ghost function SpanCover(lo: i64, hi: i64, runs: seq<Range>): set<i64> {
    set b: i64 | lo <= b <= hi && Covers(runs, b)
  }

  ghost predicate Named(bs: iset<i64>, b: i64) { b in bs }

  /** How many of the buckets `bs` lie within the facts' own span. */
  ghost function SpanCount(facts: set<Row>, d: Width, bs: iset<i64>): nat {
    if facts == {} then 0 else
      var lo, hi := BucketOf(LeastKey(facts), d), BucketOf(Frontier(facts).value, d);
      var n := |set b: i64 | lo <= b <= hi && Named(bs, b)|;
      if n <= U64_MAX then n else U64_MAX
  }

  /** The count is of the buckets with a fact at or below and one at or above, and
      saturates at 64 bits. */
  lemma SpanCounts(facts: set<Row>, d: Width, bs: iset<i64>, counted: set<i64>)
    requires forall b: i64 :: b in counted <==>
               && b in bs
               && (exists r :: r in facts && BucketOf(r.okey, d) <= b)
               && (exists r :: r in facts && b <= BucketOf(r.okey, d))
    ensures SpanCount(facts, d, bs) == if |counted| < 18446744073709551616 then |counted| else 18446744073709551615
  {
    if facts == {} {
      assert counted == {};
    } else {
      var low, high := LeastKey(facts), Frontier(facts).value;
      forall b: i64
        ensures b in counted <==> BucketOf(low, d) <= b <= BucketOf(high, d) && Named(bs, b)
      {
        forall r | r in facts ensures BucketOf(low, d) <= BucketOf(r.okey, d) <= BucketOf(high, d) {
          BucketOfMonotone(low, r.okey, d);
          BucketOfMonotone(r.okey, high, d);
        }
      }
      assert counted == set b: i64 | BucketOf(low, d) <= b <= BucketOf(high, d) && Named(bs, b);
    }
  }

  /** What a refresh reports. `Rebuilt` is `u64::MAX`; `KeyNotUnique` is the
      star join's loud error, which changes nothing. */
  datatype Outcome = Folded(buckets: nat) | Rebuilt | KeyNotUnique

  datatype Reply = Rows(rows: set<ViewRow>) | NotUnique

  // --------------------------------------------------- coverage, step by step

  ghost predicate PointCover(ranges: seq<Range>, done: set<Row>) {
    forall k: i64 :: Covers(ranges, k) <==> exists r :: r in done && r.okey == k
  }

  lemma PointStep(ranges: seq<Range>, done: set<Row>, r: Row)
    requires PointCover(ranges, done)
    ensures PointCover(ranges + [Range(r.okey, r.okey)], done + {r})
  {
    AppendStep(ranges, Range(r.okey, r.okey));
    forall k: i64
      ensures Covers(ranges + [Range(r.okey, r.okey)], k) <==> exists x :: x in done + {r} && x.okey == k
    {
      if Covers(ranges, k) { var x :| x in done && x.okey == k; assert x in done + {r}; }
      if k == r.okey { assert r in done + {r}; }
    }
  }

  /** The fact keys plus the intervals of the reference rows walked so far. */
  ghost predicate IntervalCover(ranges: seq<Range>, mode: AsOfMode, facts: set<Row>, dims: set<Row>, done: set<Row>) {
    forall k: i64 :: Covers(ranges, k) <==>
      (exists r :: r in facts && r.okey == k) || (exists t :: t in done && InInterval(mode, dims, t, k))
  }

  lemma IntervalStep(ranges: seq<Range>, mode: AsOfMode, facts: set<Row>, dims: set<Row>, done: set<Row>, t: Row,
                     next: seq<Range>)
    requires IntervalCover(ranges, mode, facts, dims, done)
    requires next == if t.sym.Some? && t.okey <= IntervalHigh(mode, dims, t)
                     then ranges + [Range(t.okey, IntervalHigh(mode, dims, t))] else ranges
    ensures IntervalCover(next, mode, facts, dims, done + {t})
  {
    if t.sym.Some? { AppendStep(ranges, Range(t.okey, IntervalHigh(mode, dims, t))); }
    forall k: i64
      ensures Covers(next, k) <==>
        (exists r :: r in facts && r.okey == k) || (exists x :: x in done + {t} && InInterval(mode, dims, x, k))
    {
      assert Covers(next, k) <==> Covers(ranges, k) || InInterval(mode, dims, t, k);
      if x :| x in done + {t} && InInterval(mode, dims, x, k) { assert x == t || x in done; }
      if x :| x in done && InInterval(mode, dims, x, k) { assert x in done + {t}; }
      if InInterval(mode, dims, t, k) { assert t in done + {t}; }
    }
  }

  // ------------------------------------------------ runs name the right buckets

  ghost predicate RunsName(def: Definition, runs: seq<Range>, bs: iset<i64>) {
    && AttainableEnds(runs, def.divide)
    && forall b: i64 :: Attainable(b, def.divide) ==> (Covers(runs, b) <==> b in bs)
  }

  lemma RunsReplaceAt(def: Definition, facts: GoodLog, dims: GoodLog, table: set<ViewRow>,
                      victimRuns: seq<Range>, foldRuns: seq<Range>, victims: iset<i64>, folds: iset<i64>, b: i64)
    requires def.Valid() && RunsName(def, victimRuns, victims) && RunsName(def, foldRuns, folds)
    requires forall r :: r in table ==> Attainable(r.bucket, def.divide)
    ensures RowsAt(def.Clean(table, victimRuns) + def.Restricted(facts, dims, foldRuns), b)
         == RowsAt(Replaced(def, facts, dims, table, victims, folds), b)
  {
    CleanAt(def, table, victimRuns, b);
    RestrictedIsCurrent(def, facts, dims, foldRuns, b);
    RowsAtReplaced(def, facts, dims, table, victims, folds, b);
    RowsAtUnion(def.Clean(table, victimRuns), def.Restricted(facts, dims, foldRuns), b);
    if !Attainable(b, def.divide) {
      NoRowsOffAxis(def, JoinRows(def.kind, def.left, facts.Live(), dims.Live()), b);
      assert RowsAt(table, b) == {};
    }
  }

  /** Superseding the victim runs with the restricted fold is replacing buckets. */
  lemma RunsReplace(def: Definition, facts: GoodLog, dims: GoodLog, table: set<ViewRow>,
                    victimRuns: seq<Range>, foldRuns: seq<Range>, victims: iset<i64>, folds: iset<i64>)
    requires def.Valid() && RunsName(def, victimRuns, victims) && RunsName(def, foldRuns, folds)
    requires forall r :: r in table ==> Attainable(r.bucket, def.divide)
    ensures def.Clean(table, victimRuns) + def.Restricted(facts, dims, foldRuns)
         == Replaced(def, facts, dims, table, victims, folds)
  {
    var made, want := def.Clean(table, victimRuns) + def.Restricted(facts, dims, foldRuns),
                      Replaced(def, facts, dims, table, victims, folds);
    forall b: i64 ensures RowsAt(made, b) == RowsAt(want, b) {
      RunsReplaceAt(def, facts, dims, table, victimRuns, foldRuns, victims, folds, b);
    }
    SameByBucket(made, want);
  }

  /** Folding every bucket is the whole answer. */
  lemma RunsFold(def: Definition, facts: GoodLog, dims: GoodLog, runs: seq<Range>, folds: iset<i64>)
    requires def.Valid() && RunsName(def, runs, folds)
    ensures def.Restricted(facts, dims, runs) == RowsIn(def.Current(facts, dims), folds)
  {
    RunsReplace(def, facts, dims, {}, runs, runs, folds, folds);
  }

  lemma FlushedRefreshKeepsInv(def: Definition, facts: GoodLog, dims: GoodLog, v: View)
    ensures Inv(def, facts, dims, v) ==> Inv(def, Flushed(facts), Flushed(dims), v)
    ensures Inv(def, facts, dims, v) ==>
              Inv(def, Flushed(facts), Flushed(dims), Refreshed(def, Flushed(facts), Flushed(dims), v))
  {
    if Inv(def, facts, dims, v) {
      MutateKeeps(facts, Flush);
      MutateKeeps(dims, Flush);
      InvMoves(def, facts, dims, Flushed(facts), Flushed(dims), v);
      RefreshCompletes(def, Flushed(facts), Flushed(dims), v);
    }
  }

  class MaterializedView {
    const def: Definition
    var stamp: nat
    var dimStamp: nat
    var ceiling: i64
    var table: set<ViewRow>

    function AsView(): View
      reads this
    {
      View(stamp, dimStamp, ceiling, table)
    }

    ghost predicate Valid()
      reads this
    {
      def.Valid() && forall r :: r in table ==> Attainable(r.bucket, def.divide)
    }

    constructor (definition: Definition)
      requires definition.Valid()
      ensures Valid() && def == definition && AsView() == FRESH
    {
      def := definition;
      stamp, dimStamp, ceiling, table := 0, 0, MIN, {};
    }

    // ------------------------------------------------------------- derivations

    /** The touched buckets since the stamp as maximal runs; empty when no row
        changed. */
    method TouchedRuns(facts: GoodLog) returns (runs: seq<Range>)
      requires def.kind.NoJoin?
      ensures Normal(runs) && AttainableEnds(runs, def.divide)
      ensures forall b: i64 :: Covers(runs, b) <==> DirtyBucket(def, facts, EMPTY, AsView(), b)
      ensures |runs| == 0 <==> facts.Touched(stamp) == {}
      ensures CountsDirty(def, facts, AsView(), TotalLength(runs))
    {
      var sorted: seq<i64> := [];
      var touched := facts.Touched(stamp);
      var todo := touched;
      while todo != {}
        invariant todo <= touched
        invariant Increasing(sorted)
        invariant BucketsOf(sorted, touched - todo, def.divide)
        decreases todo
      {
        var r :| r in todo;
        BucketStep(touched, todo, r, sorted, def.divide);
        sorted := InsertBucket(BucketOf(r.okey, def.divide), sorted);
        todo := todo - {r};
      }
      assert touched - todo == touched;
      runs := ContiguousRuns(sorted);
      TouchedIsDirty(facts, sorted, runs);
      if r :| r in touched {
        assert BucketOf(r.okey, def.divide) in sorted;
      }
    }

    lemma TouchedIsDirty(facts: GoodLog, sorted: seq<i64>, runs: seq<Range>)
      requires def.kind.NoJoin? && Normal(runs) && CoversExactly(runs, sorted)
      requires Increasing(sorted) && BucketsOf(sorted, facts.Touched(stamp), def.divide)
      ensures AttainableEnds(runs, def.divide)
      ensures forall b: i64 :: Covers(runs, b) <==> DirtyBucket(def, facts, EMPTY, AsView(), b)
      ensures CountsDirty(def, facts, AsView(), |sorted|)
    {
      forall i | 0 <= i < |runs|
        ensures Attainable(runs[i].lo, def.divide) && Attainable(runs[i].hi, def.divide)
      {
        assert Covers(runs, runs[i].lo) && Covers(runs, runs[i].hi);
        assert runs[i].lo in sorted && runs[i].hi in sorted;
      }
      forall b: i64
        ensures b in sorted <==> DirtyBucket(def, facts, EMPTY, AsView(), b)
      {
        if r :| r in facts.Touched(stamp) && BucketOf(r.okey, def.divide) == b {
          assert DirtyKey(def.kind, facts, EMPTY, AsView(), r.okey);
        }
      }
      IncreasingCount(sorted);
      var bs := Elems(sorted);
      assert |bs| == |sorted| && forall b :: b in bs <==> DirtyBucket(def, facts, EMPTY, AsView(), b);
    }

    /** The dirty set of a join view: fact rows as points, touched reference rows
        as correction intervals; a star view answers any dimension change with a
        rebuild. */
    method JoinedTouchedRanges(facts: GoodLog, dims: GoodLog) returns (rebuild: bool, ranges: seq<Range>)
      requires !def.kind.NoJoin?
      ensures rebuild <==> def.kind.EquiJoin? && dims.Touched(dimStamp) != {}
      ensures NonEmpty(ranges)
      ensures !rebuild ==> forall k: i64 :: Covers(ranges, k) <==> DirtyKey(def.kind, facts, dims, AsView(), k)
    {
      ranges := [];
      rebuild := false;
      var touched := facts.Touched(stamp);
      var todo := touched;
      while todo != {}
        invariant todo <= touched && NonEmpty(ranges)
        invariant PointCover(ranges, touched - todo)
        decreases todo
      {
        var r :| r in todo;
        PointStep(ranges, touched - todo, r);
        assert touched - (todo - {r}) == (touched - todo) + {r};
        ranges := ranges + [Range(r.okey, r.okey)];
        todo := todo - {r};
      }
      assert touched - todo == touched;
      var reference := dims.Touched(dimStamp);
      if def.kind.EquiJoin? {
        rebuild := reference != {};
        return;
      }
      var mode := def.kind.mode;
      todo := reference;
      assert reference - todo == {};
      while todo != {}
        invariant todo <= reference && NonEmpty(ranges)
        invariant IntervalCover(ranges, mode, touched, dims.Live(), reference - todo)
        decreases todo
      {
        var t :| t in todo;
        ghost var before := ranges;
        if t.sym.Some? {
          var high := IntervalHigh(mode, dims.Live(), t);
          if t.okey <= high { ranges := ranges + [Range(t.okey, high)]; }
        }
        IntervalStep(before, mode, touched, dims.Live(), reference - todo, t, ranges);
        assert reference - (todo - {t}) == (reference - todo) + {t};
        todo := todo - {t};
      }
      assert reference - todo == reference;
    }

    // -------------------------------------------------------------- union reads

    /** The single-source union read. */
    method QueryUnion(source: Table) returns (answer: set<ViewRow>)
      requires Valid() && def.kind.NoJoin? && Inv(def, source.log, EMPTY, AsView())
      ensures answer == def.Current(source.log, EMPTY)
    {
      var runs := TouchedRuns(source.log);
      assert LiveRuns(def, source.log, EMPTY, AsView(), runs);
      UnionReadIsExact(def, source.log, EMPTY, AsView(), runs);
      if |runs| == 0 {
        NoRuns(source.log, runs);
        return table;
      }
      var live := def.Restricted(source.log, EMPTY, runs);
      var clean := def.Clean(table, runs);
      answer := clean + live;
    }

    /** Nothing touched: the stored rows are the whole answer. */
    lemma NoRuns(facts: GoodLog, runs: seq<Range>)
      requires Valid() && |runs| == 0
      ensures def.Clean(table, runs) + def.Restricted(facts, EMPTY, runs) == table
    {
      assert def.Restricted(facts, EMPTY, runs) == {};
      assert def.Clean(table, runs) == table;
    }

    /** The join view's union read: dirty ranges and the tail at or above the
        ceiling are joined live. */
    method QueryJoined(source: Table, dimension: Table) returns (reply: Reply)
      requires Valid() && !def.kind.NoJoin? && Inv(def, source.log, dimension.log, AsView())
      ensures reply == if def.kind.EquiJoin? && !KeyUnique(dimension.log.Live()) then NotUnique
                       else Rows(def.Current(source.log, dimension.log))
    {
      if def.kind.EquiJoin? && !KeyUnique(dimension.log.Live()) { return NotUnique; }
      var rebuild, ranges := JoinedTouchedRanges(source.log, dimension.log);
      ghost var dirty := ranges;
      if rebuild { ranges := [Range(MIN, MAX)]; }
      ranges := ranges + [Range(ceiling, MAX)];
      var merged := MergeKeyRanges(ranges);
      var runs := KeyRangesToBucketRuns(merged, def.divide);
      LiveTail(source.log, dimension.log, dirty, ranges, merged, runs);
      UnionReadIsExact(def, source.log, dimension.log, AsView(), runs);
      var live := def.Restricted(source.log, dimension.log, runs);
      var clean := def.Clean(table, runs);
      reply := Rows(clean + live);
    }

    lemma LiveTail(facts: GoodLog, dims: GoodLog, dirty: seq<Range>, ranges: seq<Range>, merged: seq<Range>,
                   runs: seq<Range>)
      requires !def.kind.NoJoin?
      requires var rebuild := def.kind.EquiJoin? && dims.Touched(dimStamp) != {};
               && (!rebuild ==> forall k: i64 :: Covers(dirty, k) <==> DirtyKey(def.kind, facts, dims, AsView(), k))
               && ranges == (if rebuild then [Range(MIN, MAX)] else dirty) + [Range(ceiling, MAX)]
      requires SameCover(merged, ranges)
      requires AttainableEnds(runs, def.divide)
      requires forall b: i64 :: Covers(runs, b) <==> CoversBucket(merged, b, def.divide)
      ensures LiveRuns(def, facts, dims, AsView(), runs)
    {
      forall k: i64
        ensures Covers(merged, k) <==> DirtyKey(def.kind, facts, dims, AsView(), k) || ceiling <= k
      {
        CoversAppend(if def.kind.EquiJoin? && dims.Touched(dimStamp) != {} then [Range(MIN, MAX)] else dirty,
                     [Range(ceiling, MAX)], k);
        CoversOne(Range(ceiling, MAX), k);
        CoversOne(Range(MIN, MAX), k);
      }
      forall b: i64
        ensures Covers(runs, b) <==> DirtyBucket(def, facts, dims, AsView(), b) || OpenBucket(def, ceiling, b)
      {
        if CoversBucket(merged, b, def.divide) {
          var k: i64 :| BucketOf(k, def.divide) == b && Covers(merged, k);
        }
        if k: i64 :| BucketOf(k, def.divide) == b && (DirtyKey(def.kind, facts, dims, AsView(), k) || ceiling <= k) {
          assert Covers(merged, k);
        }
      }
    }

    // ---------------------------------------------------------------- refreshes

    /** The single-source refresh: flush, derive, fold, supersede, stamp. */
    method RefreshSingle(source: Table) returns (outcome: Outcome)
      requires Valid() && def.kind.NoJoin?
      modifies this, source
      ensures source.log == old(source.log).Flush()
      ensures AsView() == RefreshedSingle(def, source.log, EMPTY, old(AsView()))
      ensures outcome == Rebuilt || (outcome.Folded? && CountsDirty(def, source.log, old(AsView()), outcome.buckets))
      ensures outcome == Rebuilt <==> source.log.next < old(stamp)
      ensures Valid()
      ensures old(Inv(def, source.log, EMPTY, AsView())) ==> Inv(def, source.log, EMPTY, AsView())
    {
      FlushedRefreshKeepsInv(def, source.log, EMPTY, AsView());
      source.Flush();
      outcome := FoldSingle(source.log);
    }

    method FoldSingle(facts: GoodLog) returns (outcome: Outcome)
      requires Valid() && def.kind.NoJoin?
      modifies this
      ensures AsView() == RefreshedSingle(def, facts, EMPTY, old(AsView()))
      ensures outcome == Rebuilt || (outcome.Folded? && CountsDirty(def, facts, old(AsView()), outcome.buckets))
      ensures outcome == Rebuilt <==> facts.next < old(stamp)
      ensures Valid()
    {
      var now := facts.next;
      if now < stamp {
        CurrentOnAxis(def, facts, EMPTY);
        table := def.Answer(JoinRows(def.kind, def.left, facts.Live(), EMPTY.Live()));
        stamp := now;
        return Rebuilt;
      }
      outcome := FoldTouched(facts);
    }

    /** Re-folds the touched buckets; their old rows give way. */
    method FoldTouched(facts: GoodLog) returns (outcome: Outcome)
      requires Valid() && def.kind.NoJoin? && facts.next >= stamp
      modifies this
      ensures AsView() == RefreshedSingle(def, facts, EMPTY, old(AsView()))
      ensures outcome.Folded? && CountsDirty(def, facts, old(AsView()), outcome.buckets)
      ensures Valid()
    {
      var now := facts.next;
      var runs := TouchedRuns(facts);
      TouchedFolds(facts, runs);
      if now == stamp || |runs| == 0 {
        NothingTouched(facts, runs);
        stamp := now;
        return Folded(0);
      }
      var replacement := def.Restricted(facts, EMPTY, runs);
      table := def.Clean(table, runs) + replacement;
      stamp := now;
      outcome := Folded(TotalLength(runs));
    }

    /** Keeping what no touched run names and adding the runs' re-fold is the
        refresh. */
    lemma TouchedFolds(facts: GoodLog, runs: seq<Range>)
      requires Valid() && def.kind.NoJoin? && facts.next >= stamp && AttainableEnds(runs, def.divide)
      requires forall b: i64 :: Covers(runs, b) <==> DirtyBucket(def, facts, EMPTY, AsView(), b)
      ensures var folded := def.Clean(table, runs) + def.Restricted(facts, EMPTY, runs);
              AsView().(factStamp := facts.next, table := folded) == RefreshedSingle(def, facts, EMPTY, AsView())
              && forall r :: r in folded ==> Attainable(r.bucket, def.divide)
    {
      ghost var dirty := DirtyBuckets(def, facts, EMPTY, AsView());
      assert RunsName(def, runs, dirty);
      ReplacedOnAxis(def, facts, EMPTY, table, dirty, dirty);
      RunsReplace(def, facts, EMPTY, table, runs, runs, dirty, dirty);
    }

    /** No touched row: the fold and the supersession are both empty. */
    lemma NothingTouched(facts: GoodLog, runs: seq<Range>)
      requires def.kind.NoJoin? && Valid()
      requires facts.next == stamp || |runs| == 0
      requires |runs| == 0 <==> facts.Touched(stamp) == {}
      requires forall b: i64 :: Covers(runs, b) <==> DirtyBucket(def, facts, EMPTY, AsView(), b)
      ensures def.Clean(table, runs) + def.Restricted(facts, EMPTY, runs) == table
      ensures CountsDirty(def, facts, AsView(), 0)
    {
      assert facts.Touched(stamp) == {};
      assert forall k: i64 :: !DirtyKey(def.kind, facts, EMPTY, AsView(), k);
      var none: set<i64> := {};
      assert |none| == 0 && forall b :: b in none <==> DirtyBucket(def, facts, EMPTY, AsView(), b);
    }

    /** `retain` and `min`: the dirty ranges' part strictly below the ceiling. */
    method ClipBelow(ranges: seq<Range>, c: i64) returns (clipped: seq<Range>)
      requires NonEmpty(ranges)
      ensures NonEmpty(clipped)
      ensures forall k: i64 :: Covers(clipped, k) <==> Covers(ranges, k) && k < c
    {
      clipped := [];
      for n := 0 to |ranges|
        invariant NonEmpty(clipped)
        invariant ClippedTo(clipped, ranges[..n], c)
      {
        ghost var before := clipped;
        var r := ranges[n];
        if r.lo < c {
          var top := SaturatingSub(c, 1);
          clipped := clipped + [Range(r.lo, if r.hi <= top then r.hi else top)];
        }
        assert ranges[..n + 1] == ranges[..n] + [r];
        ClipStep(before, ranges[..n], r, c, clipped);
      }
      assert ranges[..|ranges|] == ranges;
    }

    /** The join-view refresh: the as-of shape here, the star shape below. */
    method RefreshJoined(source: Table, dimension: Table) returns (outcome: Outcome)
      requires Valid() && !def.kind.NoJoin? && source != dimension
      modifies this, source, dimension
      ensures source.log == old(source.log).Flush() && dimension.log == old(dimension.log).Flush()
      ensures outcome == KeyNotUnique <==> def.kind.EquiJoin? && !KeyUnique(dimension.log.Live())
      ensures AsView() == if outcome == KeyNotUnique then old(AsView())
                          else Refreshed(def, source.log, dimension.log, old(AsView()))
      ensures Valid()
      ensures old(Inv(def, source.log, dimension.log, AsView())) ==> Inv(def, source.log, dimension.log, AsView())
    {
      ghost var facts, dims, was := source.log, dimension.log, AsView();
      source.Flush();
      dimension.Flush();
      outcome := RefreshFlushed(source.log, dimension.log);
      assert source.log == Flushed(facts) && dimension.log == Flushed(dims);
      FlushedRefreshKeepsInv(def, facts, dims, was);
    }

    /** The refresh proper, over flushed sources. */
    method RefreshFlushed(facts: GoodLog, dims: GoodLog) returns (outcome: Outcome)
      requires Valid() && !def.kind.NoJoin?
      modifies this
      ensures outcome == KeyNotUnique <==> def.kind.EquiJoin? && !KeyUnique(dims.Live())
      ensures AsView() == if outcome == KeyNotUnique then old(AsView()) else Refreshed(def, facts, dims, old(AsView()))
      ensures Valid()
    {
      if def.kind.EquiJoin? {
        if !KeyUnique(dims.Live()) { return KeyNotUnique; }
        outcome := RefreshStar(facts, dims);
      } else {
        outcome := RefreshAsOf(facts, dims);
      }
    }

    method RefreshAsOf(facts: GoodLog, dims: GoodLog) returns (outcome: Outcome)
      requires Valid() && def.kind.AsOfJoin?
      modifies this
      ensures AsView() == RefreshedAsOf(def, facts, dims, old(AsView())) && Valid()
      ensures outcome == if dims.Live() == {} then Folded(0)
                         else if Tampered(facts, dims, old(AsView()), true) then Rebuilt
                         else Folded(SpanCount(facts.Live(), def.divide,
                                               AsOfFold(def, facts, dims, old(AsView()),
                                                        AsOfCeiling(dims.Live(), def.divide))))
    {
      var frontier := Frontier(dims.Live());
      if frontier.None? {
        if ceiling > MIN { table := {}; }
        stamp, dimStamp, ceiling := facts.next, dims.next, MIN;
        return Folded(0);
      }
      var c := BucketLow(BucketOf(frontier.value, def.divide), def.divide);
      if facts.next < stamp || dims.next < dimStamp {
        outcome := RebuildBelow(facts, dims, c);
        return;
      }
      outcome := FoldBelow(facts, dims, c);
    }

    /** The rebuild floor for an as-of view: trust nothing, fold below the ceiling. */
    method RebuildBelow(facts: GoodLog, dims: GoodLog, c: i64) returns (outcome: Outcome)
      requires Valid() && def.kind.AsOfJoin? && dims.Live() != {} && c == AsOfCeiling(dims.Live(), def.divide)
      requires Tampered(facts, dims, AsView(), true)
      modifies this
      ensures AsView() == RefreshedAsOf(def, facts, dims, old(AsView())) && outcome == Rebuilt && Valid()
    {
      var runs := KeyRangesToBucketRuns([Range(MIN, SaturatingSub(c, 1))], def.divide);
      BelowRuns(runs, c);
      RunsFold(def, facts, dims, runs, Below(def, c));
      CurrentOnAxis(def, facts, dims);
      table := def.Restricted(facts, dims, runs);
      stamp, dimStamp, ceiling := facts.next, dims.next, c;
      outcome := Rebuilt;
    }

    lemma BelowRuns(runs: seq<Range>, c: i64)
      requires AttainableEnds(runs, def.divide)
      requires forall b: i64 :: Covers(runs, b) <==> CoversBucket([Range(MIN, SaturatingSub(c, 1))], b, def.divide)
      ensures RunsName(def, runs, Below(def, c))
    {
      forall k: i64
        ensures Covers([Range(MIN, SaturatingSub(c, 1))], k) <==> k <= SaturatingSub(c, 1)
      {
        CoversOne(Range(MIN, SaturatingSub(c, 1)), k);
      }
    }

    /** Key ranges to bucket runs, merged before and after. */
    method RunsOf(ranges: seq<Range>, ghost bs: iset<i64>) returns (runs: seq<Range>)
      requires NonEmpty(ranges)
      requires forall b: i64 :: b in bs <==> CoversBucket(ranges, b, def.divide)
      ensures RunsName(def, runs, bs) && Normal(runs)
      ensures |ranges| > 0 ==> |runs| > 0
    {
      var merged := MergeKeyRanges(ranges);
      runs := KeyRangesToBucketRuns(merged, def.divide);
      MergedRunsName(ranges, merged, runs, bs);
    }

    /** The two range lists of an as-of refresh: what to fold (dirty below the new
        ceiling, plus newly stable keys) and what to supersede (that, plus the
        band a regressed frontier stranded). */
    method FoldRanges(facts: GoodLog, dims: GoodLog, c: i64) returns (ranges: seq<Range>, victimRanges: seq<Range>)
      requires def.kind.AsOfJoin?
      ensures NonEmpty(ranges) && NonEmpty(victimRanges)
      ensures forall k: i64 :: Covers(ranges, k) <==> FoldKey(def, facts, dims, AsView(), c, k)
      ensures forall k: i64 ::
                Covers(victimRanges, k) <==> FoldKey(def, facts, dims, AsView(), c, k) || c <= k < ceiling
    {
      var _, dirty := JoinedTouchedRanges(facts, dims);
      var clipped := ClipBelow(dirty, c);
      ranges, victimRanges := clipped, clipped;
      if ceiling < c {
        ranges := ranges + [Range(ceiling, SaturatingSub(c, 1))];
        victimRanges := victimRanges + [Range(ceiling, SaturatingSub(c, 1))];
      }
      if c < ceiling { victimRanges := victimRanges + [Range(c, SaturatingSub(ceiling, 1))]; }
      RangesAreFold(facts, dims, c, clipped, ranges, victimRanges);
    }

    lemma RangesAreFold(facts: GoodLog, dims: GoodLog, c: i64, clipped: seq<Range>, ranges: seq<Range>,
                        victimRanges: seq<Range>)
      requires def.kind.AsOfJoin? && NonEmpty(clipped)
      requires forall k: i64 :: Covers(clipped, k) <==> DirtyKey(def.kind, facts, dims, AsView(), k) && k < c
      requires ranges == if ceiling < c then clipped + [Range(ceiling, SaturatingSub(c, 1))] else clipped
      requires victimRanges == if c < ceiling then ranges + [Range(c, SaturatingSub(ceiling, 1))] else ranges
      ensures NonEmpty(ranges) && NonEmpty(victimRanges)
      ensures forall k: i64 :: Covers(ranges, k) <==> FoldKey(def, facts, dims, AsView(), c, k)
      ensures forall k: i64 ::
                Covers(victimRanges, k) <==> FoldKey(def, facts, dims, AsView(), c, k) || c <= k < ceiling
    {
      if ceiling < c { AppendStep(clipped, Range(ceiling, SaturatingSub(c, 1))); }
      if c < ceiling { AppendStep(ranges, Range(c, SaturatingSub(ceiling, 1))); }
    }

    /** The fold proper. */
    method FoldBelow(facts: GoodLog, dims: GoodLog, c: i64) returns (outcome: Outcome)
      requires Valid() && def.kind.AsOfJoin? && dims.Live() != {} && c == AsOfCeiling(dims.Live(), def.divide)
      requires !Tampered(facts, dims, AsView(), true)
      modifies this
      ensures AsView() == RefreshedAsOf(def, facts, dims, old(AsView())) && Valid()
      ensures outcome == Folded(SpanCount(facts.Live(), def.divide, AsOfFold(def, facts, dims, old(AsView()), c)))
    {
      var ranges, victimRanges := FoldRanges(facts, dims, c);
      ghost var folds := AsOfFold(def, facts, dims, AsView(), c);
      ghost var victims := folds + Band(def, AsView(), c);
      ReplacedOnAxis(def, facts, dims, table, victims, folds);
      if victimRanges == [] {
        NothingFolded(facts, dims, c, victimRanges);
        assert folds == iset{};
        stamp, dimStamp, ceiling := facts.next, dims.next, c;
        return Folded(0);
      }
      RangesNameBuckets(facts, dims, c, ranges, victimRanges);
      var foldRuns := RunsOf(ranges, folds);
      var victimRuns := RunsOf(victimRanges, victims);
      var folded := FoldedBucketCount(facts, foldRuns, def, folds);
      var planned := if |foldRuns| == 0 then [Range(1, 0)] else foldRuns;
      InvertedIsEmpty(foldRuns, planned, folds);
      RunsReplace(def, facts, dims, table, victimRuns, planned, victims, folds);
      var replacement := def.Restricted(facts, dims, planned);
      table := def.Clean(table, victimRuns) + replacement;
      stamp, dimStamp, ceiling := facts.next, dims.next, c;
      outcome := Folded(folded);
    }

    lemma RangesNameBuckets(facts: GoodLog, dims: GoodLog, c: i64, ranges: seq<Range>, victimRanges: seq<Range>)
      requires forall k: i64 :: Covers(ranges, k) <==> FoldKey(def, facts, dims, AsView(), c, k)
      requires forall k: i64 ::
                 Covers(victimRanges, k) <==> FoldKey(def, facts, dims, AsView(), c, k) || c <= k < ceiling
      ensures forall b: i64 :: b in AsOfFold(def, facts, dims, AsView(), c) <==> CoversBucket(ranges, b, def.divide)
      ensures forall b: i64 :: b in AsOfFold(def, facts, dims, AsView(), c) + Band(def, AsView(), c)
                           <==> CoversBucket(victimRanges, b, def.divide)
    {
      forall b: i64
        ensures FoldBucket(def, facts, dims, AsView(), c, b) || InBand(def, AsView(), c, b)
           <==> CoversBucket(victimRanges, b, def.divide)
      {
        if k: i64 :| BucketOf(k, def.divide) == b && Covers(victimRanges, k) {
          assert FoldKey(def, facts, dims, AsView(), c, k) || c <= k < ceiling;
        }
      }
    }

    /** No victim key: nothing moves but the stamps and the ceiling. */
    lemma NothingFolded(facts: GoodLog, dims: GoodLog, c: i64, victimRanges: seq<Range>)
      requires Valid() && victimRanges == []
      requires forall k: i64 ::
                 Covers(victimRanges, k) <==> FoldKey(def, facts, dims, AsView(), c, k) || c <= k < ceiling
      ensures AsOfFold(def, facts, dims, AsView(), c) == iset{}
      ensures var folds := AsOfFold(def, facts, dims, AsView(), c);
              Replaced(def, facts, dims, table, folds + Band(def, AsView(), c), folds) == table
    {
      assert forall k: i64 :: !Covers(victimRanges, k);
    }

    /** Merging and bucketing keep the buckets a key predicate names. */
    lemma MergedRunsName(ranges: seq<Range>, merged: seq<Range>, runs: seq<Range>, bs: iset<i64>)
      requires SameCover(merged, ranges) && AttainableEnds(runs, def.divide)
      requires forall b: i64 :: Covers(runs, b) <==> CoversBucket(merged, b, def.divide)
      requires forall b: i64 :: b in bs <==> CoversBucket(ranges, b, def.divide)
      ensures RunsName(def, runs, bs)
    {
      forall b: i64 ensures CoversBucket(merged, b, def.divide) <==> CoversBucket(ranges, b, def.divide) {
        if k: i64 :| BucketOf(k, def.divide) == b && Covers(merged, k) { assert Covers(ranges, k); }
        if k: i64 :| BucketOf(k, def.divide) == b && Covers(ranges, k) { assert Covers(merged, k); }
      }
    }

    /** The all-shrink refresh plans one inverted range, which names nothing. */
    lemma InvertedIsEmpty(runs: seq<Range>, planned: seq<Range>, bs: iset<i64>)
      requires RunsName(def, runs, bs)
      requires planned == if |runs| == 0 then [Range(1, 0)] else runs
      ensures RunsName(def, planned, bs)
    {
      var d: i64 := def.divide;
      BucketOfMultiple(1, d);
      assert BucketOf(d, def.divide) == 1;
      assert BucketOf(0, def.divide) == 0;
    }

    /** The star refresh: any dimension change rebuilds, fact changes fold. */
    method RefreshStar(facts: GoodLog, dims: GoodLog) returns (outcome: Outcome)
      requires Valid() && def.kind.EquiJoin?
      modifies this
      ensures AsView() == RefreshedStar(def, facts, dims, old(AsView())) && Valid()
      ensures outcome == if Tampered(facts, dims, old(AsView()), true) || old(ceiling) < MAX
                            || dims.Touched(old(dimStamp)) != {}
                         then Rebuilt
                         else Folded(SpanCount(facts.Live(), def.divide, DirtyBuckets(def, facts, dims, old(AsView()))))
    {
      ghost var was := AsView();
      var floor := facts.next < stamp || dims.next < dimStamp || ceiling < MAX;
      var rebuild, ranges := JoinedTouchedRanges(facts, dims);
      ghost var dirty := DirtyBuckets(def, facts, dims, was);
      CurrentOnAxis(def, facts, dims);
      ReplacedOnAxis(def, facts, dims, table, dirty, dirty);
      if floor || rebuild {
        var all := KeyRangesToBucketRuns([Range(MIN, MAX)], def.divide);
        FullRuns(facts, dims, all);
        table := def.Restricted(facts, dims, all);
        stamp, dimStamp, ceiling := facts.next, dims.next, MAX;
        return Rebuilt;
      }
      if ranges == [] {
        forall k: i64 ensures !DirtyKey(def.kind, facts, dims, was, k) {
          assert !Covers(ranges, k);
        }
        assert Replaced(def, facts, dims, table, dirty, dirty) == table;
        stamp, dimStamp := facts.next, dims.next;
        return Folded(0);
      }
      DirtyRanges(facts, dims, was, ranges);
      var runs := RunsOf(ranges, dirty);
      RunsReplace(def, facts, dims, table, runs, runs, dirty, dirty);
      var folded := FoldedBucketCount(facts, runs, def, dirty);
      var replacement := def.Restricted(facts, dims, runs);
      table := def.Clean(table, runs) + replacement;
      stamp, dimStamp := facts.next, dims.next;
      outcome := Folded(folded);
    }

    lemma DirtyRanges(facts: GoodLog, dims: GoodLog, v: View, ranges: seq<Range>)
      requires forall k: i64 :: Covers(ranges, k) <==> DirtyKey(def.kind, facts, dims, v, k)
      ensures forall b: i64 :: b in DirtyBuckets(def, facts, dims, v) <==> CoversBucket(ranges, b, def.divide)
    {
    }

    /** The whole axis as one run list is the whole answer. */
    lemma FullRuns(facts: GoodLog, dims: GoodLog, all: seq<Range>)
      requires def.Valid() && AttainableEnds(all, def.divide)
      requires forall b: i64 :: Covers(all, b) <==> CoversBucket([Range(MIN, MAX)], b, def.divide)
      ensures def.Restricted(facts, dims, all) == def.Current(facts, dims)
    {
      forall b: i64 | Attainable(b, def.divide) ensures Covers(all, b) {
        var k: i64 :| BucketOf(k, def.divide) == b;
        CoversOne(Range(MIN, MAX), k);
      }
      RunsFold(def, facts, dims, all, Everything());
      assert RowsIn(def.Current(facts, dims), Everything()) == def.Current(facts, dims);
    }
  }

  ghost predicate ClippedTo(clipped: seq<Range>, ranges: seq<Range>, c: i64) {
    forall k: i64 :: Covers(clipped, k) <==> Covers(ranges, k) && k < c
  }

  lemma ClipStep(before: seq<Range>, ranges: seq<Range>, r: Range, c: i64, clipped: seq<Range>)
    requires ClippedTo(before, ranges, c) && r.lo <= r.hi
    requires clipped == if r.lo < c
                        then before + [Range(r.lo, if r.hi <= SaturatingSub(c, 1) then r.hi else SaturatingSub(c, 1))]
                        else before
    ensures ClippedTo(clipped, ranges + [r], c)
  {
    AppendStep(ranges, r);
    if r.lo < c { AppendStep(before, clipped[|clipped| - 1]); }
  }

  /** The count a join refresh reports: run lengths clipped to the facts' span. */
  method FoldedBucketCount(facts: GoodLog, runs: seq<Range>, def: Definition, ghost bs: iset<i64>) returns (n: nat)
    requires Normal(runs) && RunsName(def, runs, bs)
    ensures n == SpanCount(facts.Live(), def.divide, bs)
  {
    var d := def.divide;
    if facts.Live() == {} { return 0; }
    var lo, hi := BucketOf(LeastKey(facts.Live()), d), BucketOf(Frontier(facts.Live()).value, d);
    var total: nat := 0;
    assert SpanCover(lo, hi, runs[..0]) == {};
    for i := 0 to |runs|
      invariant total == |SpanCover(lo, hi, runs[..i])|
    {
      var first := if runs[i].lo >= lo then runs[i].lo else lo;
      var last := if runs[i].hi <= hi then runs[i].hi else hi;
      SpanStep(lo, hi, runs, i, first, last);
      total := total + if last - first + 1 >= 0 then last - first + 1 else 0;
    }
    assert runs[..|runs|] == runs;
    SpanNamed(def, runs, bs, lo, hi);
    n := if total <= U64_MAX then total else U64_MAX;
  }

  lemma SpanNamed(def: Definition, runs: seq<Range>, bs: iset<i64>, lo: i64, hi: i64)
    requires RunsName(def, runs, bs) && Attainable(lo, def.divide) && Attainable(hi, def.divide)
    ensures SpanCover(lo, hi, runs) == set b: i64 | lo <= b <= hi && Named(bs, b)
  {
    forall b: i64 | lo <= b <= hi ensures Covers(runs, b) <==> b in bs {
      AttainableBetween(lo, b, hi, def.divide);
    }
  }

  ghost predicate Between(a: int, x: int, b: int) { a <= x <= b }

  ghost function Interval(a: i64, b: i64): set<i64> { set x: i64 | a <= x <= b && Between(a, x, b) }

  lemma {:induction false} IntervalSize(a: i64, b: i64)
    ensures |Interval(a, b)| == if a <= b then b - a + 1 else 0
    decreases b - a
  {
    if a < b {
      IntervalSize(a, b - 1);
      assert Between(a, b, b);
      assert forall x: i64 :: Between(a, x, b) <==> Between(a, x, b - 1) || x == b;
      assert Interval(a, b) == Interval(a, b - 1) + {b};
    } else if a == b {
      assert Between(a, b, b);
      assert Interval(a, b) == {b};
    } else {
      assert Interval(a, b) == {};
    }
  }

  lemma SpanStep(lo: i64, hi: i64, runs: seq<Range>, n: nat, first: i64, last: i64)
    requires Normal(runs) && n < |runs|
    requires first == if runs[n].lo >= lo then runs[n].lo else lo
    requires last == if runs[n].hi <= hi then runs[n].hi else hi
    ensures |SpanCover(lo, hi, runs[..n + 1])|
         == |SpanCover(lo, hi, runs[..n])| + if last - first + 1 >= 0 then last - first + 1 else 0
  {
    IntervalSize(first, last);
    SpanSplit(lo, hi, runs[..n], runs[n], first, last);
    assert runs[..n + 1] == runs[..n] + [runs[n]];
    forall b | b in SpanCover(lo, hi, runs[..n])
      ensures b !in Interval(first, last)
    {
      var i :| 0 <= i < |runs[..n]| && runs[..n][i].lo <= b <= runs[..n][i].hi;
      assert runs[i].hi + 1 < runs[n].lo;
    }
  }

  lemma SpanSplit(lo: i64, hi: i64, runs: seq<Range>, r: Range, first: i64, last: i64)
    requires first == if r.lo >= lo then r.lo else lo
    requires last == if r.hi <= hi then r.hi else hi
    ensures SpanCover(lo, hi, runs + [r]) == SpanCover(lo, hi, runs) + Interval(first, last)
  {
    AppendStep(runs, r);
    assert forall b: i64 :: Between(first, b, last) <==> lo <= b <= hi && r.lo <= b <= r.hi;
  }

  ghost predicate Increasing(s: seq<i64>) {
    forall i, j :: 0 <= i < j < |s| ==> s[i] < s[j]
  }

  ghost predicate BucketsOf(s: seq<i64>, rows: set<Row>, d: Width) {
    forall b: i64 :: b in s <==> exists r :: r in rows && BucketOf(r.okey, d) == b
  }

  lemma HeadIsLeast(sorted: seq<i64>)
    requires Increasing(sorted) && sorted != []
    ensures forall x: i64 :: x in sorted[1..] ==> sorted[0] < x
  {
    forall x: i64 | x in sorted[1..] ensures sorted[0] < x {
      var i :| 0 <= i < |sorted[1..]| && sorted[1..][i] == x;
      assert sorted[i + 1] == x;
    }
  }

  lemma Prepend(head: i64, rest: seq<i64>)
    requires Increasing(rest) && forall x: i64 :: x in rest ==> head < x
    ensures Increasing([head] + rest)
  {
    forall i | 0 <= i < |rest| ensures head < rest[i] { assert rest[i] in rest; }
  }

  /** A `BTreeSet` insertion. */
  function InsertBucket(b: i64, sorted: seq<i64>): (s: seq<i64>)
    requires Increasing(sorted)
    ensures Increasing(s)
    ensures forall x: i64 :: x in s <==> x == b || x in sorted
  {
    if sorted == [] then [b]
    else if b < sorted[0] then [b] + sorted
    else if b == sorted[0] then sorted
    else
      assert sorted == [sorted[0]] + sorted[1..];
      var rest := InsertBucket(b, sorted[1..]);
      HeadIsLeast(sorted);
      Prepend(sorted[0], rest);
      [sorted[0]] + rest
  }

  lemma BucketStep(touched: set<Row>, todo: set<Row>, r: Row, sorted: seq<i64>, d: Width)
    requires r in todo && todo <= touched
    requires Increasing(sorted) && BucketsOf(sorted, touched - todo, d)
    ensures BucketsOf(InsertBucket(BucketOf(r.okey, d), sorted), touched - (todo - {r}), d)
  {
    var s := InsertBucket(BucketOf(r.okey, d), sorted);
    assert touched - (todo - {r}) == (touched - todo) + {r};
    forall b: i64
      ensures b in s <==> exists x :: x in (touched - todo) + {r} && BucketOf(x.okey, d) == b
    {
      if b in sorted { var x :| x in touched - todo && BucketOf(x.okey, d) == b; assert x in (touched - todo) + {r}; }
      if b == BucketOf(r.okey, d) { assert r in (touched - todo) + {r}; }
    }
  }

  ghost function Elems(s: seq<i64>): set<i64> { set b | b in s }

  lemma {:induction false} IncreasingCount(s: seq<i64>)
    requires Increasing(s)
    ensures |Elems(s)| == |s|
  {
    if s == [] {
    } else {
      var init, last := s[..|s| - 1], s[|s| - 1];
      IncreasingCount(init);
      InitElems(s);
      assert last !in Elems(init);
    }
  }

  lemma InitElems(s: seq<i64>)
    requires s != []
    ensures Elems(s) == Elems(s[..|s| - 1]) + {s[|s| - 1]}
  {
    assert s == s[..|s| - 1] + [s[|s| - 1]];
  }
}
