/** The maintained-view engine on values: what a definition answers, which
    buckets a stamp no longer covers, the invariant a stored fold keeps, and why
    clean rows plus a live fold are exactly the definition over current rows. */
module Engine {
  import opened Keys
  import opened Ranges
  import opened Log
  import opened Joins

  /** A view row's group: symbols, or (a blotter) the one fact row it enriches. */
  datatype Tag = Symbols(names: seq<Option<string>>) | OneRow(id: nat)

  /** A stored row.  Its ordering-key column holds `bucket * scale`. */
  datatype ViewRow = ViewRow(bucket: i64, tag: Tag, cells: Cells)

  /** A lowered definition: GROUP BY one bucket of the fact ordering key and a
      tag, a row-local WHERE, a fold per group.  A blotter groups by the fact
      row itself, with `divide == 1`. */
  datatype Definition = Definition(
    kind: JoinKind, left: bool, divide: Width, scale: Width,
    accept: Joined -> bool, tag: Joined -> Tag, fold: set<Joined> -> Cells)
  {
    ghost predicate Valid() { scale == 1 || scale == divide }

    function Bucket(j: Joined): i64 { BucketOf(j.fact.okey, divide) }

    function Group(all: set<Joined>, j: Joined): set<Joined> {
      set x | x in all && accept(x) && Bucket(x) == Bucket(j) && tag(x) == tag(j)
    }

    /** The definition's meaning: one row per inhabited group. */
    function Answer(all: set<Joined>): set<ViewRow> {
      set j | j in all && accept(j) :: ViewRow(Bucket(j), tag(j), fold(Group(all, j)))
    }

    /** The definition over the two tables' latest rows. */
    function Current(facts: GoodLog, dims: GoodLog): set<ViewRow> {
      Answer(JoinRows(kind, left, facts.Live(), dims.Live()))
    }

    /** The same plan with the run list's key ranges ANDed in. */
    function Restricted(facts: GoodLog, dims: GoodLog, runs: seq<Range>): set<ViewRow> {
      var hit := set f | f in facts.Live() && SourceHit(runs, f.okey, divide);
      Answer(JoinRows(kind, left, hit, dims.Live()))
    }

    /** Materialized rows outside the runs. */
    function Clean(table: set<ViewRow>, runs: seq<Range>): set<ViewRow> {
      set v | v in table && !ViewHit(runs, v.bucket * scale, scale)
    }
  }

  function RowsAt(rows: set<ViewRow>, b: i64): set<ViewRow> {
    set v | v in rows && v.bucket == b
  }

  ghost function RowsIn(rows: set<ViewRow>, bs: iset<i64>): set<ViewRow> {
    set v | v in rows && v.bucket in bs
  }

  lemma SameByBucket(a: set<ViewRow>, b: set<ViewRow>)
    requires forall i: i64 :: RowsAt(a, i) == RowsAt(b, i)
    ensures a == b
  {
    forall v ensures v in a <==> v in b {
      assert v in a <==> v in RowsAt(a, v.bucket);
      assert v in b <==> v in RowsAt(b, v.bucket);
    }
  }

  /** One row per inhabited group: it folds exactly the accepted rows of its bucket
      and tag, and no other row carries that bucket and tag. */
  lemma AnswerMeans(def: Definition, all: set<Joined>, g: set<Joined>, b: i64, tag: Tag)
    requires forall x :: x in g <==>
               x in all && def.accept(x) && BucketOf(x.fact.okey, def.divide) == b && def.tag(x) == tag
    ensures forall r :: r in def.Answer(all) && r.bucket == b && r.tag == tag
                   <==> g != {} && r == ViewRow(b, tag, def.fold(g))
  {
    if g != {} {
      var j :| j in g;
      assert def.Group(all, j) == g;
    }
    forall r | r in def.Answer(all) && r.bucket == b && r.tag == tag
      ensures g != {} && r == ViewRow(b, tag, def.fold(g))
    {
      var j :| j in all && def.accept(j) && r == ViewRow(def.Bucket(j), def.tag(j), def.fold(def.Group(all, j)));
      assert j in g && def.Group(all, j) == g;
    }
  }

  /** A bucket's answer depends on that bucket's joined rows alone. */
  lemma AnswerIsLocal(def: Definition, a: set<Joined>, b: set<Joined>, i: i64)
    requires forall j: Joined :: def.Bucket(j) == i ==> (j in a <==> j in b)
    ensures RowsAt(def.Answer(a), i) == RowsAt(def.Answer(b), i)
  {
    AnswerHalf(def, a, b, i);
    AnswerHalf(def, b, a, i);
  }

  lemma AnswerHalf(def: Definition, a: set<Joined>, b: set<Joined>, i: i64)
    requires forall j: Joined :: def.Bucket(j) == i ==> (j in a <==> j in b)
    ensures RowsAt(def.Answer(a), i) <= RowsAt(def.Answer(b), i)
  {
    forall v | v in RowsAt(def.Answer(a), i)
      ensures v in def.Answer(b)
    {
      var j :| j in a && def.accept(j) && v == ViewRow(def.Bucket(j), def.tag(j), def.fold(def.Group(a, j)));
      assert def.Group(a, j) == def.Group(b, j);
      assert j in b;
    }
  }

  /** The answer over current rows is the answer over what the facts are meant to
      match. */
  lemma CurrentIsMeant(def: Definition, facts: GoodLog, dims: GoodLog, all: set<Joined>)
    requires def.kind.EquiJoin? ==> KeyUnique(dims.Live())
    requires forall j :: j in all <==>
               && j.fact in facts.Live() && Meant(def.kind, j.fact, dims.Live(), j.dim)
               && (j.dim.None? ==> def.left || def.kind.NoJoin?)
    ensures def.Current(facts, dims) == def.Answer(all)
  {
    forall j ensures j in all <==> j in JoinRows(def.kind, def.left, facts.Live(), dims.Live()) {
      JoinRowsAreMeant(def.kind, def.left, facts.Live(), dims.Live(), j);
    }
    assert all == JoinRows(def.kind, def.left, facts.Live(), dims.Live());
  }

  /** The prunable restriction re-folds whole buckets: inside a run it is the
      full answer, outside it is nothing. */
  lemma RestrictedIsCurrent(def: Definition, facts: GoodLog, dims: GoodLog, runs: seq<Range>, b: i64)
    requires AttainableEnds(runs, def.divide)
    ensures RowsAt(def.Restricted(facts, dims, runs), b)
         == if Covers(runs, b) then RowsAt(def.Current(facts, dims), b) else {}
  {
    var hit := set f | f in facts.Live() && SourceHit(runs, f.okey, def.divide);
    var all := JoinRows(def.kind, def.left, facts.Live(), dims.Live());
    var some := JoinRows(def.kind, def.left, hit, dims.Live());
    forall j: Joined | def.Bucket(j) == b
      ensures j in some <==> j in all && Covers(runs, b)
    {
      SourceHitIsBucketHit(runs, j.fact.okey, def.divide);
    }
    if Covers(runs, b) {
      AnswerIsLocal(def, all, some, b);
    } else {
      AnswerIsLocal(def, some, {}, b);
    }
  }

  // ------------------------------------------------------- what a stamp covers

  /** The durable view state: two stamps, the ceiling, the stored rows.  A
      single-source view uses the fact stamp alone. */
  datatype View = View(factStamp: nat, dimStamp: nat, ceiling: i64, table: set<ViewRow>)

  const FRESH := View(0, 0, MIN, {})

  /** Fact key `k` is named by one of the two knowledge histories. */
  ghost predicate DirtyKey(kind: JoinKind, facts: Log, dims: Log, v: View, k: i64) {
    || (exists r :: r in facts.Touched(v.factStamp) && r.okey == k)
    || (kind.AsOfJoin? && Corrected(kind.mode, dims, v.dimStamp, k))
    || (kind.EquiJoin? && dims.Touched(v.dimStamp) != {})
  }

  ghost predicate DirtyBucket(def: Definition, facts: Log, dims: Log, v: View, b: i64) {
    exists k: i64 :: BucketOf(k, def.divide) == b && DirtyKey(def.kind, facts, dims, v, k)
  }

  /** Some key of bucket `b` is at or above the ceiling. */
  ghost predicate OpenBucket(def: Definition, ceiling: i64, b: i64) {
    !def.kind.NoJoin? && exists k: i64 :: BucketOf(k, def.divide) == b && ceiling <= k
  }

  lemma DirtyKeyMonotone(kind: JoinKind, facts: GoodLog, dims: GoodLog, facts': GoodLog, dims': GoodLog, v: View,
                         k: i64)
    requires Extends(facts, facts') && Extends(dims, dims')
    requires v.factStamp <= facts.next && v.dimStamp <= dims.next
    requires DirtyKey(kind, facts, dims, v, k)
    ensures DirtyKey(kind, facts', dims', v, k)
  {
    if r :| r in facts.Touched(v.factStamp) && r.okey == k {
      TouchedMonotone(facts, facts', v.factStamp, r);
    } else if kind.AsOfJoin? && Corrected(kind.mode, dims, v.dimStamp, k) {
      CorrectedMonotone(kind.mode, dims, dims', v.dimStamp, k);
    } else {
      var r :| r in dims.Touched(v.dimStamp);
      TouchedMonotone(dims, dims', v.dimStamp, r);
    }
  }

  lemma TouchedMonotone(l: GoodLog, l': GoodLog, since: nat, r: Row)
    requires Extends(l, l') && r in l.Touched(since)
    ensures r in l'.Touched(since)
  {
    assert r in Past(l', l.next).rows;
    if r in l.kills {
      assert r in Past(l', l.next).kills && Past(l', l.next).kills[r] == l.kills[r];
    }
  }

  /** A bucket neither history names folds to what it folded to at the stamps. */
  lemma UntouchedIsFrozen(def: Definition, facts: GoodLog, dims: GoodLog, v: View, b: i64)
    requires v.factStamp <= facts.next && v.dimStamp <= dims.next
    requires !DirtyBucket(def, facts, dims, v, b)
    requires Attainable(b, def.divide)
    ensures RowsAt(def.Current(facts, dims), b)
         == RowsAt(def.Current(Past(facts, v.factStamp), Past(dims, v.dimStamp)), b)
  {
    var f0, d0 := Past(facts, v.factStamp), Past(dims, v.dimStamp);
    var now := JoinRows(def.kind, def.left, facts.Live(), dims.Live());
    var then' := JoinRows(def.kind, def.left, f0.Live(), d0.Live());
    forall f: Row | BucketOf(f.okey, def.divide) == b
      ensures f in facts.Live() <==> f in f0.Live()
      ensures Match(def.kind, f, dims.Live()) == Match(def.kind, f, d0.Live())
    {
      assert !DirtyKey(def.kind, facts, dims, v, f.okey);
      assert f !in facts.Touched(v.factStamp);
      MatchIsFrozen(def.kind, facts, dims, v, f);
    }
    AnswerIsLocal(def, now, then', b);
  }

  lemma MatchIsFrozen(kind: JoinKind, facts: GoodLog, dims: GoodLog, v: View, f: Row)
    requires v.dimStamp <= dims.next
    requires !DirtyKey(kind, facts, dims, v, f.okey)
    ensures Match(kind, f, dims.Live()) == Match(kind, f, Past(dims, v.dimStamp).Live())
  {
    if kind.AsOfJoin? {
      CorrectionInterval(kind.mode, dims, v.dimStamp, f);
    } else if kind.EquiJoin? {
      forall r
        ensures r in dims.Live() <==> r in Past(dims, v.dimStamp).Live()
      {
        assert r !in dims.Touched(v.dimStamp);
      }
      assert dims.Live() == Past(dims, v.dimStamp).Live();
    }
  }

  // ---------------------------------------------------------------- invariant

  /** The part of the state a crash cannot take back. */
  function Kept(l: GoodLog): GoodLog { Past(l, l.durable) }

  /** Bucket `b` is claimed: below the ceiling and named by no durable change. */
  ghost predicate Claimed(def: Definition, facts: GoodLog, dims: GoodLog, v: View, b: i64) {
    && Attainable(b, def.divide)
    && !OpenBucket(def, v.ceiling, b)
    && !DirtyBucket(def, Kept(facts), Kept(dims), v, b)
  }

  /** Every claimed bucket stores its fold at the stamps; stamps cover durable
      coordinates only; a star view's ceiling is parked at one end. */
  ghost predicate Inv(def: Definition, facts: GoodLog, dims: GoodLog, v: View) {
    && v.factStamp <= facts.durable && v.dimStamp <= dims.durable
    && (def.kind.EquiJoin? ==> v.ceiling == MIN || v.ceiling == MAX)
    && (forall r :: r in v.table ==> Attainable(r.bucket, def.divide))
    && forall b: i64 :: Claimed(def, facts, dims, v, b) ==>
         RowsAt(v.table, b) == RowsAt(def.Current(Past(facts, v.factStamp), Past(dims, v.dimStamp)), b)
  }

  lemma FreshView(def: Definition, facts: GoodLog, dims: GoodLog)
    requires facts.durable <= facts.next && dims.durable <= dims.next
    ensures Inv(def, facts, dims, FRESH)
  {
    assert Past(facts, 0).Live() == {};
    forall b: i64 | Claimed(def, facts, dims, FRESH, b)
      ensures RowsAt({}, b) == RowsAt(def.Current(Past(facts, 0), Past(dims, 0)), b)
    {
      assert JoinRows(def.kind, def.left, Past(facts, 0).Live(), Past(dims, 0).Live()) == {};
    }
  }

  lemma ClaimedOnlyShrinks(def: Definition, facts: GoodLog, dims: GoodLog, facts': GoodLog, dims': GoodLog, v: View,
                           b: i64)
    requires v.factStamp <= facts.durable && v.dimStamp <= dims.durable
    requires Extends(Kept(facts), facts') && facts.durable <= facts'.durable
    requires Extends(Kept(dims), dims') && dims.durable <= dims'.durable
    requires Claimed(def, facts', dims', v, b)
    ensures Claimed(def, facts, dims, v, b)
  {
    KeptExtends(facts, facts');
    KeptExtends(dims, dims');
    if DirtyBucket(def, Kept(facts), Kept(dims), v, b) {
      var k: i64 :| BucketOf(k, def.divide) == b && DirtyKey(def.kind, Kept(facts), Kept(dims), v, k);
      DirtyKeyMonotone(def.kind, Kept(facts), Kept(dims), Kept(facts'), Kept(dims'), v, k);
    }
  }

  /** Nothing a source does disturbs the invariant: any state that keeps the
      durable prefix keeps it, whether the log grew or a crash cut it. */
  lemma InvMoves(def: Definition, facts: GoodLog, dims: GoodLog, facts': GoodLog, dims': GoodLog, v: View)
    requires Inv(def, facts, dims, v)
    requires Extends(Kept(facts), facts') && facts.durable <= facts'.durable
    requires Extends(Kept(dims), dims') && dims.durable <= dims'.durable
    ensures Inv(def, facts', dims', v)
  {
    SamePast(facts, facts', v.factStamp);
    SamePast(dims, dims', v.dimStamp);
    forall b: i64 | Claimed(def, facts', dims', v, b)
      ensures RowsAt(v.table, b) == RowsAt(def.Current(Past(facts', v.factStamp), Past(dims', v.dimStamp)), b)
    {
      ClaimedOnlyShrinks(def, facts, dims, facts', dims', v, b);
    }
  }

  lemma KeptExtends(l: GoodLog, l': GoodLog)
    requires Extends(Kept(l), l') && l.durable <= l'.durable
    ensures Extends(Kept(l), Kept(l'))
  {
    PastIsFixed(Past(l', l'.durable), l', l.durable) by { AtExtends(l', l'.durable); }
  }

  lemma SamePast(l: GoodLog, l': GoodLog, stamp: nat)
    requires Extends(Kept(l), l') && stamp <= l.durable
    ensures Past(l, stamp).Live() == Past(l', stamp).Live()
  {
    PastIsFixed(Kept(l), l', stamp);
    AtExtends(l, l.durable);
    PastIsFixed(Kept(l), l, stamp);
  }

  // --------------------------------------------------------------------- reads

  /** The runs a read serves live: dirty buckets and the tail at the ceiling. */
  ghost predicate LiveRuns(def: Definition, facts: GoodLog, dims: GoodLog, v: View, runs: seq<Range>) {
    && AttainableEnds(runs, def.divide)
    && forall b: i64 :: Attainable(b, def.divide) ==>
         (Covers(runs, b) <==> DirtyBucket(def, facts, dims, v, b) || OpenBucket(def, v.ceiling, b))
  }

  /** The union read is exact however stale the stored fold is, and its two
      halves share no row. */
  lemma UnionReadIsExact(def: Definition, facts: GoodLog, dims: GoodLog, v: View, runs: seq<Range>)
    requires def.Valid() && Inv(def, facts, dims, v)
    requires LiveRuns(def, facts, dims, v, runs)
    ensures def.Clean(v.table, runs) + def.Restricted(facts, dims, runs) == def.Current(facts, dims)
    ensures def.Clean(v.table, runs) !! def.Restricted(facts, dims, runs)
  {
    var clean, live := def.Clean(v.table, runs), def.Restricted(facts, dims, runs);
    forall b: i64
      ensures RowsAt(clean + live, b) == RowsAt(def.Current(facts, dims), b)
      ensures RowsAt(clean, b) !! RowsAt(live, b)
    {
      RestrictedIsCurrent(def, facts, dims, runs, b);
      assert RowsAt(clean + live, b) == RowsAt(clean, b) + RowsAt(live, b);
      if Attainable(b, def.divide) {
        ViewHitIsBucketHit(runs, b, def.divide, def.scale);
        if Covers(runs, b) {
          assert RowsAt(clean, b) == {};
        } else {
          assert RowsAt(clean, b) == RowsAt(v.table, b);
          CleanBucketIsCurrent(def, facts, dims, v, b);
        }
      } else {
        NoRowsOffAxis(def, JoinRows(def.kind, def.left, facts.Live(), dims.Live()), b);
        assert RowsAt(clean, b) == {};
      }
    }
    SameByBucket(clean + live, def.Current(facts, dims));
    forall r ensures !(r in clean && r in live) {
      assert r in clean ==> r in RowsAt(clean, r.bucket);
      assert r in live ==> r in RowsAt(live, r.bucket);
    }
  }

  lemma NoRowsOffAxis(def: Definition, all: set<Joined>, b: i64)
    requires !Attainable(b, def.divide)
    ensures RowsAt(def.Answer(all), b) == {}
  {
  }

  /** A bucket no change names and the ceiling covers is stored as it is now. */
  lemma CleanBucketIsCurrent(def: Definition, facts: GoodLog, dims: GoodLog, v: View, b: i64)
    requires Inv(def, facts, dims, v) && Attainable(b, def.divide)
    requires !DirtyBucket(def, facts, dims, v, b) && !OpenBucket(def, v.ceiling, b)
    ensures RowsAt(v.table, b) == RowsAt(def.Current(facts, dims), b)
  {
    AtExtends(facts, facts.durable);
    AtExtends(dims, dims.durable);
    if DirtyBucket(def, Kept(facts), Kept(dims), v, b) {
      var k: i64 :| BucketOf(k, def.divide) == b && DirtyKey(def.kind, Kept(facts), Kept(dims), v, k);
      DirtyKeyMonotone(def.kind, Kept(facts), Kept(dims), facts, dims, v, k);
    }
    assert Claimed(def, facts, dims, v, b);
    UntouchedIsFrozen(def, facts, dims, v, b);
  }
}
