/** The life of a partials view: unsized until the first refresh that sees data,
    its hidden width recorded before anything is folded under it, and exact at
    every point of every run, crashes included. */
module Sizing {
  import opened Keys
  import opened Ranges
  import opened Log
  import opened Joins
  import opened Engine
  import opened Refresh
  import opened Runs
  import opened Aggregates
  import opened Running

  const TARGET_BUCKETS := 1024

  /** The observed span over the target bucket count, rounded up. */
  function WidthFor(low: i64, high: i64): (w: Width)
    requires low <= high
    ensures high - low + 1 <= w * TARGET_BUCKETS
    ensures w > 1 ==> (w - 1) * TARGET_BUCKETS < high - low + 1
  {
    (high - low + 1 + TARGET_BUCKETS - 1) / TARGET_BUCKETS
  }

  /** The chosen width keeps the observed data within the target, give or take
      the one bucket an unaligned span spills into. */
  lemma WidthMeetsTarget(low: i64, high: i64)
    requires low <= high
    ensures BucketOf(high, WidthFor(low, high)) - BucketOf(low, WidthFor(low, high)) <= TARGET_BUCKETS
  {
    var w := WidthFor(low, high);
    var i, j := BucketOf(low, w), BucketOf(high, w);
    if j - i > TARGET_BUCKETS {
      MulMono(i + TARGET_BUCKETS + 1, j, w);
    }
  }

  /** 1024 keys still fit width 1; one more asks for width 2. */
  lemma WidthSteps(low: i64)
    requires low + 1024 <= MAX
    ensures WidthFor(low, low + 1023) == 1 && WidthFor(low, low + 1024) == 2
  {
  }

  /** `width == 0` is "not yet chosen"; `unsized` are the stamps of the records
      written while it was not. */
  datatype PartialsView = PartialsView(width: nat, unsized: set<nat>, s: State)

  /** Besides what any view meets, power may fail before the record that first
      carries the width is safe, and an unsized record come back over whatever rows
      were stored under the width.  (Publishing a segment of the view's table syncs
      the directory that record was renamed into, so in practice those are rows the
      table's own log brings back.) */
  datatype SizedEvent = Ordinary(e: Event) | CrashLosingWidth(keptFacts: nat, stamp: nat)

  function ChosenWidth(facts: GoodLog): Width
    requires facts.Live() != {}
  {
    WidthFor(LeastKey(facts.Live()), Frontier(facts.Live()).value)
  }

  /** Whichever rows are earliest and latest decide the width. */
  lemma ChosenWidthFits(facts: GoodLog, early: Row, late: Row)
    requires early in facts.Live() && late in facts.Live()
    requires forall r :: r in facts.Live() ==> early.okey <= r.okey <= late.okey
    ensures ChosenWidth(facts) == WidthFor(early.okey, late.okey)
  {
    var low, high := LeastKey(facts.Live()), Frontier(facts.Live()).value;
    var r :| r in facts.Live() && r.okey == low;
    var r' :| r' in facts.Live() && r'.okey == high;
  }

  ghost function UnsizedStep(t: Totals, p: PartialsView, e: Event): PartialsView {
    match e
    case OnFacts(m) => p.(s := p.s.(facts := Mutate(p.s.facts, m)))
    case OnDims(_) => p
    case DoRefresh =>
      var f := Flushed(p.s.facts);
      if f.Live() == {}
      then PartialsView(0, p.unsized + {f.next}, p.s.(facts := f, view := p.s.view.(factStamp := f.next)))
      else PartialsView(ChosenWidth(f), p.unsized, Step(t.Materialized(ChosenWidth(f)), p.s.(facts := f), e))
    case CrashInRefresh(_) =>
      var f := Flushed(p.s.facts);
      if f.Live() == {} then p.(s := p.s.(facts := f))
      else PartialsView(ChosenWidth(f), p.unsized, Step(t.Materialized(ChosenWidth(f)), p.s.(facts := f), e))
    case Crash(kf, _) => p.(s := p.s.(facts := Survivor(p.s.facts, kf)))
    case CrashLosingRecords(kf, _, _) => p.(s := p.s.(facts := Survivor(p.s.facts, kf)))
  }

  ghost function SizedStep(t: Totals, p: PartialsView, e: SizedEvent): PartialsView {
    match e
    case Ordinary(o) =>
      if 1 <= p.width <= MAX then p.(s := Step(t.Materialized(p.width), p.s, o)) else UnsizedStep(t, p, o)
    case CrashLosingWidth(kf, stamp) =>
      if stamp in p.unsized
      then PartialsView(0, p.unsized,
                        State(Survivor(p.s.facts, kf), EMPTY, View(stamp, 0, MIN, p.s.view.table), []))
      else p
  }

  ghost function SizedRun(t: Totals, es: seq<SizedEvent>): PartialsView {
    if es == [] then PartialsView(0, {0}, START) else SizedStep(t, SizedRun(t, es[..|es| - 1]), es[|es| - 1])
  }

  /** A refresh that sees no row folds nothing and still moves the stamp to the
      watermark; that record too may come back. */
  lemma EmptyRefreshStamps(t: Totals, p: PartialsView)
    requires p.width == 0 && Flushed(p.s.facts).Live() == {}
    ensures var u := SizedStep(t, p, Ordinary(DoRefresh));
            && u.width == 0 && u.s.view.table == p.s.view.table
            && u.s.view.factStamp == u.s.facts.next == p.s.facts.next && u.s.facts.durable == u.s.facts.next
            && SizedStep(t, u, CrashLosingWidth(0, p.s.facts.next)).s.view.factStamp == p.s.facts.next
  {
  }

  /** Every stored row lies in a bucket, of width `width`, that a change since the
      stamp names. */
  ghost predicate AllNamed(t: Totals, width: Width, s: State) {
    forall r :: r in s.view.table ==> DirtyBucket(t.Materialized(width), s.facts, s.dims, s.view, r.bucket)
  }

  /** A refresh about to choose a width finds no row it would overlook. */
  ghost predicate SizedSheltered(t: Totals, p: PartialsView, e: SizedEvent) {
    p.width == 0 && e.Ordinary? && (e.e.DoRefresh? || e.e.CrashInRefresh?) ==>
      var f := Flushed(p.s.facts);
      f.Live() != {} ==> AllNamed(t, ChosenWidth(f), p.s.(facts := f))
  }

  ghost predicate SizedShelteredRun(t: Totals, es: seq<SizedEvent>) {
    es == [] || (SizedShelteredRun(t, es[..|es| - 1])
                 && SizedSheltered(t, SizedRun(t, es[..|es| - 1]), es[|es| - 1]))
  }

  ghost predicate NothingLiveAt(l: GoodLog, stamp: nat) {
    stamp <= l.durable && Past(l, stamp).Live() == {}
  }

  ghost predicate UnsizedStampsHold(l: GoodLog, stamps: set<nat>) {
    forall stamp :: stamp in stamps ==> NothingLiveAt(l, stamp)
  }

  /** Nothing was live at any stamp before sizing. */
  ghost predicate WidthInv(p: PartialsView) {
    && p.width <= MAX
    && UnsizedStampsHold(p.s.facts, p.unsized)
    && (p.width == 0 ==> Unsized(p.s))
  }

  ghost predicate Unsized(s: State) {
    s.olds == [] && s.dims == EMPTY && s.view.dimStamp == 0 && NothingLiveAt(s.facts, s.view.factStamp)
  }

  ghost predicate SizedInv(t: Totals, p: PartialsView) {
    WidthInv(p) && (p.width > 0 ==> StateInv(t.Materialized(p.width), p.s))
  }

  lemma NothingLiveMoves(l: GoodLog, l': GoodLog, stamp: nat)
    requires NothingLiveAt(l, stamp) && KeepsDurable(l, l')
    ensures NothingLiveAt(l', stamp)
  {
    SamePast(l, l', stamp);
  }

  lemma UnsizedStampsMove(l: GoodLog, l': GoodLog, stamps: set<nat>)
    requires UnsizedStampsHold(l, stamps) && KeepsDurable(l, l')
    ensures UnsizedStampsHold(l', stamps)
  {
    forall stamp | stamp in stamps ensures NothingLiveAt(l', stamp) { NothingLiveMoves(l, l', stamp); }
  }

  lemma UnsizedMoves(p: PartialsView, f: GoodLog)
    requires Unsized(p.s) && UnsizedStampsHold(p.s.facts, p.unsized) && KeepsDurable(p.s.facts, f)
    ensures Unsized(p.s.(facts := f)) && UnsizedStampsHold(f, p.unsized)
  {
    UnsizedStampsMove(p.s.facts, f, p.unsized);
    NothingLiveMoves(p.s.facts, f, p.s.view.factStamp);
  }

  lemma SizedStepKeepsWidth(t: Totals, p: PartialsView, e: SizedEvent)
    requires WidthInv(p)
    ensures WidthInv(SizedStep(t, p, e))
  {
    match e {
      case Ordinary(o) =>
        if p.width > 0 {
          StepKeepsSources(t.Materialized(p.width), p.s, o);
          UnsizedStampsMove(p.s.facts, Step(t.Materialized(p.width), p.s, o).facts, p.unsized);
        } else {
          UnsizedStepKeepsWidth(t, p, o);
        }
      case CrashLosingWidth(kf, stamp) =>
        SurvivorKeeps(p.s.facts, kf);
        UnsizedStampsMove(p.s.facts, Survivor(p.s.facts, kf), p.unsized);
    }
  }

  lemma UnsizedStepKeepsWidth(t: Totals, p: PartialsView, e: Event)
    requires WidthInv(p) && p.width == 0
    ensures WidthInv(UnsizedStep(t, p, e))
  {
    match e {
      case OnFacts(m) => MutateKeeps(p.s.facts, m); UnsizedMoves(p, Mutate(p.s.facts, m));
      case OnDims(_) =>
      case DoRefresh => ChoosingKeepsWidth(t, p, e);
      case CrashInRefresh(_) => ChoosingKeepsWidth(t, p, e);
      case Crash(kf, _) => SurvivorKeeps(p.s.facts, kf); UnsizedMoves(p, Survivor(p.s.facts, kf));
      case CrashLosingRecords(kf, _, _) => SurvivorKeeps(p.s.facts, kf); UnsizedMoves(p, Survivor(p.s.facts, kf));
    }
  }

  lemma ChosenKeepsWidth(t: Totals, p: PartialsView, f: GoodLog, e: Event)
    requires WidthInv(p) && p.width == 0 && p.s.facts == f && f.Live() != {} && (e.DoRefresh? || e.CrashInRefresh?)
    requires f.durable == f.next
    ensures WidthInv(PartialsView(ChosenWidth(f), p.unsized, Step(t.Materialized(ChosenWidth(f)), p.s, e)))
  {
    var def := t.Materialized(ChosenWidth(f));
    StepKeepsSources(def, p.s, e);
    UnsizedStampsMove(f, Step(def, p.s, e).facts, p.unsized);
  }

  lemma ChoosingKeepsWidth(t: Totals, p: PartialsView, e: Event)
    requires WidthInv(p) && p.width == 0 && (e.DoRefresh? || e.CrashInRefresh?)
    ensures WidthInv(UnsizedStep(t, p, e))
  {
    var f := Flushed(p.s.facts);
    MutateKeeps(p.s.facts, Flush);
    UnsizedMoves(p, f);
    if f.Live() == {} {
      assert Past(f, f.next).Live() == f.Live();
    } else {
      ChosenKeepsWidth(t, p.(s := p.s.(facts := f)), f, e);
    }
  }

  /** Every row live now came after a stamp nothing was live at. */
  lemma LiveIsTouched(def: Definition, s: State, r: Row)
    requires NothingLiveAt(s.facts, s.view.factStamp) && r in s.facts.Live()
    ensures DirtyBucket(def, s.facts, s.dims, s.view, BucketOf(r.okey, def.divide))
  {
    assert r !in Past(s.facts, s.view.factStamp).Live();
    assert r in s.facts.Touched(s.view.factStamp);
    assert DirtyKey(def.kind, s.facts, s.dims, s.view, r.okey);
  }

  /** Over a stamp nothing was live at, rows that are all named fit every width. */
  lemma UnsizedFitsWidth(t: Totals, s: State, width: Width)
    requires Unsized(s) && s.facts.durable == s.facts.next && AllNamed(t, width, s)
    ensures StateInv(t.Materialized(width), s)
  {
    var def := t.Materialized(width);
    var past := JoinRows(NoJoin, true, Past(s.facts, s.view.factStamp).Live(), Past(s.dims, 0).Live());
    assert past == {} && def.Answer(past) == {};
    forall b: i64 | Claimed(def, s.facts, s.dims, s.view, b) ensures RowsAt(s.view.table, b) == {} {
      ClaimedIsClean(def, s.facts, s.dims, s.view, {}, b);
    }
  }

  lemma SizedStepKeeps(t: Totals, p: PartialsView, e: SizedEvent)
    requires SizedInv(t, p) && SizedSheltered(t, p, e)
    ensures SizedInv(t, SizedStep(t, p, e))
  {
    SizedStepKeepsWidth(t, p, e);
    if e.Ordinary? {
      if p.width > 0 {
        StepKeepsInv(t.Materialized(p.width), p.s, e.e);
      } else if (e.e.DoRefresh? || e.e.CrashInRefresh?) && Flushed(p.s.facts).Live() != {} {
        SizingStep(t, p, e.e);
      }
    }
  }

  lemma SizingStep(t: Totals, p: PartialsView, e: Event)
    requires SizedInv(t, p) && p.width == 0 && (e.DoRefresh? || e.CrashInRefresh?)
    requires SizedSheltered(t, p, Ordinary(e)) && Flushed(p.s.facts).Live() != {}
    ensures StateInv(t.Materialized(ChosenWidth(Flushed(p.s.facts))), UnsizedStep(t, p, e).s)
  {
    var f := Flushed(p.s.facts);
    MutateKeeps(p.s.facts, Flush);
    UnsizedMoves(p, f);
    UnsizedFitsWidth(t, p.s.(facts := f), ChosenWidth(f));
    StepKeepsInv(t.Materialized(ChosenWidth(f)), p.s.(facts := f), e);
  }

  lemma {:induction false} SizedRunKeeps(t: Totals, es: seq<SizedEvent>)
    requires SizedShelteredRun(t, es)
    ensures SizedInv(t, SizedRun(t, es))
  {
    if es == [] {
      assert Past(EMPTY, 0).Live() == {};
    } else {
      SizedRunKeeps(t, es[..|es| - 1]);
      SizedStepKeeps(t, SizedRun(t, es[..|es| - 1]), es[|es| - 1]);
    }
  }

  lemma {:induction false} WidthRunKeeps(t: Totals, es: seq<SizedEvent>)
    ensures WidthInv(SizedRun(t, es))
  {
    if es == [] {
      assert Past(EMPTY, 0).Live() == {};
    } else {
      WidthRunKeeps(t, es[..|es| - 1]);
      SizedStepKeepsWidth(t, SizedRun(t, es[..|es| - 1]), es[|es| - 1]);
    }
  }

  /** The partials union: stored partials outside the dirty runs, a live fold
      inside them. */
  ghost function PartialsUnion(t: Totals, p: PartialsView, runs: seq<Range>): set<ViewRow>
    requires 1 <= p.width <= MAX
  {
    var def := t.Materialized(p.width);
    def.Clean(p.s.view.table, runs) + def.Restricted(p.s.facts, p.s.dims, runs)
  }

  /** A single-source answer does not read the placeholder dimension. */
  lemma DimsDoNotMatter(def: Definition, facts: GoodLog, dims: GoodLog)
    requires def.kind.NoJoin?
    ensures def.Current(facts, dims) == def.Current(facts, EMPTY)
  {
    assert JoinRows(def.kind, def.left, facts.Live(), dims.Live())
        == JoinRows(def.kind, def.left, facts.Live(), EMPTY.Live());
  }

  lemma PartialsUnionIsComplete(t: Totals, es: seq<SizedEvent>, runs: seq<Range>)
    requires SizedShelteredRun(t, es) && 1 <= SizedRun(t, es).width <= MAX
    requires var p := SizedRun(t, es); LiveRuns(t.Materialized(p.width), p.s.facts, p.s.dims, p.s.view, runs)
    ensures var p := SizedRun(t, es);
            PartialsUnion(t, p, runs) == t.Materialized(p.width).Current(p.s.facts, EMPTY)
  {
    SizedRunKeeps(t, es);
    var p := SizedRun(t, es);
    var def := t.Materialized(p.width);
    UnionReadIsExact(def, p.s.facts, p.s.dims, p.s.view, runs);
    DimsDoNotMatter(def, p.s.facts, p.s.dims);
  }

  /** A running view's read, after any run, crashes included: combining the
      partials union and finalizing is the definition over current rows.  (An
      unsized view runs the definition itself.) */
  lemma EveryRunningReadIsExact(t: Totals, es: seq<SizedEvent>, runs: seq<Range>)
    requires t.Valid() && SizedShelteredRun(t, es) && 1 <= SizedRun(t, es).width <= MAX
    requires var p := SizedRun(t, es); LiveRuns(t.Materialized(p.width), p.s.facts, p.s.dims, p.s.view, runs)
    ensures var p := SizedRun(t, es); t.Read(PartialsUnion(t, p, runs)) == t.Answers(p.s.facts.Live())
  {
    PartialsUnionIsComplete(t, es, runs);
    var p := SizedRun(t, es);
    ReadIsAnswers(t, p.s.facts, p.width);
  }

  /** What the running read says of a group, told from its rows: LAST is its latest
      row's value, FIRST its earliest row's. */
  lemma PlacesAreRead(t: Totals, es: seq<SizedEvent>, runs: seq<Range>, r: Row, i: nat, v: Cell, cells: seq<Cell>)
    requires t.Valid() && SizedShelteredRun(t, es) && 1 <= SizedRun(t, es).width <= MAX
    requires var p := SizedRun(t, es); LiveRuns(t.Materialized(p.width), p.s.facts, p.s.dims, p.s.view, runs)
    requires r in SizedRun(t, es).s.facts.Live() && t.accept(r)
    requires i < |t.items| && Shows(r, t.items[i].argument, v) && v.Some?
    requires (t.keys(r), cells) in t.Read(PartialsUnion(t, SizedRun(t, es), runs))
    ensures i < |cells|
    ensures t.items[i].kind.Last?
            && (forall x :: x in SizedRun(t, es).s.facts.Live() && t.accept(x) && t.keys(x) == t.keys(r) ==>
                  x == r || x.okey < r.okey || (x.okey == r.okey && x.id < r.id))
        ==> cells[i] == v
    ensures t.items[i].kind.First?
            && (forall x :: x in SizedRun(t, es).s.facts.Live() && t.accept(x) && t.keys(x) == t.keys(r) ==>
                  x == r || r.okey < x.okey || (x.okey == r.okey && r.id < x.id))
        ==> cells[i] == v
  {
    EveryRunningReadIsExact(t, es, runs);
    PlacesAreAnswered(t, SizedRun(t, es).s.facts.Live(), r, i, v, cells);
  }

  /** A width of 0 only ever means nothing live has been folded since the stamp; a
      chosen width is in range and changes only by being lost with its record. */
  lemma WidthIsChosenOnce(t: Totals, es: seq<SizedEvent>, e: SizedEvent)
    ensures 0 <= SizedRun(t, es).width <= MAX
    ensures SizedRun(t, es).width == 0 ==>
              NothingLiveAt(SizedRun(t, es).s.facts, SizedRun(t, es).s.view.factStamp)
    ensures SizedRun(t, es).width > 0 && SizedRun(t, es + [e]).width != SizedRun(t, es).width ==>
              e.CrashLosingWidth? && SizedRun(t, es + [e]).width == 0
  {
    WidthRunKeeps(t, es);
    assert (es + [e])[..|es + [e]| - 1] == es;
  }

  // --------------------------------------------------- rows that outlive their width

  /** The refresh that chooses a width again leaves exact reads precisely when it
      overlooked no row stored under the lost one. */
  lemma ResizedReads(t: Totals, es: seq<SizedEvent>, runs: seq<Range>)
    requires SizedShelteredRun(t, es) && SizedRun(t, es).width == 0
    requires Flushed(SizedRun(t, es).s.facts).Live() != {}
    requires var u := SizedStep(t, SizedRun(t, es), Ordinary(DoRefresh));
             LiveRuns(t.Materialized(u.width), u.s.facts, u.s.dims, u.s.view, runs)
    ensures var p, u := SizedRun(t, es), SizedStep(t, SizedRun(t, es), Ordinary(DoRefresh));
            PartialsUnion(t, u, runs) == t.Materialized(u.width).Current(u.s.facts, EMPTY)
            <==> AllNamed(t, u.width, p.s.(facts := u.s.facts))
  {
    SizedRunKeeps(t, es);
    ResizedStep(t, SizedRun(t, es), runs);
  }

  lemma ResizedStep(t: Totals, p: PartialsView, runs: seq<Range>)
    requires SizedInv(t, p) && p.width == 0 && Flushed(p.s.facts).Live() != {}
    requires var u := SizedStep(t, p, Ordinary(DoRefresh));
             LiveRuns(t.Materialized(u.width), u.s.facts, u.s.dims, u.s.view, runs)
    ensures var u := SizedStep(t, p, Ordinary(DoRefresh));
            PartialsUnion(t, u, runs) == t.Materialized(u.width).Current(u.s.facts, EMPTY)
            <==> AllNamed(t, u.width, p.s.(facts := u.s.facts))
  {
    var u := SizedStep(t, p, Ordinary(DoRefresh));
    FlushTwice(p.s.facts);
    if AllNamed(t, u.width, p.s.(facts := u.s.facts)) {
      SizedStepKeeps(t, p, Ordinary(DoRefresh));
      UnionReadIsExact(t.Materialized(u.width), u.s.facts, u.s.dims, u.s.view, runs);
      DimsDoNotMatter(t.Materialized(u.width), u.s.facts, u.s.dims);
    } else {
      StrayStays(t, p, runs);
    }
  }

  lemma StrayStays(t: Totals, p: PartialsView, runs: seq<Range>)
    requires SizedInv(t, p) && p.width == 0 && Flushed(p.s.facts).Live() != {}
    requires var u := SizedStep(t, p, Ordinary(DoRefresh));
             LiveRuns(t.Materialized(u.width), u.s.facts, u.s.dims, u.s.view, runs)
    requires !AllNamed(t, ChosenWidth(Flushed(p.s.facts)), p.s.(facts := Flushed(p.s.facts)))
    ensures var u := SizedStep(t, p, Ordinary(DoRefresh));
            PartialsUnion(t, u, runs) != t.Materialized(u.width).Current(u.s.facts, EMPTY)
  {
    var u := SizedStep(t, p, Ordinary(DoRefresh));
    var s := p.s.(facts := Flushed(p.s.facts));
    FlushTwice(p.s.facts);
    MutateKeeps(p.s.facts, Flush);
    UnsizedMoves(p, s.facts);
    var r :| r in s.view.table && !DirtyBucket(t.Materialized(u.width), s.facts, s.dims, s.view, r.bucket);
    StrayIsRead(t, s, u, runs, r);
  }

  /** A row in no named bucket stays in the union, where nothing is due. */
  lemma StrayIsRead(t: Totals, s: State, u: PartialsView, runs: seq<Range>, r: ViewRow)
    requires 1 <= u.width <= MAX && Unsized(s) && s.facts.durable == s.facts.next
    requires u.s.facts == s.facts && u.s.view == Refreshed(t.Materialized(u.width), s.facts, u.s.dims, s.view)
    requires LiveRuns(t.Materialized(u.width), u.s.facts, u.s.dims, u.s.view, runs)
    requires r in s.view.table && !DirtyBucket(t.Materialized(u.width), s.facts, s.dims, s.view, r.bucket)
    ensures r in PartialsUnion(t, u, runs) && r !in t.Materialized(u.width).Current(s.facts, EMPTY)
  {
    var def := t.Materialized(u.width);
    if r in def.Current(s.facts, EMPTY) {
      var j :| j in JoinRows(NoJoin, true, s.facts.Live(), EMPTY.Live()) && def.accept(j) && def.Bucket(j) == r.bucket;
      LiveIsTouched(def, s, j.fact);
    }
    assert !DirtyBucket(def, s.facts, u.s.dims, s.view, r.bucket);
    assert r in u.s.view.table;
    NothingIsLive(def, u.s.facts, u.s.dims, u.s.view, runs, r.bucket);
  }

  /** Over a fresh stamp a single-source read serves nothing live. */
  lemma NothingIsLive(def: Definition, facts: GoodLog, dims: GoodLog, v: View, runs: seq<Range>, b: i64)
    requires def.kind.NoJoin? && v.factStamp == facts.next
    requires LiveRuns(def, facts, dims, v, runs)
    ensures !ViewHit(runs, b, 1)
  {
    forall i | 0 <= i < |runs| ensures runs[i].lo > runs[i].hi {
      FreshIsClean(def, facts, dims, v, runs[i].lo);
      assert !Covers(runs, runs[i].lo);
    }
    InvertedRunsHitNothing(runs, b);
  }

  lemma InvertedRunsHitNothing(runs: seq<Range>, b: i64)
    requires forall i :: 0 <= i < |runs| ==> runs[i].lo > runs[i].hi
    ensures !ViewHit(runs, b, 1)
  {
    forall i | 0 <= i < |runs|
      ensures SaturatingMul(runs[i].lo, 1) == runs[i].lo && SaturatingMul(runs[i].hi, 1) == runs[i].hi
    {
    }
  }

  lemma FreshIsClean(def: Definition, facts: GoodLog, dims: GoodLog, v: View, b: i64)
    requires def.kind.NoJoin? && v.factStamp == facts.next
    ensures !DirtyBucket(def, facts, dims, v, b) && !OpenBucket(def, v.ceiling, b)
  {
    assert facts.Touched(facts.next) == {};
  }

  /** Two rows, folded under width 1; the width is lost with both stored rows still
      there; then a far row asks for width 2, under which nothing names label 5. */
  const NEAR := Entry(0, None, [])
  const MIDDLE := Entry(5, None, [])
  const FAR := Entry(2000, None, [])
  const NEAR_ROW := Row(0, 0, 0, None, [])
  const MIDDLE_ROW := Row(1, 1, 5, None, [])
  const FAR_ROW := Row(2, 2, 2000, None, [])
  const PAIR := EMPTY.Append(NEAR).Append(MIDDLE)
  const THREE := PAIR.Flush().Append(FAR)

  const FIRST: seq<SizedEvent> := [Ordinary(OnFacts(Insert(NEAR)))] + [Ordinary(OnFacts(Insert(MIDDLE)))]
  const FOLDED: seq<SizedEvent> := FIRST + [Ordinary(DoRefresh)]
  const STRAY: seq<SizedEvent> := FOLDED + [CrashLosingWidth(0, 0)] + [Ordinary(OnFacts(Insert(FAR)))]

  lemma SizedSnoc(t: Totals, es: seq<SizedEvent>, e: SizedEvent)
    ensures SizedRun(t, es + [e]) == SizedStep(t, SizedRun(t, es), e)
    ensures SizedShelteredRun(t, es + [e]) <==> SizedShelteredRun(t, es) && SizedSheltered(t, SizedRun(t, es), e)
  {
    assert (es + [e])[..|es + [e]| - 1] == es;
  }

  lemma PairIsGood()
    ensures PAIR.Valid() && THREE.Valid()
    ensures PAIR.rows == {NEAR_ROW, MIDDLE_ROW} == PAIR.Live() && PAIR.kills == map[] && PAIR.next == 2
    ensures THREE.rows == {NEAR_ROW, MIDDLE_ROW, FAR_ROW} == THREE.Live() && THREE.kills == map[]
  {
    AppendValid(EMPTY, NEAR);
    AppendValid(EMPTY.Append(NEAR), MIDDLE);
    AppendValid(PAIR.Flush(), FAR);
  }

  lemma FirstRun(t: Totals)
    ensures PAIR.Valid() && SizedShelteredRun(t, FIRST)
    ensures SizedRun(t, FIRST) == PartialsView(0, {0}, State(PAIR, EMPTY, FRESH, []))
  {
    PairIsGood();
    SizedSnoc(t, [], Ordinary(OnFacts(Insert(NEAR))));
    assert [] + [Ordinary(OnFacts(Insert(NEAR)))] == [Ordinary(OnFacts(Insert(NEAR)))];
    SizedSnoc(t, [Ordinary(OnFacts(Insert(NEAR)))], Ordinary(OnFacts(Insert(MIDDLE))));
  }

  lemma WidthOf(facts: GoodLog, high: i64)
    requires facts.Live() != {} && high >= 0
    requires NEAR_ROW in facts.Live() && forall r :: r in facts.Live() ==> 0 <= r.okey <= high
    requires exists r :: r in facts.Live() && r.okey == high
    ensures ChosenWidth(facts) == WidthFor(0, high)
  {
    assert LeastKey(facts.Live()) == 0;
    assert Frontier(facts.Live()).value == high;
  }

  lemma WidthOne()
    ensures PAIR.Valid() && Flushed(PAIR).Live() == {NEAR_ROW, MIDDLE_ROW} && ChosenWidth(Flushed(PAIR)) == 1
  {
    PairIsGood();
    assert Flushed(PAIR).Live() == {NEAR_ROW, MIDDLE_ROW};
    WidthOf(Flushed(PAIR), 5);
  }

  lemma WidthTwo()
    ensures THREE.Valid() && Flushed(THREE).Live() == {NEAR_ROW, MIDDLE_ROW, FAR_ROW}
    ensures ChosenWidth(Flushed(THREE)) == 2
  {
    PairIsGood();
    assert Flushed(THREE).Live() == {NEAR_ROW, MIDDLE_ROW, FAR_ROW};
    WidthOf(Flushed(THREE), 2000);
  }

  /** A refresh stores a partial row for every accepted row's group and bucket. */
  lemma RowIsFolded(t: Totals, width: Width, s: State, x: Row) returns (r: ViewRow)
    requires StateInv(t.Materialized(width), s) && t.accept(x) && x in Flushed(s.facts).Live()
    ensures r in Step(t.Materialized(width), s, DoRefresh).view.table && r.bucket == BucketOf(x.okey, width)
  {
    var def := t.Materialized(width);
    var u := Step(def, s, DoRefresh);
    RefreshStepCompletes(def, s);
    CompleteSingleIsCurrent(def, u.facts, u.dims, u.view);
    r := RowIsDue(t, width, u.facts, u.dims, x);
  }

  lemma RowIsDue(t: Totals, width: Width, f: GoodLog, d: GoodLog, x: Row) returns (r: ViewRow)
    requires t.accept(x) && x in f.Live()
    ensures r in t.Materialized(width).Current(f, d) && r.bucket == BucketOf(x.okey, width)
  {
    var def := t.Materialized(width);
    var all := JoinRows(NoJoin, true, f.Live(), d.Live());
    var j := Joined(x, None);
    assert j in all;
    r := ViewRow(def.Bucket(j), def.tag(j), def.fold(def.Group(all, j)));
    assert r in def.Answer(all);
  }

  /** The first refresh stores the middle row's partials under label 5. */
  lemma FoldedStep(t: Totals, p: PartialsView) returns (r: ViewRow)
    requires forall x :: t.accept(x)
    requires PAIR.Valid() && p == PartialsView(0, {0}, State(PAIR, EMPTY, FRESH, [])) && SizedInv(t, p)
    ensures SizedSheltered(t, p, Ordinary(DoRefresh))
    ensures var u := SizedStep(t, p, Ordinary(DoRefresh));
            && u.width == 1 && u.unsized == {0} && u.s.facts == Flushed(PAIR)
            && r in u.s.view.table && r.bucket == 5
  {
    WidthOne();
    FlushTwice(PAIR);
    MutateKeeps(PAIR, Flush);
    UnsizedMoves(p, Flushed(PAIR));
    var s := p.s.(facts := Flushed(PAIR));
    UnsizedFitsWidth(t, s, 1);
    BucketOfMultiple(5, 1);
    r := RowIsFolded(t, 1, s, MIDDLE_ROW);
  }

  /** The far row's width 2 leaves label 5 unnamed. */
  lemma FiveIsUnnamed(t: Totals, s: State)
    requires THREE.Valid() && s.facts == Flushed(THREE) && s.view.factStamp == 0
    ensures !DirtyBucket(t.Materialized(2), s.facts, s.dims, s.view, 5)
  {
    PairIsGood();
    forall k: i64 | BucketOf(k, 2) == 5 ensures !DirtyKey(NoJoin, s.facts, s.dims, s.view, k) {
      assert k != 0 && k != 5 && k != 2000;
    }
  }

  lemma FoldedRun(t: Totals) returns (r: ViewRow)
    requires forall x :: t.accept(x)
    ensures PAIR.Valid() && SizedShelteredRun(t, FOLDED)
    ensures SizedRun(t, FOLDED).width == 1 && SizedRun(t, FOLDED).unsized == {0}
    ensures SizedRun(t, FOLDED).s.facts == Flushed(PAIR)
    ensures r in SizedRun(t, FOLDED).s.view.table && r.bucket == 5
  {
    FirstRun(t);
    SizedRunKeeps(t, FIRST);
    SizedSnoc(t, FIRST, Ordinary(DoRefresh));
    r := FoldedStep(t, SizedRun(t, FIRST));
  }

  /** The width is lost, its row is not, and the far row arrives. */
  lemma StrayStep(t: Totals, p: PartialsView, r: ViewRow)
    requires PAIR.Valid() && p.width == 1 && p.unsized == {0} && p.s.facts == Flushed(PAIR)
    requires r in p.s.view.table
    ensures var lost := SizedStep(t, p, CrashLosingWidth(0, 0));
            var u := SizedStep(t, lost, Ordinary(OnFacts(Insert(FAR))));
            && SizedSheltered(t, p, CrashLosingWidth(0, 0))
            && SizedSheltered(t, lost, Ordinary(OnFacts(Insert(FAR))))
            && u.width == 0 && u.s.facts == THREE && u.s.view.factStamp == 0 && r in u.s.view.table
  {
    PairIsGood();
  }

  lemma StrayRun(t: Totals) returns (r: ViewRow)
    requires forall x :: t.accept(x)
    ensures THREE.Valid() && SizedShelteredRun(t, STRAY)
    ensures SizedRun(t, STRAY).width == 0 && SizedRun(t, STRAY).s.facts == THREE
    ensures SizedRun(t, STRAY).s.view.factStamp == 0
    ensures r in SizedRun(t, STRAY).s.view.table && r.bucket == 5
  {
    r := FoldedRun(t);
    PairIsGood();
    StrayStep(t, SizedRun(t, FOLDED), r);
    SizedSnoc(t, FOLDED, CrashLosingWidth(0, 0));
    SizedSnoc(t, FOLDED + [CrashLosingWidth(0, 0)], Ordinary(OnFacts(Insert(FAR))));
  }

  lemma StrayIsMisread(t: Totals, p: PartialsView, runs: seq<Range>, r: ViewRow)
    requires SizedInv(t, p) && THREE.Valid() && p.width == 0 && p.s.facts == THREE && p.s.view.factStamp == 0
    requires r in p.s.view.table && r.bucket == 5
    ensures var u := SizedStep(t, p, Ordinary(DoRefresh));
            u.width == 2 && (LiveRuns(t.Materialized(2), u.s.facts, u.s.dims, u.s.view, runs) ==>
                               PartialsUnion(t, u, runs) != t.Materialized(2).Current(u.s.facts, EMPTY))
  {
    WidthTwo();
    FlushTwice(THREE);
    FiveIsUnnamed(t, p.s.(facts := Flushed(THREE)));
    var u := SizedStep(t, p, Ordinary(DoRefresh));
    if LiveRuns(t.Materialized(2), u.s.facts, u.s.dims, u.s.view, runs) { ResizedStep(t, p, runs); }
  }

  /** The shelter is needed: after that run the refresh chooses width 2, and every
      read holds a partial row of no current bucket. */
  lemma LostWidthKeepsAStray(t: Totals, runs: seq<Range>)
    requires forall x :: t.accept(x)
    ensures SizedShelteredRun(t, STRAY)
    ensures var u := SizedStep(t, SizedRun(t, STRAY), Ordinary(DoRefresh));
            u.width == 2 && (LiveRuns(t.Materialized(2), u.s.facts, u.s.dims, u.s.view, runs) ==>
                               PartialsUnion(t, u, runs) != t.Materialized(2).Current(u.s.facts, EMPTY))
  {
    var r := StrayRun(t);
    SizedRunKeeps(t, STRAY);
    StrayIsMisread(t, SizedRun(t, STRAY), runs, r);
  }
}
