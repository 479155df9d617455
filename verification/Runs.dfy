/** Whole runs of the maintained-view protocol: two sources that are appended
    to, corrected, deleted from and flushed; refreshes; crashes between
    operations, inside a refresh, and ones that lose record writes. */
module Runs {
  import opened Keys
  import opened Ranges
  import opened Log
  import opened Joins
  import opened Engine
  import opened Refresh

  datatype Mutation =
    | Insert(e: Entry)
    | Delete(victims: set<Row>)
    | Replace(es: seq<Entry>, victims: set<Row>)
    | Flush
    | Harden(upTo: nat)

  datatype Event =
    | OnFacts(m: Mutation)
    | OnDims(m: Mutation)
    | DoRefresh
    /** A crash inside a refresh: `found` is the table the reopened view reads. */
    | CrashInRefresh(found: set<ViewRow>)
    /** A crash anywhere else; each source keeps the coordinates below its bound. */
    | Crash(keptFacts: nat, keptDims: nat)
    /** As `Crash`, and the record file falls back to the `age`-th older one. */
    | CrashLosingRecords(keptFacts: nat, keptDims: nat, age: nat)

  /** `olds` are the records a crash could still fall back to, each over the
      table as it is now.  A single-source view's `dims` is a placeholder. */
  datatype State = State(facts: GoodLog, dims: GoodLog, view: View, olds: seq<View>)

  const START := State(EMPTY, EMPTY, FRESH, [])

  function Mutate(l: GoodLog, m: Mutation): (l': GoodLog)
  {
    match m
    case Insert(e) => AppendValid(l, e); l.Append(e)
    case Delete(victims) => TombstoneValid(l, victims); l.Tombstone(victims)
    case Replace(es, victims) => SupersedeValid(l, es, victims); l.Supersede(es, victims)
    case Flush => l.Flush()
    case Harden(upTo) => l.Harden(upTo)
  }

  function Survivor(l: GoodLog, kept: nat): GoodLog {
    if l.durable <= kept <= l.next then Past(l, kept) else l
  }

  function Flushed(l: GoodLog): GoodLog { Mutate(l, Flush) }

  function WithTable(v: View, table: set<ViewRow>): View { v.(table := table) }

  ghost function Step(def: Definition, s: State, e: Event): State {
    match e
    case OnFacts(m) => s.(facts := Mutate(s.facts, m))
    case OnDims(m) => s.(dims := Mutate(s.dims, m))
    case DoRefresh =>
      var f, d := Flushed(s.facts), Flushed(s.dims);
      var v := Refreshed(def, f, d, s.view);
      State(f, d, v, Retabled(s.olds + [s.view], v.table))
    case CrashInRefresh(found) =>
      var f, d := Flushed(s.facts), Flushed(s.dims);
      if Spoiled(def, f, d, s.view, found)
      then State(f, d, WithTable(s.view, found), Retabled(s.olds, found)) else s
    case Crash(kf, kd) =>
      State(Survivor(s.facts, kf), Survivor(s.dims, kd), s.view, s.olds)
    case CrashLosingRecords(kf, kd, age) =>
      if age < |s.olds|
      then State(Survivor(s.facts, kf), Survivor(s.dims, kd), s.olds[age], s.olds[..age])
      else s
  }

  ghost function Retabled(vs: seq<View>, table: set<ViewRow>): seq<View> {
    seq(|vs|, i requires 0 <= i < |vs| => WithTable(vs[i], table))
  }

  ghost function Run(def: Definition, s: State, es: seq<Event>): State {
    if es == [] then s else Step(def, Run(def, s, es[..|es| - 1]), es[|es| - 1])
  }

  /** The ceiling a refresh at `s` sets. */
  function NextCeiling(def: Definition, s: State): i64 {
    AsOfCeiling(Flushed(s.dims).Live(), def.divide)
  }

  /** The one window the protocol leaves open: an as-of refresh that strands stored
      rows is interrupted, or a record comes back that claims rows at or above the
      current ceiling.  A record with no higher ceiling never does. */
  ghost predicate Sheltered(def: Definition, s: State, e: Event) {
    && (e.CrashInRefresh? ==> StrandsNothing(def, Flushed(s.facts), Flushed(s.dims), s.view))
    && (e.CrashLosingRecords? && def.kind.AsOfJoin? && e.age < |s.olds| ==>
          NothingBetween(def, s.facts, s.dims, s.olds[e.age], s.view))
  }

  /** Where no ceiling is lower than before, nothing needs shelter. */
  lemma RisingCeilingsShelter(def: Definition, s: State, e: Event)
    requires def.kind.AsOfJoin? && e.CrashInRefresh? ==> s.view.ceiling <= NextCeiling(def, s)
    requires def.kind.AsOfJoin? && e.CrashLosingRecords? && e.age < |s.olds| ==>
               s.olds[e.age].ceiling <= s.view.ceiling
    ensures Sheltered(def, s, e)
  {
    if def.kind.AsOfJoin? && e.CrashLosingRecords? && e.age < |s.olds| {
      LowerCeilingLeavesNothing(def, s.facts, s.dims, s.olds[e.age], s.view);
    }
  }

  ghost predicate ShelteredRun(def: Definition, s: State, es: seq<Event>) {
    es == [] || (ShelteredRun(def, s, es[..|es| - 1])
                 && Sheltered(def, Run(def, s, es[..|es| - 1]), es[|es| - 1]))
  }

  /** `u`'s stamps are no later than `v`'s; a star view's ceiling is parked at one
      end and never drops. */
  ghost predicate Precedes(def: Definition, u: View, v: View) {
    && u.factStamp <= v.factStamp && u.dimStamp <= v.dimStamp
    && (def.kind.EquiJoin? ==> u.ceiling <= v.ceiling && (u.ceiling == MIN || u.ceiling == MAX))
  }

  /** The records still to fall back to, oldest first, each over the table as it
      is now and none ahead of a later one. */
  ghost predicate Ordered(def: Definition, olds: seq<View>, v: View) {
    forall i :: 0 <= i < |olds| ==>
      && olds[i].table == v.table
      && Precedes(def, olds[i], v)
      && forall j :: 0 <= j < i ==> Precedes(def, olds[j], olds[i])
  }

  ghost predicate StateInv(def: Definition, s: State) {
    Inv(def, s.facts, s.dims, s.view) && Ordered(def, s.olds, s.view)
  }

  // ------------------------------------------------------------ preservation

  lemma MutateKeeps(l: GoodLog, m: Mutation)
    ensures Extends(Kept(l), Mutate(l, m)) && l.durable <= Mutate(l, m).durable
  {
    AtExtends(l, l.durable);
    match m {
      case Insert(e) => StepsExtend(l, e, [], {}); ExtendsTrans(Kept(l), l, Mutate(l, m));
      case Delete(victims) => StepsExtend(l, Entry(0, None, []), [], victims); ExtendsTrans(Kept(l), l, Mutate(l, m));
      case Replace(es, victims) =>
        StepsExtend(l, Entry(0, None, []), es, victims);
        ExtendsTrans(Kept(l), l, Mutate(l, m));
      case Flush =>
      case Harden(upTo) =>
    }
  }

  lemma SurvivorKeeps(l: GoodLog, kept: nat)
    ensures Extends(Kept(l), Survivor(l, kept)) && l.durable <= Survivor(l, kept).durable
  {
    AtExtends(l, l.durable);
  }

  ghost predicate KeepsDurable(l: GoodLog, l': GoodLog) {
    Extends(Kept(l), l') && l.durable <= l'.durable
  }

  lemma SelfExtends(l: GoodLog)
    ensures Extends(Kept(l), l)
  {
    AtExtends(l, l.durable);
  }

  lemma FlushKeepsInv(def: Definition, s: State)
    requires Inv(def, s.facts, s.dims, s.view)
    ensures Inv(def, Flushed(s.facts), Flushed(s.dims), s.view)
  {
    MutateKeeps(s.facts, Flush);
    MutateKeeps(s.dims, Flush);
    InvMoves(def, s.facts, s.dims, Flushed(s.facts), Flushed(s.dims), s.view);
  }

  /** Stamps move forward, and a star view's ceiling up. */
  lemma RefreshAdvances(def: Definition, s: State)
    requires Inv(def, s.facts, s.dims, s.view)
    ensures Precedes(def, s.view, Step(def, s, DoRefresh).view)
  {
    FlushKeepsInv(def, s);
  }

  lemma RefreshKeepsOrder(def: Definition, s: State)
    requires StateInv(def, s)
    ensures Ordered(def, Step(def, s, DoRefresh).olds, Step(def, s, DoRefresh).view)
  {
    RefreshAdvances(def, s);
  }

  lemma RefreshKeepsInv(def: Definition, s: State)
    requires StateInv(def, s)
    ensures StateInv(def, Step(def, s, DoRefresh))
  {
    FlushKeepsInv(def, s);
    RefreshCompletes(def, Flushed(s.facts), Flushed(s.dims), s.view);
    RefreshKeepsOrder(def, s);
  }

  lemma InterruptKeepsInv(def: Definition, s: State, found: set<ViewRow>)
    requires StateInv(def, s) && Sheltered(def, s, CrashInRefresh(found))
    ensures StateInv(def, Step(def, s, CrashInRefresh(found)))
  {
    var f, d := Flushed(s.facts), Flushed(s.dims);
    FlushKeepsInv(def, s);
    if Spoiled(def, f, d, s.view, found) { SpoiledKeepsInv(def, f, d, s.view, found); }
  }

  lemma FallBackKeepsInv(def: Definition, s: State, age: nat)
    requires StateInv(def, s) && age < |s.olds|
    requires def.kind.AsOfJoin? ==> NothingBetween(def, s.facts, s.dims, s.olds[age], s.view)
    ensures Inv(def, s.facts, s.dims, s.olds[age]) && Ordered(def, s.olds[..age], s.olds[age])
  {
    if !def.kind.AsOfJoin? { LowerCeilingLeavesNothing(def, s.facts, s.dims, s.olds[age], s.view); }
    OlderRecordHolds(def, s.facts, s.dims, s.olds[age], s.view);
  }

  lemma StepKeepsInv(def: Definition, s: State, e: Event)
    requires StateInv(def, s) && Sheltered(def, s, e)
    ensures StateInv(def, Step(def, s, e))
  {
    SelfExtends(s.facts);
    SelfExtends(s.dims);
    match e {
      case OnFacts(m) => MutateKeeps(s.facts, m); InvMoves(def, s.facts, s.dims, Mutate(s.facts, m), s.dims, s.view);
      case OnDims(m) => MutateKeeps(s.dims, m); InvMoves(def, s.facts, s.dims, s.facts, Mutate(s.dims, m), s.view);
      case DoRefresh => RefreshKeepsInv(def, s);
      case CrashInRefresh(found) => InterruptKeepsInv(def, s, found);
      case Crash(kf, kd) =>
        SurvivorKeeps(s.facts, kf);
        SurvivorKeeps(s.dims, kd);
        InvMoves(def, s.facts, s.dims, Survivor(s.facts, kf), Survivor(s.dims, kd), s.view);
      case CrashLosingRecords(kf, kd, age) =>
        if age < |s.olds| {
          FallBackKeepsInv(def, s, age);
          SurvivorKeeps(s.facts, kf);
          SurvivorKeeps(s.dims, kd);
          InvMoves(def, s.facts, s.dims, Survivor(s.facts, kf), Survivor(s.dims, kd), s.olds[age]);
        }
    }
  }

  lemma {:induction false} RunKeepsInv(def: Definition, es: seq<Event>)
    requires ShelteredRun(def, START, es)
    ensures StateInv(def, Run(def, START, es))
  {
    if es == [] {
      FreshView(def, EMPTY, EMPTY);
    } else {
      RunKeepsInv(def, es[..|es| - 1]);
      StepKeepsInv(def, Run(def, START, es[..|es| - 1]), es[|es| - 1]);
    }
  }

  // ---------------------------------------------------------- what an event does

  /** What a writer sees of each mutation, whatever coordinates it spends. */
  lemma MutationMeans(l: GoodLog, m: Mutation)
    ensures m.Insert? ==> exists r: Row ::
              && r.okey == m.e.okey && r.sym == m.e.sym && r.cells == m.e.cells
              && (forall x :: x in l.rows ==> x.id < r.id && x.birth < r.birth)
              && Mutate(l, m).Live() == l.Live() + {r}
    ensures m.Delete? ==> Mutate(l, m).Live() == l.Live() - m.victims
    ensures m.Replace? ==>
              forall x :: x in Mutate(l, m).Live() <==>
                (x in l.Live() && x !in m.victims) || exists i :: Replaces(l, m.es, i, x)
    ensures m.Flush? || m.Harden? ==> Mutate(l, m).Live() == l.Live()
    ensures Mutate(l, m).durable == if m.Flush? then l.next
                                    else if m.Harden? && l.durable <= m.upTo <= l.next then m.upTo else l.durable
  {
    match m {
      case Insert(e) =>
        var r := Row(l.arrived, l.next, e.okey, e.sym, e.cells);
        assert Mutate(l, m).Live() == l.Live() + {r};
      case Delete(victims) => assert l.Live() - victims == l.Live() - victims * l.Live();
      case Replace(es, victims) =>
        forall x
          ensures x in Mutate(l, m).Live() <==>
                    (x in l.Live() && x !in victims) || exists i :: Replaces(l, es, i, x)
        {
          ReplacedLive(l, es, victims, x);
        }
      case Flush =>
      case Harden(upTo) =>
    }
  }

  /** Row `x` is the `i`-th replacement, new to the log. */
  predicate Replaces(l: Log, es: seq<Entry>, i: int, x: Row) {
    && 0 <= i < |es| && x.id == l.arrived + i && x.birth == l.next
    && x.okey == es[i].okey && x.sym == es[i].sym && x.cells == es[i].cells
  }

  lemma ReplacedLive(l: GoodLog, es: seq<Entry>, victims: set<Row>, x: Row)
    ensures x in l.Supersede(es, victims).Live()
       <==> (x in l.Live() && x !in victims) || exists i :: Replaces(l, es, i, x)
  {
    if x in Stamped(es, l.arrived, l.next) {
      var i :| 0 <= i < |es| && x == Row(l.arrived + i, l.next, es[i].okey, es[i].sym, es[i].cells);
      assert Replaces(l, es, i, x);
    }
    if i :| Replaces(l, es, i, x) {
      assert x == Row(l.arrived + i, l.next, es[i].okey, es[i].sym, es[i].cells);
      assert x in Stamped(es, l.arrived, l.next);
    }
  }

  /** A crash forgets exactly the coordinates from its bound on, and the view's
      record and rows are as they were. */
  lemma CrashForgets(def: Definition, s: State, kf: nat, kd: nat)
    requires s.facts.durable <= kf <= s.facts.next && s.dims.durable <= kd <= s.dims.next
    ensures var t := Step(def, s, Crash(kf, kd));
            && t.view == s.view && t.olds == s.olds
            && t.facts.next == kf && t.dims.next == kd
            && t.facts.durable == s.facts.durable && t.dims.durable == s.dims.durable
            && (forall cut: nat :: cut < kf ==> t.facts.AsOf(cut) == s.facts.AsOf(cut))
            && (forall cut: nat :: cut < kd ==> t.dims.AsOf(cut) == s.dims.AsOf(cut))
            && t.facts.Live() == (if kf == 0 then {} else s.facts.AsOf(kf - 1))
            && t.dims.Live() == if kd == 0 then {} else s.dims.AsOf(kd - 1)
  {
    PastReads(s.facts, kf);
    PastReads(s.dims, kd);
  }

  /** A refresh flushes both sources and changes neither; power lost during it, from
      the row flush on, leaves the old record over the torn table. */
  lemma InterruptionMeans(def: Definition, s: State, found: set<ViewRow>)
    requires StateInv(def, s)
    requires var after := Step(def, s, DoRefresh).view.table;
             s.view.table * after <= found <= s.view.table + after
    ensures var t := Step(def, s, CrashInRefresh(found));
            && t.view == s.view.(table := found) && |t.olds| == |s.olds|
            && (forall i :: 0 <= i < |s.olds| ==> t.olds[i] == s.olds[i].(table := found))
            && t.facts == Step(def, s, DoRefresh).facts && t.dims == Step(def, s, DoRefresh).dims
    ensures var u := Step(def, s, DoRefresh);
            && u.facts.Live() == s.facts.Live() && u.facts.durable == u.facts.next == s.facts.next
            && u.dims.Live() == s.dims.Live() && u.dims.durable == u.dims.next == s.dims.next
  {
    var f, d := Flushed(s.facts), Flushed(s.dims);
    FlushKeepsInv(def, s);
    TornRefreshIsSpoiled(def, f, d, s.view, found);
  }

  /** A refresh whose record is lost at once gives the record before it, over the new
      rows, and everything that could still be lost before. */
  lemma LossUndoesTheRecord(def: Definition, s: State)
    ensures var u := Step(def, s, DoRefresh);
            var t := Step(def, u, CrashLosingRecords(u.facts.next, u.dims.next, |s.olds|));
            && t.view == s.view.(table := u.view.table) && |t.olds| == |s.olds|
            && (forall i :: 0 <= i < |s.olds| ==> t.olds[i] == s.olds[i].(table := u.view.table))
            && t.facts.next == u.facts.next && t.facts.Live() == u.facts.Live()
            && t.dims.next == u.dims.next && t.dims.Live() == u.dims.Live()
  {
  }

  lemma PastReads(l: GoodLog, kept: nat)
    ensures forall cut: nat :: cut < kept ==> Past(l, kept).AsOf(cut) == l.AsOf(cut)
    ensures Past(l, kept).Live() == if kept == 0 then {} else l.AsOf(kept - 1)
  {
    forall cut: nat | cut < kept ensures Past(l, kept).AsOf(cut) == l.AsOf(cut) {
      forall r ensures r in Past(l, kept).AsOf(cut) <==> r in l.AsOf(cut) {}
    }
    if kept > 0 { AsOfIsPast(l, kept - 1); }
  }

  // -------------------------------------------------------------- main results

  /** After every sheltered run, a read is the definition over the current rows of
      both sources, and its clean and live halves never overlap. */
  lemma EveryReadIsExact(def: Definition, es: seq<Event>, runs: seq<Range>)
    requires def.Valid() && ShelteredRun(def, START, es)
    requires var s := Run(def, START, es); LiveRuns(def, s.facts, s.dims, s.view, runs)
    ensures var s := Run(def, START, es);
            && def.Clean(s.view.table, runs) + def.Restricted(s.facts, s.dims, runs) == def.Current(s.facts, s.dims)
            && def.Clean(s.view.table, runs) !! def.Restricted(s.facts, s.dims, runs)
  {
    RunKeepsInv(def, es);
    var s := Run(def, START, es);
    UnionReadIsExact(def, s.facts, s.dims, s.view, runs);
  }

  /** One refresh from any reachable state stores every bucket below the ceiling
      as it is now. */
  lemma RefreshStepCompletes(def: Definition, s: State)
    requires StateInv(def, s)
    ensures var t := Step(def, s, DoRefresh); Complete(def, t.facts, t.dims, t.view)
  {
    var f, d := Flushed(s.facts), Flushed(s.dims);
    FlushKeepsInv(def, s);
    RefreshCompletes(def, f, d, s.view);
  }

  /** A run that ends in a refresh leaves every bucket below the ceiling stored
      as it is now; for a single source that is the whole answer. */
  lemma RefreshCompletesEveryRun(def: Definition, es: seq<Event>)
    requires ShelteredRun(def, START, es)
    ensures var s := Run(def, START, es + [DoRefresh]);
            && Complete(def, s.facts, s.dims, s.view)
            && (def.kind.NoJoin? ==> s.view.table == def.Current(s.facts, s.dims))
  {
    var all := es + [DoRefresh];
    assert all[..|all| - 1] == es;
    RunKeepsInv(def, es);
    var s := Run(def, START, es);
    RefreshStepCompletes(def, s);
    var t := Step(def, s, DoRefresh);
    if def.kind.NoJoin? { CompleteSingleIsCurrent(def, t.facts, t.dims, t.view); }
  }

  /** Single-source and star views need no shelter: every run is a sheltered one. */
  lemma {:induction false} OnlyAsOfNeedsShelter(def: Definition, es: seq<Event>)
    requires !def.kind.AsOfJoin?
    ensures ShelteredRun(def, START, es)
  {
    if es == [] {
    } else {
      OnlyAsOfNeedsShelter(def, es[..|es| - 1]);
    }
  }

  /** The rebuild floor is unreachable: no run leaves a stamp above its source. */
  lemma StampsNeverLead(def: Definition, es: seq<Event>)
    requires ShelteredRun(def, START, es)
    ensures var s := Run(def, START, es); !Tampered(s.facts, s.dims, s.view, true)
  {
    RunKeepsInv(def, es);
  }

  // ----------------------------------------------- the window shelter excludes

  /** What the sources do on their own: change, sync, crash. */
  predicate SourcesOnly(es: seq<Event>) {
    forall i :: 0 <= i < |es| ==> es[i].OnFacts? || es[i].OnDims? || es[i].Crash?
  }

  /** No crash loses a record or falls inside a refresh. */
  predicate Calm(es: seq<Event>) {
    forall i :: 0 <= i < |es| ==> !es[i].CrashInRefresh? && !es[i].CrashLosingRecords?
  }

  lemma KeepsTrans(a: GoodLog, b: GoodLog, c: GoodLog)
    requires KeepsDurable(a, b) && KeepsDurable(b, c)
    ensures KeepsDurable(a, c)
  {
    KeptExtends(a, b);
    ExtendsTrans(Kept(a), Kept(b), c);
  }

  ghost predicate SourcesKept(s: State, t: State) {
    KeepsDurable(s.facts, t.facts) && KeepsDurable(s.dims, t.dims)
  }

  lemma SourcesKeptTrans(s: State, t: State, u: State)
    requires SourcesKept(s, t) && SourcesKept(t, u)
    ensures SourcesKept(s, u)
  {
    KeepsTrans(s.facts, t.facts, u.facts);
    KeepsTrans(s.dims, t.dims, u.dims);
  }

  lemma SourcesKeptSelf(s: State)
    ensures SourcesKept(s, s)
  {
    SelfExtends(s.facts);
    SelfExtends(s.dims);
  }

  /** Every event leaves the durable prefixes alone. */
  lemma StepKeepsSources(def: Definition, s: State, e: Event)
    ensures SourcesKept(s, Step(def, s, e))
  {
    SourcesKeptSelf(s);
    match e {
      case OnFacts(m) => MutateKeeps(s.facts, m);
      case OnDims(m) => MutateKeeps(s.dims, m);
      case DoRefresh => MutateKeeps(s.facts, Flush); MutateKeeps(s.dims, Flush);
      case CrashInRefresh(_) => MutateKeeps(s.facts, Flush); MutateKeeps(s.dims, Flush);
      case Crash(kf, kd) => SurvivorKeeps(s.facts, kf); SurvivorKeeps(s.dims, kd);
      case CrashLosingRecords(kf, kd, _) => SurvivorKeeps(s.facts, kf); SurvivorKeeps(s.dims, kd);
    }
  }

  lemma {:induction false} SourcesMove(def: Definition, s: State, es: seq<Event>)
    requires SourcesOnly(es)
    ensures Run(def, s, es).view == s.view && SourcesKept(s, Run(def, s, es))
  {
    if es == [] {
      SourcesKeptSelf(s);
    } else {
      SourcesMove(def, s, es[..|es| - 1]);
      var t := Run(def, s, es[..|es| - 1]);
      StepKeepsSources(def, t, es[|es| - 1]);
      SourcesKeptTrans(s, t, Run(def, s, es));
    }
  }

  lemma CleanIsClaimed(def: Definition, facts: GoodLog, dims: GoodLog, v: View, b: i64)
    requires Inv(def, facts, dims, v) && CleanBucket(def, facts, dims, v, b)
    ensures Claimed(def, facts, dims, v, b)
  {
    SelfExtends(facts);
    SelfExtends(dims);
    if DirtyBucket(def, Kept(facts), Kept(dims), v, b) {
      var k: i64 :| BucketOf(k, def.divide) == b && DirtyKey(def.kind, Kept(facts), Kept(dims), v, k);
      DirtyKeyMonotone(def.kind, Kept(facts), Kept(dims), facts, dims, v, k);
    }
  }

  /** What `t` still stores of the buckets the record of `s` claims: everything
      below the ceiling of `t`, nothing at or above it. */
  ghost predicate CutSince(def: Definition, s: State, t: State) {
    forall b: i64 :: Claimed(def, t.facts, t.dims, s.view, b) ==>
      RowsAt(t.view.table, b) == if OpenBucket(def, t.view.ceiling, b) then {} else RowsAt(s.view.table, b)
  }

  /** The record of `s` is the current one, or waits at its own place to come back. */
  ghost predicate Waits(s: State, t: State) {
    || (t.view == s.view && t.olds == s.olds)
    || (|s.olds| < |t.olds| && t.olds[|s.olds|] == WithTable(s.view, t.view.table))
  }

  /** `t` came from `s` without losing a record. */
  ghost predicate CameFrom(def: Definition, s: State, t: State) {
    && StateInv(def, t) && Waits(s, t) && SourcesKept(s, t)
    && Inv(def, t.facts, t.dims, s.view)
    && s.view.factStamp <= t.view.factStamp && s.view.dimStamp <= t.view.dimStamp
    && (def.kind.AsOfJoin? ==> CutSince(def, s, t))
  }

  lemma RefreshCutsAt(def: Definition, f: GoodLog, d: GoodLog, v: View, w: View, b: i64)
    requires def.kind.AsOfJoin? && Inv(def, f, d, v) && Inv(def, f, d, w)
    requires v.factStamp <= w.factStamp && v.dimStamp <= w.dimStamp
    requires Claimed(def, f, d, v, b)
    requires RowsAt(w.table, b) == if OpenBucket(def, w.ceiling, b) then {} else RowsAt(v.table, b)
    ensures Claimed(def, Flushed(f), Flushed(d), v, b) ==>
              RowsAt(Refreshed(def, Flushed(f), Flushed(d), w).table, b)
              == if OpenBucket(def, AsOfCeiling(Flushed(d).Live(), def.divide), b) then {} else RowsAt(v.table, b)
  {
    FlushKeepsInv(def, State(f, d, v, []));
    FlushKeepsInv(def, State(f, d, w, []));
    if Claimed(def, Flushed(f), Flushed(d), v, b) {
      ClaimedIsClean(def, Flushed(f), Flushed(d), v, {}, b);
      RefreshMovesCut(def, Flushed(f), Flushed(d), v, w, b);
    }
  }

  lemma RefreshKeepsCut(def: Definition, s: State, t: State)
    requires def.kind.AsOfJoin? && CameFrom(def, s, t)
    ensures CutSince(def, s, Step(def, t, DoRefresh))
  {
    var u := Step(def, t, DoRefresh);
    MutateKeeps(t.facts, Flush);
    MutateKeeps(t.dims, Flush);
    forall b: i64 | Claimed(def, u.facts, u.dims, s.view, b)
      ensures RowsAt(u.view.table, b) == if OpenBucket(def, u.view.ceiling, b) then {} else RowsAt(s.view.table, b)
    {
      ClaimedOnlyShrinks(def, t.facts, t.dims, u.facts, u.dims, s.view, b);
      RefreshCutsAt(def, t.facts, t.dims, s.view, t.view, b);
    }
  }

  lemma SourcesKeepCut(def: Definition, s: State, t: State, u: State)
    requires def.kind.AsOfJoin? && CameFrom(def, s, t) && SourcesKept(t, u) && u.view == t.view
    ensures CutSince(def, s, u)
  {
    forall b: i64 | Claimed(def, u.facts, u.dims, s.view, b)
      ensures RowsAt(u.view.table, b) == if OpenBucket(def, u.view.ceiling, b) then {} else RowsAt(s.view.table, b)
    {
      ClaimedOnlyShrinks(def, t.facts, t.dims, u.facts, u.dims, s.view, b);
    }
  }

  lemma RecordWaits(def: Definition, s: State, t: State)
    requires Waits(s, t)
    ensures var u := Step(def, t, DoRefresh); |s.olds| < |u.olds| && Waits(s, u)
  {
  }

  lemma StepKeepsRecord(def: Definition, s: State, t: State, u: State)
    requires StateInv(def, t) && SourcesKept(s, t) && SourcesKept(t, u) && Inv(def, t.facts, t.dims, s.view)
    ensures SourcesKept(s, u) && Inv(def, u.facts, u.dims, s.view)
  {
    SourcesKeptTrans(s, t, u);
    InvMoves(def, t.facts, t.dims, u.facts, u.dims, s.view);
  }

  lemma CalmStep(def: Definition, s: State, t: State, e: Event)
    requires CameFrom(def, s, t) && !e.CrashInRefresh? && !e.CrashLosingRecords?
    ensures CameFrom(def, s, Step(def, t, e))
  {
    var u := Step(def, t, e);
    StepKeepsInv(def, t, e);
    StepKeepsSources(def, t, e);
    StepKeepsRecord(def, s, t, u);
    if e.DoRefresh? {
      RefreshAdvances(def, t);
      RecordWaits(def, s, t);
      if def.kind.AsOfJoin? { RefreshKeepsCut(def, s, t); }
    } else {
      if def.kind.AsOfJoin? { SourcesKeepCut(def, s, t, u); }
    }
  }

  lemma CameFromSelf(def: Definition, s: State)
    requires StateInv(def, s)
    ensures CameFrom(def, s, s)
  {
    SourcesKeptSelf(s);
  }

  lemma {:induction false} CalmRun(def: Definition, s: State, es: seq<Event>)
    requires StateInv(def, s) && Calm(es)
    ensures CameFrom(def, s, Run(def, s, es))
  {
    if es == [] {
      CameFromSelf(def, s);
    } else {
      CalmRun(def, s, es[..|es| - 1]);
      CalmStep(def, s, Run(def, s, es[..|es| - 1]), es[|es| - 1]);
    }
  }

  /** Every refresh leaves one more record to come back. */
  lemma {:induction false} RecordsGrow(def: Definition, s: State, es: seq<Event>)
    requires Calm(es)
    ensures |s.olds| <= |Run(def, s, es).olds|
    ensures DoRefresh in es ==> |s.olds| < |Run(def, s, es).olds|
  {
    if es == [] {
    } else {
      var init, last := es[..|es| - 1], es[|es| - 1];
      RecordsGrow(def, s, init);
      OneMoreRecord(def, Run(def, s, init), last);
      assert es == init + [last];
    }
  }

  lemma OneMoreRecord(def: Definition, t: State, e: Event)
    requires !e.CrashInRefresh? && !e.CrashLosingRecords?
    ensures |Step(def, t, e).olds| == |t.olds| + if e.DoRefresh? then 1 else 0
  {
  }

  // -------------------------------------------------------- a record comes back

  /** From `s` on, events `between`; then power fails and the record of `s` comes
      back, over the table as it is by then. */
  ghost function Lost(def: Definition, s: State, between: seq<Event>, keptFacts: nat, keptDims: nat): State {
    Step(def, Run(def, s, between), CrashLosingRecords(keptFacts, keptDims, |s.olds|))
  }

  /** After run `es`, such a loss; then the sources move on (`after`). */
  ghost function AfterLoss(def: Definition, es: seq<Event>, between: seq<Event>, keptFacts: nat, keptDims: nat,
                           after: seq<Event>): State {
    Run(def, Lost(def, Run(def, START, es), between, keptFacts, keptDims), after)
  }

  /** The ceiling the loss forgets. */
  ghost function LostCeiling(def: Definition, es: seq<Event>, between: seq<Event>): i64 {
    Run(def, Run(def, START, es), between).view.ceiling
  }

  /** `t` has the record of `s` back, over a table cut off at ceiling `c`. */
  ghost predicate LostFrom(def: Definition, c: i64, s: State, t: State) {
    && Inv(def, t.facts, t.dims, s.view)
    && t.view == WithTable(s.view, t.view.table)
    && Cut(def, c, t.facts, t.dims, s.view, t.view.table)
  }

  lemma FellBack(def: Definition, s: State, t: State, kf: nat, kd: nat, after: seq<Event>)
    requires def.kind.AsOfJoin? && CameFrom(def, s, t) && |s.olds| < |t.olds| && SourcesOnly(after)
    ensures var u := Run(def, Step(def, t, CrashLosingRecords(kf, kd, |s.olds|)), after);
            LostFrom(def, t.view.ceiling, s, u)
  {
    var lost := Step(def, t, CrashLosingRecords(kf, kd, |s.olds|));
    var u := Run(def, lost, after);
    StepKeepsSources(def, t, CrashLosingRecords(kf, kd, |s.olds|));
    SourcesMove(def, lost, after);
    SourcesKeptTrans(t, lost, u);
    CutLater(def, s, t, u);
  }

  lemma CutLater(def: Definition, s: State, t: State, u: State)
    requires def.kind.AsOfJoin? && CameFrom(def, s, t) && SourcesKept(t, u)
    ensures Inv(def, u.facts, u.dims, s.view)
    ensures Cut(def, t.view.ceiling, u.facts, u.dims, s.view, t.view.table)
  {
    InvMoves(def, t.facts, t.dims, u.facts, u.dims, s.view);
    forall b: i64 | CleanBucket(def, u.facts, u.dims, s.view, b)
      ensures RowsAt(t.view.table, b) == if OpenBucket(def, t.view.ceiling, b) then {} else RowsAt(s.view.table, b)
    {
      CleanIsClaimed(def, u.facts, u.dims, s.view, b);
      ClaimedOnlyShrinks(def, t.facts, t.dims, u.facts, u.dims, s.view, b);
    }
  }

  lemma AfterLossFrom(def: Definition, es: seq<Event>, between: seq<Event>, kf: nat, kd: nat, after: seq<Event>)
    requires def.kind.AsOfJoin? && ShelteredRun(def, START, es)
    requires Calm(between) && DoRefresh in between && SourcesOnly(after)
    ensures LostFrom(def, LostCeiling(def, es, between), Run(def, START, es),
                     AfterLoss(def, es, between, kf, kd, after))
  {
    var s := Run(def, START, es);
    RunKeepsInv(def, es);
    CalmRun(def, s, between);
    RecordsGrow(def, s, between);
    FellBack(def, s, Run(def, s, between), kf, kd, after);
  }

  lemma LiveRunsIgnoreTable(def: Definition, f: GoodLog, d: GoodLog, v: View, table: set<ViewRow>, runs: seq<Range>)
    requires LiveRuns(def, f, d, WithTable(v, table), runs)
    ensures LiveRuns(def, f, d, v, runs)
  {
    forall b: i64 ensures DirtyBucket(def, f, d, WithTable(v, table), b) <==> DirtyBucket(def, f, d, v, b) {
      SameRecordSameDirt(def, f, d, WithTable(v, table), v, b);
    }
  }

  lemma LossReads(def: Definition, c: i64, s: State, t: State, runs: seq<Range>)
    requires def.Valid() && LostFrom(def, c, s, t)
    requires LiveRuns(def, t.facts, t.dims, t.view, runs)
    ensures ReadsExactly(def, t.facts, t.dims, t.view.table, runs)
       <==> NothingStranded(def, c, t.facts, t.dims, s.view)
  {
    LiveRunsIgnoreTable(def, t.facts, t.dims, s.view, t.view.table, runs);
    CutReads(def, c, t.facts, t.dims, s.view, t.view.table, runs);
  }

  /** Flushing the sources changes nothing a read looks at. */
  lemma FlushedFrom(def: Definition, c: i64, s: State, t: State)
    requires LostFrom(def, c, s, t)
    ensures Inv(def, Flushed(t.facts), Flushed(t.dims), s.view)
    ensures Cut(def, c, Flushed(t.facts), Flushed(t.dims), s.view, t.view.table)
  {
    MutateKeeps(t.facts, Flush);
    MutateKeeps(t.dims, Flush);
    InvMoves(def, t.facts, t.dims, Flushed(t.facts), Flushed(t.dims), s.view);
    forall b: i64 | CleanBucket(def, Flushed(t.facts), Flushed(t.dims), s.view, b)
      ensures CleanBucket(def, t.facts, t.dims, s.view, b)
    {
      SameDirty(def, t.facts, t.dims, Flushed(t.facts), Flushed(t.dims), s.view, b);
    }
  }

  lemma RefreshSets(def: Definition, s: State)
    requires def.kind.AsOfJoin?
    ensures var t := Step(def, s, DoRefresh);
            && t.facts == Flushed(s.facts) && t.dims == Flushed(s.dims)
            && t.view.factStamp == t.facts.next && t.view.dimStamp == t.dims.next
            && t.view.ceiling == NextCeiling(def, s)
  {
  }

  lemma LossCompletes(def: Definition, c: i64, s: State, t: State)
    requires def.kind.AsOfJoin? && LostFrom(def, c, s, t)
    ensures var u := Step(def, t, DoRefresh);
            && Complete(def, u.facts, u.dims, u.view)
            <==> forall r :: Stranded(def, c, u.facts, u.dims, s.view, r) ==>
                   OpenBucket(def, u.view.ceiling, r.bucket)
  {
    FlushedFrom(def, c, s, t);
    CutHeals(def, c, Flushed(t.facts), Flushed(t.dims), s.view, t.view.table);
  }

  lemma HealedStaysOnAxis(def: Definition, c: i64, s: State, t: State)
    requires def.kind.AsOfJoin? && LostFrom(def, c, s, t)
    ensures forall r :: r in Step(def, t, DoRefresh).view.table ==> Attainable(r.bucket, def.divide)
  {
    HealedOnAxis(def, Flushed(t.facts), Flushed(t.dims), t.view);
  }

  lemma LossHeals(def: Definition, c: i64, s: State, t: State, runs: seq<Range>)
    requires def.Valid() && def.kind.AsOfJoin? && LostFrom(def, c, s, t)
    requires var u := Step(def, t, DoRefresh); LiveRuns(def, u.facts, u.dims, u.view, runs)
    ensures var u := Step(def, t, DoRefresh);
            ReadsExactly(def, u.facts, u.dims, u.view.table, runs)
            <==> forall r :: Stranded(def, c, u.facts, u.dims, s.view, r) ==>
                   OpenBucket(def, u.view.ceiling, r.bucket)
  {
    LossCompletes(def, c, s, t);
    HealedStaysOnAxis(def, c, s, t);
    RefreshSets(def, t);
    var u := Step(def, t, DoRefresh);
    FreshReadsIffComplete(def, u.facts, u.dims, u.view, runs);
  }

  /** A record from any point of a run comes back, however many refreshes, dips of
      the ceiling and source changes lie between, and the sources move on: reads
      are exact precisely when no row stored under that record, in a bucket it
      still finds clean, lay at or above the ceiling the loss forgets. */
  lemma LostRecordRead(def: Definition, es: seq<Event>, between: seq<Event>, kf: nat, kd: nat, after: seq<Event>,
                       runs: seq<Range>)
    requires def.Valid() && def.kind.AsOfJoin? && ShelteredRun(def, START, es)
    requires Calm(between) && DoRefresh in between && SourcesOnly(after)
    requires var t := AfterLoss(def, es, between, kf, kd, after); LiveRuns(def, t.facts, t.dims, t.view, runs)
    ensures var s, t := Run(def, START, es), AfterLoss(def, es, between, kf, kd, after);
            ReadsExactly(def, t.facts, t.dims, t.view.table, runs)
            <==> NothingStranded(def, LostCeiling(def, es, between), t.facts, t.dims, s.view)
  {
    AfterLossFrom(def, es, between, kf, kd, after);
    LossReads(def, LostCeiling(def, es, between), Run(def, START, es),
              AfterLoss(def, es, between, kf, kd, after), runs);
  }

  /** And reads after the next refresh are exact again precisely when every
      stranded row lies at or above the ceiling that refresh sets. */
  lemma LostRecordHeals(def: Definition, es: seq<Event>, between: seq<Event>, kf: nat, kd: nat, after: seq<Event>,
                        runs: seq<Range>)
    requires def.Valid() && def.kind.AsOfJoin? && ShelteredRun(def, START, es)
    requires Calm(between) && DoRefresh in between && SourcesOnly(after)
    requires var u := Step(def, AfterLoss(def, es, between, kf, kd, after), DoRefresh);
             LiveRuns(def, u.facts, u.dims, u.view, runs)
    ensures var s, u := Run(def, START, es), Step(def, AfterLoss(def, es, between, kf, kd, after), DoRefresh);
            ReadsExactly(def, u.facts, u.dims, u.view.table, runs)
            <==> forall r :: Stranded(def, LostCeiling(def, es, between), u.facts, u.dims, s.view, r) ==>
                   OpenBucket(def, u.view.ceiling, r.bucket)
  {
    AfterLossFrom(def, es, between, kf, kd, after);
    LossHeals(def, LostCeiling(def, es, between), Run(def, START, es),
              AfterLoss(def, es, between, kf, kd, after), runs);
  }

  // ------------------------------------------------- a crash before the record

  /** All rows of a refresh are flushed and its record is not written. */
  ghost function Interrupted(def: Definition, s: State): State {
    Step(def, s, CrashInRefresh(Step(def, s, DoRefresh).view.table))
  }

  lemma InterruptedFrom(def: Definition, s: State, after: seq<Event>)
    requires def.kind.AsOfJoin? && StateInv(def, s) && SourcesOnly(after)
    ensures LostFrom(def, NextCeiling(def, s), s, Run(def, Interrupted(def, s), after))
  {
    var t := Step(def, s, DoRefresh);
    InterruptedState(def, s);
    SourcesMove(def, Interrupted(def, s), after);
    CameFromSelf(def, s);
    CalmStep(def, s, s, DoRefresh);
    CutLater(def, s, t, Run(def, Interrupted(def, s), after));
  }

  lemma InterruptedState(def: Definition, s: State)
    requires StateInv(def, s)
    ensures var t := Step(def, s, DoRefresh);
            && Interrupted(def, s).facts == t.facts && Interrupted(def, s).dims == t.dims
            && Interrupted(def, s).view == WithTable(s.view, t.view.table)
  {
    var f, d := Flushed(s.facts), Flushed(s.dims);
    FlushKeepsInv(def, s);
    RefreshedTableIsSpoiled(def, f, d, s.view);
  }

  /** The shelter is exact for interruptions: once a refresh's rows are flushed, a
      crash before its record leaves exact reads precisely when it strands nothing. */
  lemma InterruptedRead(def: Definition, es: seq<Event>, after: seq<Event>, runs: seq<Range>)
    requires def.Valid() && def.kind.AsOfJoin? && ShelteredRun(def, START, es) && SourcesOnly(after)
    requires var t := Run(def, Interrupted(def, Run(def, START, es)), after);
             LiveRuns(def, t.facts, t.dims, t.view, runs)
    ensures var s := Run(def, START, es);
            var t := Run(def, Interrupted(def, s), after);
            ReadsExactly(def, t.facts, t.dims, t.view.table, runs)
            <==> NothingStranded(def, NextCeiling(def, s), t.facts, t.dims, s.view)
  {
    var s := Run(def, START, es);
    RunKeepsInv(def, es);
    InterruptedFrom(def, s, after);
    LossReads(def, NextCeiling(def, s), s, Run(def, Interrupted(def, s), after), runs);
  }

  // -------------------------------------------------------------------- a story

  /** A blotter: every fact row beside the latest quote at or before it. */
  ghost predicate IsBlotter(def: Definition) {
    def.kind == AsOfJoin(AtOrBefore) && def.left && def.divide == 1 && def.scale == 1 && forall j :: def.accept(j)
  }

  const QUOTE3 := Entry(3, Some("a"), [])
  const QUOTE10 := Entry(10, Some("a"), [])
  const QUOTE12 := Entry(12, Some("a"), [])
  const TRADE5 := Entry(5, Some("a"), [])
  const QUOTE10_ROW := Row(1, 1, 10, Some("a"), [])
  const TRADE5_ROW := Row(0, 0, 5, Some("a"), [])

  const QUOTES := EMPTY.Append(QUOTE3).Append(QUOTE10)
  const TRADES := EMPTY.Append(TRADE5)

  const OPENING: seq<Event> := [OnDims(Insert(QUOTE3)), OnDims(Insert(QUOTE10)), OnFacts(Insert(TRADE5))]

  /** Two quotes and a trade between them, refreshed; then the newest quote is
      deleted, so the next refresh lowers the ceiling from 10 to 3 under the
      stored trade. */
  const STORY: seq<Event> := OPENING + [DoRefresh] + [OnDims(Delete({QUOTE10_ROW}))]

  lemma LogsAreGood()
    ensures QUOTES.Valid() && TRADES.Valid()
    ensures QUOTES.rows == {Row(0, 0, 3, Some("a"), []), QUOTE10_ROW} && QUOTES.kills == map[]
    ensures TRADES.rows == {TRADE5_ROW} && TRADES.kills == map[]
  {
    AppendValid(EMPTY, QUOTE3);
    AppendValid(EMPTY.Append(QUOTE3), QUOTE10);
    AppendValid(EMPTY, TRADE5);
  }

  lemma UnitBuckets()
    ensures forall k: i64 :: BucketOf(k, 1) == k
  {
    forall k: i64 ensures BucketOf(k, 1) == k { BucketOfMultiple(k, 1); }
  }

  /** A blotter answers one row per live trade. */
  lemma TradeIsAnswered(def: Definition, f: GoodLog, d: GoodLog) returns (r: ViewRow)
    requires IsBlotter(def)
    requires TRADE5_ROW in f.Live()
    ensures r.bucket == 5 && r in RowsAt(def.Current(f, d), 5)
  {
    BucketOfMultiple(5, 1);
    var all := JoinRows(def.kind, true, f.Live(), d.Live());
    var j := Joined(TRADE5_ROW, Match(def.kind, TRADE5_ROW, d.Live()));
    assert j in all;
    r := ViewRow(def.Bucket(j), def.tag(j), def.fold(def.Group(all, j)));
    assert r in def.Answer(all);
  }

  lemma CeilingAt(d: GoodLog, k: i64)
    requires IsFrontier(k, d.Live())
    ensures AsOfCeiling(d.Live(), 1) == k
  {
    BucketOfMultiple(k, 1);
  }

  /** Trade 5 lies strictly below ceilings 10 and 12, and not below 3. */
  lemma TradeIsBelowTen(def: Definition)
    requires IsBlotter(def)
    ensures !OpenBucket(def, 10, 5) && !OpenBucket(def, 12, 5)
    ensures OpenBucket(def, 3, 5) && Attainable(5, 1)
  {
    UnitBuckets();
    Attains(5, 1);
    assert BucketOf(5, 1) == 5;
  }

  lemma RunSnoc(def: Definition, s: State, es: seq<Event>, e: Event)
    ensures Run(def, s, es + [e]) == Step(def, Run(def, s, es), e)
    ensures ShelteredRun(def, s, es + [e]) <==> ShelteredRun(def, s, es) && Sheltered(def, Run(def, s, es), e)
  {
    assert (es + [e])[..|es + [e]| - 1] == es;
  }

  /** The opening fills both logs. */
  lemma Opening(def: Definition)
    ensures QUOTES.Valid() && TRADES.Valid() && ShelteredRun(def, START, OPENING)
    ensures Run(def, START, OPENING) == State(TRADES, QUOTES, FRESH, [])
  {
    LogsAreGood();
    RunSnoc(def, START, [], OPENING[0]);
    RunSnoc(def, START, [] + [OPENING[0]], OPENING[1]);
    RunSnoc(def, START, [] + [OPENING[0]] + [OPENING[1]], OPENING[2]);
    assert [] + [OPENING[0]] + [OPENING[1]] + [OPENING[2]] == OPENING;
  }

  lemma QuotesFrontier()
    ensures QUOTES.Valid() && IsFrontier(10, Flushed(QUOTES).Live())
    ensures TRADES.Valid() && TRADE5_ROW in Flushed(TRADES).Live()
    ensures Flushed(TRADES).next == 1 && Flushed(QUOTES).next == 2
  {
    LogsAreGood();
    assert QUOTE10_ROW in Flushed(QUOTES).Live();
  }

  /** The first refresh stores the trade, its ceiling at the newest quote. */
  lemma FirstRefresh(def: Definition) returns (v: View, r: ViewRow)
    requires IsBlotter(def)
    ensures QUOTES.Valid() && TRADES.Valid()
    ensures v == Refreshed(def, Flushed(TRADES), Flushed(QUOTES), FRESH)
    ensures v.factStamp == 1 && v.dimStamp == 2 && v.ceiling == 10
    ensures r in v.table && r.bucket == 5
  {
    QuotesFrontier();
    var f, d := Flushed(TRADES), Flushed(QUOTES);
    FreshView(def, f, d);
    RefreshCompletes(def, f, d, FRESH);
    v := Refreshed(def, f, d, FRESH);
    CeilingAt(d, 10);
    r := TradeIsAnswered(def, f, d);
    TradeIsBelowTen(def);
    assert r in RowsAt(v.table, 5);
  }

  /** A dimension in which only quotes from 10 up were born or killed since the
      first refresh leaves the trade's bucket clean. */
  lemma TradeIsClean(def: Definition, f: GoodLog, d: GoodLog, v: View)
    requires IsBlotter(def)
    requires v.factStamp == 1 && v.dimStamp == 2 && v.ceiling == 10
    requires f.rows == TRADES.rows && f.kills == map[]
    requires forall t :: t in d.Touched(2) ==> t.okey >= 10
    ensures CleanBucket(def, f, d, v, 5)
  {
    LogsAreGood();
    UnitBuckets();
    TradeIsBelowTen(def);
    assert f.Touched(1) == {};
    assert !Corrected(AtOrBefore, d, 2, 5);
    assert !DirtyKey(def.kind, f, d, v, 5);
  }

  lemma RefreshOnce(def: Definition, f: GoodLog, d: GoodLog)
    ensures var v := Refreshed(def, Flushed(f), Flushed(d), FRESH);
            Step(def, State(f, d, FRESH, []), DoRefresh)
            == State(Flushed(f), Flushed(d), v, [WithTable(FRESH, v.table)])
  {
    var v := Refreshed(def, Flushed(f), Flushed(d), FRESH);
    assert Retabled([] + [FRESH], v.table) == [WithTable(FRESH, v.table)];
  }

  lemma StoryRefreshed(def: Definition, v: View)
    requires QUOTES.Valid() && TRADES.Valid()
    requires v == Refreshed(def, Flushed(TRADES), Flushed(QUOTES), FRESH)
    ensures ShelteredRun(def, START, OPENING + [DoRefresh])
    ensures Run(def, START, OPENING + [DoRefresh])
         == State(Flushed(TRADES), Flushed(QUOTES), v, [WithTable(FRESH, v.table)])
  {
    Opening(def);
    RunSnoc(def, START, OPENING, DoRefresh);
    RefreshOnce(def, TRADES, QUOTES);
  }

  /** The story's end: the trade stored under ceiling 10, the newest quote gone. */
  lemma StoryState(def: Definition, v: View)
    requires QUOTES.Valid() && TRADES.Valid()
    requires v == Refreshed(def, Flushed(TRADES), Flushed(QUOTES), FRESH)
    ensures ShelteredRun(def, START, STORY)
    ensures Run(def, START, STORY)
         == State(Flushed(TRADES), Mutate(Flushed(QUOTES), Delete({QUOTE10_ROW})), v, [WithTable(FRESH, v.table)])
  {
    StoryRefreshed(def, v);
    RunSnoc(def, START, OPENING + [DoRefresh], OnDims(Delete({QUOTE10_ROW})));
  }

  lemma DeletedQuotes() returns (d: GoodLog)
    ensures QUOTES.Valid()
    ensures d == Flushed(Mutate(Flushed(QUOTES), Delete({QUOTE10_ROW})))
    ensures d.rows == QUOTES.rows && d.kills == map[QUOTE10_ROW := 2] && d.next == 3 && d.arrived == 2
    ensures IsFrontier(3, d.Live()) && d.Touched(2) == {QUOTE10_ROW}
  {
    LogsAreGood();
    var q := Flushed(QUOTES);
    assert QUOTE10_ROW in q.Live();
    assert {QUOTE10_ROW} * q.Live() == {QUOTE10_ROW};
    d := Flushed(Mutate(q, Delete({QUOTE10_ROW})));
    assert Row(0, 0, 3, Some("a"), []) in d.Live();
  }

  /** The story's end: record `v` of the first refresh, and in it the trade's row. */
  ghost predicate AtStory(v: View, r: ViewRow, s: State) {
    && v.factStamp == 1 && v.dimStamp == 2 && v.ceiling == 10
    && r in v.table && r.bucket == 5
    && s.view == v && |s.olds| == 1 && TRADES.Valid() && s.facts == Flushed(TRADES)
    && QUOTES.Valid() && s.dims == Mutate(Flushed(QUOTES), Delete({QUOTE10_ROW}))
  }

  lemma StoryAt(def: Definition) returns (v: View, r: ViewRow)
    requires IsBlotter(def)
    ensures ShelteredRun(def, START, STORY) && AtStory(v, r, Run(def, START, STORY))
  {
    v, r := FirstRefresh(def);
    StoryState(def, v);
  }

  lemma OneRefresh(def: Definition, s: State)
    requires def.kind.AsOfJoin?
    ensures Run(def, s, [DoRefresh]) == Step(def, s, DoRefresh)
    ensures Run(def, s, [DoRefresh]).view.ceiling == NextCeiling(def, s)
    ensures Calm([DoRefresh]) && DoRefresh in [DoRefresh]
  {
    RunSnoc(def, s, [], DoRefresh);
    assert [] + [DoRefresh] == [DoRefresh];
  }

  /** With nothing else in between, the sources come back as the refresh flushed them. */
  lemma LostSources(def: Definition, s: State)
    requires def.kind.AsOfJoin? && Flushed(s.facts).durable > 0 && Flushed(s.dims).durable > 0
    ensures Lost(def, s, [DoRefresh], 0, 0).facts == Flushed(s.facts)
    ensures Lost(def, s, [DoRefresh], 0, 0).dims == Flushed(s.dims)
  {
    OneRefresh(def, s);
    RefreshSets(def, s);
  }

  /** Where a refresh at the story's end leaves the sources once its record is lost. */
  lemma StoryLost(def: Definition, s: State, v: View, r: ViewRow)
    requires IsBlotter(def)
    requires AtStory(v, r, s)
    ensures Lost(def, s, [DoRefresh], 0, 0).facts == s.facts
    ensures Lost(def, s, [DoRefresh], 0, 0).dims == Flushed(s.dims)
    ensures NextCeiling(def, s) == 3
  {
    LogsAreGood();
    var d := DeletedQuotes();
    CeilingAt(d, 3);
    LostSources(def, s);
  }

  lemma StoryLostFrom(def: Definition, after: seq<Event>)
    requires IsBlotter(def) && ShelteredRun(def, START, STORY) && SourcesOnly(after)
    ensures LostFrom(def, NextCeiling(def, Run(def, START, STORY)), Run(def, START, STORY),
                     AfterLoss(def, STORY, [DoRefresh], 0, 0, after))
  {
    OneRefresh(def, Run(def, START, STORY));
    AfterLossFrom(def, STORY, [DoRefresh], 0, 0, after);
  }

  /** The shelter is needed.  After the story, a refresh returns and power fails
      before its record is safe: every read misses the stored trade. */
  lemma LoweredCeilingLosesARow(def: Definition, runs: seq<Range>)
    requires IsBlotter(def)
    ensures ShelteredRun(def, START, STORY)
    ensures var t := AfterLoss(def, STORY, [DoRefresh], 0, 0, []);
            LiveRuns(def, t.facts, t.dims, t.view, runs) ==>
              !ReadsExactly(def, t.facts, t.dims, t.view.table, runs)
  {
    var v, r := StoryAt(def);
    StoryLostFrom(def, []);
    StoryMisread(def, Run(def, START, STORY), AfterLoss(def, STORY, [DoRefresh], 0, 0, []), v, r, runs);
  }

  lemma StoryMisread(def: Definition, s: State, t: State, v: View, r: ViewRow, runs: seq<Range>)
    requires IsBlotter(def) && AtStory(v, r, s)
    requires LostFrom(def, NextCeiling(def, s), s, t) && t == Lost(def, s, [DoRefresh], 0, 0)
    ensures LiveRuns(def, t.facts, t.dims, t.view, runs) ==>
              !ReadsExactly(def, t.facts, t.dims, t.view.table, runs)
  {
    StoryLost(def, s, v, r);
    OnlyTenIsTouched();
    TradeIsStranded(def, t.facts, t.dims, v, r);
    StrandedIsMisread(def, 3, s, t, runs, r);
  }

  lemma StrandedIsMisread(def: Definition, c: i64, s: State, t: State, runs: seq<Range>, r: ViewRow)
    requires def.Valid() && LostFrom(def, c, s, t) && Stranded(def, c, t.facts, t.dims, s.view, r)
    ensures LiveRuns(def, t.facts, t.dims, t.view, runs) ==>
              !ReadsExactly(def, t.facts, t.dims, t.view.table, runs)
  {
    if LiveRuns(def, t.facts, t.dims, t.view, runs) { LossReads(def, c, s, t, runs); }
  }

  lemma StrandedStaysMisread(def: Definition, c: i64, s: State, t: State, u: State, runs: seq<Range>, r: ViewRow)
    requires def.Valid() && def.kind.AsOfJoin? && LostFrom(def, c, s, t) && u == Step(def, t, DoRefresh)
    requires Stranded(def, c, u.facts, u.dims, s.view, r) && !OpenBucket(def, u.view.ceiling, r.bucket)
    ensures !Complete(def, u.facts, u.dims, u.view)
    ensures LiveRuns(def, u.facts, u.dims, u.view, runs) ==>
              !ReadsExactly(def, u.facts, u.dims, u.view.table, runs)
  {
    LossCompletes(def, c, s, t);
    if LiveRuns(def, u.facts, u.dims, u.view, runs) { LossHeals(def, c, s, t, runs); }
  }

  lemma OnlyTenIsTouched()
    ensures QUOTES.Valid()
    ensures forall t :: t in Flushed(Mutate(Flushed(QUOTES), Delete({QUOTE10_ROW}))).Touched(2) ==> t.okey >= 10
  {
    var d := DeletedQuotes();
  }

  lemma TradeIsStranded(def: Definition, f: GoodLog, d: GoodLog, v: View, r: ViewRow)
    requires IsBlotter(def)
    requires v.factStamp == 1 && v.dimStamp == 2 && v.ceiling == 10 && r in v.table && r.bucket == 5
    requires TRADES.Valid() && f == Flushed(TRADES)
    requires forall t :: t in d.Touched(2) ==> t.okey >= 10
    ensures Stranded(def, 3, f, d, v, r)
  {
    LogsAreGood();
    TradeIsClean(def, f, d, v);
    TradeIsBelowTen(def);
  }

  const NEXT_QUOTE: seq<Event> := [OnDims(Insert(QUOTE12))]

  lemma QuoteTwelve(d: GoodLog)
    requires QUOTES.Valid() && d == Flushed(Mutate(Flushed(QUOTES), Delete({QUOTE10_ROW})))
    ensures IsFrontier(12, Flushed(Mutate(d, Insert(QUOTE12))).Live())
    ensures forall t :: t in Flushed(Mutate(d, Insert(QUOTE12))).Touched(2) ==> t.okey >= 10
  {
    LogsAreGood();
    var q := DeletedQuotes();
    NextRow(d);
  }

  lemma NextRow(d: GoodLog)
    requires d.next == 3 && d.arrived == 2 && IsFrontier(3, d.Live()) && d.Touched(2) == {QUOTE10_ROW}
    ensures IsFrontier(12, Flushed(Mutate(d, Insert(QUOTE12))).Live())
    ensures forall t :: t in Flushed(Mutate(d, Insert(QUOTE12))).Touched(2) ==> t.okey >= 10
  {
    var row := Row(2, 3, 12, Some("a"), []);
    var d' := Flushed(Mutate(d, Insert(QUOTE12)));
    assert d'.rows == d.rows + {row} && d'.kills == d.kills;
    assert row in d'.Live();
    forall x | x in d'.Live() ensures x.okey <= 12 { assert x == row || x in d.Live(); }
    forall t | t in d'.Touched(2) ensures t.okey >= 10 { assert t == row || t in d.Touched(2); }
  }

  lemma FlushTwice(l: GoodLog)
    ensures Flushed(Flushed(l)) == Flushed(l)
  {
  }

  lemma StoryQuoted(def: Definition, s: State, v: View, r: ViewRow)
    requires IsBlotter(def)
    requires AtStory(v, r, s)
    ensures var t := Run(def, Lost(def, s, [DoRefresh], 0, 0), NEXT_QUOTE);
            t.facts == s.facts && t.dims == Mutate(Flushed(s.dims), Insert(QUOTE12))
  {
    StoryLost(def, s, v, r);
    var lost := Lost(def, s, [DoRefresh], 0, 0);
    RunSnoc(def, lost, [], NEXT_QUOTE[0]);
    assert [] + [NEXT_QUOTE[0]] == NEXT_QUOTE;
  }

  /** And the loss lasts: one more quote and a complete refresh later the stamps
      are fresh and the trade, clean and below ceiling 12, is still missing. */
  lemma LossOutlivesARefresh(def: Definition, runs: seq<Range>)
    requires IsBlotter(def)
    ensures ShelteredRun(def, START, STORY)
    ensures var t := Step(def, AfterLoss(def, STORY, [DoRefresh], 0, 0, NEXT_QUOTE), DoRefresh);
            && t.view.factStamp == t.facts.next && t.view.dimStamp == t.dims.next && t.view.ceiling == 12
            && !Complete(def, t.facts, t.dims, t.view)
            && (LiveRuns(def, t.facts, t.dims, t.view, runs) ==>
                  !ReadsExactly(def, t.facts, t.dims, t.view.table, runs))
  {
    var v, r := StoryAt(def);
    StoryLostFrom(def, NEXT_QUOTE);
    StoryStaysMisread(def, Run(def, START, STORY), AfterLoss(def, STORY, [DoRefresh], 0, 0, NEXT_QUOTE), v, r, runs);
  }

  lemma StoryStaysMisread(def: Definition, s: State, t: State, v: View, r: ViewRow, runs: seq<Range>)
    requires IsBlotter(def) && AtStory(v, r, s) && LostFrom(def, NextCeiling(def, s), s, t)
    requires t == Run(def, Lost(def, s, [DoRefresh], 0, 0), NEXT_QUOTE)
    ensures var u := Step(def, t, DoRefresh);
            && u.view.factStamp == u.facts.next && u.view.dimStamp == u.dims.next && u.view.ceiling == 12
            && !Complete(def, u.facts, u.dims, u.view)
            && (LiveRuns(def, u.facts, u.dims, u.view, runs) ==>
                  !ReadsExactly(def, u.facts, u.dims, u.view.table, runs))
  {
    StoryQuoted(def, s, v, r);
    StoryLost(def, s, v, r);
    RefreshSets(def, t);
    QuoteTwelve(Flushed(s.dims));
    FlushTwice(TRADES);
    StillStranded(def, Flushed(t.facts), Flushed(t.dims), v, r);
    StrandedStaysMisread(def, 3, s, t, Step(def, t, DoRefresh), runs, r);
  }

  lemma StillStranded(def: Definition, f: GoodLog, d: GoodLog, v: View, r: ViewRow)
    requires IsBlotter(def)
    requires v.factStamp == 1 && v.dimStamp == 2 && v.ceiling == 10 && r in v.table && r.bucket == 5
    requires TRADES.Valid() && f == Flushed(TRADES)
    requires IsFrontier(12, d.Live()) && forall t :: t in d.Touched(2) ==> t.okey >= 10
    ensures Stranded(def, 3, f, d, v, r)
    ensures AsOfCeiling(d.Live(), 1) == 12 && !OpenBucket(def, 12, r.bucket)
  {
    CeilingAt(d, 12);
    TradeIsBelowTen(def);
    TradeIsStranded(def, f, d, v, r);
  }
}
