/** Bucket partials (src/partials.rs): an aggregate taken apart along hidden
    buckets of the ordering key and put together again by ordinary aggregates
    over the partial rows. */
module Partials {
  import opened Keys
  import opened Log
  import opened Aggregates

  datatype PartialForm = PSum | PCount | PSumCount | PMin | PMax | PFirst | PLast

  function FormOf(f: AggFunction): PartialForm {
    match f
    case Sum => PSum
    case Count => PCount
    case Avg => PSumCount
    case Min => PMin
    case Max => PMax
    case First => PFirst
    case Last => PLast
  }

  /** `combines[j]` reassembles partial column `j`, which sits at `next + j`. */
  datatype Decomposition = Decomposition(form: PartialForm, partials: seq<AggCall>, combines: seq<AggCall>)

  function Decompose(call: AggCall, next: nat): (d: Decomposition)
    ensures |d.partials| == |d.combines| == (if call.kind.Avg? then 2 else 1)
    ensures forall j :: 0 <= j < |d.combines| ==> d.combines[j].argument == Col(next + j)
  {
    var form := FormOf(call.kind);
    match form
    case PSum => Decomposition(form, [AggCall(Sum, call.argument)], [AggCall(Sum, Col(next))])
    case PCount => Decomposition(form, [AggCall(Count, call.argument)], [AggCall(Sum, Col(next))])
    case PSumCount =>
      Decomposition(form, [AggCall(Sum, call.argument), AggCall(Count, call.argument)],
                    [AggCall(Sum, Col(next)), AggCall(Sum, Col(next + 1))])
    case PMin => Decomposition(form, [AggCall(Min, call.argument)], [AggCall(Min, Col(next))])
    case PMax => Decomposition(form, [AggCall(Max, call.argument)], [AggCall(Max, Col(next))])
    case PFirst => Decomposition(form, [AggCall(First, call.argument)], [AggCall(First, Col(next))])
    case PLast => Decomposition(form, [AggCall(Last, call.argument)], [AggCall(Last, Col(next))])
  }

  datatype FinalStep = Pass(index: nat) | CountZero(index: nat) | AvgDivide(sum: nat, count: nat)

  /** One user column from the combined row: COUNT's NULL grounded to zero, AVG
      divided here, once. */
  function Finalize(step: FinalStep, combined: seq<Cell>): Cell {
    match step
    case Pass(i) => if i < |combined| then combined[i] else None
    case CountZero(i) => if i < |combined| && combined[i].Some? then combined[i] else Some(0.0)
    case AvgDivide(s, c) =>
      var count := if c < |combined| && combined[c].Some? then combined[c].value else 0.0;
      if count > 0.0 && s < |combined| && combined[s].Some?
      then Some(combined[s].value / count) else None
  }

  function StepFor(form: PartialForm, first: nat): FinalStep {
    match form
    case PSumCount => AvgDivide(first, first + 1)
    case PCount => CountZero(first)
    case _ => Pass(first)
  }

  /** The synthesized lists for a running view's aggregate items. */
  function AllPartials(items: seq<AggCall>, next: nat): seq<AggCall> {
    if items == [] then [] else
      var d := Decompose(items[0], next);
      d.partials + AllPartials(items[1..], next + |d.partials|)
  }

  function AllCombines(items: seq<AggCall>, next: nat): seq<AggCall> {
    if items == [] then [] else
      var d := Decompose(items[0], next);
      d.combines + AllCombines(items[1..], next + |d.partials|)
  }

  function AllSteps(items: seq<AggCall>, next: nat): seq<FinalStep> {
    if items == [] then [] else
      var d := Decompose(items[0], next);
      [StepFor(d.form, next)] + AllSteps(items[1..], next + |d.partials|)
  }

  ghost function EvalAll(calls: seq<AggCall>, s: set<Row>): seq<Cell> {
    seq(|calls|, i requires 0 <= i < |calls| => Eval(calls[i], s))
  }

  function FinalizeAll(steps: seq<FinalStep>, combined: seq<Cell>): seq<Cell> {
    seq(|steps|, i requires 0 <= i < |steps| => Finalize(steps[i], combined))
  }

  // ------------------------------------------------------------- partial rows

  function AtBucket(s: set<Row>, d: Width, b: int): set<Row> {
    set r | r in s && BucketOf(r.okey, d) == b
  }

  /** A bucket's stored partials as a row of the materialization: its clock is
      the hidden bucket. */
  ghost function PartialRow(s: set<Row>, d: Width, calls: seq<AggCall>, b: i64): Row {
    Row(0, 0, b, None, EvalAll(calls, AtBucket(s, d, b)))
  }

  ghost function PartialRows(s: set<Row>, d: Width, calls: seq<AggCall>): set<Row> {
    set r | r in s :: PartialRow(s, d, calls, BucketOf(r.okey, d))
  }

  lemma PartialRowsPlaced(s: set<Row>, d: Width, calls: seq<AggCall>)
    ensures Placed(PartialRows(s, d, calls))
  {
  }

  lemma PartialVal(s: set<Row>, d: Width, calls: seq<AggCall>, b: i64, i: nat)
    requires i < |calls|
    ensures Val(PartialRow(s, d, calls, b), Col(i)) == Eval(calls[i], AtBucket(s, d, b))
  {
  }

  /** Taking one bucket out of the group takes one row out of the partials. */
  lemma RemoveBucket(s: set<Row>, d: Width, calls: seq<AggCall>, b: i64)
    requires AtBucket(s, d, b) != {}
    ensures var rest := s - AtBucket(s, d, b);
            && PartialRow(s, d, calls, b) !in PartialRows(rest, d, calls)
            && PartialRows(s, d, calls) == PartialRows(rest, d, calls) + {PartialRow(s, d, calls, b)}
  {
    var rest := s - AtBucket(s, d, b);
    forall r | r in rest
      ensures PartialRow(s, d, calls, BucketOf(r.okey, d)) == PartialRow(rest, d, calls, BucketOf(r.okey, d))
    {
      assert AtBucket(s, d, BucketOf(r.okey, d)) == AtBucket(rest, d, BucketOf(r.okey, d));
    }
    var w :| w in AtBucket(s, d, b);
    forall p
      ensures p in PartialRows(s, d, calls) <==> p in PartialRows(rest, d, calls) || p == PartialRow(s, d, calls, b)
    {
      if p in PartialRows(s, d, calls) {
        var r :| r in s && p == PartialRow(s, d, calls, BucketOf(r.okey, d));
        if r in rest { assert p == PartialRow(rest, d, calls, BucketOf(r.okey, d)); }
      }
      if p in PartialRows(rest, d, calls) {
        var r :| r in rest && p == PartialRow(rest, d, calls, BucketOf(r.okey, d));
        assert r in s && p == PartialRow(s, d, calls, BucketOf(r.okey, d));
      }
    }
  }

  /** Sums over buckets add up to the sum over rows, whatever is NULL. */
  lemma {:induction false} SumOfSums(s: set<Row>, d: Width, calls: seq<AggCall>, i: nat)
    requires i < |calls| && calls[i].kind.Sum?
    ensures Total(PartialRows(s, d, calls), Col(i)) == Total(s, calls[i].argument)
    ensures NonNull(PartialRows(s, d, calls), Col(i)) == {} <==> NonNull(s, calls[i].argument) == {}
    decreases |s|
  {
    var a := calls[i].argument;
    if s == {} {
    } else {
      var w :| w in s;
      var b := BucketOf(w.okey, d);
      var part, p := AtBucket(s, d, b), PartialRow(s, d, calls, b);
      assert w in part;
      var rest := s - part;
      RemoveBucket(s, d, calls, b);
      assert s == rest + part;
      SumOfSums(rest, d, calls, i);
      TotalUnion(rest, part, a);
      TotalRemove(PartialRows(s, d, calls), p, Col(i));
      assert PartialRows(s, d, calls) - {p} == PartialRows(rest, d, calls);
      PartialVal(s, d, calls, b, i);
      if NonNull(part, a) == {} { TotalOfNulls(part, a); }
      NonNullUnion(rest, part, a);
      NonNullUnion(PartialRows(rest, d, calls), {p}, Col(i));
      NonNullOne(p, Col(i));
    }
  }

  /** Bucket counts add up to the count, and are never NULL. */
  lemma {:induction false} SumOfCounts(s: set<Row>, d: Width, calls: seq<AggCall>, i: nat)
    requires i < |calls| && calls[i].kind.Count?
    ensures Total(PartialRows(s, d, calls), Col(i)) == |Counted(s, calls[i].argument)| as real
    ensures NonNull(PartialRows(s, d, calls), Col(i)) == {} <==> s == {}
    decreases |s|
  {
    var a := calls[i].argument;
    if s == {} {
    } else {
      var w :| w in s;
      var b := BucketOf(w.okey, d);
      var part, p := AtBucket(s, d, b), PartialRow(s, d, calls, b);
      assert w in part;
      var rest := s - part;
      RemoveBucket(s, d, calls, b);
      SumOfCounts(rest, d, calls, i);
      TotalRemove(PartialRows(s, d, calls), p, Col(i));
      assert PartialRows(s, d, calls) - {p} == PartialRows(rest, d, calls);
      PartialVal(s, d, calls, b, i);
      assert p in NonNull(PartialRows(s, d, calls), Col(i));
      assert s == rest + part;
      NonNullUnion(rest, part, a);
      assert Counted(rest, a) !! Counted(part, a);
    }
  }

  /** Extrema and end values: the pick over bucket picks is the pick over rows.
      For FIRST and LAST this rests on the bucket being monotone in the key. */
  lemma PickOfPicks(f: AggFunction, s: set<Row>, d: Width, calls: seq<AggCall>, i: nat)
    requires f.Min? || f.Max? || f.First? || f.Last?
    requires i < |calls| && calls[i].kind == f && Placed(s)
    ensures Eval(AggCall(f, Col(i)), PartialRows(s, d, calls)) == Eval(calls[i], s)
  {
    var a := calls[i].argument;
    var ps := PartialRows(s, d, calls);
    if NonNull(s, a) == {} {
      NoPartialSeen(s, d, calls, i);
    } else {
      var r := Pick(f, a, NonNull(s, a));
      var b := BucketOf(r.okey, d);
      var p := PartialRow(s, d, calls, b);
      PartialVal(s, d, calls, b, i);
      assert r in NonNull(AtBucket(s, d, b), a);
      PickIsAny(f, a, NonNull(AtBucket(s, d, b), a), r);
      assert Val(p, Col(i)) == Val(r, a);
      assert p in NonNull(ps, Col(i));
      forall q | q in NonNull(ps, Col(i))
        ensures Order(f, Col(i))(p, q)
      {
        PickBeats(f, s, d, calls, i, r, q);
      }
      PartialRowsPlaced(s, d, calls);
      assert IsExtreme(p, NonNull(ps, Col(i)), Order(f, Col(i)));
      PickIsAny(f, Col(i), NonNull(ps, Col(i)), p);
    }
  }

  lemma NoPartialSeen(s: set<Row>, d: Width, calls: seq<AggCall>, i: nat)
    requires i < |calls| && !calls[i].kind.Count?
    requires NonNull(s, calls[i].argument) == {}
    ensures NonNull(PartialRows(s, d, calls), Col(i)) == {}
  {
    forall p | p in PartialRows(s, d, calls)
      ensures Val(p, Col(i)).None?
    {
      var r :| r in s && p == PartialRow(s, d, calls, BucketOf(r.okey, d));
      PartialVal(s, d, calls, BucketOf(r.okey, d), i);
      assert NonNull(AtBucket(s, d, BucketOf(r.okey, d)), calls[i].argument) <= NonNull(s, calls[i].argument);
    }
  }

  lemma PickBeats(f: AggFunction, s: set<Row>, d: Width, calls: seq<AggCall>, i: nat, r: Row, q: Row)
    requires f.Min? || f.Max? || f.First? || f.Last?
    requires i < |calls| && calls[i].kind == f && Placed(s)
    requires IsExtreme(r, NonNull(s, calls[i].argument), Order(f, calls[i].argument))
    requires q in NonNull(PartialRows(s, d, calls), Col(i))
    ensures Order(f, Col(i))(PartialRow(s, d, calls, BucketOf(r.okey, d)), q)
  {
    var a := calls[i].argument;
    var x :| x in s && q == PartialRow(s, d, calls, BucketOf(x.okey, d));
    var b, c := BucketOf(r.okey, d), BucketOf(x.okey, d);
    PartialVal(s, d, calls, b, i);
    PartialVal(s, d, calls, c, i);
    var here := NonNull(AtBucket(s, d, c), a);
    assert here != {};
    var y := Pick(f, a, here);
    assert y in NonNull(s, a);
    assert r in NonNull(AtBucket(s, d, b), a);
    PickIsAny(f, a, NonNull(AtBucket(s, d, b), a), r);
    assert Order(f, a)(r, y);
    if r.okey <= y.okey { BucketOfMonotone(r.okey, y.okey, d); } else { BucketOfMonotone(y.okey, r.okey, d); }
  }

  // ------------------------------------------------- one item, reassembled

  lemma SumExact(s: set<Row>, d: Width, calls: seq<AggCall>, i: nat)
    requires i < |calls| && calls[i].kind.Sum?
    ensures Eval(AggCall(Sum, Col(i)), PartialRows(s, d, calls)) == Eval(calls[i], s)
  {
    SumOfSums(s, d, calls, i);
  }

  lemma CountExact(s: set<Row>, d: Width, calls: seq<AggCall>, i: nat)
    requires i < |calls| && calls[i].kind.Count?
    ensures var c := Eval(AggCall(Sum, Col(i)), PartialRows(s, d, calls));
            && (c.None? <==> s == {})
            && (if c.None? then Some(0.0) else c) == Eval(calls[i], s)
  {
    SumOfCounts(s, d, calls, i);
  }

  /** An average of averages would weight buckets; the quotient of combined
      sums weights rows. */
  lemma AvgExact(s: set<Row>, d: Width, calls: seq<AggCall>, i: nat, a: Argument)
    requires i + 1 < |calls| && calls[i] == AggCall(Sum, a) && calls[i + 1] == AggCall(Count, a)
    requires a.Col?
    ensures var sum, count := Eval(AggCall(Sum, Col(i)), PartialRows(s, d, calls)),
                              Eval(AggCall(Sum, Col(i + 1)), PartialRows(s, d, calls));
            Finalize(AvgDivide(0, 1), [sum, count]) == Eval(AggCall(Avg, a), s)
  {
    SumExact(s, d, calls, i);
    CountExact(s, d, calls, i + 1);
  }

  /** `calls` holds an item's partials, `combined` its combined columns, at `next`. */
  ghost predicate Laid(call: AggCall, next: nat, s: set<Row>, d: Width, calls: seq<AggCall>, combined: seq<Cell>) {
    var de := Decompose(call, next);
    && next + |de.partials| <= |calls| && next + |de.combines| <= |combined|
    && calls[next] == de.partials[0] && combined[next] == Eval(de.combines[0], PartialRows(s, d, calls))
    && (!call.kind.Avg?
        || (calls[next + 1] == de.partials[1]
            && combined[next + 1] == Eval(de.combines[1], PartialRows(s, d, calls))))
  }

  /** One aggregate item, decomposed, combined over the partial rows and
      finalized, is the aggregate over the whole group. */
  lemma ItemIsExact(call: AggCall, next: nat, s: set<Row>, d: Width, calls: seq<AggCall>, combined: seq<Cell>)
    requires Placed(s) && (call.argument.Star? ==> call.kind.Count?)
    requires Laid(call, next, s, d, calls, combined)
    ensures Finalize(StepFor(FormOf(call.kind), next), combined) == Eval(call, s)
  {
    match call.kind {
      case Sum => SumItem(call, next, s, d, calls, combined);
      case Count => CountItem(call, next, s, d, calls, combined);
      case Avg => AvgExact(s, d, calls, next, call.argument);
      case _ => PickItem(call, next, s, d, calls, combined);
    }
  }

  lemma SumItem(call: AggCall, next: nat, s: set<Row>, d: Width, calls: seq<AggCall>, combined: seq<Cell>)
    requires call.kind.Sum? && Laid(call, next, s, d, calls, combined)
    ensures Finalize(StepFor(FormOf(call.kind), next), combined) == Eval(call, s)
  {
    SumExact(s, d, calls, next);
  }

  lemma CountItem(call: AggCall, next: nat, s: set<Row>, d: Width, calls: seq<AggCall>, combined: seq<Cell>)
    requires call.kind.Count? && Laid(call, next, s, d, calls, combined)
    ensures Finalize(StepFor(FormOf(call.kind), next), combined) == Eval(call, s)
  {
    CountExact(s, d, calls, next);
  }

  lemma PickItem(call: AggCall, next: nat, s: set<Row>, d: Width, calls: seq<AggCall>, combined: seq<Cell>)
    requires call.kind.Min? || call.kind.Max? || call.kind.First? || call.kind.Last?
    requires Placed(s) && call.argument.Col? && Laid(call, next, s, d, calls, combined)
    ensures Finalize(StepFor(FormOf(call.kind), next), combined) == Eval(call, s)
  {
    PickOfPicks(call.kind, s, d, calls, next);
  }

  /** The whole SELECT list: every item finds its own columns and is exact. */
  lemma {:induction false} ListIsExact(items: seq<AggCall>, next: nat, s: set<Row>, d: Width,
                                       calls: seq<AggCall>, combines: seq<AggCall>)
    requires Placed(s)
    requires forall i :: 0 <= i < |items| ==> (items[i].argument.Star? ==> items[i].kind.Count?)
    requires next <= |calls| && next <= |combines|
    requires calls[next..] == AllPartials(items, next) && combines[next..] == AllCombines(items, next)
    ensures FinalizeAll(AllSteps(items, next), EvalAll(combines, PartialRows(s, d, calls))) == EvalAll(items, s)
  {
    if items == [] {
    } else {
      var de := Decompose(items[0], next);
      var after := next + |de.partials|;
      TailSlices(items, next, calls, combines);
      ListIsExact(items[1..], after, s, d, calls, combines);
      var combined := EvalAll(combines, PartialRows(s, d, calls));
      HeadIsLaid(items, next, s, d, calls, combines);
      ItemIsExact(items[0], next, s, d, calls, combined);
      FinalizeCons(StepFor(de.form, next), AllSteps(items[1..], after), combined);
      EvalCons(items, s);
    }
  }

  lemma TailSlices(items: seq<AggCall>, next: nat, calls: seq<AggCall>, combines: seq<AggCall>)
    requires items != [] && next <= |calls| && next <= |combines|
    requires calls[next..] == AllPartials(items, next) && combines[next..] == AllCombines(items, next)
    ensures var after := next + |Decompose(items[0], next).partials|;
            && after <= |calls| && after <= |combines|
            && calls[after..] == AllPartials(items[1..], after) && combines[after..] == AllCombines(items[1..], after)
  {
    var de := Decompose(items[0], next);
    var after := next + |de.partials|;
    assert calls[after..] == calls[next..][|de.partials|..];
    assert combines[after..] == combines[next..][|de.combines|..];
  }

  lemma FinalizeCons(step: FinalStep, steps: seq<FinalStep>, combined: seq<Cell>)
    ensures FinalizeAll([step] + steps, combined) == [Finalize(step, combined)] + FinalizeAll(steps, combined)
  {
  }

  lemma EvalCons(items: seq<AggCall>, s: set<Row>)
    requires items != []
    ensures EvalAll(items, s) == [Eval(items[0], s)] + EvalAll(items[1..], s)
  {
  }

  lemma HeadIsLaid(items: seq<AggCall>, next: nat, s: set<Row>, d: Width, calls: seq<AggCall>, combines: seq<AggCall>)
    requires items != [] && next <= |calls| && next <= |combines|
    requires calls[next..] == AllPartials(items, next) && combines[next..] == AllCombines(items, next)
    ensures Laid(items[0], next, s, d, calls, EvalAll(combines, PartialRows(s, d, calls)))
  {
    var de := Decompose(items[0], next);
    forall j | 0 <= j < |de.partials|
      ensures next + j < |calls| && next + j < |combines|
      ensures calls[next + j] == de.partials[j] && combines[next + j] == de.combines[j]
    {
      assert calls[next..][j] == AllPartials(items, next)[j] == de.partials[j];
      assert combines[next..][j] == AllCombines(items, next)[j] == de.combines[j];
    }
    assert calls[next + 0] == de.partials[0] && combines[next + 0] == de.combines[0];
    if items[0].kind.Avg? { assert calls[next + 1] == de.partials[1] && combines[next + 1] == de.combines[1]; }
  }
}
