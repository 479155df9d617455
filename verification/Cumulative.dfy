/** Cumulative views: expanding windows split at one hidden bucket.  Everything
    below the bucket comes from stored partials, everything from its low edge up
    from the source, and an adjustment folds the two per row. */
module Cumulative {
  import opened Keys
  import opened Ranges
  import opened Log
  import opened Joins
  import opened Engine
  import opened Runs
  import opened Aggregates
  import opened Partials
  import opened Running
  import opened Sizing
  import Predicates

  datatype Fold = AddFold | MinFold | MaxFold

  /** A row missing either side keeps the other; missing both is NULL. */
  function FoldCells(own: Cell, boundary: Cell, fold: Fold): Cell {
    match (own, boundary)
    case (Some(a), Some(b)) =>
      Some(match fold
           case AddFold => a + b
           case MinFold => (if b < a then b else a)
           case MaxFold => (if b > a then b else a))
    case (Some(a), None) => own
    case (None, other) => other
  }

  /** `column` and the sums and counts index the assembled row, the boundary
      fields the partition's combined row. */
  datatype AdjustStep =
    | Fold(column: nat, boundary: nat, fold: Fold)
    | AvgAssemble(sum: nat, count: nat, boundarySum: nat, boundaryCount: nat)

  function At(cells: seq<Cell>, i: nat): Cell { if i < |cells| then cells[i] else None }

  function Zeroed(c: Cell): real { match c case None => 0.0 case Some(v) => v }

  /** One adjusted cell. An absent boundary row reads as all NULL. */
  function Adjust(step: AdjustStep, assembled: seq<Cell>, boundary: seq<Cell>): Cell {
    match step
    case Fold(c, b, f) => FoldCells(At(assembled, c), At(boundary, b), f)
    case AvgAssemble(s, c, bs, bc) =>
      Quotient(FoldCells(At(assembled, s), At(boundary, bs), AddFold),
               Zeroed(At(assembled, c)) + Zeroed(At(boundary, bc)))
  }

  /** NULL where the total count is zero; divided once, after the fold. */
  function Quotient(sum: Cell, count: real): Cell {
    if count > 0.0 && sum.Some? then Some(sum.value / count) else None
  }

  predicate Expanding(call: AggCall) {
    && !call.kind.First? && !call.kind.Last?
    && (call.argument.Star? ==> call.kind.Count?)
  }

  /** The hidden sum and count windows each AVG adjusts through. */
  function Helpers(items: seq<AggCall>): seq<AggCall> {
    if items == [] then [] else HelpersOf(items[0]) + Helpers(items[1..])
  }

  function HelpersOf(call: AggCall): (h: seq<AggCall>)
    ensures |h| == HelperWidth(call)
  {
    if call.kind.Avg? then [AggCall(Sum, call.argument), AggCall(Count, call.argument)] else []
  }

  function AssemblyCalls(items: seq<AggCall>): seq<AggCall> { items + Helpers(items) }

  function StepOf(call: AggCall, index: nat, helper: nat, next: nat): AdjustStep {
    match call.kind
    case Avg => AvgAssemble(helper, helper + 1, next, next + 1)
    case Min => Fold(index, next, MinFold)
    case Max => Fold(index, next, MaxFold)
    case _ => Fold(index, next, AddFold)
  }

  function HelperWidth(call: AggCall): nat { if call.kind.Avg? then 2 else 0 }

  function AdjustSteps(items: seq<AggCall>, index: nat, helper: nat, next: nat): seq<AdjustStep> {
    if items == [] then [] else
      var later := AdjustSteps(items[1..], index + 1, helper + HelperWidth(items[0]),
                               next + |Decompose(items[0], next).partials|);
      [StepOf(items[0], index, helper, next)] + later
  }

  function AdjustAll(steps: seq<AdjustStep>, assembled: seq<Cell>, boundary: seq<Cell>): seq<Cell> {
    seq(|steps|, i requires 0 <= i < |steps| => Adjust(steps[i], assembled, boundary))
  }

  // ------------------------------------------------------- splitting a window

  /** The expanding frame of `r`: the partition's rows up to it, itself included. */
  ghost function Window(s: set<Row>, r: Row): set<Row> {
    set x | x in s && Before(x, r)
  }

  ghost function BelowBucket(s: set<Row>, d: Width, b: i64): set<Row> {
    set x | x in s && BucketOf(x.okey, d) < b
  }

  ghost function FromKey(s: set<Row>, low: i64): set<Row> {
    set x | x in s && x.okey >= low
  }

  /** The split is exact and disjoint at every assembled row: truncating division
      is monotone, so "bucket below B" is "key below B's low edge". */
  lemma WindowSplits(s: set<Row>, d: Width, b: i64, r: Row)
    requires Attainable(b, d) && r.okey >= BucketLow(b, d)
    ensures Window(s, r) == BelowBucket(s, d, b) + Window(FromKey(s, BucketLow(b, d)), r)
    ensures BelowBucket(s, d, b) !! Window(FromKey(s, BucketLow(b, d)), r)
  {
    forall x | x in s
      ensures BucketOf(x.okey, d) < b <==> x.okey < BucketLow(b, d)
    {
      LowEdge(x.okey, b, d);
    }
  }

  /** SUM, COUNT, MIN and MAX over two disjoint halves. */
  lemma EvalSplits(call: AggCall, s: set<Row>, t: set<Row>)
    requires s !! t && Expanding(call) && !call.kind.Avg?
    ensures FoldCells(Eval(call, t), if s == {} then None else Eval(call, s),
                      if call.kind.Min? then MinFold else if call.kind.Max? then MaxFold else AddFold)
         == Eval(call, s + t)
  {
    match call.kind {
      case Count => CountSplits(call, s, t);
      case Sum => SumSplits(call, s, t);
      case _ => ExtremeSplits(call, s, t);
    }
  }

  lemma CountSplits(call: AggCall, s: set<Row>, t: set<Row>)
    requires s !! t && call.kind.Count?
    ensures FoldCells(Eval(call, t), if s == {} then None else Eval(call, s), AddFold) == Eval(call, s + t)
  {
    NonNullUnion(s, t, call.argument);
    assert Counted(s, call.argument) !! Counted(t, call.argument);
    if s == {} { assert s + t == t; }
  }

  lemma SumSplits(call: AggCall, s: set<Row>, t: set<Row>)
    requires s !! t && call.kind.Sum?
    ensures FoldCells(Eval(call, t), if s == {} then None else Eval(call, s), AddFold) == Eval(call, s + t)
  {
    SumCell(call, s);
    SumCell(call, t);
    SumCell(call, s + t);
    SumsAdd(call.argument, s, t);
  }

  lemma SumCell(call: AggCall, s: set<Row>)
    requires call.kind.Sum?
    ensures Eval(call, s) == if NonNull(s, call.argument) == {} then None else Some(Total(s, call.argument))
    ensures NonNull(s, call.argument) == {} ==> Total(s, call.argument) == 0.0
  {
    if NonNull(s, call.argument) == {} { TotalOfNulls(s, call.argument); }
  }

  lemma SumsAdd(a: Argument, s: set<Row>, t: set<Row>)
    requires s !! t
    ensures NonNull(s + t, a) == {} <==> NonNull(s, a) == {} && NonNull(t, a) == {}
    ensures Total(s + t, a) == Total(s, a) + Total(t, a)
  {
    NonNullUnion(s, t, a);
    TotalUnion(s, t, a);
  }

  lemma ExtremeSplits(call: AggCall, s: set<Row>, t: set<Row>)
    requires call.kind.Min? || call.kind.Max?
    ensures FoldCells(Eval(call, t), if s == {} then None else Eval(call, s),
                      if call.kind.Min? then MinFold else MaxFold)
         == Eval(call, s + t)
  {
    var a, f := call.argument, call.kind;
    var ns, nt := NonNull(s, a), NonNull(t, a);
    NonNullUnion(s, t, a);
    if ns + nt != {} {
      var p := Pick(f, a, ns + nt);
      if p in ns { PickIsAny(f, a, ns, p); }
      if p in nt { PickIsAny(f, a, nt, p); }
      if ns != {} { assert Order(f, a)(p, Pick(f, a, ns)); }
      if nt != {} { assert Order(f, a)(p, Pick(f, a, nt)); }
    }
  }

  // -------------------------------------------------------------- the boundary

  /** The boundary combine for one partition: stored partials strictly below the
      bucket; no such row, no boundary. */
  ghost function Boundary(items: seq<AggCall>, stored: set<Row>, b: i64): seq<Cell> {
    var below := set p | p in stored && p.okey < b;
    if below == {} then [] else EvalAll(AllCombines(items, 0), below)
  }

  /** The stored partials below a bucket are the partials of the rows below it. */
  lemma PartialsBelow(s: set<Row>, d: Width, calls: seq<AggCall>, b: i64)
    ensures (set p | p in PartialRows(s, d, calls) && p.okey < b) == PartialRows(BelowBucket(s, d, b), d, calls)
  {
    var low := BelowBucket(s, d, b);
    forall r | r in low
      ensures PartialRow(s, d, calls, BucketOf(r.okey, d)) == PartialRow(low, d, calls, BucketOf(r.okey, d))
    {
      assert AtBucket(s, d, BucketOf(r.okey, d)) == AtBucket(low, d, BucketOf(r.okey, d));
    }
    forall p ensures p in PartialRows(s, d, calls) && p.okey < b <==> p in PartialRows(low, d, calls) {
      if p in PartialRows(s, d, calls) && p.okey < b {
        var r :| r in s && p == PartialRow(s, d, calls, BucketOf(r.okey, d));
        assert r in low;
      }
      if p in PartialRows(low, d, calls) {
        var r :| r in low && p == PartialRow(low, d, calls, BucketOf(r.okey, d));
        assert p == PartialRow(s, d, calls, BucketOf(r.okey, d));
      }
    }
  }

  /** What a boundary cell says about the rows below. */
  lemma BoundaryCell(call: AggCall, low: set<Row>, d: Width, calls: seq<AggCall>, i: nat)
    requires Placed(low) && i < |calls| && calls[i] == call && Expanding(call) && !call.kind.Avg?
    ensures Eval(AggCall(if call.kind.Count? then Sum else call.kind, Col(i)), PartialRows(low, d, calls))
         == if low == {} then None else Eval(call, low)
  {
    match call.kind {
      case Sum => SumExact(low, d, calls, i);
      case Count => CountExact(low, d, calls, i);
      case _ => PickOfPicks(call.kind, low, d, calls, i);
    }
  }

  // ------------------------------------------------------- one item, one row

  /** Where an item's columns sit on both sides of the adjustment. */
  ghost predicate Sits(call: AggCall, index: nat, helper: nat, next: nat,
                       asm: seq<AggCall>, calls: seq<AggCall>, combines: seq<AggCall>) {
    var de := Decompose(call, next);
    && index < |asm| && asm[index] == call
    && next + |de.partials| <= |calls| && next + |de.partials| <= |combines|
    && calls[next] == de.partials[0] && combines[next] == de.combines[0]
    && (!call.kind.Avg?
        || (helper + 2 <= |asm| && asm[helper] == AggCall(Sum, call.argument)
            && asm[helper + 1] == AggCall(Count, call.argument)
            && calls[next + 1] == de.partials[1] && combines[next + 1] == de.combines[1]))
  }

  ghost function BoundaryOf(combines: seq<AggCall>, low: set<Row>, d: Width, calls: seq<AggCall>): seq<Cell> {
    if low == {} then [] else EvalAll(combines, PartialRows(low, d, calls))
  }

  lemma ItemAdjusts(call: AggCall, index: nat, helper: nat, next: nat, asm: seq<AggCall>,
                    calls: seq<AggCall>, combines: seq<AggCall>, low: set<Row>, high: set<Row>, d: Width)
    requires Expanding(call) && Placed(low) && low !! high
    requires Sits(call, index, helper, next, asm, calls, combines)
    ensures Adjust(StepOf(call, index, helper, next), EvalAll(asm, high), BoundaryOf(combines, low, d, calls))
         == Eval(call, low + high)
  {
    if call.kind.Avg? {
      AvgAdjusts(call, index, helper, next, asm, calls, combines, low, high, d);
    } else {
      BoundaryCell(call, low, d, calls, next);
      EvalSplits(call, low, high);
    }
  }

  /** AVG adjusts through its parts, never through its quotient. */
  lemma AvgAdjusts(call: AggCall, index: nat, helper: nat, next: nat, asm: seq<AggCall>,
                   calls: seq<AggCall>, combines: seq<AggCall>, low: set<Row>, high: set<Row>, d: Width)
    requires Expanding(call) && call.kind.Avg? && Placed(low) && low !! high
    requires Sits(call, index, helper, next, asm, calls, combines)
    ensures Adjust(StepOf(call, index, helper, next), EvalAll(asm, high), BoundaryOf(combines, low, d, calls))
         == Eval(call, low + high)
  {
    var sum, count := AggCall(Sum, call.argument), AggCall(Count, call.argument);
    BoundaryCell(sum, low, d, calls, next);
    BoundaryCell(count, low, d, calls, next + 1);
    AtBoundary(combines, low, d, calls, next);
    AtBoundary(combines, low, d, calls, next + 1);
    AtCell(asm, high, helper);
    AtCell(asm, high, helper + 1);
    AvgFromCells(call, low, high, EvalAll(asm, high), BoundaryOf(combines, low, d, calls), helper, next);
  }

  lemma AvgFromCells(call: AggCall, low: set<Row>, high: set<Row>, assembled: seq<Cell>, boundary: seq<Cell>,
                     helper: nat, next: nat)
    requires Expanding(call) && call.kind.Avg? && low !! high
    requires At(assembled, helper) == Eval(AggCall(Sum, call.argument), high)
    requires At(assembled, helper + 1) == Eval(AggCall(Count, call.argument), high)
    requires At(boundary, next) == EvalOrAbsent(AggCall(Sum, call.argument), low)
    requires At(boundary, next + 1) == EvalOrAbsent(AggCall(Count, call.argument), low)
    ensures Adjust(AvgAssemble(helper, helper + 1, next, next + 1), assembled, boundary) == Eval(call, low + high)
  {
    AvgOfParts(call, low, high);
  }

  lemma AtCell(calls: seq<AggCall>, s: set<Row>, i: nat)
    requires i < |calls|
    ensures At(EvalAll(calls, s), i) == Eval(calls[i], s)
  {
  }

  lemma AtBoundary(combines: seq<AggCall>, low: set<Row>, d: Width, calls: seq<AggCall>, i: nat)
    requires i < |combines|
    ensures At(BoundaryOf(combines, low, d, calls), i)
         == if low == {} then None else Eval(combines[i], PartialRows(low, d, calls))
  {
  }

  ghost function EvalOrAbsent(call: AggCall, s: set<Row>): Cell {
    if s == {} then None else Eval(call, s)
  }

  lemma AvgOfParts(call: AggCall, low: set<Row>, high: set<Row>)
    requires Expanding(call) && call.kind.Avg? && low !! high
    ensures Quotient(FoldCells(Eval(AggCall(Sum, call.argument), high),
                               EvalOrAbsent(AggCall(Sum, call.argument), low), AddFold),
                     Zeroed(Eval(AggCall(Count, call.argument), high))
                     + Zeroed(EvalOrAbsent(AggCall(Count, call.argument), low)))
         == Eval(call, low + high)
  {
    var sum, count := AggCall(Sum, call.argument), AggCall(Count, call.argument);
    EvalSplits(sum, low, high);
    EvalSplits(count, low, high);
  }

  // ------------------------------------------------------------ the whole row

  /** The items' columns sit one after another on both sides. */
  ghost predicate LaidOut(items: seq<AggCall>, index: nat, helper: nat, next: nat, asm: seq<AggCall>,
                          calls: seq<AggCall>, combines: seq<AggCall>) {
    && index + |items| <= |asm| && asm[index..index + |items|] == items
    && helper <= |asm| && asm[helper..] == Helpers(items)
    && next <= |calls| && next <= |combines|
    && calls[next..] == AllPartials(items, next) && combines[next..] == AllCombines(items, next)
  }

  lemma RestLaidOut(items: seq<AggCall>, index: nat, helper: nat, next: nat, asm: seq<AggCall>,
                    calls: seq<AggCall>, combines: seq<AggCall>)
    requires items != [] && LaidOut(items, index, helper, next, asm, calls, combines)
    ensures LaidOut(items[1..], index + 1, helper + HelperWidth(items[0]),
                    next + |Decompose(items[0], next).partials|, asm, calls, combines)
  {
    TailSlices(items, next, calls, combines);
    AssemblySlices(items, index, helper, asm);
  }

  lemma {:induction false} RowAdjusts(items: seq<AggCall>, index: nat, helper: nat, next: nat, asm: seq<AggCall>,
                                      calls: seq<AggCall>, combines: seq<AggCall>,
                                      low: set<Row>, high: set<Row>, d: Width)
    requires forall i :: 0 <= i < |items| ==> Expanding(items[i])
    requires Placed(low) && low !! high && LaidOut(items, index, helper, next, asm, calls, combines)
    ensures AdjustAll(AdjustSteps(items, index, helper, next), EvalAll(asm, high), BoundaryOf(combines, low, d, calls))
         == EvalAll(items, low + high)
  {
    if items == [] {
    } else {
      var call, rest := items[0], items[1..];
      var after := next + |Decompose(call, next).partials|;
      ItemSits(items, index, helper, next, asm, calls, combines);
      ItemAdjusts(call, index, helper, next, asm, calls, combines, low, high, d);
      RestLaidOut(items, index, helper, next, asm, calls, combines);
      RowAdjusts(rest, index + 1, helper + HelperWidth(call), after, asm, calls, combines, low, high, d);
      EvalCons(items, low + high);
      StepsCons(items, index, helper, next, EvalAll(asm, high), BoundaryOf(combines, low, d, calls));
    }
  }

  lemma StepsCons(items: seq<AggCall>, index: nat, helper: nat, next: nat, assembled: seq<Cell>, boundary: seq<Cell>)
    requires items != []
    ensures AdjustAll(AdjustSteps(items, index, helper, next), assembled, boundary)
         == [Adjust(StepOf(items[0], index, helper, next), assembled, boundary)]
          + AdjustAll(AdjustSteps(items[1..], index + 1, helper + HelperWidth(items[0]),
                                  next + |Decompose(items[0], next).partials|), assembled, boundary)
  {
    AdjustCons(StepOf(items[0], index, helper, next),
               AdjustSteps(items[1..], index + 1, helper + HelperWidth(items[0]),
                           next + |Decompose(items[0], next).partials|), assembled, boundary);
  }

  lemma AdjustCons(step: AdjustStep, steps: seq<AdjustStep>, assembled: seq<Cell>, boundary: seq<Cell>)
    ensures AdjustAll([step] + steps, assembled, boundary)
         == [Adjust(step, assembled, boundary)] + AdjustAll(steps, assembled, boundary)
  {
  }

  lemma AssemblySlices(items: seq<AggCall>, index: nat, helper: nat, asm: seq<AggCall>)
    requires items != []
    requires index + |items| <= |asm| && asm[index..index + |items|] == items
    requires helper <= |asm| && asm[helper..] == Helpers(items)
    ensures helper + HelperWidth(items[0]) <= |asm| && asm[helper + HelperWidth(items[0])..] == Helpers(items[1..])
    ensures asm[index + 1..index + |items|] == items[1..]
    ensures asm[index] == items[0] && asm[helper..helper + HelperWidth(items[0])] == HelpersOf(items[0])
  {
    HelpersCons(items);
    HelperSlices(asm, helper, HelpersOf(items[0]), Helpers(items[1..]));
    ItemSlices(asm, index, items);
  }

  lemma HelpersCons(items: seq<AggCall>)
    requires items != []
    ensures Helpers(items) == HelpersOf(items[0]) + Helpers(items[1..])
    ensures |HelpersOf(items[0])| == HelperWidth(items[0])
  {
  }

  lemma HelperSlices(asm: seq<AggCall>, helper: nat, head: seq<AggCall>, tail: seq<AggCall>)
    requires helper <= |asm| && asm[helper..] == head + tail
    ensures helper + |head| <= |asm| && asm[helper..helper + |head|] == head && asm[helper + |head|..] == tail
  {
    assert asm[helper..][..|head|] == asm[helper..helper + |head|];
    assert asm[helper..][|head|..] == asm[helper + |head|..];
  }

  lemma ItemSlices(asm: seq<AggCall>, index: nat, items: seq<AggCall>)
    requires items != [] && index + |items| <= |asm| && asm[index..index + |items|] == items
    ensures asm[index] == items[0] && asm[index + 1..index + |items|] == items[1..]
  {
    assert asm[index..index + |items|][1..] == asm[index + 1..index + |items|];
  }

  lemma ItemSits(items: seq<AggCall>, index: nat, helper: nat, next: nat, asm: seq<AggCall>,
                 calls: seq<AggCall>, combines: seq<AggCall>)
    requires items != [] && LaidOut(items, index, helper, next, asm, calls, combines)
    ensures Sits(items[0], index, helper, next, asm, calls, combines)
  {
    AssemblySlices(items, index, helper, asm);
    HeadIsLaid(items, next, {}, 1, calls, combines);
    var de := Decompose(items[0], next);
    TailSlices(items, next, calls, combines);
    assert combines[next..][0] == de.combines[0];
    if items[0].kind.Avg? {
      assert asm[helper..helper + 2][0] == asm[helper] && asm[helper..helper + 2][1] == asm[helper + 1];
      assert combines[next..][1] == de.combines[1];
    }
  }

  /** One partition of a cumulative read: for every assembled row, the boundary
      and the assembled windows fold to the full expanding windows. */
  lemma PartitionIsExact(items: seq<AggCall>, s: set<Row>, d: Width, b: i64, r: Row)
    requires forall i :: 0 <= i < |items| ==> Expanding(items[i])
    requires Placed(s) && Attainable(b, d) && r.okey >= BucketLow(b, d)
    ensures AdjustAll(AdjustSteps(items, 0, |items|, 0),
                      EvalAll(AssemblyCalls(items), Window(FromKey(s, BucketLow(b, d)), r)),
                      Boundary(items, PartialRows(s, d, AllPartials(items, 0)), b))
         == EvalAll(items, Window(s, r))
  {
    var low, high := BelowBucket(s, d, b), Window(FromKey(s, BucketLow(b, d)), r);
    BoundaryIsBelow(items, s, d, b);
    WindowSplits(s, d, b, r);
    assert Placed(low);
    RowAdjustsFromStart(items, low, high, d);
  }

  lemma BoundaryIsBelow(items: seq<AggCall>, s: set<Row>, d: Width, b: i64)
    ensures Boundary(items, PartialRows(s, d, AllPartials(items, 0)), b)
         == BoundaryOf(AllCombines(items, 0), BelowBucket(s, d, b), d, AllPartials(items, 0))
  {
    var calls, low := AllPartials(items, 0), BelowBucket(s, d, b);
    PartialsBelow(s, d, calls, b);
    if x :| x in low { assert PartialRow(low, d, calls, BucketOf(x.okey, d)) in PartialRows(low, d, calls); }
  }

  lemma RowAdjustsFromStart(items: seq<AggCall>, low: set<Row>, high: set<Row>, d: Width)
    requires forall i :: 0 <= i < |items| ==> Expanding(items[i])
    requires Placed(low) && low !! high
    ensures AdjustAll(AdjustSteps(items, 0, |items|, 0), EvalAll(AssemblyCalls(items), high),
                      BoundaryOf(AllCombines(items, 0), low, d, AllPartials(items, 0)))
         == EvalAll(items, low + high)
  {
    var calls, combines, asm := AllPartials(items, 0), AllCombines(items, 0), AssemblyCalls(items);
    assert calls[0..] == calls;
    assert combines[0..] == combines;
    assert asm[0..0 + |items|] == items;
    assert asm[|items|..] == Helpers(items);
    RowAdjusts(items, 0, |items|, 0, asm, calls, combines, low, high, d);
  }

  // ------------------------------------------------------------ batches, looped

  datatype Assembled = Assembled(partition: Names, cells: seq<Cell>)

  function Lookup(boundaries: map<Names, seq<Cell>>, partition: Names): seq<Cell> {
    if partition in boundaries then boundaries[partition] else []
  }

  ghost predicate IsColumn(column: seq<Cell>, step: AdjustStep, rows: seq<Assembled>,
                           boundaries: map<Names, seq<Cell>>) {
    && |column| == |rows|
    && forall i :: 0 <= i < |rows| ==>
         column[i] == Adjust(step, rows[i].cells, Lookup(boundaries, rows[i].partition))
  }

  /** One adjusted column over a batch. */
  method AdjustColumn(step: AdjustStep, rows: seq<Assembled>, boundaries: map<Names, seq<Cell>>)
    returns (column: seq<Cell>)
    ensures IsColumn(column, step, rows, boundaries)
  {
    column := [];
    for i := 0 to |rows|
      invariant |column| == i
      invariant forall j :: 0 <= j < i ==>
                  column[j] == Adjust(step, rows[j].cells, Lookup(boundaries, rows[j].partition))
    {
      var boundary := Lookup(boundaries, rows[i].partition);
      match step {
        case Fold(c, b, f) => column := column + [FoldCells(At(rows[i].cells, c), At(boundary, b), f)];
        case AvgAssemble(s, c, bs, bc) =>
          var totalCount := Zeroed(At(rows[i].cells, c)) + Zeroed(At(boundary, bc));
          var totalSum := FoldCells(At(rows[i].cells, s), At(boundary, bs), AddFold);
          column := column + [if totalCount > 0.0 && totalSum.Some? then Some(totalSum.value / totalCount) else None];
      }
    }
  }

  /** One batch: every step's column, in output order. */
  method AdjustBatch(steps: seq<AdjustStep>, rows: seq<Assembled>, boundaries: map<Names, seq<Cell>>)
    returns (columns: seq<seq<Cell>>)
    ensures AreColumns(columns, steps, rows, boundaries)
  {
    columns := [];
    for s := 0 to |steps|
      invariant |columns| == s
      invariant forall t :: 0 <= t < s ==> IsColumn(columns[t], steps[t], rows, boundaries)
    {
      var column := AdjustColumn(steps[s], rows, boundaries);
      columns := columns + [column];
    }
  }

  ghost predicate AreColumns(columns: seq<seq<Cell>>, steps: seq<AdjustStep>, rows: seq<Assembled>,
                             boundaries: map<Names, seq<Cell>>) {
    |columns| == |steps| && forall s :: 0 <= s < |steps| ==> IsColumn(columns[s], steps[s], rows, boundaries)
  }

  /** An adjusted batch as the output holds it: so many rows, column by column. */
  datatype Batch = Batch(rows: nat, columns: seq<seq<Cell>>)

  ghost predicate Rectangular(batch: Batch) {
    forall s :: 0 <= s < |batch.columns| ==> |batch.columns[s]| == batch.rows
  }

  /** Row `i` read across the columns. */
  ghost function Across(columns: seq<seq<Cell>>, i: nat): seq<Cell>
    requires forall s :: 0 <= s < |columns| ==> i < |columns[s]|
  {
    seq(|columns|, s requires 0 <= s < |columns| => columns[s][i])
  }

  ghost function RowsAcross(batch: Batch): seq<seq<Cell>>
    requires Rectangular(batch)
  {
    seq(batch.rows, i requires 0 <= i < batch.rows => Across(batch.columns, i))
  }

  ghost function OutputRows(batches: seq<Batch>): seq<seq<Cell>>
    requires forall k :: 0 <= k < |batches| ==> Rectangular(batches[k])
  {
    if batches == [] then [] else OutputRows(batches[..|batches| - 1]) + RowsAcross(batches[|batches| - 1])
  }

  function Concat<A>(batches: seq<seq<A>>): seq<A> {
    if batches == [] then [] else Concat(batches[..|batches| - 1]) + batches[|batches| - 1]
  }

  /** What the adjustment makes of assembled rows. */
  function AdjustedRows(steps: seq<AdjustStep>, rows: seq<Assembled>,
                        boundaries: map<Names, seq<Cell>>): seq<seq<Cell>> {
    seq(|rows|, i requires 0 <= i < |rows| => AdjustAll(steps, rows[i].cells, Lookup(boundaries, rows[i].partition)))
  }

  /** Read across, a batch's columns are each row's adjustment. */
  lemma BatchRowIsAdjusted(steps: seq<AdjustStep>, rows: seq<Assembled>, boundaries: map<Names, seq<Cell>>,
                           columns: seq<seq<Cell>>)
    requires AreColumns(columns, steps, rows, boundaries)
    ensures Rectangular(Batch(|rows|, columns))
    ensures RowsAcross(Batch(|rows|, columns)) == AdjustedRows(steps, rows, boundaries)
  {
    forall i | 0 <= i < |rows|
      ensures Across(columns, i) == AdjustAll(steps, rows[i].cells, Lookup(boundaries, rows[i].partition))
    {
      assert forall s :: 0 <= s < |steps| ==> IsColumn(columns[s], steps[s], rows, boundaries);
    }
  }

  /** `adjust_batches`: every batch in turn, empty ones skipped. */
  method AdjustBatches(steps: seq<AdjustStep>, batches: seq<seq<Assembled>>, boundaries: map<Names, seq<Cell>>)
    returns (out: seq<Batch>)
    ensures forall k :: 0 <= k < |out| ==> Rectangular(out[k])
    ensures OutputRows(out) == AdjustedRows(steps, Concat(batches), boundaries)
  {
    out := [];
    for k := 0 to |batches|
      invariant forall j :: 0 <= j < |out| ==> Rectangular(out[j])
      invariant OutputRows(out) == AdjustedRows(steps, Concat(batches[..k]), boundaries)
    {
      assert batches[..k + 1][..k] == batches[..k];
      if |batches[k]| > 0 {
        var columns := AdjustBatch(steps, batches[k], boundaries);
        BatchRowIsAdjusted(steps, batches[k], boundaries, columns);
        out := out + [Batch(|batches[k]|, columns)];
      }
      AdjustedConcat(steps, Concat(batches[..k]), batches[k], boundaries);
    }
    assert batches[..|batches|] == batches;
  }

  lemma AdjustedConcat(steps: seq<AdjustStep>, a: seq<Assembled>, b: seq<Assembled>, boundaries: map<Names, seq<Cell>>)
    ensures AdjustedRows(steps, a + b, boundaries)
         == AdjustedRows(steps, a, boundaries) + AdjustedRows(steps, b, boundaries)
  {
  }

  // ------------------------------------------------------------- the boundaries

  /** One row of the boundary combine's output. */
  datatype Combined = Combined(partition: Names, cells: seq<Cell>)

  ghost function StoredBelow(union: set<ViewRow>, partition: Names, b: i64): set<Row> {
    set p | p in StoredRows(union, partition) && p.okey < b
  }

  /** The combine over the partials below bucket `b`: one row per partition that
      has any (and, with no partition columns, one row whatever there is). */
  ghost predicate IsCombine(items: seq<AggCall>, union: set<ViewRow>, b: i64, combined: seq<Combined>) {
    && (forall i, j :: 0 <= i < j < |combined| ==> combined[i].partition != combined[j].partition)
    && (forall i :: 0 <= i < |combined| ==>
          combined[i].cells == EvalAll(AllCombines(items, 0), StoredBelow(union, combined[i].partition, b)))
    && forall partition :: StoredBelow(union, partition, b) != {} ==> HasPartition(combined, partition)
  }

  ghost predicate HasPartition(combined: seq<Combined>, partition: Names) {
    exists i :: 0 <= i < |combined| && combined[i].partition == partition
  }

  /** `boundary_rows`: the combine's rows as a lookup by partition. */
  method BoundaryRows(combined: seq<Combined>) returns (boundaries: map<Names, seq<Cell>>)
    requires forall i, j :: 0 <= i < j < |combined| ==> combined[i].partition != combined[j].partition
    ensures forall i :: 0 <= i < |combined| ==>
              combined[i].partition in boundaries && boundaries[combined[i].partition] == combined[i].cells
    ensures forall partition :: partition in boundaries ==> HasPartition(combined, partition)
  {
    boundaries := map[];
    for i := 0 to |combined|
      invariant forall j :: 0 <= j < i ==>
                  combined[j].partition in boundaries && boundaries[combined[j].partition] == combined[j].cells
      invariant forall partition :: partition in boundaries ==> HasPartition(combined, partition)
    {
      boundaries := boundaries[combined[i].partition := combined[i].cells];
    }
  }

  /** Cell for cell alike; a missing cell is NULL. */
  ghost predicate SameCells(a: seq<Cell>, b: seq<Cell>) {
    forall i: nat :: At(a, i) == At(b, i)
  }

  lemma SameCellsAdjust(steps: seq<AdjustStep>, assembled: seq<Cell>, a: seq<Cell>, b: seq<Cell>)
    requires SameCells(a, b)
    ensures AdjustAll(steps, assembled, a) == AdjustAll(steps, assembled, b)
  {
    forall i | 0 <= i < |steps| ensures Adjust(steps[i], assembled, a) == Adjust(steps[i], assembled, b) {}
  }

  /** Combining nothing yields NULLs, as having no boundary row does. */
  lemma {:induction false} NothingCombines(items: seq<AggCall>, next: nat)
    requires forall i :: 0 <= i < |items| ==> Expanding(items[i])
    ensures forall i :: 0 <= i < |AllCombines(items, next)| ==> Eval(AllCombines(items, next)[i], {}) == None
  {
    if items == [] {
    } else {
      var d := Decompose(items[0], next);
      NothingCombines(items[1..], next + |d.partials|);
      forall i | 0 <= i < |d.combines| ensures Eval(d.combines[i], {}) == None {
        assert d.combines[i].kind.Sum? || d.combines[i].kind.Min? || d.combines[i].kind.Max?;
        assert NonNull({}, d.combines[i].argument) == {};
      }
    }
  }

  /** Whatever is looked up is the partition's boundary. */
  lemma LookupIsBoundary(items: seq<AggCall>, union: set<ViewRow>, b: i64, combined: seq<Combined>,
                         boundaries: map<Names, seq<Cell>>, partition: Names)
    requires forall i :: 0 <= i < |items| ==> Expanding(items[i])
    requires IsCombine(items, union, b, combined)
    requires forall i :: 0 <= i < |combined| ==>
               combined[i].partition in boundaries && boundaries[combined[i].partition] == combined[i].cells
    requires forall p :: p in boundaries ==> HasPartition(combined, p)
    ensures SameCells(Lookup(boundaries, partition), Boundary(items, StoredRows(union, partition), b))
  {
    if partition in boundaries {
      var i :| 0 <= i < |combined| && combined[i].partition == partition;
      assert boundaries[partition] == EvalAll(AllCombines(items, 0), StoredBelow(union, partition, b));
      NothingCombines(items, 0);
    } else {
      assert StoredBelow(union, partition, b) == {};
    }
  }

  // -------------------------------------------------------------- the view read

  /** What the read computes for row `r` when boundary bucket `b` was chosen. */
  ghost function AdjustedWindows(t: Totals, p: PartialsView, runs: seq<Range>, b: i64, r: Row): seq<Cell>
    requires 1 <= p.width <= MAX
  {
    var partition := t.GroupRows(p.s.facts.Live(), t.keys(r));
    AdjustAll(AdjustSteps(t.items, 0, |t.items|, 0),
              EvalAll(AssemblyCalls(t.items), Window(FromKey(partition, BucketLow(b, p.width)), r)),
              Boundary(t.items, StoredRows(PartialsUnion(t, p, runs), t.keys(r)), b))
  }

  /** A cumulative read after any run: with the boundary bucket taken from the
      query's own lower bound, every assembled row's adjusted windows are the full
      expanding windows over the partition's current rows. */
  lemma EveryCumulativeReadIsExact(t: Totals, es: seq<SizedEvent>, runs: seq<Range>, floor: i64, r: Row)
    requires forall i :: 0 <= i < |t.items| ==> Expanding(t.items[i])
    requires SizedShelteredRun(t, es) && 1 <= SizedRun(t, es).width <= MAX
    requires var p := SizedRun(t, es); LiveRuns(t.Materialized(p.width), p.s.facts, p.s.dims, p.s.view, runs)
    requires r in SizedRun(t, es).s.facts.Live() && t.accept(r)
    requires r.okey >= BucketLow(BucketOf(floor, SizedRun(t, es).width), SizedRun(t, es).width)
    ensures var p := SizedRun(t, es);
            && AdjustedWindows(t, p, runs, BucketOf(floor, p.width), r)
            == EvalAll(t.items, Window(t.GroupRows(p.s.facts.Live(), t.keys(r)), r))
  {
    PartialsUnionIsComplete(t, es, runs);
    var p := SizedRun(t, es);
    StoredIsPartial(t, p.s.facts, p.width, t.keys(r));
    UniqueIsPlaced(p.s.facts.Live());
    Attains(floor, p.width);
    PartitionIsExact(t.items, t.GroupRows(p.s.facts.Live(), t.keys(r)), p.width, BucketOf(floor, p.width), r);
  }

  /** What the assembly plan returns for row `r`: its partition, and the user's and
      the helper windows over the partition from the boundary bucket's low edge up. */
  ghost function AssembledRow(t: Totals, p: PartialsView, floor: i64, r: Row): Assembled
    requires 1 <= p.width <= MAX
  {
    var partition := t.GroupRows(p.s.facts.Live(), t.keys(r));
    Assembled(t.keys(r), EvalAll(AssemblyCalls(t.items),
                                 Window(FromKey(partition, BucketLow(BucketOf(floor, p.width), p.width)), r)))
  }

  /** No row the query's predicate accepts is missing from the assembly. */
  lemma AssemblyCoversTheQuery(where: Predicates.Predicate, okey: string, row: Predicates.Env, k: i64, d: Width)
    requires row.column(okey) == Predicates.Number_(k as real)
    requires Predicates.Accepts(where, row) && Predicates.OkeyLowerBound(where, okey).AtLeast?
    ensures k >= BucketLow(BucketOf(Predicates.OkeyLowerBound(where, okey).key, d), d)
  {
    var v := Predicates.OkeyLowerBound(where, okey).key;
    Predicates.LowerBoundIsSound(where, okey, row, k);
    Attains(v, d);
    LowEdge(v, BucketOf(v, d), d);
  }

  /** A row's full expanding windows: what the definition says of it. */
  ghost function FullWindows(t: Totals, facts: set<Row>, r: Row): seq<Cell> {
    EvalAll(t.items, Window(t.GroupRows(facts, t.keys(r)), r))
  }

  /** The frame in so many words: the partition's rows by an earlier clock, or by
      the same clock and no later arrival. */
  lemma FrameIs(t: Totals, facts: set<Row>, r: Row, frame: set<Row>)
    requires forall x :: x in frame <==>
               && x in facts && t.accept(x) && t.keys(x) == t.keys(r)
               && (x.okey < r.okey || (x.okey == r.okey && x.id <= r.id))
    ensures FullWindows(t, facts, r) == EvalAll(t.items, frame)
  {
    assert Window(t.GroupRows(facts, t.keys(r)), r) == frame;
  }

  /** A later row changes no earlier row's windows. */
  lemma LaterRowsDoNotCount(t: Totals, facts: set<Row>, r: Row, x: Row)
    requires r.okey < x.okey || (r.okey == x.okey && r.id < x.id)
    ensures FullWindows(t, facts + {x}, r) == FullWindows(t, facts, r)
  {
    assert Window(t.GroupRows(facts + {x}, t.keys(r)), r) == Window(t.GroupRows(facts, t.keys(r)), r);
  }

  /** The partition's first row answers over itself alone. */
  lemma FirstRowStandsAlone(t: Totals, facts: set<Row>, r: Row)
    requires r in facts && t.accept(r)
    requires forall x :: x in facts && t.accept(x) && t.keys(x) == t.keys(r) ==>
               x == r || r.okey < x.okey || (r.okey == x.okey && r.id < x.id)
    ensures FullWindows(t, facts, r) == EvalAll(t.items, {r})
  {
    FrameIs(t, facts, r, {r});
  }

  /** The next row answers over the previous row's frame and itself. */
  lemma NextRowAddsItself(t: Totals, facts: set<Row>, r: Row, next: Row, frame: set<Row>)
    requires next in facts && t.accept(next) && t.keys(next) == t.keys(r)
    requires r.okey < next.okey || (r.okey == next.okey && r.id < next.id)
    requires forall x :: x in facts && t.accept(x) && t.keys(x) == t.keys(r) ==>
               || x == next || x.okey < r.okey || (x.okey == r.okey && x.id <= r.id)
               || next.okey < x.okey || (next.okey == x.okey && next.id < x.id)
    requires forall x :: x in frame <==>
               && x in facts && t.accept(x) && t.keys(x) == t.keys(r)
               && (x.okey < r.okey || (x.okey == r.okey && x.id <= r.id))
    ensures FullWindows(t, facts, r) == EvalAll(t.items, frame) && next !in frame
    ensures FullWindows(t, facts, next) == EvalAll(t.items, frame + {next})
  {
    FrameIs(t, facts, r, frame);
    FrameIs(t, facts, next, frame + {next});
  }

  /** A running COUNT(*) numbers a partition's rows. */
  lemma CountNumbersRows(t: Totals, facts: set<Row>, rows: seq<Row>, i: nat, item: nat)
    requires i < |rows| && item < |t.items| && t.items[item] == AggCall(Count, Star)
    requires forall a, b :: 0 <= a < b < |rows| ==>
               rows[a].okey < rows[b].okey || (rows[a].okey == rows[b].okey && rows[a].id < rows[b].id)
    requires forall x :: x in rows <==> x in facts && t.accept(x) && t.keys(x) == t.keys(rows[i])
    ensures FullWindows(t, facts, rows[i])[item] == Some((i + 1) as real)
  {
    var frame := Members(rows[..i + 1]);
    forall x | x in rows && (x.okey < rows[i].okey || (x.okey == rows[i].okey && x.id <= rows[i].id))
      ensures x in frame
    {
      var a :| 0 <= a < |rows| && rows[a] == x;
      assert a <= i;
      assert rows[..i + 1][a] == x;
    }
    FrameIs(t, facts, rows[i], frame);
    DistinctCount(rows[..i + 1]);
  }

  ghost function Members(rows: seq<Row>): set<Row> { set x | x in rows }

  lemma {:induction false} DistinctCount(rows: seq<Row>)
    requires forall a, b :: 0 <= a < b < |rows| ==> rows[a] != rows[b]
    ensures |Members(rows)| == |rows|
  {
    if rows == [] {
    } else {
      var init, last := rows[..|rows| - 1], rows[|rows| - 1];
      DistinctCount(init);
      assert Members(rows) == Members(init) + {last};
    }
  }

  ghost predicate Assembles(t: Totals, p: PartialsView, floor: i64, r: Row)
    requires 1 <= p.width <= MAX
  {
    r in p.s.facts.Live() && t.accept(r) && r.okey >= BucketLow(BucketOf(floor, p.width), p.width)
  }

  /** What the assembly plan returns, in the order of `batches`: every accepted
      row from the boundary bucket's low edge up, once. */
  ghost predicate IsAssembly(t: Totals, p: PartialsView, floor: i64, rows: seq<Row>, batches: seq<seq<Assembled>>) {
    && 1 <= p.width <= MAX && |Concat(batches)| == |rows|
    && (forall r :: r in rows <==> Assembles(t, p, floor, r))
    && (forall i, j :: 0 <= i < j < |rows| ==> rows[i] != rows[j])
    && forall i :: 0 <= i < |rows| ==> Concat(batches)[i] == AssembledRow(t, p, floor, rows[i])
  }

  /** How the query's predicate sees an output row. */
  type Sight = (Row, seq<Cell>) -> Predicates.Env

  /** The ordering key passes through to the output under its own name. */
  ghost predicate ShowsKey(sight: Sight, okey: string) {
    forall r, cells :: sight(r, cells).column(okey) == Predicates.Number_(r.okey as real)
  }

  /** The definition over current rows, filtered by the query. */
  ghost function CumulativeAnswer(t: Totals, facts: set<Row>, where: Predicates.Predicate, sight: Sight)
    : set<(Row, seq<Cell>)>
  {
    set r | r in facts && t.accept(r) && Predicates.Accepts(where, sight(r, FullWindows(t, facts, r)))
          :: (r, FullWindows(t, facts, r))
  }

  /** The output rows the query's own predicate keeps. */
  ghost function Filtered(rows: seq<Row>, out: seq<seq<Cell>>, where: Predicates.Predicate, sight: Sight)
    : set<(Row, seq<Cell>)>
    requires |rows| == |out|
  {
    set i | 0 <= i < |rows| && Predicates.Accepts(where, sight(rows[i], out[i])) :: (rows[i], out[i])
  }

  /** The read's own half: from the combine's rows and the assembly's batches,
      both at the bucket of the bound the query's predicate yields, to the output
      batches.  After any sheltered run every output row is its full expanding
      windows, and what the predicate keeps of them is the definition's answer. */
  method QueryCumulative(t: Totals, ghost es: seq<SizedEvent>, ghost runs: seq<Range>,
                         where: Predicates.Predicate, okey: string, ghost sight: Sight,
                         combined: seq<Combined>, batches: seq<seq<Assembled>>, ghost rows: seq<Row>)
    returns (out: seq<Batch>)
    requires forall i :: 0 <= i < |t.items| ==> Expanding(t.items[i])
    requires Predicates.OkeyLowerBound(where, okey).AtLeast? && ShowsKey(sight, okey)
    requires SizedShelteredRun(t, es)
    requires IsAssembly(t, SizedRun(t, es), Predicates.OkeyLowerBound(where, okey).key, rows, batches)
    requires var p := SizedRun(t, es); LiveRuns(t.Materialized(p.width), p.s.facts, p.s.dims, p.s.view, runs)
    requires var p := SizedRun(t, es);
             IsCombine(t.items, PartialsUnion(t, p, runs),
                       BucketOf(Predicates.OkeyLowerBound(where, okey).key, p.width), combined)
    ensures forall k :: 0 <= k < |out| ==> Rectangular(out[k])
    ensures |OutputRows(out)| == |rows|
    ensures forall i :: 0 <= i < |rows| ==>
              OutputRows(out)[i] == FullWindows(t, SizedRun(t, es).s.facts.Live(), rows[i])
    ensures Filtered(rows, OutputRows(out), where, sight)
         == CumulativeAnswer(t, SizedRun(t, es).s.facts.Live(), where, sight)
  {
    ghost var p := SizedRun(t, es);
    ghost var floor := Predicates.OkeyLowerBound(where, okey).key;
    var boundaries := BoundaryRows(combined);
    out := AdjustBatches(AdjustSteps(t.items, 0, |t.items|, 0), batches, boundaries);
    forall i | 0 <= i < |rows| ensures OutputRows(out)[i] == FullWindows(t, p.s.facts.Live(), rows[i]) {
      assert rows[i] in rows;
      LookupIsBoundary(t.items, PartialsUnion(t, p, runs), BucketOf(floor, p.width), combined, boundaries,
                       t.keys(rows[i]));
      EveryCumulativeReadIsExact(t, es, runs, floor, rows[i]);
      AssembledIsAdjusted(t, p, runs, floor, rows[i], boundaries);
    }
    FilteredIsAnswer(t, p, where, okey, sight, rows, OutputRows(out));
  }

  /** Filtering the assembled rows loses nothing the definition would return. */
  lemma FilteredIsAnswer(t: Totals, p: PartialsView, where: Predicates.Predicate, okey: string, sight: Sight,
                         rows: seq<Row>, out: seq<seq<Cell>>)
    requires Predicates.OkeyLowerBound(where, okey).AtLeast? && ShowsKey(sight, okey)
    requires 1 <= p.width <= MAX && |rows| == |out|
    requires forall r :: r in rows <==> Assembles(t, p, Predicates.OkeyLowerBound(where, okey).key, r)
    requires forall i :: 0 <= i < |rows| ==> out[i] == FullWindows(t, p.s.facts.Live(), rows[i])
    ensures Filtered(rows, out, where, sight) == CumulativeAnswer(t, p.s.facts.Live(), where, sight)
  {
    var facts := p.s.facts.Live();
    forall x | x in Filtered(rows, out, where, sight) ensures x in CumulativeAnswer(t, facts, where, sight) {
      var i :| 0 <= i < |rows| && Predicates.Accepts(where, sight(rows[i], out[i])) && x == (rows[i], out[i]);
      assert rows[i] in rows;
    }
    forall x | x in CumulativeAnswer(t, facts, where, sight) ensures x in Filtered(rows, out, where, sight) {
      var r :| r in facts && t.accept(r) && x == (r, FullWindows(t, facts, r))
            && Predicates.Accepts(where, sight(r, FullWindows(t, facts, r)));
      AssemblyCoversTheQuery(where, okey, sight(r, FullWindows(t, facts, r)), r.okey, p.width);
      assert r in rows;
    }
  }

  lemma AssembledIsAdjusted(t: Totals, p: PartialsView, runs: seq<Range>, floor: i64, r: Row,
                            boundaries: map<Names, seq<Cell>>)
    requires 1 <= p.width <= MAX
    requires SameCells(Lookup(boundaries, t.keys(r)),
                       Boundary(t.items, StoredRows(PartialsUnion(t, p, runs), t.keys(r)), BucketOf(floor, p.width)))
    ensures AdjustAll(AdjustSteps(t.items, 0, |t.items|, 0), AssembledRow(t, p, floor, r).cells,
                      Lookup(boundaries, AssembledRow(t, p, floor, r).partition))
         == AdjustedWindows(t, p, runs, BucketOf(floor, p.width), r)
  {
    SameCellsAdjust(AdjustSteps(t.items, 0, |t.items|, 0), AssembledRow(t, p, floor, r).cells,
                    Lookup(boundaries, t.keys(r)),
                    Boundary(t.items, StoredRows(PartialsUnion(t, p, runs), t.keys(r)), BucketOf(floor, p.width)));
  }
}
