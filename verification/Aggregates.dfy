/** The seven aggregates over a finite set of rows, NULLs skipped, and what is
    needed to take them apart along the ordering key. */
module Aggregates {
  import opened Keys
  import opened Log

  datatype AggFunction = Sum | Count | Avg | Min | Max | First | Last

  /** `Star` is COUNT(*)'s absent argument; `Col` a numeric column. */
  datatype Argument = Star | Col(index: nat)

  datatype AggCall = AggCall(kind: AggFunction, argument: Argument)

  type Cell = Option<real>

  function Val(r: Row, a: Argument): Cell {
    match a
    case Star => None
    case Col(c) => if c < |r.cells| then r.cells[c] else None
  }

  ghost function NonNull(s: set<Row>, a: Argument): set<Row> {
    set r | r in s && Val(r, a).Some?
  }

  /** The rows a COUNT counts. */
  ghost function Counted(s: set<Row>, a: Argument): set<Row> {
    if a.Star? then s else NonNull(s, a)
  }

  function Addend(r: Row, a: Argument): real {
    match Val(r, a) case None => 0.0 case Some(v) => v
  }

  ghost function Total(s: set<Row>, a: Argument): real {
    if s == {} then 0.0 else
      var r :| r in s;
      Addend(r, a) + Total(s - {r}, a)
  }

  /** The row order positional aggregates read: clock, then storage order. */
  predicate Before(a: Row, b: Row) {
    a.okey < b.okey || (a.okey == b.okey && a.id <= b.id)
  }

  /** No two rows share a place in that order. */
  ghost predicate Placed(s: set<Row>) {
    forall a, b :: a in s && b in s && a.okey == b.okey && a.id == b.id ==> a == b
  }

  ghost predicate IsExtreme(r: Row, s: set<Row>, leq: (Row, Row) -> bool) {
    r in s && forall x :: x in s ==> leq(r, x)
  }

  ghost predicate TotalPreorder(leq: (Row, Row) -> bool) {
    && (forall a, b :: leq(a, b) || leq(b, a))
    && forall a, b, c :: leq(a, b) && leq(b, c) ==> leq(a, c)
  }

  lemma {:induction false} ExtremeExists(s: set<Row>, leq: (Row, Row) -> bool)
    requires s != {} && TotalPreorder(leq)
    ensures exists r :: IsExtreme(r, s, leq)
  {
    var x :| x in s;
    var rest := s - {x};
    if rest == {} {
      assert leq(x, x);
      forall y | y in s ensures leq(x, y) { assert y == x || y in rest; }
      assert IsExtreme(x, s, leq);
    } else {
      ExtremeExists(rest, leq);
      var m :| IsExtreme(m, rest, leq);
      var top := if leq(m, x) then m else x;
      forall y | y in s ensures leq(top, y) {
        assert y == x || y in rest;
        assert leq(m, x) || leq(x, m);
      }
      assert IsExtreme(top, s, leq);
    }
  }

  /** Each aggregate's own order on the rows it may pick from. */
  function Order(f: AggFunction, a: Argument): (Row, Row) -> bool {
    match f
    case First => (x: Row, y: Row) => Before(x, y)
    case Last => (x: Row, y: Row) => Before(y, x)
    case Max => (x: Row, y: Row) => Addend(x, a) >= Addend(y, a)
    case _ => (x: Row, y: Row) => Addend(x, a) <= Addend(y, a)
  }

  lemma OrderIsTotal(f: AggFunction, a: Argument)
    ensures TotalPreorder(Order(f, a))
  {
  }

  /** The row MIN, MAX, FIRST or LAST reads its value from. */
  ghost function Pick(f: AggFunction, a: Argument, s: set<Row>): (r: Row)
    requires s != {}
    ensures IsExtreme(r, s, Order(f, a))
  {
    OrderIsTotal(f, a);
    ExtremeExists(s, Order(f, a));
    var r :| IsExtreme(r, s, Order(f, a));
    r
  }

  /** An aggregate over a group: COUNT of nothing is 0, the rest are NULL. */
  ghost function Eval(c: AggCall, s: set<Row>): Cell {
    var seen := NonNull(s, c.argument);
    if c.kind.Count? then Some(|Counted(s, c.argument)| as real)
    else if seen == {} then None
    else match c.kind
      case Sum => Some(Total(s, c.argument))
      case Avg => Some(Total(s, c.argument) / |seen| as real)
      case _ => Val(Pick(c.kind, c.argument, seen), c.argument)
  }

  // ---------------------------------------------------------- sums take apart

  lemma {:induction false} TotalRemove(s: set<Row>, r: Row, a: Argument)
    requires r in s
    ensures Total(s, a) == Addend(r, a) + Total(s - {r}, a)
  {
    var p :| p in s && Total(s, a) == Addend(p, a) + Total(s - {p}, a);
    if p != r {
      TotalRemove(s - {p}, r, a);
      TotalRemove(s - {r}, p, a);
      assert s - {p} - {r} == s - {r} - {p};
    }
  }

  lemma {:induction false} TotalUnion(s: set<Row>, t: set<Row>, a: Argument)
    requires s !! t
    ensures Total(s + t, a) == Total(s, a) + Total(t, a)
  {
    if s == {} {
      assert s + t == t;
    } else {
      var r :| r in s;
      TotalRemove(s + t, r, a);
      TotalRemove(s, r, a);
      TotalUnion(s - {r}, t, a);
      assert s + t - {r} == (s - {r}) + t;
    }
  }

  lemma NonNullUnion(s: set<Row>, t: set<Row>, a: Argument)
    ensures NonNull(s + t, a) == NonNull(s, a) + NonNull(t, a)
    ensures Counted(s + t, a) == Counted(s, a) + Counted(t, a)
  {
  }

  lemma NonNullOne(r: Row, a: Argument)
    ensures NonNull({r}, a) == if Val(r, a).Some? then {r} else {}
  {
  }

  lemma {:induction false} TotalOfNulls(s: set<Row>, a: Argument)
    requires NonNull(s, a) == {}
    ensures Total(s, a) == 0.0
  {
    if s == {} {
    } else {
      var r :| r in s;
      TotalRemove(s, r, a);
      assert r !in NonNull(s, a);
      assert NonNull(s - {r}, a) <= NonNull(s, a);
      TotalOfNulls(s - {r}, a);
    }
  }

  /** A picked value is determined: any extreme row of a placed set has it. */
  lemma PickIsAny(f: AggFunction, a: Argument, s: set<Row>, r: Row)
    requires f.Min? || f.Max? || f.First? || f.Last?
    requires (f.First? || f.Last?) ==> Placed(s)
    requires forall x :: x in s ==> Val(x, a).Some?
    requires IsExtreme(r, s, Order(f, a))
    ensures Val(Pick(f, a, s), a) == Val(r, a)
  {
    var p := Pick(f, a, s);
    assert Order(f, a)(p, r) && Order(f, a)(r, p);
  }

  // ------------------------------------------------------ one more row at a time

  /** `v` is what row `r` holds in the argument's column. */
  ghost predicate Shows(r: Row, a: Argument, v: Cell) {
    match a
    case Star => v == None
    case Col(c) => v == if c < |r.cells| then r.cells[c] else None
  }

  lemma EvalOfNothing(c: AggCall)
    ensures Eval(c, {}) == if c.kind.Count? then Some(0.0) else None
  {
    assert NonNull({}, c.argument) == {};
  }

  lemma SeenGains(s: set<Row>, r: Row, a: Argument, v: Cell)
    requires r !in s && Shows(r, a, v)
    ensures NonNull(s + {r}, a) == if v.Some? then NonNull(s, a) + {r} else NonNull(s, a)
    ensures r !in NonNull(s, a) && Val(r, a) == v
  {
  }

  /** COUNT(*) counts every row, COUNT of a column the rows with a value there. */
  lemma CountGains(s: set<Row>, r: Row, a: Argument, v: Cell)
    requires r !in s && Shows(r, a, v)
    ensures Eval(AggCall(Count, a), s).Some?
    ensures Eval(AggCall(Count, a), s + {r})
         == Some(Eval(AggCall(Count, a), s).value + if a.Star? || v.Some? then 1.0 else 0.0)
  {
    SeenGains(s, r, a, v);
  }

  lemma SumGains(s: set<Row>, r: Row, a: Argument, v: Cell)
    requires r !in s && Shows(r, a, v)
    ensures var was := Eval(AggCall(Sum, a), s);
            Eval(AggCall(Sum, a), s + {r})
            == if v.None? then was else if was.None? then v else Some(was.value + v.value)
  {
    SeenGains(s, r, a, v);
    TotalRemove(s + {r}, r, a);
    assert s + {r} - {r} == s;
    if NonNull(s, a) == {} { TotalOfNulls(s, a); }
  }

  /** AVG times the number of values is their SUM. */
  lemma AvgIsMean(s: set<Row>, c: nat)
    ensures var avg, sum := Eval(AggCall(Avg, Col(c)), s), Eval(AggCall(Sum, Col(c)), s);
            && (avg.None? <==> sum.None?)
            && (avg.Some? ==> avg.value * Eval(AggCall(Count, Col(c)), s).value == sum.value)
  {
  }

  /** A new row no better than the picked one changes nothing; one no worse than
      any takes over. */
  lemma PickGains(f: AggFunction, a: Argument, seen: set<Row>, r: Row)
    requires f.Min? || f.Max? || f.First? || f.Last?
    requires (f.First? || f.Last?) ==> Placed(seen + {r})
    requires forall x :: x in seen + {r} ==> Val(x, a).Some?
    ensures seen != {} && Order(f, a)(Pick(f, a, seen), r) ==>
              Val(Pick(f, a, seen + {r}), a) == Val(Pick(f, a, seen), a)
    ensures (forall x :: x in seen ==> Order(f, a)(r, x)) ==> Val(Pick(f, a, seen + {r}), a) == Val(r, a)
  {
    if seen != {} && Order(f, a)(Pick(f, a, seen), r) {
      PickIsAny(f, a, seen + {r}, Pick(f, a, seen));
    }
    if forall x :: x in seen ==> Order(f, a)(r, x) {
      OrderIsTotal(f, a);
      PickIsAny(f, a, seen + {r}, r);
    }
  }

  lemma MinGains(s: set<Row>, r: Row, a: Argument, v: Cell)
    requires r !in s && Shows(r, a, v)
    ensures var was := Eval(AggCall(Min, a), s);
            Eval(AggCall(Min, a), s + {r})
            == if v.None? || (was.Some? && was.value <= v.value) then was else v
  {
    SeenGains(s, r, a, v);
    if v.Some? { PickGains(Min, a, NonNull(s, a), r); }
  }

  lemma MaxGains(s: set<Row>, r: Row, a: Argument, v: Cell)
    requires r !in s && Shows(r, a, v)
    ensures var was := Eval(AggCall(Max, a), s);
            Eval(AggCall(Max, a), s + {r})
            == if v.None? || (was.Some? && was.value >= v.value) then was else v
  {
    SeenGains(s, r, a, v);
    if v.Some? { PickGains(Max, a, NonNull(s, a), r); }
  }

  /** A row later than all others, by clock and then arrival, is the one LAST reads,
      unless it is NULL there; FIRST looks at it only when it saw nothing else. */
  lemma LaterRowIsLast(s: set<Row>, r: Row, a: Argument, v: Cell)
    requires Placed(s) && Shows(r, a, v)
    requires forall x :: x in s ==> x.okey < r.okey || (x.okey == r.okey && x.id < r.id)
    ensures var last, first := Eval(AggCall(Last, a), s), Eval(AggCall(First, a), s);
            && Eval(AggCall(Last, a), s + {r}) == (if v.Some? then v else last)
            && Eval(AggCall(First, a), s + {r}) == (if first.Some? then first else v)
  {
    assert r !in s;
    SeenGains(s, r, a, v);
    if v.Some? {
      PickGains(Last, a, NonNull(s, a), r);
      PickGains(First, a, NonNull(s, a), r);
    }
  }

  /** And a row earlier than all others is the one FIRST reads. */
  lemma EarlierRowIsFirst(s: set<Row>, r: Row, a: Argument, v: Cell)
    requires Placed(s) && Shows(r, a, v)
    requires forall x :: x in s ==> r.okey < x.okey || (x.okey == r.okey && r.id < x.id)
    ensures var last, first := Eval(AggCall(Last, a), s), Eval(AggCall(First, a), s);
            && Eval(AggCall(First, a), s + {r}) == (if v.Some? then v else first)
            && Eval(AggCall(Last, a), s + {r}) == (if last.Some? then last else v)
  {
    assert r !in s;
    SeenGains(s, r, a, v);
    if v.Some? {
      PickGains(First, a, NonNull(s, a), r);
      PickGains(Last, a, NonNull(s, a), r);
    }
  }
}
