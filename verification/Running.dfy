/** Running views: totals per symbol group, maintained as hidden-bucket partials
    by the bucketed machinery and reassembled at read. */
module Running {
  import opened Keys
  import opened Ranges
  import opened Log
  import opened Joins
  import opened Engine
  import opened Refresh
  import opened Runs
  import opened Aggregates
  import opened Partials

  type Names = seq<Option<string>>

  /** The user's definition: WHERE, GROUP BY symbols (none: one global row), the
      aggregate items. */
  datatype Totals = Totals(accept: Row -> bool, keys: Row -> Names, grouped: bool, items: seq<AggCall>)
  {
    ghost predicate Valid() {
      && (forall i :: 0 <= i < |items| ==> (items[i].argument.Star? ==> items[i].kind.Count?))
      && (!grouped ==> forall r :: keys(r) == [])
    }

    ghost function GroupRows(rows: set<Row>, names: Names): set<Row> {
      set r | r in rows && accept(r) && keys(r) == names
    }

    /** The definition over a table's rows, whole. */
    ghost function Answers(rows: set<Row>): set<(Names, seq<Cell>)> {
      if grouped then set r | r in rows && accept(r) :: (keys(r), EvalAll(items, GroupRows(rows, keys(r))))
      else {([], EvalAll(items, GroupRows(rows, [])))}
    }

    /** The synthesized materialization: a bucketed definition over the hidden
        bucket, storing partial columns. */
    ghost function Materialized(width: Width): Definition {
      Definition(NoJoin, true, width, 1, (j: Joined) => accept(j.fact), (j: Joined) => Symbols(keys(j.fact)),
                 (g: set<Joined>) => EvalAll(AllPartials(items, 0), Facts(g)))
    }

    /** The read: combine the stored partials per group, then finalize. */
    ghost function Combined(table: set<ViewRow>, names: Names): seq<Cell> {
      FinalizeAll(AllSteps(items, 0), EvalAll(AllCombines(items, 0), StoredRows(table, names)))
    }

    ghost function Read(table: set<ViewRow>): set<(Names, seq<Cell>)> {
      if grouped then set v | v in table && v.tag.Symbols? :: (v.tag.names, Combined(table, v.tag.names))
      else {([], Combined(table, []))}
    }
  }

  ghost function Facts(g: set<Joined>): set<Row> { set j | j in g :: j.fact }

  /** A group's stored partial rows, clocked by the hidden bucket. */
  ghost function StoredRows(table: set<ViewRow>, names: Names): set<Row> {
    set v | v in table && v.tag == Symbols(names) :: Row(0, 0, v.bucket, None, v.cells)
  }

  lemma UniqueIsPlaced(rows: set<Row>)
    requires IdsUnique(rows)
    ensures forall s: set<Row> :: s <= rows ==> Placed(s)
  {
  }

  /** What the materialization stores for a group is its partial rows. */
  lemma StoredIsPartial(t: Totals, facts: GoodLog, width: Width, names: Names)
    ensures StoredRows(t.Materialized(width).Current(facts, EMPTY), names)
         == PartialRows(t.GroupRows(facts.Live(), names), width, AllPartials(t.items, 0))
  {
    var def := t.Materialized(width);
    var all := JoinRows(NoJoin, true, facts.Live(), EMPTY.Live());
    var s := t.GroupRows(facts.Live(), names);
    var calls := AllPartials(t.items, 0);
    forall r | r in facts.Live() && t.accept(r) && t.keys(r) == names
      ensures var j := Joined(r, None);
              && j in all
              && def.fold(def.Group(all, j)) == EvalAll(calls, AtBucket(s, width, BucketOf(r.okey, width)))
    {
      GroupIsBucket(t, facts, width, names, r);
    }
    forall p ensures p in StoredRows(def.Current(facts, EMPTY), names) <==> p in PartialRows(s, width, calls) {
      if p in StoredRows(def.Current(facts, EMPTY), names) {
        var v :| v in def.Current(facts, EMPTY) && v.tag == Symbols(names) && p == Row(0, 0, v.bucket, None, v.cells);
        var j :| j in all && def.accept(j) && v == ViewRow(def.Bucket(j), def.tag(j), def.fold(def.Group(all, j)));
        assert j == Joined(j.fact, None) && j.fact in s;
        assert p == PartialRow(s, width, calls, BucketOf(j.fact.okey, width));
      }
      if p in PartialRows(s, width, calls) {
        var r :| r in s && p == PartialRow(s, width, calls, BucketOf(r.okey, width));
        var j := Joined(r, None);
        var v := ViewRow(def.Bucket(j), def.tag(j), def.fold(def.Group(all, j)));
        assert v in def.Answer(all);
        assert p == Row(0, 0, v.bucket, None, v.cells);
      }
    }
  }

  lemma GroupIsBucket(t: Totals, facts: GoodLog, width: Width, names: Names, r: Row)
    requires r in facts.Live() && t.accept(r) && t.keys(r) == names
    ensures var def := t.Materialized(width);
            var all := JoinRows(NoJoin, true, facts.Live(), EMPTY.Live());
            var j := Joined(r, None);
            && j in all
            && Facts(def.Group(all, j)) == AtBucket(t.GroupRows(facts.Live(), names), width, BucketOf(r.okey, width))
  {
    var def := t.Materialized(width);
    var all := JoinRows(NoJoin, true, facts.Live(), EMPTY.Live());
    var j := Joined(r, None);
    assert j in all;
    var part := AtBucket(t.GroupRows(facts.Live(), names), width, BucketOf(r.okey, width));
    forall x ensures x in Facts(def.Group(all, j)) <==> x in part {
      if x in part {
        assert Joined(x, None) in all;
        assert Joined(x, None) in def.Group(all, j);
      }
    }
  }

  /** One group: combining and finalizing its partials is its whole aggregate row. */
  lemma GroupIsExact(t: Totals, facts: GoodLog, width: Width, names: Names)
    requires t.Valid()
    ensures t.Combined(t.Materialized(width).Current(facts, EMPTY), names)
         == EvalAll(t.items, t.GroupRows(facts.Live(), names))
  {
    StoredIsPartial(t, facts, width, names);
    UniqueIsPlaced(facts.Live());
    var calls, combines := AllPartials(t.items, 0), AllCombines(t.items, 0);
    assert calls[0..] == calls && combines[0..] == combines;
    ListIsExact(t.items, 0, t.GroupRows(facts.Live(), names), width, calls, combines);
  }

  /** The running read over a complete set of partials is the user definition
      over the whole table, groups and values alike. */
  lemma ReadIsAnswers(t: Totals, facts: GoodLog, width: Width)
    requires t.Valid()
    ensures t.Read(t.Materialized(width).Current(facts, EMPTY)) == t.Answers(facts.Live())
  {
    var def := t.Materialized(width);
    var table := def.Current(facts, EMPTY);
    forall names: Names
      ensures t.Combined(table, names) == EvalAll(t.items, t.GroupRows(facts.Live(), names))
    {
      GroupIsExact(t, facts, width, names);
    }
    if t.grouped {
      var all := JoinRows(NoJoin, true, facts.Live(), EMPTY.Live());
      forall x ensures x in t.Read(table) <==> x in t.Answers(facts.Live()) {
        if x in t.Read(table) {
          var v :| v in table && v.tag.Symbols? && x == (v.tag.names, t.Combined(table, v.tag.names));
          var j :| j in all && def.accept(j) && v == ViewRow(def.Bucket(j), def.tag(j), def.fold(def.Group(all, j)));
          assert j.fact in facts.Live() && t.accept(j.fact);
          assert x == (t.keys(j.fact), EvalAll(t.items, t.GroupRows(facts.Live(), t.keys(j.fact))));
        }
        if x in t.Answers(facts.Live()) {
          var r :| r in facts.Live() && t.accept(r)
                && x == (t.keys(r), EvalAll(t.items, t.GroupRows(facts.Live(), t.keys(r))));
          var j := Joined(r, None);
          assert j in all;
          var v := ViewRow(def.Bucket(j), def.tag(j), def.fold(def.Group(all, j)));
          assert v in def.Answer(all) && v in table;
        }
      }
    }
  }

  // ------------------------------------------------------ one more row at a time

  /** A group's answer is the aggregates of its rows, and its only answer. */
  lemma GroupAnswer(t: Totals, rows: set<Row>, r: Row, cells: seq<Cell>)
    requires t.Valid() && r in rows && t.accept(r)
    ensures (t.keys(r), cells) in t.Answers(rows) <==> cells == EvalAll(t.items, t.GroupRows(rows, t.keys(r)))
  {
  }

  /** A row joins its own group, if the filter lets it in, and changes no other
      group's answer. */
  lemma AnswersGain(t: Totals, rows: set<Row>, r: Row, names: Names, cells: seq<Cell>)
    requires t.Valid() && r !in rows
    ensures t.GroupRows(rows + {r}, names)
         == t.GroupRows(rows, names) + if t.accept(r) && t.keys(r) == names then {r} else {}
    ensures !(t.accept(r) && t.keys(r) == names) ==>
              ((names, cells) in t.Answers(rows + {r}) <==> (names, cells) in t.Answers(rows))
  {
    assert t.GroupRows(rows + {r}, names)
        == t.GroupRows(rows, names) + if t.accept(r) && t.keys(r) == names then {r} else {};
    if !t.grouped && !t.accept(r) { assert t.GroupRows(rows + {r}, []) == t.GroupRows(rows, []); }
    if t.grouped && !(t.accept(r) && t.keys(r) == names) {
      assert t.GroupRows(rows + {r}, names) == t.GroupRows(rows, names);
      if (names, cells) in t.Answers(rows + {r}) {
        var x :| x in rows + {r} && t.accept(x) && names == t.keys(x)
              && cells == EvalAll(t.items, t.GroupRows(rows + {r}, t.keys(x)));
        assert x in rows;
      }
      if (names, cells) in t.Answers(rows) {
        var x :| x in rows && t.accept(x) && names == t.keys(x)
              && cells == EvalAll(t.items, t.GroupRows(rows, t.keys(x)));
        assert x in rows + {r};
      }
    }
  }

  /** The group's latest row is what LAST answers, its earliest what FIRST does. */
  lemma PlacesAreAnswered(t: Totals, rows: set<Row>, r: Row, i: nat, v: Cell, cells: seq<Cell>)
    requires t.Valid() && IdsUnique(rows) && r in rows && t.accept(r)
    requires i < |t.items| && Shows(r, t.items[i].argument, v) && v.Some?
    requires (t.keys(r), cells) in t.Answers(rows)
    ensures i < |cells|
    ensures t.items[i].kind.Last?
            && (forall x :: x in rows && t.accept(x) && t.keys(x) == t.keys(r) ==>
                  x == r || x.okey < r.okey || (x.okey == r.okey && x.id < r.id))
        ==> cells[i] == v
    ensures t.items[i].kind.First?
            && (forall x :: x in rows && t.accept(x) && t.keys(x) == t.keys(r) ==>
                  x == r || r.okey < x.okey || (x.okey == r.okey && r.id < x.id))
        ==> cells[i] == v
  {
    GroupAnswer(t, rows, r, cells);
    var group := t.GroupRows(rows, t.keys(r));
    UniqueIsPlaced(rows);
    var rest := group - {r};
    assert rest + {r} == group;
    if t.items[i].kind.Last?
      && forall x :: x in rows && t.accept(x) && t.keys(x) == t.keys(r) ==>
           x == r || x.okey < r.okey || (x.okey == r.okey && x.id < r.id)
    {
      LaterRowIsLast(rest, r, t.items[i].argument, v);
    }
    if t.items[i].kind.First?
      && forall x :: x in rows && t.accept(x) && t.keys(x) == t.keys(r) ==>
           x == r || r.okey < x.okey || (x.okey == r.okey && r.id < x.id)
    {
      EarlierRowIsFirst(rest, r, t.items[i].argument, v);
    }
  }
}
