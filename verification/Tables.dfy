/** The mutation half of a table (src/table.rs): DELETE, UPDATE and the
    refresh's `replace_matching`, each deciding its victims in one place and
    landing as at most one knowledge event where rows are replaced. */
module Tables {
  import opened Log

  /** Rows appended one at a time, one coordinate each. */
  function AppendAll(l: Log, es: seq<Entry>): Log {
    if es == [] then l else AppendAll(l, es[..|es| - 1]).Append(es[|es| - 1])
  }

  function Payload(r: Row): Entry { Entry(r.okey, r.sym, r.cells) }

  /** What a row holds apart from when it was learnt. */
  function Contents(rows: set<Row>): set<(nat, Entry)> {
    set r | r in rows :: (r.id, Payload(r))
  }

  function Numbered(es: seq<Entry>, firstId: nat): set<(nat, Entry)> {
    set i | 0 <= i < |es| :: (firstId + i, es[i])
  }

  /** The log after `replace_matching`: tombstones, appends, or one supersession. */
  function ReplaceLog(l: Log, es: seq<Entry>, victims: set<Row>): Log {
    if es == [] then l.Tombstone(victims)
    else if victims == {} then AppendAll(l, es)
    else l.Supersede(es, victims)
  }

  lemma {:induction false} AppendAllShape(l: Log, es: seq<Entry>)
    requires l.Valid()
    ensures AppendAll(l, es).Valid()
    ensures AppendAll(l, es).arrived == l.arrived + |es| && AppendAll(l, es).next == l.next + |es|
    ensures AppendAll(l, es).kills == l.kills
    ensures AppendAll(l, es).Live() >= l.Live()
    ensures Contents(AppendAll(l, es).Live()) == Contents(l.Live()) + Numbered(es, l.arrived)
  {
    if es == [] {
    } else {
      var init, e := es[..|es| - 1], es[|es| - 1];
      var before := AppendAll(l, init);
      AppendAllShape(l, init);
      AppendShape(before, e);
      assert Numbered(es, l.arrived) == Numbered(init, l.arrived) + {(l.arrived + |init|, e)};
    }
  }

  lemma AppendShape(l: Log, e: Entry)
    requires l.Valid()
    ensures l.Append(e).Valid() && l.Append(e).Live() >= l.Live()
    ensures Contents(l.Append(e).Live()) == Contents(l.Live()) + {(l.arrived, e)}
  {
    AppendValid(l, e);
    var r := Row(l.arrived, l.next, e.okey, e.sym, e.cells);
    assert l.Append(e).Live() == l.Live() + {r};
    ContentsUnion(l.Live(), {r});
    assert Contents({r}) == {(r.id, e)};
  }

  /** Whichever branch ran, the contents change the same way: victims out,
      replacements in. */
  lemma ReplaceContents(l: Log, es: seq<Entry>, victims: set<Row>)
    requires l.Valid() && victims <= l.Live()
    ensures ReplaceLog(l, es, victims).Valid()
    ensures Contents(ReplaceLog(l, es, victims).Live())
         == Contents(l.Live() - victims) + Numbered(es, l.arrived)
  {
    assert victims * l.Live() == victims;
    if es == [] {
      TombstoneValid(l, victims);
      assert ReplaceLog(l, es, victims).Live() == l.Live() - victims;
    } else if victims == {} {
      AppendAllShape(l, es);
      assert l.Live() - victims == l.Live();
    } else {
      SupersedeValid(l, es, victims);
      assert ReplaceLog(l, es, victims).Live() == (l.Live() - victims) + Stamped(es, l.arrived, l.next);
      ContentsUnion(l.Live() - victims, Stamped(es, l.arrived, l.next));
      ContentsStamped(es, l.arrived, l.next);
    }
  }

  lemma ContentsUnion(a: set<Row>, b: set<Row>)
    ensures Contents(a + b) == Contents(a) + Contents(b)
  {
  }

  lemma ContentsStamped(es: seq<Entry>, firstId: nat, birth: nat)
    ensures Contents(Stamped(es, firstId, birth)) == Numbered(es, firstId)
  {
    forall x | x in Numbered(es, firstId)
      ensures x in Contents(Stamped(es, firstId, birth))
    {
      var i :| 0 <= i < |es| && x == (firstId + i, es[i]);
      assert Row(firstId + i, birth, es[i].okey, es[i].sym, es[i].cells) in Stamped(es, firstId, birth);
    }
  }

  /** An UPDATE is old-or-new: no cut sees a mixture. */
  lemma SupersedeIsOneEvent(l: Log, es: seq<Entry>, victims: set<Row>, cut: nat)
    requires l.Valid() && victims <= l.Live() && victims != {}
    ensures l.Supersede(es, victims).AsOf(cut)
         == if cut < l.next then l.AsOf(cut)
            else (l.Live() - victims) + Stamped(es, l.arrived, l.next)
  {
    assert victims * l.Live() == victims;
  }

  function CorrectedRows(matched: seq<Row>, correct: Row -> Entry): seq<Entry> {
    seq(|matched|, i requires 0 <= i < |matched| => correct(matched[i]))
  }

  lemma SameNumbered(es: seq<Entry>, first: nat, matched: seq<Row>, correct: Row -> Entry)
    requires |es| == |matched| && forall i :: 0 <= i < |es| ==> es[i] == correct(matched[i])
    ensures Numbered(es, first) == set i | 0 <= i < |matched| :: (first + i, correct(matched[i]))
  {
    forall x | x in Numbered(es, first)
      ensures x in set i | 0 <= i < |matched| :: (first + i, correct(matched[i]))
    {
      var i :| 0 <= i < |es| && x == (first + i, es[i]);
      assert x == (first + i, correct(matched[i]));
    }
    forall x | x in (set i | 0 <= i < |matched| :: (first + i, correct(matched[i]))) ensures x in Numbered(es, first) {
      var i :| 0 <= i < |matched| && x == (first + i, correct(matched[i]));
      assert x == (first + i, es[i]);
    }
  }

  /** Every matched row leaves and its own corrected copy comes, numbered in the
      order the rows were matched. */
  lemma CorrectedContents(l: Log, matched: seq<Row>, correct: Row -> Entry)
    requires l.Valid() && matched != [] && forall r :: r in matched ==> r in l.Live()
    ensures var victims := set r | r in matched;
            Contents(l.Supersede(CorrectedRows(matched, correct), victims).Live())
            == Contents(l.Live() - victims) + (set i | 0 <= i < |matched| :: (l.arrived + i, correct(matched[i])))
  {
    var es, victims := CorrectedRows(matched, correct), set r | r in matched;
    assert matched[0] in victims;
    ReplaceContents(l, es, victims);
    forall i | 0 <= i < |matched| ensures es[i] == correct(matched[i]) {}
    SameNumbered(es, l.arrived, matched, correct);
  }

  /** Arrival order, each row once. */
  ghost predicate InOrder(rows: seq<Row>) {
    forall i, j :: 0 <= i < j < |rows| ==> rows[i].id < rows[j].id
  }

  lemma {:induction false} OrderedCount(rows: seq<Row>)
    requires InOrder(rows)
    ensures |set r | r in rows| == |rows|
  {
    if rows == [] {
    } else {
      var init, last := rows[..|rows| - 1], rows[|rows| - 1];
      OrderedCount(init);
      assert (set r | r in rows) == (set r | r in init) + {last};
    }
  }

  class Table {
    var log: GoodLog

    constructor ()
      ensures log == EMPTY
    {
      log := EMPTY;
    }

    method Append(e: Entry)
      modifies this
      ensures log == old(log).Append(e)
    {
      AppendValid(log, e);
      log := log.Append(e);
    }

    method Flush()
      modifies this
      ensures log == old(log).Flush()
    {
      log := log.Flush();
    }

    /** The live rows `hit` selects, in storage order. */
    method ForEachMatch(hit: Row -> bool) returns (matched: seq<Row>)
      ensures forall r :: r in matched <==> r in log.Live() && hit(r)
      ensures InOrder(matched)
    {
      matched := [];
      var todo := set r | r in log.Live() && hit(r);
      while todo != {}
        invariant todo <= set r | r in log.Live() && hit(r)
        invariant forall r :: r in matched <==> r in log.Live() && hit(r) && r !in todo
        invariant InOrder(matched)
        invariant forall i, r :: 0 <= i < |matched| && r in todo ==> matched[i].id < r.id
        decreases todo
      {
        FirstExists(todo);
        var r :| r in todo && forall x :: x in todo ==> r.id <= x.id;
        matched := matched + [r];
        todo := todo - {r};
      }
    }

    /** DELETE.  A filter that selects nothing spends no coordinate. */
    method Delete(hit: Row -> bool) returns (count: nat)
      modifies this
      ensures log == old(log).Tombstone(set r | r in old(log).Live() && hit(r))
      ensures count == |set r | r in old(log).Live() && hit(r)|
      ensures count == 0 ==> log == old(log)
      ensures count > 0 ==> log.next == old(log).next + 1
    {
      var ids := ForEachMatch(hit);
      var victims := set r | r in ids;
      assert victims == set r | r in log.Live() && hit(r);
      assert victims * log.Live() == victims;
      TombstoneValid(log, victims);
      count := |victims|;
      log := log.Tombstone(victims);
    }

    /** UPDATE: every matched row's corrected copy, all at one coordinate. */
    method Update(hit: Row -> bool, correct: Row -> Entry) returns (affected: nat)
      modifies this
      ensures affected == |set r | r in old(log).Live() && hit(r)|
      ensures affected == 0 ==> log == old(log)
      ensures affected > 0 ==> exists matched: seq<Row> ::
                && (forall r :: r in matched <==> r in old(log).Live() && hit(r))
                && InOrder(matched) && |matched| == affected
                && log == old(log).Supersede(CorrectedRows(matched, correct), set r | r in matched)
                && Contents(log.Live())
                   == Contents(set r | r in old(log).Live() && !hit(r))
                    + (set i | 0 <= i < |matched| :: (old(log).arrived + i, correct(matched[i])))
    {
      var matched := ForEachMatch(hit);
      ghost var hits := set r | r in log.Live() && hit(r);
      var victims := set r | r in matched;
      assert victims == hits;
      if matched == [] {
        assert hits == {};
        return 0;
      }
      assert matched[0] in hits;
      OrderedCount(matched);
      SupersedeValid(log, CorrectedRows(matched, correct), victims);
      affected := |victims|;
      CorrectedContents(log, matched, correct);
      assert log.Live() - victims == set r | r in log.Live() && !hit(r);
      log := log.Supersede(CorrectedRows(matched, correct), victims);
    }

    /** Row by row, one coordinate each. */
    method AppendEach(es: seq<Entry>)
      modifies this
      ensures log == AppendAll(old(log), es)
    {
      for n := 0 to |es|
        invariant log == AppendAll(old(log), es[..n])
      {
        assert es[..n + 1][..n] == es[..n];
        Append(es[n]);
      }
      assert es[..|es|] == es;
    }

    /** The refresh's write half. */
    method ReplaceMatching(hit: Row -> bool, replacements: seq<Entry>)
      modifies this
      ensures log == ReplaceLog(old(log), replacements, set r | r in old(log).Live() && hit(r))
      ensures Contents(log.Live())
           == Contents(set r | r in old(log).Live() && !hit(r)) + Numbered(replacements, old(log).arrived)
    {
      var ids := ForEachMatch(hit);
      var victims := set r | r in ids;
      assert victims == set r | r in log.Live() && hit(r);
      ReplaceContents(log, replacements, victims);
      assert log.Live() - victims == set r | r in log.Live() && !hit(r);
      if replacements == [] {
        log := log.Tombstone(victims);
      } else if victims == {} {
        AppendEach(replacements);
      } else {
        log := log.Supersede(replacements, victims);
      }
    }
  }

  lemma {:induction false} FirstExists(s: set<Row>)
    requires s != {}
    ensures exists m :: m in s && forall x :: x in s ==> m.id <= x.id
  {
    var a :| a in s;
    var rest := s - {a};
    if rest == {} {
      assert s == {a};
    } else {
      FirstExists(rest);
      var m :| m in rest && forall x :: x in rest ==> m.id <= x.id;
      var first := if m.id <= a.id then m else a;
      forall x | x in s ensures first.id <= x.id {
        assert x == a || x in rest;
      }
    }
  }
}
