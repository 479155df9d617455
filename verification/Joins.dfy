/** The two joins a maintained view may fold over, and the correction-interval
    lemma: how far along the fact axis an edit of the reference table reaches. */
module Joins {
  import opened Keys
  import opened Log

  datatype AsOfMode = AtOrBefore | StrictlyBefore

  /** `NoJoin` is a single-source view. */
  datatype JoinKind = NoJoin | AsOfJoin(mode: AsOfMode) | EquiJoin

  type Rows = s: set<Row> | IdsUnique(s) witness {}

  /** A fact row with what it matched. */
  datatype Joined = Joined(fact: Row, dim: Option<Row>)

  /** Match order: clock, then birth (the newest knowledge wins a tie), then
      arrival for rows born together. */
  predicate Leq(a: Row, b: Row) {
    || a.okey < b.okey
    || (a.okey == b.okey && a.birth < b.birth)
    || (a.okey == b.okey && a.birth == b.birth && a.id <= b.id)
  }

  predicate Reaches(mode: AsOfMode, at: i64, clock: i64) {
    match mode
    case AtOrBefore => at <= clock
    case StrictlyBefore => at < clock
  }

  /** A null join key matches nothing, on either side. */
  function Candidates(kind: JoinKind, f: Row, dims: Rows): (c: Rows)
    ensures c <= dims
  {
    set d | d in dims && f.sym.Some? && d.sym == f.sym
         && (kind.AsOfJoin? ==> Reaches(kind.mode, d.okey, f.okey))
  }

  ghost predicate IsBest(best: Option<Row>, c: set<Row>) {
    match best
    case None => c == {}
    case Some(m) => m in c && forall x :: x in c ==> Leq(x, m)
  }

  lemma {:induction false} BestExists(c: set<Row>)
    requires c != {}
    ensures exists m :: m in c && forall x :: x in c ==> Leq(x, m)
  {
    var a :| a in c;
    var rest := c - {a};
    if rest == {} {
      assert c == {a};
    } else {
      BestExists(rest);
      var m :| m in rest && forall x :: x in rest ==> Leq(x, m);
      var top := if Leq(a, m) then m else a;
      forall x | x in c ensures Leq(x, top) {
        assert x == a || x in rest;
      }
    }
  }

  function Best(c: Rows): (best: Option<Row>)
    ensures IsBest(best, c)
  {
    if c == {} then None else
      BestExists(c);
      var m :| m in c && forall x :: x in c ==> Leq(x, m);
      Some(m)
  }

  lemma BestUnique(a: Option<Row>, b: Option<Row>, c: Rows)
    requires IsBest(a, c) && IsBest(b, c)
    ensures a == b
  {
  }

  function Match(kind: JoinKind, f: Row, dims: Rows): Option<Row> {
    if kind.NoJoin? then None else Best(Candidates(kind, f, dims))
  }

  /** The join's output: `LEFT` keeps unmatched fact rows, `INNER` drops them. */
  function JoinRows(kind: JoinKind, left: bool, facts: set<Row>, dims: Rows): set<Joined> {
    set f | f in facts && (left || kind.NoJoin? || Match(kind, f, dims).Some?)
          :: Joined(f, Match(kind, f, dims))
  }

  /** The equi join's own precondition, checked at execution: a dimension is a
      lookup table. */
  predicate KeyUnique(dims: set<Row>) {
    forall a, b :: a in dims && b in dims && a.sym.Some? && a.sym == b.sym ==> a == b
  }

  // ------------------------------------------------------- what a join matches

  /** What a fact is meant to match, in so many words. */
  ghost predicate Meant(kind: JoinKind, f: Row, dims: set<Row>, m: Option<Row>) {
    match kind
    case NoJoin => m == None
    case EquiJoin =>
      if m.None? then f.sym.None? || forall d :: d in dims ==> d.sym != f.sym
      else m.value in dims && f.sym.Some? && m.value.sym == f.sym
    case AsOfJoin(AtOrBefore) =>
      if m.None? then f.sym.None? || forall d :: d in dims && d.sym == f.sym ==> f.okey < d.okey
      else
        && m.value in dims && f.sym.Some? && m.value.sym == f.sym && m.value.okey <= f.okey
        && forall d :: d in dims && d.sym == f.sym && d.okey <= f.okey ==> NoLater(d, m.value)
    case AsOfJoin(StrictlyBefore) =>
      if m.None? then f.sym.None? || forall d :: d in dims && d.sym == f.sym ==> f.okey <= d.okey
      else
        && m.value in dims && f.sym.Some? && m.value.sym == f.sym && m.value.okey < f.okey
        && forall d :: d in dims && d.sym == f.sym && d.okey < f.okey ==> NoLater(d, m.value)
  }

  /** On a tied clock the later birth wins, and of rows born together the later
      arrival. */
  predicate NoLater(d: Row, m: Row) {
    d.okey < m.okey || (d.okey == m.okey && (d.birth < m.birth || (d.birth == m.birth && d.id <= m.id)))
  }

  lemma MatchIsMeant(kind: JoinKind, f: Row, dims: Rows)
    ensures Meant(kind, f, dims, Match(kind, f, dims))
  {
    if !kind.NoJoin? {
      var c := Candidates(kind, f, dims);
      assert IsBest(Best(c), c);
      forall d | d in dims && f.sym.Some? && d.sym == f.sym && (kind.AsOfJoin? ==> Reaches(kind.mode, d.okey, f.okey))
        ensures d in c
      {
      }
    }
  }

  /** An as-of match is determined; an equi match is, where keys are unique. */
  lemma MeantIsUnique(kind: JoinKind, f: Row, dims: Rows, m: Option<Row>, n: Option<Row>)
    requires Meant(kind, f, dims, m) && Meant(kind, f, dims, n)
    requires kind.EquiJoin? ==> KeyUnique(dims)
    ensures m == n
  {
    if kind.AsOfJoin? && m.Some? && n.Some? {
      assert NoLater(m.value, n.value) && NoLater(n.value, m.value);
    }
  }

  /** The key check is exact: keys are unique precisely when whatever a fact could
      match is what it does match. */
  lemma KeyUniqueIffNoChoice(dims: Rows)
    ensures KeyUnique(dims)
       <==> forall f: Row, d :: d in dims && f.sym.Some? && d.sym == f.sym ==> Match(EquiJoin, f, dims) == Some(d)
  {
    if KeyUnique(dims) {
      forall f: Row, d | d in dims && f.sym.Some? && d.sym == f.sym ensures Match(EquiJoin, f, dims) == Some(d) {
        MatchIsMeant(EquiJoin, f, dims);
      }
    }
    if forall f: Row, d :: d in dims && f.sym.Some? && d.sym == f.sym ==> Match(EquiJoin, f, dims) == Some(d) {
      forall a, b | a in dims && b in dims && a.sym.Some? && a.sym == b.sym ensures a == b {
        assert Match(EquiJoin, a, dims) == Some(a) == Some(b);
      }
    }
  }

  /** LEFT keeps every fact, INNER the matched ones, each with what it is meant to
      match. */
  lemma JoinRowsAreMeant(kind: JoinKind, left: bool, facts: set<Row>, dims: Rows, j: Joined)
    requires kind.EquiJoin? ==> KeyUnique(dims)
    ensures j in JoinRows(kind, left, facts, dims)
       <==> j.fact in facts && Meant(kind, j.fact, dims, j.dim) && (j.dim.None? ==> left || kind.NoJoin?)
  {
    MatchIsMeant(kind, j.fact, dims);
    if Meant(kind, j.fact, dims, j.dim) { MeantIsUnique(kind, j.fact, dims, j.dim, Match(kind, j.fact, dims)); }
  }

  // ------------------------------------------------------ correction intervals

  /** Keys of `sym`'s rows strictly after `after`. */
  function KeysAfter(dims: set<Row>, sym: string, after: i64): set<i64> {
    set d | d in dims && d.sym == Some(sym) && d.okey > after :: d.okey
  }

  ghost predicate IsLeast(m: i64, s: set<i64>) { m in s && forall x :: x in s ==> m <= x }

  lemma {:induction false} MinExists(s: set<i64>)
    requires s != {}
    ensures exists m :: IsLeast(m, s)
  {
    var a :| a in s;
    var rest := s - {a};
    if rest == {} {
      assert s == {a};
      assert IsLeast(a, s);
    } else {
      MinExists(rest);
      var m :| IsLeast(m, rest);
      var least := if m <= a then m else a;
      forall x | x in s ensures least <= x {
        assert x == a || x in rest;
      }
      assert IsLeast(least, s);
    }
  }

  /** The symbol's next reference key in CURRENT state; `None` is open-ended. */
  function NextReferenceKey(dims: set<Row>, sym: string, after: i64): (next: Option<i64>)
    ensures next.None? ==> forall d :: d in dims && d.sym == Some(sym) ==> d.okey <= after
    ensures next.Some? ==> next.value > after
    ensures next.Some? ==> exists d :: d in dims && d.sym == Some(sym) && d.okey == next.value
    ensures next.Some? ==> forall d :: d in dims && d.sym == Some(sym) && d.okey > after ==> next.value <= d.okey
  {
    var s := KeysAfter(dims, sym, after);
    assert forall d :: d in dims && d.sym == Some(sym) && d.okey > after ==> d.okey in s;
    if s == {} then None else
      MinExists(s);
      var m :| m in s && forall x :: x in s ==> m <= x;
      Some(m)
  }

  /** The last fact key a touched reference row at `t` can still reach. */
  function IntervalHigh(mode: AsOfMode, dims: set<Row>, t: Row): i64
    requires t.sym.Some?
  {
    var next := NextReferenceKey(dims, t.sym.value, t.okey);
    match mode
    case AtOrBefore => if next.Some? then next.value - 1 else MAX
    case StrictlyBefore => if next.Some? then next.value else MAX
  }

  ghost predicate InInterval(mode: AsOfMode, dims: set<Row>, t: Row, k: i64) {
    t.sym.Some? && t.okey <= k <= IntervalHigh(mode, dims, t)
  }

  /** The interval, without its ends: from the row on, until a later row of the
      symbol reaches the key first. */
  lemma IntervalIsReach(mode: AsOfMode, dims: set<Row>, t: Row, k: i64)
    ensures InInterval(mode, dims, t, k)
       <==> t.sym.Some? && t.okey <= k
            && forall d :: d in dims && d.sym == t.sym && t.okey < d.okey ==>
                 if mode.AtOrBefore? then k < d.okey else k <= d.okey
  {
    if t.sym.Some? {
      var next := NextReferenceKey(dims, t.sym.value, t.okey);
      if next.Some? {
        var d :| d in dims && d.sym == t.sym && d.okey == next.value;
      }
    }
  }

  /** `k` lies in the interval of some row born or killed since `since`. */
  ghost predicate Corrected(mode: AsOfMode, log: Log, since: nat, k: i64) {
    exists t :: t in log.Touched(since) && InInterval(mode, log.Live(), t, k)
  }

  /** A live row no older state knew puts its own reach into the dirty set. */
  lemma NewMatchIsDirty(mode: AsOfMode, log: Log, since: nat, f: Row, m: Row)
    requires log.Valid()
    requires m in Candidates(AsOfJoin(mode), f, log.Live())
    requires IsBest(Some(m), Candidates(AsOfJoin(mode), f, log.Live()))
    requires m !in log.At(since).Live()
    ensures Corrected(mode, log, since, f.okey)
  {
    assert m in log.Touched(since);
    var next := NextReferenceKey(log.Live(), m.sym.value, m.okey);
    if next.Some? {
      var d :| d in log.Live() && d.sym == m.sym && d.okey == next.value;
      assert d !in Candidates(AsOfJoin(mode), f, log.Live());
    }
    assert InInterval(mode, log.Live(), m, f.okey);
  }

  /** A match the corrections took away is dirty too, unless a new row already
      took its place further along. */
  lemma LostMatchIsDirty(mode: AsOfMode, log: Log, since: nat, f: Row, m: Row)
    requires log.Valid()
    requires IsBest(Some(m), Candidates(AsOfJoin(mode), f, log.At(since).Live()))
    requires m !in log.Live()
    ensures Corrected(mode, log, since, f.okey)
  {
    var kind := AsOfJoin(mode);
    var best := Best(Candidates(kind, f, log.Live()));
    if best.Some? && best.value.okey > m.okey {
      assert best.value !in Candidates(kind, f, log.At(since).Live());
      NewMatchIsDirty(mode, log, since, f, best.value);
    } else {
      assert m in log.Touched(since);
      var next := NextReferenceKey(log.Live(), m.sym.value, m.okey);
      if next.Some? {
        var d :| d in log.Live() && d.sym == m.sym && d.okey == next.value;
        assert d !in Candidates(kind, f, log.Live());
      }
      assert InInterval(mode, log.Live(), m, f.okey);
    }
  }

  /** The correction-interval lemma: whatever was born or killed since the
      stamp, a fact key outside every interval keeps its match. */
  lemma CorrectionInterval(mode: AsOfMode, log: Log, since: nat, f: Row)
    requires log.Valid() && since <= log.next
    requires !Corrected(mode, log, since, f.okey)
    ensures Match(AsOfJoin(mode), f, log.Live()) == Match(AsOfJoin(mode), f, log.At(since).Live())
  {
    var kind := AsOfJoin(mode);
    var past, present := log.At(since).Live(), log.Live();
    var before, after := Best(Candidates(kind, f, past)), Best(Candidates(kind, f, present));
    if after.Some? && after.value !in past {
      NewMatchIsDirty(mode, log, since, f, after.value);
    } else if before.Some? && before.value !in present {
      LostMatchIsDirty(mode, log, since, f, before.value);
    } else {
      assert before.Some? ==> before.value in Candidates(kind, f, present);
      assert after.Some? ==> after.value in Candidates(kind, f, past);
    }
  }

  /** Dirty keys are never forgotten: as the log grows under a fixed stamp,
      intervals may split or shorten, but their union only gains keys. */
  lemma CorrectedMonotone(mode: AsOfMode, earlier: Log, later: Log, since: nat, k: i64)
    requires earlier.Valid() && later.Valid() && Extends(earlier, later)
    requires since <= earlier.next
    requires Corrected(mode, earlier, since, k)
    ensures Corrected(mode, later, since, k)
  {
    var t :| t in earlier.Touched(since) && InInterval(mode, earlier.Live(), t, k);
    assert t in later.At(earlier.next).rows;
    assert t in later.Touched(since) by {
      if t in earlier.kills {
        assert t in later.At(earlier.next).kills;
        assert later.At(earlier.next).kills[t] == earlier.kills[t];
      }
    }
    if !InInterval(mode, later.Live(), t, k) {
      LaterBirthCovers(mode, earlier, later, since, t, k);
    }
  }

  /** Between `t` and `k` the later state has a row the earlier one had not; the
      last such row was born since, and its own interval reaches `k`. */
  lemma LaterBirthCovers(mode: AsOfMode, earlier: Log, later: Log, since: nat, t: Row, k: i64)
    requires earlier.Valid() && later.Valid() && Extends(earlier, later) && since <= earlier.next
    requires t.sym.Some? && InInterval(mode, earlier.Live(), t, k)
    requires !InInterval(mode, later.Live(), t, k)
    ensures Corrected(mode, later, since, k)
  {
    var probe := Row(0, 0, k, t.sym, []);
    var kind := AsOfJoin(mode);
    var next := NextReferenceKey(later.Live(), t.sym.value, t.okey);
    assert next.Some?;
    var d :| d in later.Live() && d.sym == t.sym && d.okey == next.value;
    assert Reaches(mode, d.okey, k);
    assert d in Candidates(kind, probe, later.Live());
    var best := Best(Candidates(kind, probe, later.Live()));
    assert best.value.okey >= d.okey > t.okey;
    var m := best.value;
    assert m !in earlier.Live();
    assert m.birth >= earlier.next by {
      assert m !in later.At(earlier.next).kills;
    }
    NewMatchIsDirty(mode, later, since, probe, m);
  }
}
