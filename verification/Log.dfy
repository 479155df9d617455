/** The knowledge log a table keeps: row versions, each born at an ingest
    coordinate and possibly killed at a later one.  Appends, deletions and
    supersessions each spend one coordinate; a crash forgets a suffix of
    coordinates that was not yet durable. */
module Log {
  import opened Keys

  datatype Option<T> = None | Some(value: T)

  type Cells = seq<Option<real>>

  /** What a writer hands over: ordering key, symbol, numeric cells. */
  datatype Entry = Entry(okey: i64, sym: Option<string>, cells: Cells)

  /** A stored row version.  `id` is the arrival order, `birth` the coordinate. */
  datatype Row = Row(id: nat, birth: nat, okey: i64, sym: Option<string>, cells: Cells)

  ghost predicate IdsUnique(s: set<Row>) {
    forall a, b :: a in s && b in s && a.id == b.id ==> a == b
  }

  /** `kills` maps a dead row to the coordinate of its death; coordinates below
      `durable` survive any crash; `arrived` counts rows ever stored. */
  datatype Log = Log(rows: set<Row>, kills: map<Row, nat>, next: nat, durable: nat, arrived: nat) {

    ghost predicate Valid() {
      && durable <= next
      && IdsUnique(rows)
      && kills.Keys <= rows
      && (forall r :: r in rows ==> r.birth < next && r.id < arrived)
      && (forall r :: r in kills ==> r.birth < kills[r] < next)
    }

    function Live(): (s: set<Row>)
      ensures IdsUnique(rows) ==> IdsUnique(s)
    {
      set r | r in rows && r !in kills
    }

    /** The log as it stood when coordinate `cut` was about to be spent. */
    function At(cut: nat): Log {
      Log(set r | r in rows && r.birth < cut,
          map r | r in kills && kills[r] < cut :: kills[r],
          cut, if durable < cut then durable else cut, arrived)
    }

    /** Rows born or killed at or after the watermark `since`. */
    function Touched(since: nat): set<Row> {
      set r | r in rows && (r.birth >= since || (r in kills && kills[r] >= since))
    }

    /** `ASOF cut`: born at or before the cut, not killed by it. */
    function AsOf(cut: nat): set<Row> {
      set r | r in rows && r.birth <= cut && (r in kills ==> kills[r] > cut)
    }

    function Append(e: Entry): Log {
      Log(rows + {Row(arrived, next, e.okey, e.sym, e.cells)}, kills, next + 1, durable, arrived + 1)
    }

    /** A deletion that finds nothing newly dead spends no coordinate. */
    function Tombstone(victims: set<Row>): Log {
      var newly := victims * Live();
      if newly == {} then this
      else this.(kills := kills + (map r | r in newly :: next), next := next + 1)
    }

    /** Replacements born and victims killed at one shared coordinate. */
    function Supersede(replacements: seq<Entry>, victims: set<Row>): Log {
      var newly := victims * Live();
      if newly == {} && replacements == [] then this
      else
        Log(rows + Stamped(replacements, arrived, next),
            kills + (map r | r in newly :: next), next + 1, durable, arrived + |replacements|)
    }

    /** Some more coordinates became durable: a log sync, an automatic freeze. */
    function Harden(upTo: nat): Log {
      if durable <= upTo <= next then this.(durable := upTo) else this
    }

    /** All of them did. */
    function Flush(): Log { this.(durable := next) }
  }

  const EMPTY := Log({}, map[], 0, 0, 0)

  function Stamped(es: seq<Entry>, firstId: nat, birth: nat): set<Row> {
    set i | 0 <= i < |es| :: Row(firstId + i, birth, es[i].okey, es[i].sym, es[i].cells)
  }

  lemma AppendValid(l: Log, e: Entry)
    requires l.Valid()
    ensures l.Append(e).Valid()
  {
  }

  lemma TombstoneValid(l: Log, victims: set<Row>)
    requires l.Valid()
    ensures l.Tombstone(victims).Valid()
  {
  }

  lemma SupersedeValid(l: Log, es: seq<Entry>, victims: set<Row>)
    requires l.Valid()
    ensures l.Supersede(es, victims).Valid()
  {
    var s := Stamped(es, l.arrived, l.next);
    forall a, b | a in l.rows + s && b in l.rows + s && a.id == b.id
      ensures a == b
    {
    }
  }

  lemma AtValid(l: Log, cut: nat)
    requires l.Valid()
    ensures l.At(cut).Valid()
  {
  }

  type GoodLog = l: Log | l.Valid() witness EMPTY

  /** The log as a past watermark saw it. */
  function Past(l: GoodLog, cut: nat): (p: GoodLog)
    ensures p == l.At(cut)
  {
    AtValid(l, cut);
    l.At(cut)
  }

  /** A cut reads exactly the state the log was in when it was spent. */
  lemma AsOfIsPast(l: Log, cut: nat)
    requires l.Valid()
    ensures l.AsOf(cut) == l.At(cut + 1).Live()
  {
  }

  // ------------------------------------------------------------ one log step

  /** `later` extends `earlier`: everything below `earlier.next` is unchanged. */
  ghost predicate Extends(earlier: Log, later: Log) {
    && earlier.next <= later.next
    && later.At(earlier.next).rows == earlier.rows
    && later.At(earlier.next).kills == earlier.kills
  }

  lemma StepsExtend(l: Log, e: Entry, es: seq<Entry>, victims: set<Row>)
    requires l.Valid()
    ensures Extends(l, l.Append(e))
    ensures Extends(l, l.Tombstone(victims))
    ensures Extends(l, l.Supersede(es, victims))
  {
    assert forall r :: r in l.Supersede(es, victims).rows - l.rows ==> r.birth == l.next;
  }

  /** Old coordinates never change their meaning. */
  lemma PastIsFixed(earlier: Log, later: Log, cut: nat)
    requires earlier.Valid() && later.Valid() && Extends(earlier, later)
    requires cut <= earlier.next
    ensures later.At(cut).rows == earlier.At(cut).rows
    ensures later.At(cut).kills == earlier.At(cut).kills
    ensures later.At(cut).Live() == earlier.At(cut).Live()
  {
    var p := later.At(earlier.next);
    forall r
      ensures r in later.At(cut).rows <==> r in earlier.At(cut).rows
      ensures r in later.At(cut).kills <==> r in earlier.At(cut).kills
    {
      assert r in p.rows <==> r in earlier.rows;
      assert r in p.kills <==> r in earlier.kills;
      if r in p.kills { assert p.kills[r] == later.kills[r]; }
    }
    forall r | r in later.At(cut).kills
      ensures later.At(cut).kills[r] == earlier.At(cut).kills[r]
    {
      assert r in p.kills && p.kills[r] == later.kills[r] == earlier.kills[r];
    }
  }

  lemma AtExtends(l: Log, cut: nat)
    requires l.Valid() && cut <= l.next
    ensures Extends(l.At(cut), l)
  {
  }

  lemma ExtendsTrans(a: Log, b: Log, c: Log)
    requires a.Valid() && b.Valid() && c.Valid()
    requires Extends(a, b) && Extends(b, c)
    ensures Extends(a, c)
  {
    PastIsFixed(b, c, a.next);
  }
}
