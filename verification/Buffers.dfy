/** Copy-on-write element buffers (src/arrow_lite/buffer.rs): handles that share
    counted allocations and still behave like independent sequences. */
module Buffers {

  /** A counted allocation; its capacity is the length of its cells. */
  class Allocation<T(0)> {
    const cells: array<T>
    /** Handles on this allocation (the reference count). */
    var owners: nat

    constructor (capacity: nat)
      ensures owners == 1 && cells.Length == capacity && fresh(cells)
    {
      cells := new T[capacity];
      owners := 1;
    }
  }

  function Max(a: int, b: int): int { if a < b then b else a }

  class Buffer<T(0)> {
    var raw: Allocation<T>
    var len: nat
    /** Elements copied so far by moving to a new allocation. */
    ghost var copied: nat
    /** The capacity last outgrown. */
    ghost var outgrown: nat

    ghost predicate Valid()
      reads this, raw
    {
      len <= raw.cells.Length && raw.owners >= 1
    }

    function Elements(): seq<T>
      requires Valid()
      reads this, raw, raw.cells
    {
      raw.cells[..len]
    }

    /** Copying has been paid for: at most two copies per element held. */
    ghost predicate Thrifty()
      reads this, raw
    {
      copied <= 2 * outgrown && outgrown <= len && 2 * outgrown <= raw.cells.Length
    }

    /** Room is at most twice what is held, or the smallest allocation. */
    ghost predicate Snug()
      reads this, raw
    {
      raw.cells.Length <= Max(2 * len, 8)
    }

    constructor WithCapacity(capacity: nat)
      ensures Valid() && fresh(raw) && fresh(raw.cells) && raw.owners == 1 && raw.cells.Length == capacity
      ensures Elements() == [] && copied == 0 && Thrifty()
    {
      raw := new Allocation<T>(capacity);
      len, copied, outgrown := 0, 0, 0;
    }

    /** A second handle on the same allocation. */
    constructor Clone(other: Buffer<T>)
      requires other.Valid()
      modifies other.raw
      ensures raw == other.raw && len == other.len && raw.owners == old(other.raw.owners) + 1
      ensures Valid() && other.Valid() && Elements() == old(other.Elements())
    {
      raw, len, copied, outgrown := other.raw, other.len, 0, 0;
      new;
      raw.owners := raw.owners + 1;
    }

    /** Sole ownership and room for `additional` more, by moving if need be. */
    method MakeMut(additional: nat)
      requires Valid()
      modifies this, raw
      ensures Valid() && len == old(len) && Elements() == old(Elements())
      ensures raw.owners == 1 && len + additional <= raw.cells.Length
      ensures raw == old(raw) <==> old(raw.owners) == 1 && old(len) + additional <= old(raw.cells.Length)
      ensures raw == old(raw) ==> copied == old(copied) && outgrown == old(outgrown)
      ensures raw != old(raw) ==> fresh(raw) && fresh(raw.cells) && old(raw).owners == old(raw.owners) - 1
      ensures raw != old(raw) ==> copied == old(copied) + len && outgrown == old(raw.cells.Length)
      ensures raw != old(raw) ==> raw.cells.Length == Max(len + additional, Max(old(raw.cells.Length) * 2, 8))
    {
      var needed := len + additional;
      var unique := raw.owners == 1;
      if unique && needed <= raw.cells.Length { return; }
      var newCap := Max(Max(needed, raw.cells.Length * 2), 8);
      var moved := new Allocation<T>(newCap);
      forall p | 0 <= p < len { moved.cells[p] := raw.cells[p]; }
      copied, outgrown := copied + len, raw.cells.Length;
      raw.owners := raw.owners - 1;
      raw := moved;
    }

    /** Appends one element. */
    method Push(value: T)
      requires Valid()
      modifies this, raw, raw.cells
      ensures Valid() && Elements() == old(Elements()) + [value] && raw.owners == 1
      ensures Moved(old(raw), old(raw.owners), old(raw.cells), old(raw.cells[..]))
      ensures raw != old(raw) ==> fresh(raw) && fresh(raw.cells)
      ensures old(raw.owners) == 1 && old(Thrifty()) ==> Thrifty()
      ensures old(raw.owners) == 1 && old(Snug()) ==> Snug()
    {
      ghost var cells, was := raw.cells, raw.cells[..];
      MakeMut(1);
      assert raw.cells != cells ==> cells[..] == was;
      raw.cells[len] := value;
      len := len + 1;
    }

    /** Either the allocation stayed, solely owned all along, or it was left with one
        owner fewer and every cell as it was. */
    ghost predicate Moved(before: Allocation<T>, owners: nat, cells: array<T>, was: seq<T>)
      reads this, before, cells
    {
      && before.cells == cells
      && (raw == before ==> owners == 1)
      && (raw != before ==> before.owners == owners - 1 && cells[..] == was)
    }

    /** Appends a run of elements. */
    method Extend(values: seq<T>)
      requires Valid()
      modifies this, raw, raw.cells
      ensures raw == old(raw) <==> old(raw.owners) == 1 && old(len) + |values| <= old(raw.cells.Length)
      ensures raw == old(raw) ==> copied == old(copied)
      ensures Valid() && Elements() == old(Elements()) + values && raw.owners == 1
      ensures Moved(old(raw), old(raw.owners), old(raw.cells), old(raw.cells[..]))
      ensures raw != old(raw) ==> fresh(raw) && fresh(raw.cells)
      ensures old(raw.owners) == 1 && old(Thrifty()) ==> Thrifty()
      ensures old(raw.owners) == 1 && old(Snug()) ==> Snug()
    {
      ghost var cells, was := raw.cells, raw.cells[..];
      MakeMut(|values|);
      assert raw.cells != cells ==> cells[..] == was;
      ghost var kept := Elements();
      forall p | 0 <= p < |values| { raw.cells[len + p] := values[p]; }
      assert raw.cells[..len] == kept;
      assert raw.cells[len..len + |values|] == values;
      len := len + |values|;
    }

    /** Writes through the mutable slice. */
    method SetAt(index: nat, value: T)
      requires Valid() && index < len
      modifies this, raw, raw.cells
      ensures Valid() && Elements() == old(Elements())[index := value] && raw.owners == 1
      ensures Moved(old(raw), old(raw.owners), old(raw.cells), old(raw.cells[..]))
      ensures raw != old(raw) ==> fresh(raw) && fresh(raw.cells)
      ensures old(raw.owners) == 1 && old(Thrifty()) ==> Thrifty()
    {
      ghost var cells, was := raw.cells, raw.cells[..];
      MakeMut(0);
      assert raw.cells != cells ==> cells[..] == was;
      raw.cells[index] := value;
    }

    /** A handle going out of scope. */
    method Release()
      requires Valid()
      modifies raw
      ensures raw.owners == old(raw.owners) - 1
    {
      raw.owners := raw.owners - 1;
    }
  }

  /** Collecting an iterator copies at most twice what it collects. */
  method FromIter<T(0)>(values: seq<T>) returns (buf: Buffer<T>)
    ensures fresh(buf) && buf.Valid() && buf.Elements() == values && buf.copied <= 2 * |values|
  {
    buf := new Buffer<T>.WithCapacity(0);
    for p := 0 to |values|
      invariant fresh(buf) && fresh(buf.raw) && fresh(buf.raw.cells)
      invariant buf.Valid() && buf.raw.owners == 1 && buf.Thrifty() && buf.Elements() == values[..p]
    {
      buf.Push(values[p]);
      assert values[..p + 1] == values[..p] + [values[p]];
    }
    assert values[..|values|] == values;
  }

  datatype Growth<T> = One(value: T) | Several(values: seq<T>)

  function Grown<T>(steps: seq<Growth<T>>): seq<T> {
    if steps == [] then [] else
      Grown(steps[..|steps| - 1]) +
      match steps[|steps| - 1] { case One(value) => [value] case Several(values) => values }
  }

  /** Growth is amortised: a handle never shared holds what it was given after any
      pushes and extends, having copied at most twice its length to make room, and
      with room for at most twice its length (or eight). */
  method Grow<T(0)>(steps: seq<Growth<T>>) returns (buf: Buffer<T>)
    ensures fresh(buf) && buf.Valid() && buf.Elements() == Grown(steps)
    ensures buf.copied <= 2 * |Grown(steps)|
    ensures buf.raw.cells.Length <= Max(2 * |Grown(steps)|, 8)
  {
    buf := new Buffer<T>.WithCapacity(0);
    for p := 0 to |steps|
      invariant fresh(buf) && fresh(buf.raw) && fresh(buf.raw.cells)
      invariant buf.Valid() && buf.raw.owners == 1 && buf.Thrifty() && buf.Snug()
      invariant buf.Elements() == Grown(steps[..p])
    {
      match steps[p] {
        case One(value) => buf.Push(value);
        case Several(values) => buf.Extend(values);
      }
      assert steps[..p + 1][..p] == steps[..p];
    }
    assert steps[..|steps|] == steps;
  }

  /** Building from a slice copies nothing twice. */
  method FromSlice<T(0)>(values: seq<T>) returns (buf: Buffer<T>)
    ensures fresh(buf) && buf.Valid() && buf.Elements() == values
    ensures fresh(buf.raw) && fresh(buf.raw.cells) && buf.raw.owners == 1
    ensures buf.raw.cells.Length == |values| && buf.copied == 0
  {
    buf := new Buffer<T>.WithCapacity(|values|);
    buf.Extend(values);
  }

  /** Two places holding the same value count twice. */
  lemma CountsTwice<A>(s: seq<A>, i: nat, j: nat)
    requires i < j < |s| && s[i] == s[j]
    ensures multiset(s)[s[i]] >= 2
  {
    assert s == s[..j] + [s[j]] + s[j + 1..];
    assert s[..j] == s[..i] + [s[i]] + s[i + 1..j];
  }

  lemma CountAppend<A>(s: seq<A>, b: A, a: A)
    ensures multiset(s + [b])[a] == multiset(s)[a] + if a == b then 1 else 0
  {
  }

  lemma CountRemove<A>(s: seq<A>, i: nat, a: A)
    requires i < |s|
    ensures multiset(s)[a] == multiset(s[..i] + s[i + 1..])[a] + if a == s[i] then 1 else 0
  {
    assert s == s[..i] + [s[i]] + s[i + 1..];
  }

  lemma CountReplace<A>(s: seq<A>, i: nat, b: A, a: A)
    requires i < |s|
    ensures multiset(s[i := b])[a] + (if a == s[i] then 1 else 0) == multiset(s)[a] + if a == b then 1 else 0
  {
    CountRemove(s, i, a);
    CountRemove(s[i := b], i, a);
    assert s[i := b][..i] + s[i := b][i + 1..] == s[..i] + s[i + 1..];
  }

  datatype Operation<T> =
    | Make(values: seq<T>)
    | Share(source: nat)
    | Append(target: nat, value: T)
    | Concat(target: nat, values: seq<T>)
    | Write(target: nat, index: nat, value: T)
    | Discard(target: nat)

  /** The operation names handles and cells that exist. */
  predicate Applicable<T>(c: seq<seq<T>>, op: Operation<T>) {
    match op
    case Make(_) => true
    case Share(i) => i < |c|
    case Append(i, _) => i < |c|
    case Concat(i, _) => i < |c|
    case Write(i, index, _) => i < |c| && index < |c[i]|
    case Discard(i) => i < |c|
  }

  /** The operation on sequences that share nothing. */
  function Applied<T>(c: seq<seq<T>>, op: Operation<T>): seq<seq<T>>
    requires Applicable(c, op)
  {
    match op
    case Make(values) => c + [values]
    case Share(i) => c + [c[i]]
    case Append(i, value) => c[i := c[i] + [value]]
    case Concat(i, values) => c[i := c[i] + values]
    case Write(i, index, value) => c[i := c[i][index := value]]
    case Discard(i) => c[..i] + c[i + 1..]
  }

  predicate AllApplicable<T>(c: seq<seq<T>>, ops: seq<Operation<T>>)
    decreases |ops|
  {
    ops == [] || (Applicable(c, ops[0]) && AllApplicable(Applied(c, ops[0]), ops[1..]))
  }

  function AllApplied<T>(c: seq<seq<T>>, ops: seq<Operation<T>>): seq<seq<T>>
    requires AllApplicable(c, ops)
    decreases |ops|
  {
    if ops == [] then c else AllApplied(Applied(c, ops[0]), ops[1..])
  }

  /** Any number of handles over any number of allocations. */
  class Pool<T(0)> {
    var handles: seq<Buffer<T>>

    ghost function Raws(): (r: seq<Allocation<T>>)
      reads this, handles
      ensures |r| == |handles| && forall i :: 0 <= i < |r| ==> r[i] == handles[i].raw
    {
      seq(|handles|, i requires 0 <= i < |handles| reads this, handles => handles[i].raw)
    }

    /** Every allocation's owner count is the number of handles on it. */
    ghost predicate Valid()
      reads this, handles, Raws()
    {
      && (forall i, j :: 0 <= i < j < |handles| ==> handles[i] != handles[j])
      && (forall i :: 0 <= i < |handles| ==> handles[i].Valid())
      && Counted(Raws())
    }

    ghost function Contents(): (c: seq<seq<T>>)
      requires Valid()
      reads this, handles, Raws(), set a | a in Raws() :: a.cells
      ensures |c| == |handles| && forall i :: 0 <= i < |c| ==> c[i] == handles[i].Elements()
    {
      seq(|handles|,
          i requires 0 <= i < |handles| && Valid() reads this, handles, Raws(), set a | a in Raws() :: a.cells
            => handles[i].Elements())
    }

    lemma ContentsAre(c: seq<seq<T>>)
      requires Valid() && |c| == |handles| && forall j :: 0 <= j < |handles| ==> handles[j].Elements() == c[j]
      ensures Contents() == c
    {
    }

    constructor ()
      ensures Valid() && Contents() == []
    {
      handles := [];
    }

    method HandlePush(i: nat, value: T)
      requires Valid() && i < |handles|
      modifies handles[i], handles[i].raw, handles[i].raw.cells
      ensures handles == old(handles) && OnlyWrote(i, old(handles[i].raw))
      ensures handles[i].Elements() == old(handles[i].Elements()) + [value]
    {
      handles[i].Push(value);
    }

    method Push(i: nat, value: T)
      requires Valid() && i < |handles|
      modifies handles[i], handles[i].raw, handles[i].raw.cells
      ensures Valid() && handles == old(handles)
      ensures Reached()
      ensures Contents() == old(Contents())[i := old(Contents())[i] + [value]]
    {
      ghost var was, target := Contents(), handles[i].Elements() + [value];
      HandlePush(i, value);
      Written(i);
      ContentsAre(was[i := target]);
    }

    method HandleExtend(i: nat, values: seq<T>)
      requires Valid() && i < |handles|
      modifies handles[i], handles[i].raw, handles[i].raw.cells
      ensures handles == old(handles) && OnlyWrote(i, old(handles[i].raw))
      ensures handles[i].Elements() == old(handles[i].Elements()) + values
    {
      handles[i].Extend(values);
    }

    method Extend(i: nat, values: seq<T>)
      requires Valid() && i < |handles|
      modifies handles[i], handles[i].raw, handles[i].raw.cells
      ensures Valid() && handles == old(handles)
      ensures Reached()
      ensures Contents() == old(Contents())[i := old(Contents())[i] + values]
    {
      ghost var was, target := Contents(), handles[i].Elements() + values;
      HandleExtend(i, values);
      Written(i);
      ContentsAre(was[i := target]);
    }

    method HandleSetAt(i: nat, index: nat, value: T)
      requires Valid() && i < |handles| && index < handles[i].len
      modifies handles[i], handles[i].raw, handles[i].raw.cells
      ensures handles == old(handles) && OnlyWrote(i, old(handles[i].raw))
      ensures handles[i].Elements() == old(handles[i].Elements())[index := value]
    {
      handles[i].SetAt(index, value);
    }

    method SetAt(i: nat, index: nat, value: T)
      requires Valid() && i < |handles| && index < |Contents()[i]|
      modifies handles[i], handles[i].raw, handles[i].raw.cells
      ensures Valid() && handles == old(handles)
      ensures Reached()
      ensures Contents() == old(Contents())[i := old(Contents())[i][index := value]]
    {
      ghost var was, target := Contents(), handles[i].Elements()[index := value];
      HandleSetAt(i, index, value);
      Written(i);
      ContentsAre(was[i := target]);
    }

    /** A new handle with an allocation of its own. */
    method New(values: seq<T>)
      requires Valid()
      modifies this
      ensures Valid() && |handles| == old(|handles|) + 1 && old(handles) <= handles
      ensures Reached()
      ensures Contents() == old(Contents()) + [values]
    {
      var buf := FromSlice(values);
      handles := handles + [buf];
      JoinsAlone(buf);
      EarlierReached(buf);
      Joined(buf);
    }

    /** A second handle on handle `i`'s allocation: nothing is copied. */
    method Clone(i: nat)
      requires Valid() && i < |handles|
      modifies this, handles[i].raw
      ensures Valid() && |handles| == old(|handles|) + 1 && old(handles) <= handles
      ensures handles[|handles| - 1].raw == handles[i].raw
      ensures Reached()
      ensures Contents() == old(Contents()) + [old(Contents())[i]]
    {
      var twin := new Buffer<T>.Clone(handles[i]);
      handles := handles + [twin];
      JoinsOther(twin, i);
      EarlierReached(twin);
      Joined(twin);
    }

    /** Handle `i` goes out of scope; the rest close up. */
    method Drop(i: nat)
      requires Valid() && i < |handles|
      modifies this, handles[i].raw
      ensures Valid() && handles == old(handles)[..i] + old(handles)[i + 1..]
      ensures Reached()
      ensures Contents() == old(Contents())[..i] + old(Contents())[i + 1..]
    {
      handles[i].Release();
      handles := handles[..i] + handles[i + 1..];
      Leaves(i);
      Closed(i);
    }

    /** One more handle; every earlier one, and every cell, as it was. */
    twostate predicate Gained(new h: Buffer<T>)
      reads this, handles, h, h.raw, Raws(), set a | a in Raws() :: a.cells
    {
      && handles == old(handles) + [h] && fresh(h) && h.Valid()
      && forall j :: 0 <= j < old(|handles|) ==> unchanged(handles[j]) && unchanged(handles[j].raw.cells)
    }

    twostate lemma JoinsAlone(new h: Buffer<T>)
      requires old(Valid()) && Gained(h) && fresh(h.raw) && fresh(h.raw.cells) && h.raw.owners == 1
      requires forall a :: a in old(Raws()) ==> unchanged(a)
      ensures Valid()
    {
      var was, now := old(Raws()), Raws();
      assert now == was + [h.raw];
      forall a | a in now ensures a.owners == multiset(now)[a] { CountAppend(was, h.raw, a); }
    }

    twostate lemma JoinsOther(new h: Buffer<T>, i: nat)
      requires old(Valid()) && Gained(h) && i < old(|handles|) && h.raw == old(handles[i].raw)
      requires h.raw.owners == old(handles[i].raw.owners) + 1
      requires forall a :: a in old(Raws()) && a != h.raw ==> unchanged(a)
      ensures Valid()
    {
      JoinsCounted(h, i);
      assert forall a :: a in Raws() ==> a in old(Raws());
    }

    twostate lemma JoinsCounted(new h: Buffer<T>, i: nat)
      requires old(Valid()) && Gained(h) && i < old(|handles|) && h.raw == old(handles[i].raw)
      requires h.raw.owners == old(handles[i].raw.owners) + 1
      requires forall a :: a in old(Raws()) && a != h.raw ==> unchanged(a)
      ensures Raws() == old(Raws()) + [old(Raws())[i]]
      ensures forall a :: a in Raws() ==> a.owners == multiset(Raws())[a]
    {
      var was, now := old(Raws()), Raws();
      assert now == was + [was[i]];
      forall a | a in now ensures a.owners == multiset(now)[a] { CountAppend(was, was[i], a); }
    }

    twostate lemma EarlierKeep(new h: Buffer<T>)
      requires old(Valid()) && Gained(h) && Valid()
      ensures forall j :: 0 <= j < old(|handles|) ==> handles[j].Elements() == old(handles[j].Elements())
    {
    }

    /** One handle fewer, and one owner fewer on its allocation. */
    twostate predicate Lost(i: nat)
      requires i < old(|handles|)
      reads this, handles, Raws(), set a | a in Raws() :: a.cells
    {
      && handles == old(handles)[..i] + old(handles)[i + 1..]
      && (forall j :: 0 <= j < |handles| ==> unchanged(handles[j]) && unchanged(handles[j].raw.cells))
      && forall a :: a in Raws() ==> a.owners == old(a.owners) - if a == old(handles[i].raw) then 1 else 0
    }

    twostate lemma LeavesCounted(i: nat)
      requires old(Valid()) && i < old(|handles|) && Lost(i)
      ensures forall a :: a in Raws() ==> a.owners == multiset(Raws())[a]
      ensures forall a :: a in Raws() ==> a in old(Raws())
    {
      var was, now := old(Raws()), Raws();
      assert now == was[..i] + was[i + 1..];
      forall a | a in now ensures a.owners == multiset(now)[a] { CountRemove(was, i, a); }
    }

    twostate lemma Leaves(i: nat)
      requires old(Valid()) && i < old(|handles|) && Lost(i)
      ensures Valid()
    {
      LeavesCounted(i);
      forall j | 0 <= j < |handles| ensures handles[j].Valid() { assert Raws()[j] in Raws(); }
    }

    twostate lemma RestKeep(i: nat)
      requires old(Valid()) && i < old(|handles|) && Lost(i) && Valid()
      ensures forall j :: 0 <= j < |handles| ==>
                handles[j].Elements() == old(handles[if j < i then j else j + 1].Elements())
    {
    }

    ghost function Handles(): set<object>
      reads this
    {
      set h | h in handles :: h as object
    }

    ghost function Allocations(): set<object>
      reads this, handles
    {
      set a | a in Raws() :: a as object
    }

    ghost function Cells(): set<object>
      reads this, handles
    {
      set a | a in Raws() :: a.cells as object
    }

    ghost function Repr(): set<object>
      reads this, handles
    {
      {this} + Handles() + Allocations() + Cells()
    }

    twostate lemma ReprGrows()
      requires Reached()
      ensures fresh(Repr() - old(Repr()))
    {
    }

    lemma Within(i: nat)
      requires i < |handles|
      ensures handles[i] in Repr() && handles[i].raw in Repr() && handles[i].raw.cells in Repr()
    {
      assert handles[i] in handles && Raws()[i] in Raws();
      assert handles[i] in Handles() && handles[i].raw in Allocations() && handles[i].raw.cells in Cells();
    }

    /** One operation on the pool is the same operation on independent sequences. */
    method Perform(op: Operation<T>)
      requires Valid() && Applicable(Contents(), op)
      modifies Repr()
      ensures Valid() && Reached()
      ensures Contents() == Applied(old(Contents()), op)
    {
      if op.Share? { Within(op.source); } else if !op.Make? { Within(op.target); }
      match op
      case Make(values) => New(values);
      case Share(i) => Clone(i);
      case Append(i, value) => Push(i, value);
      case Concat(i, values) => Extend(i, values);
      case Write(i, index, value) => SetAt(i, index, value);
      case Discard(i) => Drop(i);
    }

    /** Any interleaving over any number of handles. */
    method Replay(ops: seq<Operation<T>>)
      requires Valid() && AllApplicable(Contents(), ops)
      modifies Repr()
      ensures Valid()
      ensures Contents() == AllApplied(old(Contents()), ops)
      decreases |ops|
    {
      if ops == [] { return; }
      Perform(ops[0]);
      ReprGrows();
      Replay(ops[1..]);
    }

    /** Whatever is reached now was reached before or is new. */
    twostate predicate Reached()
      reads this, handles, Raws()
    {
      && (forall j :: 0 <= j < |handles| ==> handles[j] in old(handles) || fresh(handles[j]))
      && forall j :: 0 <= j < |handles| ==>
           handles[j].raw in old(Raws()) || (fresh(handles[j].raw) && fresh(handles[j].raw.cells))
    }

    /** A write's whole effect. */
    twostate lemma Written(i: nat)
      requires old(Valid()) && handles == old(handles) && i < |handles| && OnlyWrote(i, old(handles[i].raw))
      ensures Valid() && Reached()
      ensures forall j :: 0 <= j < |handles| && j != i ==> handles[j].Elements() == old(handles[j].Elements())
    {
      Settles(i);
      OthersKeep(i);
      RawsReached(i);
    }

    twostate lemma RawsReached(i: nat)
      requires old(Valid()) && handles == old(handles) && i < |handles| && OnlyWrote(i, old(handles[i].raw))
      ensures Reached()
    {
      var was := old(Raws());
      forall j | 0 <= j < |handles|
        ensures handles[j].raw in was || (fresh(handles[j].raw) && fresh(handles[j].raw.cells))
      {
        assert was[j] in was;
      }
    }

    /** A new handle's whole effect. */
    twostate lemma Joined(new h: Buffer<T>)
      requires old(Valid()) && Gained(h) && Valid()
      ensures Contents() == old(Contents()) + [h.Elements()]
    {
      EarlierKeep(h);
      ContentsAre(old(Contents()) + [h.Elements()]);
    }

    twostate lemma EarlierReached(new h: Buffer<T>)
      requires old(Valid()) && Gained(h) && Valid() && (h.raw in old(Raws()) || (fresh(h.raw) && fresh(h.raw.cells)))
      ensures Reached()
    {
      var was := old(Raws());
      forall j | 0 <= j < old(|handles|) ensures handles[j].raw in was { assert was[j] in was; }
    }

    /** A lost handle's whole effect. */
    twostate lemma Closed(i: nat)
      requires old(Valid()) && i < old(|handles|) && Lost(i) && Valid()
      ensures Reached() && Contents() == old(Contents())[..i] + old(Contents())[i + 1..]
    {
      RestKeep(i);
      RestReached(i);
      ContentsAre(old(Contents())[..i] + old(Contents())[i + 1..]);
    }

    twostate lemma RestReached(i: nat)
      requires old(Valid()) && i < old(|handles|) && Lost(i) && Valid()
      ensures Reached()
    {
      var was := old(Raws());
      forall j | 0 <= j < |handles| ensures handles[j].raw in was { assert was[if j < i then j else j + 1] in was; }
    }

    /** What a write to handle `i` may have touched. */
    twostate predicate OnlyWrote(i: nat, before: Allocation<T>)
      requires handles == old(handles) && i < |handles|
      reads this, handles, Raws(), set a | a in Raws() :: a.cells, before, before.cells
    {
      && (forall j :: 0 <= j < |handles| && j != i ==> unchanged(handles[j]))
      && handles[i].Valid() && handles[i].raw.owners == 1
      && MovedFrom(handles[i], before)
      && OthersUntouched(i, before)
    }

    twostate predicate MovedFrom(h: Buffer<T>, before: Allocation<T>)
      reads h, before, before.cells
    {
      && h.Moved(before, old(before.owners), before.cells, old(before.cells[..]))
      && (h.raw != before ==> fresh(h.raw) && fresh(h.raw.cells))
    }

    twostate predicate OthersUntouched(i: nat, before: Allocation<T>)
      requires handles == old(handles) && i < |handles|
      reads this, handles, Raws(), set a | a in Raws() :: a.cells
    {
      forall j :: 0 <= j < |handles| && j != i && handles[j].raw == old(handles[j].raw) && handles[j].raw != before ==>
        unchanged(handles[j].raw) && unchanged(handles[j].raw.cells)
    }

    twostate lemma Recounts(i: nat)
      requires old(Valid()) && handles == old(handles) && i < |handles| && OnlyWrote(i, old(handles[i].raw))
      ensures Raws() == old(Raws())[i := handles[i].raw]
      ensures forall a :: a in Raws() ==> a.owners == multiset(Raws())[a]
    {
      var was, now, b := old(Raws()), Raws(), handles[i].raw;
      assert now == was[i := b];
      forall a | a in now ensures a.owners == multiset(now)[a] {
        CountReplace(was, i, b, a);
      }
    }

    /** After one handle's write every count is right again. */
    twostate lemma Settles(i: nat)
      requires old(Valid()) && handles == old(handles) && i < |handles| && OnlyWrote(i, old(handles[i].raw))
      ensures Valid()
    {
      Recounts(i);
    }

    /** ... and no other handle reads anything new. */
    twostate lemma OthersKeep(i: nat)
      requires old(Valid()) && handles == old(handles) && i < |handles| && OnlyWrote(i, old(handles[i].raw)) && Valid()
      ensures forall j :: 0 <= j < |handles| && j != i ==> handles[j].Elements() == old(handles[j].Elements())
    {
      ghost var raws := old(Raws());
      forall j | 0 <= j < |handles| && j != i
        ensures handles[j].Elements() == old(handles[j].Elements())
      {
        if raws[j] == raws[i] { CountsTwice(raws, if i < j then i else j, if i < j then j else i); }
      }
    }
  }

  /** The counts, for a list of the handles' allocations. Distinct allocations have
      distinct cells. */
  ghost predicate Counted<T(0)>(raws: seq<Allocation<T>>)
    reads raws
  {
    && (forall a :: a in raws ==> a.owners == multiset(raws)[a])
    && forall a, b :: a in raws && b in raws && a != b ==> a.cells != b.cells
  }
}
