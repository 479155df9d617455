/** Dirty ranges and bucket runs: how a set of touched keys becomes a short list
    of closed ranges, and why the source side and the view side of a refresh
    then name exactly the same buckets. */
module Ranges {
  import opened Keys

  /** A closed range; inverted (`lo > hi`) means empty. */
  datatype Range = Range(lo: i64, hi: i64)

  ghost predicate Covers(rs: seq<Range>, k: i64) {
    exists i :: 0 <= i < |rs| && rs[i].lo <= k <= rs[i].hi
  }

  ghost predicate NonEmpty(rs: seq<Range>) {
    forall i :: 0 <= i < |rs| ==> rs[i].lo <= rs[i].hi
  }

  /** Sorted with a gap of at least one key between neighbours. */
  ghost predicate Normal(rs: seq<Range>) {
    && NonEmpty(rs)
    && forall i, j :: 0 <= i < j < |rs| ==> rs[i].hi + 1 < rs[j].lo
  }

  lemma CoversAppend(a: seq<Range>, b: seq<Range>, k: i64)
    ensures Covers(a + b, k) <==> Covers(a, k) || Covers(b, k)
  {
    if Covers(a, k) {
      var i :| 0 <= i < |a| && a[i].lo <= k <= a[i].hi;
      assert (a + b)[i] == a[i];
    }
    if Covers(b, k) {
      var i :| 0 <= i < |b| && b[i].lo <= k <= b[i].hi;
      assert (a + b)[|a| + i] == b[i];
    }
  }

  lemma CoversOne(r: Range, k: i64)
    ensures Covers([r], k) <==> r.lo <= k <= r.hi
  {
    if r.lo <= k <= r.hi { assert [r][0] == r; }
  }

  // ---------------------------------------------------------------- sorting

  predicate RangeLeq(a: Range, b: Range) {
    a.lo < b.lo || (a.lo == b.lo && a.hi <= b.hi)
  }

  ghost predicate Sorted(rs: seq<Range>) {
    forall i, j :: 0 <= i < j < |rs| ==> RangeLeq(rs[i], rs[j])
  }

  /** Stands for the library sort: any ascending rearrangement. */
  function InsertRange(r: Range, rs: seq<Range>): (s: seq<Range>)
    requires Sorted(rs)
    ensures Sorted(s)
    ensures multiset(s) == multiset(rs) + multiset{r}
  {
    if |rs| == 0 then [r]
    else if RangeLeq(r, rs[0]) then [r] + rs
    else
      var rest := InsertRange(r, rs[1..]);
      InsertFacts(r, rs, rest);
      [rs[0]] + rest
  }

  lemma InsertFacts(r: Range, rs: seq<Range>, rest: seq<Range>)
    requires |rs| > 0 && Sorted(rs) && Sorted(rest) && !RangeLeq(r, rs[0])
    requires multiset(rest) == multiset(rs[1..]) + multiset{r}
    ensures Sorted([rs[0]] + rest)
    ensures multiset([rs[0]] + rest) == multiset(rs) + multiset{r}
  {
    assert rs == [rs[0]] + rs[1..];
    forall i | 0 <= i < |rest|
      ensures RangeLeq(rs[0], rest[i])
    {
      assert rest[i] in multiset(rest);
      if rest[i] != r {
        assert rest[i] in multiset(rs[1..]);
        assert rest[i] in rs[1..];
      }
    }
  }

  function SortRanges(rs: seq<Range>): (s: seq<Range>)
    ensures Sorted(s) && multiset(s) == multiset(rs)
  {
    if |rs| == 0 then [] else
      assert rs == [rs[0]] + rs[1..];
      InsertRange(rs[0], SortRanges(rs[1..]))
  }

  lemma SameRangesSameCover(a: seq<Range>, b: seq<Range>)
    requires multiset(a) == multiset(b)
    ensures NonEmpty(a) <==> NonEmpty(b)
    ensures forall k: i64 :: Covers(a, k) <==> Covers(b, k)
  {
    SameRangesHelper(a, b);
    SameRangesHelper(b, a);
  }

  lemma SameRangesHelper(a: seq<Range>, b: seq<Range>)
    requires multiset(a) == multiset(b)
    ensures NonEmpty(b) ==> NonEmpty(a)
    ensures forall k: i64 :: Covers(a, k) ==> Covers(b, k)
  {
    forall i | 0 <= i < |a|
      ensures a[i] in b
    {
      assert a[i] in multiset(a);
    }
    forall k: i64 | Covers(a, k)
      ensures Covers(b, k)
    {
      var i :| 0 <= i < |a| && a[i].lo <= k <= a[i].hi;
      assert a[i] in b;
      var j :| 0 <= j < |b| && b[j] == a[i];
    }
  }

  // ---------------------------------------------------------------- merging

  ghost predicate SameCover(a: seq<Range>, b: seq<Range>) {
    forall k: i64 :: Covers(a, k) <==> Covers(b, k)
  }

  /** One arm of the merge loop: widen the last range, or start a new one. */
  function MergeInto(merged: seq<Range>, r: Range): (after: seq<Range>)
    requires Normal(merged) && r.lo <= r.hi
    requires |merged| > 0 ==> merged[|merged| - 1].lo <= r.lo
    ensures Normal(after) && CoverPlus(merged, r, after)
    ensures |after| > 0 && after[|after| - 1].lo <= r.lo
  {
    var last := |merged| - 1;
    if |merged| > 0 && r.lo <= SaturatingAdd(merged[last].hi, 1) then
      var hi := if merged[last].hi >= r.hi then merged[last].hi else r.hi;
      var after := merged[..last] + [Range(merged[last].lo, hi)];
      MergeStep(merged, r, after);
      after
    else
      AppendStep(merged, r);
      merged + [r]
  }

  /** Sorts and merges overlapping or adjacent ranges: the same keys, in
      normal form. */
  method MergeKeyRanges(ranges: seq<Range>) returns (merged: seq<Range>)
    requires NonEmpty(ranges)
    ensures Normal(merged)
    ensures SameCover(merged, ranges)
    ensures |ranges| > 0 ==> |merged| > 0
  {
    var sorted := SortRanges(ranges);
    SameRangesSameCover(sorted, ranges);
    assert |sorted| == |multiset(ranges)| == |ranges|;
    merged := [];
    for n := 0 to |sorted|
      invariant Merging(merged, sorted, n)
    {
      MergingStep(merged, sorted, n);
      merged := MergeInto(merged, sorted[n]);
    }
    assert sorted[..|sorted|] == sorted;
  }

  /** The first `n` ranges merged, ready for the next. */
  ghost predicate Merging(merged: seq<Range>, sorted: seq<Range>, n: nat)
    requires n <= |sorted|
  {
    && Normal(merged) && SameCover(merged, sorted[..n])
    && (n > 0 ==> |merged| > 0)
    && (|merged| > 0 && n < |sorted| ==> merged[|merged| - 1].lo <= sorted[n].lo)
  }

  lemma MergingStep(merged: seq<Range>, sorted: seq<Range>, n: nat)
    requires n < |sorted| && Merging(merged, sorted, n) && Sorted(sorted) && NonEmpty(sorted)
    ensures Merging(MergeInto(merged, sorted[n]), sorted, n + 1)
  {
    PrefixStep(merged, sorted, n, MergeInto(merged, sorted[n]));
    assert n + 1 < |sorted| ==> RangeLeq(sorted[n], sorted[n + 1]);
  }

  ghost predicate CoverPlus(before: seq<Range>, r: Range, after: seq<Range>) {
    forall k: i64 :: Covers(after, k) <==> Covers(before, k) || r.lo <= k <= r.hi
  }

  lemma PrefixStep(before: seq<Range>, sorted: seq<Range>, n: nat, after: seq<Range>)
    requires n < |sorted| && SameCover(before, sorted[..n]) && CoverPlus(before, sorted[n], after)
    ensures SameCover(after, sorted[..n + 1])
  {
    assert sorted[..n + 1] == sorted[..n] + [sorted[n]];
    AppendStep(sorted[..n], sorted[n]);
  }

  lemma AppendStep(before: seq<Range>, r: Range)
    ensures CoverPlus(before, r, before + [r])
    ensures Normal(before) && r.lo <= r.hi && (|before| > 0 ==> before[|before| - 1].hi + 1 < r.lo)
        ==> Normal(before + [r])
  {
    forall k: i64
      ensures Covers(before + [r], k) <==> Covers(before, k) || r.lo <= k <= r.hi
    {
      CoversAppend(before, [r], k);
      CoversOne(r, k);
    }
  }

  lemma MergeStep(before: seq<Range>, r: Range, after: seq<Range>)
    requires |before| > 0 && Normal(before) && r.lo <= r.hi
    requires before[|before| - 1].lo <= r.lo <= SaturatingAdd(before[|before| - 1].hi, 1)
    requires var last := before[|before| - 1];
             after == before[..|before| - 1] + [Range(last.lo, if last.hi >= r.hi then last.hi else r.hi)]
    ensures CoverPlus(before, r, after) && Normal(after)
  {
    var init, last := before[..|before| - 1], before[|before| - 1];
    assert before == init + [last];
    var grown := after[|after| - 1];
    forall k: i64
      ensures Covers(after, k) <==> Covers(before, k) || r.lo <= k <= r.hi
    {
      CoversAppend(init, [last], k);
      CoversAppend(init, [grown], k);
      CoversOne(last, k);
      CoversOne(grown, k);
    }
  }

  /** The normal form is a function of the key set alone, so the order in which
      dirty ranges were collected cannot show in the plan that runs. */
  lemma {:induction false} NormalFormUnique(a: seq<Range>, b: seq<Range>)
    requires Normal(a) && Normal(b)
    requires SameCover(a, b)
    ensures a == b
  {
    if |a| == 0 || |b| == 0 {
      if |a| > 0 { assert Covers(a, a[0].lo); }
      if |b| > 0 { assert Covers(b, b[0].lo); }
    } else {
      FirstLow(a, b);
      FirstLow(b, a);
      FirstHigh(a, b);
      FirstHigh(b, a);
      forall k: i64
        ensures Covers(a[1..], k) <==> Covers(b[1..], k)
      {
        TailCover(a, k);
        TailCover(b, k);
      }
      NormalFormUnique(a[1..], b[1..]);
      assert a == [a[0]] + a[1..];
      assert b == [b[0]] + b[1..];
    }
  }

  lemma FirstLow(a: seq<Range>, b: seq<Range>)
    requires Normal(a) && Normal(b) && |a| > 0 && |b| > 0
    requires SameCover(a, b)
    ensures b[0].lo <= a[0].lo
  {
    assert Covers(a, a[0].lo);
    var i :| 0 <= i < |b| && b[i].lo <= a[0].lo <= b[i].hi;
  }

  lemma NotJustPast(b: seq<Range>)
    requires Normal(b) && |b| > 0 && b[0].hi < MAX
    ensures !Covers(b, b[0].hi + 1)
  {
  }

  lemma FirstHigh(a: seq<Range>, b: seq<Range>)
    requires Normal(a) && Normal(b) && |a| > 0 && |b| > 0
    requires a[0].lo == b[0].lo
    requires SameCover(a, b)
    ensures a[0].hi <= b[0].hi
  {
    if a[0].hi > b[0].hi {
      NotJustPast(b);
      assert false;
    }
  }

  lemma TailCover(a: seq<Range>, k: i64)
    requires Normal(a) && |a| > 0
    ensures Covers(a[1..], k) <==> Covers(a, k) && k > a[0].hi
  {
    if Covers(a[1..], k) {
      var i :| 0 <= i < |a[1..]| && a[1..][i].lo <= k <= a[1..][i].hi;
      assert a[i + 1] == a[1..][i];
    }
    if Covers(a, k) && k > a[0].hi {
      var i :| 0 <= i < |a| && a[i].lo <= k <= a[i].hi;
      assert a[1..][i - 1] == a[i];
    }
  }

  /** `last - first + 1`, summed over the runs. */
  function TotalLength(runs: seq<Range>): int {
    if runs == [] then 0
    else TotalLength(runs[..|runs| - 1]) + runs[|runs| - 1].hi - runs[|runs| - 1].lo + 1
  }

  ghost predicate CoversExactly(runs: seq<Range>, buckets: seq<i64>) {
    forall b: i64 :: Covers(runs, b) <==> b in buckets
  }

  /** One arm of the run builder: extend the last run, or open a new one. */
  function RunInto(runs: seq<Range>, bucket: i64): (after: seq<Range>)
    requires Normal(runs) && (|runs| > 0 ==> runs[|runs| - 1].hi < bucket)
    ensures Normal(after) && CoverPlus(runs, Range(bucket, bucket), after)
    ensures |after| > 0 && after[|after| - 1].hi == bucket
    ensures TotalLength(after) == TotalLength(runs) + 1
  {
    var last := |runs| - 1;
    if |runs| > 0 && runs[last].hi + 1 == bucket then
      var after := runs[..last] + [Range(runs[last].lo, bucket)];
      MergeStep(runs, Range(bucket, bucket), after);
      assert after[..last] == runs[..last];
      after
    else
      AppendStep(runs, Range(bucket, bucket));
      assert (runs + [Range(bucket, bucket)])[..|runs|] == runs;
      runs + [Range(bucket, bucket)]
  }

  lemma RunStep(before: seq<Range>, buckets: seq<i64>, n: nat, after: seq<Range>)
    requires n < |buckets| && CoversExactly(before, buckets[..n])
    requires CoverPlus(before, Range(buckets[n], buckets[n]), after)
    ensures CoversExactly(after, buckets[..n + 1])
  {
    assert buckets[..n + 1] == buckets[..n] + [buckets[n]];
  }

  /** Collapses a strictly increasing bucket list (a `BTreeSet`'s iteration)
      into maximal runs of consecutive indices. */
  method ContiguousRuns(buckets: seq<i64>) returns (runs: seq<Range>)
    requires forall i, j :: 0 <= i < j < |buckets| ==> buckets[i] < buckets[j]
    ensures Normal(runs)
    ensures CoversExactly(runs, buckets)
    ensures |buckets| > 0 <==> |runs| > 0
    ensures TotalLength(runs) == |buckets|
  {
    runs := [];
    for n := 0 to |buckets|
      invariant Normal(runs)
      invariant TotalLength(runs) == n
      invariant |runs| > 0 <==> n > 0
      invariant |runs| > 0 ==> runs[|runs| - 1].hi == buckets[n - 1]
      invariant CoversExactly(runs, buckets[..n])
    {
      ghost var before := runs;
      runs := RunInto(runs, buckets[n]);
      RunStep(before, buckets, n, runs);
    }
    assert buckets[..|buckets|] == buckets;
  }

  // ---------------------------------------------------- key ranges to buckets

  ghost predicate CoversBucket(ranges: seq<Range>, b: i64, d: Width) {
    exists k: i64 :: BucketOf(k, d) == b && Covers(ranges, k)
  }

  ghost predicate AttainableEnds(runs: seq<Range>, d: Width) {
    forall i :: 0 <= i < |runs| ==> Attainable(runs[i].lo, d) && Attainable(runs[i].hi, d)
  }

  function ToBuckets(r: Range, d: Width): Range {
    Range(BucketOf(r.lo, d), BucketOf(r.hi, d))
  }

  /** A non-empty key range's buckets are exactly the indices between its ends'. */
  lemma RangeBuckets(r: Range, b: i64, d: Width)
    requires r.lo <= r.hi
    ensures ToBuckets(r, d).lo <= b <= ToBuckets(r, d).hi
       <==> exists k: i64 :: BucketOf(k, d) == b && r.lo <= k <= r.hi
  {
    BucketOfMonotone(r.lo, r.hi, d);
    if ToBuckets(r, d).lo <= b <= ToBuckets(r, d).hi {
      Attains(r.lo, d);
      Attains(r.hi, d);
      AttainableBetween(ToBuckets(r, d).lo, b, ToBuckets(r, d).hi, d);
      if b == ToBuckets(r, d).lo {
        assert BucketOf(r.lo, d) == b;
      } else {
        var k := BucketLow(b, d);
        LowEdge(k, b, d);
        LowEdge(r.lo, b, d);
        LowEdge(r.hi, b, d);
        var w: i64 :| BucketOf(w, d) == b;
        LowEdge(w, b, d);
        BucketOfMonotone(k, w, d);
        assert BucketOf(k, d) == b && r.lo <= k <= r.hi;
      }
    }
    forall k: i64 | BucketOf(k, d) == b && r.lo <= k <= r.hi
      ensures ToBuckets(r, d).lo <= b <= ToBuckets(r, d).hi
    {
      BucketOfMonotone(r.lo, k, d);
      BucketOfMonotone(k, r.hi, d);
    }
  }

  method KeyRangesToBucketRuns(ranges: seq<Range>, d: Width) returns (runs: seq<Range>)
    requires NonEmpty(ranges)
    ensures NonEmpty(runs) && AttainableEnds(runs, d)
    ensures forall b: i64 :: Covers(runs, b) <==> CoversBucket(ranges, b, d)
    ensures |ranges| > 0 <==> |runs| > 0
    ensures Normal(ranges) ==> Normal(runs)
  {
    if d == 1 {
      forall k: i64 ensures BucketOf(k, d) == k { BucketOfMultiple(k, d); }
      forall i | 0 <= i < |ranges|
        ensures Attainable(ranges[i].lo, d) && Attainable(ranges[i].hi, d)
      {
        Attains(ranges[i].lo, d);
        Attains(ranges[i].hi, d);
      }
      return ranges;
    }
    var mapped: seq<Range> := [];
    for n := 0 to |ranges|
      invariant |mapped| == n
      invariant forall i :: 0 <= i < n ==> mapped[i] == ToBuckets(ranges[i], d)
    {
      mapped := mapped + [ToBuckets(ranges[n], d)];
    }
    forall i | 0 <= i < |mapped| ensures mapped[i].lo <= mapped[i].hi {
      BucketOfMonotone(ranges[i].lo, ranges[i].hi, d);
    }
    runs := MergeKeyRanges(mapped);
    MappedCover(ranges, mapped, d);
    if |runs| > 0 {
      assert Covers(runs, runs[0].lo);
      assert Covers(mapped, runs[0].lo);
    }
    forall i | 0 <= i < |runs|
      ensures Attainable(runs[i].lo, d) && Attainable(runs[i].hi, d)
    {
      assert Covers(runs, runs[i].lo) && Covers(runs, runs[i].hi);
      assert CoversBucket(ranges, runs[i].lo, d) && CoversBucket(ranges, runs[i].hi, d);
    }
  }

  lemma MappedCover(ranges: seq<Range>, mapped: seq<Range>, d: Width)
    requires NonEmpty(ranges) && |mapped| == |ranges|
    requires forall i :: 0 <= i < |ranges| ==> mapped[i] == ToBuckets(ranges[i], d)
    ensures forall b: i64 :: Covers(mapped, b) <==> CoversBucket(ranges, b, d)
  {
    forall b: i64
      ensures Covers(mapped, b) <==> CoversBucket(ranges, b, d)
    {
      if Covers(mapped, b) {
        var i :| 0 <= i < |mapped| && mapped[i].lo <= b <= mapped[i].hi;
        RangeBuckets(ranges[i], b, d);
        var k: i64 :| BucketOf(k, d) == b && ranges[i].lo <= k <= ranges[i].hi;
        assert Covers(ranges, k);
      }
      if CoversBucket(ranges, b, d) {
        var k: i64 :| BucketOf(k, d) == b && Covers(ranges, k);
        var i :| 0 <= i < |ranges| && ranges[i].lo <= k <= ranges[i].hi;
        RangeBuckets(ranges[i], b, d);
        assert mapped[i].lo <= b <= mapped[i].hi;
      }
    }
  }

  // --------------------------------------- the two sides of a restricted fold

  /** `restricted_to`: the run list as ranges over the source's ordering key. */
  predicate SourceHit(runs: seq<Range>, k: i64, d: Width) {
    exists i :: 0 <= i < |runs| && BucketLow(runs[i].lo, d) <= k <= BucketHigh(runs[i].hi, d)
  }

  /** `view_ranges`: the same run list over the stored bucket column. */
  predicate ViewHit(runs: seq<Range>, stored: int, scale: Width) {
    exists i :: 0 <= i < |runs|
             && SaturatingMul(runs[i].lo, scale) <= stored <= SaturatingMul(runs[i].hi, scale)
  }

  /** A source row is re-folded exactly when its bucket is in a run, inverted
      (empty) runs included. */
  lemma SourceHitIsBucketHit(runs: seq<Range>, k: i64, d: Width)
    requires AttainableEnds(runs, d)
    ensures SourceHit(runs, k, d) <==> Covers(runs, BucketOf(k, d))
  {
    forall i | 0 <= i < |runs|
      ensures BucketLow(runs[i].lo, d) <= k <= BucketHigh(runs[i].hi, d)
         <==> runs[i].lo <= BucketOf(k, d) <= runs[i].hi
    {
      LowEdge(k, runs[i].lo, d);
      HighEdge(k, runs[i].hi, d);
    }
  }

  lemma BucketTimesWidthFits(i: i64, d: Width)
    requires Attainable(i, d)
    ensures MIN <= i * d <= MAX
  {
    var k: i64 :| BucketOf(k, d) == i;
  }

  /** A stored row is superseded exactly when its bucket is in a run.  The scale
      is 1 or the width itself, which is what keeps the products in range. */
  lemma ViewHitIsBucketHit(runs: seq<Range>, b: i64, d: Width, scale: Width)
    requires AttainableEnds(runs, d) && Attainable(b, d)
    requires scale == 1 || scale == d
    ensures ViewHit(runs, b * scale, scale) <==> Covers(runs, b)
  {
    if scale == d { BucketTimesWidthFits(b, d); }
    forall i | 0 <= i < |runs|
      ensures SaturatingMul(runs[i].lo, scale) <= b * scale <= SaturatingMul(runs[i].hi, scale)
         <==> runs[i].lo <= b <= runs[i].hi
    {
      var lo, hi := runs[i].lo, runs[i].hi;
      if scale == d { BucketTimesWidthFits(lo, d); BucketTimesWidthFits(hi, d); }
      if lo <= b { MulMono(lo, b, scale); } else { MulStep(b, lo, scale); }
      if b <= hi { MulMono(b, hi, scale); } else { MulStep(hi, b, scale); }
    }
  }
}
