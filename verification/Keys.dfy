/** Ordering keys and the bucket arithmetic over them (src/view.rs, the tail of
    the file).  Keys are 64-bit; division truncates toward zero, so bucket 0 is
    double width; range edges saturate. */
module Keys {

  const MIN: int := -0x8000_0000_0000_0000
  const MAX: int := 0x7FFF_FFFF_FFFF_FFFF

  type i64 = k: int | MIN <= k <= MAX

  /** A bucket width: a positive i64. */
  type Width = d: int | 1 <= d <= MAX witness 1

  /** The nearest 64-bit key. */
  function Clamp(x: int): (k: i64)
    ensures -0x8000_0000_0000_0000 <= x <= 0x7FFF_FFFF_FFFF_FFFF ==> k == x
    ensures x > 0x7FFF_FFFF_FFFF_FFFF ==> k == 0x7FFF_FFFF_FFFF_FFFF
    ensures x < -0x8000_0000_0000_0000 ==> k == -0x8000_0000_0000_0000
  {
    if x < MIN then MIN else if x > MAX then MAX else x
  }

  function SaturatingAdd(a: i64, b: i64): i64 { Clamp(a + b) }
  function SaturatingSub(a: i64, b: i64): i64 { Clamp(a - b) }
  function SaturatingMul(a: i64, b: i64): i64 { Clamp(a * b) }

  /** The executor's `/` on integers: toward zero, whatever the sign. */
  function BucketOf(k: i64, d: Width): (i: i64)
    ensures k >= 0 ==> 0 <= i * d <= k < i * d + d
    ensures k <= 0 ==> i * d - d < k <= i * d <= 0
  {
    if k >= 0 then DivBounds(k, d); k / d else DivBounds(0 - k, d); 0 - (0 - k) / d
  }

  lemma DivBounds(n: nat, d: Width)
    ensures 0 <= n / d <= n
    ensures (n / d) * d <= n < (n / d) * d + d
  {
    var q := n / d;
    assert n == q * d + n % d;
    assert q <= n by {
      if q > n { MulMono(1, d, q); }
    }
  }

  lemma MulMono(a: int, b: int, c: nat)
    requires a <= b
    ensures a * c <= b * c
  {
  }

  function BucketLow(index: i64, divide: Width): i64 {
    if index > 0 then SaturatingMul(index, divide)
    else if index == 0 then -(divide - 1)
    else SaturatingSub(SaturatingMul(index, divide), divide - 1)
  }

  function BucketHigh(index: i64, divide: Width): i64 {
    if index > 0 then SaturatingAdd(SaturatingMul(index, divide), divide - 1)
    else if index == 0 then divide - 1
    else SaturatingMul(index, divide)
  }

  /** Some 64-bit key falls in bucket `i`. */
  ghost predicate Attainable(i: i64, d: Width) {
    exists k: i64 :: BucketOf(k, d) == i
  }

  /** Steps of one in the index are steps of at least `d` in the product. */
  lemma MulStep(i: int, j: int, d: Width)
    requires i < j
    ensures i * d + d <= j * d
  {
    MulMono(i + 1, j, d);
  }

  lemma {:induction false} BucketOfMonotone(a: i64, b: i64, d: Width)
    requires a <= b
    ensures BucketOf(a, d) <= BucketOf(b, d)
  {
    var i, j := BucketOf(a, d), BucketOf(b, d);
    if j < i { MulStep(j, i, d); }
  }

  /** The low edge splits the axis exactly where the bucket index reaches `i`.
      This is also what makes the cumulative read's split exact. */
  lemma LowEdge(k: i64, i: i64, d: Width)
    requires Attainable(i, d)
    ensures k >= BucketLow(i, d) <==> BucketOf(k, d) >= i
  {
    var w: i64 :| BucketOf(w, d) == i;
    var b := BucketOf(k, d);
    if b < i { MulStep(b, i, d); } else if b > i { MulStep(i, b, d); }
    assert i < 0 ==> i * d <= 0 - d by { if i < 0 { MulStep(i, 0, d); } }
    assert i > 0 ==> i * d >= d by { if i > 0 { MulStep(0, i, d); } }
    assert b < 0 ==> b * d <= 0 - d by { if b < 0 { MulStep(b, 0, d); } }
    assert b > 0 ==> b * d >= d by { if b > 0 { MulStep(0, b, d); } }
  }

  lemma HighEdge(k: i64, i: i64, d: Width)
    requires Attainable(i, d)
    ensures k <= BucketHigh(i, d) <==> BucketOf(k, d) <= i
  {
    var w: i64 :| BucketOf(w, d) == i;
    var b := BucketOf(k, d);
    if b < i { MulStep(b, i, d); } else if b > i { MulStep(i, b, d); }
    assert i < 0 ==> i * d <= 0 - d by { if i < 0 { MulStep(i, 0, d); } }
    assert i > 0 ==> i * d >= d by { if i > 0 { MulStep(0, i, d); } }
    assert b < 0 ==> b * d <= 0 - d by { if b < 0 { MulStep(b, 0, d); } }
    assert b > 0 ==> b * d >= d by { if b > 0 { MulStep(0, b, d); } }
  }

  /** `BucketLow..BucketHigh` holds exactly bucket `i`'s keys, and it does so
      precisely for the indices some key attains: past the attainable ones the
      saturated edges still catch the extreme key. */
  lemma RangeIsBucketIffAttainable(i: i64, d: Width)
    ensures Attainable(i, d) <==>
            forall k: i64 :: BucketLow(i, d) <= k <= BucketHigh(i, d) <==> BucketOf(k, d) == i
  {
    if Attainable(i, d) {
      forall k: i64
        ensures BucketLow(i, d) <= k <= BucketHigh(i, d) <==> BucketOf(k, d) == i
      {
        LowEdge(k, i, d);
        HighEdge(k, i, d);
      }
    } else {
      assert BucketOf(0, d) == 0;
      assert i != 0;
      if i > 0 {
        if i * d <= MAX {
          BucketOfMultiple(i, d);
          assert false;
        }
        var k: i64 := MAX;
        assert BucketLow(i, d) <= k <= BucketHigh(i, d) && BucketOf(k, d) != i;
      } else {
        if i * d >= MIN {
          BucketOfMultiple(i, d);
          assert false;
        }
        var k: i64 := MIN;
        assert BucketLow(i, d) <= k <= BucketHigh(i, d) && BucketOf(k, d) != i;
      }
    }
  }

  lemma BucketOfMultiple(i: i64, d: Width)
    requires MIN <= i * d <= MAX
    ensures BucketOf(i * d, d) == i
  {
    var j := BucketOf(i * d, d);
    if j < i { MulStep(j, i, d); } else if i < j { MulStep(i, j, d); }
    if i > 0 { MulStep(0, i, d); } else if i < 0 { MulStep(i, 0, d); }
  }

  lemma Attains(k: i64, d: Width)
    ensures Attainable(BucketOf(k, d), d)
  {
  }

  /** Every index between two attained ones is attained. */
  lemma AttainableBetween(i: i64, m: i64, j: i64, d: Width)
    requires Attainable(i, d) && Attainable(j, d) && i <= m <= j
    ensures Attainable(m, d)
  {
    if m != 0 {
      var a: i64 :| BucketOf(a, d) == i;
      var b: i64 :| BucketOf(b, d) == j;
      MulMono(i, m, d);
      MulMono(m, j, d);
      if m > 0 { MulStep(0, m, d); if j > 0 { MulStep(0, j, d); } }
      if m < 0 { MulStep(m, 0, d); if i < 0 { MulStep(i, 0, d); } }
      BucketOfMultiple(m, d);
    } else {
      assert BucketOf(0, d) == 0;
    }
  }
}
