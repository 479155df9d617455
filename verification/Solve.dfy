/** The in-place symmetric solve (src/multifactor.rs), over exact reals: a
    Cholesky factor written over the lower triangle, then two substitutions
    written over the right-hand side. */
module Solve {

  type Vector = seq<real>
  type Matrix = seq<seq<real>>

  const SPD_PIVOT_FLOOR: real := 0.000000000001

  ghost predicate Square(m: Matrix, k: nat) {
    |m| == k && forall i :: 0 <= i < k ==> |m[i]| == k
  }

  /** The first `n` products, summed. */
  ghost function Dot(u: Vector, v: Vector, n: nat): real
    requires n <= |u| && n <= |v|
  {
    if n == 0 then 0.0 else Dot(u, v, n - 1) + u[n - 1] * v[n - 1]
  }

  lemma {:induction false} DotPrefix(u: Vector, v: Vector, u': Vector, v': Vector, n: nat)
    requires n <= |u| && n <= |v| && n <= |u'| && n <= |v'|
    requires forall p :: 0 <= p < n ==> u[p] == u'[p] && v[p] == v'[p]
    ensures Dot(u, v, n) == Dot(u', v', n)
  {
    if n == 0 {
    } else {
      DotPrefix(u, v, u', v', n - 1);
    }
  }

  // ------------------------------------------------------------ factorization

  /** Columns below `j` factor the matrix's lower triangle. */
  ghost predicate Factored(l: Matrix, a: Matrix, k: nat, j: nat)
    requires Square(l, k) && Square(a, k) && j <= k
  {
    && (forall p :: 0 <= p < j ==> l[p][p] > 0.0)
    && forall i, p :: 0 <= p < j && p <= i < k ==> Dot(l[i], l[p], p + 1) == a[i][p]
  }

  /** Squared pivots clear the relative floor. */
  ghost predicate ClearsFloor(l: Matrix, a: Matrix, k: nat)
    requires Square(l, k) && Square(a, k)
  {
    forall j :: 0 <= j < k ==> l[j][j] * l[j][j] > a[j][j] * SPD_PIVOT_FLOOR
  }

  /** `a` (its lower triangle alone) is usefully positive definite. */
  ghost predicate UsablySpd(a: Matrix, k: nat)
    requires Square(a, k)
  {
    exists l: Matrix :: Square(l, k) && Factored(l, a, k, k) && ClearsFloor(l, a, k)
  }

  lemma RootsAgree(x: real, y: real)
    requires x > 0.0 && y > 0.0 && x * x == y * y
    ensures x == y
  {
    assert (x - y) * (x + y) == 0.0;
  }

  lemma QuotientsAgree(x: real, y: real, d: real)
    requires d > 0.0 && x * d == y * d
    ensures x == y
  {
    assert (x - y) * d == 0.0;
  }

  /** A factor with positive diagonal is unique, column by column. */
  lemma {:induction false} FactorUnique(l: Matrix, m: Matrix, a: Matrix, k: nat, j: nat)
    requires Square(l, k) && Square(m, k) && Square(a, k) && j <= k
    requires Factored(l, a, k, j) && Factored(m, a, k, j)
    ensures forall i, p :: 0 <= p < j && p <= i < k ==> l[i][p] == m[i][p]
  {
    if j == 0 {
    } else {
      var p := j - 1;
      FactorUnique(l, m, a, k, p);
      DotPrefix(l[p], l[p], m[p], m[p], p);
      assert Dot(l[p], l[p], p + 1) == a[p][p] == Dot(m[p], m[p], p + 1);
      RootsAgree(l[p][p], m[p][p]);
      forall i | p <= i < k
        ensures l[i][p] == m[i][p]
      {
        DotPrefix(l[i], l[p], m[i], m[p], p);
        assert Dot(l[i], l[p], p + 1) == a[i][p] == Dot(m[i], m[p], p + 1);
        QuotientsAgree(l[i][p], m[i][p], l[p][p]);
      }
    }
  }

  /** Any factor's next squared pivot is what is left of the diagonal. */
  lemma PivotIsRemainder(l: Matrix, m: Matrix, a: Matrix, k: nat, j: nat)
    requires Square(l, k) && Square(m, k) && Square(a, k) && j < k
    requires Factored(l, a, k, j) && Factored(m, a, k, k)
    ensures m[j][j] * m[j][j] == a[j][j] - Dot(l[j], l[j], j)
    ensures m[j][j] > 0.0
  {
    assert Factored(m, a, k, j);
    FactorUnique(l, m, a, k, j);
    DotPrefix(l[j], l[j], m[j], m[j], j);
    assert Dot(m[j], m[j], j + 1) == a[j][j];
  }

  lemma ProductPositive(x: real, y: real, product: real)
    requires x > 0.0 && y > 0.0 && product == x * y
    ensures product > 0.0
  {
  }

  /** A column whose pivot is unusable admits no usable factor at all. */
  lemma NoFactorPast(l: Matrix, a: Matrix, k: nat, j: nat, diagonal: real)
    requires Square(l, k) && Square(a, k) && j < k && Factored(l, a, k, j)
    requires diagonal == a[j][j] - Dot(l[j], l[j], j)
    requires !(diagonal > 0.0 && diagonal > a[j][j] * SPD_PIVOT_FLOOR)
    ensures !UsablySpd(a, k)
  {
    forall m: Matrix | Square(m, k) && Factored(m, a, k, k)
      ensures !ClearsFloor(m, a, k)
    {
      FloorFails(l, m, a, k, j, diagonal);
    }
  }

  lemma FloorFails(l: Matrix, m: Matrix, a: Matrix, k: nat, j: nat, diagonal: real)
    requires Square(l, k) && Square(m, k) && Square(a, k) && j < k
    requires Factored(l, a, k, j) && Factored(m, a, k, k)
    requires diagonal == a[j][j] - Dot(l[j], l[j], j)
    requires !(diagonal > 0.0 && diagonal > a[j][j] * SPD_PIVOT_FLOOR)
    ensures !ClearsFloor(m, a, k)
  {
    PivotIsRemainder(l, m, a, k, j);
    var x := m[j][j];
    ProductPositive(x, x, diagonal);
    assert diagonal <= a[j][j] * SPD_PIVOT_FLOOR;
    assert x * x == diagonal;
  }

  // ------------------------------------------------------------ substitutions

  /** L·y = b, row by row. */
  ghost predicate ForwardDone(l: Matrix, y: Vector, b: Vector, k: nat, n: nat)
    requires Square(l, k) && |y| == k && |b| == k && n <= k
  {
    forall i :: 0 <= i < n ==> Dot(l[i], y, i + 1) == b[i]
  }

  /** The part of column `i` of L against `x`, from row `lo` to below `hi`. */
  ghost function ColumnDot(l: Matrix, x: Vector, i: nat, lo: nat, hi: nat): real
    requires Square(l, |x|) && i < |x| && hi <= |x|
    decreases hi
  {
    if hi <= lo then 0.0 else ColumnDot(l, x, i, lo, hi - 1) + l[hi - 1][i] * x[hi - 1]
  }

  lemma {:induction false} ColumnDotFrame(l: Matrix, x: Vector, x': Vector, i: nat, lo: nat, hi: nat)
    requires |x| == |x'| && Square(l, |x|) && i < |x| && hi <= |x|
    requires forall p :: lo <= p < hi ==> x[p] == x'[p]
    ensures ColumnDot(l, x, i, lo, hi) == ColumnDot(l, x', i, lo, hi)
    decreases hi
  {
    if hi <= lo {
    } else {
      ColumnDotFrame(l, x, x', i, lo, hi - 1);
    }
  }

  lemma {:induction false} ColumnDotHead(l: Matrix, x: Vector, i: nat, lo: nat, hi: nat)
    requires Square(l, |x|) && i < |x| && lo < hi <= |x|
    ensures ColumnDot(l, x, i, lo, hi) == l[lo][i] * x[lo] + ColumnDot(l, x, i, lo + 1, hi)
    decreases hi
  {
    if hi <= lo + 1 {
    } else {
      ColumnDotHead(l, x, i, lo, hi - 1);
    }
  }

  /** Lᵀ·x = y from row `n` up. */
  ghost predicate BackwardDone(l: Matrix, x: Vector, y: Vector, k: nat, n: nat)
    requires Square(l, k) && |x| == k && |y| == k && n <= k
  {
    forall i :: n <= i < k ==> ColumnDot(l, x, i, i, k) == y[i]
  }

  /** Entry of the symmetric matrix the lower triangle stands for. */
  ghost function Sym(a: Matrix, k: nat, i: nat, j: nat): real
    requires Square(a, k) && i < k && j < k
  {
    if j <= i then a[i][j] else a[j][i]
  }

  function Times(p: real, q: real): real { p * q }

  /** Row `i` of the symmetric product, first `n` terms. */
  ghost function SymDot(a: Matrix, k: nat, x: Vector, i: nat, n: nat): real
    requires Square(a, k) && |x| == k && i < k && n <= k
  {
    if n == 0 then 0.0 else SymDot(a, k, x, i, n - 1) + Times(Sym(a, k, i, n - 1), x[n - 1])
  }

  ghost predicate Solves(a: Matrix, k: nat, x: Vector, b: Vector)
    requires Square(a, k) && |x| == k && |b| == k
  {
    forall i :: 0 <= i < k ==> SymDot(a, k, x, i, k) == b[i]
  }

  /** Row `i` of L against the first `n` rows' share of Lᵀ·x. */
  ghost function Nested(l: Matrix, x: Vector, i: nat, m: nat, n: nat): real
    requires Square(l, |x|) && i < |x| && m <= |x| && n <= |x|
    decreases m
  {
    if m == 0 then 0.0 else Nested(l, x, i, m - 1, n) + l[i][m - 1] * ColumnDot(l, x, m - 1, m - 1, n)
  }

  ghost function Least(m: nat, n: nat): (r: nat)
    ensures r <= m && r <= n
  {
    if m <= n then m else n
  }

  /** One more column of A is one more term in each inner sum. */
  lemma {:induction false} NestedStep(l: Matrix, x: Vector, i: nat, m: nat, n: nat)
    requires Square(l, |x|) && i < |x| && m <= |x| && n < |x|
    ensures Nested(l, x, i, m, n + 1) == Nested(l, x, i, m, n) + Dot(l[i], l[n], Least(m, n + 1)) * x[n]
    decreases m
  {
    if m > 0 {
      var q := m - 1;
      NestedStep(l, x, i, q, n);
      if q <= n {
        OneMoreTerm(l[i][q], l[n][q], x[n], ColumnDot(l, x, q, q, n), ColumnDot(l, x, q, q, n + 1),
                    Dot(l[i], l[n], q), Dot(l[i], l[n], m), Nested(l, x, i, q, n), Nested(l, x, i, q, n + 1));
      } else {
        assert ColumnDot(l, x, q, q, n + 1) == ColumnDot(l, x, q, q, n) == 0.0;
      }
    }
  }

  lemma OneMoreTerm(p: real, q: real, x: real, column: real, column': real, dot: real, dot': real,
                    nested: real, nested': real)
    requires column' == column + q * x && dot' == dot + p * q && nested' == nested + dot * x
    ensures nested' + p * column' == nested + p * column + dot' * x
  {
    assert p * column' == p * column + p * (q * x);
    assert dot' * x == dot * x + (p * q) * x;
  }

  lemma {:induction false} DotCommutes(u: Vector, v: Vector, n: nat)
    requires n <= |u| && n <= |v|
    ensures Dot(u, v, n) == Dot(v, u, n)
  {
    if n == 0 {
    } else {
      DotCommutes(u, v, n - 1);
    }
  }

  /** A's row `i` times `x` is L's row `i` times Lᵀ·x, summed in the other order. */
  lemma SumsSwap(l: Matrix, a: Matrix, k: nat, x: Vector, i: nat)
    requires Square(l, k) && Square(a, k) && |x| == k && i < k
    requires Factored(l, a, k, k)
    ensures SymDot(a, k, x, i, k) == Nested(l, x, i, i + 1, k)
  {
    forall m | 0 <= m < k ensures ColumnAdds(l, a, k, x, i, m) { NestedColumn(l, a, k, x, i, m); }
    SumsSwapBelow(l, a, k, x, i, k);
  }

  ghost predicate ColumnAdds(l: Matrix, a: Matrix, k: nat, x: Vector, i: nat, m: nat)
    requires Square(l, k) && Square(a, k) && |x| == k && i < k && m < k
  {
    Nested(l, x, i, i + 1, m + 1) == Nested(l, x, i, i + 1, m) + Times(Sym(a, k, i, m), x[m])
  }

  lemma {:induction false} SumsSwapBelow(l: Matrix, a: Matrix, k: nat, x: Vector, i: nat, n: nat)
    requires Square(l, k) && Square(a, k) && |x| == k && i < k && n <= k
    requires forall m :: 0 <= m < n ==> ColumnAdds(l, a, k, x, i, m)
    ensures SymDot(a, k, x, i, n) == Nested(l, x, i, i + 1, n)
  {
    if n == 0 {
      NestedEmpty(l, x, i, i + 1);
    } else {
      SumsSwapBelow(l, a, k, x, i, n - 1);
      assert ColumnAdds(l, a, k, x, i, n - 1);
    }
  }

  lemma NestedColumn(l: Matrix, a: Matrix, k: nat, x: Vector, i: nat, m: nat)
    requires Square(l, k) && Square(a, k) && |x| == k && i < k && m < k && Factored(l, a, k, k)
    ensures Nested(l, x, i, i + 1, m + 1) == Nested(l, x, i, i + 1, m) + Times(Sym(a, k, i, m), x[m])
  {
    SymIsDot(l, a, k, i, m);
    NestedStepBy(l, x, i, i + 1, m, Sym(a, k, i, m));
  }

  lemma NestedStepBy(l: Matrix, x: Vector, i: nat, m: nat, n: nat, dot: real)
    requires Square(l, |x|) && i < |x| && m <= |x| && n < |x| && dot == Dot(l[i], l[n], Least(m, n + 1))
    ensures Nested(l, x, i, m, n + 1) == Nested(l, x, i, m, n) + Times(dot, x[n])
  {
    NestedStep(l, x, i, m, n);
  }

  lemma SymIsDot(l: Matrix, a: Matrix, k: nat, i: nat, j: nat)
    requires Square(l, k) && Square(a, k) && i < k && j < k && Factored(l, a, k, k)
    ensures Sym(a, k, i, j) == Dot(l[i], l[j], Least(i + 1, j + 1))
  {
    if j > i { DotCommutes(l[i], l[j], i + 1); }
  }

  lemma {:induction false} NestedEmpty(l: Matrix, x: Vector, i: nat, m: nat)
    requires Square(l, |x|) && i < |x| && m <= |x|
    ensures Nested(l, x, i, m, 0) == 0.0
    decreases m
  {
    if m == 0 {
    } else {
      NestedEmpty(l, x, i, m - 1);
    }
  }

  lemma {:induction false} NestedIsDot(l: Matrix, x: Vector, y: Vector, i: nat, m: nat)
    requires Square(l, |x|) && |y| == |x| && i < |x| && m <= |x|
    requires BackwardDone(l, x, y, |x|, 0)
    ensures Nested(l, x, i, m, |x|) == Dot(l[i], y, m)
    decreases m
  {
    if m == 0 {
    } else {
      NestedIsDot(l, x, y, i, m - 1);
    }
  }

  /** The two substitutions together solve the symmetric system. */
  lemma SubstitutionsSolve(l: Matrix, a: Matrix, k: nat, x: Vector, y: Vector, b: Vector)
    requires Square(l, k) && Square(a, k) && |x| == k && |y| == k && |b| == k
    requires Factored(l, a, k, k) && ForwardDone(l, y, b, k, k) && BackwardDone(l, x, y, k, 0)
    ensures Solves(a, k, x, b)
  {
    forall i | 0 <= i < k
      ensures SymDot(a, k, x, i, k) == b[i]
    {
      SumsSwap(l, a, k, x, i);
      NestedIsDot(l, x, y, i, i + 1);
    }
  }

  /** With a factor in hand, two solutions share their intermediate vector. */
  lemma {:induction false} IntermediateUnique(l: Matrix, a: Matrix, k: nat, x: Vector, z: Vector, b: Vector, n: nat)
    requires Square(l, k) && Square(a, k) && |x| == k && |z| == k && |b| == k && n <= k
    requires Factored(l, a, k, k) && Solves(a, k, x, b) && Solves(a, k, z, b)
    ensures forall m :: 0 <= m < n ==> ColumnDot(l, x, m, m, k) == ColumnDot(l, z, m, m, k)
  {
    if n == 0 {
    } else {
      var i := n - 1;
      IntermediateUnique(l, a, k, x, z, b, i);
      SumsSwap(l, a, k, x, i);
      SumsSwap(l, a, k, z, i);
      NestedAgrees(l, x, z, i, i);
      assert SymDot(a, k, x, i, k) == b[i] == SymDot(a, k, z, i, k);
      QuotientsAgree(ColumnDot(l, x, i, i, k), ColumnDot(l, z, i, i, k), l[i][i]);
    }
  }

  lemma {:induction false} NestedAgrees(l: Matrix, x: Vector, z: Vector, i: nat, m: nat)
    requires |x| == |z| && Square(l, |x|) && i < |x| && m <= |x|
    requires forall p :: 0 <= p < m ==> ColumnDot(l, x, p, p, |x|) == ColumnDot(l, z, p, p, |x|)
    ensures Nested(l, x, i, m, |x|) == Nested(l, z, i, m, |x|)
  {
    if m == 0 {
    } else {
      NestedAgrees(l, x, z, i, m - 1);
    }
  }

  lemma TermsAgree(d: real, x: real, z: real, p: real, q: real)
    requires d > 0.0 && p == d * x && q == d * z && p == q
    ensures x == z
  {
    QuotientsAgree(x, z, d);
  }

  lemma {:induction false} BackwardUnique(l: Matrix, k: nat, x: Vector, z: Vector, n: nat)
    requires Square(l, k) && |x| == k && |z| == k && n <= k
    requires forall p :: 0 <= p < k ==> l[p][p] > 0.0
    requires forall m :: 0 <= m < k ==> ColumnDot(l, x, m, m, k) == ColumnDot(l, z, m, m, k)
    ensures forall p :: n <= p < k ==> x[p] == z[p]
    decreases k - n
  {
    if n >= k {
    } else {
      BackwardUnique(l, k, x, z, n + 1);
      ColumnDotHead(l, x, n, n, k);
      ColumnDotHead(l, z, n, n, k);
      ColumnDotFrame(l, x, z, n, n + 1, k);
      assert ColumnDot(l, x, n, n, k) == ColumnDot(l, z, n, n, k);
      TermsAgree(l[n][n], x[n], z[n], l[n][n] * x[n], l[n][n] * z[n]);
    }
  }

  /** A usable system has one solution. */
  lemma SolutionUnique(a: Matrix, k: nat, x: Vector, z: Vector, b: Vector)
    requires Square(a, k) && |x| == k && |z| == k && |b| == k
    requires UsablySpd(a, k) && Solves(a, k, x, b) && Solves(a, k, z, b)
    ensures x == z
  {
    var l: Matrix :| Square(l, k) && Factored(l, a, k, k) && ClearsFloor(l, a, k);
    IntermediateUnique(l, a, k, x, z, b, k);
    BackwardUnique(l, k, x, z, 0);
  }

  // --------------------------------------------------------------- the method

  /** What the in-place method has written so far: `l` shadows the matrix, the
      columns below `j` are factor columns, everything else is as it came. */
  ghost predicate Shadow(matrix: array2<real>, l: Matrix, k: nat)
    reads matrix
  {
    && matrix.Length0 == k && matrix.Length1 == k && Square(l, k)
    && forall i, j :: 0 <= i < k && 0 <= j < k ==> matrix[i, j] == l[i][j]
  }

  ghost predicate RestAsCame(l: Matrix, a: Matrix, k: nat, j: nat, rows: nat)
    requires Square(l, k) && Square(a, k)
  {
    forall i, q :: 0 <= i < k && 0 <= q < k && (q > j || q > i || (q == j && i >= rows)) ==> l[i][q] == a[i][q]
  }

  /** Row `i` column `j` written: earlier equations stand, and the new one holds
      when the written value completes its product. */
  lemma WriteKeepsFactor(l: Matrix, l': Matrix, a: Matrix, k: nat, i: nat, j: nat, value: real)
    requires Square(l, k) && Square(a, k) && j <= i < k
    requires l' == l[i := l[i][j := value]]
    requires Factored(l, a, k, j)
    ensures Square(l', k) && Factored(l', a, k, j)
    ensures forall r :: 0 <= r < k ==> Dot(l'[r], l'[j], j) == Dot(l[r], l[j], j)
  {
    forall r, p | 0 <= p < j && p <= r < k
      ensures Dot(l'[r], l'[p], p + 1) == a[r][p]
    {
      DotPrefix(l'[r], l'[p], l[r], l[p], p + 1);
    }
    forall r | 0 <= r < k ensures Dot(l'[r], l'[j], j) == Dot(l[r], l[j], j) {
      DotPrefix(l'[r], l'[j], l[r], l[j], j);
    }
  }

  /** Column `j` down to row `rows` is a factor column. */
  ghost predicate ColumnDone(l: Matrix, a: Matrix, k: nat, j: nat, rows: nat)
    requires Square(l, k) && Square(a, k) && j < k && rows <= k
  {
    && l[j][j] > 0.0
    && forall i :: j <= i < rows ==> Dot(l[i], l[j], j + 1) == a[i][j]
  }

  lemma WriteKeepsColumn(l: Matrix, l': Matrix, a: Matrix, k: nat, i: nat, j: nat, value: real, pivot: real)
    requires Square(l, k) && Square(a, k) && j < i < k
    requires l' == l[i := l[i][j := value]]
    requires ColumnDone(l, a, k, j, i) && l[j][j] == pivot
    requires value * pivot == a[i][j] - Dot(l[i], l[j], j)
    ensures Square(l', k) && ColumnDone(l', a, k, j, i + 1)
  {
    forall r | j <= r < i + 1 ensures Dot(l'[r], l'[j], j + 1) == a[r][j] {
      if r < i { DotPrefix(l'[r], l'[j], l[r], l[j], j + 1); } else { DotPrefix(l'[i], l'[j], l[i], l[j], j); }
    }
  }

  lemma WriteKeepsRest(l: Matrix, l': Matrix, a: Matrix, k: nat, i: nat, j: nat, value: real)
    requires Square(l, k) && Square(a, k) && j < i < k
    requires l' == l[i := l[i][j := value]] && RestAsCame(l, a, k, j, i)
    ensures Square(l', k) && RestAsCame(l', a, k, j, i + 1)
    ensures forall p :: 0 <= p <= j ==> l'[p][p] == l[p][p]
  {
  }

  /** The inner loop of both steps: an entry less the finished columns' products. */
  method Remainder(matrix: array2<real>, k: nat, i: nat, j: nat, ghost l: Matrix) returns (value: real)
    requires Shadow(matrix, l, k) && j <= i < k
    ensures value == l[i][j] - Dot(l[i], l[j], j)
  {
    value := matrix[i, j];
    for p := 0 to j
      invariant value == l[i][j] - Dot(l[i], l[j], p)
    {
      value := value - matrix[i, p] * matrix[j, p];
    }
  }

  /** Column `j` part-way: pivot set, rows below `i` eliminated. */
  ghost predicate MidColumn(l: Matrix, a: Matrix, before: Matrix, k: nat, j: nat, i: nat, pivot: real)
    requires Square(l, k) && Square(a, k) && Square(before, k) && j < k && i <= k
  {
    && Factored(l, a, k, j) && ColumnDone(l, a, k, j, i) && RestAsCame(l, a, k, j, i)
    && l[j][j] == pivot && forall p :: 0 <= p < j ==> l[p][p] == before[p][p]
  }

  lemma PivotStep(before: Matrix, a: Matrix, k: nat, j: nat, pivot: real, l: Matrix)
    requires Square(before, k) && Square(a, k) && j < k
    requires Factored(before, a, k, j) && RestAsCame(before, a, k, j, 0)
    requires pivot > 0.0 && pivot * pivot == a[j][j] - Dot(before[j], before[j], j)
    requires l == before[j := before[j][j := pivot]]
    ensures Square(l, k) && MidColumn(l, a, before, k, j, j + 1, pivot)
  {
    WriteKeepsFactor(before, l, a, k, j, j, pivot);
    assert Dot(l[j], l[j], j + 1) == a[j][j];
  }

  lemma DivideBack(n: real, d: real, q: real)
    requires d > 0.0 && q == n / d
    ensures q * d == n
  {
  }

  lemma RowStep(was: Matrix, l: Matrix, a: Matrix, before: Matrix, k: nat, j: nat, i: nat, pivot: real, q: real)
    requires Square(was, k) && Square(a, k) && Square(before, k) && j < i < k && pivot > 0.0
    requires MidColumn(was, a, before, k, j, i, pivot)
    requires q * pivot == was[i][j] - Dot(was[i], was[j], j)
    requires l == was[i := was[i][j := q]]
    ensures Square(l, k) && MidColumn(l, a, before, k, j, i + 1, pivot)
  {
    assert was[i][j] == a[i][j];
    WriteKeepsFactor(was, l, a, k, i, j, q);
    WriteKeepsColumn(was, l, a, k, i, j, q, pivot);
    WriteKeepsRest(was, l, a, k, i, j, q);
  }

  /** One column: the pivot on the diagonal, quotients below it. */
  method EliminateColumn(matrix: array2<real>, k: nat, j: nat, pivot: real, ghost a: Matrix, ghost before: Matrix)
    returns (ghost l: Matrix)
    requires Shadow(matrix, before, k) && Square(a, k) && j < k
    requires Factored(before, a, k, j) && RestAsCame(before, a, k, j, 0)
    requires pivot > 0.0 && pivot * pivot == a[j][j] - Dot(before[j], before[j], j)
    modifies matrix
    ensures Shadow(matrix, l, k) && MidColumn(l, a, before, k, j, k, pivot)
  {
    matrix[j, j] := pivot;
    l := before[j := before[j][j := pivot]];
    PivotStep(before, a, k, j, pivot, l);
    for i := j + 1 to k
      invariant Shadow(matrix, l, k)
      invariant MidColumn(l, a, before, k, j, i, pivot)
    {
      var off := Remainder(matrix, k, i, j, l);
      var q := off / pivot;
      matrix[i, j] := q;
      ghost var was := l;
      l := l[i := l[i][j := q]];
      DivideBack(off, pivot, q);
      RowStep(was, l, a, before, k, j, i, pivot, q);
    }
  }

  lemma MidColumnCloses(l: Matrix, a: Matrix, before: Matrix, k: nat, j: nat, pivot: real)
    requires Square(l, k) && Square(a, k) && Square(before, k) && j < k
    requires MidColumn(l, a, before, k, j, k, pivot)
    ensures Factored(l, a, k, j + 1) && RestAsCame(l, a, k, j + 1, 0)
  {
    ColumnClosesFactor(l, a, k, j);
  }

  lemma ColumnClosesFactor(l: Matrix, a: Matrix, k: nat, j: nat)
    requires Square(l, k) && Square(a, k) && j < k
    requires Factored(l, a, k, j) && ColumnDone(l, a, k, j, k)
    ensures Factored(l, a, k, j + 1)
  {
  }

  /** Factors `matrix` in place over its lower triangle. Fails exactly when no
      usable factor exists. */
  method Factorize(matrix: array2<real>, k: nat, sqrt: real -> real, ghost a: Matrix)
    returns (ok: bool, ghost l: Matrix)
    requires Shadow(matrix, a, k)
    requires forall d :: d > 0.0 ==> sqrt(d) > 0.0 && sqrt(d) * sqrt(d) == d
    modifies matrix
    ensures ok <==> UsablySpd(a, k)
    ensures Shadow(matrix, l, k)
    ensures ok ==> Factored(l, a, k, k) && ClearsFloor(l, a, k)
    ensures forall i, q :: 0 <= i < q < k ==> matrix[i, q] == a[i][q]
  {
    l := a;
    for j := 0 to k
      invariant Shadow(matrix, l, k) && Square(a, k)
      invariant Factored(l, a, k, j) && RestAsCame(l, a, k, j, 0)
      invariant forall p :: 0 <= p < j ==> l[p][p] * l[p][p] > a[p][p] * SPD_PIVOT_FLOOR
    {
      var floor := matrix[j, j] * SPD_PIVOT_FLOOR;
      var diagonal := Remainder(matrix, k, j, j, l);
      if !(diagonal > 0.0 && diagonal > floor) {
        NoFactorPast(l, a, k, j, diagonal);
        return false, l;
      }
      ghost var before := l;
      l := EliminateColumn(matrix, k, j, sqrt(diagonal), a, before);
      MidColumnCloses(l, a, before, k, j, sqrt(diagonal));
    }
    ok := true;
  }

  /** Solves `matrix · x = rhs`, writing the factor over `matrix` and the solution
      over `rhs`. */
  method SolveSpd(matrix: array2<real>, rhs: array<real>, k: nat, sqrt: real -> real, ghost a: Matrix)
    returns (ok: bool)
    requires Shadow(matrix, a, k) && rhs.Length == k
    requires forall d :: d > 0.0 ==> sqrt(d) > 0.0 && sqrt(d) * sqrt(d) == d
    modifies matrix, rhs
    ensures ok <==> UsablySpd(a, k)
    ensures ok ==> Solves(a, k, rhs[..], old(rhs[..]))
    ensures ok ==> exists l: Matrix :: Shadow(matrix, l, k) && Factored(l, a, k, k)
    ensures forall i, q :: 0 <= i < q < k ==> matrix[i, q] == a[i][q]
  {
    ghost var b := rhs[..];
    ghost var l;
    ok, l := Factorize(matrix, k, sqrt, a);
    if !ok { return; }
    Forward(matrix, rhs, k, l);
    ghost var y := rhs[..];
    Backward(matrix, rhs, k, l);
    SubstitutionsSolve(l, a, k, rhs[..], y, b);
  }

  /** Forward substitution, in place. */
  method Forward(matrix: array2<real>, rhs: array<real>, k: nat, ghost l: Matrix)
    requires Shadow(matrix, l, k) && rhs.Length == k
    requires forall p :: 0 <= p < k ==> l[p][p] > 0.0
    modifies rhs
    ensures ForwardDone(l, rhs[..], old(rhs[..]), k, k)
  {
    ghost var b := rhs[..];
    for i := 0 to k
      invariant ForwardDone(l, rhs[..], b, k, i)
      invariant rhs[i..] == b[i..]
    {
      ghost var before := rhs[..];
      var value := rhs[i];
      for p := 0 to i
        invariant value == b[i] - Dot(l[i], before, p) && rhs[..] == before
      {
        value := value - matrix[i, p] * rhs[p];
      }
      var q := value / matrix[i, i];
      rhs[i] := q;
      DivideBack(value, l[i][i], q);
      ForwardStep(l, before, rhs[..], b, k, i, value, q);
    }
  }

  lemma ForwardStep(l: Matrix, y: Vector, y': Vector, b: Vector, k: nat, i: nat, value: real, q: real)
    requires Square(l, k) && |y| == k && |b| == k && i < k
    requires ForwardDone(l, y, b, k, i) && value == b[i] - Dot(l[i], y, i) && q * l[i][i] == value
    requires y' == y[i := q]
    ensures ForwardDone(l, y', b, k, i + 1)
  {
    forall r | 0 <= r < i + 1 ensures Dot(l[r], y', r + 1) == b[r] {
      if r < i { DotPrefix(l[r], y', l[r], y, r + 1); } else { DotPrefix(l[i], y', l[i], y, i); }
    }
  }

  /** Back substitution, in place, last row first. */
  method Backward(matrix: array2<real>, rhs: array<real>, k: nat, ghost l: Matrix)
    requires Shadow(matrix, l, k) && rhs.Length == k
    requires forall p :: 0 <= p < k ==> l[p][p] > 0.0
    modifies rhs
    ensures BackwardDone(l, rhs[..], old(rhs[..]), k, 0)
  {
    ghost var y := rhs[..];
    for i := k downto 0
      invariant BackwardDone(l, rhs[..], y, k, i)
      invariant rhs[..i] == y[..i]
    {
      ghost var before := rhs[..];
      var value := rhs[i];
      for p := i + 1 to k
        invariant value == y[i] - ColumnDot(l, before, i, i + 1, p) && rhs[..] == before
      {
        value := value - matrix[p, i] * rhs[p];
      }
      var q := value / matrix[i, i];
      rhs[i] := q;
      DivideBack(value, l[i][i], q);
      BackwardStep(l, before, rhs[..], y, k, i, value, q);
    }
  }

  lemma BackwardStep(l: Matrix, x: Vector, x': Vector, y: Vector, k: nat, i: nat, value: real, q: real)
    requires Square(l, k) && |x| == k && |y| == k && i < k
    requires BackwardDone(l, x, y, k, i + 1) && value == y[i] - ColumnDot(l, x, i, i + 1, k) && q * l[i][i] == value
    requires x' == x[i := q]
    ensures BackwardDone(l, x', y, k, i)
  {
    forall r | i <= r < k ensures ColumnDot(l, x', r, r, k) == y[r] {
      if r > i {
        ColumnDotFrame(l, x', x, r, r, k);
      } else {
        BackwardRow(l, x, x', y, k, i, value, q);
      }
    }
  }

  lemma BackwardRow(l: Matrix, x: Vector, x': Vector, y: Vector, k: nat, i: nat, value: real, q: real)
    requires Square(l, k) && |x| == k && |y| == k && i < k
    requires value == y[i] - ColumnDot(l, x, i, i + 1, k) && q * l[i][i] == value
    requires x' == x[i := q]
    ensures ColumnDot(l, x', i, i, k) == y[i]
  {
    ColumnDotHead(l, x', i, i, k);
    ColumnDotFrame(l, x', x, i, i + 1, k);
  }

  /** The upper triangle never matters: matrices that agree on the lower triangle
      are usable together and have the same solution. */
  lemma {:induction false} LowerTriangleDecides(a: Matrix, b: Matrix, k: nat)
    requires Square(a, k) && Square(b, k)
    requires forall i, j :: 0 <= j <= i < k ==> a[i][j] == b[i][j]
    ensures UsablySpd(a, k) <==> UsablySpd(b, k)
    ensures forall x, r :: |x| == k && |r| == k ==> (Solves(a, k, x, r) <==> Solves(b, k, x, r))
  {
    if l: Matrix :| Square(l, k) && Factored(l, a, k, k) && ClearsFloor(l, a, k) {
      assert Factored(l, b, k, k) && ClearsFloor(l, b, k);
    }
    if l: Matrix :| Square(l, k) && Factored(l, b, k, k) && ClearsFloor(l, b, k) {
      assert Factored(l, a, k, k) && ClearsFloor(l, a, k);
    }
    forall x: Vector, i: nat | |x| == k && i < k
      ensures SymDot(a, k, x, i, k) == SymDot(b, k, x, i, k)
    {
      SymDotAgrees(a, b, k, x, i, k);
    }
  }

  lemma {:induction false} SymDotAgrees(a: Matrix, b: Matrix, k: nat, x: Vector, i: nat, n: nat)
    requires Square(a, k) && Square(b, k) && |x| == k && i < k && n <= k
    requires forall i, j :: 0 <= j <= i < k ==> a[i][j] == b[i][j]
    ensures SymDot(a, k, x, i, n) == SymDot(b, k, x, i, n)
  {
    if n == 0 {
    } else {
      SymDotAgrees(a, b, k, x, i, n - 1);
    }
  }

  /** The floor on two factors of unit variance: usable precisely while the share of
      one that the other leaves unexplained exceeds 10^-12. */
  lemma FloorOnTwo(c: real, sqrt: real -> real)
    requires forall d :: d >= 0.0 ==> sqrt(d) >= 0.0 && sqrt(d) * sqrt(d) == d
    ensures UsablySpd([[1.0, c], [c, 1.0]], 2) <==> (1.0 - c * c) * 1000000000000.0 > 1.0
  {
    var a: Matrix := [[1.0, c], [c, 1.0]];
    if UsablySpd(a, 2) {
      var l: Matrix :| Square(l, 2) && Factored(l, a, 2, 2) && ClearsFloor(l, a, 2);
      FactorOfTwo(l, c);
    }
    if (1.0 - c * c) * 1000000000000.0 > 1.0 {
      var root := sqrt(1.0 - c * c);
      var l: Matrix := [[1.0, 0.0], [c, root]];
      FactorsTwo(l, c, root);
    }
  }

  lemma FactorOfTwo(l: Matrix, c: real)
    requires Square(l, 2) && Factored(l, [[1.0, c], [c, 1.0]], 2, 2) && ClearsFloor(l, [[1.0, c], [c, 1.0]], 2)
    ensures (1.0 - c * c) * 1000000000000.0 > 1.0
  {
    var a: Matrix := [[1.0, c], [c, 1.0]];
    assert Dot(l[0], l[0], 1) == a[0][0] && Dot(l[1], l[0], 1) == a[1][0] && Dot(l[1], l[1], 2) == a[1][1];
    assert Dot(l[0], l[0], 0) == Dot(l[1], l[0], 0) == Dot(l[1], l[1], 0) == 0.0;
    assert Dot(l[0], l[0], 1) == l[0][0] * l[0][0] && Dot(l[1], l[0], 1) == l[1][0] * l[0][0];
    assert Dot(l[1], l[1], 1) == l[1][0] * l[1][0];
    assert l[0][0] > 0.0;
    RootsAgree(l[0][0], 1.0);
    assert l[1][0] == c && l[1][1] * l[1][1] == 1.0 - c * c;
    assert l[1][1] * l[1][1] > a[1][1] * SPD_PIVOT_FLOOR;
  }

  lemma FactorsTwo(l: Matrix, c: real, root: real)
    requires l == [[1.0, 0.0], [c, root]] && root >= 0.0 && root * root == 1.0 - c * c
    requires (1.0 - c * c) * 1000000000000.0 > 1.0
    ensures Square(l, 2) && Factored(l, [[1.0, c], [c, 1.0]], 2, 2) && ClearsFloor(l, [[1.0, c], [c, 1.0]], 2)
  {
    var a: Matrix := [[1.0, c], [c, 1.0]];
    assert Dot(l[0], l[0], 1) == a[0][0] && Dot(l[1], l[0], 1) == a[1][0];
    assert Dot(l[1], l[1], 1) == c * c && Dot(l[1], l[1], 2) == a[1][1];
    assert root > 0.0;
  }
}
