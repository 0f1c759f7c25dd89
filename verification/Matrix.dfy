/** Matrices over the reals as the matrix helpers see them: `m[j]` is the j-th column vector of the matrix.
    The spec functions below are on values; module MatrixOps refines them in place. */
module Matrix {
  import opened Basics

  type Vec = seq<real>
  type Mat = seq<Vec>

  ghost predicate IsShape(m: Mat, columns: nat, rows: nat) {
    |m| == columns && forall j :: 0 <= j < columns ==> |m[j]| == rows
  }

  ghost predicate IsMat(m: Mat, n: nat) {
    IsShape(m, n, n)
  }

  /** The sum of the first n products. */
  function Dot(u: Vec, w: Vec, n: nat): real
    requires n <= |u| && n <= |w|
  {
    if n == 0 then 0.0 else Dot(u, w, n - 1) + u[n - 1] * w[n - 1]
  }

  function Scaled(u: Vec, t: real): Vec {
    seq(|u|, k requires 0 <= k < |u| => u[k] * t)
  }

  /** u - v * t, one row operation of the elimination. */
  function Reduced(u: Vec, v: Vec, t: real): Vec
    requires |u| == |v|
  {
    seq(|u|, k requires 0 <= k < |u| => u[k] - v[k] * t)
  }

  function Unit(n: nat, i: nat): Vec {
    seq(n, k => if k == i then 1.0 else 0.0)
  }

  function Identity(n: nat): Mat {
    seq(n, j requires 0 <= j < n => Unit(n, j))
  }

  function Column(m: Mat, k: nat): Vec
    requires forall j :: 0 <= j < |m| ==> k < |m[j]|
  {
    seq(|m|, j requires 0 <= j < |m| => m[j][k])
  }

  /** Component k of vector r of the product is the combination of the left vectors by `rhs[r]`. */
  ghost function Multiply(lhs: Mat, rhs: Mat, rows: nat): (m: Mat)
    requires IsShape(lhs, |lhs|, rows) && IsShape(rhs, |rhs|, |lhs|)
    ensures IsShape(m, |rhs|, rows)
  {
    seq(|rhs|, r requires 0 <= r < |rhs| => Combined(rhs[r], lhs, rows, |lhs|))
  }

  /** The sum of the first a vectors of m, each scaled by its component of y. */
  ghost function Combined(y: Vec, m: Mat, rows: nat, a: nat): (v: Vec)
    requires IsShape(m, |y|, rows) && a <= |y|
    ensures |v| == rows
  {
    seq(rows, k requires 0 <= k < rows => Dot(y, Column(m, k), a))
  }

  function Transpose(m: Mat, n: nat): (t: Mat)
    requires IsMat(m, n)
  {
    seq(n, c requires 0 <= c < n => seq(n, r requires 0 <= r < n => m[r][c]))
  }

  function Abs(x: real): real {
    if x < 0.0 then -x else x
  }

  // ---- Elimination -----------------------------------------------------------------------------

  /** The row chosen once rows i+1..j-1 have been looked at: every candidate is compared with row i
      itself, so the last row that beats row i wins, not the largest. */
  function PivotRow(t: Mat, i: nat, j: nat): (p: nat)
    requires i < j <= |t| && IsMat(t, |t|)
    ensures i <= p < j
    decreases j
  {
    if j == i + 1 then i
    else if Abs(t[j - 1][i]) > Abs(t[i][i]) then j - 1
    else PivotRow(t, i, j - 1)
  }

  function Swapped(m: Mat, a: nat, b: nat): Mat
    requires a < |m| && b < |m|
  {
    m[a := m[b]][b := m[a]]
  }

  /** `m` with `factors[j]` times row i taken from every other row j. */
  function Cleared(m: Mat, i: nat, factors: Vec): (r: Mat)
    requires i < |m| == |factors|
    requires forall j :: 0 <= j < |m| ==> |m[j]| == |m[i]|
  {
    seq(|m|, j requires 0 <= j < |m| => if j == i then m[i] else Reduced(m[j], m[i], factors[j]))
  }

  datatype Pair = Pair(tmp: Mat, inv: Mat)

  ghost predicate IsPair(s: Pair, n: nat) {
    IsMat(s.tmp, n) && IsMat(s.inv, n)
  }

  /** One pass of the outer loop, for column i; None where it would divide by zero. */
  function Step(s: Pair, i: nat): (r: Option<Pair>)
    requires i < |s.tmp| && IsPair(s, |s.tmp|)
    ensures r.Some? ==> IsPair(r.value, |s.tmp|)
  {
    var p := PivotRow(s.tmp, i, |s.tmp|);
    var a, b := Swapped(s.tmp, i, p), Swapped(s.inv, i, p);
    if a[i][i] == 0.0 then None
    else
      var t := 1.0 / a[i][i];
      var c, d := a[i := Scaled(a[i], t)], b[i := Scaled(b[i], t)];
      Some(Pair(Cleared(c, i, Column(c, i)), Cleared(d, i, Column(c, i))))
  }

  function Eliminate(s: Pair, i: nat): (r: Option<Mat>)
    requires i <= |s.tmp| && IsPair(s, |s.tmp|)
    ensures r.Some? ==> IsMat(r.value, |s.tmp|)
    decreases |s.tmp| - i
  {
    if i == |s.tmp| then Some(s.inv)
    else
      var r := Step(s, i);
      if r.None? then None else Eliminate(r.value, i + 1)
  }

  function Inverse(m: Mat): (r: Option<Mat>)
    requires IsMat(m, |m|)
    ensures r.Some? ==> IsMat(r.value, |m|)
  {
    Eliminate(Pair(m, Identity(|m|)), 0)
  }

  // ---- Dot products ----------------------------------------------------------------------------

  lemma {:induction false} DotScaled(u: Vec, t: real, w: Vec, n: nat)
    requires n <= |u| && n <= |w|
    ensures Dot(Scaled(u, t), w, n) == t * Dot(u, w, n)
  {
    if n > 0 {
      DotScaled(u, t, w, n - 1);
      assert u[n - 1] * t * w[n - 1] == t * (u[n - 1] * w[n - 1]);
    }
  }

  lemma {:induction false} DotReduced(u: Vec, v: Vec, t: real, w: Vec, n: nat)
    requires n <= |u| == |v| && n <= |w|
    ensures Dot(Reduced(u, v, t), w, n) == Dot(u, w, n) - t * Dot(v, w, n)
  {
    if n > 0 {
      DotReduced(u, v, t, w, n - 1);
      assert (u[n - 1] - v[n - 1] * t) * w[n - 1] == u[n - 1] * w[n - 1] - t * (v[n - 1] * w[n - 1]);
    }
  }

  lemma {:induction false} DotZero(u: Vec, w: Vec, n: nat)
    requires n <= |u| && n <= |w| && forall k :: 0 <= k < n ==> u[k] == 0.0
    ensures Dot(u, w, n) == 0.0
  {
    if n > 0 { DotZero(u, w, n - 1); }
  }

  lemma {:induction false} DotCommutes(u: Vec, w: Vec, n: nat)
    requires n <= |u| && n <= |w|
    ensures Dot(u, w, n) == Dot(w, u, n)
  {
    if n > 0 { DotCommutes(u, w, n - 1); }
  }

  /** A vector that is zero but at i picks out component i. */
  lemma {:induction false} DotSingle(u: Vec, i: nat, w: Vec, n: nat)
    requires i < n <= |u| && n <= |w| && forall k :: 0 <= k < n && k != i ==> u[k] == 0.0
    ensures Dot(u, w, n) == u[i] * w[i]
  {
    if i == n - 1 { DotZero(u, w, n - 1); } else { DotSingle(u, i, w, n - 1); }
  }

  // ---- Solutions -------------------------------------------------------------------------------

  /** The left-hand side of equation j of `tmp * w + inv * u = 0`. */
  ghost function Residual(s: Pair, j: nat, w: Vec, u: Vec): real
    requires j < |s.tmp| && IsPair(s, |s.tmp|) && |w| == |u| == |s.tmp|
  {
    Dot(s.tmp[j], w, |w|) + Dot(s.inv[j], u, |u|)
  }

  ghost predicate Solves(s: Pair, n: nat, w: Vec, u: Vec)
    requires IsPair(s, n) && |w| == |u| == n
  {
    forall j :: 0 <= j < n ==> Residual(s, j, w, u) == 0.0
  }

  /** Columns 0..i-1 are already unit vectors. */
  ghost predicate UnitColumns(t: Mat, n: nat, i: nat)
    requires IsMat(t, n) && i <= n
  {
    forall j, k :: 0 <= j < n && 0 <= k < i ==> t[j][k] == if j == k then 1.0 else 0.0
  }

  lemma {:induction false} PivotNonzero(t: Mat, i: nat, j: nat, k: nat)
    requires i < j <= |t| && IsMat(t, |t|) && i <= k < j && t[k][i] != 0.0
    ensures t[PivotRow(t, i, j)][i] != 0.0
    decreases j
  {
    if j > i + 1 && !(Abs(t[j - 1][i]) > Abs(t[i][i])) {
      if k == j - 1 {
        assert t[i][i] != 0.0;
        PivotNonzero(t, i, j - 1, i);
      } else {
        PivotNonzero(t, i, j - 1, k);
      }
    }
  }

  // ---- One pass keeps the solutions ------------------------------------------------------------

  lemma SwapKeepsSolutions(s: Pair, n: nat, a: nat, b: nat, w: Vec, u: Vec)
    requires IsPair(s, n) && |w| == |u| == n && a < n && b < n
    ensures Solves(Pair(Swapped(s.tmp, a, b), Swapped(s.inv, a, b)), n, w, u) <==> Solves(s, n, w, u)
  {
    var r := Pair(Swapped(s.tmp, a, b), Swapped(s.inv, a, b));
    assert forall j :: 0 <= j < n && j != a && j != b ==> Residual(r, j, w, u) == Residual(s, j, w, u);
    assert Residual(r, b, w, u) == Residual(s, a, w, u) && Residual(r, a, w, u) == Residual(s, b, w, u);
  }

  lemma ScaleKeepsSolutions(s: Pair, n: nat, i: nat, t: real, w: Vec, u: Vec)
    requires IsPair(s, n) && |w| == |u| == n && i < n && t != 0.0
    ensures Solves(Pair(s.tmp[i := Scaled(s.tmp[i], t)], s.inv[i := Scaled(s.inv[i], t)]), n, w, u)
            <==> Solves(s, n, w, u)
  {
    var r := Pair(s.tmp[i := Scaled(s.tmp[i], t)], s.inv[i := Scaled(s.inv[i], t)]);
    DotScaled(s.tmp[i], t, w, n);
    DotScaled(s.inv[i], t, u, n);
    assert Residual(r, i, w, u) == t * Residual(s, i, w, u);
    assert forall j :: 0 <= j < n && j != i ==> Residual(r, j, w, u) == Residual(s, j, w, u);
  }

  lemma ClearKeepsSolutions(s: Pair, n: nat, i: nat, f: Vec, w: Vec, u: Vec)
    requires IsPair(s, n) && |w| == |u| == |f| == n && i < n
    ensures Solves(Pair(Cleared(s.tmp, i, f), Cleared(s.inv, i, f)), n, w, u) <==> Solves(s, n, w, u)
  {
    var r := Pair(Cleared(s.tmp, i, f), Cleared(s.inv, i, f));
    assert Residual(r, i, w, u) == Residual(s, i, w, u);
    forall j | 0 <= j < n && j != i
      ensures Residual(r, j, w, u) == Residual(s, j, w, u) - f[j] * Residual(s, i, w, u)
    {
      DotReduced(s.tmp[j], s.tmp[i], f[j], w, n);
      DotReduced(s.inv[j], s.inv[i], f[j], u, n);
    }
    if Residual(s, i, w, u) == 0.0 {
      assert forall j :: 0 <= j < n ==> Residual(r, j, w, u) == Residual(s, j, w, u);
    }
  }

  lemma StepKeepsSolutions(s: Pair, n: nat, i: nat, w: Vec, u: Vec)
    requires IsPair(s, n) && |w| == |u| == n && i < n && Step(s, i).Some?
    ensures Solves(Step(s, i).value, n, w, u) <==> Solves(s, n, w, u)
  {
    var p := PivotRow(s.tmp, i, n);
    var a := Pair(Swapped(s.tmp, i, p), Swapped(s.inv, i, p));
    var t := 1.0 / a.tmp[i][i];
    var c := Pair(a.tmp[i := Scaled(a.tmp[i], t)], a.inv[i := Scaled(a.inv[i], t)]);
    SwapKeepsSolutions(s, n, i, p, w, u);
    ScaleKeepsSolutions(a, n, i, t, w, u);
    ClearKeepsSolutions(c, n, i, Column(c.tmp, i), w, u);
  }

  lemma StepUnitColumns(s: Pair, n: nat, i: nat)
    requires IsPair(s, n) && i < n && Step(s, i).Some? && UnitColumns(s.tmp, n, i)
    ensures UnitColumns(Step(s, i).value.tmp, n, i + 1)
  {
    var p := PivotRow(s.tmp, i, n);
    var a := Swapped(s.tmp, i, p);
    var t := 1.0 / a[i][i];
    var c := a[i := Scaled(a[i], t)];
    var f := Column(c, i);
    assert UnitColumns(a, n, i);
    assert forall k :: 0 <= k < i ==> c[i][k] == 0.0;
    assert c[i][i] == 1.0;
    forall j, k | 0 <= j < n && 0 <= k < i + 1
      ensures Cleared(c, i, f)[j][k] == if j == k then 1.0 else 0.0
    {
      if j != i {
        assert Cleared(c, i, f)[j][k] == c[j][k] - c[i][k] * f[j];
      }
    }
  }

  // ---- No pivot means a kernel -----------------------------------------------------------------

  /** The vector that column i yields when its remaining rows are all zero. */
  ghost function KernelVector(t: Mat, n: nat, i: nat): (w: Vec)
    requires IsMat(t, n) && i < n
    ensures |w| == n
  {
    seq(n, k requires 0 <= k < n => if k < i then t[k][i] else if k == i then -1.0 else 0.0)
  }

  lemma {:induction false} KernelDot(t: Mat, n: nat, i: nat, j: nat, m: nat)
    requires IsMat(t, n) && i < n && j < n && m <= n && UnitColumns(t, n, i)
    ensures Dot(t[j], KernelVector(t, n, i), m)
            == (if j < m && j < i then t[j][i] else 0.0) - (if i < m then t[j][i] else 0.0)
  {
    if m > 0 { KernelDot(t, n, i, j, m - 1); }
  }

  lemma NoPivotMeansKernel(s: Pair, n: nat, i: nat) returns (w: Vec)
    requires IsPair(s, n) && i < n && Step(s, i).None? && UnitColumns(s.tmp, n, i)
    ensures |w| == n && w[i] != 0.0 && Solves(s, n, w, seq(n, _ => 0.0))
  {
    forall k | i <= k < n ensures s.tmp[k][i] == 0.0 {
      if s.tmp[k][i] != 0.0 { PivotNonzero(s.tmp, i, n, k); }
    }
    w := KernelVector(s.tmp, n, i);
    var zero := seq(n, _ => 0.0);
    forall j | 0 <= j < n ensures Residual(s, j, w, zero) == 0.0 {
      KernelDot(s.tmp, n, i, j, n);
      DotCommutes(s.inv[j], zero, n);
      DotZero(zero, s.inv[j], n);
    }
  }

  // ---- Whole runs ------------------------------------------------------------------------------

  lemma AllUnitColumns(s: Pair, n: nat)
    requires IsPair(s, n) && UnitColumns(s.tmp, n, n)
    ensures s == Pair(Identity(n), s.inv)
  {
    forall j | 0 <= j < n ensures s.tmp[j] == Identity(n)[j] {
      forall k | 0 <= k < n ensures s.tmp[j][k] == Unit(n, j)[k] {}
    }
  }

  lemma {:induction false} EliminationKeepsSolutions(s: Pair, n: nat, i: nat, w: Vec, u: Vec)
    requires IsPair(s, n) && |w| == |u| == n && i <= n && UnitColumns(s.tmp, n, i)
    requires Eliminate(s, i).Some?
    ensures Solves(Pair(Identity(n), Eliminate(s, i).value), n, w, u) <==> Solves(s, n, w, u)
    decreases n - i
  {
    if i == n {
      AllUnitColumns(s, n);
    } else {
      StepKeepsSolutions(s, n, i, w, u);
      StepUnitColumns(s, n, i);
      EliminationKeepsSolutions(Step(s, i).value, n, i + 1, w, u);
    }
  }

  lemma {:induction false} FailedEliminationHasKernel(s: Pair, n: nat, i: nat) returns (w: Vec, k: nat)
    requires IsPair(s, n) && i <= n && UnitColumns(s.tmp, n, i) && Eliminate(s, i).None?
    ensures |w| == n && k < n && w[k] != 0.0 && Solves(s, n, w, seq(n, _ => 0.0))
    decreases n - i
  {
    if Step(s, i).None? {
      k := i;
      w := NoPivotMeansKernel(s, n, i);
    } else {
      StepUnitColumns(s, n, i);
      w, k := FailedEliminationHasKernel(Step(s, i).value, n, i + 1);
      StepKeepsSolutions(s, n, i, w, seq(n, _ => 0.0));
    }
  }

  lemma DotUnit(w: Vec, n: nat, j: nat)
    requires j < n == |w|
    ensures Dot(Unit(n, j), w, n) == w[j] && Dot(w, Unit(n, j), n) == w[j]
  {
    DotSingle(Unit(n, j), j, w, n);
    DotCommutes(w, Unit(n, j), n);
  }

  /** Whatever the elimination returns is a two-sided inverse. */
  lemma InverseIsTwoSided(m: Mat, n: nat)
    requires IsMat(m, n) && Inverse(m).Some?
    ensures Multiply(m, Inverse(m).value, n) == Identity(n)
    ensures Multiply(Inverse(m).value, m, n) == Identity(n)
  {
    var x := Inverse(m).value;
    var s, e := Pair(m, Identity(n)), Pair(Identity(n), x);
    forall r, k | 0 <= r < n && 0 <= k < n
      ensures Multiply(m, x, n)[r][k] == Identity(n)[r][k] && Multiply(x, m, n)[r][k] == Identity(n)[r][k]
    {
      LeftInverseEntry(m, n, r, k);
      RightInverseEntry(m, n, r, k);
    }
    assert forall r :: 0 <= r < n ==> Multiply(m, x, n)[r] == Identity(n)[r];
    assert forall r :: 0 <= r < n ==> Multiply(x, m, n)[r] == Identity(n)[r];
  }

  lemma LeftInverseEntry(m: Mat, n: nat, r: nat, k: nat)
    requires IsMat(m, n) && Inverse(m).Some? && r < n && k < n
    ensures Dot(Inverse(m).value[r], Column(m, k), n) == if r == k then 1.0 else 0.0
  {
    var x := Inverse(m).value;
    var s, e := Pair(m, Identity(n)), Pair(Identity(n), x);
    var w, u := Unit(n, k), Scaled(Column(m, k), -1.0);
    forall j | 0 <= j < n ensures Residual(s, j, w, u) == 0.0 {
      DotUnit(m[j], n, k);
      DotUnit(u, n, j);
    }
    EliminationKeepsSolutions(s, n, 0, w, u);
    assert Residual(e, r, w, u) == 0.0;
    DotUnit(w, n, r);
    DotCommutes(x[r], u, n);
    DotScaled(Column(m, k), -1.0, x[r], n);
    DotCommutes(Column(m, k), x[r], n);
  }

  lemma RightInverseEntry(m: Mat, n: nat, r: nat, k: nat)
    requires IsMat(m, n) && Inverse(m).Some? && r < n && k < n
    ensures Dot(m[r], Column(Inverse(m).value, k), n) == if r == k then 1.0 else 0.0
  {
    var x := Inverse(m).value;
    var s, e := Pair(m, Identity(n)), Pair(Identity(n), x);
    var w, u := Scaled(Column(x, k), -1.0), Unit(n, k);
    forall j | 0 <= j < n ensures Residual(e, j, w, u) == 0.0 {
      DotUnit(x[j], n, k);
      DotUnit(w, n, j);
    }
    EliminationKeepsSolutions(s, n, 0, w, u);
    assert Residual(s, r, w, u) == 0.0;
    DotUnit(u, n, r);
    DotCommutes(m[r], w, n);
    DotScaled(Column(x, k), -1.0, m[r], n);
    DotCommutes(Column(x, k), m[r], n);
  }

  // ---- Products ----------------------------------------------------------------------------------

  /** The product of a vector and a matrix: one dot product per vector of m. */
  function Applied(m: Mat, w: Vec): (v: Vec)
    requires forall c :: 0 <= c < |m| ==> |m[c]| == |w|
    ensures |v| == |m|
  {
    seq(|m|, c requires 0 <= c < |m| => Dot(m[c], w, |w|))
  }

  lemma {:induction false} CombinedStep(y: Vec, m: Mat, rows: nat, a: nat, w: Vec, b: nat)
    requires IsShape(m, |y|, rows) && |w| == rows && 0 < a <= |y| && b <= rows
    ensures Dot(Combined(y, m, rows, a), w, b)
            == Dot(Combined(y, m, rows, a - 1), w, b) + y[a - 1] * Dot(m[a - 1], w, b)
  {
    if b > 0 {
      CombinedStep(y, m, rows, a, w, b - 1);
      var p, q := Dot(y, Column(m, b - 1), a - 1), m[a - 1][b - 1];
      assert Combined(y, m, rows, a)[b - 1] == p + y[a - 1] * q;
      assert (p + y[a - 1] * q) * w[b - 1] == p * w[b - 1] + y[a - 1] * (q * w[b - 1]);
    }
  }

  /** Exchange of the two sums in y * m * w. */
  lemma {:induction false} SumExchange(y: Vec, m: Mat, rows: nat, a: nat, w: Vec)
    requires IsShape(m, |y|, rows) && |w| == rows && a <= |y|
    ensures Dot(y, Applied(m, w), a) == Dot(Combined(y, m, rows, a), w, rows)
  {
    if a == 0 {
      DotZero(Combined(y, m, rows, 0), w, rows);
    } else {
      SumExchange(y, m, rows, a - 1, w);
      CombinedStep(y, m, rows, a, w, rows);
    }
  }

  lemma RightInvertibleSucceeds(m: Mat, n: nat, y: Mat)
    requires IsMat(m, n) && IsMat(y, n) && Multiply(m, y, n) == Identity(n)
    ensures Inverse(m).Some?
  {
    if Inverse(m).None? {
      var s := Pair(m, Identity(n));
      var w, k := FailedEliminationHasKernel(s, n, 0);
      var zero := seq(n, _ => 0.0);
      forall c | 0 <= c < n ensures Applied(m, w)[c] == 0.0 {
        assert Residual(s, c, w, zero) == 0.0;
        DotUnit(zero, n, c);
      }
      DotCommutes(y[k], Applied(m, w), n);
      DotZero(Applied(m, w), y[k], n);
      SumExchange(y[k], m, n, n, w);
      assert Combined(y[k], m, n, n) == Multiply(m, y, n)[k] == Unit(n, k);
      DotUnit(w, n, k);
      assert false;
    }
  }

  /** For matrices of any shapes that fit. */
  lemma MultiplyAssociative(a: Mat, b: Mat, c: Mat, rows: nat)
    requires IsShape(a, |a|, rows) && IsShape(b, |b|, |a|) && IsShape(c, |c|, |b|)
    ensures Multiply(a, Multiply(b, c, |a|), rows) == Multiply(Multiply(a, b, rows), c, rows)
  {
    var bc, ab := Multiply(b, c, |a|), Multiply(a, b, rows);
    var l, r := Multiply(a, bc, rows), Multiply(ab, c, rows);
    forall i, k | 0 <= i < |c| && 0 <= k < rows ensures l[i][k] == r[i][k] {
      var w := Column(a, k);
      SumExchange(c[i], b, |a|, |b|, w);
      assert Combined(c[i], b, |a|, |b|) == bc[i];
      forall j | 0 <= j < |b| ensures Applied(b, w)[j] == Column(ab, k)[j] { assert ab[j][k] == Dot(b[j], w, |a|); }
      assert Applied(b, w) == Column(ab, k);
    }
    assert forall i :: 0 <= i < |c| ==> l[i] == r[i];
  }

  lemma MultiplyIdentity(m: Mat, rows: nat)
    requires IsShape(m, |m|, rows)
    ensures Multiply(m, Identity(|m|), rows) == m == Multiply(Identity(rows), m, rows)
  {
    var l, r := Multiply(m, Identity(|m|), rows), Multiply(Identity(rows), m, rows);
    forall i, k | 0 <= i < |m| && 0 <= k < rows ensures l[i][k] == m[i][k] == r[i][k] {
      DotUnit(Column(m, k), |m|, i);
      assert Column(Identity(rows), k) == Unit(rows, k);
      DotUnit(m[i], rows, k);
    }
    assert forall i :: 0 <= i < |m| ==> l[i] == m[i] == r[i];
  }

  /** A left and a right inverse of the same matrix are the same matrix. */
  lemma InversesAgree(m: Mat, x: Mat, y: Mat, n: nat)
    requires IsMat(m, n) && IsMat(x, n) && IsMat(y, n)
    requires Multiply(m, x, n) == Identity(n) && Multiply(y, m, n) == Identity(n)
    ensures x == y
  {
    MultiplyAssociative(y, m, x, n);
    MultiplyIdentity(x, n);
    MultiplyIdentity(y, n);
  }

  ghost predicate IsRightInverse(m: Mat, y: Mat, n: nat)
    requires IsMat(m, n)
  {
    IsMat(y, n) && Multiply(m, y, n) == Identity(n)
  }

  ghost predicate IsLeftInverse(m: Mat, y: Mat, n: nat)
    requires IsMat(m, n)
  {
    IsMat(y, n) && Multiply(y, m, n) == Identity(n)
  }

  lemma RightInverseIsFound(m: Mat, n: nat, y: Mat)
    requires IsMat(m, n) && IsRightInverse(m, y, n)
    ensures Inverse(m) == Some(y)
  {
    RightInvertibleSucceeds(m, n, y);
    InverseIsTwoSided(m, n);
    InversesAgree(m, y, Inverse(m).value, n);
  }

  lemma LeftInverseIsFound(m: Mat, n: nat, y: Mat)
    requires IsMat(m, n) && IsLeftInverse(m, y, n)
    ensures Inverse(m) == Some(y)
  {
    RightInverseIsFound(y, n, m);
    InverseIsTwoSided(y, n);
    RightInverseIsFound(m, n, y);
  }

  /** The elimination meets a zero pivot exactly when the matrix has no inverse on either side;
      otherwise it returns the only inverse there is. */
  lemma InverseFoundIffInvertible(m: Mat, n: nat)
    requires IsMat(m, n)
    ensures Inverse(m).Some? <==> exists y :: IsRightInverse(m, y, n)
    ensures Inverse(m).Some? <==> exists y :: IsLeftInverse(m, y, n)
    ensures forall y :: IsRightInverse(m, y, n) || IsLeftInverse(m, y, n) ==> Inverse(m) == Some(y)
  {
    if Inverse(m).Some? {
      InverseIsTwoSided(m, n);
      assert IsRightInverse(m, Inverse(m).value, n) && IsLeftInverse(m, Inverse(m).value, n);
    }
    forall y | IsRightInverse(m, y, n) ensures Inverse(m) == Some(y) { RightInverseIsFound(m, n, y); }
    forall y | IsLeftInverse(m, y, n) ensures Inverse(m) == Some(y) { LeftInverseIsFound(m, n, y); }
  }

  lemma TransposeOfProduct(a: Mat, b: Mat, n: nat)
    requires IsMat(a, n) && IsMat(b, n)
    ensures Transpose(Multiply(a, b, n), n) == Multiply(Transpose(b, n), Transpose(a, n), n)
    ensures Transpose(Transpose(a, n), n) == a
  {
    var l, r := Transpose(Multiply(a, b, n), n), Multiply(Transpose(b, n), Transpose(a, n), n);
    forall i, k | 0 <= i < n && 0 <= k < n ensures l[i][k] == r[i][k] {
      assert Column(Transpose(b, n), k) == b[k];
      assert Column(a, i) == Transpose(a, n)[i];
      DotCommutes(b[k], Column(a, i), n);
    }
    assert forall i :: 0 <= i < n ==> l[i] == r[i];
    assert forall i :: 0 <= i < n ==> Transpose(Transpose(a, n), n)[i] == a[i];
  }
}
