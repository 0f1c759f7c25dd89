/** The matrix helpers in place, over two-dimensional arrays; `a[j, k]` is component k of vector j. */
module MatrixOps {
  import opened Basics
  import opened Matrix

  ghost function Row(a: array2<real>, j: nat): (v: Vec)
    requires j < a.Length0
    reads a
    ensures |v| == a.Length1
  {
    seq(a.Length1, k requires 0 <= k < a.Length1 reads a => a[j, k])
  }

  ghost function Rows(a: array2<real>): (m: Mat)
    reads a
    ensures |m| == a.Length0
    ensures forall j :: 0 <= j < a.Length0 ==> |m[j]| == a.Length1
    ensures forall j, k :: 0 <= j < a.Length0 && 0 <= k < a.Length1 ==> m[j][k] == a[j, k]
  {
    seq(a.Length0, j requires 0 <= j < a.Length0 reads a => Row(a, j))
  }

  /** Two matrices of the same shape are equal when their entries are. */
  lemma SameShape(m: Mat, r: Mat, columns: nat, rows: nat)
    requires IsShape(m, columns, rows) && IsShape(r, columns, rows)
    requires forall j, k :: 0 <= j < columns && 0 <= k < rows ==> m[j][k] == r[j][k]
    ensures m == r
  {
    forall j | 0 <= j < columns ensures m[j] == r[j] {
      assert forall k :: 0 <= k < rows ==> m[j][k] == r[j][k];
    }
  }

  lemma SameRows(m: Mat, r: Mat, n: nat)
    requires IsMat(m, n) && IsMat(r, n)
    requires forall j, k :: 0 <= j < n && 0 <= k < n ==> m[j][k] == r[j][k]
    ensures m == r
  {
    SameShape(m, r, n, n);
  }

  method FindPivot(tmp: array2<real>, i: nat) returns (swap: nat)
    requires i < tmp.Length0 == tmp.Length1
    ensures swap == PivotRow(Rows(tmp), i, tmp.Length0)
    ensures i <= swap < tmp.Length0
  {
    swap := i;
    for j := i + 1 to tmp.Length0
      invariant swap == PivotRow(Rows(tmp), i, j) && i <= swap < tmp.Length0
    {
      if Abs(tmp[j, i]) > Abs(tmp[i, i]) {
        swap := j;
      }
    }
  }

  method SwapRows(tmp: array2<real>, inverse: array2<real>, i: nat, swap: nat)
    requires tmp != inverse && tmp.Length0 == tmp.Length1 == inverse.Length0 == inverse.Length1
    requires i < swap < tmp.Length0
    modifies tmp, inverse
    ensures Rows(tmp) == Swapped(old(Rows(tmp)), i, swap)
    ensures Rows(inverse) == Swapped(old(Rows(inverse)), i, swap)
  {
    var n := tmp.Length0;
    ghost var t0, v0 := Rows(tmp), Rows(inverse);
    for k := 0 to n
      invariant forall r, c :: 0 <= r < n && 0 <= c < n ==>
        tmp[r, c] == (if c < k then Swapped(t0, i, swap) else t0)[r][c]
      invariant forall r, c :: 0 <= r < n && 0 <= c < n ==>
        inverse[r, c] == (if c < k then Swapped(v0, i, swap) else v0)[r][c]
    {
      var t := tmp[i, k];
      tmp[i, k] := tmp[swap, k];
      tmp[swap, k] := t;

      t := inverse[i, k];
      inverse[i, k] := inverse[swap, k];
      inverse[swap, k] := t;
    }
    SameRows(Rows(tmp), Swapped(t0, i, swap), n);
    SameRows(Rows(inverse), Swapped(v0, i, swap), n);
  }

  method ScaleRow(tmp: array2<real>, inverse: array2<real>, i: nat, t: real)
    requires tmp != inverse && tmp.Length0 == tmp.Length1 == inverse.Length0 == inverse.Length1
    requires i < tmp.Length0
    modifies tmp, inverse
    ensures Rows(tmp) == old(Rows(tmp))[i := Scaled(old(Rows(tmp))[i], t)]
    ensures Rows(inverse) == old(Rows(inverse))[i := Scaled(old(Rows(inverse))[i], t)]
  {
    var n := tmp.Length0;
    ghost var t0, v0 := Rows(tmp), Rows(inverse);
    ghost var t1, v1 := t0[i := Scaled(t0[i], t)], v0[i := Scaled(v0[i], t)];
    for k := 0 to n
      invariant forall r, c :: 0 <= r < n && 0 <= c < n ==> tmp[r, c] == (if c < k then t1 else t0)[r][c]
      invariant forall r, c :: 0 <= r < n && 0 <= c < n ==> inverse[r, c] == (if c < k then v1 else v0)[r][c]
    {
      tmp[i, k] := tmp[i, k] * t;
      inverse[i, k] := inverse[i, k] * t;
    }
    SameRows(Rows(tmp), t1, n);
    SameRows(Rows(inverse), v1, n);
  }

  /** Takes t times row i from row j. */
  method SubtractRow(tmp: array2<real>, inverse: array2<real>, i: nat, j: nat, t: real)
    requires tmp != inverse && tmp.Length0 == tmp.Length1 == inverse.Length0 == inverse.Length1
    requires i < tmp.Length0 && j < tmp.Length0 && i != j
    modifies tmp, inverse
    ensures Rows(tmp) == old(Rows(tmp))[j := Reduced(old(Rows(tmp))[j], old(Rows(tmp))[i], t)]
    ensures Rows(inverse) == old(Rows(inverse))[j := Reduced(old(Rows(inverse))[j], old(Rows(inverse))[i], t)]
  {
    var n := tmp.Length0;
    ghost var t0, v0 := Rows(tmp), Rows(inverse);
    ghost var t1, v1 := t0[j := Reduced(t0[j], t0[i], t)], v0[j := Reduced(v0[j], v0[i], t)];
    for k := 0 to n
      invariant forall r, c :: 0 <= r < n && 0 <= c < n ==> tmp[r, c] == (if c < k then t1 else t0)[r][c]
      invariant forall r, c :: 0 <= r < n && 0 <= c < n ==> inverse[r, c] == (if c < k then v1 else v0)[r][c]
    {
      tmp[j, k] := tmp[j, k] - tmp[i, k] * t;
      inverse[j, k] := inverse[j, k] - inverse[i, k] * t;
    }
    SameRows(Rows(tmp), t1, n);
    SameRows(Rows(inverse), v1, n);
  }

  method ClearColumn(tmp: array2<real>, inverse: array2<real>, i: nat)
    requires tmp != inverse && tmp.Length0 == tmp.Length1 == inverse.Length0 == inverse.Length1
    requires i < tmp.Length0
    modifies tmp, inverse
    ensures Rows(tmp) == Cleared(old(Rows(tmp)), i, Column(old(Rows(tmp)), i))
    ensures Rows(inverse) == Cleared(old(Rows(inverse)), i, Column(old(Rows(tmp)), i))
  {
    var n := tmp.Length0;
    ghost var t0, v0 := Rows(tmp), Rows(inverse);
    ghost var f := Column(t0, i);
    for j := 0 to n
      invariant forall r :: 0 <= r < n ==> Rows(tmp)[r] == (if r < j then Cleared(t0, i, f) else t0)[r]
      invariant forall r :: 0 <= r < n ==> Rows(inverse)[r] == (if r < j then Cleared(v0, i, f) else v0)[r]
    {
      if j != i {
        var t := tmp[j, i];
        assert t == Rows(tmp)[j][i];
        SubtractRow(tmp, inverse, i, j, t);
      }
    }
  }

  /** One pass of the outer loop; `ok` is false where the original divides by a zero pivot. */
  method EliminateColumn(tmp: array2<real>, inverse: array2<real>, i: nat) returns (ok: bool)
    requires tmp != inverse && tmp.Length0 == tmp.Length1 == inverse.Length0 == inverse.Length1
    requires i < tmp.Length0
    modifies tmp, inverse
    ensures ok == Step(Pair(old(Rows(tmp)), old(Rows(inverse))), i).Some?
    ensures ok ==> Pair(Rows(tmp), Rows(inverse)) == Step(Pair(old(Rows(tmp)), old(Rows(inverse))), i).value
  {
    var swap := FindPivot(tmp, i);
    if swap != i {
      SwapRows(tmp, inverse, i, swap);
    }
    ghost var a := Rows(tmp);
    assert a == Swapped(old(Rows(tmp)), i, swap) && Rows(inverse) == Swapped(old(Rows(inverse)), i, swap);
    assert a[i][i] == tmp[i, i];
    if tmp[i, i] == 0.0 {
      return false;
    }
    var t := 1.0 / tmp[i, i];
    ScaleRow(tmp, inverse, i, t);
    ClearColumn(tmp, inverse, i);
    ok := true;
  }

  /** Gauss-Jordan elimination with the pivot search of the helpers. `found` is false where the
      original divides by a zero pivot and goes on with infinities. */
  method InverseOf(src: array2<real>) returns (found: bool, inverse: array2<real>)
    requires src.Length0 == src.Length1
    ensures fresh(inverse) && inverse.Length0 == inverse.Length1 == src.Length0
    ensures found == Inverse(Rows(src)).Some?
    ensures found ==> Rows(inverse) == Inverse(Rows(src)).value
  {
    var n := src.Length0;
    var tmp := new real[n, n]((j, k) requires 0 <= j < n && 0 <= k < n reads src => src[j, k]);
    inverse := new real[n, n]((j, k) => if k == j then 1.0 else 0.0);
    SameRows(Rows(tmp), Rows(src), n);
    SameRows(Rows(inverse), Identity(n), n);
    ghost var goal := Inverse(Rows(src));
    for i := 0 to n
      invariant goal == Eliminate(Pair(Rows(tmp), Rows(inverse)), i)
    {
      var ok := EliminateColumn(tmp, inverse, i);
      if !ok {
        return false, inverse;
      }
    }
    found := true;
  }

  /** One more scaled vector on top of the first c. */
  lemma CombinedNext(m: Mat, y: Vec, rows: nat, c: nat, before: Vec, after: Vec)
    requires IsShape(m, |y|, rows) && c < |y| && before == Combined(y, m, rows, c)
    requires |after| == rows && forall k :: 0 <= k < rows ==> after[k] == before[k] + y[c] * m[c][k]
    ensures after == Combined(y, m, rows, c + 1)
  {
    forall k | 0 <= k < rows ensures after[k] == Combined(y, m, rows, c + 1)[k] { }
  }

  /** result += s * lv[c] */
  method AddScaled(result: array<real>, lv: array2<real>, c: nat, s: real)
    requires lv.Length1 == result.Length && c < lv.Length0
    modifies result
    ensures forall k :: 0 <= k < result.Length ==> result[k] == old(result[k]) + s * lv[c, k]
  {
    for k := 0 to result.Length
      invariant forall j :: 0 <= j < result.Length ==> result[j] == old(result[j]) + if j < k then s * lv[c, j] else 0.0
    {
      result[k] := result[k] + s * lv[c, k];
    }
  }

  /** matrix * vector, with vector r of `rhs`: the result accumulates one scaled vector of `lv` at a time. */
  method TimesVector(lv: array2<real>, rhs: array2<real>, r: nat) returns (result: array<real>)
    requires lv.Length0 == rhs.Length1 && r < rhs.Length0
    ensures fresh(result) && result[..] == Multiply(Rows(lv), Rows(rhs), lv.Length1)[r]
  {
    var depth, rows := lv.Length0, lv.Length1;
    ghost var m, y := Rows(lv), Rows(rhs)[r];
    result := new real[rows](_ => 0.0);
    for c := 0 to depth
      invariant result[..] == Combined(y, m, rows, c)
    {
      ghost var before := result[..];
      AddScaled(result, lv, c, rhs[r, c]);
      CombinedNext(m, y, rows, c, before, result[..]);
    }
  }

  /** The left matrix has as many columns as the right one has rows. */
  method MultiplyInto(lhs: array2<real>, rhs: array2<real>) returns (res: array2<real>)
    requires lhs.Length0 == rhs.Length1
    ensures fresh(res) && res.Length0 == rhs.Length0 && res.Length1 == lhs.Length1
    ensures Rows(res) == Multiply(Rows(lhs), Rows(rhs), lhs.Length1)
  {
    var columns, rows := rhs.Length0, lhs.Length1;
    ghost var goal := Multiply(Rows(lhs), Rows(rhs), rows);
    res := new real[columns, rows];
    for r := 0 to columns
      invariant forall i, k :: 0 <= i < r && 0 <= k < rows ==> res[i, k] == goal[i][k]
    {
      var v := TimesVector(lhs, rhs, r);
      assert v.Length == rows by { assert |v[..]| == rows; }
      for k := 0 to rows
        invariant forall i, j :: 0 <= i < r && 0 <= j < rows ==> res[i, j] == goal[i][j]
        invariant forall j :: 0 <= j < k ==> res[r, j] == goal[r][j]
        invariant v[..] == goal[r]
      {
        assert v[k] == v[..][k];
        res[r, k] := v[k];
      }
    }
    SameShape(Rows(res), goal, columns, rows);
  }

  method TransposeOf(m: array2<real>) returns (result: array2<real>)
    requires m.Length0 == m.Length1
    ensures fresh(result) && result.Length0 == result.Length1 == m.Length0
    ensures Rows(result) == Transpose(Rows(m), m.Length0)
  {
    var n := m.Length0;
    result := new real[n, n];
    for r := 0 to n
      invariant forall c, i :: 0 <= c < n && 0 <= i < r ==> result[c, i] == m[i, c]
    {
      for c := 0 to n
        invariant forall k, i :: 0 <= k < n && 0 <= i < r ==> result[k, i] == m[i, k]
        invariant forall k :: 0 <= k < c ==> result[k, r] == m[r, k]
      {
        result[c, r] := m[r, c];
      }
    }
    SameRows(Rows(result), Transpose(Rows(m), n), n);
  }
}
