/** The in-place vector and matrix accumulators of the utils package, as loops. */
module VectorOps {
  import opened Zq
  import opened Rq
  import opened SignAlgebra

  method VectorAdd(r: Ring, v1: Vec, v2: Vec) returns (result: Vec)
    requires |v1| <= |v2|
    ensures result == VAdd(r, v1, v2)
  {
    result := [];
    for i := 0 to |v1|
      invariant result == VAdd(r, v1, v2)[..i]
    {
      result := result + [Add(r, v1[i], v2[i])];
    }
  }

  method VectorSub(r: Ring, v1: Vec, v2: Vec) returns (result: Vec)
    requires |v1| <= |v2|
    ensures result == VSub(r, v1, v2)
  {
    result := [];
    for i := 0 to |v1|
      invariant result == VSub(r, v1, v2)[..i]
    {
      result := result + [Sub(r, v1[i], v2[i])];
    }
  }

  /** VectorPolyMul writes the first |vec| entries of a zeroed result of length N. */
  method VectorPolyMul(r: Ring, vec: Vec, poly: Poly, N: nat) returns (result: Vec)
    requires |vec| <= N
    ensures result == Padded(r, VScale(r, vec, poly), N)
  {
    result := VZero(r, N);
    for i := 0 to |vec|
      invariant |result| == N
      invariant forall k :: 0 <= k < N ==> result[k] == if k < i then Mul(r, vec[k], poly) else Zero(r)
    {
      result := result[i := Mul(r, vec[i], poly)];
    }
  }

  /** MatrixVectorMul into a zeroed result. */
  method MatrixVectorMul(r: Ring, m: Mat, vec: Vec) returns (result: Vec)
    requires forall i :: 0 <= i < |m| ==> |m[i]| <= |vec|
    ensures result == MatVec(r, m, vec)
  {
    result := VZero(r, |m|);
    for i := 0 to |m|
      invariant |result| == |m|
      invariant forall k :: 0 <= k < |m| ==> result[k] == if k < i then DotP(r, m[k], vec) else Zero(r)
    {
      for j := 0 to |m[i]|
        invariant |result| == |m|
        invariant forall k :: 0 <= k < |m| && k != i ==> result[k] == if k < i then DotP(r, m[k], vec) else Zero(r)
        invariant result[i] == DotP(r, m[i][..j], vec)
      {
        assert m[i][..j + 1][..j] == m[i][..j];
        result := result[i := Add(r, result[i], Mul(r, m[i][j], vec[j]))];
      }
      assert m[i][..|m[i]|] == m[i];
    }
    assert result == MatVec(r, m, vec);
  }

  /** One entry of MatrixMatrixMul. */
  method ProductEntry(r: Ring, m1: Mat, m2: Mat, i: nat, j: nat, cols: nat) returns (acc: Poly)
    requires i < |m1| && |m1[i]| == |m2| && j < cols && forall k :: 0 <= k < |m2| ==> |m2[k]| == cols
    ensures acc == DotP(r, m1[i], MatColumn(m2, j))
  {
    acc := Zero(r);
    ghost var col := MatColumn(m2, j);
    for k := 0 to |m2|
      invariant acc == DotP(r, m1[i][..k], col)
    {
      assert m1[i][..k + 1][..k] == m1[i][..k];
      acc := Add(r, acc, Mul(r, m1[i][k], m2[k][j]));
    }
    assert m1[i][..|m2|] == m1[i];
  }

  /** MatrixMatrixMul: None is the shape error. */
  method MatrixMatrixMul(r: Ring, m1: Mat, m2: Mat, cols: nat) returns (result: Option<Mat>)
    requires forall i :: 0 <= i < |m1| ==> |m1[i]| == |m1[0]|
    requires forall i :: 0 <= i < |m2| ==> |m2[i]| == cols
    ensures result.None? <==> m1 == [] || m2 == [] || |m1[0]| != |m2|
    ensures result.Some? ==> result.value == MatMul(r, m1, m2, cols)
  {
    if |m1| == 0 || |m2| == 0 || |m1[0]| != |m2| {
      return None;
    }
    var out: Mat := [];
    for i := 0 to |m1|
      invariant |out| == i
      invariant forall k :: 0 <= k < i ==> out[k] == RowMat(r, m1[k], m2, cols)
    {
      var row: Vec := [];
      for j := 0 to cols
        invariant row == RowMat(r, m1[i], m2, cols)[..j]
      {
        var e := ProductEntry(r, m1, m2, i, j, cols);
        row := row + [e];
      }
      assert row == RowMat(r, m1[i], m2, cols);
      out := out + [row];
    }
    assert out == MatMul(r, m1, m2, cols);
    return Some(out);
  }

  /** MatrixAdd: None is the dimension error. */
  method MatrixAdd(r: Ring, m1: Mat, m2: Mat) returns (result: Option<Mat>)
    requires forall i :: 0 <= i < |m1| ==> |m1[i]| == |m1[0]|
    requires forall i :: 0 <= i < |m2| ==> |m2[i]| == |m2[0]|
    ensures result.None? <==> m1 == [] || m2 == [] || |m1| != |m2| || |m1[0]| != |m2[0]|
    ensures result.Some? ==> result.value == MatAdd(r, m1, m2, |m1[0]|)
  {
    if |m1| == 0 || |m2| == 0 || |m1| != |m2| || |m1[0]| != |m2[0]| {
      return None;
    }
    var out: Mat := [];
    for i := 0 to |m1|
      invariant |out| == i
      invariant forall k :: 0 <= k < i ==> out[k] == VAdd(r, m1[k], m2[k])
    {
      var row := VectorAdd(r, m1[i], m2[i]);
      out := out + [row];
    }
    assert out == MatAdd(r, m1, m2, |m1[0]|);
    return Some(out);
  }
}
