/** The algebra of two-round signing: mask cancellation, the aggregate response, the lattice
    correctness equation and the rounded difference that Finalize publishes. */
module SignAlgebra {
  import opened Zq
  import opened Rq
  import opened Transform
  import opened Rounding

  /** Ring, transform and module dimensions. */
  datatype Params = Params(r: Ring, t: Ntt, M: nat, N: nat, Dbar: nat)

  ghost predicate Standard(p: Params) {
    p.r.q == Q && IsTransform(p.r, p.t)
  }

  // ----- one party's response ------------------------------------------------------

  /** VectorPolyMul into a zero vector of length N: a share shorter than N leaves zeros behind. */
  function Padded(r: Ring, v: Vec, N: nat): (w: Vec)
    requires |v| <= N
    ensures |w| == N
  {
    v + VZero(r, N - |v|)
  }

  /** lambda_i * s_i, as accumulated into s_c_lambda. */
  function WeightedShare(p: Params, s: Vec, weight: Poly): (w: Vec)
    requires |s| <= p.N
    ensures |w| == p.N
  {
    Padded(p.r, VScale(p.r, s, weight), p.N)
  }

  /** z_i = R_i u + mask'_i + c lambda_i s_i - mask_i. */
  function Response(p: Params, R: Mat, u: Vec, maskIn: Vec, weighted: Vec, c: Poly, maskOut: Vec): (z: Vec)
    requires |R| == p.N == |maskIn| == |weighted| == |maskOut| && forall i :: 0 <= i < |R| ==> |R[i]| <= |u|
    ensures IsVec(p.r, z, p.N)
  {
    VSub(p.r, VAdd(p.r, VAdd(p.r, MatVec(p.r, R, u), maskIn), VScale(p.r, weighted, c)), maskOut)
  }

  // ----- cancellation of the pairwise masks ----------------------------------------

  ghost predicate IsTable(masks: seq<seq<Vec>>, n: nat, len: nat) {
    |masks| == n && forall a :: 0 <= a < n ==> |masks[a]| == n && AllLength(masks[a], len)
  }

  /** The masks party a subtracts: its own row of the table. */
  ghost function MaskOut(r: Ring, masks: seq<seq<Vec>>, a: nat, n: nat, len: nat): Vec
    requires IsTable(masks, n, len) && a < n
  {
    VSum(r, masks[a], len)
  }

  ghost function MaskColumn(masks: seq<seq<Vec>>, a: nat, n: nat, len: nat): (vs: seq<Vec>)
    requires IsTable(masks, n, len) && a < n
    ensures |vs| == n && AllLength(vs, len)
  {
    seq(n, b requires 0 <= b < n => masks[b][a])
  }

  /** The masks party a adds: its column of the table. */
  ghost function MaskIn(r: Ring, masks: seq<seq<Vec>>, a: nat, n: nat, len: nat): Vec
    requires IsTable(masks, n, len) && a < n
  {
    VSum(r, MaskColumn(masks, a, n, len), len)
  }

  ghost function MaskOuts(r: Ring, masks: seq<seq<Vec>>, n: nat, len: nat): (vs: seq<Vec>)
    requires IsTable(masks, n, len)
    ensures |vs| == n && AllLength(vs, len)
  {
    seq(n, a requires 0 <= a < n => MaskOut(r, masks, a, n, len))
  }

  ghost function MaskIns(r: Ring, masks: seq<seq<Vec>>, n: nat, len: nat): (vs: seq<Vec>)
    requires IsTable(masks, n, len)
    ensures |vs| == n && AllLength(vs, len)
  {
    seq(n, a requires 0 <= a < n => MaskIn(r, masks, a, n, len))
  }

  ghost function Slice(masks: seq<seq<Vec>>, n: nat, len: nat, k: nat): (t: seq<seq<Poly>>)
    requires IsTable(masks, n, len) && k < len
    ensures |t| == n && Rectangular(t, n)
    ensures forall a, b :: 0 <= a < n && 0 <= b < n ==> t[a][b] == masks[a][b][k]
  {
    seq(n, a requires 0 <= a < n => seq(n, b requires 0 <= b < n => masks[a][b][k]))
  }

  /** For every table of pairwise masks, what the parties add and what they subtract sums to the same. */
  lemma MasksCancel(r: Ring, masks: seq<seq<Vec>>, n: nat, len: nat)
    requires IsTable(masks, n, len)
    ensures VSum(r, MaskIns(r, masks, n, len), len) == VSum(r, MaskOuts(r, masks, n, len), len)
  {
    forall k | 0 <= k < len
      ensures VSum(r, MaskIns(r, masks, n, len), len)[k] == VSum(r, MaskOuts(r, masks, n, len), len)[k]
    {
      MasksCancelAt(r, masks, n, len, k);
    }
  }

  lemma MasksCancelAt(r: Ring, masks: seq<seq<Vec>>, n: nat, len: nat, k: nat)
    requires IsTable(masks, n, len) && k < len
    ensures VSum(r, MaskIns(r, masks, n, len), len)[k] == VSum(r, MaskOuts(r, masks, n, len), len)[k]
  {
    hide PSum, VSum;
    var t := Slice(masks, n, len, k);
    SlicedOuts(r, masks, n, len, k);
    SlicedIns(r, masks, n, len, k);
    VSumCoord(r, MaskIns(r, masks, n, len), len, k);
    VSumCoord(r, MaskOuts(r, masks, n, len), len, k);
    DoubleSum(r, t, n);
  }

  lemma SlicedOuts(r: Ring, masks: seq<seq<Vec>>, n: nat, len: nat, k: nat)
    requires IsTable(masks, n, len) && k < len
    ensures Coord(MaskOuts(r, masks, n, len), k) == RowSums(r, Slice(masks, n, len, k))
  {
    hide PSum, VSum;
    var t := Slice(masks, n, len, k);
    forall a | 0 <= a < n ensures Coord(MaskOuts(r, masks, n, len), k)[a] == RowSums(r, t)[a] {
      VSumCoord(r, masks[a], len, k);
      assert Coord(masks[a], k) == t[a];
    }
  }

  lemma SlicedIns(r: Ring, masks: seq<seq<Vec>>, n: nat, len: nat, k: nat)
    requires IsTable(masks, n, len) && k < len
    ensures Coord(MaskIns(r, masks, n, len), k) == ColumnSums(r, Slice(masks, n, len, k), n)
  {
    hide PSum, VSum;
    var t := Slice(masks, n, len, k);
    forall a | 0 <= a < n ensures Coord(MaskIns(r, masks, n, len), k)[a] == ColumnSums(r, t, n)[a] {
      VSumCoord(r, MaskColumn(masks, a, n, len), len, k);
      assert Coord(MaskColumn(masks, a, n, len), k) == Column(t, a);
    }
  }

  // ----- the aggregate response ----------------------------------------------------

  /** ((x + b) + c) - b = x + c. */
  lemma DropMask(r: Ring, x: Poly, b: Poly, c: Poly)
    ensures Sub(r, Add(r, Add(r, x, b), c), b) == Add(r, x, c)
  {
    hide Add, Sub;
    AddAssoc(r, x, b, c);
    AddComm(r, b, c);
    AddAssoc(r, x, c, b);
    AddThenSub(r, Add(r, x, c), b);
  }

  lemma DropMasks(r: Ring, x: Vec, b: Vec, c: Vec, len: nat)
    requires |x| == |b| == |c| == len
    ensures VSub(r, VAdd(r, VAdd(r, x, b), c), b) == VAdd(r, x, c)
  {
    forall i | 0 <= i < len ensures VSub(r, VAdd(r, VAdd(r, x, b), c), b)[i] == VAdd(r, x, c)[i] {
      DropMask(r, x[i], b[i], c[i]);
    }
  }

  ghost function Products(r: Ring, ms: seq<Mat>, rows: nat, cols: nat, u: Vec): (vs: seq<Vec>)
    requires AllShape(ms, rows, cols) && |u| == cols
    ensures |vs| == |ms| && AllLength(vs, rows)
    ensures forall i :: 0 <= i < |ms| ==> vs[i] == MatVec(r, ms[i], u)
  {
    seq(|ms|, i requires 0 <= i < |ms| => assert |ms[i]| == rows; MatVec(r, ms[i], u))
  }

  /** (sum of M_i) u. */
  ghost function SumTimes(r: Ring, ms: seq<Mat>, rows: nat, cols: nat, u: Vec): (v: Vec)
    requires AllShape(ms, rows, cols) && |u| == cols
    ensures IsVec(r, v, rows)
  {
    MatVec(r, MSum(r, ms, rows, cols), u)
  }

  lemma SumTimesIsSum(r: Ring, ms: seq<Mat>, rows: nat, cols: nat, u: Vec)
    requires AllShape(ms, rows, cols) && |u| == cols
    ensures SumTimes(r, ms, rows, cols, u) == VSum(r, Products(r, ms, rows, cols, u), rows)
  {
    MSumVec(r, ms, rows, cols, u, Products(r, ms, rows, cols, u));
  }

  ghost function Scalings(r: Ring, vs: seq<Vec>, c: Poly, len: nat): (ws: seq<Vec>)
    requires AllLength(vs, len)
    ensures |ws| == |vs| && AllLength(ws, len)
    ensures forall i :: 0 <= i < |vs| ==> ws[i] == VScale(r, vs[i], c)
  {
    seq(|vs|, i requires 0 <= i < |vs| => VScale(r, vs[i], c))
  }

  ghost function Sums(r: Ring, us: seq<Vec>, vs: seq<Vec>, len: nat): (ws: seq<Vec>)
    requires |us| == |vs| && AllLength(us, len) && AllLength(vs, len)
    ensures |ws| == |vs| && AllLength(ws, len)
    ensures forall i :: 0 <= i < |vs| ==> ws[i] == VAdd(r, us[i], vs[i])
  {
    seq(|vs|, i requires 0 <= i < |vs| => VAdd(r, us[i], vs[i]))
  }

  ghost predicate AreResponses(p: Params, zs: seq<Vec>, Rs: seq<Mat>, u: Vec, masks: seq<seq<Vec>>, weighted: seq<Vec>, c: Poly)
    requires AllShape(Rs, p.N, |u|) && |Rs| == |weighted| && AllLength(weighted, p.N) && IsTable(masks, |Rs|, p.N)
  {
    |zs| == |Rs| &&
    forall a :: 0 <= a < |zs| ==>
      zs[a] == Response(p, Rs[a], u, MaskIn(p.r, masks, a, |Rs|, p.N), weighted[a], c, MaskOut(p.r, masks, a, |Rs|, p.N))
  }

  /** Summed over the signers the masks vanish: z_sum = (sum of R_i) u + c (sum of lambda_i s_i). */
  lemma AggregateResponse(p: Params, zs: seq<Vec>, Rs: seq<Mat>, u: Vec, masks: seq<seq<Vec>>, weighted: seq<Vec>, c: Poly)
    requires AllShape(Rs, p.N, |u|) && |Rs| == |weighted| && AllLength(weighted, p.N) && IsTable(masks, |Rs|, p.N)
    requires AreResponses(p, zs, Rs, u, masks, weighted, c)
    ensures AllLength(zs, p.N)
    ensures VSum(p.r, zs, p.N) ==
            VAdd(p.r, SumTimes(p.r, Rs, p.N, |u|, u), VScale(p.r, VSum(p.r, weighted, p.N), c))
  {
    hide VSum, VAdd, VSub, VScale, MatVec, SumTimes, Elem;
    var r, N, n := p.r, p.N, |Rs|;
    var xs, ins, outs := Products(r, Rs, N, |u|, u), MaskIns(r, masks, n, N), MaskOuts(r, masks, n, N);
    var ss := Scalings(r, weighted, c, N);
    var xb := Sums(r, xs, ins, N);
    var xbs := Sums(r, xb, ss, N);
    VSumAdd(r, xs, ins, xb, N);
    VSumAdd(r, xb, ss, xbs, N);
    VSumSub(r, xbs, outs, zs, N);
    VSumScale(r, weighted, c, ss, N);
    SumTimesIsSum(r, Rs, N, |u|, u);
    MasksCancel(r, masks, n, N);
    DropMasks(r, VSum(r, xs, N), VSum(r, ins, N), VSum(r, ss, N), N);
  }

  // ----- the correctness equation --------------------------------------------------

  ghost predicate AreCommitments(p: Params, Ds: seq<Mat>, A: Mat, Rs: seq<Mat>, Es: seq<Mat>, cols: nat)
    requires |Ds| == |Rs| == |Es| && AllShape(Rs, p.N, cols) && AllShape(Es, p.M, cols)
    requires |A| == p.M && forall i :: 0 <= i < |A| ==> |A[i]| == p.N
  {
    forall a :: 0 <= a < |Ds| ==> Ds[a] == MatAdd(p.r, Es[a], MatMul(p.r, A, Rs[a], cols), cols)
  }

  /** D_sum u = (sum of E_i) u + A ((sum of R_i) u). */
  lemma CommitmentSum(p: Params, Ds: seq<Mat>, A: Mat, Rs: seq<Mat>, Es: seq<Mat>, u: Vec)
    requires |Ds| == |Rs| == |Es| && AllShape(Rs, p.N, |u|) && AllShape(Es, p.M, |u|)
    requires |A| == p.M && forall i :: 0 <= i < |A| ==> |A[i]| == p.N
    requires AreCommitments(p, Ds, A, Rs, Es, |u|)
    ensures AllShape(Ds, p.M, |u|)
    ensures SumTimes(p.r, Ds, p.M, |u|, u) ==
            VAdd(p.r, SumTimes(p.r, Es, p.M, |u|, u), MatVec(p.r, A, SumTimes(p.r, Rs, p.N, |u|, u)))
  {
    hide Elem, SumTimes, VSum, VAdd, MatVec, MatAdd, MatMul;
    var r, M, N, cols := p.r, p.M, p.N, |u|;
    CommitmentShapes(p, Ds, A, Rs, Es, cols);
    var es, rs, ds := Products(r, Es, M, cols, u), Products(r, Rs, N, cols, u), Products(r, Ds, M, cols, u);
    SumTimesIsSum(r, Ds, M, cols, u);
    SumTimesIsSum(r, Es, M, cols, u);
    SumTimesIsSum(r, Rs, N, cols, u);
    forall a | 0 <= a < |Ds| ensures ds[a] == VAdd(r, es[a], MatVec(r, A, rs[a])) {
      CommitmentOne(r, A, Rs[a], Es[a], M, N, cols, u);
    }
    SumCore(r, A, rs, es, ds, M, N);
  }

  lemma CommitmentShapes(p: Params, Ds: seq<Mat>, A: Mat, Rs: seq<Mat>, Es: seq<Mat>, cols: nat)
    requires |Ds| == |Rs| == |Es| && AllShape(Rs, p.N, cols) && AllShape(Es, p.M, cols)
    requires |A| == p.M && forall i :: 0 <= i < |A| ==> |A[i]| == p.N
    requires AreCommitments(p, Ds, A, Rs, Es, cols)
    ensures AllShape(Ds, p.M, cols)
  {
    hide MatAdd, MatMul, Elem;
    forall i | 0 <= i < |Ds| ensures |Ds[i]| == p.M && forall j :: 0 <= j < p.M ==> |Ds[i][j]| == cols {
      assert IsMat(p.r, Ds[i], p.M, cols);
    }
  }

  lemma CommitmentOne(r: Ring, A: Mat, R: Mat, E: Mat, M: nat, N: nat, cols: nat, u: Vec)
    requires |A| == M && (forall i :: 0 <= i < |A| ==> |A[i]| == N) && |u| == cols
    requires |R| == N && forall i :: 0 <= i < N ==> |R[i]| == cols
    requires |E| == M && forall i :: 0 <= i < M ==> |E[i]| == cols
    ensures var D := MatAdd(r, E, MatMul(r, A, R, cols), cols);
            MatVec(r, D, u) == VAdd(r, MatVec(r, E, u), MatVec(r, A, MatVec(r, R, u)))
  {
    hide Elem;
    MatAddVec(r, E, MatMul(r, A, R, cols), cols, u);
    MatMulVec(r, A, R, cols, u);
  }

  lemma SumCore(r: Ring, A: Mat, rs: seq<Vec>, es: seq<Vec>, ds: seq<Vec>, M: nat, N: nat)
    requires |rs| == |es| == |ds| && AllLength(rs, N) && AllLength(es, M)
    requires |A| == M && forall i :: 0 <= i < |A| ==> |A[i]| == N
    requires forall a :: 0 <= a < |ds| ==> ds[a] == VAdd(r, es[a], MatVec(r, A, rs[a]))
    ensures AllLength(ds, M)
    ensures VSum(r, ds, M) == VAdd(r, VSum(r, es, M), MatVec(r, A, VSum(r, rs, N)))
  {
    hide Elem, VAdd, MatVec, VSum;
    var ars := seq(|rs|, i requires 0 <= i < |rs| => MatVec(r, A, rs[i]));
    MatVecSum(r, A, rs, ars, N);
    VSumAdd(r, es, ars, ds, M);
  }

  /** (p + s) - (s + f) = ((q + p) - q) - f. */
  lemma EquationSlot(r: Ring, e: Poly, p: Poly, s: Poly, f: Poly)
    requires Elem(r, p) && Elem(r, s)
    ensures Sub(r, Add(r, p, s), Add(r, s, f)) == Sub(r, Sub(r, Add(r, e, p), e), f)
  {
    hide Add, Sub;
    AddComm(r, s, f);
    AddSubExchange(r, p, s, f, s);
    SubSelf(r, s);
    AddZero(r, Sub(r, p, f));
    AddComm(r, e, p);
    AddThenSub(r, p, e);
  }

  lemma SubSelf(r: Ring, s: Poly)
    ensures Sub(r, s, s) == Zero(r)
  {
    forall i | 0 <= i < r.n ensures Sub(r, s, s)[i] == 0 {
      ModUnique(0, 0, 0, r.q);
    }
  }

  lemma EquationVec(r: Ring, e: Vec, p: Vec, s: Vec, f: Vec, len: nat)
    requires IsVec(r, e, len) && IsVec(r, p, len) && IsVec(r, s, len) && IsVec(r, f, len)
    ensures VSub(r, VAdd(r, p, s), VAdd(r, s, f)) == VSub(r, VSub(r, VAdd(r, e, p), e), f)
  {
    forall i | 0 <= i < len
      ensures VSub(r, VAdd(r, p, s), VAdd(r, s, f))[i] == VSub(r, VSub(r, VAdd(r, e, p), e), f)[i]
    {
      EquationSlot(r, e[i], p[i], s[i], f[i]);
    }
  }

  lemma VScaleAdd(r: Ring, u: Vec, v: Vec, c: Poly)
    requires |u| == |v|
    ensures VScale(r, VAdd(r, u, v), c) == VAdd(r, VScale(r, u, c), VScale(r, v, c))
  {
    forall i | 0 <= i < |u| ensures VScale(r, VAdd(r, u, v), c)[i] == VAdd(r, VScale(r, u, c), VScale(r, v, c))[i] {
      MulComm(r, Add(r, u[i], v[i]), c);
      MulAdd(r, c, u[i], v[i]);
      MulComm(r, c, u[i]);
      MulComm(r, c, v[i]);
    }
  }

  lemma VAddAssoc(r: Ring, u: Vec, v: Vec, w: Vec)
    requires |u| == |v| == |w|
    ensures VAdd(r, VAdd(r, u, v), w) == VAdd(r, u, VAdd(r, v, w))
  {
    forall i | 0 <= i < |u| ensures VAdd(r, VAdd(r, u, v), w)[i] == VAdd(r, u, VAdd(r, v, w))[i] {
      AddAssoc(r, u[i], v[i], w[i]);
    }
  }

  /** The noise that separates the commitment from what a verifier recomputes. */
  ghost function Noise(p: Params, Es: seq<Mat>, u: Vec, e: Vec, eps: Vec, c: Poly): (v: Vec)
    requires AllShape(Es, p.M, |u|) && |e| == |eps| == p.M
    ensures IsVec(p.r, v, p.M)
  {
    VAdd(p.r, SumTimes(p.r, Es, p.M, |u|, u), VScale(p.r, VAdd(p.r, e, eps), c))
  }

  /** The lattice correctness equation. With D_i = A R_i + E_i, public key b = A s + e known as b + eps,
      and z = (sum of R_i) u + c s:
      A z - (b + eps) c = D_sum u - (sum of E_i) u - c (e + eps). */
  lemma CorrectnessEquation(p: Params, Ds: seq<Mat>, A: Mat, Rs: seq<Mat>, Es: seq<Mat>, u: Vec,
                            s: Vec, e: Vec, eps: Vec, c: Poly, z: Vec)
    requires |Ds| == |Rs| == |Es| && AllShape(Rs, p.N, |u|) && AllShape(Es, p.M, |u|)
    requires |A| == p.M && forall i :: 0 <= i < |A| ==> |A[i]| == p.N
    requires AreCommitments(p, Ds, A, Rs, Es, |u|) && AllShape(Ds, p.M, |u|)
    requires |s| == p.N && |e| == |eps| == p.M
    requires z == VAdd(p.r, SumTimes(p.r, Rs, p.N, |u|, u), VScale(p.r, s, c))
    ensures VSub(p.r, MatVec(p.r, A, z), VScale(p.r, VAdd(p.r, VAdd(p.r, MatVec(p.r, A, s), e), eps), c)) ==
            VSub(p.r, VSub(p.r, SumTimes(p.r, Ds, p.M, |u|, u), SumTimes(p.r, Es, p.M, |u|, u)),
                 VScale(p.r, VAdd(p.r, e, eps), c))
  {
    hide Elem, SumTimes, VAdd, VSub, VScale, MatVec, MatAdd, MatMul, AllShape;
    CommitmentSum(p, Ds, A, Rs, Es, u);
    EquationCore(p.r, A, SumTimes(p.r, Rs, p.N, |u|, u), SumTimes(p.r, Es, p.M, |u|, u), s, e, eps, c, p.M, p.N);
  }

  lemma EquationCore(r: Ring, A: Mat, ru: Vec, eu: Vec, s: Vec, e: Vec, eps: Vec, c: Poly, M: nat, N: nat)
    requires |A| == M && (forall i :: 0 <= i < |A| ==> |A[i]| == N) && |ru| == N && IsVec(r, eu, M)
    requires |s| == N && |e| == |eps| == M
    ensures VSub(r, MatVec(r, A, VAdd(r, ru, VScale(r, s, c))), VScale(r, VAdd(r, VAdd(r, MatVec(r, A, s), e), eps), c)) ==
            VSub(r, VSub(r, VAdd(r, eu, MatVec(r, A, ru)), eu), VScale(r, VAdd(r, e, eps), c))
  {
    hide Elem, VAdd, VSub, VScale, MatVec;
    var aru, as_ := MatVec(r, A, ru), MatVec(r, A, s);
    MatVecAdd(r, A, ru, VScale(r, s, c));
    MatVecScale(r, A, s, c);
    VAddAssoc(r, as_, e, eps);
    VScaleAdd(r, as_, VAdd(r, e, eps), c);
    EquationVec(r, eu, aru, VScale(r, as_, c), VScale(r, VAdd(r, e, eps), c), M);
  }
}
