/** The signing party: two rounds, finalization and verification. Hashes, samplers and the
    pseudorandom function are deterministic functions supplied by the suite. */
module Sign {
  import opened Zq
  import opened Sorting
  import opened Bytes
  import opened Rq
  import opened Transform
  import opened Rounding
  import opened SignAlgebra
  import opened SignRounding
  import opened VectorOps
  import Rank

  type Str = seq<Byte>

  /** One draw of the nonce sampler: r*, e*, R_i, E_i. */
  datatype Nonce = Nonce(rStar: Vec, eStar: Vec, R: Mat, E: Mat)

  datatype Suite = Suite(
    session: (int, seq<int>) -> Str,
    nonce: (Vec, Str, Str) -> Nonce,
    transcript: (Mat, Vec, int, seq<int>, seq<Mat>) -> Str,
    mac: (Str, int, Mat, int, seq<int>) -> Str,
    gaussian: (Str, Str) -> Vec,
    prf: (Str, Str, Str, Str) -> Vec,
    lowNorm: (Mat, Vec, Vec, Str) -> Poly)

  ghost predicate IsNonce(p: Params, n: Nonce) {
    IsVec(p.r, n.rStar, p.N) && IsVec(p.r, n.eStar, p.M) && IsMat(p.r, n.R, p.N, p.Dbar) && IsMat(p.r, n.E, p.M, p.Dbar)
  }

  /** The sampler outputs have the dimensions they are asked for. */
  ghost predicate SuiteOk(p: Params, suite: Suite) {
    && (forall sk, id, salt :: IsNonce(p, suite.nonce(sk, id, salt)))
    && (forall h, mu :: IsVec(p.r, suite.gaussian(h, mu), p.Dbar))
    && (forall sd, key, h, mu :: IsVec(p.r, suite.prf(sd, key, h, mu), p.N))
    && (forall A, b, h, mu :: Elem(p.r, suite.lowNorm(A, b, h, mu)))
  }

  ghost predicate DimsOk(p: Params) {
    p.r.q == Q && p.M >= 1 && p.N >= 1
  }

  predicate AllZeroBytes(s: Str) {
    forall i :: 0 <= i < |s| ==> s[i] == 0
  }

  /** [v | m]: v as an extra first column. */
  function WithColumn(v: Vec, m: Mat): (w: Mat)
    requires |v| == |m|
    ensures |w| == |m| && forall i :: 0 <= i < |m| ==> w[i] == [v[i]] + m[i]
  {
    seq(|m|, i requires 0 <= i < |m| => [v[i]] + m[i])
  }

  lemma WithColumnIsMat(r: Ring, v: Vec, m: Mat, rows: nat, cols: nat)
    requires IsVec(r, v, rows) && IsMat(r, m, rows, cols)
    ensures IsMat(r, WithColumn(v, m), rows, cols + 1)
  {
    hide Elem;
    var w := WithColumn(v, m);
    forall i | 0 <= i < rows ensures IsVec(r, w[i], cols + 1) {
      assert IsVec(r, m[i], cols);
      forall j | 0 <= j < cols + 1 ensures Elem(r, w[i][j]) {
        if j > 0 {
          assert w[i][j] == m[i][j - 1];
        }
      }
    }
  }

  /** D = A R + E for one nonce. */
  ghost function Commitment(p: Params, A: Mat, n: Nonce): (D: Mat)
    requires IsNonce(p, n) && IsMat(p.r, A, p.M, p.N)
    ensures IsMat(p.r, D, p.M, p.Dbar + 1)
  {
    WithColumnIsMat(p.r, n.rStar, n.R, p.N, p.Dbar);
    WithColumnIsMat(p.r, n.eStar, n.E, p.M, p.Dbar);
    MatAdd(p.r, WithColumn(n.eStar, n.E), MatMul(p.r, A, WithColumn(n.rStar, n.R), p.Dbar + 1), p.Dbar + 1)
  }

  function KeyFor(keys: map<int, Str>, j: int): Str {
    if j in keys then keys[j] else []
  }

  function MacFor(macs: map<int, map<int, Str>>, j: int, id: int): Str {
    if j in macs then KeyFor(macs[j], id) else []
  }

  function MatrixFor(ds: map<int, Mat>, j: int): Mat {
    if j in ds then ds[j] else []
  }

  /** u = (1, GaussianHash(hash, mu)). */
  function ChallengeVector(p: Params, suite: Suite, hash: Str, mu: Str): (u: Vec) {
    [Const(p.r, 1)] + suite.gaussian(hash, mu)
  }

  /** The masks derived from a list of seeds. */
  ghost function Masks(suite: Suite, seeds: seq<Str>, prfKey: Str, hash: Str, mu: Str): (vs: seq<Vec>) {
    seq(|seeds|, i requires 0 <= i < |seeds| => suite.prf(seeds[i], prfKey, hash, mu))
  }

  /** The seeds a party subtracts with (its own row) and adds with (its column), over the signers. */
  ghost predicate SeedsOk(seeds: map<int, seq<Str>>, id: int, T: seq<int>) {
    id in seeds && forall i :: 0 <= i < |T| ==> T[i] in seeds && 0 <= id < |seeds[T[i]]| && 0 <= T[i] < |seeds[id]|
  }

  function RowSeeds(seeds: map<int, seq<Str>>, id: int, T: seq<int>): seq<Str>
    requires SeedsOk(seeds, id, T)
  {
    seq(|T|, i requires 0 <= i < |T| => seeds[id][T[i]])
  }

  function ColumnSeeds(seeds: map<int, seq<Str>>, id: int, T: seq<int>): seq<Str>
    requires SeedsOk(seeds, id, T)
  {
    seq(|T|, i requires 0 <= i < |T| => seeds[T[i]][id])
  }

  lemma MasksLength(p: Params, suite: Suite, seeds: seq<Str>, prfKey: Str, hash: Str, mu: Str)
    requires SuiteOk(p, suite)
    ensures AllLength(Masks(suite, seeds, prfKey, hash, mu), p.N)
  {
  }

  /** Accumulating the masks of a list of seeds into a zero vector. */
  method SumMasks(p: Params, suite: Suite, seeds: seq<Str>, prfKey: Str, hash: Str, mu: Str) returns (mask: Vec)
    requires SuiteOk(p, suite)
    ensures AllLength(Masks(suite, seeds, prfKey, hash, mu), p.N)
    ensures mask == VSum(p.r, Masks(suite, seeds, prfKey, hash, mu), p.N)
  {
    MasksLength(p, suite, seeds, prfKey, hash, mu);
    ghost var vs := Masks(suite, seeds, prfKey, hash, mu);
    mask := VZero(p.r, p.N);
    for i := 0 to |seeds|
      invariant mask == VSum(p.r, vs[..i], p.N)
    {
      assert vs[..i + 1][..i] == vs[..i];
      mask := VectorAdd(p.r, mask, suite.prf(seeds[i], prfKey, hash, mu));
    }
    assert vs[..|seeds|] == vs;
  }

  /** What a verifier computes from a signature. */
  ghost predicate Verifies(p: Params, suite: Suite, z: Vec, A: Mat, mu: Str, bTilde: Vec, c: Poly, delta: Vec)
    requires p.r.q == Q && IsWords(bTilde, p.M, p.r.n)
    requires |delta| == p.M ==> IsWords(delta, p.M, p.r.n)
  {
    && |A| == p.M && |delta| == p.M && |A| > 0
    && (forall i :: 0 <= i < |A| ==> |A[i]| == |A[0]|)
    && |z| == |A[0]|
    && var w := RoundedCoeffs(p, Residual(p, A, z, bTilde, c));
    && suite.lowNorm(A, bTilde, VAdd(NuRing(p), w, delta), mu) == c
    && NormOk(RestoreVec(delta, Nu, p.r.n), VApply(p.r, p.t.inverse, z))
  }

  /** VerifyWithSuite. */
  method Verify(p: Params, suite: Suite, z: Vec, A: Mat, mu: Str, bTilde: Vec, c: Poly, delta: Vec) returns (ok: bool)
    requires DimsOk(p) && IsWords(bTilde, p.M, p.r.n)
    requires |delta| == p.M ==> IsWords(delta, p.M, p.r.n)
    ensures ok <==> Verifies(p, suite, z, A, mu, bTilde, c, delta)
    ensures ok <==>
              && |A| == p.M && |delta| == p.M && (forall i :: 0 <= i < |A| ==> |A[i]| == |z|)
              && c == suite.lowNorm(A, bTilde, VAdd(NuRing(p), RoundedCoeffs(p, Residual(p, A, z, bTilde, c)), delta), mu)
              && SquareSum(RestoreVec(delta, Nu, p.r.n)) + SquareSum(VApply(p.r, p.t.inverse, z)) <= B_SQUARE
  {
    hide NormOk, SquareSum;
    if |A| != p.M || |delta| != p.M {
      return false;
    }
    var cols := |A[0]|;
    for i := 0 to |A|
      invariant forall k :: 0 <= k < i ==> |A[k]| == cols
    {
      if |A[i]| != cols {
        return false;
      }
    }
    if |z| != cols {
      return false;
    }
    var az := MatrixVectorMul(p.r, A, z);
    var b := VApply(p.r, p.t.forward, RestoreVec(bTilde, Xi, p.r.n));
    var bc := VectorPolyMul(p.r, b, c, p.M);
    assert bc == VScale(p.r, b, c);
    var azbc := VectorSub(p.r, az, bc);
    var w := RoundedCoeffs(p, azbc);
    var sum := VectorAdd(NuRing(p), w, delta);
    if suite.lowNorm(A, bTilde, sum, mu) != c {
      return false;
    }
    ok := CheckL2Norm(RestoreVec(delta, Nu, p.r.n), VApply(p.r, p.t.inverse, z));
  }

  // ----- the party -----------------------------------------------------------------

  ghost predicate RectMat(r: Ring, m: Mat) {
    m == [] || IsMat(r, m, |m|, |m[0]|)
  }

  /** The commitments of all signers are present with the expected dimensions. */
  ghost predicate AllPresent(p: Params, ds: map<int, Mat>, T: seq<int>) {
    forall i :: 0 <= i < |T| ==> T[i] in ds && |ds[T[i]]| == p.M && p.M > 0 && |ds[T[i]][0]| == p.Dbar + 1
  }

  function InOrder(ds: map<int, Mat>, T: seq<int>): seq<Mat> {
    seq(|T|, i requires 0 <= i < |T| => MatrixFor(ds, T[i]))
  }

  lemma InOrderShape(p: Params, ds: map<int, Mat>, T: seq<int>)
    requires AllPresent(p, ds, T) && forall j :: j in ds ==> RectMat(p.r, ds[j])
    ensures AllShape(InOrder(ds, T), p.M, p.Dbar + 1)
  {
    hide Elem;
    var ms := InOrder(ds, T);
    forall i | 0 <= i < |ms| ensures |ms[i]| == p.M && forall j :: 0 <= j < p.M ==> |ms[i][j]| == p.Dbar + 1 {
      assert RectMat(p.r, ds[T[i]]);
      forall j | 0 <= j < p.M ensures |ms[i][j]| == p.Dbar + 1 {
        assert IsVec(p.r, ds[T[i]][j], p.Dbar + 1);
      }
    }
  }

  /** The summed commitments pass the rank test of their own dimensions. */
  ghost predicate FullRankSum(p: Params, D: Mat) {
    Rank.IsPolyMatrix(D, p.Dbar + 1, p.r.n) && Rank.FullRank(D, p.Dbar + 1, p.r.n, p.r.q)
  }

  /** The MAC of every other signer is the one this party expects on that signer's commitment. */
  ghost predicate MacsMatch(suite: Suite, id: int, keys: map<int, Str>, ds: map<int, Mat>, macs: map<int, map<int, Str>>, sid: int, T: seq<int>) {
    forall i :: 0 <= i < |T| && T[i] != id ==>
      MacFor(macs, T[i], id) == suite.mac(KeyFor(keys, T[i]), T[i], MatrixFor(ds, T[i]), sid, T)
  }

  class Party {
    const p: Params
    const suite: Suite
    const id: int
    var skShare: Vec
    var seeds: map<int, seq<Str>>
    var macKeys: map<int, Str>
    var weight: Poly
    var R: Mat
    var D: Mat
    var C: Poly
    var H: Vec

    constructor (p: Params, suite: Suite, id: int, skShare: Vec, seeds: map<int, seq<Str>>, macKeys: map<int, Str>, weight: Poly)
      ensures this.p == p && this.suite == suite && this.id == id
      ensures this.skShare == skShare && this.seeds == seeds && this.macKeys == macKeys && this.weight == weight
    {
      this.p, this.suite, this.id := p, suite, id;
      this.skShare, this.seeds, this.macKeys, this.weight := skShare, seeds, macKeys, weight;
      R, D, C, H := [], [], [], [];
    }

    /** SignRound1. A zero session identifier, a failed salt read or a zero salt refuses and changes
        nothing; otherwise D = A R + E for the nonce keyed by (share, session, salt). */
    method SignRound1(A: Mat, sid: int, T: seq<int>, salt: Option<Str>) returns (r: Option<(Mat, map<int, Str>)>)
      requires DimsOk(p) && SuiteOk(p, suite) && IsMat(p.r, A, p.M, p.N)
      modifies this`R, this`D
      ensures r.None? <==> AllZeroBytes(suite.session(sid, T)) || salt.None? || AllZeroBytes(salt.value)
      ensures r.Some? <==>
                && (exists i :: 0 <= i < |suite.session(sid, T)| && suite.session(sid, T)[i] != 0)
                && salt.Some? && exists i :: 0 <= i < |salt.value| && salt.value[i] != 0
      ensures r.None? ==> R == old(R) && D == old(D)
      ensures r.Some? ==>
                var nonce := suite.nonce(skShare, suite.session(sid, T), salt.value);
                && R == WithColumn(nonce.rStar, nonce.R)
                && D == Commitment(p, A, nonce)
                && r.value.0 == D
                && r.value.1.Keys == Elements(T) - {id}
                && forall j :: j in r.value.1 ==> r.value.1[j] == suite.mac(KeyFor(macKeys, j), id, D, sid, T)
    {
      var session := suite.session(sid, T);
      if AllZeroBytes(session) || salt.None? || AllZeroBytes(salt.value) {
        return None;
      }
      var nonce := suite.nonce(skShare, session, salt.value);
      assert IsNonce(p, nonce);
      WithColumnIsMat(p.r, nonce.rStar, nonce.R, p.N, p.Dbar);
      WithColumnIsMat(p.r, nonce.eStar, nonce.E, p.M, p.Dbar);
      var d := Commit(p, A, nonce);
      R := WithColumn(nonce.rStar, nonce.R);
      D := d;
      var macs := MacAll(suite, id, macKeys, d, sid, T);
      return Some((d, macs));
    }

    /** SignRound2Preprocess accepts exactly when every MAC matches, every signer's commitment is there with
        the right dimensions, and their sum has full rank; it then returns that sum. */
    method SignRound2Preprocess(A: Mat, b: Vec, ds: map<int, Mat>, macs: map<int, map<int, Str>>, sid: int, T: seq<int>)
      returns (ok: bool, DSum: Mat, hash: Str)
      requires Prime(p.r.q) && DimsOk(p) && forall j :: j in ds ==> RectMat(p.r, ds[j])
      ensures ok <==>
                && MacsMatch(suite, id, macKeys, ds, macs, sid, T)
                && AllPresent(p, ds, T)
                && (AllShape(InOrder(ds, T), p.M, p.Dbar + 1) ==>
                      FullRankSum(p, MSum(p.r, InOrder(ds, T), p.M, p.Dbar + 1)))
      ensures ok ==> forall i :: 0 <= i < |T| && T[i] != id ==>
                (if T[i] in macs && id in macs[T[i]] then macs[T[i]][id] else []) ==
                suite.mac(if T[i] in macKeys then macKeys[T[i]] else [], T[i], if T[i] in ds then ds[T[i]] else [], sid, T)
      ensures ok ==> Rank.IsPolyMatrix(DSum, p.Dbar + 1, p.r.n)
      ensures ok ==> forall slot, cols: nat :: 0 <= slot < p.r.n && cols == p.Dbar + 1 ==>
                Rank.Independent(Rank.Submatrix(DSum, slot, cols, p.r.n, p.r.q), p.Dbar, p.r.q)
      ensures ok ==> AllShape(InOrder(ds, T), p.M, p.Dbar + 1)
      ensures ok ==> DSum == MSum(p.r, InOrder(ds, T), p.M, p.Dbar + 1)
      ensures ok ==> hash == suite.transcript(A, b, sid, T, InOrder(ds, T))
    {
      hide MacsMatch, AllPresent, AllShape, InOrder, Elem, MSum, Prime, Rank.FullRank;
      hash := suite.transcript(A, b, sid, T, InOrder(ds, T));
      var good := CheckMacs(suite, id, macKeys, ds, macs, sid, T);
      if !good {
        return false, [], [];
      }
      var sum := SumCommitments(p, ds, T);
      if sum.None? {
        return false, [], [];
      }
      DSum := sum.value;
      assert IsMat(p.r, DSum, p.M, p.Dbar + 1);
      PolyMatrixOf(p, DSum);
      ok := Rank.FullRankCheck(DSum, p.Dbar + 1, p.r.n, p.r.q);
    }

    /** SignRound2: the rounded commitment, the challenge and this party's masked response. */
    method SignRound2(A: Mat, bTilde: Vec, DSum: Mat, mu: Str, T: seq<int>, prfKey: Str, hash: Str) returns (z: Vec)
      requires DimsOk(p) && SuiteOk(p, suite) && IsMat(p.r, DSum, p.M, p.Dbar + 1)
      requires |R| == p.N && (forall i :: 0 <= i < |R| ==> |R[i]| == p.Dbar + 1)
      requires SeedsOk(seeds, id, T) && |skShare| <= p.N
      modifies this`H, this`C
      ensures var u := ChallengeVector(p, suite, hash, mu);
              && |u| == p.Dbar + 1
              && H == RoundedCoeffs(p, MatVec(p.r, DSum, u))
              && C == suite.lowNorm(A, bTilde, H, mu)
              && var ins := Masks(suite, ColumnSeeds(seeds, id, T), prfKey, hash, mu);
              && var outs := Masks(suite, RowSeeds(seeds, id, T), prfKey, hash, mu);
              && AllLength(ins, p.N) && AllLength(outs, p.N)
              && (forall i :: 0 <= i < |T| ==> ins[i] == suite.prf(seeds[T[i]][id], prfKey, hash, mu))
              && (forall i :: 0 <= i < |T| ==> outs[i] == suite.prf(seeds[id][T[i]], prfKey, hash, mu))
              && u == [Const(p.r, 1)] + suite.gaussian(hash, mu)
              && z == Response(p, R, u, VSum(p.r, ins, p.N), WeightedShare(p, skShare, weight), C, VSum(p.r, outs, p.N))
    {
      var u := ChallengeVector(p, suite, hash, mu);
      var h := MatrixVectorMul(p.r, DSum, u);
      H := RoundedCoeffs(p, h);
      C := suite.lowNorm(A, bTilde, H, mu);
      var mask := SumMasks(p, suite, RowSeeds(seeds, id, T), prfKey, hash, mu);
      var maskPrime := SumMasks(p, suite, ColumnSeeds(seeds, id, T), prfKey, hash, mu);
      z := MatrixVectorMul(p.r, R, u);
      z := VectorAdd(p.r, z, maskPrime);
      var scl := VectorPolyMul(p.r, skShare, weight, p.N);
      scl := VectorPolyMul(p.r, scl, C, p.N);
      z := VectorAdd(p.r, z, scl);
      z := VectorSub(p.r, z, mask);
    }

    /** SignFinalize: the summed response and the difference between H and the verifier's vector. */
    method SignFinalize(zs: map<int, Vec>, A: Mat, bTilde: Vec) returns (c: Poly, zSum: Vec, delta: Vec)
      requires DimsOk(p) && IsMat(p.r, A, p.M, p.N) && IsWords(bTilde, p.M, p.r.n)
      requires |H| == p.M && forall j :: j in zs ==> |zs[j]| == p.N
      ensures c == C
      ensures AllLength(Values(zs), p.N) && zSum == VSum(p.r, Values(zs), p.N)
      ensures delta == VSub(NuRing(p), H, RoundedCoeffs(p, Residual(p, A, zSum, bTilde, C)))
    {
      zSum := SumResponses(p, zs);
      var az := MatrixVectorMul(p.r, A, zSum);
      var b := VApply(p.r, p.t.forward, RestoreVec(bTilde, Xi, p.r.n));
      var bc := VectorPolyMul(p.r, b, C, p.M);
      assert bc == VScale(p.r, b, C);
      var azbc := VectorSub(p.r, az, bc);
      delta := VectorSub(NuRing(p), H, RoundedCoeffs(p, azbc));
      c := C;
    }
  }

  method Commit(p: Params, A: Mat, n: Nonce) returns (D: Mat)
    requires DimsOk(p) && IsNonce(p, n) && IsMat(p.r, A, p.M, p.N)
    ensures D == Commitment(p, A, n)
  {
    hide Elem;
    var R, E := WithColumn(n.rStar, n.R), WithColumn(n.eStar, n.E);
    WithColumnIsMat(p.r, n.rStar, n.R, p.N, p.Dbar);
    WithColumnIsMat(p.r, n.eStar, n.E, p.M, p.Dbar);
    assert forall i :: 0 <= i < p.M ==> |A[i]| == p.N by { assert forall i :: 0 <= i < p.M ==> IsVec(p.r, A[i], p.N); }
    assert forall i :: 0 <= i < p.N ==> IsVec(p.r, R[i], p.Dbar + 1);
    var prod := MatrixMatrixMul(p.r, A, R, p.Dbar + 1);
    assert forall i :: 0 <= i < p.M ==> IsVec(p.r, E[i], p.Dbar + 1);
    assert forall i :: 0 <= i < p.M ==> IsVec(p.r, prod.value[i], p.Dbar + 1);
    var sum := MatrixAdd(p.r, E, prod.value);
    D := sum.value;
  }

  method MacAll(suite: Suite, id: int, keys: map<int, Str>, d: Mat, sid: int, T: seq<int>) returns (macs: map<int, Str>)
    ensures macs.Keys == Elements(T) - {id}
    ensures forall j :: j in macs ==> macs[j] == suite.mac(KeyFor(keys, j), id, d, sid, T)
  {
    macs := map[];
    for n := 0 to |T|
      invariant macs.Keys == Elements(T[..n]) - {id}
      invariant forall j :: j in macs ==> macs[j] == suite.mac(KeyFor(keys, j), id, d, sid, T)
    {
      assert T[..n + 1] == T[..n] + [T[n]];
      if T[n] != id {
        macs := macs[T[n] := suite.mac(KeyFor(keys, T[n]), id, d, sid, T)];
      }
    }
    assert T[..|T|] == T;
  }

  method CheckMacs(suite: Suite, id: int, keys: map<int, Str>, ds: map<int, Mat>, macs: map<int, map<int, Str>>, sid: int, T: seq<int>)
    returns (ok: bool)
    ensures ok <==> MacsMatch(suite, id, keys, ds, macs, sid, T)
    ensures ok <==> forall i :: 0 <= i < |T| && T[i] != id ==>
              (if T[i] in macs && id in macs[T[i]] then macs[T[i]][id] else []) ==
              suite.mac(if T[i] in keys then keys[T[i]] else [], T[i], if T[i] in ds then ds[T[i]] else [], sid, T)
  {
    for n := 0 to |T|
      invariant forall i :: 0 <= i < n && T[i] != id ==>
                  MacFor(macs, T[i], id) == suite.mac(KeyFor(keys, T[i]), T[i], MatrixFor(ds, T[i]), sid, T)
    {
      if T[n] != id && MacFor(macs, T[n], id) != suite.mac(KeyFor(keys, T[n]), T[n], MatrixFor(ds, T[n]), sid, T) {
        return false;
      }
    }
    return true;
  }

  /** The commitments of the signers, summed in the order of T; None when one is missing or misshapen. */
  method SumCommitments(p: Params, ds: map<int, Mat>, T: seq<int>) returns (sum: Option<Mat>)
    requires DimsOk(p) && forall j :: j in ds ==> RectMat(p.r, ds[j])
    ensures sum.Some? <==> AllPresent(p, ds, T)
    ensures sum.Some? ==> AllShape(InOrder(ds, T), p.M, p.Dbar + 1)
    ensures sum.Some? ==> sum.value == MSum(p.r, InOrder(ds, T), p.M, p.Dbar + 1)
  {
    hide Elem, MSum, InOrder, AllShape, RectMat, AllPresent;
    var acc := MZero(p.r, p.M, p.Dbar + 1);
    SumOfNone(p, ds, T);
    for n := 0 to |T|
      invariant AllPresent(p, ds, T[..n])
      invariant AllShape(InOrder(ds, T[..n]), p.M, p.Dbar + 1)
      invariant acc == MSum(p.r, InOrder(ds, T[..n]), p.M, p.Dbar + 1)
    {
      var j := T[n];
      if j !in ds {
        PresentAt(p, ds, T, n);
        return None;
      }
      var d := ds[j];
      MatShape(p.r, d);
      assert forall i :: 0 <= i < p.M ==> IsVec(p.r, acc[i], p.Dbar + 1);
      var next := MatrixAdd(p.r, d, acc);
      PresentAt(p, ds, T, n);
      if next.None? {
        return None;
      }
      CommitmentSnoc(p, ds, T, n);
      acc := next.value;
    }
    assert T[..|T|] == T;
    return Some(acc);
  }

  lemma SumOfNone(p: Params, ds: map<int, Mat>, T: seq<int>)
    ensures AllPresent(p, ds, T[..0]) && AllShape(InOrder(ds, T[..0]), p.M, p.Dbar + 1)
    ensures MSum(p.r, InOrder(ds, T[..0]), p.M, p.Dbar + 1) == MZero(p.r, p.M, p.Dbar + 1)
  {
  }

  lemma MatShape(r: Ring, d: Mat)
    requires RectMat(r, d)
    ensures forall i :: 0 <= i < |d| ==> |d[i]| == |d[0]|
  {
    hide Elem;
    assert forall i :: 0 <= i < |d| ==> IsVec(r, d[i], |d[0]|);
  }

  lemma PresentAt(p: Params, ds: map<int, Mat>, T: seq<int>, n: nat)
    requires n < |T|
    ensures AllPresent(p, ds, T) ==> T[n] in ds && |ds[T[n]]| == p.M && p.M > 0 && |ds[T[n]][0]| == p.Dbar + 1
  {
  }

  /** One more present commitment. */
  lemma CommitmentSnoc(p: Params, ds: map<int, Mat>, T: seq<int>, n: nat)
    requires n < |T| && AllPresent(p, ds, T[..n]) && forall j :: j in ds ==> RectMat(p.r, ds[j])
    requires T[n] in ds && |ds[T[n]]| == p.M > 0 && |ds[T[n]][0]| == p.Dbar + 1
    ensures AllPresent(p, ds, T[..n + 1])
    ensures AllShape(InOrder(ds, T[..n]), p.M, p.Dbar + 1) && AllShape(InOrder(ds, T[..n + 1]), p.M, p.Dbar + 1)
    ensures (forall i :: 0 <= i < |ds[T[n]]| ==> |ds[T[n]][i]| == p.Dbar + 1)
    ensures MSum(p.r, InOrder(ds, T[..n + 1]), p.M, p.Dbar + 1) ==
            MatAdd(p.r, ds[T[n]], MSum(p.r, InOrder(ds, T[..n]), p.M, p.Dbar + 1), p.Dbar + 1)
  {
    hide Elem, MatAdd;
    assert T[..n + 1] == T[..n] + [T[n]];
    InOrderShape(p, ds, T[..n]);
    InOrderShape(p, ds, T[..n + 1]);
    var ms := InOrder(ds, T[..n + 1]);
    assert ms[..n] == InOrder(ds, T[..n]) && ms[n] == ds[T[n]];
    assert |ms[n]| == p.M && forall i :: 0 <= i < p.M ==> |ms[n][i]| == p.Dbar + 1;
  }

  lemma PolyMatrixOf(p: Params, D: Mat)
    requires IsMat(p.r, D, p.M, p.Dbar + 1)
    ensures Rank.IsPolyMatrix(D, p.Dbar + 1, p.r.n)
  {
    forall i | 0 <= i < |D| ensures |D[i]| == p.Dbar + 1 && forall c :: 0 <= c < p.Dbar + 1 ==> |D[i][c]| == p.r.n {
      assert IsVec(p.r, D[i], p.Dbar + 1);
      forall c | 0 <= c < p.Dbar + 1 ensures |D[i][c]| == p.r.n {
        assert Elem(p.r, D[i][c]);
      }
    }
  }

  /** The entries of a map in ascending order of key. */
  ghost function Values(zs: map<int, Vec>): (vs: seq<Vec>)
    ensures |vs| == |zs|
  {
    var ids := Enumerate(zs.Keys);
    seq(|ids|, i requires 0 <= i < |ids| => assert ids[i] in Elements(ids); zs[ids[i]])
  }

  /** Go ranges over the responses in an arbitrary order; the sum does not depend on it. */
  method SumResponses(p: Params, zs: map<int, Vec>) returns (sum: Vec)
    requires forall j :: j in zs ==> |zs[j]| == p.N
    ensures AllLength(Values(zs), p.N)
    ensures sum == VSum(p.r, Values(zs), p.N)
  {
    var keys := MapKeys(zs);
    assert forall x :: x in keys ==> x in Elements(keys);
    ghost var all := Image(zs, keys);
    assert AllLength(all, p.N) by {
      forall i | 0 <= i < |all| ensures |all[i]| == p.N {
        assert keys[i] in keys;
      }
    }
    sum := VZero(p.r, p.N);
    for n := 0 to |keys|
      invariant sum == VSum(p.r, all[..n], p.N)
    {
      assert all[..n + 1][..n] == all[..n];
      assert keys[n] in keys;
      sum := VectorAdd(p.r, sum, zs[keys[n]]);
    }
    assert all[..|keys|] == all;
    SumOrder(p, zs, keys);
  }

  lemma SumOrder(p: Params, zs: map<int, Vec>, keys: seq<int>)
    requires (forall j :: j in zs ==> |zs[j]| == p.N) && NoDuplicates(keys) && Elements(keys) == zs.Keys && |keys| == |zs|
    requires (forall x :: x in keys ==> x in zs) && AllLength(Image(zs, keys), p.N)
    ensures AllLength(Values(zs), p.N)
    ensures VSum(p.r, Image(zs, keys), p.N) == VSum(p.r, Values(zs), p.N)
  {
    var ids := Enumerate(zs.Keys);
    assert forall x :: x in ids <==> x in Elements(ids);
    assert forall x :: x in keys <==> x in Elements(keys);
    assert Values(zs) == Image(zs, ids);
    forall i | 0 <= i < |ids| ensures |Values(zs)[i]| == p.N {
      assert ids[i] in ids;
    }
    VSumOrder(p.r, zs, keys, ids, p.N);
  }
}
