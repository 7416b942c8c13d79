/** The dealerless public key: every party publishes A (lambda_j s_j) + e_j', and their sum is rounded. */
module Pedersen {
  import opened Zq
  import opened Polynomials
  import opened Rq
  import opened Transform
  import opened Rounding
  import opened SignAlgebra
  import opened SignRounding
  import opened VectorOps
  import opened Reshare
  import opened Protocol
  import opened Committee

  /** lambda_j s_j in the transform domain. */
  ghost function ScaledShares(p: Params, std: seq<Vec>, w: seq<int>): (vs: seq<Vec>)
    requires |w| == |std| && AllLength(std, p.N)
    ensures |vs| == |std| && AllLength(vs, p.N)
  {
    seq(|std|, j requires 0 <= j < |std| => VScale(p.r, VApply(p.r, p.t.forward, std[j]), Const(p.r, w[j])))
  }

  /** The scaled shares of the whole committee sum to the secret. */
  lemma ScaledSum(p: Params, std: seq<Vec>, w: seq<int>, s: Vec)
    requires Recovers(p.r, w, std, s, p.N)
    ensures VSum(p.r, ScaledShares(p, std, w), p.N) == VApply(p.r, p.t.forward, s)
  {
    hide Cong, Apply, Mul, PSum;
    var vs := ScaledShares(p, std, w);
    forall v | 0 <= v < p.N ensures VSum(p.r, vs, p.N)[v] == VApply(p.r, p.t.forward, s)[v] {
      VSumCoord(p.r, vs, p.N, v);
      WeightedSum(p.r, p.t, w, Coord(std, v), s[v], Coord(vs, v));
    }
  }

  ghost predicate AreBetas(p: Params, A: Mat, betas: seq<Vec>, std: seq<Vec>, w: seq<int>, noises: seq<Vec>)
    requires |A| == p.M && forall i :: 0 <= i < |A| ==> |A[i]| == p.N
    requires |w| == |std| && AllLength(std, p.N) && AllLength(noises, p.M) && |noises| == |std|
  {
    |betas| == |std| && forall j :: 0 <= j < |betas| ==> betas[j] == VAdd(p.r, MatVec(p.r, A, ScaledShares(p, std, w)[j]), noises[j])
  }

  /** The contributions sum to A s + (sum of e_j'), whatever the threshold. */
  lemma BetaSum(p: Params, A: Mat, betas: seq<Vec>, std: seq<Vec>, w: seq<int>, s: Vec, noises: seq<Vec>)
    requires |A| == p.M && forall i :: 0 <= i < |A| ==> |A[i]| == p.N
    requires Recovers(p.r, w, std, s, p.N) && AllLength(noises, p.M) && |noises| == |std|
    requires AreBetas(p, A, betas, std, w, noises)
    ensures AllLength(betas, p.M)
    ensures VSum(p.r, betas, p.M) == VAdd(p.r, MatVec(p.r, A, VApply(p.r, p.t.forward, s)), VSum(p.r, noises, p.M))
  {
    hide Elem, VAdd, MatVec, VSum, VApply, Cong;
    var rs := ScaledShares(p, std, w);
    var ars := seq(|rs|, i requires 0 <= i < |rs| => MatVec(p.r, A, rs[i]));
    ScaledSum(p, std, w, s);
    MatVecSum(p.r, A, rs, ars, p.N);
    VSumAdd(p.r, ars, noises, betas, p.M);
  }

  /** The loop of finishPedersenContribs: scale, multiply, flood with noise, accumulate. */
  method SumBetas(p: Params, A: Mat, std: seq<Vec>, w: seq<int>, noises: seq<Vec>) returns (bSum: Vec, betas: seq<Vec>)
    requires IsTransform(p.r, p.t) && |A| == p.M && forall i :: 0 <= i < |A| ==> |A[i]| == p.N
    requires |w| == |std| == |noises| && AllLength(std, p.N) && AllLength(noises, p.M)
    ensures AreBetas(p, A, betas, std, w, noises) && AllLength(betas, p.M) && bSum == VSum(p.r, betas, p.M)
  {
    hide IsTransform, Elem, VAdd, MatVec, VScale, Apply, Const, Monomial;
    bSum := VZero(p.r, p.M);
    betas := [];
    for j := 0 to |std|
      invariant |betas| == j && AllLength(betas, p.M) && bSum == VSum(p.r, betas, p.M)
      invariant forall i :: 0 <= i < j ==> betas[i] == VAdd(p.r, MatVec(p.r, A, ScaledShares(p, std, w)[i]), noises[i])
    {
      var weight := Apply(p.r, p.t.forward, Monomial(p.r, w[j]));
      ApplyMonomial(p.r, p.t, w[j]);
      var scaled := VectorPolyMul(p.r, VApply(p.r, p.t.forward, std[j]), weight, p.N);
      assert scaled == ScaledShares(p, std, w)[j];
      var product := MatrixVectorMul(p.r, A, scaled);
      var beta := VectorAdd(p.r, product, noises[j]);
      assert (betas + [beta])[..j] == betas;
      bSum := VectorAdd(p.r, bSum, beta);
      betas := betas + [beta];
    }
  }

  /** Back to coefficients and rounded by Xi. */
  method RoundKey(p: Params, b: Vec) returns (bTilde: Vec)
    requires p.r.q == Q && |b| == p.M
    ensures var c := VApply(p.r, p.t.inverse, b); IsWords(c, |c|, p.r.n) && bTilde == RoundVec(c, Xi, p.r.n)
    ensures IsRounded(bTilde, p.M, p.r.n, Xi)
  {
    var c := VApply(p.r, p.t.inverse, b);
    ElementsAreWords(p, c);
    bTilde := RoundVec(c, Xi, p.r.n);
    forall i | 0 <= i < p.M ensures |bTilde[i]| == p.r.n && forall j :: 0 <= j < p.r.n ==> 0 <= bTilde[i][j] <= Modulus(Xi) {
      RoundedRow(p.r, c[i], bTilde[i]);
    }
  }

  lemma RoundedRow(r: Ring, a: Poly, h: Poly)
    requires r.q == Q && Elem(r, a) && (forall j :: 0 <= j < |a| ==> 0 <= a[j] < WORD) && h == RoundPoly(a, Xi)
    ensures |h| == r.n && forall j :: 0 <= j < r.n ==> 0 <= h[j] <= Modulus(Xi)
  {
    forall j | 0 <= j < r.n ensures 0 <= h[j] <= Modulus(Xi) {
      RoundRange(a[j], Xi);
    }
  }

  /** The dealerless key is a key of the shared secret, with the summed noise, for every committee size and
      threshold: the n-point weights recover a secret shared with any degree below n. */
  method AggregateKey(p: Params, A: Mat, shares: map<int, Share>, ghost t: nat, ghost secret: Share, n: nat, w: seq<int>, noises: seq<Vec>)
    returns (bTilde: Vec)
    requires Standard(p) && Prime(p.r.q) && IsMat(p.r, A, p.M, p.N)
    requires IsSharing(shares, t, secret, p.N, p.r.n, p.r.q) && Reduced(secret, p.r.q) && t <= n < p.r.q
    requires (forall i :: 1 <= i <= n ==> i in shares) && |w| == n && IsWeights(Points(n), w, p.r.q)
    requires |noises| == n && AllLength(noises, p.M)
    ensures exists b :: IsKey(p, A, VApply(p.r, p.t.forward, secret), VSum(p.r, noises, p.M), b, bTilde)
  {
    hide IsTransform, Elem, IsSharing, IsWeights, VAdd, MatVec, VSum, VApply, Recovers, RoundVec;
    SharingRecovers(p.r, shares, t, secret, n, w, p.N);
    var std: seq<Vec> := seq(n, i requires 0 <= i < n => shares[i + 1]);
    assert std == InOrderOfPoint(shares, n);
    assert forall i :: 0 <= i < |A| ==> IsVec(p.r, A[i], p.N);
    RecoversLength(p.r, w, std, secret, p.N);
    var bSum, betas := SumBetas(p, A, std, w, noises);
    BetaSum(p, A, betas, std, w, secret, noises);
    bTilde := RoundKey(p, bSum);
    assert IsKey(p, A, VApply(p.r, p.t.forward, secret), VSum(p.r, noises, p.M), bSum, bTilde);
  }

  lemma RecoversLength(r: Ring, w: seq<int>, std: seq<Vec>, s: Vec, N: nat)
    requires Recovers(r, w, std, s, N)
    ensures AllLength(std, N) && |s| == N
  {
  }
}
