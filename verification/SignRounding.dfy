/** Rounded vectors in signing: the commitment H, the vector a verifier recomputes, the published
    difference Delta, and the norm check. */
module SignRounding {
  import opened Zq
  import opened Polynomials
  import opened Rq
  import opened Transform
  import opened Rounding
  import opened SignAlgebra

  const B_SQUARE := 184960669042442604975662780477

  /** The ring of the rounded commitment: the same dimension, modulus QNu. */
  function NuRing(p: Params): Ring {
    RingData(p.r.n, QNu)
  }

  ghost predicate IsWords(v: Vec, len: nat, n: nat) {
    |v| == len && forall i :: 0 <= i < len ==> |v[i]| == n && forall k :: 0 <= k < n ==> 0 <= v[i][k] < WORD
  }

  /** Every coefficient is a value rounding can produce. */
  ghost predicate IsRounded(v: Vec, len: nat, n: nat, k: int)
    requires IsShift(k)
  {
    IsWords(v, len, n) && forall i, j :: 0 <= i < len && 0 <= j < n ==> v[i][j] <= Modulus(k)
  }

  function RoundPoly(a: Poly, k: int): (b: Poly)
    requires IsShift(k) && forall j :: 0 <= j < |a| ==> 0 <= a[j] < WORD
    ensures |b| == |a|
  {
    seq(|a|, j requires 0 <= j < |a| => Round(a[j], k))
  }

  function RestorePoly(a: Poly, k: int): (b: Poly)
    requires IsShift(k) && forall j :: 0 <= j < |a| ==> 0 <= a[j] < WORD
    ensures |b| == |a| && forall j :: 0 <= j < |b| ==> 0 <= b[j] < WORD
  {
    seq(|a|, j requires 0 <= j < |a| => Restore(a[j], k))
  }

  /** RoundVector. */
  function RoundVec(v: Vec, k: int, ghost n: nat): (w: Vec)
    requires IsShift(k) && IsWords(v, |v|, n)
    ensures |w| == |v| && forall i, j :: 0 <= i < |v| && 0 <= j < n ==> |w[i]| == n && w[i][j] == Round(v[i][j], k)
  {
    seq(|v|, i requires 0 <= i < |v| => RoundPoly(v[i], k))
  }

  /** RestoreVector. */
  function RestoreVec(v: Vec, k: int, ghost n: nat): (w: Vec)
    requires IsShift(k) && IsWords(v, |v|, n)
    ensures IsWords(w, |v|, n) && forall i, j :: 0 <= i < |v| && 0 <= j < n ==> w[i][j] == Restore(v[i][j], k)
  {
    seq(|v|, i requires 0 <= i < |v| => RestorePoly(v[i], k))
  }

  lemma ElementsAreWords(p: Params, v: Vec)
    requires p.r.q == Q && IsVec(p.r, v, |v|)
    ensures IsWords(v, |v|, p.r.n)
  {
    forall i | 0 <= i < |v| ensures |v[i]| == p.r.n && forall k :: 0 <= k < p.r.n ==> 0 <= v[i][k] < WORD {
      assert Elem(p.r, v[i]);
    }
  }

  /** Back to coefficients, then rounded by Nu: how both H and the verifier's vector arise. */
  function RoundedCoeffs(p: Params, w: Vec): (h: Vec)
    requires p.r.q == Q
    ensures IsRounded(h, |w|, p.r.n, Nu)
  {
    var c := VApply(p.r, p.t.inverse, w);
    ElementsAreWords(p, c);
    RoundedCoeffsRange(p, c);
    RoundVec(c, Nu, p.r.n)
  }

  lemma RoundedCoeffsRange(p: Params, c: Vec)
    requires p.r.q == Q && IsVec(p.r, c, |c|) && IsWords(c, |c|, p.r.n)
    ensures IsRounded(RoundVec(c, Nu, p.r.n), |c|, p.r.n, Nu)
  {
    var h := RoundVec(c, Nu, p.r.n);
    forall i | 0 <= i < |h| ensures |h[i]| == p.r.n && forall j :: 0 <= j < p.r.n ==> 0 <= h[i][j] <= Modulus(Nu) {
      assert |h[i]| == |c[i]|;
      forall j | 0 <= j < p.r.n ensures 0 <= h[i][j] <= Modulus(Nu) {
        assert Elem(p.r, c[i]);
        RoundRange(c[i][j], Nu);
      }
    }
  }

  /** The public key as restored from its rounded form, in the transform domain. */
  function RestoredKey(p: Params, bTilde: Vec): (b: Vec)
    requires IsWords(bTilde, |bTilde|, p.r.n)
    ensures IsVec(p.r, b, |bTilde|)
  {
    VApply(p.r, p.t.forward, RestoreVec(bTilde, Xi, p.r.n))
  }

  /** A z - Restore(bTilde) c in the transform domain. */
  function Residual(p: Params, A: Mat, z: Vec, bTilde: Vec, c: Poly): (w: Vec)
    requires IsWords(bTilde, |A|, p.r.n) && forall i :: 0 <= i < |A| ==> |A[i]| <= |z|
    ensures IsVec(p.r, w, |A|)
  {
    VSub(p.r, MatVec(p.r, A, z), VScale(p.r, RestoredKey(p, bTilde), c))
  }

  // ----- Finalize against Verify ---------------------------------------------------

  ghost predicate BelowNu(h: Vec) {
    forall i, j :: 0 <= i < |h| && 0 <= j < |h[i]| ==> h[i][j] < QNu
  }

  /** Adding the published difference back gives H exactly when no coefficient of H is at the top. */
  lemma RecomputedIsH(p: Params, h: Vec, w: Vec)
    requires IsRounded(h, |h|, p.r.n, Nu) && |w| == |h|
    ensures VAdd(NuRing(p), w, VSub(NuRing(p), h, w)) == h <==> BelowNu(h)
  {
    var nu := NuRing(p);
    var back := VAdd(nu, w, VSub(nu, h, w));
    if BelowNu(h) {
      forall i | 0 <= i < |h| ensures back[i] == h[i] {
        assert Elem(nu, h[i]);
        SubThenAdd(nu, h[i], w[i]);
        AddComm(nu, w[i], Sub(nu, h[i], w[i]));
      }
    } else {
      var i, j :| 0 <= i < |h| && 0 <= j < |h[i]| && h[i][j] >= QNu;
      assert Elem(nu, back[i]);
    }
  }

  /** A rounded vector stays below QNu exactly when every coefficient is below 2^48 - 2^28. */
  lemma BelowNuIff(p: Params, w: Vec)
    requires p.r.q == Q
    ensures BelowNu(RoundedCoeffs(p, w)) <==>
            forall i, j :: 0 <= i < |w| && 0 <= j < p.r.n ==> Apply(p.r, p.t.inverse, w[i])[j] < 0x1000000000000 - 0x10000000
  {
    var h := RoundedCoeffs(p, w);
    forall i, j | 0 <= i < |w| && 0 <= j < p.r.n
      ensures |h[i]| == p.r.n && (h[i][j] < QNu <==> Apply(p.r, p.t.inverse, w[i])[j] < 0x1000000000000 - 0x10000000)
    {
      RoundedCoefficient(p, w, i, j);
    }
  }

  lemma RoundedCoefficient(p: Params, w: Vec, i: nat, j: nat)
    requires p.r.q == Q && i < |w| && j < p.r.n
    ensures |RoundedCoeffs(p, w)[i]| == p.r.n
    ensures RoundedCoeffs(p, w)[i][j] < QNu <==> Apply(p.r, p.t.inverse, w[i])[j] < 0x1000000000000 - 0x10000000
  {
    hide Apply;
    var c := VApply(p.r, p.t.inverse, w);
    ElementsAreWords(p, c);
    assert Elem(p.r, c[i]);
    RoundRange(c[i][j], Nu);
  }

  /** Such a vector exists in every dimension: all coefficients zero but the constant ones, which are Q - 1. */
  lemma TopVector(p: Params, len: nat) returns (w: Vec)
    requires Standard(p) && p.r.n >= 1 && len >= 1
    ensures IsVec(p.r, w, len) && Apply(p.r, p.t.inverse, w[0])[0] == Q - 1 && !BelowNu(RoundedCoeffs(p, w))
  {
    hide RoundedCoeffs, Apply, BelowNu;
    var top := Monomial(p.r, Q - 1);
    w := seq(len, _ => Apply(p.r, p.t.forward, top));
    ModUnique(Q - 1, 0, Q - 1, Q);
    assert Apply(p.r, p.t.inverse, w[0])[0] == Q - 1;
    BelowNuIff(p, w);
  }

  // ----- the rounding error of the public key --------------------------------------

  /** The centred size of a residue modulo Q. */
  function CircNorm(x: int): int {
    if x <= Q - x then x else Q - x
  }

  lemma CircNormOfDifference(x: int, y: int)
    requires 0 <= x < Q && 0 <= y < Q
    ensures CircNorm((y - x) % Q) <= Abs(y - x)
  {
  }

  /** eps: what restoring the rounded key adds to it. */
  ghost function KeyError(p: Params, b: Vec, bTilde: Vec): (eps: Vec)
    requires IsRounded(bTilde, |b|, p.r.n, Xi)
    ensures IsVec(p.r, eps, |b|)
  {
    VSub(p.r, RestoredKey(p, bTilde), b)
  }

  /** With bTilde the rounding of b, the restored key is b + eps and every coefficient of eps is at most
      2^29 in absolute value. */
  lemma KeyErrorBound(p: Params, b: Vec, bTilde: Vec)
    requires Standard(p) && IsVec(p.r, b, |b|) && IsRounded(bTilde, |b|, p.r.n, Xi)
    requires var c := VApply(p.r, p.t.inverse, b); IsWords(c, |c|, p.r.n) && bTilde == RoundVec(c, Xi, p.r.n)
    ensures RestoredKey(p, bTilde) == VAdd(p.r, b, KeyError(p, b, bTilde))
    ensures forall i, j :: 0 <= i < |b| && 0 <= j < p.r.n ==>
              CircNorm(Apply(p.r, p.t.inverse, KeyError(p, b, bTilde)[i])[j]) <= 0x20000000
  {
    var r := p.r;
    var eps := KeyError(p, b, bTilde);
    var rest := RestoredKey(p, bTilde);
    forall i | 0 <= i < |b| ensures rest[i] == VAdd(r, b, eps)[i] {
      SubThenAdd(r, rest[i], b[i]);
      AddComm(r, b[i], Sub(r, rest[i], b[i]));
    }
    forall i, j | 0 <= i < |b| && 0 <= j < r.n ensures CircNorm(Apply(r, p.t.inverse, eps[i])[j]) <= 0x20000000 {
      KeyErrorSlot(p, b, bTilde, i, j);
    }
  }

  lemma KeyErrorSlot(p: Params, b: Vec, bTilde: Vec, i: nat, j: nat)
    requires Standard(p) && IsVec(p.r, b, |b|) && IsRounded(bTilde, |b|, p.r.n, Xi) && i < |b| && j < p.r.n
    requires var c := VApply(p.r, p.t.inverse, b); IsWords(c, |c|, p.r.n) && bTilde == RoundVec(c, Xi, p.r.n)
    ensures CircNorm(Apply(p.r, p.t.inverse, KeyError(p, b, bTilde)[i])[j]) <= 0x20000000
  {
    var restored := RestoreVec(bTilde, Xi, p.r.n);
    var c := VApply(p.r, p.t.inverse, b);
    assert c[i] == Apply(p.r, p.t.inverse, b[i]);
    KeyErrorPoly(p, b[i], restored[i], j);
  }

  lemma KeyErrorPoly(p: Params, b: Poly, restored: Poly, j: nat)
    requires Standard(p) && |restored| == p.r.n && j < p.r.n
    requires forall k :: 0 <= k < p.r.n ==> restored[k] == Restore(Round(Apply(p.r, p.t.inverse, b)[k], Xi), Xi)
    ensures CircNorm(Apply(p.r, p.t.inverse, Sub(p.r, Apply(p.r, p.t.forward, restored), b))[j]) <= 0x20000000
  {
    hide Apply;
    var r := p.r;
    var c := Apply(r, p.t.inverse, b);
    forall k | 0 <= k < r.n ensures 0 <= restored[k] < Q {
      RestoreClose(c[k], Xi);
    }
    assert Elem(r, restored);
    ApplySub(r, p.t.inverse, Apply(r, p.t.forward, restored), b);
    RestoreClose(c[j], Xi);
    CircNormOfDifference(c[j], restored[j]);
  }

  // ----- how far Delta can be from zero --------------------------------------------

  lemma CircDistOfDifference(x: int, e: int)
    requires 0 <= x < Q && 0 <= e < Q
    ensures 0 <= (x - e) % Q < Q && CircDist(x, (x - e) % Q, Q) == CircNorm(e)
  {
  }

  /** If the residual is w - noise, each coefficient of H and of the verifier's vector differ, around the
      circle of size QNu, by at most the centred noise coefficient divided by 2^29, rounded up. */
  lemma DeltaBound(p: Params, w: Vec, noise: Vec, residual: Vec, i: nat, j: nat)
    requires p.r.q == Q && |w| == |noise| == |residual| && i < |w| && j < p.r.n
    requires residual == VSub(p.r, w, noise)
    ensures CircDist(RoundedCoeffs(p, w)[i][j], RoundedCoeffs(p, residual)[i][j], QNu) <=
            CeilDiv(CircNorm(Apply(p.r, p.t.inverse, noise[i])[j]), 0x20000000)
  {
    var r := p.r;
    ApplySub(r, p.t.inverse, w[i], noise[i]);
    var x, e := Apply(r, p.t.inverse, w[i])[j], Apply(r, p.t.inverse, noise[i])[j];
    assert Apply(r, p.t.inverse, residual[i])[j] == (x - e) % Q;
    CircDistOfDifference(x, e);
    RoundLipschitz(x, (x - e) % Q, Nu);
  }

  // ----- the norm check ------------------------------------------------------------

  /** The value CheckL2Norm squares: the coefficient, moved below zero when it exceeds q/2. */
  function Centered(x: int): int {
    if x > Q / 2 then x - Q else x
  }

  /** The sum of min(x, q - x)^2 over the coefficients. */
  ghost function PolySquares(a: Poly): int {
    if a == [] then 0 else PolySquares(a[..|a| - 1]) + CircNorm(a[|a| - 1]) * CircNorm(a[|a| - 1])
  }

  ghost function VecSquares(v: Vec): int {
    if v == [] then 0 else VecSquares(v[..|v| - 1]) + PolySquares(v[|v| - 1])
  }

  /** Its square is that of the distance to zero on the circle. */
  lemma CenteredIsCircNorm(x: int)
    ensures Centered(x) * Centered(x) == CircNorm(x) * CircNorm(x)
  {
  }

  method AddSquares(v: Vec, start: int) returns (sum: int)
    ensures sum == start + VecSquares(v)
  {
    sum := start;
    for i := 0 to |v|
      invariant sum == start + VecSquares(v[..i])
    {
      var a := v[i];
      ghost var before := sum;
      for j := 0 to |a|
        invariant sum == before + PolySquares(a[..j])
      {
        assert a[..j + 1][..j] == a[..j];
        var c := Centered(a[j]);
        CenteredIsCircNorm(a[j]);
        sum := sum + c * c;
      }
      assert a[..|a|] == a;
      assert v[..i + 1][..i] == v[..i];
    }
    assert v[..|v|] == v;
  }

  ghost predicate NormOk(delta: Vec, z: Vec) {
    VecSquares(delta) + VecSquares(z) <= B_SQUARE
  }

  /** Coefficient by coefficient: the sum of the squared distances to zero over both vectors is within the bound. */
  lemma NormIff(delta: Vec, z: Vec)
    ensures NormOk(delta, z) <==> SquareSum(delta) + SquareSum(z) <= B_SQUARE
  {
    SquareSumIs(delta);
    SquareSumIs(z);
  }

  ghost function SquareSum(v: Vec): int {
    Total(seq(|v|, i requires 0 <= i < |v| =>
      Total(seq(|v[i]|, j requires 0 <= j < |v[i]| => CircNorm(v[i][j]) * CircNorm(v[i][j])))))
  }

  lemma {:induction false} PolySquaresIs(a: Poly)
    ensures PolySquares(a) == Total(seq(|a|, j requires 0 <= j < |a| => CircNorm(a[j]) * CircNorm(a[j])))
  {
    hide CircNorm;
    if a != [] {
      var n := |a| - 1;
      PolySquaresIs(a[..n]);
      var terms := seq(|a|, j requires 0 <= j < |a| => CircNorm(a[j]) * CircNorm(a[j]));
      assert terms[..n] == seq(n, j requires 0 <= j < n => CircNorm(a[..n][j]) * CircNorm(a[..n][j]));
    }
  }

  lemma {:induction false} SquareSumIs(v: Vec)
    ensures VecSquares(v) == SquareSum(v)
  {
    hide CircNorm, PolySquares;
    if v != [] {
      var n := |v| - 1;
      SquareSumIs(v[..n]);
      PolySquaresIs(v[n]);
      var terms := seq(|v|, i requires 0 <= i < |v| =>
        Total(seq(|v[i]|, j requires 0 <= j < |v[i]| => CircNorm(v[i][j]) * CircNorm(v[i][j]))));
      var low := seq(n, i requires 0 <= i < n =>
        Total(seq(|v[..n][i]|, j requires 0 <= j < |v[..n][i]| => CircNorm(v[..n][i][j]) * CircNorm(v[..n][i][j]))));
      forall i | 0 <= i < n ensures terms[..n][i] == low[i] {
        assert seq(|v[i]|, j requires 0 <= j < |v[i]| => CircNorm(v[i][j]) * CircNorm(v[i][j])) ==
               seq(|v[..n][i]|, j requires 0 <= j < |v[..n][i]| => CircNorm(v[..n][i][j]) * CircNorm(v[..n][i][j]));
      }
      assert terms[..n] == low;
    }
  }

  /** CheckL2Norm. */
  method CheckL2Norm(delta: Vec, z: Vec) returns (ok: bool)
    ensures ok <==> NormOk(delta, z)
    ensures ok <==> SquareSum(delta) + SquareSum(z) <= B_SQUARE
  {
    hide SquareSum;
    var sum := AddSquares(delta, 0);
    sum := AddSquares(z, sum);
    ok := sum <= B_SQUARE;
    NormIff(delta, z);
  }
}
