/** One honest run of two-round signing, end to end. */
module Protocol {
  import opened Zq
  import opened Sorting
  import opened Rq
  import opened Transform
  import opened Rounding
  import opened SignAlgebra
  import opened SignRounding
  import opened Sign

  /** What the signers hold: position a belongs to party T[a]. */
  datatype Session = Session(
    A: Mat, T: seq<int>, nonces: seq<Nonce>, shares: seq<Vec>, lambdas: seq<Poly>,
    seeds: map<int, seq<Str>>, prfKey: Str, hash: Str, mu: Str)

  ghost predicate SessionOk(p: Params, suite: Suite, x: Session) {
    && DimsOk(p) && SuiteOk(p, suite) && IsMat(p.r, x.A, p.M, p.N)
    && |x.nonces| == |x.shares| == |x.lambdas| == |x.T|
    && forall a :: 0 <= a < |x.T| ==> IsNonce(p, x.nonces[a]) && |x.shares[a]| <= p.N && SeedsOk(x.seeds, x.T[a], x.T)
  }

  ghost function Rs(p: Params, suite: Suite, x: Session): (ms: seq<Mat>)
    requires SessionOk(p, suite, x)
    ensures |ms| == |x.T| && AllShape(ms, p.N, p.Dbar + 1)
  {
    NonceShapes(p, suite, x);
    seq(|x.T|, a requires 0 <= a < |x.T| => assert IsNonce(p, x.nonces[a]); WithColumn(x.nonces[a].rStar, x.nonces[a].R))
  }

  ghost function Es(p: Params, suite: Suite, x: Session): (ms: seq<Mat>)
    requires SessionOk(p, suite, x)
    ensures |ms| == |x.T| && AllShape(ms, p.M, p.Dbar + 1)
  {
    NonceShapes(p, suite, x);
    seq(|x.T|, a requires 0 <= a < |x.T| => assert IsNonce(p, x.nonces[a]); WithColumn(x.nonces[a].eStar, x.nonces[a].E))
  }

  ghost function Ds(p: Params, suite: Suite, x: Session): (ms: seq<Mat>)
    requires SessionOk(p, suite, x)
    ensures |ms| == |x.T| && AllShape(ms, p.M, p.Dbar + 1)
  {
    CommitmentShape(p, suite, x);
    seq(|x.T|, a requires 0 <= a < |x.T| => assert IsNonce(p, x.nonces[a]); Commitment(p, x.A, x.nonces[a]))
  }

  lemma NonceShapes(p: Params, suite: Suite, x: Session)
    requires SessionOk(p, suite, x)
    ensures forall a :: 0 <= a < |x.T| ==>
              && IsNonce(p, x.nonces[a])
              && (var R := WithColumn(x.nonces[a].rStar, x.nonces[a].R); |R| == p.N && forall j :: 0 <= j < p.N ==> |R[j]| == p.Dbar + 1)
              && (var E := WithColumn(x.nonces[a].eStar, x.nonces[a].E); |E| == p.M && forall j :: 0 <= j < p.M ==> |E[j]| == p.Dbar + 1)
  {
    hide Elem, SuiteOk, SeedsOk;
    forall a | 0 <= a < |x.T|
      ensures IsNonce(p, x.nonces[a])
      ensures var R := WithColumn(x.nonces[a].rStar, x.nonces[a].R); |R| == p.N && forall j :: 0 <= j < p.N ==> |R[j]| == p.Dbar + 1
      ensures var E := WithColumn(x.nonces[a].eStar, x.nonces[a].E); |E| == p.M && forall j :: 0 <= j < p.M ==> |E[j]| == p.Dbar + 1
    {
      var n := x.nonces[a];
      assert IsNonce(p, n);
      WithColumnIsMat(p.r, n.rStar, n.R, p.N, p.Dbar);
      WithColumnIsMat(p.r, n.eStar, n.E, p.M, p.Dbar);
      assert forall j :: 0 <= j < p.N ==> IsVec(p.r, WithColumn(n.rStar, n.R)[j], p.Dbar + 1);
      assert forall j :: 0 <= j < p.M ==> IsVec(p.r, WithColumn(n.eStar, n.E)[j], p.Dbar + 1);
    }
  }

  lemma CommitmentShape(p: Params, suite: Suite, x: Session)
    requires SessionOk(p, suite, x)
    ensures forall a :: 0 <= a < |x.T| ==>
              && IsNonce(p, x.nonces[a])
              && (var D := Commitment(p, x.A, x.nonces[a]); |D| == p.M && forall j :: 0 <= j < p.M ==> |D[j]| == p.Dbar + 1)
  {
    hide Elem, SuiteOk, SeedsOk, Commitment;
    forall a | 0 <= a < |x.T|
      ensures IsNonce(p, x.nonces[a])
      ensures var D := Commitment(p, x.A, x.nonces[a]); |D| == p.M && forall j :: 0 <= j < p.M ==> |D[j]| == p.Dbar + 1
    {
      assert IsNonce(p, x.nonces[a]);
      var D := Commitment(p, x.A, x.nonces[a]);
      assert forall j :: 0 <= j < p.M ==> IsVec(p.r, D[j], p.Dbar + 1);
    }
  }

  ghost function U(p: Params, suite: Suite, x: Session): (u: Vec)
    requires SessionOk(p, suite, x)
    ensures |u| == p.Dbar + 1
  {
    ChallengeVector(p, suite, x.hash, x.mu)
  }

  /** The rounded commitment every signer computes. */
  ghost function H(p: Params, suite: Suite, x: Session): (h: Vec)
    requires SessionOk(p, suite, x)
    ensures IsRounded(h, p.M, p.r.n, Nu)
  {
    RoundedCoeffs(p, SumTimes(p.r, Ds(p, suite, x), p.M, p.Dbar + 1, U(p, suite, x)))
  }

  ghost function Weighted(p: Params, suite: Suite, x: Session): (vs: seq<Vec>)
    requires SessionOk(p, suite, x)
    ensures |vs| == |x.T| && AllLength(vs, p.N)
  {
    seq(|x.T|, a requires 0 <= a < |x.T| => assert |x.shares[a]| <= p.N; WeightedShare(p, x.shares[a], x.lambdas[a]))
  }

  /** The response party T[a] returns from SignRound2. */
  ghost function Z(p: Params, suite: Suite, x: Session, c: Poly, a: nat): (z: Vec)
    requires SessionOk(p, suite, x) && a < |x.T|
    ensures IsVec(p.r, z, p.N)
  {
    var ins := Masks(suite, ColumnSeeds(x.seeds, x.T[a], x.T), x.prfKey, x.hash, x.mu);
    var outs := Masks(suite, RowSeeds(x.seeds, x.T[a], x.T), x.prfKey, x.hash, x.mu);
    MasksLength(p, suite, ColumnSeeds(x.seeds, x.T[a], x.T), x.prfKey, x.hash, x.mu);
    MasksLength(p, suite, RowSeeds(x.seeds, x.T[a], x.T), x.prfKey, x.hash, x.mu);
    NonceShapes(p, suite, x);
    Response(p, Rs(p, suite, x)[a], U(p, suite, x), VSum(p.r, ins, p.N), Weighted(p, suite, x)[a], c, VSum(p.r, outs, p.N))
  }

  ghost function Zs(p: Params, suite: Suite, x: Session, c: Poly): (zs: seq<Vec>)
    requires SessionOk(p, suite, x)
    ensures |zs| == |x.T| && AllLength(zs, p.N)
  {
    seq(|x.T|, a requires 0 <= a < |x.T| => Z(p, suite, x, c, a))
  }

  /** masks[a][b] is derived from the seed party T[a] holds for party T[b]. */
  ghost function MaskTable(p: Params, suite: Suite, x: Session): (t: seq<seq<Vec>>)
    requires SessionOk(p, suite, x)
    ensures IsTable(t, |x.T|, p.N)
  {
    MaskRows(p, suite, x);
    seq(|x.T|, a requires 0 <= a < |x.T| => Masks(suite, RowSeeds(x.seeds, x.T[a], x.T), x.prfKey, x.hash, x.mu))
  }

  lemma MaskRows(p: Params, suite: Suite, x: Session)
    requires SessionOk(p, suite, x)
    ensures forall a :: 0 <= a < |x.T| ==>
              AllLength(Masks(suite, RowSeeds(x.seeds, x.T[a], x.T), x.prfKey, x.hash, x.mu), p.N)
  {
    forall a | 0 <= a < |x.T|
      ensures AllLength(Masks(suite, RowSeeds(x.seeds, x.T[a], x.T), x.prfKey, x.hash, x.mu), p.N)
    {
      MasksLength(p, suite, RowSeeds(x.seeds, x.T[a], x.T), x.prfKey, x.hash, x.mu);
    }
  }

  /** A column of the table is what party T[a] derives from the seeds the others hold for it. */
  lemma MaskColumnIsMasks(p: Params, suite: Suite, x: Session, a: nat)
    requires SessionOk(p, suite, x) && a < |x.T|
    ensures MaskColumn(MaskTable(p, suite, x), a, |x.T|, p.N) ==
            Masks(suite, ColumnSeeds(x.seeds, x.T[a], x.T), x.prfKey, x.hash, x.mu)
  {
    hide SuiteOk;
    var col := MaskColumn(MaskTable(p, suite, x), a, |x.T|, p.N);
    var ms := Masks(suite, ColumnSeeds(x.seeds, x.T[a], x.T), x.prfKey, x.hash, x.mu);
    forall b | 0 <= b < |x.T| ensures col[b] == ms[b] {
      assert SeedsOk(x.seeds, x.T[b], x.T) && SeedsOk(x.seeds, x.T[a], x.T);
    }
  }

  lemma ResponsesMatch(p: Params, suite: Suite, x: Session, c: Poly)
    requires SessionOk(p, suite, x)
    ensures AreResponses(p, Zs(p, suite, x, c), Rs(p, suite, x), U(p, suite, x), MaskTable(p, suite, x), Weighted(p, suite, x), c)
  {
    hide SuiteOk, Elem, Response, VSum, Masks, IsNonce, SeedsOk;
    forall a | 0 <= a < |x.T|
      ensures Z(p, suite, x, c, a) ==
              Response(p, Rs(p, suite, x)[a], U(p, suite, x), MaskIn(p.r, MaskTable(p, suite, x), a, |x.T|, p.N), Weighted(p, suite, x)[a], c,
                       MaskOut(p.r, MaskTable(p, suite, x), a, |x.T|, p.N))
    {
      MaskColumnIsMasks(p, suite, x, a);
    }
  }

  /** Whatever the seeds, the masks cancel over the signer set:
      the responses sum to (sum of R_i) u + c (sum of lambda_i s_i). */
  lemma ResponsesSum(p: Params, suite: Suite, x: Session, c: Poly)
    requires SessionOk(p, suite, x)
    ensures VSum(p.r, Zs(p, suite, x, c), p.N) ==
            VAdd(p.r, SumTimes(p.r, Rs(p, suite, x), p.N, p.Dbar + 1, U(p, suite, x)),
                 VScale(p.r, VSum(p.r, Weighted(p, suite, x), p.N), c))
  {
    hide SuiteOk, Elem, VSum, SumTimes, VAdd, VScale, Zs, Rs, MaskTable, Weighted, U;
    ResponsesMatch(p, suite, x, c);
    AggregateResponse(p, Zs(p, suite, x, c), Rs(p, suite, x), U(p, suite, x), MaskTable(p, suite, x), Weighted(p, suite, x), c);
  }

  // ----- the public key and the correctness equation -------------------------------

  /** b = A s + e, rounded by Xi in coefficient form, is the published key. */
  ghost predicate IsKey(p: Params, A: Mat, s: Vec, e: Vec, b: Vec, bTilde: Vec) {
    && p.r.q == Q && IsMat(p.r, A, p.M, p.N) && |s| == p.N && |e| == p.M
    && b == VAdd(p.r, MatVec(p.r, A, s), e)
    && var c := VApply(p.r, p.t.inverse, b);
    && IsWords(c, |c|, p.r.n) && bTilde == RoundVec(c, Xi, p.r.n)
    && IsRounded(bTilde, p.M, p.r.n, Xi)
  }

  lemma SubSub(r: Ring, x: Vec, y: Vec, f: Vec)
    requires |x| == |y| == |f|
    ensures VSub(r, VSub(r, x, y), f) == VSub(r, x, VAdd(r, y, f))
  {
    forall i | 0 <= i < |x| ensures VSub(r, VSub(r, x, y), f)[i] == VSub(r, x, VAdd(r, y, f))[i] {
      SubSubPoly(r, x[i], y[i], f[i]);
    }
  }

  lemma SubSubPoly(r: Ring, x: Poly, y: Poly, f: Poly)
    ensures Sub(r, Sub(r, x, y), f) == Sub(r, x, Add(r, y, f))
  {
    var a, b := Sub(r, x, y), Add(r, y, f);
    forall k | 0 <= k < r.n ensures (At(a, k) - At(f, k)) % r.q == (At(x, k) - At(b, k)) % r.q {
      assert At(a, k) == (At(x, k) - At(y, k)) % r.q && At(b, k) == (At(y, k) + At(f, k)) % r.q;
      SubLeft(At(x, k) - At(y, k), At(f, k), r.q);
      SubRight(At(x, k), At(y, k) + At(f, k), r.q);
    }
  }

  lemma SubLeft(x: int, y: int, q: int)
    requires q > 0
    ensures (x % q - y) % q == (x - y) % q
  {
    ModSub(x, y, q);
  }

  lemma SubRight(x: int, y: int, q: int)
    requires q > 0
    ensures (x - y % q) % q == (x - y) % q
  {
    ModSub(x, y, q);
  }

  /** A z_sum - Restore(bTilde) c for the summed honest responses. */
  ghost function RunResidual(p: Params, suite: Suite, x: Session, bTilde: Vec, c: Poly): (w: Vec)
    requires SessionOk(p, suite, x) && IsWords(bTilde, p.M, p.r.n)
    ensures IsVec(p.r, w, p.M)
  {
    assert forall i :: 0 <= i < |x.A| ==> IsVec(p.r, x.A[i], p.N);
    Residual(p, x.A, VSum(p.r, Zs(p, suite, x, c), p.N), bTilde, c)
  }

  /** (sum of E_i) u + c (e + eps). */
  ghost function RunNoise(p: Params, suite: Suite, x: Session, e: Vec, eps: Vec, c: Poly): (w: Vec)
    requires SessionOk(p, suite, x) && |e| == |eps| == p.M
    ensures IsVec(p.r, w, p.M)
  {
    Noise(p, Es(p, suite, x), U(p, suite, x), e, eps, c)
  }

  /** The verifier's residual is the commitment D_sum u minus the noise (sum of E_i) u + c (e + eps). */
  lemma HonestResidual(p: Params, suite: Suite, x: Session, s: Vec, e: Vec, b: Vec, bTilde: Vec, c: Poly)
    requires SessionOk(p, suite, x) && Standard(p) && IsKey(p, x.A, s, e, b, bTilde)
    requires VSum(p.r, Weighted(p, suite, x), p.N) == s
    ensures RunResidual(p, suite, x, bTilde, c) ==
            VSub(p.r, SumTimes(p.r, Ds(p, suite, x), p.M, p.Dbar + 1, U(p, suite, x)),
                 RunNoise(p, suite, x, e, KeyError(p, b, bTilde), c))
  {
    hide SuiteOk, Elem, IsRounded, IsWords, VSum, SumTimes, VAdd, VSub, VScale, MatVec, Zs, Rs, Ds, Es, Weighted, U, RestoredKey, KeyError, RoundVec, VApply;
    var u := U(p, suite, x);
    ResponsesSum(p, suite, x, c);
    KeyErrorBound(p, b, bTilde);
    CommitmentsMatch(p, suite, x);
    EquationForSession(p, suite, x, s, e, KeyError(p, b, bTilde), c);
    SubSub(p.r, SumTimes(p.r, Ds(p, suite, x), p.M, p.Dbar + 1, u), SumTimes(p.r, Es(p, suite, x), p.M, p.Dbar + 1, u),
           VScale(p.r, VAdd(p.r, e, KeyError(p, b, bTilde)), c));
  }

  lemma CommitmentsMatch(p: Params, suite: Suite, x: Session)
    requires SessionOk(p, suite, x)
    ensures forall i :: 0 <= i < |x.A| ==> |x.A[i]| == p.N
    ensures AreCommitments(p, Ds(p, suite, x), x.A, Rs(p, suite, x), Es(p, suite, x), p.Dbar + 1)
  {
    hide SuiteOk, Elem, SeedsOk, MatAdd, MatMul;
    forall i | 0 <= i < |x.A| ensures |x.A[i]| == p.N {
      assert IsVec(p.r, x.A[i], p.N);
    }
    forall a | 0 <= a < |x.T| ensures IsNonce(p, x.nonces[a]) {
    }
  }

  lemma EquationForSession(p: Params, suite: Suite, x: Session, s: Vec, e: Vec, eps: Vec, c: Poly)
    requires SessionOk(p, suite, x) && |s| == p.N && |e| == |eps| == p.M && |x.A| == p.M
    requires forall i :: 0 <= i < |x.A| ==> |x.A[i]| == p.N
    requires AreCommitments(p, Ds(p, suite, x), x.A, Rs(p, suite, x), Es(p, suite, x), p.Dbar + 1)
    ensures var u := U(p, suite, x);
            var z := VAdd(p.r, SumTimes(p.r, Rs(p, suite, x), p.N, p.Dbar + 1, u), VScale(p.r, s, c));
            VSub(p.r, MatVec(p.r, x.A, z), VScale(p.r, VAdd(p.r, VAdd(p.r, MatVec(p.r, x.A, s), e), eps), c)) ==
            VSub(p.r, VSub(p.r, SumTimes(p.r, Ds(p, suite, x), p.M, p.Dbar + 1, u), SumTimes(p.r, Es(p, suite, x), p.M, p.Dbar + 1, u)),
                 VScale(p.r, VAdd(p.r, e, eps), c))
  {
    hide SuiteOk, Elem, SeedsOk, IsNonce, VSum, SumTimes, VAdd, VSub, VScale, MatVec, Rs, Ds, Es, U, AllShape, AreCommitments;
    var u := U(p, suite, x);
    CorrectnessEquation(p, Ds(p, suite, x), x.A, Rs(p, suite, x), Es(p, suite, x), u, s, e, eps, c,
                        VAdd(p.r, SumTimes(p.r, Rs(p, suite, x), p.N, p.Dbar + 1, u), VScale(p.r, s, c)));
  }

  /** A z_sum - Restore(bTilde) c = D_sum u - ((sum of E_i) u + c (e + eps)). */
  ghost predicate MeetsEquation(p: Params, suite: Suite, x: Session, s: Vec, e: Vec, b: Vec, bTilde: Vec, c: Poly)
    requires SessionOk(p, suite, x) && IsKey(p, x.A, s, e, b, bTilde)
  {
    RunResidual(p, suite, x, bTilde, c) ==
    VSub(p.r, SumTimes(p.r, Ds(p, suite, x), p.M, p.Dbar + 1, U(p, suite, x)),
         RunNoise(p, suite, x, e, KeyError(p, b, bTilde), c))
  }

  // ----- what the run ends in ------------------------------------------------------

  /** In an honest run each coefficient of the commitment and of the verifier's vector differ, around the
      circle of size QNu, by at most the matching noise coefficient over 2^29, rounded up. */
  lemma HonestDelta(p: Params, suite: Suite, x: Session, s: Vec, e: Vec, b: Vec, bTilde: Vec, c: Poly, i: nat, j: nat)
    requires SessionOk(p, suite, x) && Standard(p) && IsKey(p, x.A, s, e, b, bTilde)
    requires VSum(p.r, Weighted(p, suite, x), p.N) == s && i < p.M && j < p.r.n
    ensures GapAt(p, suite, x, bTilde, c, i, j) <= CeilDiv(NoiseAt(p, suite, x, s, e, b, bTilde, c, i, j), 0x20000000)
  {
    hide SuiteOk, Elem, SeedsOk, VSum, SumTimes, Zs, Ds, Es, Weighted, U, KeyError, RunResidual, RunNoise, RoundVec, RoundedCoeffs, Apply, IsTransform;
    HonestResidual(p, suite, x, s, e, b, bTilde, c);
    DeltaBound(p, SumTimes(p.r, Ds(p, suite, x), p.M, p.Dbar + 1, U(p, suite, x)),
               RunNoise(p, suite, x, e, KeyError(p, b, bTilde), c), RunResidual(p, suite, x, bTilde, c), i, j);
  }

  /** How far coefficient (i, j) of H and of the verifier's vector are apart, around the circle of size QNu. */
  ghost function GapAt(p: Params, suite: Suite, x: Session, bTilde: Vec, c: Poly, i: nat, j: nat): int
    requires SessionOk(p, suite, x) && IsWords(bTilde, p.M, p.r.n) && i < p.M && j < p.r.n
  {
    CircDist(H(p, suite, x)[i][j], RoundedCoeffs(p, RunResidual(p, suite, x, bTilde, c))[i][j], QNu)
  }

  /** The size of coefficient (i, j) of the noise (sum of E_i) u + c (e + eps). */
  ghost function NoiseAt(p: Params, suite: Suite, x: Session, s: Vec, e: Vec, b: Vec, bTilde: Vec, c: Poly, i: nat, j: nat): int
    requires SessionOk(p, suite, x) && IsKey(p, x.A, s, e, b, bTilde) && i < p.M && j < p.r.n
  {
    CircNorm(Apply(p.r, p.t.inverse, RunNoise(p, suite, x, e, KeyError(p, b, bTilde), c)[i])[j])
  }

  /** Which messages a finalized signature is accepted for: those whose hash with h is the challenge, and only within the
      norm bound. */
  lemma AcceptedMessage(p: Params, suite: Suite, A: Mat, zSum: Vec, bTilde: Vec, mu: Str, h: Vec, c: Poly, delta: Vec)
    requires DimsOk(p) && IsMat(p.r, A, p.M, p.N) && |zSum| == p.N && IsWords(bTilde, p.M, p.r.n)
    requires IsRounded(h, p.M, p.r.n, Nu) && BelowNu(h)
    requires delta == VSub(NuRing(p), h, RoundedCoeffs(p, Residual(p, A, zSum, bTilde, c)))
    ensures IsWords(delta, p.M, p.r.n)
    ensures Verifies(p, suite, zSum, A, mu, bTilde, c, delta) <==>
            suite.lowNorm(A, bTilde, h, mu) == c && NormOk(RestoreVec(delta, Nu, p.r.n), VApply(p.r, p.t.inverse, zSum))
  {
    hide RoundVec, RestoreVec, Residual, NormOk, RoundedCoeffs, VApply;
    var w := RoundedCoeffs(p, Residual(p, A, zSum, bTilde, c));
    RecomputedIsH(p, h, w);
    DeltaWords(p, delta);
    assert forall i :: 0 <= i < |A| ==> IsVec(p.r, A[i], p.N);
  }

  /** Finalize against Verify, for any responses: when every coefficient of h is below QNu, a signature
      whose challenge was hashed from h verifies exactly when the norm check holds. */
  lemma FinalizedVerifies(p: Params, suite: Suite, A: Mat, zSum: Vec, bTilde: Vec, mu: Str, h: Vec, c: Poly, delta: Vec)
    requires DimsOk(p) && IsMat(p.r, A, p.M, p.N) && |zSum| == p.N && IsWords(bTilde, p.M, p.r.n)
    requires IsRounded(h, p.M, p.r.n, Nu) && c == suite.lowNorm(A, bTilde, h, mu)
    requires delta == VSub(NuRing(p), h, RoundedCoeffs(p, Residual(p, A, zSum, bTilde, c)))
    requires BelowNu(h)
    ensures IsWords(delta, p.M, p.r.n)
    ensures Verifies(p, suite, zSum, A, mu, bTilde, c, delta) <==>
            NormOk(RestoreVec(delta, Nu, p.r.n), VApply(p.r, p.t.inverse, zSum))
  {
    AcceptedMessage(p, suite, A, zSum, bTilde, mu, h, c, delta);
  }

  /** Whoever made it: an accepted signature's challenge is the hash of what the verifier recomputes from that very
      challenge, so one with its challenge replaced is accepted only when the replacement is its own hash. */
  lemma ChallengeRehashes(p: Params, suite: Suite, A: Mat, z: Vec, bTilde: Vec, mu: Str, c: Poly, delta: Vec)
    requires p.r.q == Q && IsWords(bTilde, p.M, p.r.n) && (|delta| == p.M ==> IsWords(delta, p.M, p.r.n))
    requires Verifies(p, suite, z, A, mu, bTilde, c, delta)
    ensures |A| == p.M == |delta| && (forall i :: 0 <= i < |A| ==> |A[i]| == |z|)
    ensures c == suite.lowNorm(A, bTilde, VAdd(NuRing(p), RoundedCoeffs(p, Residual(p, A, z, bTilde, c)), delta), mu)
  {
    hide Residual, RoundedCoeffs, NormOk;
  }

  lemma DeltaWords(p: Params, delta: Vec)
    requires IsVec(NuRing(p), delta, |delta|)
    ensures IsWords(delta, |delta|, p.r.n)
  {
    forall i | 0 <= i < |delta| ensures |delta[i]| == p.r.n && forall k :: 0 <= k < p.r.n ==> 0 <= delta[i][k] < WORD {
      assert Elem(NuRing(p), delta[i]);
    }
  }

  /** When some coefficient of h is at the top value, the verifier hashes a vector other than h. */
  lemma TopCoefficientChangesHash(p: Params, A: Mat, zSum: Vec, bTilde: Vec, h: Vec, c: Poly)
    requires DimsOk(p) && IsMat(p.r, A, p.M, p.N) && |zSum| == p.N && IsWords(bTilde, p.M, p.r.n)
    requires IsRounded(h, p.M, p.r.n, Nu) && !BelowNu(h)
    ensures (forall i :: 0 <= i < |A| ==> |A[i]| == p.N)
    ensures var w := RoundedCoeffs(p, Residual(p, A, zSum, bTilde, c));
            VAdd(NuRing(p), w, VSub(NuRing(p), h, w)) != h
  {
    assert forall i :: 0 <= i < |A| ==> IsVec(p.r, A[i], p.N);
    RecomputedIsH(p, h, RoundedCoeffs(p, Residual(p, A, zSum, bTilde, c)));
  }

  // ----- a run whose commitment reaches the top value ------------------------------

  lemma {:induction false} DotHead(r: Ring, a: Poly, k: nat, u: Vec)
    requires Elem(r, a) && |u| == k + 1 && u[0] == Const(r, 1)
    ensures DotP(r, [a] + VZero(r, k), u) == a
  {
    var row := [a] + VZero(r, k);
    if k == 0 {
      assert row == [a] && row[..0] == [];
      TimesOne(r, a);
      AddZero(r, a);
    } else {
      assert row[..k] == [a] + VZero(r, k - 1);
      DotHead(r, a, k - 1, u[..k]);
      DotPrefix(r, row[..k], u[..k], u);
      MulZero(r, u[k]);
      AddZero(r, a);
    }
  }

  lemma TimesOne(r: Ring, a: Poly)
    requires Elem(r, a)
    ensures Mul(r, a, Const(r, 1)) == a
  {
    forall i | 0 <= i < r.n ensures (a[i] * (1 % r.q)) % r.q == a[i] {
      OneTimes(a[i], r.q);
    }
  }

  lemma OneTimes(x: int, q: int)
    requires 0 <= x < q
    ensures (x * (1 % q)) % q == x
  {
    ModUnique(x, 0, x, q);
    if q == 1 {
      assert x == 0;
    } else {
      ModUnique(1, 0, 1, q);
    }
  }

  lemma MatOfHeads(r: Ring, w: Vec, k: nat, E: Mat, u: Vec)
    requires IsVec(r, w, |w|) && |E| == |w| && |u| == k + 1 && u[0] == Const(r, 1)
    requires forall i :: 0 <= i < |w| ==> E[i] == [w[i]] + VZero(r, k) && |E[i]| == k + 1
    ensures MatVec(r, E, u) == w
  {
    forall i | 0 <= i < |w| ensures DotP(r, E[i], u) == w[i] {
      DotHead(r, w[i], k, u);
    }
  }

  lemma MatOfZeros(r: Ring, R: Mat, k: nat, u: Vec)
    requires |u| == k && forall i :: 0 <= i < |R| ==> R[i] == VZero(r, k) && |R[i]| == k
    ensures MatVec(r, R, u) == VZero(r, |R|)
  {
    forall i | 0 <= i < |R| ensures DotP(r, R[i], u) == Zero(r) {
      DotZeros(r, k, u);
    }
  }

  /** The nonce whose commitment, applied to any challenge vector, is w. */
  ghost function NonceFor(p: Params, w: Vec): (n: Nonce)
    requires IsVec(p.r, w, p.M)
    ensures IsNonce(p, n)
  {
    Nonce(VZero(p.r, p.N), w, MZero(p.r, p.N, p.Dbar), MZero(p.r, p.M, p.Dbar))
  }

  lemma CommitsTo(p: Params, A: Mat, w: Vec, u: Vec)
    requires IsMat(p.r, A, p.M, p.N) && IsVec(p.r, w, p.M) && |u| == p.Dbar + 1 && u[0] == Const(p.r, 1)
    ensures var D := Commitment(p, A, NonceFor(p, w));
            (forall i :: 0 <= i < |D| ==> |D[i]| == p.Dbar + 1) && MatVec(p.r, D, u) == w
  {
    hide Elem, MatVec, MatMul, MatAdd, VAdd;
    var r, n := p.r, NonceFor(p, w);
    var R, E := WithColumn(n.rStar, n.R), WithColumn(n.eStar, n.E);
    var D := Commitment(p, A, n);
    assert forall i :: 0 <= i < |D| ==> IsVec(r, D[i], p.Dbar + 1);
    assert forall i :: 0 <= i < p.M ==> IsVec(r, A[i], p.N);
    forall i | 0 <= i < p.N ensures R[i] == VZero(r, p.Dbar + 1) {
    }
    MatOfZeros(r, R, p.Dbar + 1, u);
    MatOfHeads(r, w, p.Dbar, E, u);
    CommitmentOne(r, A, R, E, p.M, p.N, p.Dbar + 1, u);
    MatVecZero(r, A, p.N);
    VAddComm(r, w, VZero(r, p.M));
    VAddZero(r, w);
  }

  /** For every suite, matrix and message there is a session whose rounded commitment has a coefficient at the top: the
      condition under which Finalize and Verify disagree is reached. */
  lemma TopSession(p: Params, suite: Suite, A: Mat, prfKey: Str, hash: Str, mu: Str) returns (x: Session)
    requires DimsOk(p) && Standard(p) && SuiteOk(p, suite) && p.r.n >= 1 && IsMat(p.r, A, p.M, p.N)
    ensures SessionOk(p, suite, x) && x.A == A && x.mu == mu && !BelowNu(H(p, suite, x))
  {
    hide Elem, BelowNu, RoundedCoeffs, Commitment, SuiteOk, MatVec;
    var w := TopVector(p, p.M);
    x := Session(A, [0], [NonceFor(p, w)], [[]], [[]], map[0 := [[]]], prfKey, hash, mu);
    var u := U(p, suite, x);
    CommitsTo(p, A, w, u);
    var ds := Ds(p, suite, x);
    assert ds == [Commitment(p, A, NonceFor(p, w))];
    SumOfOne(p.r, ds, p.M, p.Dbar + 1, u, w);
  }

  lemma SumOfOne(r: Ring, ms: seq<Mat>, rows: nat, cols: nat, u: Vec, w: Vec)
    requires AllShape(ms, rows, cols) && |u| == cols && |ms| == 1 && MatVec(r, ms[0], u) == w && IsVec(r, w, rows)
    ensures SumTimes(r, ms, rows, cols, u) == w
  {
    hide Elem, MatVec, VAdd, SumTimes;
    SumTimesIsSum(r, ms, rows, cols, u);
    var vs := Products(r, ms, rows, cols, u);
    assert vs == [w] && vs[..0] == [];
    assert VSum(r, vs, rows) == VAdd(r, VSum(r, [], rows), w);
    VAddZero(r, w);
  }

  /** With pairwise symmetric MAC keys, every MAC an honest signer sends is the one its peer expects. */
  lemma HonestMacsMatch(suite: Suite, keys: map<int, map<int, Str>>, ds: map<int, Mat>, macs: map<int, map<int, Str>>, sid: int, T: seq<int>, id: int)
    requires id in T && id in keys && forall i :: i in T ==> i in keys && i in ds && i in macs
    requires forall i, j :: i in T && j in T && i != j ==> KeyFor(keys[i], j) == KeyFor(keys[j], i)
    requires forall j :: j in T ==> macs[j].Keys == Elements(T) - {j}
    requires forall i, j :: j in T && i in macs[j] ==> macs[j][i] == suite.mac(KeyFor(keys[j], i), j, ds[j], sid, T)
    ensures MacsMatch(suite, id, keys[id], ds, macs, sid, T)
  {
    forall i | 0 <= i < |T| && T[i] != id
      ensures MacFor(macs, T[i], id) == suite.mac(KeyFor(keys[id], T[i]), T[i], MatrixFor(ds, T[i]), sid, T)
    {
      var j := T[i];
      assert j in T && id in Elements(T);
      assert id in macs[j];
    }
  }
}
