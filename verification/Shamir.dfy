/** Shamir sharing as the primitives package computes it: powers of the point instead of Horner's
    rule, and the shortcut for a threshold equal to the committee size. */
module Shamir {
  import opened Zq
  import opened Polynomials
  import opened Randomness
  import opened Reshare

  lemma {:induction false} PowSnoc(x: int, n: nat)
    ensures Pow(x, n + 1) == Pow(x, n) * x
  {
    if n > 0 {
      PowSnoc(x, n - 1);
      assert x * (Pow(x, n - 1) * x) == x * Pow(x, n - 1) * x;
    }
  }

  /** The share loop: the power of x is never reduced, the running value is reduced each time. It is
      the value of the polynomial modulo q, as Horner's rule gives it in evaluateAt. */
  method EvaluateByPowers(coeffs: seq<int>, x: int, q: nat) returns (v: nat)
    requires q > 0
    ensures v == Eval(coeffs, x) % q
  {
    v := 0;
    var xPow := 1;
    for i := 0 to |coeffs|
      invariant xPow == Pow(x, i)
      invariant v == Eval(coeffs[..i], x) % q
    {
      assert coeffs[..i + 1] == coeffs[..i] + [coeffs[i]];
      EvalSplit(coeffs[..i], [coeffs[i]], x);
      assert Eval([coeffs[i]], x) == coeffs[i] + x * Eval([], x);
      PowSnoc(x, i);
      PowerStep(v, Eval(coeffs[..i], x), coeffs[i], xPow, q);
      v := (v + coeffs[i] * xPow) % q;
      xPow := xPow * x;
    }
    assert coeffs[..|coeffs|] == coeffs;
  }

  lemma PowerStep(v: int, e: int, c: int, p: int, q: int)
    requires q > 0 && v == e % q
    ensures 0 <= (v + c * p) % q == (e + p * c) % q
  {
    CongMod(e, q);
    CongAdd(v, e, c * p, c * p, q);
    CongMod(v + c * p, q);
    assert c * p == p * c;
  }

  /** The polynomial of slot (p, k): the secret coefficient and its t - 1 random ones. */
  ghost function SlotCoeffs(secret: Share, draws: Cube, p: nat, k: nat, t: nat): (f: seq<int>)
    requires t >= 1 && p < |secret| && k < |secret[p]| && p < |draws| && k < |draws[p]| && |draws[p][k]| == t - 1
    ensures |f| == t
  {
    [secret[p][k]] + draws[p][k]
  }

  ghost predicate DrawsFit(draws: Cube, nVec: nat, N: nat, t: nat) {
    t >= 1 && |draws| == nVec &&
    forall p :: 0 <= p < nVec ==> |draws[p]| == N && forall k :: 0 <= k < N ==> |draws[p][k]| == t - 1
  }

  /** Party i (counted from zero) holds the values at i + 1. */
  ghost predicate Dealt(shares: map<int, Share>, secret: Share, draws: Cube, parties: nat, t: nat, nVec: nat, N: nat, q: nat)
    requires q > 0 && Shape(secret, nVec, N) && DrawsFit(draws, nVec, N, t)
  {
    && (forall i :: i in shares <==> 0 <= i < parties)
    && forall i :: 0 <= i < parties ==> ShareAt(shares[i], secret, draws, i + 1, t, nVec, N, q)
  }

  ghost predicate ShareAt(share: Share, secret: Share, draws: Cube, x: int, t: nat, nVec: nat, N: nat, q: nat)
    requires q > 0 && Shape(secret, nVec, N) && DrawsFit(draws, nVec, N, t)
  {
    && Shape(share, nVec, N)
    && forall p, k :: 0 <= p < nVec && 0 <= k < N ==> share[p][k] == Eval(SlotCoeffs(secret, draws, p, k, t), x) % q
  }

  method ShareRow(secret: Share, draws: Cube, x: int, p: nat, t: nat, nVec: nat, N: nat, q: nat) returns (row: seq<nat>)
    requires q > 0 && Shape(secret, nVec, N) && DrawsFit(draws, nVec, N, t) && p < nVec
    ensures |row| == N && forall k :: 0 <= k < N ==> row[k] == Eval(SlotCoeffs(secret, draws, p, k, t), x) % q
  {
    row := [];
    for k := 0 to N
      invariant |row| == k && forall l :: 0 <= l < k ==> row[l] == Eval(SlotCoeffs(secret, draws, p, l, t), x) % q
    {
      var v := EvaluateByPowers([secret[p][k]] + draws[p][k], x, q);
      row := row + [v];
    }
  }

  method ShareFor(secret: Share, draws: Cube, x: int, t: nat, nVec: nat, N: nat, q: nat) returns (share: Share)
    requires q > 0 && Shape(secret, nVec, N) && DrawsFit(draws, nVec, N, t)
    ensures ShareAt(share, secret, draws, x, t, nVec, N, q)
  {
    share := [];
    for p := 0 to nVec
      invariant Shape(share, p, N)
      invariant forall i, k :: 0 <= i < p && 0 <= k < N ==> share[i][k] == Eval(SlotCoeffs(secret, draws, i, k, t), x) % q
    {
      var row := ShareRow(secret, draws, x, p, t, nVec, N, q);
      share := share + [row];
    }
  }

  /** ShamirSecretSharingGeneral: draws[p][k] are the random coefficients of slot (p, k). */
  method ShamirSecretSharingGeneral(secret: Share, t: nat, parties: nat, draws: Cube, nVec: nat, N: nat, q: nat) returns (shares: map<int, Share>)
    requires q > 0 && Shape(secret, nVec, N) && DrawsFit(draws, nVec, N, t)
    ensures Dealt(shares, secret, draws, parties, t, nVec, N, q)
    ensures AreValues(shares, secret, draws, parties, t, nVec, N, q)
  {
    hide AreValues, Eval;
    shares := map[];
    for i := 0 to parties
      invariant Dealt(shares, secret, draws, i, t, nVec, N, q)
    {
      var share := ShareFor(secret, draws, i + 1, t, nVec, N, q);
      ghost var before := shares;
      shares := shares[i := share];
      assert shares.Keys == before.Keys + {i};
    }
    DealtValues(shares, secret, draws, parties, t, nVec, N, q);
  }

  /** The secret coefficient plus the drawn ones times the powers of x. */
  ghost function SlotValue(secret: Share, draws: Cube, x: int, p: nat, k: nat, t: nat): int
    requires t >= 1 && p < |secret| && k < |secret[p]| && p < |draws| && k < |draws[p]| && |draws[p][k]| == t - 1
  {
    secret[p][k] + Total(seq(t - 1, d requires 0 <= d < t - 1 => draws[p][k][d] * Pow(x, d + 1)))
  }

  /** Party i holds, in every slot, the value at i + 1. */
  ghost predicate AreValues(shares: map<int, Share>, secret: Share, draws: Cube, parties: nat, t: nat, nVec: nat, N: nat, q: nat)
    requires q > 0 && Shape(secret, nVec, N) && DrawsFit(draws, nVec, N, t)
  {
    && (forall i :: i in shares <==> 0 <= i < parties)
    && AllShaped(shares, nVec, N)
    && forall i, p, k :: 0 <= i < parties && 0 <= p < nVec && 0 <= k < N ==>
         shares[i][p][k] == SlotValue(secret, draws, i + 1, p, k, t) % q
  }

  lemma DealtValues(shares: map<int, Share>, secret: Share, draws: Cube, parties: nat, t: nat, nVec: nat, N: nat, q: nat)
    requires q > 0 && Shape(secret, nVec, N) && DrawsFit(draws, nVec, N, t) && Dealt(shares, secret, draws, parties, t, nVec, N, q)
    ensures AreValues(shares, secret, draws, parties, t, nVec, N, q)
  {
    hide Eval, Total, Pow;
    forall i | i in shares ensures Shape(shares[i], nVec, N) {
      assert ShareAt(shares[i], secret, draws, i + 1, t, nVec, N, q);
    }
    forall i, p, k | 0 <= i < parties && 0 <= p < nVec && 0 <= k < N
      ensures shares[i][p][k] == SlotValue(secret, draws, i + 1, p, k, t) % q
    {
      assert ShareAt(shares[i], secret, draws, i + 1, t, nVec, N, q);
      var f := draws[p][k];
      ConstantAndPowers(secret[p][k], f, i + 1);
      assert seq(|f|, d requires 0 <= d < |f| => f[d] * Pow(i + 1, d + 1)) ==
             seq(t - 1, d requires 0 <= d < t - 1 => draws[p][k][d] * Pow(i + 1, d + 1));
    }
  }

  /** The dealt shares, keyed by evaluation point as the resharing kernel keys them, are a sharing
      of the secret with polynomials of degree below t. */
  lemma DealtIsSharing(shares: map<int, Share>, m: map<int, Share>, secret: Share, draws: Cube, parties: nat, t: nat,
                       nVec: nat, N: nat, q: nat)
    requires q > 0 && Shape(secret, nVec, N) && DrawsFit(draws, nVec, N, t)
    requires Dealt(shares, secret, draws, parties, t, nVec, N, q)
    requires forall j :: j in m ==> j - 1 in shares && m[j] == shares[j - 1]
    ensures IsSharing(m, t, secret, nVec, N, q)
  {
    forall j | j in m ensures ShareAt(m[j], secret, draws, j, t, nVec, N, q) {
      var i := j - 1;
      assert i in shares && ShareAt(shares[i], secret, draws, i + 1, t, nVec, N, q);
    }
    forall p, k | 0 <= p < nVec && 0 <= k < N ensures SlotSharing(m, t, p, k, secret[p][k], q) {
      PointsAreSharing(m, secret, draws, p, k, t, nVec, N, q);
    }
  }

  lemma PointsAreSharing(m: map<int, Share>, secret: Share, draws: Cube, p: nat, k: nat, t: nat, nVec: nat, N: nat, q: nat)
    requires q > 0 && Shape(secret, nVec, N) && DrawsFit(draws, nVec, N, t) && p < nVec && k < N
    requires forall j :: j in m ==> ShareAt(m[j], secret, draws, j, t, nVec, N, q)
    ensures HasSlot(m, p, k) && SlotSharing(m, t, p, k, secret[p][k], q)
  {
    forall j | j in m ensures p < |m[j]| && k < |m[j][p]| {
      assert ShareAt(m[j], secret, draws, j, t, nVec, N, q);
    }
    var f := SlotCoeffs(secret, draws, p, k, t);
    forall j | j in m ensures Cong(m[j][p][k], Eval(f, j), q) {
      assert ShareAt(m[j], secret, draws, j, t, nVec, N, q);
      CongMod(Eval(f, j), q);
    }
    assert Eval(f, 0) == f[0] + 0 * Eval(f[1..], 0);
    CongRefl(Eval(f, 0), q);
    assert SlotShares(m, p, k, f, q) && Cong(Eval(f, 0), secret[p][k], q);
  }

  // ----- the shortcut for t = k ----------------------------------------------------

  lemma LastShare(secret: int, sum: int, weight: int, inv: int, q: int)
    requires q > 0 && Cong(weight * inv, 1, q)
    ensures 0 <= ((secret - sum) * inv) % q < q
    ensures Cong(sum + weight * (((secret - sum) * inv) % q), secret, q)
  {
    var d := secret - sum;
    CongMod(d * inv, q);
    CongMul(weight, weight, (d * inv) % q, d * inv, q);
    CongMul(d, d, weight * inv, 1, q);
    assert weight * (d * inv) == d * (weight * inv);
    CongAdd(sum, sum, weight * ((d * inv) % q), d, q);
  }

  /** One slot of ShamirSecretSharing: k - 1 random shares, then the last one solves the weighted sum.
      None is the panic on a last weight without inverse. */
  method ShareSlot(secret: int, randoms: seq<nat>, lambdas: seq<int>, q: nat) returns (shares: Option<seq<nat>>)
    requires Prime(q) && |lambdas| > |randoms|
    ensures shares.Some? <==> !Cong(lambdas[|randoms|], 0, q)
    ensures shares.Some? ==>
              && |shares.value| == |randoms| + 1 && shares.value[..|randoms|] == randoms
              && Cong(Dot(lambdas[..|randoms| + 1], shares.value), secret, q)
  {
    var n := |randoms|;
    var sum := 0;
    for i := 0 to n
      invariant Cong(sum, Dot(lambdas[..i], randoms[..i]), q)
    {
      assert lambdas[..i + 1][..i] == lambdas[..i] && randoms[..i + 1][..i] == randoms[..i];
      SumStep(sum, Dot(lambdas[..i], randoms[..i]), randoms[i], lambdas[i], q);
      sum := (sum + randoms[i] * lambdas[i]) % q;
    }
    assert randoms[..n] == randoms;
    var inv := ModInverse(lambdas[n], q);
    if inv.None? {
      return None;
    }
    LastShare(secret, sum, lambdas[n], inv.value, q);
    var last := ((secret - sum) * inv.value) % q;
    var all := randoms + [last];
    var w := lambdas[..n + 1];
    assert w[..n] == lambdas[..n] && all[..n] == randoms;
    CongAdd(sum, Dot(lambdas[..n], randoms), lambdas[n] * last, lambdas[n] * last, q);
    return Some(all);
  }

  lemma SumStep(sum: int, dot: int, r: int, weight: int, q: int)
    requires q > 0 && Cong(sum, dot, q)
    ensures Cong((sum + r * weight) % q, dot + weight * r, q)
  {
    CongMod(sum + r * weight, q);
    CongAdd(sum, dot, r * weight, r * weight, q);
    assert r * weight == weight * r;
  }
}
