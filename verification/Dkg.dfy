/** The Feldman key generation: every party deals a polynomial, checks what it receives against the
    dealers' commitments and adds up. */
module Dkg {
  import opened Zq
  import opened Polynomials
  import opened Rq
  import opened Transform
  import opened SignAlgebra
  import opened VectorOps
  import opened Reshare
  import opened Committee
  import opened Commit

  datatype DkgError = InvalidPartyCount | BadThreshold | InvalidPartyID | BadSeed | MissingData | ShareVerification

  datatype DkgResult<+T> = Agreed(value: T) | Aborted(error: DkgError)

  datatype Round1Output = Round1Output(commits: seq<Vec>, shares: map<int, Vec>)

  // ----- sums over the dealers -----------------------------------------------------

  ghost predicate AreDealt(css: seq<seq<Vec>>, t: nat, len: nat) {
    forall i :: 0 <= i < |css| ==> |css[i]| == t && AllLength(css[i], len)
  }

  /** What each dealer's polynomial gives at x. */
  ghost function Evaluations(r: Ring, css: seq<seq<Vec>>, t: nat, x: int, len: nat): (vs: seq<Vec>)
    requires AreDealt(css, t, len)
    ensures |vs| == |css| && AllLength(vs, len)
  {
    seq(|css|, i requires 0 <= i < |css| => assert |css[i]| == t; Combo(r, css[i], x, len))
  }

  function Coefficient(css: seq<seq<Vec>>, t: nat, len: nat, k: nat): (vs: seq<Vec>)
    requires AreDealt(css, t, len) && k < t
    ensures |vs| == |css| && AllLength(vs, len)
  {
    seq(|css|, i requires 0 <= i < |css| => assert |css[i]| == t; css[i][k])
  }

  /** The coefficients of the sum of the dealers' polynomials. */
  ghost function SumPoly(r: Ring, css: seq<seq<Vec>>, t: nat, len: nat): (cs: seq<Vec>)
    requires AreDealt(css, t, len)
    ensures |cs| == t && AllLength(cs, len)
  {
    seq(t, k requires 0 <= k < t => VSum(r, Coefficient(css, t, len, k), len))
  }

  ghost function Dropped(css: seq<seq<Vec>>, t: nat, len: nat): (cs: seq<seq<Vec>>)
    requires t >= 1 && AreDealt(css, t, len)
    ensures |cs| == |css| && AreDealt(cs, t - 1, len) && forall i :: 0 <= i < |css| ==> cs[i] == css[i][..t - 1]
  {
    seq(|css|, i requires 0 <= i < |css| => assert |css[i]| == t; css[i][..t - 1])
  }

  /** The evaluations sum to the evaluation of the sum. */
  lemma {:induction false} EvaluationSum(r: Ring, css: seq<seq<Vec>>, t: nat, x: int, len: nat)
    requires AreDealt(css, t, len)
    ensures VSum(r, Evaluations(r, css, t, x, len), len) == Combo(r, SumPoly(r, css, t, len), x, len)
    decreases t
  {
    hide Elem, VAdd, VScale, Const, VSum;
    if t == 0 {
      ZeroSum(r, Evaluations(r, css, t, x, len), len);
    } else {
      var n := t - 1;
      var low, c := Dropped(css, t, len), Const(r, Pow(x, n));
      EvaluationSum(r, low, n, x, len);
      assert SumPoly(r, css, t, len)[..n] == SumPoly(r, low, n, len) by {
        forall k | 0 <= k < n ensures Coefficient(css, t, len, k) == Coefficient(low, n, len, k) {
        }
      }
      var top := Coefficient(css, t, len, n);
      var scaled := Scalings(r, top, c, len);
      VSumScale(r, top, c, scaled, len);
      forall i | 0 <= i < |css|
        ensures Evaluations(r, css, t, x, len)[i] == VAdd(r, Evaluations(r, low, n, x, len)[i], scaled[i])
      {
        assert |css[i]| == t;
      }
      VSumAdd(r, Evaluations(r, low, n, x, len), scaled, Evaluations(r, css, t, x, len), len);
    }
  }

  lemma {:induction false} ZeroSum(r: Ring, vs: seq<Vec>, len: nat)
    requires AllLength(vs, len) && forall i :: 0 <= i < |vs| ==> vs[i] == VZero(r, len)
    ensures VSum(r, vs, len) == VZero(r, len)
  {
    if vs != [] {
      ZeroSum(r, vs[..|vs| - 1], len);
      VAddZero(r, VZero(r, len));
    }
  }

  // ----- the session ---------------------------------------------------------------

  ghost predicate Received(n: nat, shares: map<int, Vec>, commits: map<int, seq<Vec>>) {
    forall i :: 0 <= i < n ==> i in shares && i in commits
  }

  /** A f_i(j + 1) is the sum of (j + 1)^k C_(i, k), with exactly t commitments. */
  ghost predicate Consistent(p: Params, A: Mat, share: Vec, commits: seq<Vec>, t: nat, x: int)
    requires IsMap(p, A) && |share| == p.N && AllLength(commits, p.M)
  {
    |commits| == t && Through(p, A, share) == Combo(p.r, commits, x, p.M)
  }

  ghost predicate Shaped(p: Params, shares: map<int, Vec>, commits: map<int, seq<Vec>>) {
    (forall i :: i in shares ==> |shares[i]| == p.N) && forall i :: i in commits ==> AllLength(commits[i], p.M)
  }

  /** Round2 goes through: everything arrived and every dealer's share matches its commitments. */
  ghost predicate Acceptable(p: Params, A: Mat, n: nat, t: nat, x: int, shares: map<int, Vec>, commits: map<int, seq<Vec>>)
    requires IsMap(p, A) && Shaped(p, shares, commits)
  {
    Received(n, shares, commits) && forall i :: 0 <= i < n ==> Consistent(p, A, shares[i], commits[i], t, x)
  }

  function InParties<T>(m: map<int, T>, n: nat): seq<T>
    requires forall i :: 0 <= i < n ==> i in m
  {
    seq(n, i requires 0 <= i < n => m[i])
  }

  class DKGSession {
    const p: Params
    const partyID: nat
    const n: nat
    const t: nat
    const A: Mat
    var coeffs: seq<Vec>

    constructor (p: Params, partyID: nat, n: nat, t: nat, A: Mat)
      ensures this.p == p && this.partyID == partyID && this.n == n && this.t == t && this.A == A && coeffs == []
    {
      this.p, this.partyID, this.n, this.t, this.A, this.coeffs := p, partyID, n, t, A, [];
    }

    /** Round1WithSeed. The sampled coefficients are absent when the seed has the wrong length. */
    method Round1(sampled: Option<seq<Vec>>) returns (r: DkgResult<Round1Output>)
      requires IsMap(p, A) && (sampled.Some? ==> |sampled.value| == t && AllLength(sampled.value, p.N))
      modifies this
      ensures r.Aborted? <==> sampled.None?
      ensures r.Aborted? ==> coeffs == old(coeffs)
      ensures r.Agreed? ==>
                && coeffs == sampled.value && AllLength(coeffs, p.N) && AreImages(p, A, coeffs, r.value.commits)
                && (forall j :: j in r.value.shares <==> 0 <= j < n)
                && forall j :: 0 <= j < n ==> r.value.shares[j] == Combo(p.r, coeffs, j + 1, p.N)
    {
      hide Elem, MatVec, VApply, Combo;
      if sampled.None? {
        return Aborted(BadSeed);
      }
      coeffs := sampled.value;
      var commits: seq<Vec> := [];
      for k := 0 to t
        invariant coeffs == sampled.value && |commits| == k
        invariant forall l :: 0 <= l < k ==> commits[l] == Through(p, A, coeffs[l])
      {
        var c := MatrixVectorMul(p.r, A, VApply(p.r, p.t.forward, coeffs[k]));
        commits := commits + [c];
      }
      var shares: map<int, Vec> := map[];
      for j := 0 to n
        invariant coeffs == sampled.value
        invariant forall i :: i in shares <==> 0 <= i < j
        invariant forall i :: 0 <= i < j ==> shares[i] == Combo(p.r, coeffs, i + 1, p.N)
      {
        var share := Horner(p.r, coeffs, j + 1, p.N);
        shares := shares[j := share];
      }
      return Agreed(Round1Output(commits, shares));
    }

    /** Round2. It succeeds exactly on acceptable input; then the secret share is the sum of the received ones, and the
        public key is made by `finish` from the sum of the constant commitments alone. */
    method Round2(shares: map<int, Vec>, commits: map<int, seq<Vec>>, finish: Vec -> Vec) returns (r: DkgResult<(Vec, Vec)>)
      requires IsMap(p, A) && t >= 1 && Shaped(p, shares, commits)
      ensures r.Agreed? <==> Acceptable(p, A, n, t, partyID + 1, shares, commits)
      ensures r.Agreed? ==>
                && AllLength(InParties(shares, n), p.N) && r.value.0 == VSum(p.r, InParties(shares, n), p.N)
                && AreDealt(InParties(commits, n), t, p.M)
                && r.value.1 == finish(VSum(p.r, Coefficient(InParties(commits, n), t, p.M, 0), p.M))
    {
      hide Elem, MatVec, VApply, Combo, Through;
      var err := CheckReceived(shares, commits);
      if err.Some? {
        return Aborted(err.value);
      }
      AllDealt(p, A, n, t, partyID + 1, shares, commits);
      var share := SumVectors(p.r, InParties(shares, n), p.N);
      var key := SumVectors(p.r, Coefficient(InParties(commits, n), t, p.M, 0), p.M);
      return Agreed((share, finish(key)));
    }

    /** Everything arrived, and every share matches its dealer's commitments. */
    method CheckReceived(shares: map<int, Vec>, commits: map<int, seq<Vec>>) returns (err: Option<DkgError>)
      requires IsMap(p, A) && Shaped(p, shares, commits)
      ensures err.None? <==> Acceptable(p, A, n, t, partyID + 1, shares, commits)
      ensures err == Some(MissingData) <==> !Received(n, shares, commits)
    {
      hide Elem, MatVec, VApply, Combo, Through;
      for i := 0 to n
        invariant forall k :: 0 <= k < i ==> k in shares && k in commits
      {
        if i !in shares || i !in commits {
          return Some(MissingData);
        }
      }
      for i := 0 to n
        invariant forall k :: 0 <= k < i ==> Consistent(p, A, shares[k], commits[k], t, partyID + 1)
      {
        var ok := CheckShare(shares[i], commits[i]);
        if !ok {
          return Some(ShareVerification);
        }
      }
      return None;
    }

    method CheckShare(share: Vec, commits: seq<Vec>) returns (ok: bool)
      requires IsMap(p, A) && |share| == p.N && AllLength(commits, p.M)
      ensures ok <==> Consistent(p, A, share, commits, t, partyID + 1)
    {
      hide Elem, MatVec, VApply, Combo;
      if |commits| != t {
        return false;
      }
      var lhs := MatrixVectorMul(p.r, A, VApply(p.r, p.t.forward, share));
      var rhs := Horner(p.r, commits, partyID + 1, p.M);
      for i := 0 to p.M
        invariant lhs[..i] == rhs[..i]
      {
        if lhs[i] != rhs[i] {
          return false;
        }
        assert lhs[..i + 1] == lhs[..i] + [lhs[i]] && rhs[..i + 1] == rhs[..i] + [rhs[i]];
      }
      assert lhs[..p.M] == lhs && rhs[..p.M] == rhs;
      return true;
    }
  }

  lemma AllDealt(p: Params, A: Mat, n: nat, t: nat, x: int, shares: map<int, Vec>, commits: map<int, seq<Vec>>)
    requires IsMap(p, A) && Shaped(p, shares, commits) && Acceptable(p, A, n, t, x, shares, commits)
    ensures AllLength(InParties(shares, n), p.N) && AreDealt(InParties(commits, n), t, p.M)
  {
    hide Combo, Through;
    forall i | 0 <= i < n ensures |InParties(shares, n)[i]| == p.N && |InParties(commits, n)[i]| == t {
      assert Consistent(p, A, shares[i], commits[i], t, x);
    }
  }

  /** Repeated addition into a zero vector. */
  method SumVectors(r: Ring, vs: seq<Vec>, len: nat) returns (acc: Vec)
    requires AllLength(vs, len)
    ensures acc == VSum(r, vs, len)
  {
    acc := VZero(r, len);
    for i := 0 to |vs|
      invariant acc == VSum(r, vs[..i], len)
    {
      assert vs[..i + 1][..i] == vs[..i];
      acc := VectorAdd(r, acc, vs[i]);
    }
    assert vs[..|vs|] == vs;
  }

  /** NewDKGSession. */
  method NewDKGSession(p: Params, partyID: int, n: int, t: int, A: Mat) returns (r: DkgResult<DKGSession>)
    ensures r.Agreed? <==> 0 <= partyID < n && 1 <= t < n
    ensures r.Agreed? ==> fresh(r.value) && r.value.p == p && r.value.partyID == partyID && r.value.n == n && r.value.t == t && r.value.A == A
    ensures r.Aborted? ==> r.error == if n < 2 then InvalidPartyCount else if t < 1 || t >= n then BadThreshold else InvalidPartyID
  {
    if n < 2 {
      return Aborted(InvalidPartyCount);
    }
    if t < 1 || t >= n {
      return Aborted(BadThreshold);
    }
    if partyID < 0 || partyID >= n {
      return Aborted(InvalidPartyID);
    }
    var session := new DKGSession(p, partyID, n, t, A);
    return Agreed(session);
  }

  // ----- what the key generation achieves ------------------------------------------

  /** The dealings of honest parties: dealer i's share for each position and its commitments. */
  ghost predicate HonestInput(p: Params, A: Mat, css: seq<seq<Vec>>, t: nat, x: int, shares: map<int, Vec>, commits: map<int, seq<Vec>>)
    requires IsMap(p, A) && AreDealt(css, t, p.N)
  {
    Received(|css|, shares, commits) &&
    forall i :: 0 <= i < |css| ==>
      |css[i]| == t && AllLength(css[i], p.N) && shares[i] == Combo(p.r, css[i], x, p.N) && AreImages(p, A, css[i], commits[i])
  }

  /** Honest dealings are accepted by every party. */
  lemma HonestAccepted(p: Params, A: Mat, css: seq<seq<Vec>>, t: nat, x: int, shares: map<int, Vec>, commits: map<int, seq<Vec>>)
    requires IsMap(p, A) && AreDealt(css, t, p.N) && HonestInput(p, A, css, t, x, shares, commits) && Shaped(p, shares, commits)
    ensures Acceptable(p, A, |css|, t, x, shares, commits)
    ensures VSum(p.r, InParties(shares, |css|), p.N) == Combo(p.r, SumPoly(p.r, css, t, p.N), x, p.N)
  {
    hide Elem, Through, Combo;
    forall i | 0 <= i < |css| ensures Consistent(p, A, shares[i], commits[i], t, x) {
      LinearCombo(p, A, css[i], commits[i], x);
    }
    EvaluationSum(p.r, css, t, x, p.N);
    assert InParties(shares, |css|) == Evaluations(p.r, css, t, x, p.N);
  }

  /** Whoever dealt: once every share passed its check, the aggregate share matches the aggregate commitments, whose
      constant term is what the public key is made from. */
  lemma AggregateConsistent(p: Params, A: Mat, n: nat, t: nat, x: int, shares: map<int, Vec>, commits: map<int, seq<Vec>>)
    requires IsMap(p, A) && Shaped(p, shares, commits) && Acceptable(p, A, n, t, x, shares, commits)
    ensures AllLength(InParties(shares, n), p.N) && AreDealt(InParties(commits, n), t, p.M)
    ensures Through(p, A, VSum(p.r, InParties(shares, n), p.N)) == Combo(p.r, SumPoly(p.r, InParties(commits, n), t, p.M), x, p.M)
  {
    hide Elem, Combo, VSum, Through;
    var ss, cs := InParties(shares, n), InParties(commits, n);
    var images := Evaluations(p.r, cs, t, x, p.M);
    forall i | 0 <= i < n ensures |ss[i]| == p.N && images[i] == Through(p, A, ss[i]) {
      assert Consistent(p, A, shares[i], commits[i], t, x);
    }
    ThroughSum(p, A, ss, images);
    EvaluationSum(p.r, cs, t, x, p.M);
  }

  lemma {:induction false} ThroughSum(p: Params, A: Mat, vs: seq<Vec>, ws: seq<Vec>)
    requires IsMap(p, A) && AllLength(vs, p.N) && AreImages(p, A, vs, ws)
    ensures AllLength(ws, p.M) && VSum(p.r, ws, p.M) == Through(p, A, VSum(p.r, vs, p.N))
  {
    hide Elem, VAdd, Through;
    if vs == [] {
      ThroughZero(p, A);
    } else {
      var n := |vs| - 1;
      ThroughSum(p, A, vs[..n], ws[..n]);
      ThroughAdd(p, A, VSum(p.r, vs[..n], p.N), vs[n]);
    }
  }

  /** All aggregate shares are values at j + 1 of the one polynomial that sums the dealers' polynomials: they are a
      sharing, with degree below t, of the sum of the dealers' constants. */
  lemma AggregateIsSharing(r: Ring, css: seq<seq<Vec>>, t: nat, len: nat, m: map<int, Share>, secret: Share)
    requires t >= 1 && AreDealt(css, t, len) && secret == SumPoly(r, css, t, len)[0]
    requires forall x :: x in m ==> m[x] == Combo(r, SumPoly(r, css, t, len), x, len)
    ensures IsSharing(m, t, secret, len, r.n, r.q)
  {
    hide Cong, Combo, VSum;
    var cs := SumPoly(r, css, t, len);
    assert IsVec(r, cs[0], len);
    forall x | x in m ensures Shape(m[x], len, r.n) {
      assert IsVec(r, m[x], len);
    }
    forall v, j | 0 <= v < len && 0 <= j < r.n ensures SlotSharing(m, t, v, j, secret[v][j], r.q) {
      var f := Slots(Coord(cs, v), j);
      forall x | x in m ensures Cong(m[x][v][j], Eval(f, x), r.q) {
        ComboSlot(r, cs, x, len, v, j);
      }
      assert Elem(r, cs[0][v]);
      assert Eval(f, 0) == f[0] + 0 * Eval(f[1..], 0);
      assert f[0] == secret[v][j];
      CongRefl(f[0], r.q);
      assert |f| == t && SlotShares(m, v, j, f, r.q) && Cong(Eval(f, 0), secret[v][j], r.q);
    }
  }
}
