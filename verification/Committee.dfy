/** What the key shares of a committee add up to: the weighted shares of every signer set that covers
    the share holders sum to the secret behind the public key. */
module Committee {
  import opened Zq
  import opened Polynomials
  import opened Rq
  import opened Transform
  import opened SignAlgebra
  import opened SignRounding
  import opened Sign
  import opened Protocol
  import opened Rounding
  import opened Reshare
  import opened Randomness
  import opened Shamir

  // ----- sums over a signer set ----------------------------------------------------

  ghost function Range(k: nat): (ids: seq<int>)
    ensures |ids| == k && forall i :: 0 <= i < k ==> ids[i] == i
  {
    seq(k, i => i)
  }

  /** Terms outside 0..k-1 being zero, a sum over any list that covers 0..k-1 is the sum over 0..k-1. */
  lemma {:induction false} SumSupport(r: Ring, f: map<int, Poly>, T: seq<int>, k: nat)
    requires NoRepeats(T) && (forall i :: 0 <= i < k ==> i in T) && (forall x :: x in T ==> x in f)
    requires forall x :: x in T && !(0 <= x < k) ==> f[x] == Zero(r)
    requires forall x :: x in Range(k) ==> x in f
    ensures PSum(r, Image(f, T)) == PSum(r, Image(f, Range(k)))
  {
    hide Add, Zero, Image, PSum;
    if k == 0 {
      NoneLeft(r, f, T);
    } else {
      var x := k - 1;
      assert x in T;
      var i :| 0 <= i < |T| && T[i] == x;
      WithoutOne(T, i);
      ExtractOne(r, f, T, i);
      RangeSnoc(r, f, x);
      SumSupport(r, f, Without(T, i), x);
    }
  }

  lemma NoneLeft(r: Ring, f: map<int, Poly>, T: seq<int>)
    requires forall x :: x in T ==> x in f && f[x] == Zero(r)
    ensures PSum(r, Image(f, T)) == PSum(r, Image(f, Range(0)))
  {
    hide Zero;
    PSumZeros(r, Image(f, T));
    PSumZeros(r, Image(f, Range(0)));
  }

  lemma ExtractOne(r: Ring, f: map<int, Poly>, T: seq<int>, i: nat)
    requires i < |T| && forall x :: x in T ==> x in f
    ensures (forall x :: x in Without(T, i) ==> x in f) && T[i] in f
    ensures PSum(r, Image(f, T)) == Add(r, PSum(r, Image(f, Without(T, i))), f[T[i]])
  {
    hide Add, PSum;
    assert T[i] in T;
    ImageWithout(f, T, i);
    PSumExtract(r, Image(f, T), i);
  }

  lemma RangeSnoc(r: Ring, f: map<int, Poly>, k: nat)
    requires forall x :: x in Range(k + 1) ==> x in f
    ensures (forall x :: x in Range(k) ==> x in f) && k in f
    ensures PSum(r, Image(f, Range(k + 1))) == Add(r, PSum(r, Image(f, Range(k))), f[k])
  {
    hide Add;
    forall x | 0 <= x < k + 1 ensures x in f {
      assert Range(k + 1)[x] == x;
    }
    var xs := Image(f, Range(k + 1));
    assert xs[..k] == Image(f, Range(k)) && xs[k] == f[k];
  }

  lemma WithoutOne(T: seq<int>, i: nat)
    requires NoRepeats(T) && i < |T|
    ensures NoRepeats(Without(T, i)) && forall x :: x in Without(T, i) <==> x in T && x != T[i]
  {
    var rest := Without(T, i);
    forall k | 0 <= k < |rest| ensures rest[k] == if k < i then T[k] else T[k + 1] {
    }
    forall x | x in T && x != T[i] ensures x in rest {
      var k :| 0 <= k < |T| && T[k] == x;
      assert k < i ==> rest[k] == x;
      assert k > i ==> rest[k - 1] == x;
    }
  }

  // ----- from shares to the signing secret -----------------------------------------

  /** In every coefficient the weights recover s from the shares, held in coefficient form. */
  ghost predicate Recovers(r: Ring, w: seq<int>, std: seq<Vec>, s: Vec, N: nat) {
    && |w| == |std| && AllLength(std, N) && IsVec(r, s, N)
    && forall v, j :: 0 <= v < N && 0 <= j < r.n ==> Cong(Dot(w, Slots(Coord(std, v), j)), s[v][j], r.q)
  }

  /** What party id signs with: its share and weight in the transform domain, or no share at all. */
  ghost predicate Holds(p: Params, share: Vec, weight: Poly, id: int, std: seq<Vec>, w: seq<int>)
    requires |w| == |std|
  {
    if 0 <= id < |std| then share == VApply(p.r, p.t.forward, std[id]) && weight == Const(p.r, w[id]) else share == []
  }

  ghost function Term(p: Params, id: int, std: seq<Vec>, w: seq<int>, v: nat): Poly
    requires |w| == |std| && AllLength(std, p.N) && v < p.N
  {
    if 0 <= id < |std| then Mul(p.r, Apply(p.r, p.t.forward, std[id][v]), Const(p.r, w[id])) else Zero(p.r)
  }

  lemma WeightedTerm(p: Params, share: Vec, weight: Poly, id: int, std: seq<Vec>, w: seq<int>, v: nat)
    requires |w| == |std| && AllLength(std, p.N) && v < p.N && |share| <= p.N && Holds(p, share, weight, id, std, w)
    ensures WeightedShare(p, share, weight)[v] == Term(p, id, std, w, v)
  {
    hide Apply, Mul, Elem;
  }

  /** The weighted share of party id, coordinate by coordinate. */
  ghost function HolderTerm(p: Params, id: int, std: seq<Vec>, w: seq<int>): (v: Vec)
    requires |w| == |std| && AllLength(std, p.N)
    ensures |v| == p.N
  {
    seq(p.N, v requires 0 <= v < p.N => Term(p, id, std, w, v))
  }

  ghost function HolderTerms(p: Params, T: seq<int>, std: seq<Vec>, w: seq<int>): (vs: seq<Vec>)
    requires |w| == |std| && AllLength(std, p.N)
    ensures |vs| == |T| && AllLength(vs, p.N)
  {
    seq(|T|, a requires 0 <= a < |T| => HolderTerm(p, T[a], std, w))
  }

  /** The signer list T, with the full weights, sums to the secret of every sharing. */
  ghost predicate Suffices(p: Params, T: seq<int>, w: seq<int>) {
    forall std, s :: Recovers(p.r, w, std, s, p.N) ==> VSum(p.r, HolderTerms(p, T, std, w), p.N) == VApply(p.r, p.t.forward, s)
  }

  /** A signer set that contains every share holder sums to the secret. */
  lemma CoverSum(p: Params, T: seq<int>, std: seq<Vec>, w: seq<int>, s: Vec)
    requires Recovers(p.r, w, std, s, p.N) && NoRepeats(T) && forall i :: 0 <= i < |std| ==> i in T
    ensures VSum(p.r, HolderTerms(p, T, std, w), p.N) == VApply(p.r, p.t.forward, s)
  {
    forall v | 0 <= v < p.N ensures VSum(p.r, HolderTerms(p, T, std, w), p.N)[v] == VApply(p.r, p.t.forward, s)[v] {
      CoverCoordinate(p, T, std, w, s, v);
    }
  }

  lemma CoverCoordinate(p: Params, T: seq<int>, std: seq<Vec>, w: seq<int>, s: Vec, v: nat)
    requires Recovers(p.r, w, std, s, p.N) && v < p.N && NoRepeats(T) && forall i :: 0 <= i < |std| ==> i in T
    ensures VSum(p.r, HolderTerms(p, T, std, w), p.N)[v] == Apply(p.r, p.t.forward, s[v])
  {
    hide Apply, Mul, PSum, Elem, Cong;
    var k := |std|;
    var f := map id | id in T :: Term(p, id, std, w, v);
    var all := HolderTerms(p, T, std, w);
    VSumCoord(p.r, all, p.N, v);
    assert Coord(all, v) == Image(f, T);
    SumSupport(p.r, f, T, k);
    var terms := Image(f, Range(k));
    ElemLength(p.r, s[v]);
    WeightedSum(p.r, p.t, w, Coord(std, v), s[v], terms);
  }

  /** The weighted shares of a session whose signers contain every share holder sum to the secret. */
  lemma CommitteeSecret(p: Params, suite: Suite, x: Session, std: seq<Vec>, w: seq<int>, s: Vec)
    requires SessionOk(p, suite, x) && Recovers(p.r, w, std, s, p.N)
    requires NoRepeats(x.T) && forall i :: 0 <= i < |std| ==> i in x.T
    requires forall a :: 0 <= a < |x.T| ==> Holds(p, x.shares[a], x.lambdas[a], x.T[a], std, w)
    ensures VSum(p.r, Weighted(p, suite, x), p.N) == VApply(p.r, p.t.forward, s)
  {
    hide SuiteOk, SeedsOk, IsNonce, Holds, Term, WeightedShare, Cong, VSum, VApply;
    forall a | 0 <= a < |x.T| ensures Weighted(p, suite, x)[a] == HolderTerms(p, x.T, std, w)[a] {
      forall v | 0 <= v < p.N ensures Weighted(p, suite, x)[a][v] == HolderTerm(p, x.T[a], std, w)[v] {
        WeightedTerm(p, x.shares[a], x.lambdas[a], x.T[a], std, w, v);
      }
    }
    assert Weighted(p, suite, x) == HolderTerms(p, x.T, std, w);
    CoverSum(p, x.T, std, w, s);
  }

  lemma ElemLength(r: Ring, a: Poly)
    requires Elem(r, a)
    ensures |a| == r.n
  {
  }

  // ----- a missing holder ----------------------------------------------------------

  /** The vector with c as the constant of its first entry and zero elsewhere. */
  ghost function FirstConstant(r: Ring, c: int, N: nat): (v: Vec)
    ensures IsVec(r, v, N)
    ensures forall k :: 0 <= k < N ==> v[k] == if k == 0 then Monomial(r, c) else Zero(r)
  {
    var v := seq(N, k => if k == 0 then Monomial(r, c) else Zero(r));
    assert forall k :: 0 <= k < N ==> v[k] == if k == 0 then Monomial(r, c) else Zero(r);
    v
  }

  /** Everybody holds zero except party i, which holds 1. */
  ghost function OnlyHolder(r: Ring, k: nat, i: nat, N: nat): (std: seq<Vec>)
    ensures |std| == k && AllLength(std, N)
    ensures forall a :: 0 <= a < k ==> std[a] == if a == i then FirstConstant(r, 1, N) else VZero(r, N)
  {
    var std := seq(k, a => if a == i then FirstConstant(r, 1, N) else VZero(r, N));
    assert forall a :: 0 <= a < k ==> std[a] == if a == i then FirstConstant(r, 1, N) else VZero(r, N);
    std
  }

  lemma {:induction false} DotUnit(w: seq<int>, ys: seq<int>, i: nat)
    requires |w| == |ys| && i < |w| && forall a :: 0 <= a < |ys| && a != i ==> ys[a] == 0
    ensures Dot(w, ys) == w[i] * ys[i]
  {
    var n := |w| - 1;
    if i < n {
      DotUnit(w[..n], ys[..n], i);
    } else {
      DotNone(w[..n], ys[..n]);
    }
  }

  lemma {:induction false} DotNone(w: seq<int>, ys: seq<int>)
    requires |w| == |ys| && forall a :: 0 <= a < |ys| ==> ys[a] == 0
    ensures Dot(w, ys) == 0
  {
    if ys != [] {
      DotNone(w[..|w| - 1], ys[..|w| - 1]);
    }
  }

  lemma OnlyHolderRecovers(r: Ring, w: seq<int>, i: nat, N: nat)
    requires i < |w| && r.q > 1
    ensures Recovers(r, w, OnlyHolder(r, |w|, i, N), FirstConstant(r, w[i], N), N)
  {
    hide Cong;
    var std, s := OnlyHolder(r, |w|, i, N), FirstConstant(r, w[i], N);
    ModUnique(1, 0, 1, r.q);
    forall v, j | 0 <= v < N && 0 <= j < r.n ensures Cong(Dot(w, Slots(Coord(std, v), j)), s[v][j], r.q) {
      var ys := Slots(Coord(std, v), j);
      forall a | 0 <= a < |w| ensures ys[a] == if a == i && v == 0 && j == 0 then 1 else 0 {
      }
      DotUnit(w, ys, i);
      assert s[v][j] == if v == 0 && j == 0 then w[i] % r.q else 0;
      CongRefl(0, r.q);
      UnitSlot(w[i], r.q);
    }
  }

  lemma UnitSlot(c: int, q: int)
    requires q > 0
    ensures Cong(c * 1, c % q, q) && c * 0 == 0
  {
    CongMod(c, q);
  }

  /** Without holder i a signer list sees only zeros. */
  lemma MissingSeesZero(p: Params, T: seq<int>, w: seq<int>, i: nat)
    requires i < |w| && i !in T
    ensures VSum(p.r, HolderTerms(p, T, OnlyHolder(p.r, |w|, i, p.N), w), p.N) == VZero(p.r, p.N)
  {
    hide Apply, Mul, Elem;
    var std := OnlyHolder(p.r, |w|, i, p.N);
    var all := HolderTerms(p, T, std, w);
    forall v | 0 <= v < p.N ensures VSum(p.r, all, p.N)[v] == Zero(p.r) {
      VSumCoord(p.r, all, p.N, v);
      forall a | 0 <= a < |T| ensures Coord(all, v)[a] == Zero(p.r) {
        ApplySum(p.r, p.t.forward, [], []);
        if 0 <= T[a] < |w| {
          assert T[a] in T;
          MulZero(p.r, Const(p.r, w[T[a]]));
        }
      }
      PSumZeros(p.r, Coord(all, v));
    }
  }

  /** With invertible weights a signer list sums to the secret of every sharing exactly when it contains every
      holder. */
  lemma SufficesIff(p: Params, T: seq<int>, w: seq<int>)
    requires IsTransform(p.r, p.t) && p.N >= 1 && p.r.n >= 1 && p.r.q > 1 && NoRepeats(T)
    requires forall i :: 0 <= i < |w| ==> !Cong(w[i], 0, p.r.q)
    ensures Suffices(p, T, w) <==> forall i :: 0 <= i < |w| ==> i in T
  {
    hide IsTransform, Recovers, HolderTerms, VSum, Cong;
    if forall i :: 0 <= i < |w| ==> i in T {
      forall std, s | Recovers(p.r, w, std, s, p.N)
        ensures RecoversShape(p.r, w, std, s, p.N)
        ensures VSum(p.r, HolderTerms(p, T, std, w), p.N) == VApply(p.r, p.t.forward, s)
      {
        ShapeOfRecovers(p.r, w, std, s, p.N);
        CoverSum(p, T, std, w, s);
      }
    } else {
      var i :| 0 <= i < |w| && i !in T;
      var std, s := OnlyHolder(p.r, |w|, i, p.N), FirstConstant(p.r, w[i], p.N);
      OnlyHolderRecovers(p.r, w, i, p.N);
      MissingSeesZero(p, T, w, i);
      SecretNotZero(p, w[i]);
    }
  }

  ghost predicate RecoversShape(r: Ring, w: seq<int>, std: seq<Vec>, s: Vec, N: nat) {
    |w| == |std| && AllLength(std, N) && |s| == N
  }

  lemma ShapeOfRecovers(r: Ring, w: seq<int>, std: seq<Vec>, s: Vec, N: nat)
    requires Recovers(r, w, std, s, N)
    ensures RecoversShape(r, w, std, s, N)
  {
  }

  lemma SecretNotZero(p: Params, c: int)
    requires IsTransform(p.r, p.t) && p.N >= 1 && p.r.n >= 1 && !Cong(c, 0, p.r.q)
    ensures VApply(p.r, p.t.forward, FirstConstant(p.r, c, p.N)) != VZero(p.r, p.N)
  {
    hide Apply, IsTransform;
    ApplyMonomial(p.r, p.t, c);
    var v := VApply(p.r, p.t.forward, FirstConstant(p.r, c, p.N));
    assert v[0] == Const(p.r, c) && VZero(p.r, p.N)[0] == Zero(p.r);
    assert Const(p.r, c)[0] == c % p.r.q && Zero(p.r)[0] == 0;
    ModUnique(0, 0, 0, p.r.q);
  }

  // ----- the full committee --------------------------------------------------------

  /** The evaluation points 1, ..., n. */
  ghost function Points(n: nat): (ids: seq<int>)
    ensures |ids| == n && forall i :: 0 <= i < n ==> ids[i] == i + 1
  {
    seq(n, i => i + 1)
  }

  lemma PointsDistinct(n: nat, q: nat)
    requires 0 < q && n < q
    ensures DistinctMod(Points(n), q)
  {
    var ids := Points(n);
    forall i, j | 0 <= i < j < n ensures !Cong(ids[i], ids[j], q) {
      if Cong(i + 1, j + 1, q) {
        CongSmall(i + 1, j + 1, q);
        assert false;
      }
    }
  }

  /** The weights of a committee smaller than q are all invertible, so the dealer's shortcut never meets a last weight
      without inverse. */
  lemma WeightsInvertible(n: nat, w: seq<int>, q: nat)
    requires Prime(q) && n < q && IsWeights(Points(n), w, q)
    ensures forall i :: 0 <= i < n ==> !Cong(w[i], 0, q)
  {
    hide Cong;
    var ids := Points(n);
    forall i | 0 <= i < n ensures !Cong(w[i], 0, q) {
      forall j | 0 <= j < n ensures !Cong(0, ids[j], q) {
        PointNotZero(j + 1, q);
      }
      SkipProdNonzero(ids, i, 0, q);
      NonzeroFactor(w[i], SkipProd(ids, i, ids[i]), SkipProd(ids, i, 0), q);
    }
  }

  lemma PointNotZero(x: int, q: int)
    requires 0 < x < q
    ensures !Cong(0, x, q)
  {
    if Cong(0, x, q) {
      CongSmall(0, x, q);
      assert false;
    }
  }

  lemma NonzeroFactor(a: int, b: int, c: int, q: int)
    requires q > 0 && Cong(a * b, c, q) && !Cong(c, 0, q)
    ensures !Cong(a, 0, q)
  {
    assert 0 * b == 0;
    if Cong(a, 0, q) {
      CongMul(a, 0, b, b, q);
    }
  }

  ghost function InOrderOfPoint(shares: map<int, Share>, n: nat): (std: seq<Vec>)
    requires forall i :: 1 <= i <= n ==> i in shares
  {
    seq(n, i requires 0 <= i < n => shares[i + 1])
  }

  /** A sharing with threshold at most n, weighted by the n-point Lagrange weights of the whole committee. */
  lemma SharingRecovers(r: Ring, shares: map<int, Share>, t: nat, secret: Share, n: nat, w: seq<int>, N: nat)
    requires Prime(r.q) && IsSharing(shares, t, secret, N, r.n, r.q) && Reduced(secret, r.q)
    requires forall i :: 1 <= i <= n ==> i in shares
    requires t <= n < r.q && IsWeights(Points(n), w, r.q)
    ensures Recovers(r, w, InOrderOfPoint(shares, n), secret, N)
  {
    hide Cong, SlotSharing;
    var std := InOrderOfPoint(shares, n);
    var ids := Points(n);
    PointsDistinct(n, r.q);
    forall v, j | 0 <= v < N && 0 <= j < r.n
      ensures Cong(Dot(w, Slots(Coord(std, v), j)), secret[v][j], r.q)
    {
      AnySubsetReconstructs(shares, t, secret, N, r.n, r.q, ids, w, v, j);
      assert Slots(Coord(std, v), j) == SlotValues(shares, ids, v, j);
    }
  }

  /** A committee that holds a Shamir sharing of the key's secret meets the correctness equation whenever all of
      it signs. */
  lemma FullCommitteeResidual(p: Params, suite: Suite, x: Session, shares: map<int, Share>, t: nat, secret: Share, w: seq<int>,
                              e: Vec, b: Vec, bTilde: Vec, c: Poly)
    requires SessionOk(p, suite, x) && Standard(p) && Prime(Q)
    requires IsSharing(shares, t, secret, p.N, p.r.n, Q) && Reduced(secret, Q) && t <= |x.T| < Q
    requires IsKey(p, x.A, VApply(p.r, p.t.forward, secret), e, b, bTilde)
    requires NoRepeats(x.T) && (forall i :: 0 <= i < |x.T| ==> i in x.T) && IsWeights(Points(|x.T|), w, Q)
    requires forall i :: 1 <= i <= |x.T| ==> i in shares
    requires forall a :: 0 <= a < |x.T| ==> Holds(p, x.shares[a], x.lambdas[a], x.T[a], InOrderOfPoint(shares, |x.T|), w)
    ensures MeetsEquation(p, suite, x, VApply(p.r, p.t.forward, secret), e, b, bTilde, c)
  {
    hide SuiteOk, SeedsOk, IsNonce, Holds, IsSharing, Cong, Elem, RunResidual, RunNoise, VSub, SumTimes, Ds, U, KeyError, VSum, VApply, Recovers;
    SharingRecovers(p.r, shares, t, secret, |x.T|, w, p.N);
    CommitteeSecret(p, suite, x, InOrderOfPoint(shares, |x.T|), w, secret);
    HonestResidual(p, suite, x, VApply(p.r, p.t.forward, secret), e, b, bTilde, c);
  }

  // ----- the dealer that shares among the first k parties --------------------------

  /** One polynomial of the vector: rows[i] is party i's share of it. */
  method ShareVector(secret: seq<nat>, draws: seq<seq<nat>>, lambdas: seq<int>, k: nat, N: nat, q: nat) returns (rows: Option<seq<seq<nat>>>)
    requires Prime(q) && 1 <= k <= |lambdas| && |secret| == N == |draws| && forall j :: 0 <= j < N ==> |draws[j]| == k - 1
    ensures N > 0 ==> (rows.Some? <==> !Cong(lambdas[k - 1], 0, q))
    ensures rows.Some? ==> |rows.value| == k && RowsRecover(rows.value, secret, draws, lambdas, k, N, q)
    ensures rows.Some? ==> forall i :: 0 <= i < k ==> |rows.value[i]| == N
    ensures rows.Some? ==> forall i, j :: 0 <= i < k - 1 && 0 <= j < N ==> rows.value[i][j] == draws[j][i]
    ensures N == 0 ==> rows.Some?
  {
    var out: seq<seq<nat>> := seq(k, _ => []);
    for j := 0 to N
      invariant |out| == k && RowsRecover(out, secret[..j], draws[..j], lambdas, k, j, q)
      invariant j > 0 ==> !Cong(lambdas[k - 1], 0, q)
    {
      var s := ShareSlot(secret[j], draws[j], lambdas, q);
      if s.None? {
        return None;
      }
      ghost var before := out;
      out := seq(k, i requires 0 <= i < k => out[i] + [s.value[i]]);
      RowsSnoc(before, out, secret, draws, lambdas, k, j, s.value, q);
    }
    assert secret[..N] == secret && draws[..N] == draws;
    return Some(out);
  }

  ghost predicate RowsRecover(rows: seq<seq<nat>>, secret: seq<nat>, draws: seq<seq<nat>>, lambdas: seq<int>, k: nat, N: nat, q: nat)
    requires q > 0 && 1 <= k <= |lambdas| && |secret| == N == |draws| && |rows| == k
    requires forall j :: 0 <= j < N ==> |draws[j]| == k - 1
  {
    && (forall i :: 0 <= i < k ==> |rows[i]| == N)
    && (forall i, j :: 0 <= i < k - 1 && 0 <= j < N ==> rows[i][j] == draws[j][i])
    && forall j :: 0 <= j < N ==> Cong(Dot(lambdas[..k], ColumnOf(rows, j)), secret[j], q)
  }

  ghost function ColumnOf(rows: seq<seq<nat>>, j: nat): seq<int>
    requires forall i :: 0 <= i < |rows| ==> j < |rows[i]|
  {
    seq(|rows|, i requires 0 <= i < |rows| => rows[i][j])
  }

  lemma RowsSnoc(rows: seq<seq<nat>>, out: seq<seq<nat>>, secret: seq<nat>, draws: seq<seq<nat>>, lambdas: seq<int>, k: nat, j: nat, s: seq<nat>, q: nat)
    requires q > 0 && 1 <= k <= |lambdas| && j < |secret| == |draws| && |rows| == |out| == k == |s|
    requires forall l :: 0 <= l < |draws| ==> |draws[l]| == k - 1
    requires RowsRecover(rows, secret[..j], draws[..j], lambdas, k, j, q)
    requires forall i :: 0 <= i < k ==> out[i] == rows[i] + [s[i]]
    requires s[..k - 1] == draws[j] && Cong(Dot(lambdas[..k], s), secret[j], q)
    ensures RowsRecover(out, secret[..j + 1], draws[..j + 1], lambdas, k, j + 1, q)
  {
    hide Cong, Dot;
    forall l | 0 <= l < j + 1 ensures Cong(Dot(lambdas[..k], ColumnOf(out, l)), secret[l], q) {
      if l < j {
        assert ColumnOf(out, l) == ColumnOf(rows, l);
        assert secret[..j][l] == secret[l];
      } else {
        assert ColumnOf(out, l) == s;
      }
    }
    forall i, l | 0 <= i < k - 1 && 0 <= l < j + 1 ensures out[i][l] == draws[l][i] {
      if l < j {
        assert out[i][l] == rows[i][l] == draws[..j][l][i];
      } else {
        assert s[..k - 1][i] == s[i];
      }
    }
  }

  /** Party i's rows are its share; k - 1 parties hold the drawn values, the last one what the weights leave. */
  ghost predicate SplitRecovers(shares: seq<Share>, secret: Share, draws: Cube, lambdas: seq<int>, k: nat, n: nat, N: nat, q: nat)
    requires q > 0 && 1 <= k <= |lambdas| && Shape(secret, n, N) && DrawsFit(draws, n, N, k)
  {
    && |shares| == k && (forall i :: 0 <= i < k ==> |shares[i]| == n)
    && forall v :: 0 <= v < n ==> RowsRecover(RowsOf(shares, v), secret[v], draws[v], lambdas, k, N, q)
  }

  ghost function RowsOf(shares: seq<Share>, v: nat): seq<seq<nat>>
    requires forall i :: 0 <= i < |shares| ==> v < |shares[i]|
  {
    seq(|shares|, i requires 0 <= i < |shares| => shares[i][v])
  }

  /** ShamirSecretSharing among k parties. None is the panic on a last weight without inverse. */
  method ShamirSecretSharing(secret: Share, k: nat, lambdas: seq<int>, draws: Cube, nVec: nat, N: nat, q: nat) returns (r: Option<seq<Share>>)
    requires Prime(q) && 1 <= k <= |lambdas| && Shape(secret, nVec, N) && DrawsFit(draws, nVec, N, k)
    ensures nVec > 0 && N > 0 ==> (r.Some? <==> !Cong(lambdas[k - 1], 0, q))
    ensures r.Some? ==> SplitRecovers(r.value, secret, draws, lambdas, k, nVec, N, q)
    ensures r.Some? ==> forall i :: 0 <= i < k ==> |r.value[i]| == nVec && forall v :: 0 <= v < nVec ==> |r.value[i][v]| == N
    ensures r.Some? ==> forall i, v, j :: 0 <= i < k - 1 && 0 <= v < nVec && 0 <= j < N ==> r.value[i][v][j] == draws[v][j][i]
    ensures nVec == 0 || N == 0 ==> r.Some?
  {
    hide RowsRecover;
    var out: seq<Share> := seq(k, _ => []);
    for v := 0 to nVec
      invariant DrawsFit(draws[..v], v, N, k) && Shape(secret[..v], v, N)
      invariant SplitRecovers(out, secret[..v], draws[..v], lambdas, k, v, N, q)
      invariant v > 0 && N > 0 ==> !Cong(lambdas[k - 1], 0, q)
    {
      var rows := ShareVector(secret[v], draws[v], lambdas, k, N, q);
      if rows.None? {
        return None;
      }
      ghost var before := out;
      out := seq(k, i requires 0 <= i < k => out[i] + [rows.value[i]]);
      forall l | 0 <= l < v + 1 ensures RowsRecover(RowsOf(out, l), secret[l], draws[l], lambdas, k, N, q) {
        if l < v {
          assert RowsOf(out, l) == RowsOf(before, l);
          assert secret[..v][l] == secret[l] && draws[..v][l] == draws[l];
        } else {
          assert RowsOf(out, l) == rows.value;
        }
      }
    }
    assert secret[..nVec] == secret && draws[..nVec] == draws;
    SplitDrawn(out, secret, draws, lambdas, k, nVec, N, q);
    return Some(out);
  }

  lemma SplitDrawn(shares: seq<Share>, secret: Share, draws: Cube, lambdas: seq<int>, k: nat, n: nat, N: nat, q: nat)
    requires q > 0 && 1 <= k <= |lambdas| && Shape(secret, n, N) && DrawsFit(draws, n, N, k)
    requires SplitRecovers(shares, secret, draws, lambdas, k, n, N, q)
    ensures forall i :: 0 <= i < k ==> |shares[i]| == n && forall v :: 0 <= v < n ==> |shares[i][v]| == N
    ensures forall i, v, j :: 0 <= i < k - 1 && 0 <= v < n && 0 <= j < N ==> shares[i][v][j] == draws[v][j][i]
  {
    hide Cong, Dot;
    forall i, v | 0 <= i < k && 0 <= v < n ensures |shares[i][v]| == N {
      assert RowsRecover(RowsOf(shares, v), secret[v], draws[v], lambdas, k, N, q);
      assert RowsOf(shares, v)[i] == shares[i][v];
    }
    forall i, v, j | 0 <= i < k - 1 && 0 <= v < n && 0 <= j < N ensures shares[i][v][j] == draws[v][j][i] {
      assert RowsRecover(RowsOf(shares, v), secret[v], draws[v], lambdas, k, N, q);
      assert RowsOf(shares, v)[i] == shares[i][v];
    }
  }

  /** The dealer's shares for the first k parties recover the secret with the k first weights, so a signer set
      that contains those k parties (the others hold nothing) sums to it. */
  lemma SplitIsEnough(p: Params, suite: Suite, x: Session, shares: seq<Share>, secret: Share, draws: Cube, lambdas: seq<int>, k: nat)
    requires SessionOk(p, suite, x) && 1 <= k <= |lambdas| && Shape(secret, p.N, p.r.n) && Reduced(secret, p.r.q)
    requires DrawsFit(draws, p.N, p.r.n, k) && SplitRecovers(shares, secret, draws, lambdas, k, p.N, p.r.n, p.r.q)
    requires NoRepeats(x.T) && forall i :: 0 <= i < k ==> i in x.T
    requires forall a :: 0 <= a < |x.T| ==> Holds(p, x.shares[a], x.lambdas[a], x.T[a], shares, lambdas[..k])
    ensures VSum(p.r, Weighted(p, suite, x), p.N) == VApply(p.r, p.t.forward, secret)
  {
    SplitAllSlots(p.r, shares, secret, draws, lambdas, k, p.N);
    CommitteeSecret(p, suite, x, shares, lambdas[..k], secret);
  }

  /** So the trusted dealer's key generation meets the correctness equation whenever those k parties are among the
      signers. */
  lemma DealerResidual(p: Params, suite: Suite, x: Session, shares: seq<Share>, secret: Share, draws: Cube, lambdas: seq<int>, k: nat,
                       e: Vec, b: Vec, bTilde: Vec, c: Poly)
    requires SessionOk(p, suite, x) && Standard(p) && 1 <= k <= |lambdas| && Shape(secret, p.N, p.r.n) && Reduced(secret, p.r.q)
    requires DrawsFit(draws, p.N, p.r.n, k) && SplitRecovers(shares, secret, draws, lambdas, k, p.N, p.r.n, p.r.q)
    requires NoRepeats(x.T) && forall i :: 0 <= i < k ==> i in x.T
    requires forall a :: 0 <= a < |x.T| ==> Holds(p, x.shares[a], x.lambdas[a], x.T[a], shares, lambdas[..k])
    requires IsKey(p, x.A, VApply(p.r, p.t.forward, secret), e, b, bTilde)
    ensures MeetsEquation(p, suite, x, VApply(p.r, p.t.forward, secret), e, b, bTilde, c)
  {
    hide SuiteOk, SeedsOk, IsNonce, Holds, Cong, Elem, RunResidual, RunNoise, VSub, SumTimes, Ds, U, KeyError, VSum, VApply, SplitRecovers;
    SplitIsEnough(p, suite, x, shares, secret, draws, lambdas, k);
    HonestResidual(p, suite, x, VApply(p.r, p.t.forward, secret), e, b, bTilde, c);
  }

  lemma SplitAllSlots(r: Ring, shares: seq<Share>, secret: Share, draws: Cube, lambdas: seq<int>, k: nat, N: nat)
    requires 1 <= k <= |lambdas| && Shape(secret, N, r.n) && Reduced(secret, r.q)
    requires DrawsFit(draws, N, r.n, k) && SplitRecovers(shares, secret, draws, lambdas, k, N, r.n, r.q)
    ensures Recovers(r, lambdas[..k], shares, secret, N)
  {
    hide Cong;
    forall v, j | 0 <= v < N && 0 <= j < r.n
      ensures Cong(Dot(lambdas[..k], Slots(Coord(shares, v), j)), secret[v][j], r.q)
    {
      var rows := RowsOf(shares, v);
      assert RowsRecover(rows, secret[v], draws[v], lambdas, k, r.n, r.q);
      forall i | 0 <= i < k ensures At(Coord(shares, v)[i], j) == rows[i][j] {
      }
      assert Slots(Coord(shares, v), j) == ColumnOf(rows, j);
    }
  }
}
