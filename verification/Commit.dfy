/** Pedersen commitments to a resharing polynomial: the dealer's and the verifier's Horner loops commute
    with the public linear maps. */
module Commit {
  import opened Zq
  import opened Polynomials
  import opened Rq
  import opened Transform
  import opened SignAlgebra
  import opened VectorOps
  import Shamir

  // ----- evaluation of a polynomial with vector coefficients -----------------------

  /** The sum of x^k c_k. Scaling by a constant is the same in coefficient and transform form. */
  ghost function Combo(r: Ring, cs: seq<Vec>, x: int, len: nat): (w: Vec)
    requires AllLength(cs, len)
    ensures IsVec(r, w, len)
  {
    if cs == [] then VZero(r, len)
    else
      var n := |cs| - 1;
      VAdd(r, Combo(r, cs[..n], x, len), VScale(r, cs[n], Const(r, Pow(x, n))))
  }

  /** polyMulScalar on every entry. */
  function VScalar(r: Ring, c: int, v: Vec): (w: Vec)
    ensures IsVec(r, w, |v|)
  {
    seq(|v|, i requires 0 <= i < |v| => Scalar(r, c, v[i]))
  }

  lemma ScalarIsMul(r: Ring, c: int, a: Poly)
    ensures Scalar(r, c, a) == Mul(r, a, Const(r, c))
  {
    forall i | 0 <= i < r.n ensures (c * At(a, i)) % r.q == (At(a, i) * (c % r.q)) % r.q {
      ModMulLeft(c, At(a, i), r.q);
      assert (c % r.q) * At(a, i) == At(a, i) * (c % r.q);
    }
  }

  lemma VScalarIsScale(r: Ring, c: int, v: Vec)
    ensures VScalar(r, c, v) == VScale(r, v, Const(r, c))
  {
    forall i | 0 <= i < |v| ensures VScalar(r, c, v)[i] == VScale(r, v, Const(r, c))[i] {
      ScalarIsMul(r, c, v[i]);
    }
  }

  lemma ConstMul(r: Ring, c: int, d: int)
    ensures Mul(r, Const(r, c), Const(r, d)) == Const(r, c * d)
  {
    var a, b := c % r.q, d % r.q;
    ResidueProduct(c, d, a, b, r.q);
    assert forall i :: 0 <= i < r.n ==> At(Const(r, c), i) == a && At(Const(r, d), i) == b;
  }

  lemma ResidueProduct(c: int, d: int, a: int, b: int, q: int)
    requires q > 0 && a == c % q && b == d % q
    ensures (a * b) % q == (c * d) % q
  {
    CongMod(c, q);
    CongMod(d, q);
    CongMul(a, c, b, d, q);
  }

  lemma VScaleTwice(r: Ring, v: Vec, c: int, d: int)
    ensures VScale(r, VScale(r, v, Const(r, c)), Const(r, d)) == VScale(r, v, Const(r, c * d))
  {
    hide Const;
    forall i | 0 <= i < |v|
      ensures VScale(r, VScale(r, v, Const(r, c)), Const(r, d))[i] == VScale(r, v, Const(r, c * d))[i]
    {
      PolyMulAssoc(r, v[i], Const(r, c), Const(r, d));
      ConstMul(r, c, d);
    }
  }

  lemma VZeroScale(r: Ring, len: nat, c: Poly)
    ensures VScale(r, VZero(r, len), c) == VZero(r, len)
  {
    MulZero(r, c);
  }

  /** One more low coefficient: c_0 + x (sum of x^k c_(k+1)). */
  lemma {:induction false} ComboCons(r: Ring, cs: seq<Vec>, x: int, len: nat)
    requires AllLength(cs, len) && |cs| > 0
    ensures AllLength(cs[1..], len)
    ensures Combo(r, cs, x, len) == VAdd(r, VScale(r, Combo(r, cs[1..], x, len), Const(r, x)), cs[0])
  {
    hide Const, VScale, VAdd, Elem;
    var n := |cs| - 1;
    if n == 0 {
      assert cs[..0] == [] && cs[1..] == [];
      VZeroScale(r, len, Const(r, x));
      ScaleByOne(r, cs[0]);
    } else {
      ComboCons(r, cs[..n], x, len);
      assert cs[..n][1..] == cs[1..][..n - 1];
      var low, top := Combo(r, cs[1..][..n - 1], x, len), VScale(r, cs[n], Const(r, Pow(x, n - 1)));
      VScaleAdd(r, low, top, Const(r, x));
      VScaleTwice(r, cs[n], Pow(x, n - 1), x);
      Shamir.PowSnoc(x, n - 1);
      SwapLast(r, VScale(r, low, Const(r, x)), cs[0], VScale(r, cs[n], Const(r, Pow(x, n))));
    }
  }

  /** A unit scale only reduces, which the sum does anyway. */
  lemma ScaleByOne(r: Ring, v: Vec)
    ensures VAdd(r, VZero(r, |v|), VScale(r, v, Const(r, Pow(0, 0)))) == VAdd(r, VZero(r, |v|), v)
    ensures forall x :: Const(r, Pow(x, 0)) == Const(r, Pow(0, 0))
  {
    forall i | 0 <= i < |v|
      ensures VAdd(r, VZero(r, |v|), VScale(r, v, Const(r, Pow(0, 0))))[i] == VAdd(r, VZero(r, |v|), v)[i]
    {
      ScalarIsMul(r, 1, v[i]);
      forall k | 0 <= k < r.n ensures ((1 * At(v[i], k)) % r.q) % r.q == At(v[i], k) % r.q {
        CongMod(At(v[i], k), r.q);
      }
    }
  }

  lemma SwapLast(r: Ring, a: Vec, b: Vec, c: Vec)
    requires |a| == |b| == |c|
    ensures VAdd(r, VAdd(r, a, b), c) == VAdd(r, VAdd(r, a, c), b)
  {
    VAddAssoc(r, a, b, c);
    VAddAssoc(r, a, c, b);
    VAddComm(r, b, c);
  }

  /** The Horner loop both the dealer and the verifier run, from the top coefficient down. */
  method Horner(r: Ring, cs: seq<Vec>, x: int, len: nat) returns (acc: Vec)
    requires AllLength(cs, len)
    ensures acc == Combo(r, cs, x, len)
  {
    hide VScale, VAdd, Elem, Const, VScalar;
    acc := VZero(r, len);
    var k := |cs| - 1;
    while k >= 0
      invariant -1 <= k < |cs| && AllLength(cs[k + 1..], len)
      invariant acc == Combo(r, cs[k + 1..], x, len)
    {
      assert cs[k..][1..] == cs[k + 1..];
      assert AllLength(cs[k..], len);
      ComboCons(r, cs[k..], x, len);
      if k < |cs| - 1 {
        VScalarIsScale(r, x, acc);
        acc := VScalar(r, x, acc);
      } else {
        VZeroScale(r, len, Const(r, x));
      }
      acc := VectorAdd(r, acc, cs[k]);
      k := k - 1;
    }
    assert cs[0..] == cs;
  }

  /** Slot by slot the loop evaluates the scalar polynomials of the resharing kernel. */
  lemma {:induction false} ComboSlot(r: Ring, cs: seq<Vec>, x: int, len: nat, v: nat, j: nat)
    requires AllLength(cs, len) && v < len && j < r.n
    ensures Cong(Combo(r, cs, x, len)[v][j], Eval(Slots(Coord(cs, v), j), x), r.q)
  {
    hide Cong, Eval;
    if cs == [] {
      EmptySlot(r, x, len, v, j);
    } else {
      var n := |cs| - 1;
      ComboSlot(r, cs[..n], x, len, v, j);
      var f, c := Slots(Coord(cs[..n], v), j), At(cs[n][v], j);
      assert Slots(Coord(cs, v), j) == f + [c];
      EvalSnoc(f, c, x);
      ComboLast(r, cs, x, len, v, j);
      SlotSum(Combo(r, cs[..n], x, len)[v][j], Eval(f, x), c, Pow(x, n), r.q);
    }
  }

  lemma EmptySlot(r: Ring, x: int, len: nat, v: nat, j: nat)
    requires v < len && j < r.n
    ensures Cong(Combo(r, [], x, len)[v][j], Eval(Slots(Coord([], v), j), x), r.q)
  {
    CongRefl(0, r.q);
  }

  lemma EvalSnoc(f: seq<int>, c: int, x: int)
    ensures Eval(f + [c], x) == Eval(f, x) + Pow(x, |f|) * c
  {
    EvalSplit(f, [c], x);
    assert [c][1..] == [];
    assert Eval([c], x) == c + x * Eval([], x);
  }

  lemma ComboLast(r: Ring, cs: seq<Vec>, x: int, len: nat, v: nat, j: nat)
    requires AllLength(cs, len) && v < len && j < r.n && cs != []
    ensures var n := |cs| - 1;
            Combo(r, cs, x, len)[v][j] ==
            (Combo(r, cs[..n], x, len)[v][j] + (At(cs[n][v], j) * (Pow(x, n) % r.q)) % r.q) % r.q
  {
    hide Add, Mul, Const, Pow;
    var n := |cs| - 1;
    var acc := Combo(r, cs[..n], x, len)[v];
    assert Combo(r, cs, x, len)[v] == Add(r, acc, Mul(r, cs[n][v], Const(r, Pow(x, n))));
    AddScaledSlot(r, acc, cs[n][v], Pow(x, n), j);
  }

  lemma AddScaledSlot(r: Ring, acc: Poly, a: Poly, c: int, j: nat)
    requires Elem(r, acc) && j < r.n
    ensures Add(r, acc, Mul(r, a, Const(r, c)))[j] == (acc[j] + (At(a, j) * (c % r.q)) % r.q) % r.q
  {
    var m := Mul(r, a, Const(r, c));
    assert At(Const(r, c), j) == c % r.q;
    assert At(m, j) == (At(a, j) * At(Const(r, c), j)) % r.q;
  }

  lemma SlotSum(acc: int, e: int, c: int, p: int, q: int)
    requires q > 0 && Cong(acc, e, q)
    ensures Cong((acc + (c * (p % q)) % q) % q, e + p * c, q)
  {
    CongMod(p, q);
    CongMul(c, c, p % q, p, q);
    CongMod(c * (p % q), q);
    CongAdd(acc, e, (c * (p % q)) % q, c * p, q);
    CongMod(acc + (c * (p % q)) % q, q);
    assert c * p == p * c;
  }

  // ----- linear maps ---------------------------------------------------------------

  ghost predicate IsMap(p: Params, A: Mat) {
    |A| == p.M && forall i :: 0 <= i < |A| ==> |A[i]| == p.N
  }

  /** Into the transform domain, then through the public matrix. */
  function Through(p: Params, A: Mat, v: Vec): (w: Vec)
    requires IsMap(p, A) && |v| == p.N
    ensures IsVec(p.r, w, p.M)
  {
    MatVec(p.r, A, VApply(p.r, p.t.forward, v))
  }

  lemma VApplyAdd(r: Ring, w: seq<seq<int>>, u: Vec, v: Vec)
    requires |u| == |v|
    ensures VApply(r, w, VAdd(r, u, v)) == VAdd(r, VApply(r, w, u), VApply(r, w, v))
  {
    forall i | 0 <= i < |u| ensures VApply(r, w, VAdd(r, u, v))[i] == VAdd(r, VApply(r, w, u), VApply(r, w, v))[i] {
      ApplyAdd(r, w, u[i], v[i]);
    }
  }

  lemma VApplyScale(r: Ring, w: seq<seq<int>>, v: Vec, c: int)
    ensures VApply(r, w, VScale(r, v, Const(r, c))) == VScale(r, VApply(r, w, v), Const(r, c))
  {
    hide Const, Apply, Scalar;
    forall i | 0 <= i < |v| ensures VApply(r, w, VScale(r, v, Const(r, c)))[i] == VScale(r, VApply(r, w, v), Const(r, c))[i] {
      ScalarIsMul(r, c, v[i]);
      ApplyScalar(r, w, c, v[i]);
      MulComm(r, Const(r, c), Apply(r, w, v[i]));
    }
  }

  lemma ThroughAdd(p: Params, A: Mat, u: Vec, v: Vec)
    requires IsMap(p, A) && |u| == |v| == p.N
    ensures Through(p, A, VAdd(p.r, u, v)) == VAdd(p.r, Through(p, A, u), Through(p, A, v))
  {
    hide Elem, VAdd, VApply, MatVec;
    VApplyAdd(p.r, p.t.forward, u, v);
    MatVecAdd(p.r, A, VApply(p.r, p.t.forward, u), VApply(p.r, p.t.forward, v));
  }

  lemma ThroughScale(p: Params, A: Mat, v: Vec, c: int)
    requires IsMap(p, A) && |v| == p.N
    ensures Through(p, A, VScale(p.r, v, Const(p.r, c))) == VScale(p.r, Through(p, A, v), Const(p.r, c))
  {
    hide Elem, VScale, VApply, MatVec, Const;
    VApplyScale(p.r, p.t.forward, v, c);
    MatVecScale(p.r, A, VApply(p.r, p.t.forward, v), Const(p.r, c));
  }

  lemma ThroughZero(p: Params, A: Mat)
    requires IsMap(p, A)
    ensures Through(p, A, VZero(p.r, p.N)) == VZero(p.r, p.M)
  {
    var z := VApply(p.r, p.t.forward, VZero(p.r, p.N));
    forall i | 0 <= i < p.N ensures z[i] == Zero(p.r) {
      ApplySum(p.r, p.t.forward, [], []);
    }
    assert z == VZero(p.r, p.N);
    MatVecZero(p.r, A, p.N);
  }

  ghost predicate AreImages(p: Params, A: Mat, cs: seq<Vec>, ds: seq<Vec>)
    requires IsMap(p, A) && AllLength(cs, p.N)
  {
    |ds| == |cs| && forall k :: 0 <= k < |cs| ==> ds[k] == Through(p, A, cs[k])
  }

  /** Evaluating at x and mapping commute: A f(x) is the sum of x^k (A c_k). */
  lemma {:induction false} LinearCombo(p: Params, A: Mat, cs: seq<Vec>, ds: seq<Vec>, x: int)
    requires IsMap(p, A) && AllLength(cs, p.N) && AreImages(p, A, cs, ds)
    ensures AllLength(ds, p.M)
    ensures Through(p, A, Combo(p.r, cs, x, p.N)) == Combo(p.r, ds, x, p.M)
  {
    hide Elem, VAdd, VScale, Through, Const;
    if cs == [] {
      ThroughZero(p, A);
    } else {
      var n := |cs| - 1;
      LinearCombo(p, A, cs[..n], ds[..n], x);
      var c := VScale(p.r, cs[n], Const(p.r, Pow(x, n)));
      ThroughAdd(p, A, Combo(p.r, cs[..n], x, p.N), c);
      ThroughScale(p, A, cs[n], Pow(x, n));
    }
  }

  // ----- commitments ---------------------------------------------------------------

  lemma {:induction false} ComboAdd(r: Ring, us: seq<Vec>, vs: seq<Vec>, x: int, len: nat)
    requires |us| == |vs| && AllLength(us, len) && AllLength(vs, len)
    ensures Combo(r, Sums(r, us, vs, len), x, len) == VAdd(r, Combo(r, us, x, len), Combo(r, vs, x, len))
  {
    hide Elem, VAdd, VScale, Const;
    if us == [] {
      VAddZero(r, VZero(r, len));
    } else {
      var n := |us| - 1;
      var k := Const(r, Pow(x, n));
      assert Sums(r, us, vs, len)[..n] == Sums(r, us[..n], vs[..n], len);
      ComboAdd(r, us[..n], vs[..n], x, len);
      VScaleAdd(r, us[n], vs[n], k);
      Regroup(r, Combo(r, us[..n], x, len), Combo(r, vs[..n], x, len), VScale(r, us[n], k), VScale(r, vs[n], k));
    }
  }

  lemma Regroup(r: Ring, a: Vec, b: Vec, c: Vec, d: Vec)
    requires |a| == |b| == |c| == |d|
    ensures VAdd(r, VAdd(r, a, b), VAdd(r, c, d)) == VAdd(r, VAdd(r, a, c), VAdd(r, b, d))
  {
    hide Add;
    forall i | 0 <= i < |a|
      ensures VAdd(r, VAdd(r, a, b), VAdd(r, c, d))[i] == VAdd(r, VAdd(r, a, c), VAdd(r, b, d))[i]
    {
      AddExchange(r, a[i], b[i], c[i], d[i]);
    }
  }

  /** C_k = A c_k + B r_k. */
  ghost predicate AreCommits(p: Params, A: Mat, B: Mat, cs: seq<Vec>, bs: seq<Vec>, commits: seq<Vec>)
    requires IsMap(p, A) && IsMap(p, B) && |cs| == |bs| && AllLength(cs, p.N) && AllLength(bs, p.N)
  {
    |commits| == |cs| && forall k :: 0 <= k < |cs| ==> commits[k] == VAdd(p.r, Through(p, A, cs[k]), Through(p, B, bs[k]))
  }

  /** CommitToPoly: None is the length mismatch. */
  method CommitToPoly(p: Params, A: Mat, B: Mat, cs: seq<Vec>, bs: seq<Vec>) returns (commits: Option<seq<Vec>>)
    requires IsMap(p, A) && IsMap(p, B) && AllLength(cs, p.N) && AllLength(bs, p.N)
    ensures commits.Some? <==> |cs| == |bs|
    ensures commits.Some? ==> AreCommits(p, A, B, cs, bs, commits.value) && AllLength(commits.value, p.M)
  {
    hide Elem, VAdd, MatVec, VApply;
    if |cs| != |bs| {
      return None;
    }
    var out: seq<Vec> := [];
    for k := 0 to |cs|
      invariant |out| == k && AllLength(out, p.M)
      invariant forall l :: 0 <= l < k ==> out[l] == VAdd(p.r, Through(p, A, cs[l]), Through(p, B, bs[l]))
    {
      var ac := MatrixVectorMul(p.r, A, VApply(p.r, p.t.forward, cs[k]));
      var br := MatrixVectorMul(p.r, B, VApply(p.r, p.t.forward, bs[k]));
      var c := VectorAdd(p.r, ac, br);
      out := out + [c];
    }
    return Some(out);
  }

  datatype CommitError = WrongLength | Mismatch

  /** VerifyShareAgainstCommits accepts exactly when A share + B blind is the sum of beta^k C_k. */
  method VerifyShareAgainstCommits(p: Params, A: Mat, B: Mat, share: Vec, blind: Vec, commits: seq<Vec>, beta: int)
    returns (err: Option<CommitError>)
    requires IsMap(p, A) && IsMap(p, B) && |share| == |blind| == p.N && AllLength(commits, p.M)
    ensures err == Some(WrongLength) <==> commits == []
    ensures commits != [] ==>
              (err.None? <==> VAdd(p.r, Through(p, A, share), Through(p, B, blind)) == Combo(p.r, commits, beta, p.M))
  {
    hide Elem, VAdd, MatVec, VApply, Combo;
    if |commits| == 0 {
      return Some(WrongLength);
    }
    var ash := MatrixVectorMul(p.r, A, VApply(p.r, p.t.forward, share));
    var bbl := MatrixVectorMul(p.r, B, VApply(p.r, p.t.forward, blind));
    var lhs := VectorAdd(p.r, ash, bbl);
    var rhs := Horner(p.r, commits, beta, p.M);
    var eq := true;
    for i := 0 to p.M
      invariant eq <==> lhs[..i] == rhs[..i]
    {
      assert lhs[..i + 1] == lhs[..i] + [lhs[i]] && rhs[..i + 1] == rhs[..i] + [rhs[i]];
      eq := eq && lhs[i] == rhs[i];
    }
    assert lhs[..p.M] == lhs && rhs[..p.M] == rhs;
    return if eq then None else Some(Mismatch);
  }

  /** Honest dealings verify: for any matrices, the evaluations of the committed polynomials satisfy the equation. */
  lemma HonestShareVerifies(p: Params, A: Mat, B: Mat, cs: seq<Vec>, bs: seq<Vec>, commits: seq<Vec>, beta: int)
    requires IsMap(p, A) && IsMap(p, B) && |cs| == |bs| && AllLength(cs, p.N) && AllLength(bs, p.N)
    requires AreCommits(p, A, B, cs, bs, commits)
    ensures AllLength(commits, p.M)
    ensures VAdd(p.r, Through(p, A, Combo(p.r, cs, beta, p.N)), Through(p, B, Combo(p.r, bs, beta, p.N))) ==
            Combo(p.r, commits, beta, p.M)
  {
    hide Elem, VAdd, Through, Combo;
    var ac := seq(|cs|, k requires 0 <= k < |cs| => assert |cs[k]| == p.N; Through(p, A, cs[k]));
    var br := seq(|bs|, k requires 0 <= k < |bs| => assert |bs[k]| == p.N; Through(p, B, bs[k]));
    LinearCombo(p, A, cs, ac, beta);
    LinearCombo(p, B, bs, br, beta);
    ComboAdd(p.r, ac, br, beta, p.M);
    assert commits == Sums(p.r, ac, br, p.M);
  }
}
