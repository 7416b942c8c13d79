/** The number-theoretic transform as a linear map and its inverse, both given by matrices. */
module Transform {
  import opened Zq
  import opened Rq
  import Polynomials

  datatype Ntt = Ntt(forward: seq<seq<int>>, inverse: seq<seq<int>>)

  function RowAt(w: seq<seq<int>>, k: nat): seq<int> {
    if k < |w| then w[k] else []
  }

  function RowDot(u: seq<int>, a: Poly, n: nat): int {
    if n == 0 then 0 else RowDot(u, a, n - 1) + At(u, n - 1) * At(a, n - 1)
  }

  function Apply(r: Ring, w: seq<seq<int>>, a: Poly): (b: Poly)
    ensures Elem(r, b)
  {
    seq(r.n, k requires 0 <= k < r.n => RowDot(RowAt(w, k), a, r.n) % r.q)
  }

  function VApply(r: Ring, w: seq<seq<int>>, v: Vec): (b: Vec)
    ensures IsVec(r, b, |v|)
  {
    seq(|v|, i requires 0 <= i < |v| => Apply(r, w, v[i]))
  }

  /** The two matrices are inverse bijections on ring elements, and the constant 1 transforms to
      1 in every slot. */
  ghost predicate IsTransform(r: Ring, t: Ntt) {
    && (forall a :: Elem(r, a) ==> Apply(r, t.inverse, Apply(r, t.forward, a)) == a)
    && (forall a :: Elem(r, a) ==> Apply(r, t.forward, Apply(r, t.inverse, a)) == a)
    && (forall k :: 0 <= k < r.n ==> At(RowAt(t.forward, k), 0) == 1)
  }

  lemma {:induction false} RowDotLinear(u: seq<int>, a: Poly, b: Poly, c: Poly, s: int, n: nat, q: int)
    requires q > 0 && forall i :: 0 <= i < n ==> Cong(At(c, i), At(a, i) + s * At(b, i), q)
    ensures Cong(RowDot(u, c, n), RowDot(u, a, n) + s * RowDot(u, b, n), q)
  {
    hide Cong;
    if n == 0 {
      CongRefl(0, q);
      assert s * 0 == 0;
    } else {
      RowDotLinear(u, a, b, c, s, n - 1, q);
      var C, A, B := RowDot(u, c, n - 1), RowDot(u, a, n - 1), RowDot(u, b, n - 1);
      var x, y, z := At(u, n - 1) * At(c, n - 1), At(u, n - 1) * At(a, n - 1), At(u, n - 1) * At(b, n - 1);
      LinearTerm(C, A, B, At(u, n - 1), At(a, n - 1), At(b, n - 1), At(c, n - 1), s, q);
      assert RowDot(u, c, n) == C + x && RowDot(u, a, n) == A + y && RowDot(u, b, n) == B + z;
    }
  }

  lemma LinearTerm(C: int, A: int, B: int, u: int, a: int, b: int, c: int, s: int, q: int)
    requires q > 0 && Cong(C, A + s * B, q) && Cong(c, a + s * b, q)
    ensures Cong(C + u * c, A + u * a + s * (B + u * b), q)
  {
    CongMul(u, u, c, a + s * b, q);
    CongAdd(C, A + s * B, u * c, u * (a + s * b), q);
    assert u * (a + s * b) == u * a + s * (u * b);
    assert s * (B + u * b) == s * B + s * (u * b);
  }

  lemma ApplyAdd(r: Ring, w: seq<seq<int>>, a: Poly, b: Poly)
    ensures Apply(r, w, Add(r, a, b)) == Add(r, Apply(r, w, a), Apply(r, w, b))
  {
    var c := Add(r, a, b);
    forall i | 0 <= i < r.n ensures Cong(At(c, i), At(a, i) + 1 * At(b, i), r.q) {
      CongMod(At(a, i) + At(b, i), r.q);
    }
    forall k | 0 <= k < r.n ensures Apply(r, w, c)[k] == Add(r, Apply(r, w, a), Apply(r, w, b))[k] {
      var u := RowAt(w, k);
      RowDotLinear(u, a, b, c, 1, r.n, r.q);
      ModAddLeft(RowDot(u, a, r.n), RowDot(u, b, r.n) % r.q, r.q);
      ModAddLeft(RowDot(u, b, r.n), RowDot(u, a, r.n), r.q);
    }
  }

  lemma ApplySub(r: Ring, w: seq<seq<int>>, a: Poly, b: Poly)
    ensures Apply(r, w, Sub(r, a, b)) == Sub(r, Apply(r, w, a), Apply(r, w, b))
  {
    var c := Sub(r, a, b);
    forall i | 0 <= i < r.n ensures Cong(At(c, i), At(a, i) + -1 * At(b, i), r.q) {
      CongMod(At(a, i) - At(b, i), r.q);
    }
    forall k | 0 <= k < r.n ensures Apply(r, w, c)[k] == Sub(r, Apply(r, w, a), Apply(r, w, b))[k] {
      var u := RowAt(w, k);
      RowDotLinear(u, a, b, c, -1, r.n, r.q);
      ModSub(RowDot(u, a, r.n), RowDot(u, b, r.n) % r.q, r.q);
      ModSub(RowDot(u, a, r.n), RowDot(u, b, r.n), r.q);
    }
  }

  /** A scalar as a ring element in the transform domain: the same residue in every slot. */
  function Const(r: Ring, c: int): (b: Poly)
    ensures Elem(r, b)
  {
    seq(r.n, _ => c % r.q)
  }

  /** A scalar as a ring element in coefficient form: a constant polynomial. */
  function Monomial(r: Ring, c: int): (b: Poly)
    ensures Elem(r, b)
  {
    seq(r.n, i => if i == 0 then c % r.q else 0)
  }

  function Scalar(r: Ring, c: int, a: Poly): (b: Poly)
    ensures Elem(r, b)
  {
    seq(r.n, i requires 0 <= i < r.n => (c * At(a, i)) % r.q)
  }

  /** Scaling by a constant before the transform is slotwise multiplication after it. */
  lemma ApplyScalar(r: Ring, w: seq<seq<int>>, c: int, a: Poly)
    ensures Apply(r, w, Scalar(r, c, a)) == Mul(r, Const(r, c), Apply(r, w, a))
  {
    var b := Scalar(r, c, a);
    forall i | 0 <= i < r.n ensures Cong(At(b, i), At(Zero(r), i) + c * At(a, i), r.q) {
      CongMod(c * At(a, i), r.q);
    }
    forall k | 0 <= k < r.n ensures Apply(r, w, b)[k] == Mul(r, Const(r, c), Apply(r, w, a))[k] {
      var u := RowAt(w, k);
      RowDotLinear(u, Zero(r), a, b, c, r.n, r.q);
      RowDotZero(r, u, r.n);
      var d := RowDot(u, a, r.n);
      CongMod(c, r.q);
      CongMod(d, r.q);
      CongMul(c % r.q, c, d % r.q, d, r.q);
    }
  }

  lemma {:induction false} RowDotZero(r: Ring, u: seq<int>, n: nat)
    requires n <= r.n
    ensures RowDot(u, Zero(r), n) == 0
  {
    if n > 0 {
      RowDotZero(r, u, n - 1);
      assert At(u, n - 1) * 0 == 0;
    }
  }

  lemma {:induction false} RowDotMonomial(r: Ring, u: seq<int>, c: int, n: nat)
    requires 1 <= n <= r.n && At(u, 0) == 1
    ensures RowDot(u, Monomial(r, c), n) == c % r.q
  {
    if n > 1 {
      RowDotMonomial(r, u, c, n - 1);
      assert At(u, n - 1) * 0 == 0;
    } else {
      assert RowDot(u, Monomial(r, c), 0) == 0;
    }
  }

  /** The transform of a constant polynomial is that constant in every slot. */
  lemma ApplyMonomial(r: Ring, t: Ntt, c: int)
    requires IsTransform(r, t)
    ensures Apply(r, t.forward, Monomial(r, c)) == Const(r, c)
  {
    forall k | 0 <= k < r.n ensures Apply(r, t.forward, Monomial(r, c))[k] == Const(r, c)[k] {
      RowDotMonomial(r, RowAt(t.forward, k), c, r.n);
      CongMod(c, r.q);
    }
  }

  lemma {:induction false} ApplySum(r: Ring, w: seq<seq<int>>, xs: seq<Poly>, ys: seq<Poly>)
    requires |xs| == |ys| && forall i :: 0 <= i < |xs| ==> ys[i] == Apply(r, w, xs[i])
    ensures PSum(r, ys) == Apply(r, w, PSum(r, xs))
  {
    if xs == [] {
      forall k | 0 <= k < r.n ensures Apply(r, w, Zero(r))[k] == 0 {
        RowDotZero(r, RowAt(w, k), r.n);
        ModUnique(0, 0, 0, r.q);
      }
      assert Apply(r, w, Zero(r)) == Zero(r);
    } else {
      var n := |xs| - 1;
      ApplySum(r, w, xs[..n], ys[..n]);
      ApplyAdd(r, w, PSum(r, xs[..n]), xs[n]);
    }
  }

  /** A weighted sum of elements, coefficient by coefficient. */
  lemma {:induction false} PSumSlot(r: Ring, weights: seq<int>, xs: seq<Poly>, ys: seq<Poly>, vals: seq<int>, k: nat)
    requires |weights| == |xs| == |ys| == |vals| && k < r.n
    requires forall i :: 0 <= i < |xs| ==> ys[i] == Scalar(r, weights[i], xs[i]) && vals[i] == At(xs[i], k)
    ensures Cong(PSum(r, ys)[k], Polynomials.Dot(weights, vals), r.q)
  {
    if xs != [] {
      var n := |xs| - 1;
      PSumSlot(r, weights[..n], xs[..n], ys[..n], vals[..n], k);
      var acc, v := PSum(r, ys[..n])[k], weights[n] * vals[n];
      assert PSum(r, ys)[k] == (acc + v % r.q) % r.q;
      SlotStep(acc, Polynomials.Dot(weights[..n], vals[..n]), v, r.q);
    }
  }

  lemma SlotStep(acc: int, dot: int, v: int, q: int)
    requires q > 0 && Cong(acc, dot, q)
    ensures Cong((acc + v % q) % q, dot + v, q)
  {
    CongMod(v, q);
    CongMod(acc + v % q, q);
    CongAdd(acc, dot, v % q, v, q);
  }

  /** If the weights recover each coefficient of s from those of the x_i, then in the transform domain
      the sum of Const(w_i) * x_i is s. */
  lemma WeightedSum(r: Ring, t: Ntt, weights: seq<int>, xs: seq<Poly>, s: Poly, terms: seq<Poly>)
    requires |weights| == |xs| == |terms| && Elem(r, s)
    requires forall i :: 0 <= i < |xs| ==> terms[i] == Mul(r, Apply(r, t.forward, xs[i]), Const(r, weights[i]))
    requires forall k :: 0 <= k < r.n ==> Cong(Polynomials.Dot(weights, Slots(xs, k)), s[k], r.q)
    ensures PSum(r, terms) == Apply(r, t.forward, s)
  {
    var ys := seq(|xs|, i requires 0 <= i < |xs| => Scalar(r, weights[i], xs[i]));
    forall i | 0 <= i < |xs| ensures terms[i] == Apply(r, t.forward, ys[i]) {
      ApplyScalar(r, t.forward, weights[i], xs[i]);
      MulComm(r, Const(r, weights[i]), Apply(r, t.forward, xs[i]));
    }
    ApplySum(r, t.forward, ys, terms);
    forall k | 0 <= k < r.n ensures PSum(r, ys)[k] == s[k] {
      PSumSlot(r, weights, xs, ys, Slots(xs, k), k);
      CongSmall(PSum(r, ys)[k], s[k], r.q);
    }
    assert PSum(r, ys) == s;
  }

  ghost function Slots(xs: seq<Poly>, k: nat): seq<int> {
    seq(|xs|, i requires 0 <= i < |xs| => At(xs[i], k))
  }
}
