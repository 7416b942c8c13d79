/** Polynomials over Z as coefficient sequences (lowest degree first), read modulo q,
    and Lagrange interpolation at zero over a prime field. */
module Polynomials {
  import opened Zq

  ghost function Eval(f: seq<int>, x: int): int {
    if f == [] then 0 else f[0] + x * Eval(f[1..], x)
  }

  ghost function AddPoly(f: seq<int>, g: seq<int>): seq<int>
    requires |f| == |g|
  {
    seq(|f|, i requires 0 <= i < |f| => f[i] + g[i])
  }

  ghost function ScalePoly(c: int, f: seq<int>): seq<int> {
    seq(|f|, i requires 0 <= i < |f| => c * f[i])
  }

  ghost function Zeros(n: nat): seq<int> {
    seq(n, _ => 0)
  }

  lemma {:induction false} EvalAdd(f: seq<int>, g: seq<int>, x: int)
    requires |f| == |g|
    ensures Eval(AddPoly(f, g), x) == Eval(f, x) + Eval(g, x)
  {
    if f != [] {
      assert AddPoly(f, g)[1..] == AddPoly(f[1..], g[1..]);
      EvalAdd(f[1..], g[1..], x);
    }
  }

  lemma {:induction false} EvalScale(c: int, f: seq<int>, x: int)
    ensures Eval(ScalePoly(c, f), x) == c * Eval(f, x)
  {
    if f != [] {
      assert ScalePoly(c, f)[1..] == ScalePoly(c, f[1..]);
      EvalScale(c, f[1..], x);
      MulSwap(c, x, Eval(f[1..], x));
    }
  }

  lemma MulSwap(x: int, y: int, z: int)
    ensures x * (y * z) == y * (x * z)
  {
  }

  lemma {:induction false} EvalZeros(n: nat, x: int)
    ensures Eval(Zeros(n), x) == 0
  {
    if n > 0 {
      assert Zeros(n)[1..] == Zeros(n - 1);
      EvalZeros(n - 1, x);
    }
  }

  lemma {:induction false} EvalPad(f: seq<int>, n: nat, x: int)
    ensures Eval(f + Zeros(n), x) == Eval(f, x)
  {
    if f == [] {
      assert f + Zeros(n) == Zeros(n);
      EvalZeros(n, x);
    } else {
      assert (f + Zeros(n))[1..] == f[1..] + Zeros(n);
      EvalPad(f[1..], n, x);
    }
  }

  /** Coefficientwise congruent polynomials take congruent values. */
  lemma {:induction false} EvalCong(f: seq<int>, g: seq<int>, x: int, y: int, q: int)
    requires q > 0 && |f| == |g| && Cong(x, y, q)
    requires forall i :: 0 <= i < |f| ==> Cong(f[i], g[i], q)
    ensures Cong(Eval(f, x), Eval(g, y), q)
  {
    if f != [] {
      EvalCong(f[1..], g[1..], x, y, q);
      CongMul(x, y, Eval(f[1..], x), Eval(g[1..], y), q);
      CongAdd(f[0], g[0], x * Eval(f[1..], x), y * Eval(g[1..], y), q);
    }
  }

  ghost function Pow(x: int, n: nat): int {
    if n == 0 then 1 else x * Pow(x, n - 1)
  }

  /** Splitting a polynomial at degree |f|. */
  lemma {:induction false} EvalSplit(f: seq<int>, g: seq<int>, x: int)
    ensures Eval(f + g, x) == Eval(f, x) + Pow(x, |f|) * Eval(g, x)
  {
    if f == [] {
      assert f + g == g;
    } else {
      assert (f + g)[1..] == f[1..] + g;
      EvalSplit(f[1..], g, x);
      SplitStep(x, Eval(f[1..], x), Pow(x, |f| - 1), Eval(g, x));
    }
  }

  lemma SplitStep(x: int, a: int, p: int, b: int)
    ensures x * (a + p * b) == x * a + (x * p) * b
  {
    var c := p * b;
    assert x * (a + c) == x * a + x * c;
    assert x * (p * b) == (x * p) * b;
  }

  ghost function Total(s: seq<int>): int {
    if s == [] then 0 else Total(s[..|s| - 1]) + s[|s| - 1]
  }

  lemma {:induction false} TotalCons(a: int, s: seq<int>)
    ensures Total([a] + s) == a + Total(s)
  {
    if s == [] {
      assert [a] + s == [a] && [a][..0] == [];
    } else {
      var n := |s| - 1;
      assert ([a] + s)[..n + 1] == [a] + s[..n];
      TotalCons(a, s[..n]);
    }
  }

  /** A polynomial's value, term by term. */
  lemma {:induction false} EvalIsTotal(f: seq<int>, x: int)
    ensures Eval(f, x) == Total(seq(|f|, d requires 0 <= d < |f| => f[d] * Pow(x, d)))
  {
    hide Pow;
    if f != [] {
      var n := |f| - 1;
      var terms := seq(|f|, d requires 0 <= d < |f| => f[d] * Pow(x, d));
      assert terms[..n] == seq(n, d requires 0 <= d < n => f[..n][d] * Pow(x, d));
      EvalIsTotal(f[..n], x);
      assert f == f[..n] + [f[n]];
      EvalSplit(f[..n], [f[n]], x);
      assert Eval([f[n]], x) == f[n] + x * Eval([], x);
      assert Pow(x, n) * f[n] == f[n] * Pow(x, n);
    }
  }

  /** The same with the constant term apart. */
  lemma ConstantAndPowers(c: int, f: seq<int>, x: int)
    ensures Eval([c] + f, x) == c + Total(seq(|f|, d requires 0 <= d < |f| => f[d] * Pow(x, d + 1)))
  {
    hide Eval;
    var g := [c] + f;
    EvalIsTotal(g, x);
    assert Pow(x, 0) == 1;
    assert seq(|g|, d requires 0 <= d < |g| => g[d] * Pow(x, d)) == [c] + seq(|f|, d requires 0 <= d < |f| => f[d] * Pow(x, d + 1)) by {
      hide Pow;
    }
    TotalCons(c, seq(|f|, d requires 0 <= d < |f| => f[d] * Pow(x, d + 1)));
  }

  /** The product of (y - x_j). */
  ghost function Prod(xs: seq<int>, y: int): int {
    if xs == [] then 1 else (y - xs[|xs| - 1]) * Prod(xs[..|xs| - 1], y)
  }

  /** The product of (y - x_j) over j != i; every factor when i is not an index. */
  ghost function SkipProd(xs: seq<int>, i: int, y: int): int {
    if xs == [] then 1
    else (if i == |xs| - 1 then 1 else y - xs[|xs| - 1]) * SkipProd(xs[..|xs| - 1], i, y)
  }

  lemma {:induction false} SkipProdAll(xs: seq<int>, i: int, y: int)
    requires i >= |xs|
    ensures SkipProd(xs, i, y) == Prod(xs, y)
  {
    if xs != [] {
      SkipProdAll(xs[..|xs| - 1], i, y);
    }
  }

  lemma {:induction false} ProdRoot(xs: seq<int>, k: nat)
    requires k < |xs|
    ensures Prod(xs, xs[k]) == 0
  {
    if k < |xs| - 1 {
      ProdRoot(xs[..|xs| - 1], k);
    }
  }

  ghost predicate DistinctMod(xs: seq<int>, q: int)
    requires q > 0
  {
    forall i, j :: 0 <= i < j < |xs| ==> !Cong(xs[i], xs[j], q)
  }

  lemma DiffNonzero(a: int, b: int, q: int)
    requires q > 0 && !Cong(a, b, q)
    ensures !Cong(a - b, 0, q) && !Cong(b - a, 0, q)
  {
    if Cong(a - b, 0, q) {
      CongAdd(a - b, 0, b, b, q);
    }
    if Cong(b - a, 0, q) {
      CongAdd(b - a, 0, a, a, q);
    }
  }

  /** The Lagrange denominator at y vanishes mod a prime exactly when y meets another point. */
  lemma {:induction false} SkipProdNonzero(xs: seq<int>, i: int, y: int, q: int)
    requires Prime(q)
    ensures !Cong(SkipProd(xs, i, y), 0, q) <==> forall j :: 0 <= j < |xs| && j != i ==> !Cong(y, xs[j], q)
  {
    ModUnique(1, 0, 1, q);
    ModUnique(0, 0, 0, q);
    if xs != [] {
      var n := |xs| - 1;
      var rest := SkipProd(xs[..n], i, y);
      SkipProdNonzero(xs[..n], i, y, q);
      assert forall j :: 0 <= j < n ==> xs[..n][j] == xs[j];
      if i != n {
        var d := y - xs[n];
        if !Cong(y, xs[n], q) {
          DiffNonzero(y, xs[n], q);
          if !Cong(rest, 0, q) {
            CongProductNonzero(d, rest, q);
          } else {
            CongMul(d, d, rest, 0, q);
            assert d * 0 == 0;
          }
        } else {
          CongAdd(y, xs[n], xs[n], xs[n], q);
          CongMul(d, 0, rest, rest, q);
          assert 0 * rest == 0;
        }
      }
    }
  }

  /** w is the vector of Lagrange basis values at zero for the points xs. */
  ghost predicate IsWeights(xs: seq<int>, w: seq<int>, q: int)
    requires q > 0
  {
    |w| == |xs| &&
    forall i :: 0 <= i < |xs| ==> Cong(w[i] * SkipProd(xs, i, xs[i]), SkipProd(xs, i, 0), q)
  }

  /** The sum of w_i * f(x_i). */
  ghost function DotEval(w: seq<int>, xs: seq<int>, f: seq<int>): int
    requires |w| == |xs|
  {
    if xs == [] then 0
    else DotEval(w[..|xs| - 1], xs[..|xs| - 1], f) + w[|xs| - 1] * Eval(f, xs[|xs| - 1])
  }

  /** The sum of w_i * y_i. */
  ghost function Dot(w: seq<int>, ys: seq<int>): int
    requires |w| == |ys|
  {
    if ys == [] then 0
    else Dot(w[..|ys| - 1], ys[..|ys| - 1]) + w[|ys| - 1] * ys[|ys| - 1]
  }

  lemma {:induction false} DotIsDotEval(w: seq<int>, xs: seq<int>, f: seq<int>, ys: seq<int>, q: int)
    requires q > 0 && |w| == |xs| == |ys|
    requires forall i :: 0 <= i < |xs| ==> Cong(ys[i], Eval(f, xs[i]), q)
    ensures Cong(Dot(w, ys), DotEval(w, xs, f), q)
  {
    if xs != [] {
      var n := |xs| - 1;
      DotIsDotEval(w[..n], xs[..n], f, ys[..n], q);
      CongMul(w[n], w[n], ys[n], Eval(f, xs[n]), q);
      CongAdd(Dot(w[..n], ys[..n]), DotEval(w[..n], xs[..n], f), w[n] * ys[n], w[n] * Eval(f, xs[n]), q);
    }
  }

  /** (x - a) * f(x) as a polynomial. */
  lemma {:induction false} MulLinear(f: seq<int>, a: int) returns (g: seq<int>)
    ensures |g| == |f| + 1
    ensures forall x :: Eval(g, x) == (x - a) * Eval(f, x)
  {
    if f == [] {
      g := [0];
      assert g[1..] == [];
      forall x ensures Eval(g, x) == (x - a) * Eval(f, x) {
        assert Eval(g, x) == 0 + x * Eval([], x);
      }
    } else {
      var g' := MulLinear(f[1..], a);
      var tail := g'[0 := g'[0] + f[0]];
      g := [-a * f[0]] + tail;
      assert g[1..] == tail && tail[1..] == g'[1..];
      forall x ensures Eval(g, x) == (x - a) * Eval(f, x) {
        var e := Eval(f[1..], x);
        assert Eval(tail, x) == Eval(g', x) + f[0];
        assert Eval(g', x) == (x - a) * e;
        calc {
          Eval(g, x);
          -a * f[0] + x * ((x - a) * e + f[0]);
          { assert x * ((x - a) * e) == (x - a) * (x * e); }
          (x - a) * f[0] + (x - a) * (x * e);
          (x - a) * (f[0] + x * e);
        }
      }
    }
  }

  /** The node polynomial: the product of (X - x_j), of degree |xs|. */
  lemma {:induction false} NodePoly(xs: seq<int>) returns (g: seq<int>)
    ensures |g| == |xs| + 1
    ensures forall x :: Eval(g, x) == Prod(xs, x)
  {
    if xs == [] {
      g := [1];
      forall x ensures Eval(g, x) == Prod(xs, x) {
        assert Eval(g, x) == 1 + x * Eval([], x);
      }
    } else {
      var g' := NodePoly(xs[..|xs| - 1]);
      g := MulLinear(g', xs[|xs| - 1]);
    }
  }

  /** Synthetic division: f(x) = f(a) + (x - a) * g(x). */
  lemma {:induction false} DivideLinear(f: seq<int>, a: int) returns (g: seq<int>)
    requires |f| >= 1
    ensures |g| == |f| - 1
    ensures forall x :: Eval(f, x) == Eval(f, a) + (x - a) * Eval(g, x)
  {
    if |f| == 1 {
      g := [];
      forall x ensures Eval(f, x) == Eval(f, a) + (x - a) * Eval(g, x) {
        assert f[1..] == [];
        assert Eval(f, x) == f[0] == Eval(f, a);
      }
    } else {
      var t := f[1..];
      var g' := DivideLinear(t, a);
      var ta := Eval(t, a);
      g := [ta] + g';
      assert g[1..] == g';
      forall x ensures Eval(f, x) == Eval(f, a) + (x - a) * Eval(g, x) {
        DivideStep(f[0], x, a, ta, Eval(g', x));
      }
    }
  }

  lemma DivideStep(c: int, x: int, a: int, ta: int, e: int)
    ensures c + x * (ta + (x - a) * e) == c + a * ta + (x - a) * (ta + x * e)
  {
    var d := (x - a) * e;
    assert x * d == (x - a) * (x * e) by { MulSwap(x, x - a, e); }
    assert x * (ta + d) == x * ta + x * d;
    assert (x - a) * (ta + x * e) == (x - a) * ta + (x - a) * (x * e);
  }

  /** Weights exist for points that are distinct modulo a prime. */
  lemma {:induction false} WeightsExist(xs: seq<int>, q: int, n: nat) returns (w: seq<int>)
    requires Prime(q) && DistinctMod(xs, q) && n <= |xs|
    ensures |w| == n
    ensures forall i :: 0 <= i < n ==> Cong(w[i] * SkipProd(xs, i, xs[i]), SkipProd(xs, i, 0), q)
  {
    if n == 0 {
      w := [];
    } else {
      var w' := WeightsExist(xs, q, n - 1);
      var i := n - 1;
      SkipProdNonzero(xs, i, xs[i], q);
      var c := Quotient(SkipProd(xs, i, 0), SkipProd(xs, i, xs[i]), q);
      w := w' + [c];
    }
  }

  /** Dropping the last point rescales every other weight by (0 - a) / (x_i - a). */
  lemma WeightDrop(xs: seq<int>, w: seq<int>, w': seq<int>, i: nat, q: int)
    requires Prime(q) && DistinctMod(xs, q) && i < |xs| - 1
    requires IsWeights(xs, w, q) && IsWeights(xs[..|xs| - 1], w', q)
    ensures var a := xs[|xs| - 1]; Cong(w[i] * (xs[i] - a), -a * w'[i], q)
  {
    var n := |xs| - 1;
    assert xs[..n][i] == xs[i];
    SkipProdNonzero(xs[..n], i, xs[i], q);
    WeightCancel(w[i], w'[i], xs[i], xs[n], SkipProd(xs[..n], i, xs[i]), SkipProd(xs[..n], i, 0), q);
  }

  lemma WeightCancel(w: int, w': int, x: int, a: int, den: int, num: int, q: int)
    requires Prime(q) && !Cong(den, 0, q)
    requires Cong(w * ((x - a) * den), (0 - a) * num, q) && Cong(w' * den, num, q)
    ensures Cong(w * (x - a), -a * w', q)
  {
    assert w * ((x - a) * den) == w * (x - a) * den;
    CongMul(-a, -a, w' * den, num, q);
    assert -a * (w' * den) == -a * w' * den;
    CongCancel(w * (x - a), -a * w', den, q);
  }

  /** Summing pointwise congruences f(x_i) w_i = c g(x_i) w'_i. */
  lemma {:induction false} DotEvalTransfer(w: seq<int>, w': seq<int>, xs: seq<int>, f: seq<int>, g: seq<int>, c: int, q: int)
    requires q > 0 && |w| == |w'| == |xs|
    requires forall i :: 0 <= i < |xs| ==> Cong(w[i] * Eval(f, xs[i]), c * (w'[i] * Eval(g, xs[i])), q)
    ensures Cong(DotEval(w, xs, f), c * DotEval(w', xs, g), q)
  {
    hide Cong, Eval;
    if xs == [] {
      CongRefl(0, q);
      assert c * 0 == 0;
    } else {
      var n := |xs| - 1;
      DotEvalTransfer(w[..n], w'[..n], xs[..n], f, g, c, q);
      TransferStep(DotEval(w[..n], xs[..n], f), DotEval(w'[..n], xs[..n], g), w[n] * Eval(f, xs[n]), w'[n] * Eval(g, xs[n]), c, q);
    }
  }

  lemma TransferStep(a: int, d: int, b: int, t: int, c: int, q: int)
    requires q > 0 && Cong(a, c * d, q) && Cong(b, c * t, q)
    ensures Cong(a + b, c * (d + t), q)
  {
    CongAdd(a, c * d, b, c * t, q);
    assert c * d + c * t == c * (d + t);
  }

  /** f minus the multiple of the node polynomial of `nodes` that makes it vanish at a. */
  lemma Deflate(f: seq<int>, nodes: seq<int>, a: int, q: int) returns (c: int, g: seq<int>)
    requires Prime(q) && |f| <= |nodes| + 1
    requires !Cong(Prod(nodes, a), 0, q)
    ensures |g| == |nodes|
    ensures Cong(Eval(f, a), c * Prod(nodes, a), q)
    ensures forall x :: Cong(Eval(f, x), c * Prod(nodes, x) + (x - a) * Eval(g, x), q)
  {
    var node := NodePoly(nodes);
    var den := Prod(nodes, a);
    c := Quotient(Eval(f, a), den, q);
    var h := AddPoly(f + Zeros(|node| - |f|), ScalePoly(-c, node));
    g := DivideLinear(h, a);
    forall x ensures Cong(Eval(f, x), c * Prod(nodes, x) + (x - a) * Eval(g, x), q) {
      DeflateAt(f, node, c, a);
      DeflateAt(f, node, c, x);
      DeflateCong(Eval(f, a), Eval(f, x), c, den, Prod(nodes, x), (x - a) * Eval(g, x), q);
    }
  }

  lemma Quotient(v: int, den: int, q: int) returns (c: int)
    requires Prime(q) && !Cong(den, 0, q)
    ensures Cong(v, c * den, q)
  {
    var inv := ModInverse(den, q).value;
    c := v * inv;
    CongMul(v, v, den * inv, 1, q);
    assert c * den == v * (den * inv);
  }

  lemma DeflateCong(fa: int, fx: int, c: int, pa: int, px: int, rest: int, q: int)
    requires q > 0 && Cong(fa, c * pa, q)
    requires fx + -c * px == fa + -c * pa + rest
    ensures Cong(fx, c * px + rest, q)
  {
    CongAdd(fa, c * pa, c * px + rest - c * pa, c * px + rest - c * pa, q);
  }

  lemma DeflateAt(f: seq<int>, node: seq<int>, c: int, x: int)
    requires |f| <= |node|
    ensures Eval(AddPoly(f + Zeros(|node| - |f|), ScalePoly(-c, node)), x) == Eval(f, x) + -c * Eval(node, x)
  {
    EvalPad(f, |node| - |f|, x);
    EvalAdd(f + Zeros(|node| - |f|), ScalePoly(-c, node), x);
    EvalScale(-c, node, x);
  }

  /** Lagrange interpolation at zero: for points distinct modulo a prime, the weights recover
      the constant term of every polynomial of degree below the number of points. */
  lemma {:induction false} Interpolate(xs: seq<int>, w: seq<int>, f: seq<int>, q: int)
    requires Prime(q) && DistinctMod(xs, q) && IsWeights(xs, w, q) && |f| <= |xs|
    ensures Cong(DotEval(w, xs, f), Eval(f, 0), q)
  {
    if xs != [] {
      var n := |xs| - 1;
      var a, nodes := xs[n], xs[..n];
      SkipProdAll(nodes, n, a);
      SkipProdAll(nodes, n, 0);
      SkipProdNonzero(nodes, n, a, q);
      var c, g := Deflate(f, nodes, a, q);
      var w' := WeightsExist(nodes, q, n);
      forall i | 0 <= i < n
        ensures Cong(w[..n][i] * Eval(f, nodes[i]), -a * (w'[i] * Eval(g, nodes[i])), q)
      {
        WeightDrop(xs, w, w', i, q);
        ProdRoot(nodes, i);
        InterpolateTerm(w[i], w'[i], xs[i], a, Eval(f, xs[i]), c, Eval(g, xs[i]), q);
      }
      DotEvalTransfer(w[..n], w', nodes, f, g, -a, q);
      Interpolate(nodes, w', g, q);
      InterpolateLast(w[n], c, Eval(f, a), Prod(nodes, a), Prod(nodes, 0), q);
      CongMul(-a, -a, DotEval(w', nodes, g), Eval(g, 0), q);
      CongAdd(DotEval(w[..n], nodes, f), -a * Eval(g, 0), w[n] * Eval(f, a), c * Prod(nodes, 0), q);
      assert Cong(Eval(f, 0), c * Prod(nodes, 0) + (0 - a) * Eval(g, 0), q);
    }
  }

  lemma InterpolateTerm(w: int, w': int, x: int, a: int, fx: int, c: int, gx: int, q: int)
    requires q > 0 && Cong(w * (x - a), -a * w', q) && Cong(fx, c * 0 + (x - a) * gx, q)
    ensures Cong(w * fx, -a * (w' * gx), q)
  {
    CongMul(w, w, fx, (x - a) * gx, q);
    CongMul(w * (x - a), -a * w', gx, gx, q);
    assert w * ((x - a) * gx) == w * (x - a) * gx;
    assert -a * w' * gx == -a * (w' * gx);
  }

  lemma InterpolateLast(w: int, c: int, fa: int, den: int, num: int, q: int)
    requires q > 0 && Cong(w * (1 * den), 1 * num, q) && Cong(fa, c * den, q)
    ensures Cong(w * fa, c * num, q)
  {
    CongMul(w, w, fa, c * den, q);
    CongMul(c, c, w * den, num, q);
    assert w * (c * den) == c * (w * den);
  }
}
