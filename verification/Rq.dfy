/** The ring R_q in the number-theoretic-transform domain, where every operation of the
    protocol is slotwise, and vectors and matrices over it. A value in Montgomery form is
    represented by the element it stands for. */
module Rq {
  import opened Zq

  type Poly = seq<int>
  type Vec = seq<Poly>
  type Mat = seq<Vec>

  datatype RingData = RingData(n: nat, q: nat)
  type Ring = r: RingData | r.q > 0 witness RingData(0, 1)

  function At(a: Poly, i: nat): int {
    if i < |a| then a[i] else 0
  }

  /** An element: n residues. */
  ghost predicate Elem(r: Ring, a: Poly) {
    |a| == r.n && forall i :: 0 <= i < r.n ==> 0 <= a[i] < r.q
  }

  function Zero(r: Ring): (c: Poly)
    ensures Elem(r, c)
  {
    seq(r.n, _ => 0)
  }

  function Add(r: Ring, a: Poly, b: Poly): (c: Poly)
    ensures Elem(r, c)
  {
    seq(r.n, i requires 0 <= i < r.n => (At(a, i) + At(b, i)) % r.q)
  }

  function Sub(r: Ring, a: Poly, b: Poly): (c: Poly)
    ensures Elem(r, c)
  {
    seq(r.n, i requires 0 <= i < r.n => (At(a, i) - At(b, i)) % r.q)
  }

  function Mul(r: Ring, a: Poly, b: Poly): (c: Poly)
    ensures Elem(r, c)
  {
    seq(r.n, i requires 0 <= i < r.n => (At(a, i) * At(b, i)) % r.q)
  }

  // ----- ring laws -----------------------------------------------------------------

  lemma ModAddLeft(x: int, y: int, q: int)
    requires q > 0
    ensures (x % q + y) % q == (x + y) % q
  {
    CongMod(x, q);
    CongAdd(x % q, x, y, y, q);
  }

  lemma ModSub(x: int, y: int, q: int)
    requires q > 0
    ensures (x % q - y) % q == (x - y) % q && (x - y % q) % q == (x - y) % q
  {
    CongMod(x, q);
    CongMod(y, q);
    CongAdd(x % q, x, y, y, q);
    CongAdd(x, x, y % q, y, q);
  }

  lemma ModMulLeft(x: int, y: int, q: int)
    requires q > 0
    ensures ((x % q) * y) % q == (x * y) % q
  {
    CongMod(x, q);
    CongMul(x % q, x, y, y, q);
  }

  lemma AddComm(r: Ring, a: Poly, b: Poly)
    ensures Add(r, a, b) == Add(r, b, a)
  {
  }

  lemma AddAssoc(r: Ring, a: Poly, b: Poly, c: Poly)
    ensures Add(r, Add(r, a, b), c) == Add(r, a, Add(r, b, c))
  {
    forall i | 0 <= i < r.n ensures Add(r, Add(r, a, b), c)[i] == Add(r, a, Add(r, b, c))[i] {
      AssocSlot(At(a, i), At(b, i), At(c, i), Add(r, a, b)[i], Add(r, b, c)[i], r.q);
    }
  }

  lemma AssocSlot(x: int, y: int, z: int, s: int, t: int, q: int)
    requires q > 0 && s == (x + y) % q && t == (y + z) % q
    ensures (s + z) % q == (x + t) % q
  {
    ModAddLeft(x + y, z, q);
    ModAddLeft(y + z, x, q);
  }

  lemma AddZero(r: Ring, a: Poly)
    requires Elem(r, a)
    ensures Add(r, a, Zero(r)) == a && Add(r, Zero(r), a) == a
  {
    forall i | 0 <= i < r.n ensures a[i] % r.q == a[i] {
      ModUnique(a[i], 0, a[i], r.q);
    }
  }

  lemma MulComm(r: Ring, a: Poly, b: Poly)
    ensures Mul(r, a, b) == Mul(r, b, a)
  {
    forall i | 0 <= i < r.n ensures At(a, i) * At(b, i) == At(b, i) * At(a, i) {
    }
  }

  lemma PolyMulAssoc(r: Ring, a: Poly, b: Poly, c: Poly)
    ensures Mul(r, Mul(r, a, b), c) == Mul(r, a, Mul(r, b, c))
  {
    forall i | 0 <= i < r.n ensures Mul(r, Mul(r, a, b), c)[i] == Mul(r, a, Mul(r, b, c))[i] {
      var x, y, z := At(a, i), At(b, i), At(c, i);
      ModMulLeft(x * y, z, r.q);
      ModMulLeft(y * z, x, r.q);
      Zq.MulAssoc(x, y, z);
      assert x * ((y * z) % r.q) == ((y * z) % r.q) * x;
      assert (y * z) * x == x * (y * z);
    }
  }

  lemma MulAdd(r: Ring, a: Poly, b: Poly, c: Poly)
    ensures Mul(r, a, Add(r, b, c)) == Add(r, Mul(r, a, b), Mul(r, a, c))
  {
    forall i | 0 <= i < r.n ensures Mul(r, a, Add(r, b, c))[i] == Add(r, Mul(r, a, b), Mul(r, a, c))[i] {
      MulAddSlot(At(a, i), At(b, i), At(c, i), r.q);
    }
  }

  lemma MulAddSlot(x: int, y: int, z: int, q: int)
    requires q > 0
    ensures (x * ((y + z) % q)) % q == ((x * y) % q + (x * z) % q) % q
  {
    ModMulLeft(y + z, x, q);
    assert x * ((y + z) % q) == ((y + z) % q) * x;
    assert (y + z) * x == x * y + x * z;
    ModAddLeft(x * y, (x * z) % q, q);
    ModAddLeft(x * z, x * y, q);
  }

  lemma MulZero(r: Ring, a: Poly)
    ensures Mul(r, a, Zero(r)) == Zero(r) && Mul(r, Zero(r), a) == Zero(r)
  {
    forall i | 0 <= i < r.n ensures Mul(r, a, Zero(r))[i] == 0 && Mul(r, Zero(r), a)[i] == 0 {
      ModUnique(0, 0, 0, r.q);
      assert At(a, i) * 0 == 0 && 0 * At(a, i) == 0;
    }
  }

  /** (a + b) - (c + d) = (a - c) + (b - d). */
  lemma AddSubExchange(r: Ring, a: Poly, b: Poly, c: Poly, d: Poly)
    ensures Sub(r, Add(r, a, b), Add(r, c, d)) == Add(r, Sub(r, a, c), Sub(r, b, d))
  {
    forall i | 0 <= i < r.n ensures Sub(r, Add(r, a, b), Add(r, c, d))[i] == Add(r, Sub(r, a, c), Sub(r, b, d))[i] {
      ExchangeSlot(At(a, i), At(b, i), At(c, i), At(d, i), r.q);
    }
  }

  lemma ExchangeSlot(x: int, y: int, z: int, w: int, q: int)
    requires q > 0
    ensures ((x + y) % q - (z + w) % q) % q == ((x - z) % q + (y - w) % q) % q
  {
    var a, b, c, d := (x + y) % q, (z + w) % q, (x - z) % q, (y - w) % q;
    CongMod(x + y, q);
    CongMod(z + w, q);
    CongMod(x - z, q);
    CongMod(y - w, q);
    ExchangeCong(a, b, c, d, x, y, z, w, q);
  }

  lemma ExchangeCong(a: int, b: int, c: int, d: int, x: int, y: int, z: int, w: int, q: int)
    requires q > 0 && Cong(a, x + y, q) && Cong(b, z + w, q) && Cong(c, x - z, q) && Cong(d, y - w, q)
    ensures (a - b) % q == (c + d) % q
  {
    CongAdd(a, x + y, b, z + w, q);
    CongAdd(c, x - z, d, y - w, q);
    assert (x + y) - (z + w) == (x - z) + (y - w);
  }

  /** (a + b) - b = a on elements; a - b + b = a as well. */
  lemma AddSubCancel(r: Ring, a: Poly, b: Poly)
    requires Elem(r, a)
    ensures Sub(r, Add(r, a, b), b) == a && Add(r, Sub(r, a, b), b) == a
  {
    AddThenSub(r, a, b);
    SubThenAdd(r, a, b);
  }

  lemma AddThenSub(r: Ring, a: Poly, b: Poly)
    requires Elem(r, a)
    ensures Sub(r, Add(r, a, b), b) == a
  {
    var c := Add(r, a, b);
    forall i | 0 <= i < r.n ensures (At(c, i) - At(b, i)) % r.q == a[i] {
      CancelAdd(a[i], At(b, i), At(c, i), r.q);
    }
  }

  lemma SubThenAdd(r: Ring, a: Poly, b: Poly)
    requires Elem(r, a)
    ensures Add(r, Sub(r, a, b), b) == a
  {
    var c := Sub(r, a, b);
    forall i | 0 <= i < r.n ensures (At(c, i) + At(b, i)) % r.q == a[i] {
      CancelSub(a[i], At(b, i), At(c, i), r.q);
    }
  }

  lemma CancelAdd(x: int, y: int, c: int, q: int)
    requires 0 <= x < q && c == (x + y) % q
    ensures (c - y) % q == x
  {
    var a := x + y;
    ModSub(a, y, q);
    ModUnique(a - y, 0, x, q);
  }

  lemma CancelSub(x: int, y: int, c: int, q: int)
    requires 0 <= x < q && c == (x - y) % q
    ensures (c + y) % q == x
  {
    var a := x - y;
    ModAddLeft(a, y, q);
    ModUnique(a + y, 0, x, q);
  }

  // ----- sums ----------------------------------------------------------------------

  /** In-place accumulation from zero. */
  function PSum(r: Ring, xs: seq<Poly>): (c: Poly)
    ensures Elem(r, c)
  {
    if xs == [] then Zero(r) else Add(r, PSum(r, xs[..|xs| - 1]), xs[|xs| - 1])
  }

  lemma AddExchange(r: Ring, a: Poly, b: Poly, c: Poly, d: Poly)
    ensures Add(r, Add(r, a, b), Add(r, c, d)) == Add(r, Add(r, a, c), Add(r, b, d))
  {
    hide Add;
    AddAssoc(r, a, b, Add(r, c, d));
    AddAssoc(r, b, c, d);
    AddComm(r, b, c);
    AddAssoc(r, c, b, d);
    AddAssoc(r, a, c, Add(r, b, d));
  }

  lemma {:induction false} PSumAdd(r: Ring, xs: seq<Poly>, ys: seq<Poly>, zs: seq<Poly>)
    requires |xs| == |ys| == |zs| && forall i :: 0 <= i < |xs| ==> zs[i] == Add(r, xs[i], ys[i])
    ensures PSum(r, zs) == Add(r, PSum(r, xs), PSum(r, ys))
  {
    if xs == [] {
      AddZero(r, Zero(r));
    } else {
      var n := |xs| - 1;
      PSumAdd(r, xs[..n], ys[..n], zs[..n]);
      AddExchange(r, PSum(r, xs[..n]), PSum(r, ys[..n]), xs[n], ys[n]);
    }
  }

  lemma {:induction false} PSumSub(r: Ring, xs: seq<Poly>, ys: seq<Poly>, zs: seq<Poly>)
    requires |xs| == |ys| == |zs| && forall i :: 0 <= i < |xs| ==> zs[i] == Sub(r, xs[i], ys[i])
    ensures PSum(r, zs) == Sub(r, PSum(r, xs), PSum(r, ys))
  {
    if xs == [] {
      AddSubCancel(r, Zero(r), Zero(r));
      AddZero(r, Zero(r));
    } else {
      var n := |xs| - 1;
      PSumSub(r, xs[..n], ys[..n], zs[..n]);
      AddSubExchange(r, PSum(r, xs[..n]), xs[n], PSum(r, ys[..n]), ys[n]);
    }
  }

  lemma {:induction false} PSumScale(r: Ring, c: Poly, xs: seq<Poly>, zs: seq<Poly>)
    requires |xs| == |zs| && forall i :: 0 <= i < |xs| ==> zs[i] == Mul(r, c, xs[i])
    ensures PSum(r, zs) == Mul(r, c, PSum(r, xs))
  {
    if xs == [] {
      MulZero(r, c);
    } else {
      var n := |xs| - 1;
      PSumScale(r, c, xs[..n], zs[..n]);
      MulAdd(r, c, PSum(r, xs[..n]), xs[n]);
    }
  }

  lemma {:induction false} PSumZeros(r: Ring, xs: seq<Poly>)
    requires forall i :: 0 <= i < |xs| ==> xs[i] == Zero(r)
    ensures PSum(r, xs) == Zero(r)
  {
    if xs != [] {
      PSumZeros(r, xs[..|xs| - 1]);
      AddZero(r, Zero(r));
    }
  }

  /** Row sums and column sums of a table of elements. */
  ghost function RowSums(r: Ring, t: seq<seq<Poly>>): seq<Poly> {
    seq(|t|, i requires 0 <= i < |t| => PSum(r, t[i]))
  }

  ghost function Column(t: seq<seq<Poly>>, j: nat): seq<Poly>
    requires forall i :: 0 <= i < |t| ==> j < |t[i]|
  {
    seq(|t|, i requires 0 <= i < |t| => t[i][j])
  }

  ghost predicate Rectangular(t: seq<seq<Poly>>, cols: nat) {
    forall i :: 0 <= i < |t| ==> |t[i]| == cols
  }

  ghost function ColumnSums(r: Ring, t: seq<seq<Poly>>, cols: nat): seq<Poly>
    requires Rectangular(t, cols)
  {
    seq(cols, j requires 0 <= j < cols => PSum(r, Column(t, j)))
  }

  /** Swapping a double sum. */
  lemma {:induction false} DoubleSum(r: Ring, t: seq<seq<Poly>>, cols: nat)
    requires Rectangular(t, cols)
    ensures PSum(r, RowSums(r, t)) == PSum(r, ColumnSums(r, t, cols))
  {
    hide Add;
    if t == [] {
      PSumZeros(r, ColumnSums(r, t, cols));
    } else {
      var n := |t| - 1;
      var t' := t[..n];
      DoubleSum(r, t', cols);
      assert RowSums(r, t)[..n] == RowSums(r, t');
      LastRow(r, t, cols);
      PSumAdd(r, ColumnSums(r, t', cols), t[n], ColumnSums(r, t, cols));
    }
  }

  lemma LastRow(r: Ring, t: seq<seq<Poly>>, cols: nat)
    requires Rectangular(t, cols) && t != []
    ensures var n := |t| - 1;
            forall j :: 0 <= j < cols ==> ColumnSums(r, t, cols)[j] == Add(r, ColumnSums(r, t[..n], cols)[j], t[n][j])
  {
    hide Add;
    var n := |t| - 1;
    forall j | 0 <= j < cols ensures ColumnSums(r, t, cols)[j] == Add(r, ColumnSums(r, t[..n], cols)[j], t[n][j]) {
      assert Column(t, j)[..n] == Column(t[..n], j);
    }
  }

  // ----- inner products and matrices -----------------------------------------------

  /** MulCoeffsMontgomeryThenAdd over one row, from a zero accumulator. */
  function DotP(r: Ring, row: Vec, v: Vec): (c: Poly)
    requires |row| <= |v|
    ensures Elem(r, c)
  {
    if row == [] then Zero(r)
    else Add(r, DotP(r, row[..|row| - 1], v), Mul(r, row[|row| - 1], v[|row| - 1]))
  }

  ghost predicate IsVec(r: Ring, v: Vec, len: nat) {
    |v| == len && forall i :: 0 <= i < len ==> Elem(r, v[i])
  }

  ghost predicate IsMat(r: Ring, m: Mat, rows: nat, cols: nat) {
    |m| == rows && forall i :: 0 <= i < rows ==> IsVec(r, m[i], cols)
  }

  function VAdd(r: Ring, u: Vec, v: Vec): (w: Vec)
    requires |u| <= |v|
    ensures IsVec(r, w, |u|)
  {
    seq(|u|, i requires 0 <= i < |u| => Add(r, u[i], v[i]))
  }

  function VSub(r: Ring, u: Vec, v: Vec): (w: Vec)
    requires |u| <= |v|
    ensures IsVec(r, w, |u|)
  {
    seq(|u|, i requires 0 <= i < |u| => Sub(r, u[i], v[i]))
  }

  function VScale(r: Ring, v: Vec, c: Poly): (w: Vec)
    ensures IsVec(r, w, |v|)
  {
    seq(|v|, i requires 0 <= i < |v| => Mul(r, v[i], c))
  }

  function VZero(r: Ring, len: nat): (w: Vec)
    ensures IsVec(r, w, len)
  {
    seq(len, _ => Zero(r))
  }

  function MatVec(r: Ring, m: Mat, v: Vec): (w: Vec)
    requires forall i :: 0 <= i < |m| ==> |m[i]| <= |v|
    ensures IsVec(r, w, |m|)
  {
    seq(|m|, i requires 0 <= i < |m| => DotP(r, m[i], v))
  }

  lemma {:induction false} DotPrefix(r: Ring, row: Vec, v: Vec, v': Vec)
    requires |row| <= |v| && |row| <= |v'| && v[..|row|] == v'[..|row|]
    ensures DotP(r, row, v) == DotP(r, row, v')
  {
    if row != [] {
      var n := |row| - 1;
      assert v[..n] == v[..|row|][..n] && v'[..n] == v'[..|row|][..n];
      assert v[n] == v[..|row|][n] && v'[n] == v'[..|row|][n];
      DotPrefix(r, row[..n], v, v');
    }
  }

  lemma {:induction false} DotAddRight(r: Ring, row: Vec, u: Vec, v: Vec)
    requires |row| <= |u| <= |v|
    ensures DotP(r, row, VAdd(r, u, v)) == Add(r, DotP(r, row, u), DotP(r, row, v))
  {
    if row == [] {
      AddZero(r, Zero(r));
    } else {
      var n := |row| - 1;
      DotAddRight(r, row[..n], u, v);
      MulAdd(r, row[n], u[n], v[n]);
      AddExchange(r, DotP(r, row[..n], u), DotP(r, row[..n], v), Mul(r, row[n], u[n]), Mul(r, row[n], v[n]));
    }
  }

  lemma {:induction false} DotScaleRight(r: Ring, row: Vec, v: Vec, c: Poly)
    requires |row| <= |v|
    ensures DotP(r, row, VScale(r, v, c)) == Mul(r, DotP(r, row, v), c)
  {
    if row == [] {
      MulZero(r, c);
    } else {
      hide Add, Mul;
      var n := |row| - 1;
      DotScaleRight(r, row[..n], v, c);
      PolyMulAssoc(r, row[n], v[n], c);
      MulComm(r, DotP(r, row, v), c);
      MulComm(r, DotP(r, row[..n], v), c);
      MulComm(r, Mul(r, row[n], v[n]), c);
      MulAdd(r, c, DotP(r, row[..n], v), Mul(r, row[n], v[n]));
    }
  }

  lemma {:induction false} DotAddLeft(r: Ring, a: Vec, b: Vec, v: Vec)
    requires |a| == |b| <= |v|
    ensures DotP(r, VAdd(r, a, b), v) == Add(r, DotP(r, a, v), DotP(r, b, v))
  {
    if a == [] {
      AddZero(r, Zero(r));
    } else {
      hide Add, Mul;
      var n := |a| - 1;
      assert VAdd(r, a, b)[..n] == VAdd(r, a[..n], b[..n]);
      DotAddLeft(r, a[..n], b[..n], v);
      MulComm(r, Add(r, a[n], b[n]), v[n]);
      MulAdd(r, v[n], a[n], b[n]);
      MulComm(r, a[n], v[n]);
      MulComm(r, b[n], v[n]);
      AddExchange(r, DotP(r, a[..n], v), DotP(r, b[..n], v), Mul(r, a[n], v[n]), Mul(r, b[n], v[n]));
    }
  }

  lemma {:induction false} DotScaleLeft(r: Ring, a: Vec, c: Poly, v: Vec)
    requires |a| <= |v|
    ensures DotP(r, VScale(r, a, c), v) == Mul(r, c, DotP(r, a, v))
  {
    if a == [] {
      MulZero(r, c);
    } else {
      hide Add, Mul;
      var n := |a| - 1;
      assert VScale(r, a, c)[..n] == VScale(r, a[..n], c);
      DotScaleLeft(r, a[..n], c, v);
      MulComm(r, a[n], c);
      PolyMulAssoc(r, c, a[n], v[n]);
      MulAdd(r, c, DotP(r, a[..n], v), Mul(r, a[n], v[n]));
    }
  }

  lemma {:induction false} DotZeros(r: Ring, len: nat, v: Vec)
    requires len <= |v|
    ensures DotP(r, VZero(r, len), v) == Zero(r)
  {
    if len > 0 {
      assert VZero(r, len)[..len - 1] == VZero(r, len - 1);
      DotZeros(r, len - 1, v);
      MulZero(r, v[len - 1]);
      AddZero(r, Zero(r));
    }
  }

  // ----- matrix products -----------------------------------------------------------

  function MatColumn(m: Mat, j: nat): Vec
    requires forall i :: 0 <= i < |m| ==> j < |m[i]|
  {
    seq(|m|, i requires 0 <= i < |m| => m[i][j])
  }

  /** One row of a matrix product: row a times the matrix m. */
  function RowMat(r: Ring, a: Vec, m: Mat, cols: nat): (w: Vec)
    requires |a| == |m| && forall i :: 0 <= i < |m| ==> |m[i]| == cols
    ensures IsVec(r, w, cols)
  {
    seq(cols, j requires 0 <= j < cols => DotP(r, a, MatColumn(m, j)))
  }

  function MatMul(r: Ring, a: Mat, m: Mat, cols: nat): (w: Mat)
    requires forall i :: 0 <= i < |m| ==> |m[i]| == cols
    requires forall i :: 0 <= i < |a| ==> |a[i]| == |m|
    ensures IsMat(r, w, |a|, cols)
  {
    seq(|a|, i requires 0 <= i < |a| => RowMat(r, a[i], m, cols))
  }

  function MatAdd(r: Ring, a: Mat, b: Mat, cols: nat): (w: Mat)
    requires |a| == |b|
    requires forall i :: 0 <= i < |a| ==> |a[i]| == cols && |b[i]| == cols
    ensures IsMat(r, w, |a|, cols)
  {
    seq(|a|, i requires 0 <= i < |a| => VAdd(r, a[i], b[i]))
  }

  /** (a M) u = a (M u). */
  lemma {:induction false} RowMatVec(r: Ring, a: Vec, m: Mat, cols: nat, u: Vec)
    requires |a| == |m| && |u| == cols && forall i :: 0 <= i < |m| ==> |m[i]| == cols
    ensures DotP(r, RowMat(r, a, m, cols), u) == DotP(r, a, MatVec(r, m, u))
  {
    if a == [] {
      assert RowMat(r, a, m, cols) == VZero(r, cols);
      DotZeros(r, cols, u);
    } else {
      var n := |a| - 1;
      var a', m' := a[..n], m[..n];
      RowMatVec(r, a', m', cols, u);
      RowMatSplit(r, a, m, cols);
      DotAddLeft(r, RowMat(r, a', m', cols), VScale(r, m[n], a[n]), u);
      DotScaleLeft(r, m[n], a[n], u);
      DotPrefix(r, a', MatVec(r, m', u), MatVec(r, m, u));
    }
  }

  lemma RowMatSplit(r: Ring, a: Vec, m: Mat, cols: nat)
    requires |a| == |m| > 0 && forall i :: 0 <= i < |m| ==> |m[i]| == cols
    ensures var n := |a| - 1;
            RowMat(r, a, m, cols) == VAdd(r, RowMat(r, a[..n], m[..n], cols), VScale(r, m[n], a[n]))
  {
    var n := |a| - 1;
    forall j | 0 <= j < cols
      ensures RowMat(r, a, m, cols)[j] == VAdd(r, RowMat(r, a[..n], m[..n], cols), VScale(r, m[n], a[n]))[j]
    {
      var col := MatColumn(m, j);
      DotPrefix(r, a[..n], MatColumn(m[..n], j), col);
      MulComm(r, a[n], m[n][j]);
    }
  }

  /** (A M) u = A (M u). */
  lemma MatMulVec(r: Ring, a: Mat, m: Mat, cols: nat, u: Vec)
    requires |u| == cols && forall i :: 0 <= i < |m| ==> |m[i]| == cols
    requires forall i :: 0 <= i < |a| ==> |a[i]| == |m|
    ensures MatVec(r, MatMul(r, a, m, cols), u) == MatVec(r, a, MatVec(r, m, u))
  {
    forall i | 0 <= i < |a| ensures MatVec(r, MatMul(r, a, m, cols), u)[i] == MatVec(r, a, MatVec(r, m, u))[i] {
      RowMatVec(r, a[i], m, cols, u);
    }
  }

  lemma MatVecAdd(r: Ring, m: Mat, u: Vec, v: Vec)
    requires |u| == |v| && forall i :: 0 <= i < |m| ==> |m[i]| <= |v|
    ensures MatVec(r, m, VAdd(r, u, v)) == VAdd(r, MatVec(r, m, u), MatVec(r, m, v))
  {
    forall i | 0 <= i < |m| ensures MatVec(r, m, VAdd(r, u, v))[i] == VAdd(r, MatVec(r, m, u), MatVec(r, m, v))[i] {
      DotAddRight(r, m[i], u, v);
    }
  }

  lemma MatVecScale(r: Ring, m: Mat, v: Vec, c: Poly)
    requires forall i :: 0 <= i < |m| ==> |m[i]| <= |v|
    ensures MatVec(r, m, VScale(r, v, c)) == VScale(r, MatVec(r, m, v), c)
  {
    forall i | 0 <= i < |m| ensures MatVec(r, m, VScale(r, v, c))[i] == VScale(r, MatVec(r, m, v), c)[i] {
      DotScaleRight(r, m[i], v, c);
    }
  }

  lemma MatAddVec(r: Ring, a: Mat, b: Mat, cols: nat, u: Vec)
    requires |a| == |b| && |u| == cols
    requires forall i :: 0 <= i < |a| ==> |a[i]| == cols && |b[i]| == cols
    ensures MatVec(r, MatAdd(r, a, b, cols), u) == VAdd(r, MatVec(r, a, u), MatVec(r, b, u))
  {
    forall i | 0 <= i < |a|
      ensures MatVec(r, MatAdd(r, a, b, cols), u)[i] == VAdd(r, MatVec(r, a, u), MatVec(r, b, u))[i]
    {
      DotAddLeft(r, a[i], b[i], u);
    }
  }

  // ----- sums of vectors and matrices over the parties -----------------------------

  ghost predicate AllLength(vs: seq<Vec>, len: nat) {
    forall i :: 0 <= i < |vs| ==> |vs[i]| == len
  }

  /** Repeated VectorAdd into a zero vector. */
  function VSum(r: Ring, vs: seq<Vec>, len: nat): (w: Vec)
    requires AllLength(vs, len)
    ensures IsVec(r, w, len)
  {
    if vs == [] then VZero(r, len) else VAdd(r, VSum(r, vs[..|vs| - 1], len), vs[|vs| - 1])
  }

  ghost function Coord(vs: seq<Vec>, k: nat): seq<Poly>
    requires forall i :: 0 <= i < |vs| ==> k < |vs[i]|
  {
    seq(|vs|, i requires 0 <= i < |vs| => vs[i][k])
  }

  lemma {:induction false} VSumCoord(r: Ring, vs: seq<Vec>, len: nat, k: nat)
    requires AllLength(vs, len) && k < len
    ensures VSum(r, vs, len)[k] == PSum(r, Coord(vs, k))
  {
    if vs != [] {
      var n := |vs| - 1;
      VSumCoord(r, vs[..n], len, k);
      assert Coord(vs, k)[..n] == Coord(vs[..n], k);
    }
  }

  lemma VSumAdd(r: Ring, us: seq<Vec>, vs: seq<Vec>, ws: seq<Vec>, len: nat)
    requires |us| == |vs| == |ws| && AllLength(us, len) && AllLength(vs, len)
    requires forall i :: 0 <= i < |ws| ==> ws[i] == VAdd(r, us[i], vs[i])
    ensures AllLength(ws, len) && VSum(r, ws, len) == VAdd(r, VSum(r, us, len), VSum(r, vs, len))
  {
    forall k | 0 <= k < len ensures VSum(r, ws, len)[k] == VAdd(r, VSum(r, us, len), VSum(r, vs, len))[k] {
      VSumCoord(r, us, len, k);
      VSumCoord(r, vs, len, k);
      VSumCoord(r, ws, len, k);
      PSumAdd(r, Coord(us, k), Coord(vs, k), Coord(ws, k));
    }
  }

  lemma VSumSub(r: Ring, us: seq<Vec>, vs: seq<Vec>, ws: seq<Vec>, len: nat)
    requires |us| == |vs| == |ws| && AllLength(us, len) && AllLength(vs, len)
    requires forall i :: 0 <= i < |ws| ==> ws[i] == VSub(r, us[i], vs[i])
    ensures AllLength(ws, len) && VSum(r, ws, len) == VSub(r, VSum(r, us, len), VSum(r, vs, len))
  {
    forall k | 0 <= k < len ensures VSum(r, ws, len)[k] == VSub(r, VSum(r, us, len), VSum(r, vs, len))[k] {
      VSumCoord(r, us, len, k);
      VSumCoord(r, vs, len, k);
      VSumCoord(r, ws, len, k);
      PSumSub(r, Coord(us, k), Coord(vs, k), Coord(ws, k));
    }
  }

  lemma VSumScale(r: Ring, vs: seq<Vec>, c: Poly, ws: seq<Vec>, len: nat)
    requires |vs| == |ws| && AllLength(vs, len)
    requires forall i :: 0 <= i < |ws| ==> ws[i] == VScale(r, vs[i], c)
    ensures AllLength(ws, len) && VSum(r, ws, len) == VScale(r, VSum(r, vs, len), c)
  {
    forall k | 0 <= k < len ensures VSum(r, ws, len)[k] == VScale(r, VSum(r, vs, len), c)[k] {
      VSumCoord(r, vs, len, k);
      VSumCoord(r, ws, len, k);
      forall i | 0 <= i < |vs| ensures Coord(ws, k)[i] == Mul(r, c, Coord(vs, k)[i]) {
        MulComm(r, vs[i][k], c);
      }
      PSumScale(r, c, Coord(vs, k), Coord(ws, k));
      MulComm(r, c, PSum(r, Coord(vs, k)));
    }
  }

  lemma MatVecZero(r: Ring, m: Mat, len: nat)
    requires forall i :: 0 <= i < |m| ==> |m[i]| == len
    ensures MatVec(r, m, VZero(r, len)) == VZero(r, |m|)
  {
    forall i | 0 <= i < |m| ensures DotP(r, m[i], VZero(r, len)) == Zero(r) {
      DotZeroRight(r, m[i], len);
    }
  }

  lemma {:induction false} DotZeroRight(r: Ring, row: Vec, len: nat)
    requires |row| <= len
    ensures DotP(r, row, VZero(r, len)) == Zero(r)
  {
    if row != [] {
      DotZeroRight(r, row[..|row| - 1], len);
      MulZero(r, row[|row| - 1]);
      AddZero(r, Zero(r));
    }
  }

  /** A linear map commutes with a sum over the parties. */
  lemma {:induction false} MatVecSum(r: Ring, m: Mat, vs: seq<Vec>, ws: seq<Vec>, len: nat)
    requires |vs| == |ws| && AllLength(vs, len) && forall i :: 0 <= i < |m| ==> |m[i]| == len
    requires forall i :: 0 <= i < |ws| ==> ws[i] == MatVec(r, m, vs[i])
    ensures AllLength(ws, |m|) && VSum(r, ws, |m|) == MatVec(r, m, VSum(r, vs, len))
  {
    if vs == [] {
      MatVecZero(r, m, len);
    } else {
      var n := |vs| - 1;
      MatVecSum(r, m, vs[..n], ws[..n], len);
      MatVecAdd(r, m, VSum(r, vs[..n], len), vs[n]);
    }
  }

  ghost predicate AllShape(ms: seq<Mat>, rows: nat, cols: nat) {
    forall i :: 0 <= i < |ms| ==> |ms[i]| == rows && forall j :: 0 <= j < rows ==> |ms[i][j]| == cols
  }

  function MZero(r: Ring, rows: nat, cols: nat): (w: Mat)
    ensures IsMat(r, w, rows, cols)
  {
    seq(rows, _ => VZero(r, cols))
  }

  /** Repeated MatrixAdd into a zero matrix. */
  function MSum(r: Ring, ms: seq<Mat>, rows: nat, cols: nat): (w: Mat)
    requires AllShape(ms, rows, cols)
    ensures IsMat(r, w, rows, cols)
  {
    if ms == [] then MZero(r, rows, cols)
    else MatAdd(r, ms[|ms| - 1], MSum(r, ms[..|ms| - 1], rows, cols), cols)
  }

  lemma VAddComm(r: Ring, u: Vec, v: Vec)
    requires |u| == |v|
    ensures VAdd(r, u, v) == VAdd(r, v, u)
  {
    forall i | 0 <= i < |u| ensures VAdd(r, u, v)[i] == VAdd(r, v, u)[i] {
      AddComm(r, u[i], v[i]);
    }
  }

  lemma VAddZero(r: Ring, v: Vec)
    requires IsVec(r, v, |v|)
    ensures VAdd(r, VZero(r, |v|), v) == v
  {
    forall i | 0 <= i < |v| ensures Add(r, Zero(r), v[i]) == v[i] {
      AddZero(r, v[i]);
    }
  }

  /** (sum of M_i) u = sum of (M_i u). */
  lemma {:induction false} MSumVec(r: Ring, ms: seq<Mat>, rows: nat, cols: nat, u: Vec, ws: seq<Vec>)
    requires AllShape(ms, rows, cols) && |u| == cols && |ws| == |ms|
    requires forall i :: 0 <= i < |ws| ==> ws[i] == MatVec(r, ms[i], u)
    ensures AllLength(ws, rows) && MatVec(r, MSum(r, ms, rows, cols), u) == VSum(r, ws, rows)
  {
    if ms == [] {
      forall i | 0 <= i < rows ensures MatVec(r, MZero(r, rows, cols), u)[i] == Zero(r) {
        DotZeros(r, cols, u);
      }
    } else {
      var n := |ms| - 1;
      MSumVec(r, ms[..n], rows, cols, u, ws[..n]);
      var rest := MSum(r, ms[..n], rows, cols);
      MatAddVec(r, ms[n], rest, cols, u);
      VAddComm(r, ws[n], MatVec(r, rest, u));
    }
  }

  // ----- order of summation --------------------------------------------------------

  ghost function Without<T>(xs: seq<T>, i: nat): seq<T>
    requires i < |xs|
  {
    xs[..i] + xs[i + 1..]
  }

  lemma {:induction false} PSumExtract(r: Ring, xs: seq<Poly>, i: nat)
    requires i < |xs|
    ensures PSum(r, xs) == Add(r, PSum(r, Without(xs, i)), xs[i])
  {
    var n := |xs| - 1;
    if i == n {
      assert Without(xs, i) == xs[..n];
    } else {
      PSumExtract(r, xs[..n], i);
      var rest := Without(xs[..n], i);
      assert Without(xs, i) == rest + [xs[n]];
      assert (rest + [xs[n]])[..|rest|] == rest;
      AddAssoc(r, PSum(r, rest), xs[i], xs[n]);
      AddComm(r, xs[i], xs[n]);
      AddAssoc(r, PSum(r, rest), xs[n], xs[i]);
    }
  }

  /** A sum over the entries of a map does not depend on the order of its keys. */
  lemma {:induction false} PSumOrder(r: Ring, f: map<int, Poly>, ids: seq<int>, ids': seq<int>)
    requires |ids| == |ids'| && NoRepeats(ids) && NoRepeats(ids')
    requires forall x :: x in ids <==> x in ids'
    requires forall x :: x in ids ==> x in f
    ensures PSum(r, Image(f, ids)) == PSum(r, Image(f, ids'))
  {
    hide Add;
    if |ids| > 0 {
      var n := |ids| - 1;
      var i := IndexOf(ids', ids[n], ids);
      WithoutIds(ids, ids', i);
      var rest := Without(ids', i);
      PSumOrder(r, f, ids[..n], rest);
      ImageWithout(f, ids', i);
      PSumExtract(r, Image(f, ids'), i);
      assert Image(f, ids)[..n] == Image(f, ids[..n]);
    }
  }

  lemma IndexOf(ids: seq<int>, x: int, other: seq<int>) returns (i: nat)
    requires x in other && forall y :: y in other <==> y in ids
    ensures i < |ids| && ids[i] == x
  {
    assert x in ids;
    i :| 0 <= i < |ids| && ids[i] == x;
  }

  lemma ImageWithout<T>(f: map<int, T>, ids: seq<int>, i: nat)
    requires i < |ids| && forall x :: x in ids ==> x in f
    ensures forall x :: x in Without(ids, i) ==> x in f
    ensures Without(Image(f, ids), i) == Image(f, Without(ids, i))
  {
    var rest := Without(ids, i);
    forall k | 0 <= k < |rest| ensures rest[k] == if k < i then ids[k] else ids[k + 1] {
    }
    forall x | x in rest ensures x in f {
      var k :| 0 <= k < |rest| && rest[k] == x;
      assert x in ids;
    }
  }

  ghost predicate NoRepeats(ids: seq<int>) {
    forall i, j :: 0 <= i < j < |ids| ==> ids[i] != ids[j]
  }

  ghost function Image<T>(f: map<int, T>, ids: seq<int>): seq<T>
    requires forall x :: x in ids ==> x in f
  {
    seq(|ids|, i requires 0 <= i < |ids| => var x := ids[i]; assert x in ids; f[x])
  }

  lemma WithoutIds(ids: seq<int>, ids': seq<int>, i: nat)
    requires |ids| == |ids'| > 0 && NoRepeats(ids) && NoRepeats(ids') && forall x :: x in ids <==> x in ids'
    requires i < |ids'| && ids'[i] == ids[|ids| - 1]
    ensures NoRepeats(ids[..|ids| - 1]) && NoRepeats(Without(ids', i))
    ensures forall x :: x in ids[..|ids| - 1] <==> x in Without(ids', i)
  {
    var n := |ids| - 1;
    var rest := Without(ids', i);
    forall x ensures x in rest <==> x in ids' && x != ids'[i] {
      if x in rest {
        var k :| 0 <= k < |rest| && rest[k] == x;
        assert rest[k] == if k < i then ids'[k] else ids'[k + 1];
      }
      if x in ids' && x != ids'[i] {
        var k :| 0 <= k < |ids'| && ids'[k] == x;
        assert k < i ==> rest[k] == x;
        assert k > i ==> rest[k - 1] == x;
      }
    }
    assert ids == ids[..n] + [ids[n]];
    forall x ensures x in ids[..n] <==> x in ids && x != ids[n] {
      if x in ids && x != ids[n] {
        var k :| 0 <= k < |ids| && ids[k] == x;
        assert ids[..n][k] == x;
      }
      if x in ids[..n] {
        var k :| 0 <= k < n && ids[..n][k] == x;
        assert ids[k] == x && ids[k] != ids[n];
      }
    }
  }

  lemma VSumOrder(r: Ring, f: map<int, Vec>, ids: seq<int>, ids': seq<int>, len: nat)
    requires |ids| == |ids'| && NoRepeats(ids) && NoRepeats(ids')
    requires forall x :: x in ids <==> x in ids'
    requires forall x :: x in ids ==> x in f
    requires AllLength(Image(f, ids), len) && AllLength(Image(f, ids'), len)
    ensures VSum(r, Image(f, ids), len) == VSum(r, Image(f, ids'), len)
  {
    forall k | 0 <= k < len ensures VSum(r, Image(f, ids), len)[k] == VSum(r, Image(f, ids'), len)[k] {
      VSumCoord(r, Image(f, ids), len, k);
      VSumCoord(r, Image(f, ids'), len, k);
      forall x | x in ids ensures |f[x]| == len {
        var i :| 0 <= i < |ids| && ids[i] == x;
        assert Image(f, ids)[i] == f[x];
      }
      var g := map x | x in ids :: f[x][k];
      assert Image(g, ids) == Coord(Image(f, ids), k);
      assert Image(g, ids') == Coord(Image(f, ids'), k);
      PSumOrder(r, g, ids, ids');
    }
  }
}
