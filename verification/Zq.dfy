/** Arithmetic in Z_q: congruences, primality and modular inverses.
    Go's big.Int.Mod is Euclidean, so it is Dafny's `%` for a positive modulus. */
module Zq {
  datatype Option<+T> = None | Some(value: T)

  ghost predicate Cong(a: int, b: int, q: int)
    requires q > 0
  {
    a % q == b % q
  }

  ghost predicate Divides(d: int, n: int)
    requires d > 0
  {
    n % d == 0
  }

  ghost predicate Prime(q: int) {
    q >= 2 && forall d :: 2 <= d < q ==> !Divides(d, q)
  }

  lemma MulAtLeast(d: int, q: int)
    requires d >= 1 && q >= 0
    ensures d * q >= q
  {
    assert d * q == (d - 1) * q + q;
  }

  lemma NoSmallMultiple(d: int, q: int)
    requires q > 0 && -q < d * q < q
    ensures d == 0
  {
    var e := -d;
    assert e * q == -(d * q);
    if d >= 1 {
      MulAtLeast(d, q);
    } else if e >= 1 {
      MulAtLeast(e, q);
    }
  }

  lemma DivMod(x: int, q: int)
    requires q > 0
    ensures x == (x / q) * q + x % q && 0 <= x % q < q
  {
  }

  lemma ModUnique(x: int, k: int, r: int, q: int)
    requires 0 <= r < q && x == k * q + r
    ensures x % q == r && x / q == k
  {
    var k', r' := x / q, x % q;
    DivMod(x, q);
    assert (k - k') * q == r' - r;
    NoSmallMultiple(k - k', q);
  }

  lemma CongMultiple(a: int, b: int, k: int, q: int)
    requires q > 0 && a == b + k * q
    ensures Cong(a, b, q)
  {
    var m := b / q;
    assert a == (m + k) * q + b % q;
    ModUnique(a, m + k, b % q, q);
  }

  lemma CongQuotient(a: int, b: int, q: int) returns (k: int)
    requires q > 0 && Cong(a, b, q)
    ensures a == b + k * q
  {
    k := a / q - b / q;
    assert a == (a / q) * q + a % q && b == (b / q) * q + b % q;
  }

  lemma CongMod(a: int, q: int)
    requires q > 0
    ensures 0 <= a % q < q && Cong(a % q, a, q)
  {
    CongMultiple(a, a % q, a / q, q);
  }

  lemma CongRefl(a: int, q: int)
    requires q > 0
    ensures Cong(a, a, q)
  {
  }

  lemma CongTrans(a: int, b: int, c: int, q: int)
    requires q > 0 && Cong(a, b, q) && Cong(b, c, q)
    ensures Cong(a, c, q)
  {
  }

  lemma CongAdd(a: int, b: int, c: int, d: int, q: int)
    requires q > 0 && Cong(a, b, q) && Cong(c, d, q)
    ensures Cong(a + c, b + d, q)
    ensures Cong(a - c, b - d, q)
  {
    var k := CongQuotient(a, b, q);
    var l := CongQuotient(c, d, q);
    assert k * q + l * q == (k + l) * q && k * q - l * q == (k - l) * q;
    CongMultiple(a + c, b + d, k + l, q);
    CongMultiple(a - c, b - d, k - l, q);
  }

  lemma CongMul(a: int, b: int, c: int, d: int, q: int)
    requires q > 0 && Cong(a, b, q) && Cong(c, d, q)
    ensures Cong(a * c, b * d, q)
  {
    var k := CongQuotient(a, b, q);
    var l := CongQuotient(c, d, q);
    calc {
      a * c;
      (b + k * q) * (d + l * q);
      b * d + b * (l * q) + (k * q) * d + (k * q) * (l * q);
      b * d + (b * l + k * d + k * l * q) * q;
    }
    CongMultiple(a * c, b * d, b * l + k * d + k * l * q, q);
  }

  lemma CongSmall(a: int, b: int, q: int)
    requires 0 <= a < q && 0 <= b < q && Cong(a, b, q)
    ensures a == b
  {
    ModUnique(a, 0, a, q);
    ModUnique(b, 0, b, q);
  }

  /** Extended Euclid: Bezout coefficients of the greatest common divisor. */
  function ExtGcd(a: nat, b: nat): (r: (nat, int, int))
    requires a > 0 || b > 0
    ensures r.0 > 0 && a * r.1 + b * r.2 == r.0
    decreases b
  {
    if b == 0 then (a, 1, 0)
    else
      var (g, x, y) := ExtGcd(b, a % b);
      BezoutStep(a, b, x, y);
      (g, y, x - (a / b) * y)
  }

  lemma BezoutStep(a: int, b: int, x: int, y: int)
    requires b > 0
    ensures a * y + b * (x - (a / b) * y) == b * x + (a % b) * y
  {
    var k, r := a / b, a % b;
    DivMod(a, b);
    assert a * y == (k * b + r) * y == b * (k * y) + r * y;
  }

  lemma {:induction false} ExtGcdDivides(a: nat, b: nat)
    requires a > 0 || b > 0
    ensures Divides(ExtGcd(a, b).0, a) && Divides(ExtGcd(a, b).0, b)
    decreases b
  {
    if b == 0 {
      ModUnique(a, 1, 0, a);
      ModUnique(0, 0, 0, a);
    } else {
      var g := ExtGcd(b, a % b).0;
      ExtGcdDivides(b, a % b);
      DividesStep(g, a, b);
    }
  }

  lemma DividesStep(g: int, a: int, b: int)
    requires g > 0 && b > 0 && Divides(g, b) && Divides(g, a % b)
    ensures Divides(g, a)
  {
    var m, k, l := a / b, b / g, (a % b) / g;
    DivMod(a, b);
    DivMod(b, g);
    DivMod(a % b, g);
    MulAssoc(m, k, g);
    ModUnique(a, m * k + l, 0, g);
  }

  lemma MulAssoc(x: int, y: int, z: int)
    ensures x * (y * z) == x * y * z
  {
  }

  /** big.Int.ModInverse: None models the nil result on a non-unit. */
  function ModInverse(a: int, q: int): (r: Option<int>)
    requires q > 1
    ensures r.Some? ==> 0 <= r.value < q && Cong(a * r.value, 1, q)
    ensures Prime(q) ==> (r.Some? <==> !Cong(a, 0, q))
  {
    var (g, x, y) := ExtGcd(a % q, q);
    ModInverseCorrect(a, q);
    if g == 1 then Some(x % q) else None
  }

  lemma ModInverseCorrect(a: int, q: int)
    requires q > 1
    ensures var (g, x, y) := ExtGcd(a % q, q);
            && (g == 1 ==> Cong(a * (x % q), 1, q))
            && (Prime(q) ==> (g == 1 <==> !Cong(a, 0, q)))
  {
    var (g, x, y) := ExtGcd(a % q, q);
    ExtGcdDivides(a % q, q);
    ModUnique(0, 0, 0, q);
    if g == 1 {
      CongMod(a, q);
      CongMod(x, q);
      CongMul(a, a % q, x % q, x, q);
      CongMultiple((a % q) * x, 1, -y, q);
      if a % q == 0 {
        assert y * q == 1;
        NoSmallMultiple(y, q);
      }
    }
    if Prime(q) && a % q != 0 {
      DivisorBound(g, a % q);
    }
  }

  lemma DivisorBound(g: int, n: int)
    requires g > 0 && n > 0 && Divides(g, n)
    ensures g <= n
  {
    var k := n / g;
    DivMod(n, g);
    MulAtLeast(if k >= 1 then k else 1, g);
    MulAtLeast(if k >= 1 then 1 else 1 - k, g);
    assert (1 - k) * g == g - k * g;
  }

  /** A prime has no zero divisors. */
  lemma CongCancel(a: int, b: int, c: int, q: int)
    requires Prime(q) && !Cong(c, 0, q) && Cong(a * c, b * c, q)
    ensures Cong(a, b, q)
  {
    var inv := ModInverse(c, q).value;
    CongMul(a * c, b * c, inv, inv, q);
    CongMul(a, a, c * inv, 1, q);
    CongMul(b, b, c * inv, 1, q);
    assert a * c * inv == a * (c * inv) && b * c * inv == b * (c * inv);
  }

  lemma CongProductNonzero(a: int, b: int, q: int)
    requires Prime(q) && !Cong(a, 0, q) && !Cong(b, 0, q)
    ensures !Cong(a * b, 0, q)
  {
    if Cong(a * b, 0, q) {
      assert 0 * b == 0;
      CongCancel(a, 0, b, q);
    }
  }
}
