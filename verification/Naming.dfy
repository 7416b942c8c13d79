/** Shares are stored by validator name, so two positions under one name read back the same share. This
    module decides exactly when that is harmless. */
module Naming {
  import opened Zq
  import opened Polynomials
  import opened Sorting
  import opened Era
  import opened Committee

  /** The last position that carries the name of position i. */
  ghost function LastOf(names: seq<string>, i: nat): (j: nat)
    requires i < |names|
    ensures i <= j < |names| && names[j] == names[i] && names[j] !in names[j + 1..]
    decreases |names| - i
  {
    if names[i] in names[i + 1..] then
      var k :| 0 <= k < |names[i + 1..]| && names[i + 1..][k] == names[i];
      LastOf(names, i + 1 + k)
    else i
  }

  /** Position i reads back the record filed for the last position of its name. */
  lemma FiledLast<T>(names: seq<string>, parts: seq<T>, shares: map<string, T>, i: nat)
    requires |parts| == |names| && Filed(names, parts, shares) && i < |names|
    ensures names[i] in shares && shares[names[i]] == parts[LastOf(names, i)]
  {
  }

  /** A polynomial with as many roots as coefficients vanishes everywhere. */
  lemma {:induction false} RootsVanish(h: seq<int>, roots: seq<int>, x: int, q: int)
    requires Prime(q) && DistinctMod(roots, q) && |h| <= |roots|
    requires forall i :: 0 <= i < |roots| ==> Cong(Eval(h, roots[i]), 0, q)
    ensures Cong(Eval(h, x), 0, q)
    decreases |roots|
  {
    if h == [] {
      CongRefl(0, q);
    } else {
      var n := |roots| - 1;
      var a := roots[n];
      var g := DivideLinear(h, a);
      forall i | 0 <= i < n ensures Cong(Eval(g, roots[..n][i]), 0, q) {
        DivideRoot(Eval(h, roots[i]), Eval(h, a), roots[i], a, Eval(g, roots[i]), q);
      }
      RootsVanish(g, roots[..n], x, q);
      MultiplyBack(Eval(h, x), Eval(h, a), x - a, Eval(g, x), q);
    }
  }

  lemma DivideRoot(hx: int, ha: int, x: int, a: int, gx: int, q: int)
    requires Prime(q) && !Cong(x, a, q) && Cong(hx, 0, q) && Cong(ha, 0, q) && hx == ha + (x - a) * gx
    ensures Cong(gx, 0, q)
  {
    CongAdd(hx, 0, -ha, 0, q) by { CongMul(-1, -1, ha, 0, q); }
    DiffNonzero(x, a, q);
    if !Cong(gx, 0, q) {
      CongProductNonzero(x - a, gx, q);
      assert false;
    }
  }

  lemma MultiplyBack(hx: int, ha: int, d: int, gx: int, q: int)
    requires q > 0 && Cong(ha, 0, q) && Cong(gx, 0, q) && hx == ha + d * gx
    ensures Cong(hx, 0, q)
  {
    CongMul(d, d, gx, 0, q);
    CongAdd(ha, 0, d * gx, 0, q);
  }

  /** g has degree below t, the value of f at zero, and at each position what the share map gives back. */
  ghost predicate ReadsAs(names: seq<string>, t: nat, f: seq<int>, g: seq<int>, q: int)
    requires q > 0
  {
    && |g| == t && Cong(Eval(g, 0), Eval(f, 0), q)
    && forall i :: 0 <= i < |names| ==> ReadsAt(names, f, g, i, q)
  }

  ghost predicate ReadsAt(names: seq<string>, f: seq<int>, g: seq<int>, i: nat, q: int)
    requires q > 0 && i < |names|
  {
    Cong(Eval(g, i + 1), Eval(f, LastOf(names, i) + 1), q)
  }

  /** The parts are the values of f at 1, ..., n. */
  ghost predicate DealtOn(parts: seq<int>, f: seq<int>, n: nat, q: int)
    requires q > 0
  {
    |parts| == n && forall i :: 0 <= i < n ==> Cong(parts[i], Eval(f, i + 1), q)
  }

  /** What the map holds under the names are the values of g at 1, ..., n, and g has degree below t and the value of f
      at zero. */
  ghost predicate SharedOn(names: seq<string>, shares: map<string, int>, t: nat, f: seq<int>, g: seq<int>, q: int)
    requires q > 0
  {
    && |g| == t && Cong(Eval(g, 0), Eval(f, 0), q)
    && forall i :: 0 <= i < |names| ==> names[i] in shares && Cong(shares[names[i]], Eval(g, i + 1), q)
  }

  /** Whatever polynomial was dealt and whatever map its values were filed into, the values read back are again a
      sharing of its secret. */
  ghost predicate FilingSafe(names: seq<string>, t: nat, q: int)
    requires q > 0
  {
    forall f, parts, shares :: |f| == t && DealtOn(parts, f, |names|, q) && Filed(names, parts, shares) ==>
      exists g :: SharedOn(names, shares, t, f, g, q)
  }

  /** What a filed map gives back is what ReadsAs describes. */
  lemma FiledReads(names: seq<string>, parts: seq<int>, shares: map<string, int>, t: nat, f: seq<int>, g: seq<int>, q: int)
    requires q > 0 && DealtOn(parts, f, |names|, q) && Filed(names, parts, shares)
    ensures SharedOn(names, shares, t, f, g, q) <==> ReadsAs(names, t, f, g, q)
  {
    hide Cong, Eval, Filed, LastOf;
    forall i | 0 <= i < |names|
      ensures names[i] in shares && (Cong(shares[names[i]], Eval(g, i + 1), q) <==> ReadsAt(names, f, g, i, q))
    {
      FiledLast(names, parts, shares, i);
      var j := LastOf(names, i);
      CongSwap(parts[j], Eval(f, j + 1), Eval(g, i + 1), q);
    }
  }

  lemma CongSwap(v: int, fv: int, gv: int, q: int)
    requires q > 0 && Cong(v, fv, q)
    ensures Cong(v, gv, q) <==> Cong(gv, fv, q)
  {
  }

  /** The points of the positions that read back their own share. */
  ghost function Kept(names: seq<string>, n: nat): (xs: seq<int>)
    requires n <= |names|
    ensures Ascending(xs) && forall x :: x in xs <==> 1 <= x <= n && names[x - 1] !in names[x..]
  {
    if n == 0 then []
    else if names[n - 1] in names[n..] then Kept(names, n - 1)
    else
      var rest := Kept(names, n - 1);
      assert forall i :: 0 <= i < |rest| ==> rest[i] in rest;
      rest + [n]
  }

  lemma KeptDistinct(names: seq<string>, q: int)
    requires |names| < q
    ensures DistinctMod(Kept(names, |names|), q)
    ensures forall i :: 0 <= i < |Kept(names, |names|)| ==> !Cong(0, Kept(names, |names|)[i], q)
  {
    var xs := Kept(names, |names|);
    forall i | 0 <= i < |xs| ensures 1 <= xs[i] < q {
      assert xs[i] in xs;
    }
    forall i, j | 0 <= i < j < |xs| ensures !Cong(xs[i], xs[j], q) {
      if Cong(xs[i], xs[j], q) {
        CongSmall(xs[i], xs[j], q);
        assert false;
      }
    }
    forall i | 0 <= i < |xs| ensures !Cong(0, xs[i], q) {
      if Cong(0, xs[i], q) {
        CongSmall(0, xs[i], q);
        assert false;
      }
    }
  }

  ghost function Line(t: nat): seq<int>
    requires t >= 2
  {
    [0, 1] + Zeros(t - 2)
  }

  lemma EvalLine(t: nat, x: int)
    requires t >= 2
    ensures |Line(t)| == t && Eval(Line(t), x) == x
  {
    EvalPad([0, 1], t - 2, x);
    assert [0, 1][1..] == [1] && [1][1..] == [];
    assert Eval([1], x) == 1 + x * Eval([], x);
    assert Eval([0, 1], x) == 0 + x * Eval([1], x);
  }

  lemma DifferenceAt(f: seq<int>, g: seq<int>, x: int, q: int)
    requires q > 0 && |f| == |g|
    ensures Cong(Eval(AddPoly(g, ScalePoly(-1, f)), x), 0, q) <==> Cong(Eval(g, x), Eval(f, x), q)
  {
    EvalScale(-1, f, x);
    EvalAdd(g, ScalePoly(-1, f), x);
    var a, b := Eval(g, x), Eval(f, x);
    if Cong(a, b, q) {
      CongAdd(a, b, -b, -b, q);
    }
    if Cong(a + -1 * b, 0, q) {
      CongAdd(a + -1 * b, 0, b, b, q);
    }
  }

  /** Enough positions keep their share: then only f itself fits, and with the line f(x) = x every position does. */
  lemma LineKeeps(names: seq<string>, t: nat, i: nat, g: seq<int>, q: int)
    requires Prime(q) && 2 <= t <= |names| < q && i < |names|
    requires t <= |Kept(names, |names|)| && ReadsAs(names, t, Line(t), g, q)
    ensures LastOf(names, i) == i
  {
    hide Cong, Eval, Line;
    var f, xs := Line(t), Kept(names, |names|);
    EvalLine(t, i + 1);
    EvalLine(t, LastOf(names, i) + 1);
    forall k | 0 <= k < |xs| ensures Cong(Eval(AddPoly(g, ScalePoly(-1, f)), xs[k]), 0, q) {
      var x := xs[k];
      assert x in xs;
      KeptAgrees(names, t, x, f, g, q);
      DifferenceAt(f, g, x, q);
    }
    KeptDistinct(names, q);
    RootsVanish(AddPoly(g, ScalePoly(-1, f)), xs, i + 1, q);
    DifferenceAt(f, g, i + 1, q);
    assert ReadsAt(names, f, g, i, q);
    OnePoint(Eval(g, i + 1), i + 1, LastOf(names, i) + 1, q);
  }

  lemma KeptAgrees(names: seq<string>, t: nat, x: int, f: seq<int>, g: seq<int>, q: int)
    requires q > 0 && ReadsAs(names, t, f, g, q) && x in Kept(names, |names|)
    ensures Cong(Eval(g, x), Eval(f, x), q)
  {
    hide Cong, Eval, LastOf, Kept;
    var i := x - 1;
    KeptLast(names, x);
    assert ReadsAt(names, f, g, i, q);
  }

  lemma KeptLast(names: seq<string>, x: int)
    requires x in Kept(names, |names|)
    ensures 1 <= x <= |names| && LastOf(names, x - 1) == x - 1
  {
    hide Kept;
  }

  lemma OnePoint(v: int, x: int, y: int, q: int)
    requires q > 0 && Cong(v, x, q) && Cong(v, y, q) && 0 <= x < q && 0 <= y < q
    ensures x == y
  {
    CongSmall(x, y, q);
  }

  /** Few positions keep their share: a polynomial that vanishes at all of them reads back as zero, though its secret
      is not. */
  lemma NodeBreaks(names: seq<string>, t: nat, q: int) returns (f: seq<int>)
    requires Prime(q) && 1 <= t <= |names| < q && |Kept(names, |names|)| < t
    ensures |f| == t && forall g :: !ReadsAs(names, t, f, g, q)
  {
    var xs := Kept(names, |names|);
    var node := NodePoly(xs);
    f := node + Zeros(t - |node|);
    forall x ensures Eval(f, x) == Prod(xs, x) {
      EvalPad(node, t - |node|, x);
    }
    forall g ensures !ReadsAs(names, t, f, g, q) {
      if ReadsAs(names, t, f, g, q) {
        ReadsZero(names, t, f, g, xs, q);
        KeptDistinct(names, q);
        SkipProdAll(xs, |xs|, 0);
        SkipProdNonzero(xs, |xs|, 0, q);
        assert false;
      }
    }
  }

  lemma ReadsZero(names: seq<string>, t: nat, f: seq<int>, g: seq<int>, xs: seq<int>, q: int)
    requires Prime(q) && t <= |names| < q && ReadsAs(names, t, f, g, q)
    requires xs == Kept(names, |names|) && forall x :: Eval(f, x) == Prod(xs, x)
    ensures Cong(Prod(xs, 0), 0, q)
  {
    hide Cong, Eval, Kept, LastOf;
    var n := |names|;
    forall i | 0 <= i < n ensures Cong(Eval(g, Points(n)[i]), 0, q) {
      var x := LastOf(names, i) + 1;
      assert x in xs;
      assert ReadsAt(names, f, g, i, q);
      RootOf(xs, x);
    }
    PointsDistinct(n, q);
    RootsVanish(g, Points(n), 0, q);
    ZeroSide(Eval(g, 0), Prod(xs, 0), q);
  }

  lemma RootOf(xs: seq<int>, x: int)
    requires x in xs
    ensures Prod(xs, x) == 0
  {
    var k :| 0 <= k < |xs| && xs[k] == x;
    ProdRoot(xs, k);
  }

  lemma ZeroSide(a: int, b: int, q: int)
    requires q > 0 && Cong(a, b, q) && Cong(a, 0, q)
    ensures Cong(b, 0, q)
  {
  }

  lemma ReadsOwn(names: seq<string>, t: nat, f: seq<int>, q: int)
    requires q > 0 && |f| == t >= 1 && (NoDuplicates(names) || t == 1)
    ensures ReadsAs(names, t, f, f, q)
  {
    CongRefl(Eval(f, 0), q);
    forall i | 0 <= i < |names| ensures ReadsAt(names, f, f, i, q) {
      if t == 1 {
        assert f[1..] == [];
      }
      CongRefl(Eval(f, i + 1), q);
    }
  }

  /** Under a repeated name and a threshold of at least two some polynomial cannot be read back. */
  lemma SomeBreaks(names: seq<string>, t: nat, q: int) returns (f: seq<int>)
    requires Prime(q) && 2 <= t <= |names| < q && !NoDuplicates(names)
    ensures |f| == t && forall g :: !ReadsAs(names, t, f, g, q)
  {
    if |Kept(names, |names|)| < t {
      f := NodeBreaks(names, t, q);
    } else {
      var i, j :| 0 <= i < j < |names| && names[i] == names[j];
      assert names[i + 1..][j - i - 1] == names[i];
      f := Line(t);
      EvalLine(t, 0);
      forall g ensures !ReadsAs(names, t, f, g, q) {
        if ReadsAs(names, t, f, g, q) {
          LineKeeps(names, t, i, g, q);
          assert false;
        }
      }
    }
  }

  /** Filing shares by name is safe for every dealt sharing exactly when the names are distinct or the threshold
      is one. */
  lemma FilingSafeIff(names: seq<string>, t: nat, q: int)
    requires Prime(q) && 1 <= t <= |names| < q
    ensures FilingSafe(names, t, q) <==> NoDuplicates(names) || t == 1
  {
    hide Cong, Eval, Filed, ReadsAs, SharedOn;
    if NoDuplicates(names) || t == 1 {
      forall f, parts, shares | |f| == t && DealtOn(parts, f, |names|, q) && Filed(names, parts, shares)
        ensures exists g :: SharedOn(names, shares, t, f, g, q)
      {
        ReadsOwn(names, t, f, q);
        FiledReads(names, parts, shares, t, f, f, q);
      }
    } else {
      var f := SomeBreaks(names, t, q);
      var parts := DealParts(f, |names|, q);
      var shares := FilingExists(names, parts, |names|);
      assert names[..|names|] == names && parts[..|names|] == parts;
      forall g ensures !SharedOn(names, shares, t, f, g, q) {
        FiledReads(names, parts, shares, t, f, g, q);
      }
    }
  }

  lemma DealParts(f: seq<int>, n: nat, q: int) returns (parts: seq<int>)
    requires q > 0
    ensures DealtOn(parts, f, n, q)
  {
    parts := seq(n, i => Eval(f, i + 1));
    forall i | 0 <= i < n ensures Cong(parts[i], Eval(f, i + 1), q) {
      CongRefl(Eval(f, i + 1), q);
    }
  }
}
