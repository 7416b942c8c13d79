/** lagrangeAtZero and the reconstruction it supports. */
module Lagrange {
  import opened Zq
  import opened Polynomials
  import opened Sorting

  /** The weight of each id, in the given order. */
  ghost function WeightsOf(weight: map<int, int>, ids: seq<int>): seq<int>
    requires forall i :: 0 <= i < |ids| ==> ids[i] in weight
  {
    seq(|ids|, i requires 0 <= i < |ids| => weight[ids[i]])
  }

  /** c is the reduced Lagrange basis value at zero of point i. */
  ghost predicate IsBasis(ids: seq<int>, i: nat, c: int, q: int)
    requires q > 0 && i < |ids|
  {
    0 <= c < q && Cong(c * SkipProd(ids, i, ids[i]), SkipProd(ids, i, 0), q)
  }

  ghost predicate Separated(ids: seq<int>, i: nat, q: int)
    requires q > 0 && i < |ids|
  {
    forall j :: 0 <= j < |ids| && j != i ==> !Cong(ids[i], ids[j], q)
  }

  /** One basis value: None is the nil inverse that makes the next multiplication panic. */
  method BasisAtZero(ids: seq<int>, i: nat, q: nat) returns (r: Option<int>)
    requires Prime(q) && i < |ids| && NoDuplicates(ids)
    ensures r.Some? <==> Separated(ids, i, q)
    ensures r.Some? ==> IsBasis(ids, i, r.value, q)
  {
    var num, den := 1, 1;
    var j := 0;
    while j < |ids|
      invariant 0 <= j <= |ids|
      invariant Cong(num, SkipProd(ids[..j], i, 0), q)
      invariant Cong(den, SkipProd(ids[..j], i, ids[i]), q)
    {
      assert ids[..j + 1][..j] == ids[..j];
      if ids[i] != ids[j] {
        BasisStep(num, SkipProd(ids[..j], i, 0), -ids[j], q);
        BasisStep(den, SkipProd(ids[..j], i, ids[i]), ids[i] - ids[j], q);
        num := (num * -ids[j]) % q;
        den := (den * (ids[i] - ids[j])) % q;
      }
      j := j + 1;
    }
    assert ids[..j] == ids;
    SkipProdNonzero(ids, i, ids[i], q);
    var inv := ModInverse(den, q);
    if inv.None? {
      return None;
    }
    var coeff := (num * inv.value) % q;
    BasisCorrect(num, den, inv.value, SkipProd(ids, i, 0), SkipProd(ids, i, ids[i]), q);
    return Some(coeff);
  }

  lemma BasisStep(acc: int, prod: int, factor: int, q: int)
    requires q > 0 && Cong(acc, prod, q)
    ensures Cong((acc * factor) % q, factor * prod, q)
  {
    CongMod(acc * factor, q);
    CongMul(acc, prod, factor, factor, q);
    assert prod * factor == factor * prod;
  }

  lemma BasisCorrect(num: int, den: int, inv: int, numProd: int, denProd: int, q: int)
    requires q > 0 && Cong(den * inv, 1, q) && Cong(num, numProd, q) && Cong(den, denProd, q)
    ensures 0 <= (num * inv) % q < q && Cong(((num * inv) % q) * denProd, numProd, q)
  {
    CongMod(num * inv, q);
    CongMul((num * inv) % q, num * inv, denProd, den, q);
    CongMul(num, num, den * inv, 1, q);
    assert num * inv * den == num * (den * inv);
  }

  /** weight holds the basis values of the first n ids. */
  ghost predicate Basis(ids: seq<int>, n: nat, weight: map<int, int>, q: int)
    requires q > 0 && n <= |ids|
  {
    && weight.Keys == Elements(ids[..n])
    && forall i :: 0 <= i < n ==> ids[i] in weight && IsBasis(ids, i, weight[ids[i]], q)
  }

  lemma BasisSnoc(ids: seq<int>, n: nat, weight: map<int, int>, c: int, q: int)
    requires q > 0 && n < |ids| && NoDuplicates(ids) && Basis(ids, n, weight, q) && IsBasis(ids, n, c, q)
    ensures Basis(ids, n + 1, weight[ids[n] := c], q)
  {
    assert ids[..n + 1] == ids[..n] + [ids[n]];
    var weight' := weight[ids[n] := c];
    assert weight'.Keys == Elements(ids[..n + 1]);
    forall i | 0 <= i < n + 1 ensures ids[i] in weight' && IsBasis(ids, i, weight'[ids[i]], q) {
      if i < n {
        assert ids[i] != ids[n];
      }
    }
  }

  lemma BasisAll(ids: seq<int>, weight: map<int, int>, q: int)
    requires q > 0 && Basis(ids, |ids|, weight, q)
    ensures weight.Keys == Elements(ids)
    ensures forall i :: 0 <= i < |ids| ==> ids[i] in weight && 0 <= weight[ids[i]] < q
    ensures IsWeights(ids, WeightsOf(weight, ids), q)
  {
    assert ids[..|ids|] == ids;
    var w := WeightsOf(weight, ids);
    forall i | 0 <= i < |ids| ensures Cong(w[i] * SkipProd(ids, i, ids[i]), SkipProd(ids, i, 0), q) {
      assert IsBasis(ids, i, weight[ids[i]], q);
    }
  }

  /** lagrangeAtZero. The nil inverse appears exactly when two ids of the quorum collide
      modulo q; otherwise the coefficients are the reduced Lagrange weights at zero. */
  method LagrangeAtZero<V>(quorum: map<int, V>, q: nat) returns (r: Option<map<int, int>>)
    requires Prime(q)
    ensures r.Some? <==> DistinctMod(Enumerate(quorum.Keys), q)
    ensures r.Some? ==>
              var ids := Enumerate(quorum.Keys);
              && r.value.Keys == quorum.Keys
              && (forall i :: 0 <= i < |ids| ==> ids[i] in r.value && 0 <= r.value[ids[i]] < q)
              && IsWeights(ids, WeightsOf(r.value, ids), q)
  {
    var ids := SortedKeys(quorum);
    var out: map<int, int> := map[];
    var n := 0;
    while n < |ids|
      invariant 0 <= n <= |ids|
      invariant Basis(ids, n, out, q)
      invariant forall i :: 0 <= i < n ==> Separated(ids, i, q)
    {
      var coeff := BasisAtZero(ids, n, q);
      if coeff.None? {
        NotSeparated(ids, n, q);
        return None;
      }
      BasisSnoc(ids, n, out, coeff.value, q);
      out := out[ids[n] := coeff.value];
      n := n + 1;
    }
    BasisAll(ids, out, q);
    AllSeparated(ids, q);
    return Some(out);
  }

  lemma NotSeparated(ids: seq<int>, n: nat, q: int)
    requires q > 0 && n < |ids| && !Separated(ids, n, q)
    ensures !DistinctMod(ids, q)
  {
    var j :| 0 <= j < |ids| && j != n && Cong(ids[n], ids[j], q);
    if j < n {
      assert Cong(ids[j], ids[n], q);
    }
  }

  lemma AllSeparated(ids: seq<int>, q: int)
    requires q > 0 && forall i :: 0 <= i < |ids| ==> Separated(ids, i, q)
    ensures DistinctMod(ids, q)
  {
    forall i, j | 0 <= i < j < |ids| ensures !Cong(ids[i], ids[j], q) {
      assert Separated(ids, i, q);
    }
  }

  /** Weights that are right for the points recover the shared constant term from shares. */
  lemma Reconstruct(ids: seq<int>, w: seq<int>, shares: seq<int>, f: seq<int>, q: int)
    requires Prime(q) && DistinctMod(ids, q) && IsWeights(ids, w, q) && |f| <= |ids| == |shares|
    requires forall i :: 0 <= i < |ids| ==> Cong(shares[i], Eval(f, ids[i]), q)
    ensures Cong(Dot(w, shares), Eval(f, 0), q)
  {
    DotIsDotEval(w, ids, f, shares, q);
    Interpolate(ids, w, f, q);
  }
}
