/** The key-era lifecycle on values: what one era and its share state hold, the invariant that every
    run of Bootstrap, Reshare and Reanchor keeps, and how the lineage counters move. */
module Era {
  import opened Zq
  import opened Polynomials
  import opened Sorting
  import opened Randomness
  import opened Rq
  import opened Transform
  import opened Rounding
  import opened SignAlgebra
  import opened SignRounding
  import opened Sign
  import opened PairTables
  import opened Protocol
  import opened Reshare
  import opened Runs
  import opened Committee

  datatype GroupKey = GroupKey(A: Mat, bTilde: Vec)

  datatype KeyShare = KeyShare(
    index: nat, skShare: Vec, seeds: map<int, seq<Str>>, macKeys: map<int, Str>, weight: Poly, groupKey: GroupKey)

  datatype EpochState = EpochState(
    keyEraID: nat, suiteID: string, generation: nat, rollbackFrom: nat, epoch: nat,
    validators: seq<string>, threshold: int, shares: map<string, KeyShare>)

  datatype EraValue = EraValue(eraID: nat, groupID: nat, groupKey: GroupKey, genesisEpoch: nat, suiteID: string, state: EpochState)

  /** Addition of one on uint64. */
  function Next(x: nat): (y: nat)
    ensures y < WORD && (x < WORD ==> (y > x <==> x != WORD - 1))
  {
    (x + 1) % WORD
  }

  // ----- shares in coefficient form ------------------------------------------------

  /** cloneVectorAsStandard. */
  function Standardized(p: Params, v: Vec): (share: Share)
    ensures Shape(share, |v|, p.r.n) && Reduced(share, p.r.q) && share == VApply(p.r, p.t.inverse, v)
  {
    var w := VApply(p.r, p.t.inverse, v);
    seq(|w|, i requires 0 <= i < |w| => assert Elem(p.r, w[i]); ToNat(p.r, w[i]))
  }

  function ToNat(r: Ring, a: Poly): (b: seq<nat>)
    requires Elem(r, a)
    ensures a == b
  {
    seq(|a|, i requires 0 <= i < |a| => a[i])
  }

  /** stdShareToNTT undone by cloneVectorAsStandard. */
  lemma ConversionRoundTrip(p: Params, share: Share, N: nat)
    requires IsTransform(p.r, p.t) && Shape(share, N, p.r.n) && Reduced(share, p.r.q)
    ensures Standardized(p, VApply(p.r, p.t.forward, share)) == share
  {
    var back := Standardized(p, VApply(p.r, p.t.forward, share));
    forall i | 0 <= i < N ensures back[i] == share[i] {
      assert Elem(p.r, share[i]);
    }
  }

  ghost predicate Complete(s: EpochState) {
    forall i :: 0 <= i < |s.validators| ==> s.validators[i] in s.shares
  }

  /** The share of each position in coefficient form, keyed by evaluation point: the kernel's input. */
  ghost function TableOf(p: Params, s: EpochState): (m: map<int, Share>)
    requires Complete(s)
    ensures forall j :: j in m <==> 1 <= j <= |s.validators|
  {
    map j | 1 <= j <= |s.validators| :: ShareAtPoint(p, s, j)
  }

  ghost function ShareAtPoint(p: Params, s: EpochState, j: int): Share
    requires Complete(s) && 1 <= j <= |s.validators|
  {
    Standardized(p, s.shares[s.validators[j - 1]].skShare)
  }

  // ----- the invariant -------------------------------------------------------------

  /** Public key A s + e, rounded, for some noise e. */
  ghost predicate KeyOf(p: Params, gk: GroupKey, secret: Share) {
    exists e, b :: IsKey(p, gk.A, VApply(p.r, p.t.forward, secret), e, b, gk.bTilde)
  }

  /** The record of position i: its own index, full-committee weight and the era's key. */
  ghost predicate RecordOk(p: Params, ks: KeyShare, i: nat, w: int, gk: GroupKey) {
    ks.index == i && ks.weight == Const(p.r, w) && ks.groupKey == gk && |ks.skShare| == p.N
    && ks.skShare == VApply(p.r, p.t.forward, Standardized(p, ks.skShare))
  }

  ghost predicate RecordsOk(p: Params, s: EpochState, w: seq<int>, gk: GroupKey)
    requires Complete(s)
  {
    |w| == |s.validators| && forall i :: 0 <= i < |s.validators| ==> RecordOk(p, s.shares[s.validators[i]], i, w[i], gk)
  }

  /** The pairwise material in the records: one seed table for the whole committee, MAC keys for exactly the other positions,
      the same key at both ends of a pair. */
  ghost predicate Keyed(s: EpochState)
    requires Complete(s)
  {
    forall i :: 0 <= i < |s.validators| ==> KeyedAt(s, i)
  }

  ghost predicate KeyedAt(s: EpochState, i: nat)
    requires Complete(s) && i < |s.validators|
  {
    var K, ks := |s.validators|, s.shares[s.validators[i]];
    && SquareTable(ks.seeds, K)
    && (forall j :: j in ks.macKeys <==> 0 <= j < K && j != i)
    && forall j :: 0 <= j < K ==> SameMaterial(ks, i, s.shares[s.validators[j]], j)
  }

  /** Two records of one committee: the seed table is shared, and so is the key of the pair. */
  ghost predicate SameMaterial(ks: KeyShare, i: int, other: KeyShare, j: int) {
    other.seeds == ks.seeds && (j != i ==> j in ks.macKeys && i in other.macKeys && other.macKeys[i] == ks.macKeys[j])
  }

  ghost predicate Lineage(a: EraValue) {
    && a.state.keyEraID == a.eraID < WORD
    && a.state.suiteID == a.suiteID
    && a.genesisEpoch < WORD && a.state.epoch == (a.genesisEpoch + a.state.generation) % WORD
  }

  ghost predicate Committed(p: Params, s: EpochState, gk: GroupKey, secret: Share)
    requires p.r.q > 0
  {
    && NoDuplicates(s.validators) && 1 <= s.threshold <= |s.validators| < p.r.q
    && Complete(s)
    && (exists w :: IsWeights(Points(|s.validators|), w, p.r.q) && RecordsOk(p, s, w, gk)) && Keyed(s)
    && IsSharing(TableOf(p, s), s.threshold, secret, p.N, p.r.n, p.r.q) && Reduced(secret, p.r.q)
  }

  /** What holds of an era at every moment of every run. */
  ghost predicate Inv(p: Params, a: EraValue, secret: Share) {
    Lineage(a) && Committed(p, a.state, a.groupKey, secret) && KeyOf(p, a.groupKey, secret)
  }

  // ----- filing shares under validator names ---------------------------------------

  /** shares is what filing parts[i] under names[i], in order, leaves behind: the last one filed stays. */
  ghost predicate Filed<T>(names: seq<string>, parts: seq<T>, shares: map<string, T>)
    requires |parts| == |names|
  {
    && shares.Keys == Elements(names)
    && forall i :: 0 <= i < |names| && names[i] !in names[i + 1..] ==> names[i] in shares && shares[names[i]] == parts[i]
  }

  lemma FiledEmpty<T>(names: seq<string>)
    ensures Filed<T>(names[..0], [], map[])
  {
    assert names[..0] == [];
  }

  lemma FiledSnoc<T>(names: seq<string>, n: nat, parts: seq<T>, shares: map<string, T>, ks: T)
    requires n < |names| && |parts| == n && Filed(names[..n], parts, shares)
    ensures Filed(names[..n + 1], parts + [ks], shares[names[n] := ks])
  {
    var names', parts', shares' := names[..n + 1], parts + [ks], shares[names[n] := ks];
    assert names' == names[..n] + [names[n]];
    assert shares'.Keys == Elements(names');
    forall i | 0 <= i < |names'| && names'[i] !in names'[i + 1..]
      ensures names'[i] in shares' && shares'[names'[i]] == parts'[i]
    {
      if i < n {
        assert names'[i + 1..] == names[..n][i + 1..] + [names[n]];
        assert names[n] in names'[i + 1..];
        assert names[..n][i] !in names[..n][i + 1..];
      }
    }
  }

  /** Such a map exists for every list. */
  lemma {:induction false} FilingExists<T>(names: seq<string>, parts: seq<T>, n: nat) returns (shares: map<string, T>)
    requires n <= |names| == |parts|
    ensures Filed(names[..n], parts[..n], shares)
  {
    if n == 0 {
      shares := map[];
      FiledEmpty<T>(names);
      assert parts[..0] == [];
    } else {
      var before := FilingExists(names, parts, n - 1);
      shares := before[names[n - 1] := parts[n - 1]];
      FiledSnoc(names, n - 1, parts[..n - 1], before, parts[n - 1]);
      assert parts[..n] == parts[..n - 1] + [parts[n - 1]];
    }
  }

  /** Every position reads back the record filed for it exactly when the names are distinct. */
  lemma FiledDistinct(names: seq<string>, parts: seq<KeyShare>, shares: map<string, KeyShare>)
    requires |parts| == |names| && Filed(names, parts, shares)
    requires forall i :: 0 <= i < |parts| ==> parts[i].index == i
    ensures NoDuplicates(names) <==> forall i :: 0 <= i < |names| ==> names[i] in shares && shares[names[i]] == parts[i]
  {
    if NoDuplicates(names) {
      forall i | 0 <= i < |names| ensures names[i] in shares && shares[names[i]] == parts[i] {
        assert names[i] !in names[i + 1..];
      }
    }
  }

  /** Two positions under one name, for every modulus above 2, so for the library's: with threshold 2, dealing the line
      f(x) = x (secret 0) and reading the two positions back makes the weights recover 2 instead. */
  lemma SharedNameLosesSecret(shares: map<string, int>, q: int)
    requires q > 2 && Filed(["v", "v"], [1, 2], shares)
    ensures IsWeights(Points(2), [2, -1], q) && Dot([2, -1], [1, 2]) == 0
    ensures "v" in shares && Dot([2, -1], [shares["v"], shares["v"]]) == 2 && !Cong(2, 0, q)
  {
    hide Cong, Dot, SkipProd, IsWeights;
    var names := ["v", "v"];
    TwoPointWeights(q);
    DotPair(2, -1, 1, 2);
    DotPair(2, -1, 2, 2);
    assert names[1] !in names[2..] && names[1] in shares;
    TwoIsNotZero(q);
  }

  lemma TwoIsNotZero(q: int)
    requires q > 2
    ensures !Cong(2, 0, q)
  {
    ModUnique(2, 0, 2, q);
    ModUnique(0, 0, 0, q);
  }

  /** For the points 1 and 2 the weights are 2 and -1, whatever the modulus. */
  lemma TwoPointWeights(q: int)
    requires q > 0
    ensures IsWeights(Points(2), [2, -1], q)
  {
    hide Cong, SkipProd;
    var xs, w := Points(2), [2, -1];
    assert xs == [1, 2];
    SkipPair(xs, 0, 1);
    SkipPair(xs, 1, 2);
    SkipPair(xs, 0, 0);
    SkipPair(xs, 1, 0);
    CongRefl(-2, q);
    CongRefl(-1, q);
    forall i | 0 <= i < 2 ensures Cong(w[i] * SkipProd(xs, i, xs[i]), SkipProd(xs, i, 0), q) {
    }
  }

  lemma DotPair(a: int, b: int, x: int, y: int)
    ensures Dot([a, b], [x, y]) == a * x + b * y && Dot([a], [x]) == a * x
  {
    assert [a, b][..1] == [a] && [x, y][..1] == [x];
    assert [a][..0] == [] && [x][..0] == [];
    assert Dot([], []) == 0;
    assert Dot([a], [x]) == Dot([], []) + a * x;
  }

  lemma SkipPair(xs: seq<int>, i: nat, y: int)
    requires |xs| == 2 && i < 2
    ensures SkipProd(xs, i, y) == y - xs[1 - i]
  {
    assert xs[..1][..0] == [];
    assert SkipProd(xs[..1], i, y) == (if i == 0 then 1 else y - xs[0]) * SkipProd([], i, y);
  }
}
