/** Signing with what the records of an era hold, and nothing else: the committee of any valid state, in
    particular the one a reshare has just installed, runs the two rounds to a signature under the era's key. */
module EraRun {
  import opened Zq
  import opened Polynomials
  import opened Sorting
  import opened Bytes
  import opened Rq
  import opened Transform
  import opened Rounding
  import opened SignAlgebra
  import opened SignRounding
  import opened Sign
  import opened PairTables
  import opened Protocol
  import opened LocalRun
  import opened Committee
  import opened Era
  import opened Lifecycle
  import opened KeyEras
  import opened Kernel = Reshare
  import opened Randomness

  // ----- the records as holdings ---------------------------------------------------

  ghost function HoldingOf(ks: KeyShare): Holding {
    Holding(ks.skShare, ks.weight, ks.macKeys)
  }

  ghost function Holdings(s: EpochState): (hs: seq<Holding>)
    requires Complete(s)
    ensures |hs| == |s.validators|
  {
    seq(|s.validators|, i requires 0 <= i < |s.validators| => HoldingOf(s.shares[s.validators[i]]))
  }

  ghost function SeedsOf(s: EpochState): map<int, seq<Str>>
    requires Complete(s) && |s.validators| > 0
  {
    s.shares[s.validators[0]].seeds
  }

  lemma OneSeedTable(s: EpochState, i: nat)
    requires Complete(s) && Keyed(s) && i < |s.validators|
    ensures s.shares[s.validators[i]].seeds == SeedsOf(s) && SquareTable(SeedsOf(s), |s.validators|)
  {
    assert KeyedAt(s, 0);
    assert SameMaterial(s.shares[s.validators[0]], 0, s.shares[s.validators[i]], i);
  }

  /** The records of a valid state are what a run asks of its parties: shares of the right length, seeds for every pair of
      signers, and one MAC key per pair. */
  lemma EraHoldings(p: Params, a: EraValue, secret: Share)
    requires Inv(p, a, secret)
    ensures Complete(a.state) && |a.state.validators| > 0
    ensures Symmetric(Holdings(a.state)) && HoldingsOk(p, SeedsOf(a.state), Holdings(a.state), Range(|a.state.validators|))
  {
    hide IsSharing, KeyOf, IsWeights, Reduced, SquareTable, VApply, SeedsOk;
    var s, K := a.state, |a.state.validators|;
    var hs := Holdings(s);
    var w :| IsWeights(Points(K), w, p.r.q) && RecordsOk(p, s, w, a.groupKey);
    forall i | 0 <= i < K ensures |hs[i].share| <= p.N && SeedsOk(SeedsOf(s), i, Range(K)) {
      assert RecordOk(p, s.shares[s.validators[i]], i, w[i], a.groupKey);
      OneSeedTable(s, i);
      SquareSeeds(SeedsOf(s), K, Range(K), i);
    }
    forall i, j | 0 <= i < K && 0 <= j < K && i != j ensures KeyFor(hs[i].macKeys, j) == KeyFor(hs[j].macKeys, i) {
      assert KeyedAt(s, i);
      assert SameMaterial(s.shares[s.validators[i]], i, s.shares[s.validators[j]], j);
    }
  }

  // ----- the run -------------------------------------------------------------------

  /** One party per record. */
  method SeatCommittee(p: Params, suite: Suite, s: EpochState) returns (parties: seq<Party>)
    requires Complete(s) && |s.validators| > 0 && Keyed(s)
    ensures |parties| == |s.validators| && fresh(parties) && PartiesSeated(parties, p, suite, SeedsOf(s), Holdings(s))
  {
    hide Keyed;
    parties := [];
    for i := 0 to |s.validators|
      invariant |parties| == i && fresh(parties)
      invariant forall j, k :: 0 <= j < k < i ==> parties[j] != parties[k]
      invariant forall k :: 0 <= k < i ==> Holder(parties[k], p, suite, k, SeedsOf(s), Holdings(s)[k])
    {
      var ks := s.shares[s.validators[i]];
      OneSeedTable(s, i);
      var party := new Party(p, suite, i, ks.skShare, ks.seeds, ks.macKeys, ks.weight);
      parties := parties + [party];
    }
  }

  /** What a finished run of a committee has signed: the responses' sum meets the signing equation under the era's key, the
      signature carries it, and with H below QNu it verifies exactly when its norm is within the bound. */
  ghost predicate SignedUnder(p: Params, suite: Suite, gk: GroupKey, secret: Share, x: Session, r: RunOutcome, e: Vec, b: Vec)
    requires r.Finished?
  {
    && SessionOk(p, suite, x) && x.A == gk.A
    && IsKey(p, x.A, VApply(p.r, p.t.forward, secret), e, b, gk.bTilde)
    && var c := Challenge(p, suite, x, gk.bTilde);
    && MeetsEquation(p, suite, x, VApply(p.r, p.t.forward, secret), e, b, gk.bTilde, c)
    && r.z == VSum(p.r, Zs(p, suite, x, c), p.N) && IsWords(r.delta, p.M, p.r.n)
    && r.delta == VSub(NuRing(p), H(p, suite, x), RoundedCoeffs(p, RunResidual(p, suite, x, gk.bTilde, c)))
    && (BelowNu(H(p, suite, x)) ==> (r.valid <==> NormOk(RestoreVec(r.delta, Nu, p.r.n), VApply(p.r, p.t.inverse, r.z))))
  }

  lemma EraKeyed(p: Params, a: EraValue, secret: Share)
    requires Inv(p, a, secret)
    ensures Complete(a.state) && |a.state.validators| > 0 && Keyed(a.state)
  {
    hide IsSharing, KeyOf, IsWeights, Reduced, Keyed, RecordsOk;
  }

  lemma KeyShape(p: Params, a: EraValue, secret: Share)
    requires Inv(p, a, secret)
    ensures IsMat(p.r, a.groupKey.A, p.M, p.N) && IsWords(a.groupKey.bTilde, p.M, p.r.n)
  {
    hide Committed, Lineage, IsMat, IsWords, VApply, RoundVec;
  }

  lemma RangeCovers(K: nat)
    ensures NoRepeats(Range(K)) && forall i :: 0 <= i < K ==> i in Range(K)
  {
    forall i | 0 <= i < K ensures i in Range(K) {
      assert Range(K)[i] == i;
    }
  }

  /** The session of a run over the records seats every position. */
  lemma SeatedInRun(p: Params, suite: Suite, s: EpochState, x: Session)
    requires Complete(s) && |s.validators| > 0 && Keyed(s) && SessionOk(p, suite, x)
    requires x.T == Range(|s.validators|) && x.seeds == SeedsOf(s)
    requires forall i :: 0 <= i < |s.validators| ==> x.shares[i] == Holdings(s)[i].share && x.lambdas[i] == Holdings(s)[i].weight
    ensures Seated(p, s, x)
  {
    hide SuiteOk, IsNonce, SeedsOk, Keyed, SquareTable, IsMat;
    forall i | 0 <= i < |x.T| ensures SignsWith(s.shares[s.validators[x.T[i]]], x.shares[i], x.lambdas[i], x.seeds) && IsNonce(p, x.nonces[i]) {
      OneSeedTable(s, i);
    }
  }

  /** The committee of a valid state signs. */
  method CommitteeRun(p: Params, suite: Suite, ghost a: EraValue, gk: GroupKey, s: EpochState, ghost secret: Share,
                      sid: int, mu: Str, prfKey: Str, salts: seq<Option<Str>>)
    returns (r: RunOutcome, ghost x: Session, ghost e: Vec, ghost b: Vec)
    requires Standard(p) && DimsOk(p) && SuiteOk(p, suite) && Prime(Q)
    requires Inv(p, a, secret) && gk == a.groupKey && s == a.state && |salts| == |s.validators|
    ensures r.Round1Refused? <==> AllZeroBytes(suite.session(sid, Range(|s.validators|))) || !SaltsOk(salts)
    ensures !r.Round1Refused? ==> SessionOk(p, suite, x) && x.mu == mu && (r.PreprocessRefused? <==> !RankOk(p, suite, x))
    ensures r.Finished? ==> SignedUnder(p, suite, gk, secret, x, r, e, b)
  {
    hide SuiteOk, SessionOk, Inv, RankOk, AllZeroBytes, Symmetric, HoldingsOk, IsKey, MeetsEquation, Standard, BelowNu, NormOk, RunResidual, H, Zs, IsMat, IsWords, PartiesSeated, SaltsOk, Seated;
    EraHoldings(p, a, secret);
    EraKeyed(p, a, secret);
    KeyShape(p, a, secret);
    var parties := SeatCommittee(p, suite, s);
    e, b := [], [];
    r, x := Run(parties, p, suite, SeedsOf(s), Holdings(s), gk.A, gk.bTilde, sid, mu, prfKey, salts);
    if r.Finished? {
      RangeCovers(|s.validators|);
      SeatedInRun(p, suite, s, x);
      e, b := EraSigns(p, suite, a, secret, x, Challenge(p, suite, x, gk.bTilde));
    }
  }

  /** Reshare, then sign: whatever committee with distinct names took over, it signs under the unchanged key. */
  method ReshareAndSign(era: KeyEra, suite: Suite, newValidators: seq<string>, newThreshold: int, rs: ByteReader, ghost secret: Share,
                        sid: int, mu: Str, prfKey: Str, salts: seq<Option<Str>>)
    returns (dealt: Reply<EpochState>, r: Option<RunOutcome>, ghost x: Session, ghost e: Vec, ghost b: Vec)
    requires Standard(era.p) && DimsOk(era.p) && SuiteOk(era.p, suite) && Prime(Q)
    requires Inv(era.p, era.Value(), secret) && NoDuplicates(newValidators) && |salts| == |newValidators|
    modifies era`state, rs
    ensures r.Some? <==> dealt.Done?
    ensures dealt.Done? ==> Inv(era.p, era.Value(), secret) && era.state.validators == newValidators
    ensures dealt.Done? ==> (r.value.Round1Refused? <==> AllZeroBytes(suite.session(sid, Range(|newValidators|))) || !SaltsOk(salts))
    ensures dealt.Done? && !r.value.Round1Refused? ==> SessionOk(era.p, suite, x) && (r.value.PreprocessRefused? <==> !RankOk(era.p, suite, x))
    ensures dealt.Done? && r.value.Finished? ==> SignedUnder(era.p, suite, era.groupKey, secret, x, r.value, e, b)
  {
    hide SuiteOk, SessionOk, Inv, RankOk, AllZeroBytes, Standard, SaltsOk, SignedUnder, Reshared, ReshareRefused, ResharePanics, DrawnFor, ResharedBy, Keyed, NoDuplicates;
    x, e, b := Session([], [], [], [], [], map[], [], [], []), [], [];
    ghost var dealing;
    dealt, dealing := era.Reshare(newValidators, newThreshold, rs);
    if !dealt.Done? {
      return dealt, None, x, e, b;
    }
    var out;
    out, x, e, b := CommitteeRun(era.p, suite, era.Value(), era.groupKey, era.state, secret, sid, mu, prfKey, salts);
    return dealt, Some(out), x, e, b;
  }
}
