/** A whole run in one process: every party signs, party 0 finalizes, anyone verifies. */
module LocalRun {
  import opened Zq
  import opened Sorting
  import opened Rq
  import opened Transform
  import opened Rounding
  import opened SignAlgebra
  import opened SignRounding
  import opened Sign
  import opened Protocol
  import opened Committee

  /** What party i was given at key generation. */
  datatype Holding = Holding(share: Vec, weight: Poly, macKeys: map<int, Str>)

  ghost predicate Holder(party: Party, p: Params, suite: Suite, id: int, seeds: map<int, seq<Str>>, h: Holding)
    reads party`skShare, party`seeds, party`macKeys, party`weight
  {
    && party.p == p && party.suite == suite && party.id == id && party.seeds == seeds
    && party.skShare == h.share && party.weight == h.weight && party.macKeys == h.macKeys
  }

  ghost predicate PartiesSeated(parties: seq<Party>, p: Params, suite: Suite, seeds: map<int, seq<Str>>, hs: seq<Holding>)
    reads parties`skShare, parties`seeds, parties`macKeys, parties`weight
  {
    && |parties| == |hs|
    && (forall i, j :: 0 <= i < j < |parties| ==> parties[i] != parties[j])
    && forall i :: 0 <= i < |parties| ==> Holder(parties[i], p, suite, i, seeds, hs[i])
  }

  /** Both ends of a pair hold the same MAC key. */
  ghost predicate Symmetric(hs: seq<Holding>) {
    forall i, j :: 0 <= i < |hs| && 0 <= j < |hs| && i != j ==> KeyFor(hs[i].macKeys, j) == KeyFor(hs[j].macKeys, i)
  }

  ghost predicate SaltsOk(salts: seq<Option<Str>>) {
    forall i :: 0 <= i < |salts| ==> salts[i].Some? && !AllZeroBytes(salts[i].value)
  }

  /** Party i has run its first round with this nonce. */
  ghost predicate CommittedBy(party: Party, p: Params, A: Mat, nonce: Nonce, d: Mat)
    reads party`R
    requires IsMat(p.r, A, p.M, p.N)
  {
    IsNonce(p, nonce) && party.R == WithColumn(nonce.rStar, nonce.R) && d == Commitment(p, A, nonce)
  }

  ghost predicate MacsSent(suite: Suite, hs: seq<Holding>, ds: map<int, Mat>, macs: map<int, map<int, Str>>, sid: int, T: seq<int>, n: nat)
    requires n <= |hs|
  {
    forall j :: 0 <= j < n ==> j in ds && j in macs && MacsOf(suite, hs[j], j, ds[j], macs[j], sid, T)
  }

  /** The MACs party j sends: one on its commitment for every other signer. */
  ghost predicate MacsOf(suite: Suite, h: Holding, j: int, d: Mat, macs: map<int, Str>, sid: int, T: seq<int>) {
    macs.Keys == Elements(T) - {j} && forall i :: i in macs ==> macs[i] == suite.mac(KeyFor(h.macKeys, i), j, d, sid, T)
  }

  ghost predicate CommittedAll(parties: seq<Party>, p: Params, A: Mat, nonces: seq<Nonce>, ds: map<int, Mat>, n: nat)
    reads parties`R
    requires IsMat(p.r, A, p.M, p.N) && n <= |parties| && |nonces| == n
  {
    && (forall i :: i in ds <==> 0 <= i < n)
    && forall i :: 0 <= i < n ==> CommittedBy(parties[i], p, A, nonces[i], ds[i])
  }

  /** Round 1 of one party. */
  method Round1One(party: Party, p: Params, suite: Suite, i: nat, ghost seeds: map<int, seq<Str>>, ghost h: Holding,
                   A: Mat, sid: int, T: seq<int>, salt: Option<Str>)
    returns (r: Option<(Mat, map<int, Str>)>, ghost nonce: Nonce)
    requires DimsOk(p) && SuiteOk(p, suite) && IsMat(p.r, A, p.M, p.N) && Holder(party, p, suite, i, seeds, h)
    modifies party`R, party`D
    ensures r.None? <==> AllZeroBytes(suite.session(sid, T)) || salt.None? || AllZeroBytes(salt.value)
    ensures r.Some? ==> nonce == suite.nonce(h.share, suite.session(sid, T), salt.value)
    ensures r.Some? ==> CommittedBy(party, p, A, nonce, r.value.0) && MacsOf(suite, h, i, r.value.0, r.value.1, sid, T)
  {
    hide SuiteOk, IsMat, IsNonce, Commitment, DimsOk, AllZeroBytes;
    nonce := suite.nonce(party.skShare, suite.session(sid, T), if salt.Some? then salt.value else []);
    r := party.SignRound1(A, sid, T, salt);
    NonceOk(p, suite, party.skShare, suite.session(sid, T), if salt.Some? then salt.value else []);
  }

  /** Round 1 of every party in turn. */
  method Round1All(parties: seq<Party>, p: Params, suite: Suite, ghost seeds: map<int, seq<Str>>, ghost hs: seq<Holding>,
                   A: Mat, sid: int, T: seq<int>, salts: seq<Option<Str>>)
    returns (r: Option<(map<int, Mat>, map<int, map<int, Str>>)>, ghost nonces: seq<Nonce>)
    requires DimsOk(p) && SuiteOk(p, suite) && IsMat(p.r, A, p.M, p.N)
    requires PartiesSeated(parties, p, suite, seeds, hs) && |salts| == |parties|
    modifies parties`R, parties`D
    ensures |parties| > 0 ==> (r.None? <==> AllZeroBytes(suite.session(sid, T)) || !SaltsOk(salts))
    ensures r.Some? ==>
              && |nonces| == |parties| && SaltsOk(salts)
              && (forall i :: 0 <= i < |parties| ==> nonces[i] == suite.nonce(hs[i].share, suite.session(sid, T), salts[i].value))
              && CommittedAll(parties, p, A, nonces, r.value.0, |parties|)
              && MacsSent(suite, hs, r.value.0, r.value.1, sid, T, |parties|)
  {
    hide SuiteOk, IsMat, DimsOk, AllZeroBytes, CommittedBy, MacsOf, Holder;
    var ds: map<int, Mat> := map[];
    var macs: map<int, map<int, Str>> := map[];
    nonces := [];
    for i := 0 to |parties|
      invariant i > 0 ==> !AllZeroBytes(suite.session(sid, T))
      invariant forall k :: 0 <= k < i ==> salts[k].Some? && !AllZeroBytes(salts[k].value)
      invariant |nonces| == i && CommittedAll(parties, p, A, nonces, ds, i)
      invariant forall k :: 0 <= k < i ==> nonces[k] == suite.nonce(hs[k].share, suite.session(sid, T), salts[k].value)
      invariant MacsSent(suite, hs, ds, macs, sid, T, i)
    {
      ghost var nonce;
      var out;
      out, nonce := Round1One(parties[i], p, suite, i, seeds, hs[i], A, sid, T, salts[i]);
      if out.None? {
        return None, nonces;
      }
      ds := ds[i := out.value.0];
      macs := macs[i := out.value.1];
      nonces := nonces + [nonce];
      forall k | 0 <= k < i ensures parties[k] != parties[i] && CommittedBy(parties[k], p, A, nonces[k], ds[k]) {
      }
    }
    return Some((ds, macs)), nonces;
  }

  lemma NonceOk(p: Params, suite: Suite, sk: Vec, session: Str, salt: Str)
    requires SuiteOk(p, suite)
    ensures IsNonce(p, suite.nonce(sk, session, salt))
  {
  }

  // ----- the run as a session ------------------------------------------------------

  /** The session these parties are in. */
  ghost function SessionOf(p: Params, suite: Suite, A: Mat, bTilde: Vec, T: seq<int>, seeds: map<int, seq<Str>>, hs: seq<Holding>,
                           nonces: seq<Nonce>, ds: map<int, Mat>, sid: int, prfKey: Str, mu: Str): (x: Session)
    requires |nonces| == |hs|
  {
    Session(A, T, nonces, seq(|hs|, i requires 0 <= i < |hs| => hs[i].share), seq(|hs|, i requires 0 <= i < |hs| => hs[i].weight),
            seeds, prfKey, suite.transcript(A, bTilde, sid, T, InOrder(ds, T)), mu)
  }

  ghost predicate IsRange(T: seq<int>, K: nat) {
    |T| == K && forall i :: 0 <= i < K ==> T[i] == i
  }

  ghost predicate HoldingsOk(p: Params, seeds: map<int, seq<Str>>, hs: seq<Holding>, T: seq<int>) {
    forall i :: 0 <= i < |hs| ==> |hs[i].share| <= p.N && SeedsOk(seeds, i, T)
  }

  lemma SessionIsOk(parties: seq<Party>, p: Params, suite: Suite, A: Mat, bTilde: Vec, T: seq<int>, seeds: map<int, seq<Str>>, hs: seq<Holding>,
                    nonces: seq<Nonce>, ds: map<int, Mat>, sid: int, prfKey: Str, mu: Str)
    requires DimsOk(p) && SuiteOk(p, suite) && IsMat(p.r, A, p.M, p.N) && HoldingsOk(p, seeds, hs, T) && IsRange(T, |hs|)
    requires |nonces| == |hs| == |parties| && CommittedAll(parties, p, A, nonces, ds, |parties|)
    ensures SessionOk(p, suite, SessionOf(p, suite, A, bTilde, T, seeds, hs, nonces, ds, sid, prfKey, mu))
    ensures InOrder(ds, T) == Ds(p, suite, SessionOf(p, suite, A, bTilde, T, seeds, hs, nonces, ds, sid, prfKey, mu))
  {
    hide SuiteOk, IsNonce, Commitment, SeedsOk, Elem;
    var x := SessionOf(p, suite, A, bTilde, T, seeds, hs, nonces, ds, sid, prfKey, mu);
    forall a | 0 <= a < |T| ensures IsNonce(p, x.nonces[a]) && |x.shares[a]| <= p.N && SeedsOk(x.seeds, x.T[a], x.T) {
      assert CommittedBy(parties[a], p, A, nonces[a], ds[a]);
    }
    forall a | 0 <= a < |T| ensures InOrder(ds, T)[a] == Ds(p, suite, x)[a] {
      assert CommittedBy(parties[a], p, A, nonces[a], ds[a]);
    }
  }

  /** Honest MACs over an honest key table are accepted by every party. */
  lemma MacsAccepted(suite: Suite, hs: seq<Holding>, ds: map<int, Mat>, macs: map<int, map<int, Str>>, sid: int, T: seq<int>, id: nat)
    requires id < |hs| && IsRange(T, |hs|) && Symmetric(hs) && MacsSent(suite, hs, ds, macs, sid, T, |hs|)
    ensures MacsMatch(suite, id, hs[id].macKeys, ds, macs, sid, T)
  {
    hide MacsMatch;
    assert T[id] == id;
    var keys := map i | i in T :: hs[i].macKeys;
    HonestMacsMatch(suite, keys, ds, macs, sid, T, id);
  }

  ghost predicate RankOk(p: Params, suite: Suite, x: Session)
    requires SessionOk(p, suite, x)
  {
    FullRankSum(p, MSum(p.r, Ds(p, suite, x), p.M, p.Dbar + 1))
  }

  /** The challenge every party derives. */
  ghost function Challenge(p: Params, suite: Suite, x: Session, bTilde: Vec): Poly
    requires SessionOk(p, suite, x)
  {
    suite.lowNorm(x.A, bTilde, H(p, suite, x), x.mu)
  }

  lemma AllThere(p: Params, suite: Suite, x: Session, ds: map<int, Mat>)
    requires SessionOk(p, suite, x) && InOrder(ds, x.T) == Ds(p, suite, x) && IsRange(x.T, |x.T|)
    requires forall i :: i in ds <==> 0 <= i < |x.T|
    ensures AllPresent(p, ds, x.T) && forall j :: j in ds ==> RectMat(p.r, ds[j])
  {
    hide SuiteOk, IsNonce, SeedsOk, Elem;
    forall j | j in ds ensures |ds[j]| == p.M && p.M > 0 && |ds[j][0]| == p.Dbar + 1 && RectMat(p.r, ds[j]) {
      assert InOrder(ds, x.T)[j] == ds[j] == Ds(p, suite, x)[j];
      CommitmentIs(p, suite, x, j);
    }
  }

  lemma CommitmentIs(p: Params, suite: Suite, x: Session, a: nat)
    requires SessionOk(p, suite, x) && a < |x.T|
    ensures IsMat(p.r, Ds(p, suite, x)[a], p.M, p.Dbar + 1)
  {
    hide SuiteOk, SeedsOk, Elem, Commitment;
    assert IsNonce(p, x.nonces[a]);
  }

  /** What SignRound2 returns for party a is the response of the session. */
  lemma ResponseIsZ(p: Params, suite: Suite, x: Session, c: Poly, a: nat, R: Mat)
    requires SessionOk(p, suite, x) && a < |x.T| && IsNonce(p, x.nonces[a])
    requires R == WithColumn(x.nonces[a].rStar, x.nonces[a].R)
    ensures |R| == p.N && (forall i :: 0 <= i < |R| ==> |R[i]| == p.Dbar + 1) && SeedsOk(x.seeds, x.T[a], x.T)
    ensures var u := ChallengeVector(p, suite, x.hash, x.mu);
            var ins := Masks(suite, ColumnSeeds(x.seeds, x.T[a], x.T), x.prfKey, x.hash, x.mu);
            var outs := Masks(suite, RowSeeds(x.seeds, x.T[a], x.T), x.prfKey, x.hash, x.mu);
            && |u| == p.Dbar + 1 && AllLength(ins, p.N) && AllLength(outs, p.N) && |x.shares[a]| <= p.N
            && Z(p, suite, x, c, a) ==
               Response(p, R, u, VSum(p.r, ins, p.N), WeightedShare(p, x.shares[a], x.lambdas[a]), c, VSum(p.r, outs, p.N))
  {
    hide SuiteOk, SeedsOk, Elem, IsNonce, Response, VSum, Masks, WeightedShare;
    NonceShapes(p, suite, x);
    assert Rs(p, suite, x)[a] == R;
    MasksLength(p, suite, ColumnSeeds(x.seeds, x.T[a], x.T), x.prfKey, x.hash, x.mu);
    MasksLength(p, suite, RowSeeds(x.seeds, x.T[a], x.T), x.prfKey, x.hash, x.mu);
    assert |U(p, suite, x)| == p.Dbar + 1;
  }

  /** The inputs of round 2 are those of the session. */
  ghost predicate InSession(p: Params, suite: Suite, x: Session, hs: seq<Holding>, A: Mat, bTilde: Vec, ds: map<int, Mat>, sid: int, mu: Str,
                            T: seq<int>, prfKey: Str)
  {
    && SessionOk(p, suite, x) && IsRange(T, |hs|) && |x.nonces| == |hs|
    && x == SessionOf(p, suite, A, bTilde, T, x.seeds, hs, x.nonces, ds, sid, prfKey, mu)
    && InOrder(ds, T) == Ds(p, suite, x) && forall i :: i in ds <==> 0 <= i < |hs|
  }

  /** Preprocess and Round 2 of one party. */
  method Round2One(party: Party, p: Params, suite: Suite, i: nat, ghost hs: seq<Holding>, ghost x: Session,
                   A: Mat, bTilde: Vec, ds: map<int, Mat>, macs: map<int, map<int, Str>>, sid: int, mu: Str, T: seq<int>, prfKey: Str)
    returns (r: Option<Vec>)
    requires InSession(p, suite, x, hs, A, bTilde, ds, sid, mu, T, prfKey) && Prime(Q) && i < |hs|
    requires Holder(party, p, suite, i, x.seeds, hs[i]) && IsNonce(p, x.nonces[i]) && party.R == WithColumn(x.nonces[i].rStar, x.nonces[i].R)
    requires MacsMatch(suite, i, hs[i].macKeys, ds, macs, sid, T)
    modifies party`H, party`C
    ensures r.None? <==> !RankOk(p, suite, x)
    ensures r.Some? ==>
              && r.value == Z(p, suite, x, Challenge(p, suite, x, bTilde), i)
              && party.H == H(p, suite, x) && party.C == Challenge(p, suite, x, bTilde)
  {
    hide SuiteOk, SeedsOk, Elem, IsNonce, Z, H, Ds, MacsMatch, FullRankSum, Prime, Response, MSum, WithColumn, Masks, VSum, RoundedCoeffs, MatVec;
    AllThere(p, suite, x, ds);
    var ok, DSum, hash := party.SignRound2Preprocess(A, bTilde, ds, macs, sid, T);
    if !ok {
      return None;
    }
    assert hash == x.hash && x.shares[i] == party.skShare && x.lambdas[i] == party.weight;
    CommitmentRounded(p, suite, x);
    ResponseIsZ(p, suite, x, Challenge(p, suite, x, bTilde), i, party.R);
    var z := party.SignRound2(A, bTilde, DSum, mu, T, prfKey, hash);
    return Some(z);
  }

  /** Preprocess and Round 2 of every party in turn. */
  method Round2All(parties: seq<Party>, p: Params, suite: Suite, ghost hs: seq<Holding>, ghost x: Session,
                   A: Mat, bTilde: Vec, ds: map<int, Mat>, macs: map<int, map<int, Str>>, sid: int, mu: Str, T: seq<int>, prfKey: Str)
    returns (r: Option<map<int, Vec>>)
    requires InSession(p, suite, x, hs, A, bTilde, ds, sid, mu, T, prfKey) && Prime(Q)
    requires PartiesSeated(parties, p, suite, x.seeds, hs) && Symmetric(hs) && IsMat(p.r, A, p.M, p.N)
    requires CommittedAll(parties, p, A, x.nonces, ds, |parties|) && MacsSent(suite, hs, ds, macs, sid, T, |parties|)
    modifies parties`H, parties`C
    ensures |parties| > 0 ==> (r.None? <==> !RankOk(p, suite, x))
    ensures r.Some? ==>
              var c := Challenge(p, suite, x, bTilde);
              && (forall i :: i in r.value <==> 0 <= i < |parties|)
              && (forall i :: 0 <= i < |parties| ==> r.value[i] == Z(p, suite, x, c, i))
              && (forall i :: 0 <= i < |parties| ==> parties[i].H == H(p, suite, x) && parties[i].C == c)
  {
    hide Elem, IsNonce, Z, H, MacsMatch, MacsSent, RankOk, Prime, Commitment, InSession, SessionOk, Challenge, WithColumn;
    SessionSize(p, suite, x, hs, A, bTilde, ds, sid, mu, T, prfKey);
    var zs: map<int, Vec> := map[];
    for i := 0 to |parties|
      invariant PartiesSeated(parties, p, suite, x.seeds, hs) && CommittedAll(parties, p, A, x.nonces, ds, |parties|)
      invariant i > 0 ==> RankOk(p, suite, x)
      invariant forall k :: k in zs <==> 0 <= k < i
      invariant forall k :: 0 <= k < i ==> zs[k] == Z(p, suite, x, Challenge(p, suite, x, bTilde), k)
      invariant forall k :: 0 <= k < i ==> parties[k].H == H(p, suite, x) && parties[k].C == Challenge(p, suite, x, bTilde)
    {
      var party := parties[i];
      assert Holder(party, p, suite, i, x.seeds, hs[i]) && CommittedBy(party, p, A, x.nonces[i], ds[i]);
      MacsAccepted(suite, hs, ds, macs, sid, T, i);
      var z := Round2One(party, p, suite, i, hs, x, A, bTilde, ds, macs, sid, mu, T, prfKey);
      if z.None? {
        return None;
      }
      zs := zs[i := z.value];
    }
    return Some(zs);
  }

  lemma SessionSize(p: Params, suite: Suite, x: Session, hs: seq<Holding>, A: Mat, bTilde: Vec, ds: map<int, Mat>, sid: int, mu: Str,
                    T: seq<int>, prfKey: Str)
    requires InSession(p, suite, x, hs, A, bTilde, ds, sid, mu, T, prfKey)
    ensures SessionOk(p, suite, x) && IsRange(T, |hs|) && |x.nonces| == |x.T| == |hs| && x.T == T
  {
  }

  lemma CommitmentRounded(p: Params, suite: Suite, x: Session)
    requires SessionOk(p, suite, x)
    ensures H(p, suite, x) == RoundedCoeffs(p, MatVec(p.r, MSum(p.r, Ds(p, suite, x), p.M, p.Dbar + 1), ChallengeVector(p, suite, x.hash, x.mu)))
  {
    hide SuiteOk, SeedsOk, Elem, IsNonce, Ds, MSum, MatVec, RoundedCoeffs;
  }

  // ----- start to finish -----------------------------------------------------------

  datatype RunOutcome = Round1Refused | PreprocessRefused | Finished(valid: bool, z: Vec, delta: Vec)

  /** In ascending order of party the collected responses are the responses of the session. */
  lemma ValuesAreZs(p: Params, suite: Suite, x: Session, c: Poly, zs: map<int, Vec>)
    requires SessionOk(p, suite, x) && forall i :: i in zs <==> 0 <= i < |x.T|
    requires forall i :: 0 <= i < |x.T| ==> zs[i] == Z(p, suite, x, c, i)
    ensures Values(zs) == Zs(p, suite, x, c)
  {
    hide SessionOk, Z;
    var ids := Range(|x.T|);
    forall i | i in zs ensures i in Elements(ids) {
      assert ids[i] == i;
    }
    assert zs.Keys == Elements(ids);
    EnumerateCanonical(ids);
  }

  /** LocalRun, once the keys are dealt. Round 1 is refused exactly for a zero session identifier or a bad salt; with
      symmetric MAC keys the preprocess is refused exactly when the summed commitments lack full rank; otherwise the
      signature carries the summed responses, and if every coefficient of the commitment is below QNu it verifies
      exactly when its norm is within the bound. */
  method Run(parties: seq<Party>, p: Params, suite: Suite, ghost seeds: map<int, seq<Str>>, ghost hs: seq<Holding>,
             A: Mat, bTilde: Vec, sid: int, mu: Str, prfKey: Str, salts: seq<Option<Str>>)
    returns (r: RunOutcome, ghost x: Session)
    requires |parties| > 0 && DimsOk(p) && SuiteOk(p, suite) && Prime(Q) && IsMat(p.r, A, p.M, p.N) && IsWords(bTilde, p.M, p.r.n)
    requires PartiesSeated(parties, p, suite, seeds, hs) && Symmetric(hs) && HoldingsOk(p, seeds, hs, Range(|parties|)) && |salts| == |parties|
    modifies parties`R, parties`D, parties`H, parties`C
    ensures r.Round1Refused? <==> AllZeroBytes(suite.session(sid, Range(|parties|))) || !SaltsOk(salts)
    ensures !r.Round1Refused? ==>
              && SessionOk(p, suite, x) && x.A == A && x.T == Range(|parties|) && x.mu == mu && x.seeds == seeds
              && (forall i :: 0 <= i < |parties| ==> x.shares[i] == hs[i].share && x.lambdas[i] == hs[i].weight)
              && SaltsOk(salts)
              && (forall i :: 0 <= i < |parties| ==> x.nonces[i] == suite.nonce(hs[i].share, suite.session(sid, x.T), salts[i].value))
              && x.prfKey == prfKey && x.hash == suite.transcript(A, bTilde, sid, x.T, Ds(p, suite, x))
              && (r.PreprocessRefused? <==> !RankOk(p, suite, x))
    ensures r.Finished? ==>
              var c := Challenge(p, suite, x, bTilde);
              && r.z == VSum(p.r, Zs(p, suite, x, c), p.N)
              && IsWords(r.delta, p.M, p.r.n)
              && r.delta == VSub(NuRing(p), H(p, suite, x), RoundedCoeffs(p, RunResidual(p, suite, x, bTilde, c)))
              && (BelowNu(H(p, suite, x)) ==> (r.valid <==> NormOk(RestoreVec(r.delta, Nu, p.r.n), VApply(p.r, p.t.inverse, r.z))))
  {
    hide SuiteOk, Elem, IsNonce, SeedsOk, RankOk, Z, H, Prime, InSession, MacsSent, CommittedAll, Residual, RoundedCoeffs, RestoreVec, NormOk, Values, Zs, Verifies, AllZeroBytes, BelowNu;
    var T: seq<int> := seq(|parties|, i => i);
    assert T == Range(|parties|);
    x := Session(A, T, [], [], [], seeds, prfKey, [], mu);
    var first;
    ghost var nonces;
    first, nonces := Round1All(parties, p, suite, seeds, hs, A, sid, T, salts);
    if first.None? {
      return Round1Refused, x;
    }
    var (ds, macs) := first.value;
    x := SessionOf(p, suite, A, bTilde, T, seeds, hs, nonces, ds, sid, prfKey, mu);
    SessionIsOk(parties, p, suite, A, bTilde, T, seeds, hs, nonces, ds, sid, prfKey, mu);
    JoinSession(parties, p, suite, x, hs, A, bTilde, ds, sid, mu, T, prfKey);
    var second := Round2All(parties, p, suite, hs, x, A, bTilde, ds, macs, sid, mu, T, prfKey);
    if second.None? {
      return PreprocessRefused, x;
    }
    ghost var c := Challenge(p, suite, x, bTilde);
    ValuesAreZs(p, suite, x, c, second.value);
    var cc, z, delta := parties[0].SignFinalize(second.value, A, bTilde);
    FinalWords(p, H(p, suite, x), RoundedCoeffs(p, Residual(p, A, z, bTilde, c)), delta);
    var valid := Verify(p, suite, z, A, mu, bTilde, cc, delta);
    if BelowNu(H(p, suite, x)) {
      FinalizedVerifies(p, suite, A, z, bTilde, mu, H(p, suite, x), c, delta);
    }
    return Finished(valid, z, delta), x;
  }

  lemma JoinSession(parties: seq<Party>, p: Params, suite: Suite, x: Session, hs: seq<Holding>, A: Mat, bTilde: Vec, ds: map<int, Mat>,
                    sid: int, mu: Str, T: seq<int>, prfKey: Str)
    requires SessionOk(p, suite, x) && IsRange(T, |hs|) && |x.nonces| == |hs| == |parties| && IsMat(p.r, A, p.M, p.N)
    requires x == SessionOf(p, suite, A, bTilde, T, x.seeds, hs, x.nonces, ds, sid, prfKey, mu)
    requires InOrder(ds, T) == Ds(p, suite, x) && CommittedAll(parties, p, A, x.nonces, ds, |parties|)
    ensures InSession(p, suite, x, hs, A, bTilde, ds, sid, mu, T, prfKey)
  {
    hide SessionOk, SessionOf, Ds, CommittedBy;
  }

  lemma FinalWords(p: Params, h: Vec, w: Vec, delta: Vec)
    requires |h| == |w| && delta == VSub(NuRing(p), h, w)
    ensures IsWords(delta, |h|, p.r.n)
  {
    DeltaWords(p, delta);
  }
}
