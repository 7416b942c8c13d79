/** Several threshold signers on the same round-1 messages: for any signer list the collection guard accepts,
    their answers combine into one signature. */
module ThresholdRun {
  import opened Zq
  import opened Sorting
  import opened Rq
  import opened Transform
  import opened Rounding
  import opened SignAlgebra
  import opened SignRounding
  import opened Sign
  import opened Protocol
  import opened LocalRun
  import opened Threshold

  ghost function PartiesOf(signers: seq<Signer>): (parties: seq<Party>)
    ensures |parties| == |signers| && forall a :: 0 <= a < |signers| ==> parties[a] == signers[a].party
  {
    seq(|signers|, a requires 0 <= a < |signers| => signers[a].party)
  }

  /** Signer a belongs to party T[a], holds hs[a] and signs under the common key. */
  ghost predicate SignersSeated(signers: seq<Signer>, T: seq<int>, p: Params, suite: Suite, seeds: map<int, seq<Str>>, hs: seq<Holding>,
                                A: Mat, bTilde: Vec)
    reads PartiesOf(signers)`skShare, PartiesOf(signers)`seeds, PartiesOf(signers)`macKeys, PartiesOf(signers)`weight
  {
    && |signers| == |T| == |hs|
    && (forall a, b :: 0 <= a < b < |signers| ==> signers[a].party != signers[b].party)
    && forall a :: 0 <= a < |signers| ==>
         signers[a].A == A && signers[a].bTilde == bTilde && Holder(PartiesOf(signers)[a], p, suite, T[a], seeds, hs[a])
  }

  /** Every signer has run its first round with its nonce. */
  ghost predicate HasCommitted(signers: seq<Signer>, p: Params, nonces: seq<Nonce>)
    reads PartiesOf(signers)`R
  {
    && |nonces| == |signers|
    && forall a :: 0 <= a < |signers| ==>
         IsNonce(p, nonces[a]) && PartiesOf(signers)[a].R == WithColumn(nonces[a].rStar, nonces[a].R)
  }

  /** What the signers committed to, in the order of the list. */
  ghost function CommittedMatrices(p: Params, A: Mat, nonces: seq<Nonce>): (ms: seq<Mat>)
    requires IsMat(p.r, A, p.M, p.N) && forall a :: 0 <= a < |nonces| ==> IsNonce(p, nonces[a])
    ensures |ms| == |nonces|
  {
    seq(|nonces|, a requires 0 <= a < |nonces| => Commitment(p, A, nonces[a]))
  }

  /** Messages from listed parties carry the commitments those parties made. */
  ghost predicate HonestData(p: Params, A: Mat, T: seq<int>, nonces: seq<Nonce>, data: map<int, Round1Data>)
    requires IsMat(p.r, A, p.M, p.N) && |nonces| == |T| && forall a :: 0 <= a < |nonces| ==> IsNonce(p, nonces[a])
  {
    forall k, a :: k in data && 0 <= a < |T| && data[k].partyID == T[a] ==> data[k].D == Commitment(p, A, nonces[a])
  }

  /** The session the signers are in. */
  ghost function SessionFor(p: Params, suite: Suite, A: Mat, bTilde: Vec, T: seq<int>, seeds: map<int, seq<Str>>, hs: seq<Holding>,
                            nonces: seq<Nonce>, sid: int, prfKey: Str, mu: Str): (x: Session)
    requires IsMat(p.r, A, p.M, p.N) && |nonces| == |hs| && forall a :: 0 <= a < |nonces| ==> IsNonce(p, nonces[a])
  {
    Session(A, T, nonces, seq(|hs|, i requires 0 <= i < |hs| => hs[i].share), seq(|hs|, i requires 0 <= i < |hs| => hs[i].weight),
            seeds, prfKey, suite.transcript(A, bTilde, sid, T, CommittedMatrices(p, A, nonces)), mu)
  }

  ghost predicate HoldingsFit(p: Params, seeds: map<int, seq<Str>>, hs: seq<Holding>, T: seq<int>)
    requires |hs| == |T|
  {
    forall a :: 0 <= a < |hs| ==> |hs[a].share| <= p.N && SeedsOk(seeds, T[a], T)
  }

  lemma SessionForOk(p: Params, suite: Suite, A: Mat, bTilde: Vec, T: seq<int>, seeds: map<int, seq<Str>>, hs: seq<Holding>,
                     nonces: seq<Nonce>, sid: int, prfKey: Str, mu: Str)
    requires DimsOk(p) && SuiteOk(p, suite) && IsMat(p.r, A, p.M, p.N)
    requires |nonces| == |hs| == |T| && (forall a :: 0 <= a < |nonces| ==> IsNonce(p, nonces[a])) && HoldingsFit(p, seeds, hs, T)
    ensures var x := SessionFor(p, suite, A, bTilde, T, seeds, hs, nonces, sid, prfKey, mu);
            SessionOk(p, suite, x) && Ds(p, suite, x) == CommittedMatrices(p, A, nonces)
  {
    hide SuiteOk, IsNonce, SeedsOk, Elem, Commitment;
  }

  /** The collected commitments are those of the session. */
  lemma GatheredAreCommitted(p: Params, A: Mat, T: seq<int>, nonces: seq<Nonce>, data: map<int, Round1Data>, ds: map<int, Mat>,
                             macs: map<int, map<int, Str>>)
    requires IsMat(p.r, A, p.M, p.N) && |nonces| == |T| && forall a :: 0 <= a < |nonces| ==> IsNonce(p, nonces[a])
    requires HonestData(p, A, T, nonces, data) && Gathers(data, ds, macs) && Senders(data) == Elements(T)
    ensures InOrder(ds, T) == CommittedMatrices(p, A, nonces)
  {
    hide IsMat, IsNonce, Commitment;
    forall a | 0 <= a < |T| ensures InOrder(ds, T)[a] == CommittedMatrices(p, A, nonces)[a] {
      assert T[a] in Senders(data);
      var k :| k in data && data[k].partyID == T[a];
      assert IsFiled(data, k, ds, macs);
    }
  }

  lemma GathersUnique(data: map<int, Round1Data>, ds: map<int, Mat>, macs: map<int, map<int, Str>>, ds': map<int, Mat>, macs': map<int, map<int, Str>>)
    requires Gathers(data, ds, macs) && Gathers(data, ds', macs')
    ensures ds == ds' && macs == macs'
  {
    forall j | j in ds ensures ds[j] == ds'[j] && macs[j] == macs'[j] {
      assert j in Senders(data);
      var k :| k in data && data[k].partyID == j;
      assert IsFiled(data, k, ds, macs) && IsFiled(data, k, ds', macs');
    }
  }

  /** Every signer finds the collected messages authentic. */
  ghost predicate AllAuthentic(p: Params, suite: Suite, T: seq<int>, hs: seq<Holding>, ds: map<int, Mat>, macs: map<int, map<int, Str>>, sid: int)
    requires |hs| == |T|
  {
    forall a :: 0 <= a < |T| ==> Authentic(p, suite, T[a], hs[a].macKeys, ds, macs, sid, T)
  }

  /** Then every message carries, for every other signer, the MAC that signer computes on it. */
  lemma AllMacs(p: Params, suite: Suite, T: seq<int>, hs: seq<Holding>, data: map<int, Round1Data>, ds: map<int, Mat>,
                macs: map<int, map<int, Str>>, sid: int)
    requires |hs| == |T| && Gathers(data, ds, macs) && Senders(data) == Elements(T) && AllAuthentic(p, suite, T, hs, ds, macs, sid)
    ensures forall k, a :: k in data && 0 <= a < |T| && data[k].partyID != T[a] ==>
              SentMac(data[k], T[a]) == suite.mac(KeyFor(hs[a].macKeys, data[k].partyID), data[k].partyID, data[k].D, sid, T)
  {
    hide Authentic, Gathers;
    forall k, a | k in data && 0 <= a < |T| && data[k].partyID != T[a]
      ensures SentMac(data[k], T[a]) == suite.mac(KeyFor(hs[a].macKeys, data[k].partyID), data[k].partyID, data[k].D, sid, T)
    {
      AuthenticMacs(p, suite, T[a], hs[a].macKeys, data, ds, macs, sid, T);
    }
  }

  /** Signer a has answered: it holds the session's commitment and challenge, and z is its response. */
  ghost predicate Answered(party: Party, p: Params, suite: Suite, x: Session, bTilde: Vec, a: nat, z: Vec)
    requires SessionOk(p, suite, x) && a < |x.T|
    reads party`H, party`C
  {
    party.H == H(p, suite, x) && party.C == Challenge(p, suite, x, bTilde) && z == Z(p, suite, x, Challenge(p, suite, x, bTilde), a)
  }

  /** The common situation of the signers: shapes, nonces, key, and the session they determine. */
  ghost predicate InRun(p: Params, suite: Suite, T: seq<int>, seeds: map<int, seq<Str>>, hs: seq<Holding>, nonces: seq<Nonce>, A: Mat, bTilde: Vec,
                        x: Session, sid: int, mu: Str, prfKey: Str)
  {
    && SessionOk(p, suite, x) && DimsOk(p) && SuiteOk(p, suite) && IsMat(p.r, A, p.M, p.N)
    && |nonces| == |hs| == |T| && (forall b :: 0 <= b < |nonces| ==> IsNonce(p, nonces[b])) && HoldingsFit(p, seeds, hs, T)
    && x == SessionFor(p, suite, A, bTilde, T, seeds, hs, nonces, sid, prfKey, mu) && Ds(p, suite, x) == CommittedMatrices(p, A, nonces)
  }

  /** Round 2 of one signer. */
  method AnswerOne(s: Signer, p: Params, suite: Suite, a: nat, T: seq<int>, ghost seeds: map<int, seq<Str>>, ghost hs: seq<Holding>,
                   ghost nonces: seq<Nonce>, ghost A: Mat, ghost bTilde: Vec, ghost x: Session,
                   sid: int, mu: Str, prfKey: Str, data: map<int, Round1Data>)
    returns (r: Result<Round2Data>, ghost ds: map<int, Mat>, ghost macs: map<int, map<int, Str>>)
    requires InRun(p, suite, T, seeds, hs, nonces, A, bTilde, x, sid, mu, prfKey) && Prime(Q) && a < |T|
    requires s.A == A && s.bTilde == bTilde && Holder(s.party, p, suite, T[a], seeds, hs[a])
    requires s.party.R == WithColumn(nonces[a].rStar, nonces[a].R)
    requires HonestData(p, A, T, nonces, data) && forall k :: k in data ==> RectMat(p.r, data[k].D)
    modifies s.party`H, s.party`C
    ensures GuardOk(T, data) ==> Gathers(data, ds, macs)
    ensures r.Accepted? <==> GuardOk(T, data) && Authentic(p, suite, T[a], hs[a].macKeys, ds, macs, sid, T)
    ensures r.Accepted? ==> r.value.partyID == T[a] && Answered(s.party, p, suite, x, bTilde, a, r.value.Z)
  {
    hide SuiteOk, IsNonce, SeedsOk, Elem, RectMat, Authentic, Gathers, GuardOk, Prime, Response, VSum, Masks, RoundedCoeffs, MSum, MatVec, Z, H, Ds, SumTimes, WithColumn, WeightedShare, HonestData;
    ResponseIsZ(p, suite, x, Challenge(p, suite, x, bTilde), a, s.party.R);
    r, ds, macs := s.Round2(sid, mu, prfKey, T, data);
    if r.Accepted? {
      GatheredAreCommitted(p, A, T, nonces, data, ds, macs);
      CommitmentIsSum(p, suite, x);
    }
  }

  lemma CommitmentIsSum(p: Params, suite: Suite, x: Session)
    requires SessionOk(p, suite, x)
    ensures H(p, suite, x) == RoundedCoeffs(p, SumTimes(p.r, Ds(p, suite, x), p.M, p.Dbar + 1, ChallengeVector(p, suite, x.hash, x.mu)))
  {
    hide SuiteOk, SeedsOk, Elem, IsNonce, Ds, SumTimes, RoundedCoeffs;
  }

  /** Round 2 of every signer on the same messages. All of them answer exactly when the guard accepts the list and every
      signer finds the messages authentic. */
  method AnswerAll(signers: seq<Signer>, p: Params, suite: Suite, T: seq<int>, ghost seeds: map<int, seq<Str>>, ghost hs: seq<Holding>,
                   ghost nonces: seq<Nonce>, ghost A: Mat, ghost bTilde: Vec, ghost x: Session,
                   sid: int, mu: Str, prfKey: Str, data: map<int, Round1Data>)
    returns (r: Option<map<int, Round2Data>>, ghost ds: map<int, Mat>, ghost macs: map<int, map<int, Str>>)
    requires InRun(p, suite, T, seeds, hs, nonces, A, bTilde, x, sid, mu, prfKey) && Prime(Q) && |signers| > 0
    requires SignersSeated(signers, T, p, suite, seeds, hs, A, bTilde) && HasCommitted(signers, p, nonces)
    requires HonestData(p, A, T, nonces, data) && forall k :: k in data ==> RectMat(p.r, data[k].D)
    modifies PartiesOf(signers)`H, PartiesOf(signers)`C
    ensures GuardOk(T, data) ==> Gathers(data, ds, macs)
    ensures r.Some? <==> GuardOk(T, data) && AllAuthentic(p, suite, T, hs, ds, macs, sid)
    ensures r.Some? ==> forall k, a :: k in data && 0 <= a < |T| && data[k].partyID != T[a] ==>
              SentMac(data[k], T[a]) == suite.mac(KeyFor(hs[a].macKeys, data[k].partyID), data[k].partyID, data[k].D, sid, T)
    ensures r.Some? ==>
              && (forall a :: a in r.value <==> 0 <= a < |T|)
              && forall a :: 0 <= a < |T| ==> r.value[a].partyID == T[a] && Answered(PartiesOf(signers)[a], p, suite, x, bTilde, a, r.value[a].Z)
  {
    hide InRun, SessionOk, Authentic, Gathers, GuardOk, Prime, HonestData, RectMat, Answered, IsNonce, WithColumn, Holder, IsMat, PartiesOf, DimsOk;
    RunShape(p, suite, T, seeds, hs, nonces, A, bTilde, x, sid, mu, prfKey);
    ds, macs := map[], map[];
    var out: map<int, Round2Data> := map[];
    for a := 0 to |T|
      invariant a > 0 ==> GuardOk(T, data) && Gathers(data, ds, macs)
      invariant forall b :: 0 <= b < a ==> Authentic(p, suite, T[b], hs[b].macKeys, ds, macs, sid, T)
      invariant forall b :: b in out <==> 0 <= b < a
      invariant forall b :: 0 <= b < a ==> out[b].partyID == T[b] && Answered(PartiesOf(signers)[b], p, suite, x, bTilde, b, out[b].Z)
    {
      assert PartiesOf(signers)[a] == signers[a].party;
      ghost var ds', macs';
      var z;
      z, ds', macs' := AnswerOne(signers[a], p, suite, a, T, seeds, hs, nonces, A, bTilde, x, sid, mu, prfKey, data);
      if GuardOk(T, data) {
        if a > 0 {
          GathersUnique(data, ds, macs, ds', macs');
        }
        ds, macs := ds', macs';
      }
      if z.Rejected? {
        return None, ds, macs;
      }
      out := out[a := z.value];
      forall b | 0 <= b < a ensures PartiesOf(signers)[b] != PartiesOf(signers)[a] {
      }
    }
    GuardSenders(T, data);
    AllMacs(p, suite, T, hs, data, ds, macs, sid);
    return Some(out), ds, macs;
  }

  lemma RunShape(p: Params, suite: Suite, T: seq<int>, seeds: map<int, seq<Str>>, hs: seq<Holding>, nonces: seq<Nonce>, A: Mat, bTilde: Vec,
                 x: Session, sid: int, mu: Str, prfKey: Str)
    requires InRun(p, suite, T, seeds, hs, nonces, A, bTilde, x, sid, mu, prfKey)
    ensures SessionOk(p, suite, x) && |nonces| == |hs| == |T| == |x.T| && x.T == T && x.A == A && x.mu == mu
    ensures IsMat(p.r, A, p.M, p.N) && (forall b :: 0 <= b < |nonces| ==> IsNonce(p, nonces[b])) && DimsOk(p)
  {
    hide SessionOk, IsMat, IsNonce;
  }

  // ----- one signature -------------------------------------------------------------

  /** Whatever order the responses are summed in, their sum is that of the session. */
  lemma CollectedSum(p: Params, suite: Suite, x: Session, c: Poly, zs: map<int, Vec>)
    requires SessionOk(p, suite, x) && NoDuplicates(x.T) && zs.Keys == Elements(x.T)
    requires forall a :: 0 <= a < |x.T| ==> zs[x.T[a]] == Z(p, suite, x, c, a)
    ensures AllLength(Values(zs), p.N) && VSum(p.r, Values(zs), p.N) == VSum(p.r, Zs(p, suite, x, c), p.N)
  {
    hide SessionOk, Z, VSum, Elem;
    var T := x.T;
    assert forall t :: t in T ==> t in Elements(T);
    assert Image(zs, T) == Zs(p, suite, x, c);
    forall j | j in zs ensures |zs[j]| == p.N {
      assert j in T;
      var a :| 0 <= a < |T| && T[a] == j;
    }
    NoDuplicatesSize(T);
    SumOrder(p, zs, T);
  }

  datatype SignOutcome = Refused | Signed(valid: bool, signature: Signature)

  /** The signature carries the challenge, the summed responses of the session and the difference to the verifier's vector;
      with H below QNu it verifies exactly when its norm is within the bound. */
  ghost predicate Finished(p: Params, suite: Suite, x: Session, bTilde: Vec, r: SignOutcome)
    requires SessionOk(p, suite, x) && IsWords(bTilde, p.M, p.r.n) && r.Signed?
  {
    var c := Challenge(p, suite, x, bTilde);
    && r.signature.C == c && r.signature.Z == VSum(p.r, Zs(p, suite, x, c), p.N)
    && IsWords(r.signature.Delta, p.M, p.r.n)
    && r.signature.Delta == VSub(NuRing(p), H(p, suite, x), RoundedCoeffs(p, RunResidual(p, suite, x, bTilde, c)))
    && (BelowNu(H(p, suite, x)) ==>
          (r.valid <==> NormOk(RestoreVec(r.signature.Delta, Nu, p.r.n), VApply(p.r, p.t.inverse, r.signature.Z))))
  }

  /** The signers of any list the guard accepts answer, one of them finalizes, anyone verifies: the signature carries the
      summed responses of the session and verifies as Finished says. */
  method SignTogether(signers: seq<Signer>, p: Params, suite: Suite, T: seq<int>, ghost seeds: map<int, seq<Str>>, ghost hs: seq<Holding>,
                      ghost nonces: seq<Nonce>, A: Mat, bTilde: Vec, ghost x: Session,
                      sid: int, mu: Str, prfKey: Str, data: map<int, Round1Data>, leader: nat)
    returns (r: SignOutcome, ghost ds: map<int, Mat>, ghost macs: map<int, map<int, Str>>)
    requires InRun(p, suite, T, seeds, hs, nonces, A, bTilde, x, sid, mu, prfKey) && Prime(Q) && leader < |signers|
    requires SignersSeated(signers, T, p, suite, seeds, hs, A, bTilde) && HasCommitted(signers, p, nonces) && IsWords(bTilde, p.M, p.r.n)
    requires HonestData(p, A, T, nonces, data) && forall k :: k in data ==> RectMat(p.r, data[k].D)
    modifies PartiesOf(signers)`H, PartiesOf(signers)`C
    ensures GuardOk(T, data) ==> Gathers(data, ds, macs)
    ensures r.Signed? <==> GuardOk(T, data) && AllAuthentic(p, suite, T, hs, ds, macs, sid)
    ensures r.Signed? ==> forall k, a :: k in data && 0 <= a < |T| && data[k].partyID != T[a] ==>
              SentMac(data[k], T[a]) == suite.mac(KeyFor(hs[a].macKeys, data[k].partyID), data[k].partyID, data[k].D, sid, T)
    ensures r.Signed? ==> Finished(p, suite, x, bTilde, r)
  {
    hide SessionOk, Authentic, Gathers, Prime, HonestData, RectMat, IsNonce, Z, H, Elem, InRun, SuiteOk, HasCommitted, SeedsOk, Finished, AreAnswers, GuardOk, IsMat;
    RunShape(p, suite, T, seeds, hs, nonces, A, bTilde, x, sid, mu, prfKey);
    var answers;
    answers, ds, macs := AnswerAll(signers, p, suite, T, seeds, hs, nonces, A, bTilde, x, sid, mu, prfKey, data);
    if answers.None? {
      return Refused, ds, macs;
    }
    GuardDistinct(T, data);
    assert PartiesOf(signers)[leader] == signers[leader].party && Holder(PartiesOf(signers)[leader], p, suite, T[leader], seeds, hs[leader]);
    assert Answered(PartiesOf(signers)[leader], p, suite, x, bTilde, leader, answers.value[leader].Z);
    AllAnswers(PartiesOf(signers), p, suite, x, bTilde, answers.value);
    r := Finish(signers[leader], p, suite, x, bTilde, mu, answers.value);
  }

  lemma AllAnswers(parties: seq<Party>, p: Params, suite: Suite, x: Session, bTilde: Vec, answers: map<int, Round2Data>)
    requires SessionOk(p, suite, x) && |parties| == |x.T| && forall a :: a in answers <==> 0 <= a < |x.T|
    requires forall a :: 0 <= a < |x.T| ==> answers[a].partyID == x.T[a] && Answered(parties[a], p, suite, x, bTilde, a, answers[a].Z)
    ensures AreAnswers(p, suite, x, Challenge(p, suite, x, bTilde), answers)
  {
    hide SessionOk, Z, H, Challenge;
  }

  /** The answers are the responses of the session, each under its party's id. */
  ghost predicate AreAnswers(p: Params, suite: Suite, x: Session, c: Poly, answers: map<int, Round2Data>)
    requires SessionOk(p, suite, x)
  {
    && (forall a :: a in answers <==> 0 <= a < |x.T|)
    && forall a :: 0 <= a < |x.T| ==> answers[a].partyID == x.T[a] && answers[a].Z == Z(p, suite, x, c, a)
  }

  /** Finalize and Verify on the collected answers. */
  method Finish(s: Signer, p: Params, suite: Suite, ghost x: Session, ghost bTilde: Vec, mu: Str, answers: map<int, Round2Data>) returns (r: SignOutcome)
    requires SessionOk(p, suite, x) && NoDuplicates(x.T) && |x.T| > 0 && DimsOk(p) && IsMat(p.r, x.A, p.M, p.N) && IsWords(bTilde, p.M, p.r.n)
    requires s.A == x.A && s.bTilde == bTilde && s.party.p == p && mu == x.mu && AreAnswers(p, suite, x, Challenge(p, suite, x, bTilde), answers)
    requires s.party.H == H(p, suite, x) && s.party.C == Challenge(p, suite, x, bTilde)
    ensures r.Signed? && Finished(p, suite, x, bTilde, r)
  {
    hide SessionOk, Z, H, Zs, Elem, Residual, RoundedCoeffs, Values, Verifies, VSum, Finished, IsMat, IsWords, VSub, IsRounded, AreAnswers, NoDuplicates, DistinctResponders, Challenge;
    CommitmentLength(p, suite, x);
    MatRows(p.r, x.A, p.M, p.N);
    AnswerFacts(p, suite, x, Challenge(p, suite, x, bTilde), answers);
    var sig;
    ghost var zs;
    sig, zs := s.Finalize(answers);
    AnswersSum(p, suite, x, Challenge(p, suite, x, bTilde), answers, zs);
    SessionDelta(p, suite, x, bTilde, sig.value.Z, sig.value.Delta);
    var valid := Verify(p, suite, sig.value.Z, s.A, mu, s.bTilde, sig.value.C, sig.value.Delta);
    r := Signed(valid, sig.value);
    FinishedBy(p, suite, x, bTilde, r);
  }

  lemma AnswerFacts(p: Params, suite: Suite, x: Session, c: Poly, answers: map<int, Round2Data>)
    requires SessionOk(p, suite, x) && NoDuplicates(x.T) && |x.T| > 0 && AreAnswers(p, suite, x, c, answers)
    ensures |answers| > 0 && DistinctResponders(answers) && forall k :: k in answers ==> |answers[k].Z| == p.N
  {
    hide SessionOk, Z, NoDuplicates, DistinctResponders;
    AnswersDistinct(answers, x.T);
    CommitmentLength(p, suite, x);
  }

  lemma AnswersSum(p: Params, suite: Suite, x: Session, c: Poly, answers: map<int, Round2Data>, zs: map<int, Vec>)
    requires SessionOk(p, suite, x) && NoDuplicates(x.T) && AreAnswers(p, suite, x, c, answers)
    requires zs.Keys == (set k | k in answers :: answers[k].partyID)
    requires forall k :: k in answers ==> answers[k].partyID in zs && zs[answers[k].partyID] == answers[k].Z
    ensures AllLength(Values(zs), p.N) && VSum(p.r, Values(zs), p.N) == VSum(p.r, Zs(p, suite, x, c), p.N)
  {
    hide SessionOk, Z, NoDuplicates, VSum, Values;
    FiledAnswers(answers, x.T, zs);
    CollectedSum(p, suite, x, c, zs);
  }

  lemma MatRows(r: Ring, m: Mat, rows: nat, cols: nat)
    requires IsMat(r, m, rows, cols)
    ensures |m| == rows && forall i :: 0 <= i < rows ==> |m[i]| == cols
  {
    assert forall i :: 0 <= i < rows ==> IsVec(r, m[i], cols);
  }

  lemma CommitmentLength(p: Params, suite: Suite, x: Session)
    requires SessionOk(p, suite, x)
    ensures |H(p, suite, x)| == p.M
    ensures forall c, a :: 0 <= a < |x.T| ==> |Z(p, suite, x, c, a)| == p.N
  {
    hide SessionOk, H, Z, Elem;
  }

  lemma SessionDelta(p: Params, suite: Suite, x: Session, bTilde: Vec, z: Vec, delta: Vec)
    requires SessionOk(p, suite, x) && IsWords(bTilde, p.M, p.r.n)
    requires var c := Challenge(p, suite, x, bTilde);
             && |x.A| == p.M && (forall i :: 0 <= i < |x.A| ==> |x.A[i]| <= |z|)
             && z == VSum(p.r, Zs(p, suite, x, c), p.N)
             && |H(p, suite, x)| == p.M && delta == VSub(NuRing(p), H(p, suite, x), RoundedCoeffs(p, Residual(p, x.A, z, bTilde, c)))
    ensures IsWords(delta, p.M, p.r.n)
    ensures delta == VSub(NuRing(p), H(p, suite, x), RoundedCoeffs(p, RunResidual(p, suite, x, bTilde, Challenge(p, suite, x, bTilde))))
  {
    hide SessionOk, H, Z, Zs, Elem, Residual, RoundedCoeffs, VSum, Challenge;
    DeltaWords(p, delta);
  }

  lemma FinishedBy(p: Params, suite: Suite, x: Session, bTilde: Vec, r: SignOutcome)
    requires SessionOk(p, suite, x) && IsWords(bTilde, p.M, p.r.n) && DimsOk(p) && IsMat(p.r, x.A, p.M, p.N) && r.Signed?
    requires var c := Challenge(p, suite, x, bTilde);
             && r.signature.C == c && r.signature.Z == VSum(p.r, Zs(p, suite, x, c), p.N)
             && IsWords(r.signature.Delta, p.M, p.r.n)
             && r.signature.Delta == VSub(NuRing(p), H(p, suite, x), RoundedCoeffs(p, RunResidual(p, suite, x, bTilde, c)))
             && (r.valid <==> Verifies(p, suite, r.signature.Z, x.A, x.mu, bTilde, c, r.signature.Delta))
    ensures Finished(p, suite, x, bTilde, r)
  {
    hide SessionOk, H, Z, Zs, Elem, Residual, RoundedCoeffs, VSum, RestoreVec, NormOk, Verifies, BelowNu;
    assert forall i :: 0 <= i < |x.A| ==> IsVec(p.r, x.A[i], p.N);
    if BelowNu(H(p, suite, x)) {
      FinalizedVerifies(p, suite, x.A, r.signature.Z, bTilde, x.mu, H(p, suite, x), Challenge(p, suite, x, bTilde), r.signature.Delta);
    }
  }

  /** A finished signature with H below QNu is accepted for exactly the messages whose hash with H is its challenge, if its
      norm is within the bound. */
  lemma SignsOneHash(p: Params, suite: Suite, x: Session, bTilde: Vec, r: SignOutcome, mu: Str)
    requires SessionOk(p, suite, x) && IsWords(bTilde, p.M, p.r.n) && DimsOk(p) && IsMat(p.r, x.A, p.M, p.N) && r.Signed?
    requires Finished(p, suite, x, bTilde, r) && BelowNu(H(p, suite, x))
    ensures Verifies(p, suite, r.signature.Z, x.A, mu, bTilde, r.signature.C, r.signature.Delta) <==>
            && suite.lowNorm(x.A, bTilde, H(p, suite, x), mu) == r.signature.C
            && NormOk(RestoreVec(r.signature.Delta, Nu, p.r.n), VApply(p.r, p.t.inverse, r.signature.Z))
  {
    hide SessionOk, H, Z, Zs, Elem, Residual, RoundedCoeffs, VSum, RestoreVec, NormOk, Verifies, BelowNu, Challenge;
    assert forall i :: 0 <= i < |x.A| ==> IsVec(p.r, x.A[i], p.N);
    AcceptedMessage(p, suite, x.A, r.signature.Z, bTilde, mu, H(p, suite, x), r.signature.C, r.signature.Delta);
  }

  lemma GuardDistinct(T: seq<int>, data: map<int, Round1Data>)
    requires GuardOk(T, data)
    ensures NoDuplicates(T)
  {
    GuardSenders(T, data);
  }

  lemma GuardSenders(T: seq<int>, data: map<int, Round1Data>)
    requires GuardOk(T, data)
    ensures NoDuplicates(T) && Senders(data) == Elements(T)
  {
    var keys := Enumerate(data.Keys);
    assert forall k :: k in keys ==> k in Elements(keys);
    assert NoDuplicates(keys);
    IdsDescribe(data, keys);
    NoDuplicatesSize(IdsOf(data, keys));
    Pigeonhole(Senders(data), T);
  }

  lemma AnswersDistinct(answers: map<int, Round2Data>, T: seq<int>)
    requires NoDuplicates(T) && (forall a :: a in answers <==> 0 <= a < |T|) && |T| > 0
    requires forall a :: 0 <= a < |T| ==> answers[a].partyID == T[a]
    ensures |answers| > 0 && DistinctResponders(answers)
  {
    assert 0 in answers;
    forall k, l | k in answers && l in answers && k != l ensures answers[k].partyID != answers[l].partyID {
      assert k < l ==> T[k] != T[l];
      assert l < k ==> T[l] != T[k];
    }
  }

  lemma FiledAnswers(answers: map<int, Round2Data>, T: seq<int>, zs: map<int, Vec>)
    requires (forall a :: a in answers <==> 0 <= a < |T|) && forall a :: 0 <= a < |T| ==> answers[a].partyID == T[a]
    requires zs.Keys == (set k | k in answers :: answers[k].partyID)
    requires forall k :: k in answers ==> answers[k].partyID in zs && zs[answers[k].partyID] == answers[k].Z
    ensures zs.Keys == Elements(T) && forall a :: 0 <= a < |T| ==> T[a] in zs && zs[T[a]] == answers[a].Z
  {
    forall j | j in Elements(T) ensures j in zs {
      var a :| 0 <= a < |T| && T[a] == j;
      assert a in answers;
    }
    forall j | j in zs ensures j in Elements(T) {
      var k :| k in answers && answers[k].partyID == j;
      assert T[k] == j;
    }
    forall a | 0 <= a < |T| ensures T[a] in zs && zs[T[a]] == answers[a].Z {
      assert a in answers;
    }
  }
}
