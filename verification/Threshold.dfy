/** The collection guards of the threshold signer and the rounds they protect. */
module Threshold {
  import opened Zq
  import opened Sorting
  import opened Rq
  import opened Rounding
  import opened SignAlgebra
  import opened SignRounding
  import opened Sign

  datatype Round1Data = Round1Data(partyID: int, D: Mat, macs: map<int, Str>)
  datatype Round2Data = Round2Data(partyID: int, Z: Vec)
  datatype Signature = Signature(C: Poly, Z: Vec, Delta: Vec)

  datatype SignError = InsufficientData | OutsideSigningSet | DuplicateSigner | MacVerifyFailed
  datatype Result<+T> = Accepted(value: T) | Rejected(error: SignError)

  /** No two messages carry the same party id. */
  ghost predicate DistinctSenders(data: map<int, Round1Data>) {
    forall k, l :: k in data && l in data && k != l ==> data[k].partyID != data[l].partyID
  }

  ghost function Senders(data: map<int, Round1Data>): set<int> {
    set k | k in data :: data[k].partyID
  }

  /** The sender of each message, in the order the messages are visited. */
  ghost function IdsOf(data: map<int, Round1Data>, keys: seq<int>): (ids: seq<int>)
    requires forall x :: x in keys ==> x in data
    ensures |ids| == |keys|
  {
    seq(|keys|, i requires 0 <= i < |keys| => var k := keys[i]; assert k in keys; data[k].partyID)
  }

  lemma IdsDescribe(data: map<int, Round1Data>, keys: seq<int>)
    requires NoDuplicates(keys) && Elements(keys) == data.Keys && forall x :: x in keys ==> x in data
    ensures Senders(data) == Elements(IdsOf(data, keys))
    ensures DistinctSenders(data) <==> NoDuplicates(IdsOf(data, keys))
  {
    var ids := IdsOf(data, keys);
    forall x ensures x in Senders(data) <==> x in Elements(ids) {
      if x in Senders(data) {
        var k :| k in data && data[k].partyID == x;
        assert k in Elements(keys);
        var i :| 0 <= i < |keys| && keys[i] == k;
        assert ids[i] == x;
      }
      if x in ids {
        var i :| 0 <= i < |ids| && ids[i] == x;
        assert keys[i] in keys;
      }
    }
    if DistinctSenders(data) {
      forall i, j | 0 <= i < j < |ids| ensures ids[i] != ids[j] {
        assert keys[i] in keys && keys[j] in keys && keys[i] != keys[j];
      }
    }
    if NoDuplicates(ids) {
      forall k, l | k in data && l in data && k != l ensures data[k].partyID != data[l].partyID {
        assert k in Elements(keys) && l in Elements(keys);
        var i :| 0 <= i < |keys| && keys[i] == k;
        var j :| 0 <= j < |keys| && keys[j] == l;
        assert ids[i] == data[k].partyID && ids[j] == data[l].partyID;
        assert i < j ==> ids[i] != ids[j];
        assert j < i ==> ids[j] != ids[i];
      }
    }
  }

  /** The first n messages are filed under their own party ids. */
  ghost predicate Collected(data: map<int, Round1Data>, keys: seq<int>, n: nat, ds: map<int, Mat>, macs: map<int, map<int, Str>>)
    requires n <= |keys| && forall x :: x in keys ==> x in data
  {
    && ds.Keys == macs.Keys == Elements(IdsOf(data, keys)[..n])
    && NoDuplicates(IdsOf(data, keys)[..n])
    && forall i :: 0 <= i < n ==> IsFiled(data, keys[i], ds, macs)
  }

  ghost predicate IsFiled(data: map<int, Round1Data>, k: int, ds: map<int, Mat>, macs: map<int, map<int, Str>>) {
    && k in data && data[k].partyID in ds && data[k].partyID in macs
    && ds[data[k].partyID] == data[k].D && macs[data[k].partyID] == data[k].macs
  }

  lemma FiledStep(data: map<int, Round1Data>, keys: seq<int>, n: nat, ds: map<int, Mat>, macs: map<int, map<int, Str>>)
    requires n < |keys| && (forall x :: x in keys ==> x in data) && Collected(data, keys, n, ds, macs)
    requires keys[n] in data && data[keys[n]].partyID !in ds
    ensures var msg := data[keys[n]]; Collected(data, keys, n + 1, ds[msg.partyID := msg.D], macs[msg.partyID := msg.macs])
  {
    var ids, msg := IdsOf(data, keys), data[keys[n]];
    assert ids[..n + 1] == ids[..n] + [msg.partyID];
    NoDuplicatesSnoc(ids[..n], msg.partyID);
    forall i | 0 <= i < n ensures IsFiled(data, keys[i], ds[msg.partyID := msg.D], macs[msg.partyID := msg.macs]) {
      assert IsFiled(data, keys[i], ds, macs);
    }
  }

  method SetOf(signers: seq<int>) returns (inSet: set<int>)
    ensures inSet == Elements(signers)
  {
    inSet := {};
    for n := 0 to |signers|
      invariant inSet == Elements(signers[..n])
    {
      assert signers[..n + 1] == signers[..n] + [signers[n]];
      inSet := inSet + {signers[n]};
    }
    assert signers[..|signers|] == signers;
  }

  /** Each message's commitment and MACs, under the id it carries. */
  ghost predicate Gathers(data: map<int, Round1Data>, ds: map<int, Mat>, macs: map<int, map<int, Str>>) {
    ds.Keys == macs.Keys == Senders(data) && forall k :: k in data ==> IsFiled(data, k, ds, macs)
  }

  /** The guard of the collection: as many messages as list entries, all from the list, no sender twice. */
  ghost predicate GuardOk(signers: seq<int>, data: map<int, Round1Data>) {
    |data| >= |signers| && Senders(data) <= Elements(signers) && DistinctSenders(data)
  }

  /** The collection guard of Round2. It succeeds exactly when there are at least as many messages as
      signers, all from signers, no two with one party id; the signer list then has no repetition and the
      collected commitments are keyed by exactly the signer set. */
  method CollectRound1(signers: seq<int>, data: map<int, Round1Data>) returns (r: Result<(map<int, Mat>, map<int, map<int, Str>>)>)
    ensures r.Accepted? <==> GuardOk(signers, data)
    ensures r.Rejected? ==> r.error != MacVerifyFailed
    ensures r.Accepted? ==>
              && NoDuplicates(signers) && |data| == |signers| && Senders(data) == Elements(signers)
              && Gathers(data, r.value.0, r.value.1)
  {
    if |data| < |signers| {
      return Rejected(InsufficientData);
    }
    hide DistinctSenders, Senders, IdsOf;
    var inSet := SetOf(signers);
    var keys := MapKeys(data);
    assert forall x :: x in keys ==> x in Elements(keys);
    ghost var ids := IdsOf(data, keys);
    IdsDescribe(data, keys);
    r := FileAll(data, keys, inSet);
    if r.Accepted? {
      NoDuplicatesSize(ids);
      Pigeonhole(Elements(ids), signers);
      AllFiled(data, keys, r.value.0, r.value.1);
    }
  }

  lemma AllFiled(data: map<int, Round1Data>, keys: seq<int>, ds: map<int, Mat>, macs: map<int, map<int, Str>>)
    requires Elements(keys) == data.Keys && (forall x :: x in keys ==> x in data) && Collected(data, keys, |keys|, ds, macs)
    ensures ds.Keys == macs.Keys == Elements(IdsOf(data, keys))
    ensures forall k :: k in data ==> IsFiled(data, k, ds, macs)
  {
    assert IdsOf(data, keys)[..|keys|] == IdsOf(data, keys);
    forall k | k in data ensures IsFiled(data, k, ds, macs) {
      assert k in Elements(keys);
      var i :| 0 <= i < |keys| && keys[i] == k;
    }
  }

  /** The collecting loop: membership first, then the duplicate test, then the insertion. */
  method FileAll(data: map<int, Round1Data>, keys: seq<int>, inSet: set<int>) returns (r: Result<(map<int, Mat>, map<int, map<int, Str>>)>)
    requires forall x :: x in keys ==> x in data
    ensures r.Accepted? <==> Elements(IdsOf(data, keys)) <= inSet && NoDuplicates(IdsOf(data, keys))
    ensures r.Accepted? ==> Collected(data, keys, |keys|, r.value.0, r.value.1)
    ensures r.Rejected? ==> r.error != MacVerifyFailed
  {
    hide IdsOf, IsFiled;
    var ds: map<int, Mat>, macs: map<int, map<int, Str>> := map[], map[];
    ghost var ids := IdsOf(data, keys);
    var n := 0;
    while n < |keys|
      invariant 0 <= n <= |keys|
      invariant Collected(data, keys, n, ds, macs)
      invariant Elements(ids[..n]) <= inSet
    {
      assert keys[n] in keys;
      var msg := data[keys[n]];
      IdAt(data, keys, n);
      if msg.partyID !in inSet {
        return Rejected(OutsideSigningSet);
      }
      if msg.partyID in ds {
        NoDuplicatesSnoc(ids[..n], msg.partyID);
        PrefixDistinct(ids, n + 1);
        return Rejected(DuplicateSigner);
      }
      FiledStep(data, keys, n, ds, macs);
      ds, macs := ds[msg.partyID := msg.D], macs[msg.partyID := msg.macs];
      n := n + 1;
    }
    assert ids[..n] == ids;
    return Accepted((ds, macs));
  }

  lemma IdAt(data: map<int, Round1Data>, keys: seq<int>, n: nat)
    requires n < |keys| && (forall x :: x in keys ==> x in data) && keys[n] in data
    ensures var ids := IdsOf(data, keys);
            ids[n] == data[keys[n]].partyID && ids[n] in Elements(ids) && ids[..n + 1] == ids[..n] + [ids[n]]
  {
  }

  lemma PrefixDistinct(s: seq<int>, n: nat)
    requires n <= |s| && !NoDuplicates(s[..n])
    ensures !NoDuplicates(s)
  {
    var i, j :| 0 <= i < j < n && s[..n][i] == s[..n][j];
    assert s[i] == s[j];
  }

  /** At least |signers| distinct ids drawn from the list: the list has no repetition and all ids occur. */
  lemma Pigeonhole(ids: set<int>, signers: seq<int>)
    requires ids <= Elements(signers) && |ids| >= |signers|
    ensures NoDuplicates(signers) && ids == Elements(signers) && |ids| == |signers|
  {
    NoDuplicatesSize(signers);
    SubsetSize(ids, Elements(signers));
  }

  lemma SubsetSize(a: set<int>, b: set<int>)
    requires a <= b
    ensures |a| <= |b| && (|a| == |b| ==> a == b)
  {
    var d := b - a;
    assert b == a + d;
    assert |b| == |a| + |d|;
    if |d| == 0 {
      assert d == {};
    }
  }

  ghost predicate DistinctResponders(data: map<int, Round2Data>) {
    forall k, l :: k in data && l in data && k != l ==> data[k].partyID != data[l].partyID
  }

  /** The collection guard of Finalize. */
  method CollectRound2(data: map<int, Round2Data>) returns (r: Result<map<int, Vec>>)
    ensures r.Accepted? <==> |data| > 0 && DistinctResponders(data)
    ensures r.Accepted? ==>
              && r.value.Keys == (set k | k in data :: data[k].partyID)
              && forall k :: k in data ==> data[k].partyID in r.value && r.value[data[k].partyID] == data[k].Z
  {
    if |data| == 0 {
      return Rejected(InsufficientData);
    }
    var zs: map<int, Vec> := map[];
    var rest := data.Keys;
    while rest != {}
      invariant rest <= data.Keys
      invariant zs.Keys == set k | k in data.Keys - rest :: data[k].partyID
      invariant forall k :: k in data.Keys - rest ==> data[k].partyID in zs && zs[data[k].partyID] == data[k].Z
      invariant forall k, l :: k in data.Keys - rest && l in data.Keys - rest && k != l ==> data[k].partyID != data[l].partyID
      decreases rest
    {
      var k := Pick(rest);
      if data[k].partyID in zs {
        ghost var l :| l in data.Keys - rest && data[l].partyID == data[k].partyID;
        assert k != l && k in data && l in data;
        return Rejected(DuplicateSigner);
      }
      ghost var before := data.Keys - rest;
      zs := zs[data[k].partyID := data[k].Z];
      rest := rest - {k};
      assert data.Keys - rest == before + {k};
    }
    assert data.Keys - rest == data.Keys;
    return Accepted(zs);
  }

  /** What the preprocess demands of the collected messages: matching MACs, all commitments, full rank. */
  ghost predicate Authentic(p: Params, suite: Suite, id: int, macKeys: map<int, Str>, ds: map<int, Mat>, macs: map<int, map<int, Str>>,
                            sid: int, signers: seq<int>)
  {
    && MacsMatch(suite, id, macKeys, ds, macs, sid, signers)
    && AllPresent(p, ds, signers)
    && AllShape(InOrder(ds, signers), p.M, p.Dbar + 1)
    && FullRankSum(p, MSum(p.r, InOrder(ds, signers), p.M, p.Dbar + 1))
  }

  /** The MAC a message carries for party id; the empty string when it carries none. */
  function SentMac(msg: Round1Data, id: int): (mac: Str)
    ensures id in msg.macs ==> mac == msg.macs[id]
    ensures id !in msg.macs ==> mac == []
  {
    KeyFor(msg.macs, id)
  }

  /** Authentic messages: every message from another party carries the MAC this party computes on its sender and
      commitment under their common key. */
  lemma AuthenticMacs(p: Params, suite: Suite, id: int, macKeys: map<int, Str>, data: map<int, Round1Data>,
                      ds: map<int, Mat>, macs: map<int, map<int, Str>>, sid: int, signers: seq<int>)
    requires Gathers(data, ds, macs) && Senders(data) == Elements(signers) && Authentic(p, suite, id, macKeys, ds, macs, sid, signers)
    ensures forall k :: k in data && data[k].partyID != id ==>
              SentMac(data[k], id) == suite.mac(KeyFor(macKeys, data[k].partyID), data[k].partyID, data[k].D, sid, signers)
  {
    hide FullRankSum, AllPresent, AllShape;
    forall k | k in data && data[k].partyID != id
      ensures SentMac(data[k], id) == suite.mac(KeyFor(macKeys, data[k].partyID), data[k].partyID, data[k].D, sid, signers)
    {
      assert data[k].partyID in Senders(data);
      var i :| 0 <= i < |signers| && signers[i] == data[k].partyID;
      assert IsFiled(data, k, ds, macs);
    }
  }

  /** One message with another MAC, or none, makes the collected messages inauthentic. */
  lemma OneBadMac(p: Params, suite: Suite, id: int, macKeys: map<int, Str>, data: map<int, Round1Data>,
                  ds: map<int, Mat>, macs: map<int, map<int, Str>>, sid: int, signers: seq<int>, k: int)
    requires Gathers(data, ds, macs) && Senders(data) == Elements(signers) && k in data && data[k].partyID != id
    requires SentMac(data[k], id) != suite.mac(KeyFor(macKeys, data[k].partyID), data[k].partyID, data[k].D, sid, signers)
    ensures !Authentic(p, suite, id, macKeys, ds, macs, sid, signers)
  {
    hide Authentic;
    if Authentic(p, suite, id, macKeys, ds, macs, sid, signers) {
      AuthenticMacs(p, suite, id, macKeys, data, ds, macs, sid, signers);
      assert false;
    }
  }

  /** Complete data passes the guard: one message from every listed signer, none twice, no signer listed twice. */
  lemma CompleteDataAccepted(signers: seq<int>, data: map<int, Round1Data>, keys: seq<int>)
    requires NoDuplicates(signers) && |keys| == |signers| && Elements(keys) == data.Keys
    requires forall i :: 0 <= i < |keys| ==> keys[i] in data && data[keys[i]].partyID == signers[i]
    ensures GuardOk(signers, data)
  {
    forall i, j | 0 <= i < j < |keys| ensures keys[i] != keys[j] {
      assert signers[i] != signers[j];
    }
    NoDuplicatesSize(keys);
    forall k | k in data ensures data[k].partyID in Elements(signers) {
      assert k in Elements(keys);
      var i :| 0 <= i < |keys| && keys[i] == k;
      assert signers[i] in Elements(signers);
    }
    forall k, l | k in data && l in data && k != l ensures data[k].partyID != data[l].partyID {
      assert k in Elements(keys) && l in Elements(keys);
      var i :| 0 <= i < |keys| && keys[i] == k;
      var j :| 0 <= j < |keys| && keys[j] == l;
      assert i < j ==> signers[i] != signers[j];
      assert j < i ==> signers[j] != signers[i];
    }
  }

  /** The masked response of a party to the challenge on the collected commitments, and what it stores with it. */
  ghost predicate RespondsWith(party: Party, A: Mat, bTilde: Vec, ds: map<int, Mat>, sid: int, message: Str, prfKey: Str, signers: seq<int>, z: Vec)
    reads party
    requires party.p.r.q == Q && AllShape(InOrder(ds, signers), party.p.M, party.p.Dbar + 1)
    requires SeedsOk(party.seeds, party.id, signers) && |party.skShare| <= party.p.N
    requires |party.R| == party.p.N && forall i :: 0 <= i < |party.R| ==> |party.R[i]| == party.p.Dbar + 1
  {
    var p, ms := party.p, InOrder(ds, signers);
    && var hash := party.suite.transcript(A, bTilde, sid, signers, ms);
    && var u := ChallengeVector(p, party.suite, hash, message);
    && |u| == p.Dbar + 1
    && party.H == RoundedCoeffs(p, SumTimes(p.r, ms, p.M, p.Dbar + 1, u))
    && party.C == party.suite.lowNorm(A, bTilde, party.H, message)
    && var ins := Masks(party.suite, ColumnSeeds(party.seeds, party.id, signers), prfKey, hash, message);
    && var outs := Masks(party.suite, RowSeeds(party.seeds, party.id, signers), prfKey, hash, message);
    && AllLength(ins, p.N) && AllLength(outs, p.N)
    && z == Response(p, party.R, u, VSum(p.r, ins, p.N), WeightedShare(p, party.skShare, party.weight), party.C, VSum(p.r, outs, p.N))
  }

  class Signer {
    const party: Party
    const A: Mat
    const bTilde: Vec

    constructor (party: Party, A: Mat, bTilde: Vec)
      ensures this.party == party && this.A == A && this.bTilde == bTilde
    {
      this.party, this.A, this.bTilde := party, A, bTilde;
    }

    /** Round2 answers exactly when the guard of the collection passes and the collected messages are authentic; a
        refusal leaves the party untouched. The list then has no repetition, the collected commitments are those of
        exactly the listed signers, and the response is the masked response to the challenge on their sum. */
    method Round2(sid: int, message: Str, prfKey: Str, signers: seq<int>, data: map<int, Round1Data>)
      returns (r: Result<Round2Data>, ghost ds: map<int, Mat>, ghost macs: map<int, map<int, Str>>)
      requires Prime(party.p.r.q) && DimsOk(party.p) && SuiteOk(party.p, party.suite)
      requires |party.R| == party.p.N && forall i :: 0 <= i < |party.R| ==> |party.R[i]| == party.p.Dbar + 1
      requires SeedsOk(party.seeds, party.id, signers) && |party.skShare| <= party.p.N
      requires forall k :: k in data ==> RectMat(party.p.r, data[k].D)
      modifies party`H, party`C
      ensures r.Rejected? ==> party.H == old(party.H) && party.C == old(party.C)
      ensures GuardOk(signers, data) ==> Gathers(data, ds, macs) && NoDuplicates(signers) && Senders(data) == Elements(signers)
      ensures r.Accepted? <==>
                && GuardOk(signers, data)
                && Authentic(party.p, party.suite, party.id, party.macKeys, ds, macs, sid, signers)
      ensures r == Rejected(MacVerifyFailed) <==>
                && GuardOk(signers, data)
                && !Authentic(party.p, party.suite, party.id, party.macKeys, ds, macs, sid, signers)
      ensures forall k ::
                && k in data && data[k].partyID != party.id
                && SentMac(data[k], party.id) != party.suite.mac(KeyFor(party.macKeys, data[k].partyID), data[k].partyID, data[k].D, sid, signers)
                ==> !r.Accepted? && (GuardOk(signers, data) ==> r == Rejected(MacVerifyFailed))
      ensures r.Accepted? ==>
                && AllShape(InOrder(ds, signers), party.p.M, party.p.Dbar + 1) && r.value.partyID == party.id
                && RespondsWith(party, A, bTilde, ds, sid, message, prfKey, signers, r.value.Z)
    {
      ds, macs := map[], map[];
      hide SuiteOk, Elem, RectMat, Authentic, SeedsOk, Senders, DistinctSenders, RespondsWith, InOrder, AllShape, GuardOk, Prime;
      var col := CollectRound1(signers, data);
      if col.Rejected? {
        return Rejected(col.error), ds, macs;
      }
      var (matrices, authenticators) := col.value;
      ds, macs := matrices, authenticators;
      CollectedRect(party.p.r, data, ds, macs);
      var z := Respond(sid, message, prfKey, signers, matrices, authenticators);
      if z.None? {
        return Rejected(MacVerifyFailed), ds, macs;
      }
      r := Accepted(Round2Data(party.id, z.value));
      AuthenticMacs(party.p, party.suite, party.id, party.macKeys, data, ds, macs, sid, signers);
    }

    /** Preprocess and response on collected messages. */
    method Respond(sid: int, message: Str, prfKey: Str, signers: seq<int>, ds: map<int, Mat>, macs: map<int, map<int, Str>>) returns (z: Option<Vec>)
      requires Prime(party.p.r.q) && DimsOk(party.p) && SuiteOk(party.p, party.suite)
      requires |party.R| == party.p.N && forall i :: 0 <= i < |party.R| ==> |party.R[i]| == party.p.Dbar + 1
      requires SeedsOk(party.seeds, party.id, signers) && |party.skShare| <= party.p.N
      requires forall j :: j in ds ==> RectMat(party.p.r, ds[j])
      modifies party`H, party`C
      ensures z.Some? <==> Authentic(party.p, party.suite, party.id, party.macKeys, ds, macs, sid, signers)
      ensures z.None? ==> party.H == old(party.H) && party.C == old(party.C)
      ensures z.Some? ==>
                && AllShape(InOrder(ds, signers), party.p.M, party.p.Dbar + 1)
                && RespondsWith(party, A, bTilde, ds, sid, message, prfKey, signers, z.value)
    {
      hide SuiteOk, Elem, RectMat, MacsMatch, AllPresent, FullRankSum, MSum, Response, SeedsOk, InOrder, Prime, RoundedCoeffs, MatVec, Masks, VSum, WeightedShare;
      PresentShapes(party.p, ds, signers);
      var valid, DSum, hash := party.SignRound2Preprocess(A, bTilde, ds, macs, sid, signers);
      if !valid {
        return None;
      }
      var response := party.SignRound2(A, bTilde, DSum, message, signers, prfKey, hash);
      return Some(response);
    }

    /** Finalize: the signature over whatever distinct responses were collected. */
    method Finalize(data: map<int, Round2Data>) returns (r: Result<Signature>, ghost zs: map<int, Vec>)
      requires DimsOk(party.p) && IsMat(party.p.r, A, party.p.M, party.p.N) && IsWords(bTilde, party.p.M, party.p.r.n)
      requires |party.H| == party.p.M && forall k :: k in data ==> |data[k].Z| == party.p.N
      ensures r.Accepted? <==> |data| > 0 && DistinctResponders(data)
      ensures r.Accepted? ==>
                && r.value.C == party.C
                && zs.Keys == (set k | k in data :: data[k].partyID)
                && (forall k :: k in data ==> data[k].partyID in zs && zs[data[k].partyID] == data[k].Z)
                && AllLength(Values(zs), party.p.N)
                && r.value.Z == VSum(party.p.r, Values(zs), party.p.N)
                && r.value.Delta == VSub(NuRing(party.p), party.H, RoundedCoeffs(party.p, Residual(party.p, A, r.value.Z, bTilde, party.C)))
    {
      zs := map[];
      var col := CollectRound2(data);
      if col.Rejected? {
        return Rejected(col.error), zs;
      }
      zs := col.value;
      forall j | j in col.value ensures |col.value[j]| == party.p.N {
        var k :| k in data && data[k].partyID == j;
      }
      var c, z, delta := party.SignFinalize(col.value, A, bTilde);
      r := Accepted(Signature(c, z, delta));
    }
  }

  lemma CollectedRect(r: Ring, data: map<int, Round1Data>, ds: map<int, Mat>, macs: map<int, map<int, Str>>)
    requires Gathers(data, ds, macs) && forall k :: k in data ==> RectMat(r, data[k].D)
    ensures forall j :: j in ds ==> RectMat(r, ds[j])
  {
    hide RectMat;
    forall j | j in ds ensures RectMat(r, ds[j]) {
      assert j in Senders(data);
      var k :| k in data && data[k].partyID == j;
      assert IsFiled(data, k, ds, macs);
    }
  }

  lemma PresentShapes(p: Params, ds: map<int, Mat>, T: seq<int>)
    requires forall j :: j in ds ==> RectMat(p.r, ds[j])
    ensures AllPresent(p, ds, T) ==> AllShape(InOrder(ds, T), p.M, p.Dbar + 1)
  {
    hide RectMat;
    if AllPresent(p, ds, T) {
      InOrderShape(p, ds, T);
    }
  }
}
