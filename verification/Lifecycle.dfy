/** Runs of the key-era state machine: every state a run of Reshare and Reanchor calls reaches, failed
    calls included. */
module Lifecycle {
  import opened Zq
  import opened Polynomials
  import opened Sorting
  import opened Randomness
  import opened Rq
  import opened Transform
  import opened Rounding
  import opened SignAlgebra
  import opened SignRounding
  import opened Sign
  import opened PairTables
  import opened Protocol
  import opened Reshare
  import opened Runs
  import opened Committee
  import opened Era

  // ----- installing a dealt table --------------------------------------------------

  ghost predicate PartOk(p: Params, ks: KeyShare, i: nat, out: map<int, Share>, w: seq<int>, gk: GroupKey) {
    && i < |w| && i + 1 in out
    && ks.index == i && ks.weight == Const(p.r, w[i]) && ks.groupKey == gk
    && ks.skShare == VApply(p.r, p.t.forward, out[i + 1])
  }

  ghost predicate PartsOk(p: Params, parts: seq<KeyShare>, out: map<int, Share>, w: seq<int>, gk: GroupKey) {
    forall i :: 0 <= i < |parts| ==> PartOk(p, parts[i], i, out, w, gk)
  }

  /** The share map is what filing the records of the dealt table under the validator names leaves. */
  ghost predicate Installed(p: Params, s: EpochState, out: map<int, Share>, w: seq<int>, gk: GroupKey) {
    exists parts :: |parts| == |s.validators| && Filed(s.validators, parts, s.shares) && PartsOk(p, parts, out, w, gk)
  }

  /** Every record carries the committee's seed table and the MAC keys of its own position. */
  ghost predicate CarriesMaterial(shares: map<string, KeyShare>, seeds: map<int, seq<Str>>, macKeys: seq<map<int, Str>>) {
    forall v :: v in shares ==> 0 <= shares[v].index < |macKeys| && shares[v].seeds == seeds && shares[v].macKeys == macKeys[shares[v].index]
  }

  /** The records were filed with complete pairwise tables of the committee. */
  ghost predicate Paired(s: EpochState) {
    exists seeds, macKeys :: SquareTable(seeds, |s.validators|) && MacTable(macKeys, |s.validators|) && CarriesMaterial(s.shares, seeds, macKeys)
  }

  /** Under distinct names every position then holds its own keys, and pairs agree. */
  lemma PairedKeyed(s: EpochState)
    requires Complete(s) && Indexed(s) && Paired(s)
    ensures Keyed(s)
  {
    hide SquareTable, MacTable, KeyedAt;
    var K := |s.validators|;
    var seeds, macKeys :| SquareTable(seeds, K) && MacTable(macKeys, K) && CarriesMaterial(s.shares, seeds, macKeys);
    TableSize(macKeys, K);
    assert forall i :: 0 <= i < K ==> HoldsAt(s, seeds, macKeys, i);
    forall i | 0 <= i < K ensures KeyedAt(s, i) {
      KeyedOne(s, seeds, macKeys, i);
    }
  }

  lemma TableSize(macKeys: seq<map<int, Str>>, K: nat)
    requires MacTable(macKeys, K)
    ensures |macKeys| == K
  {
  }

  ghost predicate HoldsAt(s: EpochState, seeds: map<int, seq<Str>>, macKeys: seq<map<int, Str>>, i: nat)
    requires Complete(s) && i < |s.validators| == |macKeys|
  {
    s.shares[s.validators[i]].seeds == seeds && s.shares[s.validators[i]].macKeys == macKeys[i]
  }

  lemma KeyedOne(s: EpochState, seeds: map<int, seq<Str>>, macKeys: seq<map<int, Str>>, i: nat)
    requires Complete(s) && i < |s.validators| == |macKeys| && SquareTable(seeds, |s.validators|) && MacTable(macKeys, |s.validators|)
    requires forall k :: 0 <= k < |s.validators| ==> HoldsAt(s, seeds, macKeys, k)
    ensures KeyedAt(s, i)
  {
    hide SquareTable;
    var ks := s.shares[s.validators[i]];
    assert HoldsAt(s, seeds, macKeys, i);
    forall j | 0 <= j < |s.validators| ensures SameMaterial(ks, i, s.shares[s.validators[j]], j) {
      assert HoldsAt(s, seeds, macKeys, j);
    }
  }

  /** Every position reads back a record made for it. */
  ghost predicate Indexed(s: EpochState)
    requires Complete(s)
  {
    forall i :: 0 <= i < |s.validators| ==> s.shares[s.validators[i]].index == i
  }

  lemma InstalledIndexed(p: Params, s: EpochState, out: map<int, Share>, w: seq<int>, gk: GroupKey)
    requires NoDuplicates(s.validators) && Installed(p, s, out, w, gk)
    ensures Complete(s) && Indexed(s)
  {
    hide PartOk;
    var parts: seq<KeyShare> :| |parts| == |s.validators| && Filed(s.validators, parts, s.shares) && PartsOk(p, parts, out, w, gk);
    Indices(p, parts, out, w, gk);
    FiledDistinct(s.validators, parts, s.shares);
  }

  /** Every position holds, in the transform domain, the share dealt to it. */
  ghost predicate HoldShares(p: Params, s: EpochState, out: map<int, Share>) {
    forall i :: 0 <= i < |s.validators| ==> HoldsShare(p, s, out, i)
  }

  ghost predicate HoldsShare(p: Params, s: EpochState, out: map<int, Share>, i: nat)
    requires i < |s.validators|
  {
    i + 1 in out && s.validators[i] in s.shares && s.shares[s.validators[i]].skShare == VApply(p.r, p.t.forward, out[i + 1])
  }

  /** Under distinct names every position reads back the record made from what it was dealt. */
  lemma InstalledParts(p: Params, s: EpochState, out: map<int, Share>, w: seq<int>, gk: GroupKey)
    requires NoDuplicates(s.validators) && Installed(p, s, out, w, gk)
    ensures HoldShares(p, s, out)
  {
    hide PartOk, VApply, Filed;
    var parts: seq<KeyShare> :| |parts| == |s.validators| && Filed(s.validators, parts, s.shares) && PartsOk(p, parts, out, w, gk);
    Indices(p, parts, out, w, gk);
    FiledDistinct(s.validators, parts, s.shares);
    forall i | 0 <= i < |s.validators| ensures HoldsShare(p, s, out, i) {
      PartShare(p, parts[i], i, out, w, gk);
    }
  }

  lemma PartShare(p: Params, ks: KeyShare, i: nat, out: map<int, Share>, w: seq<int>, gk: GroupKey)
    requires PartOk(p, ks, i, out, w, gk)
    ensures i + 1 in out && ks.skShare == VApply(p.r, p.t.forward, out[i + 1])
  {
    hide VApply, Const;
  }

  ghost predicate AllReduced(out: map<int, Share>, N: nat, n: nat, q: nat) {
    forall j :: j in out ==> Shape(out[j], N, n) && Reduced(out[j], q)
  }

  /** Under distinct names, the installed state holds the sharing that was dealt. */
  lemma InstalledCommitted(p: Params, s: EpochState, out: map<int, Share>, w: seq<int>, gk: GroupKey, secret: Share)
    requires IsTransform(p.r, p.t) && NoDuplicates(s.validators) && 1 <= s.threshold <= |s.validators| < p.r.q
    requires |w| == |s.validators| && IsWeights(Points(|s.validators|), w, p.r.q) && Installed(p, s, out, w, gk)
    requires AllReduced(out, p.N, p.r.n, p.r.q)
    requires IsSharing(out, s.threshold, secret, p.N, p.r.n, p.r.q) && Reduced(secret, p.r.q) && Paired(s)
    ensures Committed(p, s, gk, secret)
  {
    hide IsTransform, IsSharing, IsWeights, Filed, Shape, Reduced, Paired, Keyed;
    InstalledRecords(p, s, out, w, gk);
    InstalledIndexed(p, s, out, w, gk);
    PairedKeyed(s);
    InstalledTable(p, s, out, w, gk);
    QuorumSharing(out, TableOf(p, s), s.threshold, secret, p.N, p.r.n, p.r.q);
  }

  lemma PartRecord(p: Params, ks: KeyShare, i: nat, out: map<int, Share>, w: seq<int>, gk: GroupKey)
    requires IsTransform(p.r, p.t) && PartOk(p, ks, i, out, w, gk) && AllReduced(out, p.N, p.r.n, p.r.q)
    ensures Standardized(p, ks.skShare) == out[i + 1] && RecordOk(p, ks, i, w[i], gk)
  {
    hide IsTransform, VApply;
    var share := out[i + 1];
    ConversionRoundTrip(p, share, p.N);
  }

  lemma InstalledRecords(p: Params, s: EpochState, out: map<int, Share>, w: seq<int>, gk: GroupKey)
    requires IsTransform(p.r, p.t) && NoDuplicates(s.validators)
    requires |w| == |s.validators| && Installed(p, s, out, w, gk) && AllReduced(out, p.N, p.r.n, p.r.q)
    ensures Complete(s) && RecordsOk(p, s, w, gk)
    ensures forall i :: 0 <= i < |s.validators| ==> PartOk(p, s.shares[s.validators[i]], i, out, w, gk)
  {
    hide IsTransform, RecordOk, AllReduced, PartOk;
    var parts: seq<KeyShare> :| |parts| == |s.validators| && Filed(s.validators, parts, s.shares) && PartsOk(p, parts, out, w, gk);
    assert forall i :: 0 <= i < |parts| ==> parts[i].index == i by { Indices(p, parts, out, w, gk); }
    FiledDistinct(s.validators, parts, s.shares);
    forall i | 0 <= i < |s.validators| ensures RecordOk(p, s.shares[s.validators[i]], i, w[i], gk) {
      PartRecord(p, parts[i], i, out, w, gk);
    }
  }

  lemma Indices(p: Params, parts: seq<KeyShare>, out: map<int, Share>, w: seq<int>, gk: GroupKey)
    requires PartsOk(p, parts, out, w, gk)
    ensures forall i :: 0 <= i < |parts| ==> parts[i].index == i
  {
    hide VApply, Const;
    forall i | 0 <= i < |parts| ensures parts[i].index == i {
      assert PartOk(p, parts[i], i, out, w, gk);
    }
  }

  lemma InstalledTable(p: Params, s: EpochState, out: map<int, Share>, w: seq<int>, gk: GroupKey)
    requires IsTransform(p.r, p.t) && NoDuplicates(s.validators)
    requires |w| == |s.validators| && Installed(p, s, out, w, gk) && AllReduced(out, p.N, p.r.n, p.r.q)
    ensures Complete(s)
    ensures TableOf(p, s).Keys <= out.Keys && forall j :: j in TableOf(p, s) ==> TableOf(p, s)[j] == out[j]
  {
    hide IsTransform, AllReduced, Installed, Filed;
    InstalledRecords(p, s, out, w, gk);
    var table := TableOf(p, s);
    forall j | j in table ensures j in out && table[j] == out[j] {
      var i := j - 1;
      assert PartOk(p, s.shares[s.validators[i]], i, out, w, gk);
      PartRecord(p, s.shares[s.validators[i]], i, out, w, gk);
    }
  }

  // ----- steps ---------------------------------------------------------------------

  datatype Dealing = Dealing(out: map<int, Share>, w: seq<int>, draws: seq<Cube>, dealers: seq<Cube>, lambdas: seq<int>)

  /** One successful Reshare: only the state is replaced, the counters advance by one, and the new share map
      comes from dealing the old table to positions 1, ..., n. */
  ghost predicate ResharedBy(p: Params, a: EraValue, b: EraValue, x: Dealing)
    requires p.r.q > 0
  {
    && b == a.(state := b.state)
    && b.state.keyEraID == a.state.keyEraID && b.state.suiteID == a.suiteID && b.state.rollbackFrom == 0
    && b.state.generation == Next(a.state.generation) && b.state.epoch == Next(a.state.epoch)
    && 1 <= b.state.threshold <= |b.state.validators| < p.r.q
    && Complete(a.state) && a.state.threshold >= 0
    && ReshareStep(TableOf(p, a.state), a.state.threshold, x.out, b.state.threshold, x.w, x.draws, x.dealers, p.r.n, p.r.q)
    && |x.lambdas| == |b.state.validators| && IsWeights(Points(|b.state.validators|), x.lambdas, p.r.q)
    && Installed(p, b.state, x.out, x.lambdas, a.groupKey) && Paired(b.state)
  }

  ghost predicate Reshared(p: Params, a: EraValue, b: EraValue)
    requires p.r.q > 0
  {
    exists x: Dealing :: ResharedBy(p, a, b, x)
  }

  /** One successful Reanchor: a new era, one epoch later, with a key and a secret of its own. */
  ghost predicate Reanchored(p: Params, a: EraValue, b: EraValue) {
    && b.eraID == Next(a.eraID)
    && b.genesisEpoch == b.state.epoch == Next(a.state.epoch) && b.state.generation == 0
    && exists secret :: Inv(p, b, secret)
  }

  lemma NextOfSum(genesis: nat, generation: nat)
    ensures Next((genesis + generation) % WORD) == (genesis + Next(generation)) % WORD
  {
    CongMod(genesis + generation, WORD);
    CongAdd((genesis + generation) % WORD, genesis + generation, 1, 1, WORD);
    CongMod(generation + 1, WORD);
    CongAdd(genesis, genesis, (generation + 1) % WORD, generation + 1, WORD);
  }

  lemma StepReduced(shares: map<int, Share>, tOld: nat, out: map<int, Share>, tNew: nat,
                    w: seq<int>, draws: seq<Cube>, dealers: seq<Cube>, nVec: nat, N: nat, q: nat)
    requires q > 0 && ReshareStep(shares, tOld, out, tNew, w, draws, dealers, N, q) && Dim(shares) == nVec
    ensures AllReduced(out, nVec, N, q)
  {
    forall j | j in out ensures Shape(out[j], nVec, N) && Reduced(out[j], q) {
      assert Accumulated(out[j], dealers, j, nVec, tNew, N, q);
    }
  }

  /** Reshare to distinct names keeps the invariant for the same secret. */
  lemma ReshareKeeps(p: Params, a: EraValue, b: EraValue, secret: Share)
    requires Standard(p) && Prime(p.r.q) && Inv(p, a, secret) && Reshared(p, a, b) && NoDuplicates(b.state.validators)
    ensures Inv(p, b, secret)
  {
    hide IsTransform, IsSharing, IsWeights, Installed, Reduced, KeyOf, ReshareStep, RecordsOk, Paired, Keyed;
    var x: Dealing :| ResharedBy(p, a, b, x);
    var table := TableOf(p, a.state);
    DimOfTable(p, a.state, secret);
    ReshareKeepsSecret(table, a.state.threshold, x.out, b.state.threshold, secret, x.w, x.draws, x.dealers, p.r.n, p.r.q);
    StepReduced(table, a.state.threshold, x.out, b.state.threshold, x.w, x.draws, x.dealers, p.N, p.r.n, p.r.q);
    InstalledCommitted(p, b.state, x.out, x.lambdas, b.groupKey, secret);
    NextOfSum(a.genesisEpoch, a.state.generation);
  }

  lemma DimOfTable(p: Params, s: EpochState, secret: Share)
    requires Complete(s) && |s.validators| > 0 && s.threshold >= 0 && IsSharing(TableOf(p, s), s.threshold, secret, p.N, p.r.n, p.r.q)
    ensures Dim(TableOf(p, s)) == p.N
  {
    var table := TableOf(p, s);
    assert 1 in table;
    DimOfShaped(table, p.N, p.r.n);
  }

  // ----- runs ----------------------------------------------------------------------

  datatype Call = Failed | Resharing | Reanchoring

  ghost predicate IsStep(p: Params, call: Call, a: EraValue, b: EraValue)
    requires p.r.q > 0
  {
    match call
    case Failed => b == a
    case Resharing => Reshared(p, a, b) && NoDuplicates(b.state.validators)
    case Reanchoring => Reanchored(p, a, b)
  }

  ghost predicate IsEraRun(p: Params, calls: seq<Call>, run: seq<EraValue>)
    requires p.r.q > 0
  {
    |run| == |calls| + 1 && forall i :: 0 <= i < |calls| ==> IsStep(p, calls[i], run[i], run[i + 1])
  }

  function Count(calls: seq<Call>, call: Call): nat {
    if calls == [] then 0 else Count(calls[..|calls| - 1], call) + if calls[|calls| - 1] == call then 1 else 0
  }

  /** Every state of every run is a valid sharing of its era's secret, under its era's key. */
  lemma {:induction false} EveryStateValid(p: Params, calls: seq<Call>, run: seq<EraValue>, n: nat)
    requires Standard(p) && Prime(p.r.q) && IsEraRun(p, calls, run) && n < |run|
    requires exists secret :: Inv(p, run[0], secret)
    ensures exists secret :: Inv(p, run[n], secret)
  {
    hide Inv, Reshared;
    if n > 0 {
      EveryStateValid(p, calls, run, n - 1);
      var secret :| Inv(p, run[n - 1], secret);
      assert IsStep(p, calls[n - 1], run[n - 1], run[n - 1 + 1]);
      if calls[n - 1] == Resharing {
        ReshareKeeps(p, run[n - 1], run[n], secret);
      }
    }
  }

  /** Between two Reanchors nothing but the state changes: one key, one suite, one era, one secret. */
  lemma {:induction false} EraConstant(p: Params, calls: seq<Call>, run: seq<EraValue>, m: nat, n: nat, secret: Share)
    requires Standard(p) && Prime(p.r.q) && IsEraRun(p, calls, run) && m <= n < |run|
    requires Inv(p, run[m], secret) && Reanchoring !in calls[m..n]
    ensures run[n] == run[m].(state := run[n].state) && Inv(p, run[n], secret)
  {
    hide Inv;
    if m < n {
      assert calls[m..n][n - 1 - m] == calls[n - 1];
      forall c | c in calls[m..n - 1] ensures c in calls[m..n] {
      }
      EraConstant(p, calls, run, m, n - 1, secret);
      assert IsStep(p, calls[n - 1], run[n - 1], run[n - 1 + 1]);
      if calls[n - 1] == Resharing {
        ReshareKeeps(p, run[n - 1], run[n], secret);
      }
    }
  }

  lemma NextCount(x: nat, k: nat)
    ensures Next((x + k) % WORD) == (x + (k + 1)) % WORD
  {
    CongMod(x + k, WORD);
    CongAdd((x + k) % WORD, x + k, 1, 1, WORD);
  }

  lemma StepCounters(p: Params, call: Call, a: EraValue, b: EraValue)
    requires p.r.q > 0 && IsStep(p, call, a, b)
    ensures b.state.epoch == if call == Failed then a.state.epoch else Next(a.state.epoch)
    ensures b.eraID == if call == Reanchoring then Next(a.eraID) else a.eraID
  {
    hide Inv, Next;
  }

  /** Epochs count the successful calls and era ids count the Reanchors, on uint64. */
  lemma {:induction false} Counters(p: Params, calls: seq<Call>, run: seq<EraValue>, n: nat)
    requires p.r.q > 0 && IsEraRun(p, calls, run) && n < |run|
    requires run[0].state.epoch < WORD && run[0].eraID < WORD
    ensures run[n].state.epoch == (run[0].state.epoch + (Count(calls[..n], Resharing) + Count(calls[..n], Reanchoring))) % WORD
    ensures run[n].eraID == (run[0].eraID + Count(calls[..n], Reanchoring)) % WORD
  {
    hide Next, IsStep;
    if n > 0 {
      Counters(p, calls, run, n - 1);
      assert IsStep(p, calls[n - 1], run[n - 1], run[n - 1 + 1]);
      StepCounters(p, calls[n - 1], run[n - 1], run[n]);
      assert calls[..n][..n - 1] == calls[..n - 1];
      var reshared, reanchored := Count(calls[..n - 1], Resharing), Count(calls[..n - 1], Reanchoring);
      NextCount(run[0].state.epoch, reshared + reanchored);
      NextCount(run[0].eraID, reanchored);
    }
  }

  /** Until a counter reaches 2^64, every successful call strictly increases the epoch and every Reanchor the era id. */
  lemma NoWrapIncreases(p: Params, call: Call, a: EraValue, b: EraValue)
    requires p.r.q > 0 && IsStep(p, call, a, b) && a.state.epoch < WORD && a.eraID < WORD
    ensures call != Failed ==> (b.state.epoch > a.state.epoch <==> a.state.epoch != WORD - 1)
    ensures call == Reanchoring ==> (b.eraID > a.eraID <==> a.eraID != WORD - 1)
    ensures call != Reanchoring ==> b.eraID == a.eraID
  {
    hide Inv;
  }

  /** Every position of the committee signs, with the share, weight and seeds its record holds. */
  ghost predicate Seated(p: Params, s: EpochState, x: Session) {
    Complete(s) && |x.T| == |x.nonces| == |x.shares| == |x.lambdas| == |s.validators| &&
    forall i :: 0 <= i < |x.T| ==>
      && 0 <= x.T[i] < |x.T| && IsNonce(p, x.nonces[i])
      && SignsWith(s.shares[s.validators[x.T[i]]], x.shares[i], x.lambdas[i], x.seeds)
  }

  ghost predicate SignsWith(ks: KeyShare, share: Vec, weight: Poly, seeds: map<int, seq<Str>>) {
    share == ks.skShare && weight == ks.weight && seeds == ks.seeds
  }

  /** The records of a valid state are all a signing session needs. */
  lemma EraSession(p: Params, suite: Suite, a: EraValue, secret: Share, x: Session)
    requires DimsOk(p) && SuiteOk(p, suite) && Inv(p, a, secret) && x.A == a.groupKey.A && Seated(p, a.state, x)
    ensures SessionOk(p, suite, x)
  {
    hide SuiteOk, SeedsOk, IsNonce, IsSharing, Elem, VApply, IsWeights, Reduced, IsMat, SquareTable;
    var e, b :| IsKey(p, a.groupKey.A, VApply(p.r, p.t.forward, secret), e, b, a.groupKey.bTilde);
    KeyMat(p, a.groupKey.A, VApply(p.r, p.t.forward, secret), e, b, a.groupKey.bTilde);
    var w :| IsWeights(Points(|a.state.validators|), w, p.r.q) && RecordsOk(p, a.state, w, a.groupKey);
    forall i | 0 <= i < |x.T| ensures IsNonce(p, x.nonces[i]) && |x.shares[i]| <= p.N && SeedsOk(x.seeds, x.T[i], x.T) {
      var k := x.T[i];
      assert RecordOk(p, a.state.shares[a.state.validators[k]], k, w[k], a.groupKey);
      assert KeyedAt(a.state, k);
      SquareSeeds(x.seeds, |x.T|, x.T, i);
    }
  }

  lemma KeyMat(p: Params, A: Mat, s: Vec, e: Vec, b: Vec, bTilde: Vec)
    requires IsKey(p, A, s, e, b, bTilde)
    ensures IsMat(p.r, A, p.M, p.N)
  {
    hide IsMat;
  }

  lemma SquareSeeds(seeds: map<int, seq<Str>>, K: nat, T: seq<int>, i: nat)
    requires SquareTable(seeds, K) && i < |T| && forall j :: 0 <= j < |T| ==> 0 <= T[j] < K
    ensures SeedsOk(seeds, T[i], T)
  {
  }

  /** The full committee of any state of any run signs correctly under the era's key, with nothing but what its records
      hold and fresh nonces: the verifier's residual is the summed commitment minus the noise. */
  lemma EraSigns(p: Params, suite: Suite, a: EraValue, secret: Share, x: Session, c: Poly) returns (e: Vec, b: Vec)
    requires Standard(p) && Prime(Q) && DimsOk(p) && SuiteOk(p, suite) && Inv(p, a, secret) && x.A == a.groupKey.A
    requires NoRepeats(x.T) && (forall i :: 0 <= i < |x.T| ==> i in x.T) && Seated(p, a.state, x)
    ensures SessionOk(p, suite, x)
    ensures IsKey(p, x.A, VApply(p.r, p.t.forward, secret), e, b, a.groupKey.bTilde)
    ensures MeetsEquation(p, suite, x, VApply(p.r, p.t.forward, secret), e, b, a.groupKey.bTilde, c)
  {
    hide SuiteOk, SeedsOk, IsNonce, IsSharing, IsTransform, Elem, RunResidual, RunNoise, VSub, SumTimes, Ds, U, KeyError, VApply, IsKey, IsWeights, Reduced, MeetsEquation, SessionOk, Keyed;
    EraSession(p, suite, a, secret, x);
    e, b :| IsKey(p, a.groupKey.A, VApply(p.r, p.t.forward, secret), e, b, a.groupKey.bTilde);
    var w :| IsWeights(Points(|a.state.validators|), w, p.r.q) && RecordsOk(p, a.state, w, a.groupKey);
    var table := TableOf(p, a.state);
    var std := InOrderOfPoint(table, |x.T|);
    WeightsLength(|x.T|, w, p.r.q);
    forall i | 0 <= i < |x.T| ensures Holds(p, x.shares[i], x.lambdas[i], x.T[i], std, w) {
      var k := x.T[i];
      assert RecordOk(p, a.state.shares[a.state.validators[k]], k, w[k], a.groupKey);
      assert std[k] == table[k + 1] == ShareAtPoint(p, a.state, k + 1);
    }
    FullCommitteeResidual(p, suite, x, table, a.state.threshold, secret, w, e, b, a.groupKey.bTilde, c);
  }

  lemma WeightsLength(n: nat, w: seq<int>, q: nat)
    requires q > 0 && IsWeights(Points(n), w, q)
    ensures |w| == n
  {
  }
}
