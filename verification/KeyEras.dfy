/** The key era as the consensus layer drives it: bootstrap by a dealer or by the Pedersen ceremony,
    Reshare in place, Reanchor to a new era. */
module KeyEras {
  import opened Zq
  import opened Polynomials
  import opened Sorting
  import opened Bytes
  import opened Randomness
  import opened Lagrange
  import opened Rq
  import opened Transform
  import opened Rounding
  import opened SignAlgebra
  import opened SignRounding
  import opened VectorOps
  import opened Sign
  import opened PairTables
  import opened Protocol
  import opened Kernel = Reshare
  import Shamir
  import GenBuffer
  import opened Transcripts
  import opened Pairwise
  import Streams
  import opened Committee
  import opened Pedersen
  import opened Era
  import opened Lifecycle

  datatype LifecycleError =
    | EmptyValidators | InvalidThreshold | PedersenShape | EntropyFailed | MissingShare(name: string) | KernelError(error: Error)

  datatype Reply<+T> = Done(value: T) | Refused(error: LifecycleError) | Panicked

  const DEFAULT_SUITE := "Corona-SHA3"
  const LEGACY_SUITE := "Corona-BLAKE3"

  /** hash.Resolve: no suite means the production one. */
  function Resolve(suite: Option<string>): (id: string)
    ensures suite.None? ==> id == DEFAULT_SUITE
    ensures suite.Some? ==> id == suite.value
  {
    match suite
    case None => DEFAULT_SUITE
    case Some(id) => id
  }

  // ----- Lagrange weights of the full committee ------------------------------------

  /** computeFullCommitteeLagrange: the field refuses a zero point, so a committee as large as q panics. */
  method FullCommitteeLagrange(n: nat, q: nat) returns (r: Option<seq<int>>)
    requires Prime(q)
    ensures r.Some? <==> n < q
    ensures r.Some? ==> |r.value| == n && IsWeights(Points(n), r.value, q)
  {
    if n >= q {
      return None;
    }
    var ids := seq(n, i => i + 1);
    assert ids == Points(n);
    PointsDistinct(n, q);
    var w: seq<int> := [];
    for i := 0 to n
      invariant |w| == i && forall k :: 0 <= k < i ==> IsBasis(ids, k, w[k], q)
    {
      var c := BasisAtZero(ids, i, q);
      if c.None? {
        NotSeparated(ids, i, q);
        assert false;
      }
      w := w + [c.value];
    }
    forall k | 0 <= k < n ensures Cong(w[k] * SkipProd(ids, k, ids[k]), SkipProd(ids, k, 0), q) {
      assert IsBasis(ids, k, w[k], q);
    }
    return Some(w);
  }

  // ----- pairwise seeds and MAC keys -----------------------------------------------

  /** The key drawn at an offset of the stream; what the stream no longer holds stays zero. */
  function KeyAt(data: seq<Byte>, at: nat): (key: Str)
    ensures |key| == KEY_SIZE
  {
    seq(KEY_SIZE, i requires 0 <= i < KEY_SIZE => if at + i < |data| then data[at + i] else 0)
  }

  /** io.ReadFull into a fresh key with its error ignored. */
  method ReadKey(rs: ByteReader, ghost at: nat) returns (key: Str)
    requires rs.pos == at || (rs.pos >= |rs.data| && at >= |rs.data|)
    modifies rs
    ensures key == KeyAt(rs.data, at)
    ensures rs.pos == at + KEY_SIZE || (rs.pos >= |rs.data| && at + KEY_SIZE >= |rs.data|)
  {
    key := KeyAt(rs.data, rs.pos);
    rs.pos := rs.pos + KEY_SIZE;
  }

  ghost predicate SeedsDrawn(seeds: map<int, seq<Str>>, K: nat, data: seq<Byte>, start: nat) {
    && (forall i :: i in seeds <==> 0 <= i < K)
    && forall i :: 0 <= i < K ==> RowDrawn(seeds[i], i, K, K, data, start)
  }

  ghost predicate RowDrawn(row: seq<Str>, i: nat, n: nat, K: nat, data: seq<Byte>, start: nat) {
    |row| == n && forall j :: 0 <= j < n ==> row[j] == KeyAt(data, start + KEY_SIZE * (i * K + j))
  }

  /** Each pair's key is the stream slice of its turn, in the order (0, 1), (0, 2), ..., (1, 2), .... */
  ghost predicate MacsDrawn(macKeys: seq<map<int, Str>>, K: nat, data: seq<Byte>, start: nat)
    requires |macKeys| == K
  {
    forall i, j :: 0 <= i < j < K && j in macKeys[i] ==> macKeys[i][j] == KeyAt(data, start + KEY_SIZE * PairTurn(K, i, j))
  }

  /** The pairs before (i, j). */
  ghost function PairTurn(K: nat, i: nat, j: nat): nat
    requires i < K && i < j <= K
  {
    GenBuffer.PairsBelow(K, i) + (j - i - 1)
  }

  /** derivePairwiseMaterial. */
  method DerivePairwiseMaterial(K: nat, rs: ByteReader) returns (seeds: map<int, seq<Str>>, macKeys: seq<map<int, Str>>)
    modifies rs
    ensures SeedsDrawn(seeds, K, rs.data, old(rs.pos)) && MacTable(macKeys, K)
    ensures MacsDrawn(macKeys, K, rs.data, old(rs.pos) + KEY_SIZE * (K * K))
  {
    ghost var at := rs.pos;
    seeds := map[];
    for i := 0 to K
      invariant forall a :: a in seeds <==> 0 <= a < i
      invariant forall a :: 0 <= a < i ==> RowDrawn(seeds[a], a, K, K, rs.data, old(rs.pos))
      invariant at == old(rs.pos) + KEY_SIZE * (i * K)
      invariant rs.pos == at || (rs.pos >= |rs.data| && at >= |rs.data|)
    {
      var row: seq<Str> := [];
      for j := 0 to K
        invariant RowDrawn(row, i, j, K, rs.data, old(rs.pos))
        invariant at == old(rs.pos) + KEY_SIZE * (i * K + j)
        invariant rs.pos == at || (rs.pos >= |rs.data| && at >= |rs.data|)
      {
        var key := ReadKey(rs, at);
        row := row + [key];
        at := at + KEY_SIZE;
      }
      seeds := seeds[i := row];
      assert (i + 1) * K == i * K + K;
    }
    macKeys := DeriveMacKeys(K, rs, at);
  }

  /** The second loop of derivePairwiseMaterial: one key per pair, stored at both ends. */
  method DeriveMacKeys(K: nat, rs: ByteReader, ghost start: nat) returns (macKeys: seq<map<int, Str>>)
    requires rs.pos == start || (rs.pos >= |rs.data| && start >= |rs.data|)
    modifies rs
    ensures MacTable(macKeys, K) && MacsDrawn(macKeys, K, rs.data, start)
  {
    hide PairDone;
    macKeys := seq(K, _ => map[]);
    assert MacsSoFar(macKeys, K, 0, 1) by { NoMacs(macKeys, K); }
    ghost var at := start;
    for i := 0 to K
      invariant MacsSoFar(macKeys, K, i, i + 1) && MacsDrawn(macKeys, K, rs.data, start)
      invariant at == start + KEY_SIZE * GenBuffer.PairsBelow(K, i)
      invariant rs.pos == at || (rs.pos >= |rs.data| && at >= |rs.data|)
    {
      for j := i + 1 to K
        invariant MacsSoFar(macKeys, K, i, j) && MacsDrawn(macKeys, K, rs.data, start)
        invariant at == start + KEY_SIZE * PairTurn(K, i, j)
        invariant rs.pos == at || (rs.pos >= |rs.data| && at >= |rs.data|)
      {
        var key := ReadKey(rs, at);
        MacsCell(macKeys, K, i, j, key);
        DrawnCell(macKeys, K, i, j, key, rs.data, start);
        macKeys := macKeys[i := macKeys[i][j := key]];
        macKeys := macKeys[j := macKeys[j][i := key]];
        at := at + KEY_SIZE;
      }
      MacsNext(macKeys, K, i);
    }
    AllPairsDone(macKeys, K);
  }

  lemma DrawnCell(macKeys: seq<map<int, Str>>, K: nat, i: nat, j: nat, key: Str, data: seq<Byte>, start: nat)
    requires |macKeys| == K && i < j < K && MacsDrawn(macKeys, K, data, start)
    requires key == KeyAt(data, start + KEY_SIZE * PairTurn(K, i, j))
    ensures MacsDrawn(WithPair(macKeys, i, j, key), K, data, start)
  {
    hide KeyAt, PairTurn;
    var m := WithPair(macKeys, i, j, key);
    forall a, b | 0 <= a < b < K && b in m[a] ensures m[a][b] == KeyAt(data, start + KEY_SIZE * PairTurn(K, a, b)) {
      if !(a == i && b == j) {
        assert b in macKeys[a] && m[a][b] == macKeys[a][b];
      }
    }
  }

  /** A record's seeds are the stream slices of all cells, its MAC keys those of the pairs of its position, for exactly the
      other positions. */
  ghost predicate RecordDrawn(ks: KeyShare, K: nat, data: seq<Byte>, start: nat) {
    && 0 <= ks.index < K && SeedsDrawn(ks.seeds, K, data, start)
    && (forall j :: j in ks.macKeys <==> 0 <= j < K && j != ks.index)
    && forall j :: j in ks.macKeys ==> ks.macKeys[j] == PairKeyAt(K, ks.index, j, data, start)
  }

  /** The key of the pair {i, j}: the slice of its turn behind the K * K seeds, whichever end asks. */
  ghost function PairKeyAt(K: nat, i: nat, j: nat, data: seq<Byte>, start: nat): Str
    requires i < K && j < K && i != j
  {
    KeyAt(data, start + KEY_SIZE * (K * K) + KEY_SIZE * PairTurn(K, if i < j then i else j, if i < j then j else i))
  }

  ghost predicate RecordsDrawn(shares: map<string, KeyShare>, K: nat, data: seq<Byte>, start: nat) {
    forall v :: v in shares ==> RecordDrawn(shares[v], K, data, start)
  }

  lemma CarriedDrawn(shares: map<string, KeyShare>, seeds: map<int, seq<Str>>, macKeys: seq<map<int, Str>>, K: nat, data: seq<Byte>, start: nat)
    requires CarriesMaterial(shares, seeds, macKeys) && SeedsDrawn(seeds, K, data, start) && MacTable(macKeys, K)
    requires MacsDrawn(macKeys, K, data, start + KEY_SIZE * (K * K))
    ensures RecordsDrawn(shares, K, data, start)
  {
    hide SeedsDrawn, KeyAt, PairTurn;
    forall v | v in shares ensures RecordDrawn(shares[v], K, data, start) {
      var ks := shares[v];
      forall j | j in ks.macKeys ensures ks.macKeys[j] == PairKeyAt(K, ks.index, j, data, start) {
        if j < ks.index {
          assert macKeys[j][ks.index] == macKeys[ks.index][j];
        }
      }
    }
  }

  lemma DrawnSquare(seeds: map<int, seq<Str>>, K: nat, data: seq<Byte>, start: nat)
    requires SeedsDrawn(seeds, K, data, start)
    ensures SquareTable(seeds, K)
  {
    hide KeyAt;
    forall i | 0 <= i < K ensures |seeds[i]| == K {
      assert RowDrawn(seeds[i], i, K, K, data, start);
    }
  }

  lemma PairedBy(s: EpochState, seeds: map<int, seq<Str>>, macKeys: seq<map<int, Str>>)
    requires SquareTable(seeds, |s.validators|) && MacTable(macKeys, |s.validators|) && CarriesMaterial(s.shares, seeds, macKeys)
    ensures Paired(s)
  {
    hide SquareTable, MacTable, CarriesMaterial;
  }

  // ----- assembling a share state --------------------------------------------------

  /** The loop that files one KeyShare per validator. */
  method AssembleShares(p: Params, names: seq<string>, out: map<int, Share>, lambdas: seq<int>, seeds: map<int, seq<Str>>,
                        macKeys: seq<map<int, Str>>, gk: GroupKey) returns (shares: map<string, KeyShare>, ghost parts: seq<KeyShare>)
    requires IsTransform(p.r, p.t) && |lambdas| == |macKeys| == |names| && forall i :: 1 <= i <= |names| ==> i in out
    ensures |parts| == |names| && Filed(names, parts, shares) && PartsOk(p, parts, out, lambdas, gk)
    ensures CarriesMaterial(shares, seeds, macKeys)
  {
    hide IsTransform, Filed, Apply, Monomial, Const, VApply;
    shares, parts := map[], [];
    assert Filed(names[..0], parts, shares) by { FiledEmpty<KeyShare>(names); }
    for i := 0 to |names|
      invariant |parts| == i && Filed(names[..i], parts, shares) && PartsOk(p, parts, out, lambdas, gk)
      invariant CarriesMaterial(shares, seeds, macKeys)
    {
      var weight := Apply(p.r, p.t.forward, Monomial(p.r, lambdas[i]));
      ApplyMonomial(p.r, p.t, lambdas[i]);
      var ks := KeyShare(i, VApply(p.r, p.t.forward, out[i + 1]), seeds, macKeys[i], weight, gk);
      FiledSnoc(names, i, parts, shares, ks);
      shares := shares[names[i] := ks];
      parts := parts + [ks];
    }
    assert names[..|names|] == names;
  }

  /** The dealt table, share by share, from the drawn coefficients. */
  ghost predicate SharesOf(table: map<int, Share>, tOld: int, tNew: int, x: Dealing, n: nat, q: nat)
    requires q > 0
  {
    && 1 <= tOld <= |table| && tNew >= 1
    && var ids := Enumerate(table.Keys)[..tOld];
    && AllShaped(table, Dim(table), n) && AreDealers(x.draws, Dim(table), tNew - 1, n, q)
    && |ids| == |x.w| == |x.draws| && (forall i :: 0 <= i < |ids| ==> ids[i] in table)
    && AreShares(x.out, table, ids, x.w, x.draws, Dim(table), tNew, n, q)
  }

  /** The kernel call and the weights of the new committee. */
  method Redeal(p: Params, table: map<int, Share>, tOld: int, K: nat, tNew: int, rs: ByteReader)
    returns (r: Reply<(map<int, Share>, seq<int>)>, ghost x: Dealing)
    requires Prime(p.r.q) && forall id, k :: id in table && 0 <= k < |table[id]| ==> |table[id][k]| == p.r.n
    modifies rs
    ensures r.Refused? <==> !Accepts(table, tOld, Points(K), tNew)
    ensures !r.Refused? ==>
              (r.Panicked? <==> || !DistinctMod(Enumerate(table.Keys)[..tOld], p.r.q)
                                || DrawDealers(rs.data, old(rs.pos), p.r.q, tOld, Dim(table), tNew - 1, p.r.n).None?
                                || K >= p.r.q)
    ensures r.Done? ==>
              && r.value == (x.out, x.lambdas) && (forall i :: 1 <= i <= K ==> i in x.out)
              && ReshareStep(table, tOld, x.out, tNew, x.w, x.draws, x.dealers, p.r.n, p.r.q)
              && DrawDealers(rs.data, old(rs.pos), p.r.q, tOld, Dim(table), tNew - 1, p.r.n) == Some((x.draws, rs.pos))
              && SharesOf(table, tOld, tNew, x, p.r.n, p.r.q)
              && |x.lambdas| == K < p.r.q && IsWeights(Points(K), x.lambdas, p.r.q)
  {
    hide IsWeights, ReshareStep, Accepts, IsSharing, DrawDealers, Enumerate, DistinctMod, Dim, Prime, Elements, Points;
    x := Dealing(map[], [], [], [], []);
    AcceptedRange(table, tOld, Points(K), tNew);
    var ids := seq(K, i => i + 1);
    assert ids == Points(K);
    var out;
    ghost var w, draws, dealers;
    out, w, draws, dealers := Kernel.Reshare(table, tOld, ids, tNew, rs, p.r.n, p.r.q);
    if out.Err? {
      return Refused(KernelError(out.error)), x;
    }
    if out.Panic? {
      return Panicked, x;
    }
    var lambdas := FullCommitteeLagrange(K, p.r.q);
    if lambdas.None? {
      return Panicked, x;
    }
    PointsCovered(out.value, K);
    x := Dealing(out.value, w, draws, dealers, lambdas.value);
    SharesOfStep(table, tOld, tNew, x, p.r.n, p.r.q);
    return Done((out.value, lambdas.value)), x;
  }

  lemma SharesOfStep(table: map<int, Share>, tOld: nat, tNew: nat, x: Dealing, n: nat, q: nat)
    requires q > 0 && ReshareStep(table, tOld, x.out, tNew, x.w, x.draws, x.dealers, n, q)
    requires AreDealers(x.draws, Dim(table), tNew - 1, n, q)
    requires AreShares(x.out, table, Enumerate(table.Keys)[..tOld], x.w, x.draws, Dim(table), tNew, n, q)
    ensures SharesOf(table, tOld, tNew, x, n, q)
  {
    hide AreShares, IsWeights, DistinctMod, Enumerate, Dim, AllAccumulated;
  }

  lemma PointsCovered(out: map<int, Share>, K: nat)
    requires out.Keys == Elements(Points(K))
    ensures forall i :: 1 <= i <= K ==> i in out
  {
    forall i | 1 <= i <= K ensures i in out {
      assert Points(K)[i - 1] in Elements(Points(K));
    }
  }

  lemma AcceptedRange(table: map<int, Share>, tOld: int, ids: seq<int>, tNew: int)
    ensures Accepts(table, tOld, ids, tNew) ==> 1 <= tOld <= |table| && tNew >= 1
  {
    hide Uniform;
  }

  /** The state that follows: lineage kept, counters advanced, fresh pairwise material, the dealt shares installed. */
  method NextState(p: Params, s: EpochState, suiteID: string, gk: GroupKey, names: seq<string>, t: int, out: map<int, Share>,
                   lambdas: seq<int>, rs: ByteReader) returns (next: EpochState)
    requires IsTransform(p.r, p.t) && |lambdas| == |names| && forall i :: 1 <= i <= |names| ==> i in out
    modifies rs
    ensures Installed(p, next, out, lambdas, gk) && Paired(next)
    ensures RecordsDrawn(next.shares, |names|, rs.data, old(rs.pos))
    ensures next == EpochState(s.keyEraID, suiteID, Next(s.generation), 0, Next(s.epoch), names, t, next.shares)
  {
    hide IsTransform, Installed, PartsOk, Filed, Paired, RecordsDrawn, CarriesMaterial, SeedsDrawn, MacsDrawn, SquareTable;
    var seeds, macKeys := DerivePairwiseMaterial(|names|, rs);
    var shares;
    ghost var parts;
    shares, parts := AssembleShares(p, names, out, lambdas, seeds, macKeys, gk);
    next := EpochState(s.keyEraID, suiteID, Next(s.generation), 0, Next(s.epoch), names, t, shares);
    InstalledBy(p, next, out, lambdas, gk, parts);
    DrawnSquare(seeds, |names|, rs.data, old(rs.pos));
    PairedBy(next, seeds, macKeys);
    CarriedDrawn(shares, seeds, macKeys, |names|, rs.data, old(rs.pos));
  }

  ghost predicate ReshareRefused(p: Params, s: EpochState, names: seq<string>, t: int) {
    || |names| == 0 || t < 1 || t > |names|
    || !Complete(s)
    || !Accepts(TableOf(p, s), s.threshold, Points(|names|), t)
  }

  ghost predicate ResharePanics(p: Params, s: EpochState, names: seq<string>, t: int, data: seq<Byte>, pos: nat)
    requires p.r.q > 0 && !ReshareRefused(p, s, names, t)
  {
    || !DistinctMod(Enumerate(TableOf(p, s).Keys)[..s.threshold], p.r.q)
    || DrawDealers(data, pos, p.r.q, s.threshold, Dim(TableOf(p, s)), t - 1, p.r.n).None?
    || |names| >= p.r.q
  }

  /** What the stream went into: first every coefficient of the dealing, then the seeds and MAC keys of the new records. */
  ghost predicate DrawnFor(p: Params, s: EpochState, names: seq<string>, t: int, data: seq<Byte>, pos: nat, x: Dealing, shares: map<string, KeyShare>)
    requires p.r.q > 0 && !ReshareRefused(p, s, names, t)
  {
    var drawn := DrawDealers(data, pos, p.r.q, s.threshold, Dim(TableOf(p, s)), t - 1, p.r.n);
    && drawn.Some? && x.draws == drawn.value.0 && RecordsDrawn(shares, |names|, data, drawn.value.1)
    && SharesOf(TableOf(p, s), s.threshold, t, x, p.r.n, p.r.q)
  }

  class KeyEra {
    const p: Params
    const eraID: nat
    const groupID: nat
    const groupKey: GroupKey
    var genesisEpoch: nat
    const suiteID: string
    var state: EpochState

    constructor (p: Params, eraID: nat, groupID: nat, groupKey: GroupKey, suiteID: string, state: EpochState)
      ensures this.p == p && Value() == EraValue(eraID, groupID, groupKey, 0, suiteID, state)
    {
      this.p, this.eraID, this.groupID, this.groupKey := p, eraID, groupID, groupKey;
      this.genesisEpoch, this.suiteID, this.state := 0, suiteID, state;
    }

    ghost function Value(): EraValue
      reads this
    {
      EraValue(eraID, groupID, groupKey, genesisEpoch, suiteID, state)
    }

    /** The kernel's input: each position's share in coefficient form, at its evaluation point. */
    method OldShares() returns (r: Reply<map<int, Share>>)
      ensures !r.Panicked? && (r.Done? <==> Complete(state))
      ensures r.Refused? ==> exists i :: 0 <= i < |state.validators| && state.validators[i] !in state.shares && r.error == MissingShare(state.validators[i])
      ensures r.Done? ==> r.value == TableOf(p, state)
    {
      hide Standardized;
      var table: map<int, Share> := map[];
      for i := 0 to |state.validators|
        invariant forall k :: 0 <= k < i ==> state.validators[k] in state.shares
        invariant forall j :: j in table <==> 1 <= j <= i
        invariant forall j :: j in table ==> table[j] == Standardized(p, state.shares[state.validators[j - 1]].skShare)
      {
        var v := state.validators[i];
        if v !in state.shares {
          return Refused(MissingShare(v));
        }
        table := table[i + 1 := Standardized(p, state.shares[v].skShare)];
      }
      assert table == TableOf(p, state);
      return Done(table);
    }

    /** Reshare. A refused or panicking call leaves the era as it was; a successful one replaces only the state, as
        Reshared says, so that under distinct names every secret the era shared stays shared. */
    method Reshare(newValidators: seq<string>, newThreshold: int, rs: ByteReader) returns (r: Reply<EpochState>, ghost x: Dealing)
      requires Standard(p) && Prime(p.r.q)
      modifies this`state, rs
      ensures !r.Done? ==> Value() == old(Value())
      ensures r.Refused? <==> ReshareRefused(p, old(state), newValidators, newThreshold)
      ensures !r.Refused? ==> (r.Panicked? <==> ResharePanics(p, old(state), newValidators, newThreshold, rs.data, old(rs.pos)))
      ensures r.Done? ==>
                && ResharedBy(p, old(Value()), Value(), x) && Reshared(p, old(Value()), Value()) && r.value == state
                && state == EpochState(old(state.keyEraID), suiteID, Next(old(state.generation)), 0, Next(old(state.epoch)),
                                       newValidators, newThreshold, state.shares)
                && DrawnFor(p, old(state), newValidators, newThreshold, rs.data, old(rs.pos), x, state.shares)
      ensures r.Done? && NoDuplicates(newValidators) ==> Complete(state) && Keyed(state) && HoldShares(p, state, x.out)
      ensures r.Done? && NoDuplicates(newValidators) ==> forall secret :: Inv(p, old(Value()), secret) ==> Inv(p, Value(), secret)
    {
      hide IsTransform, Inv, Installed, IsWeights, ReshareStep, Uniform, PartsOk, Filed, DrawDealers, Enumerate, DistinctMod, NoDuplicates, Dim, Standardized, Paired, RecordsDrawn, Keyed, SharesOf, VApply;
      x := Dealing(map[], [], [], [], []);
      var K := |newValidators|;
      if K == 0 {
        return Refused(EmptyValidators), x;
      }
      if newThreshold < 1 || newThreshold > K {
        return Refused(InvalidThreshold), x;
      }
      var table := OldShares();
      if table.Refused? {
        return Refused(table.error), x;
      }
      TableRectangular(p, state);
      var dealt;
      dealt, x := Redeal(p, table.value, state.threshold, K, newThreshold, rs);
      if dealt.Refused? {
        return Refused(dealt.error), x;
      }
      if dealt.Panicked? {
        return Panicked, x;
      }
      var (out, lambdas) := dealt.value;
      ghost var before := Value();
      state := NextState(p, state, suiteID, groupKey, newValidators, newThreshold, out, lambdas, rs);
      assert ResharedBy(p, before, Value(), x);
      ReshareKeepsAll(p, before, Value());
      InstalledKeyed(p, before, Value(), x);
      return Done(state), x;
    }

    /** Reanchor's last two assignments: the new era starts one epoch after the old one. */
    method StartAt(epoch: nat)
      modifies this
      ensures Value() == old(Value()).(genesisEpoch := epoch, state := old(state).(epoch := epoch))
    {
      genesisEpoch := epoch;
      state := state.(epoch := epoch);
    }
  }

  lemma TableRectangular(p: Params, s: EpochState)
    requires Complete(s)
    ensures forall id, k :: id in TableOf(p, s) && 0 <= k < |TableOf(p, s)[id]| ==> |TableOf(p, s)[id][k]| == p.r.n
  {
    forall id | id in TableOf(p, s) ensures forall k :: 0 <= k < |TableOf(p, s)[id]| ==> |TableOf(p, s)[id][k]| == p.r.n {
      assert TableOf(p, s)[id] == ShareAtPoint(p, s, id);
    }
  }

  lemma InstalledBy(p: Params, s: EpochState, out: map<int, Share>, w: seq<int>, gk: GroupKey, parts: seq<KeyShare>)
    requires |parts| == |s.validators| && Filed(s.validators, parts, s.shares) && PartsOk(p, parts, out, w, gk)
    ensures Installed(p, s, out, w, gk)
  {
    hide Filed, PartsOk;
  }

  /** Under distinct names the new committee holds complete and symmetric pairwise material, whatever the old one held. */
  lemma InstalledKeyed(p: Params, a: EraValue, b: EraValue, x: Dealing)
    requires p.r.q > 0 && ResharedBy(p, a, b, x)
    ensures NoDuplicates(b.state.validators) ==> Complete(b.state) && Keyed(b.state) && HoldShares(p, b.state, x.out)
  {
    hide Installed, IsWeights, Paired, Keyed, ReshareStep, VApply;
    if NoDuplicates(b.state.validators) {
      InstalledIndexed(p, b.state, x.out, x.lambdas, a.groupKey);
      PairedKeyed(b.state);
      InstalledParts(p, b.state, x.out, x.lambdas, a.groupKey);
    }
  }

  lemma ReshareKeepsAll(p: Params, a: EraValue, b: EraValue)
    requires Standard(p) && Prime(p.r.q) && Reshared(p, a, b)
    ensures NoDuplicates(b.state.validators) ==> forall secret :: Inv(p, a, secret) ==> Inv(p, b, secret)
  {
    hide IsTransform, Inv, Reshared;
    if NoDuplicates(b.state.validators) {
      forall secret | Inv(p, a, secret) ensures Inv(p, b, secret) {
        ReshareKeeps(p, a, b, secret);
      }
    }
  }

  /** In a valid era Reshare refuses exactly an empty validator list or a threshold outside 1, ..., n. */
  lemma ValidEraRefuses(p: Params, a: EraValue, secret: Share, names: seq<string>, t: int)
    requires Inv(p, a, secret) && p.N >= 1
    ensures ReshareRefused(p, a.state, names, t) <==> |names| == 0 || t < 1 || t > |names|
  {
    hide IsWeights, RecordsOk, KeyOf, SlotSharing;
    if 1 <= t <= |names| {
      var table := TableOf(p, a.state);
      DimOfTable(p, a.state, secret);
      assert table.Keys == Elements(Points(|a.state.validators|)) by { PointKeys(table, |a.state.validators|); }
      NoDuplicatesSize(Points(|a.state.validators|));
      assert |table| == |table.Keys|;
    }
  }

  /** In a valid era Reshare panics exactly when the new committee is as large as q or the stream holds fewer values below
      q than the dealing has coefficients: threshold dealers, p.N slots of t - 1 fresh polynomials each. */
  lemma ValidEraPanics(p: Params, a: EraValue, secret: Share, names: seq<string>, t: int, data: seq<Byte>, pos: nat)
    requires Standard(p) && Inv(p, a, secret) && p.N >= 1 && 1 <= t <= |names| && pos <= |data|
    ensures !ReshareRefused(p, a.state, names, t)
    ensures ResharePanics(p, a.state, names, t, data, pos) <==>
            |names| >= p.r.q || |Streams.Kept(data, pos, |data|, p.r.q)| < a.state.threshold * (p.N * ((t - 1) * p.r.n))
  {
    hide IsWeights, RecordsOk, KeyOf, SlotSharing, Keyed, IsTransform, DistinctMod, Streams.Kept, Streams.Consumed, Streams.Flat, DrawDealers;
    ValidEraRefuses(p, a, secret, names, t);
    var s, n := a.state, |a.state.validators|;
    var table := TableOf(p, s);
    DimOfTable(p, s, secret);
    PointKeys(table, n);
    EnumerateCanonical(Points(n));
    assert Points(n)[..s.threshold] == Points(s.threshold);
    PointsDistinct(s.threshold, p.r.q);
    Streams.DealersTook(data, pos, p.r.q, s.threshold, p.N, t - 1, p.r.n);
    CountAtLeast(data, pos, p.r.q, s.threshold, p.N, t - 1, p.r.n);
  }

  /** A dealing that succeeds leaves no doubt that the stream held enough values. */
  lemma CountAtLeast(data: seq<Byte>, pos: nat, q: nat, dealers: nat, depth: nat, rows: nat, cols: nat)
    requires q > 0 && pos <= |data|
    ensures DrawDealers(data, pos, q, dealers, depth, rows, cols).Some? ==>
              |Streams.Kept(data, pos, |data|, q)| >= dealers * (depth * (rows * cols))
  {
    hide Streams.Kept, Streams.Flat, DrawDealers;
    Streams.DealersTook(data, pos, q, dealers, depth, rows, cols);
    var r := DrawDealers(data, pos, q, dealers, depth, rows, cols);
    if r.Some? {
      Streams.KeptBehind(data, pos, r.value.1, q, Streams.Flat(r.value.0));
    }
  }

  lemma PointKeys(m: map<int, Share>, n: nat)
    requires forall j :: j in m <==> 1 <= j <= n
    ensures m.Keys == Elements(Points(n)) && NoDuplicates(Points(n))
  {
    forall j | j in m ensures j in Elements(Points(n)) {
      assert Points(n)[j - 1] == j;
    }
  }

  // ----- bootstrap -----------------------------------------------------------------

  /** What the samplers yield from the ceremony's entropy: the matrix, the secret in coefficient form, the noise. */
  datatype Material = Material(A: Mat, s: Share, e: Vec)

  ghost predicate IsMaterial(p: Params, m: Material) {
    IsMat(p.r, m.A, p.M, p.N) && Shape(m.s, p.N, p.r.n) && Reduced(m.s, p.r.q) && |m.e| == p.M
  }

  /** The key made with this very noise. */
  ghost predicate KeyWith(p: Params, gk: GroupKey, secret: Share, e: Vec) {
    exists b :: IsKey(p, gk.A, VApply(p.r, p.t.forward, secret), e, b, gk.bTilde)
  }

  /** genGroupKey: b = A s + e, rounded. */
  method GenGroupKey(p: Params, m: Material) returns (gk: GroupKey)
    requires Standard(p) && IsMaterial(p, m)
    ensures gk.A == m.A && KeyOf(p, gk, m.s) && KeyWith(p, gk, m.s, m.e)
  {
    hide IsTransform, Elem, MatVec, VAdd, VApply, RoundVec;
    assert forall i :: 0 <= i < |m.A| ==> IsVec(p.r, m.A[i], p.N);
    var sNtt := VApply(p.r, p.t.forward, m.s);
    var product := MatrixVectorMul(p.r, m.A, sNtt);
    var b := VectorAdd(p.r, product, m.e);
    var bTilde := RoundKey(p, b);
    gk := GroupKey(m.A, bTilde);
    assert IsKey(p, gk.A, VApply(p.r, p.t.forward, m.s), m.e, b, gk.bTilde);
  }

  /** A freshly opened era: counters at zero. */
  ghost predicate Opened(a: EraValue, eraID: nat, groupID: nat, suiteID: string, names: seq<string>, t: int) {
    && a.eraID == eraID == a.state.keyEraID && a.groupID == groupID && a.suiteID == suiteID == a.state.suiteID
    && a.genesisEpoch == a.state.epoch == a.state.generation == a.state.rollbackFrom == 0
    && a.state.validators == names && a.state.threshold == t
  }

  /** Common to both bootstraps: the key and a sharing of its secret become an era. */
  method OpenEra(p: Params, gk: GroupKey, out: map<int, Share>, t: int, names: seq<string>, eraID: nat, groupID: nat, suiteID: string,
                 lambdas: seq<int>, seeds: map<int, seq<Str>>, macKeys: seq<map<int, Str>>, ghost secret: Share) returns (era: KeyEra)
    requires Standard(p) && 1 <= t <= |names| < p.r.q && eraID < WORD
    requires (forall i :: 1 <= i <= |names| ==> i in out) && AllReduced(out, p.N, p.r.n, p.r.q)
    requires IsSharing(out, t, secret, p.N, p.r.n, p.r.q) && Reduced(secret, p.r.q) && KeyOf(p, gk, secret)
    requires |lambdas| == |names| && IsWeights(Points(|names|), lambdas, p.r.q)
    requires SquareTable(seeds, |names|) && MacTable(macKeys, |names|)
    ensures fresh(era) && era.p == p && Opened(era.Value(), eraID, groupID, suiteID, names, t)
    ensures era.Value() == EraValue(eraID, groupID, gk, 0, suiteID, EpochState(eraID, suiteID, 0, 0, 0, names, t, era.state.shares))
    ensures CarriesMaterial(era.state.shares, seeds, macKeys) && era.groupKey == gk
    ensures NoDuplicates(names) ==> HoldShares(p, era.state, out)
    ensures NoDuplicates(names) ==> Inv(p, era.Value(), secret)
  {
    hide IsTransform, IsSharing, IsWeights, Installed, PartsOk, Filed, KeyOf, AllReduced, Reduced, Committed, CarriesMaterial, Paired, SquareTable, VApply;
    TableSize(macKeys, |names|);
    var shares;
    ghost var parts;
    shares, parts := AssembleShares(p, names, out, lambdas, seeds, macKeys, gk);
    var state := EpochState(eraID, suiteID, 0, 0, 0, names, t, shares);
    InstalledBy(p, state, out, lambdas, gk, parts);
    PairedBy(state, seeds, macKeys);
    era := new KeyEra(p, eraID, groupID, gk, suiteID, state);
    if NoDuplicates(names) {
      InstalledCommitted(p, state, out, lambdas, gk, secret);
      InstalledParts(p, state, out, lambdas, gk);
    }
  }

  /** Go's map from position to share, keyed by evaluation point. */
  method KeyByPoint(shares: map<int, Share>, n: nat) returns (out: map<int, Share>)
    requires forall i :: 0 <= i < n ==> i in shares
    ensures forall j :: j in out <==> 1 <= j <= n
    ensures forall j :: j in out ==> j - 1 in shares && out[j] == shares[j - 1]
  {
    out := map[];
    for i := 0 to n
      invariant forall j :: j in out <==> 1 <= j <= i
      invariant forall j :: j in out ==> j - 1 in shares && out[j] == shares[j - 1]
    {
      assert i in shares;
      out := out[i + 1 := shares[i]];
    }
  }

  lemma DealtReduced(p: Params, shares: map<int, Share>, out: map<int, Share>, secret: Share, draws: Cube, n: nat, t: nat)
    requires Shape(secret, p.N, p.r.n) && Shamir.DrawsFit(draws, p.N, p.r.n, t)
    requires Shamir.Dealt(shares, secret, draws, n, t, p.N, p.r.n, p.r.q)
    requires forall j :: j in out ==> j - 1 in shares && out[j] == shares[j - 1]
    ensures AllReduced(out, p.N, p.r.n, p.r.q)
  {
    forall j | j in out ensures Shape(out[j], p.N, p.r.n) && Reduced(out[j], p.r.q) {
      var i := j - 1;
      assert i in shares && Shamir.ShareAt(shares[i], secret, draws, i + 1, t, p.N, p.r.n, p.r.q);
    }
  }

  /** What the dealer gives position j - 1: the secret plus the drawn coefficients times the powers of j, in every slot. */
  ghost predicate DealtByDraws(p: Params, out: map<int, Share>, secret: Share, draws: Cube, n: nat, t: int) {
    && t >= 1 && p.r.q > 0 && Shape(secret, p.N, p.r.n) && Shamir.DrawsFit(draws, p.N, p.r.n, t)
    && (forall j :: j in out <==> 1 <= j <= n) && AllShaped(out, p.N, p.r.n)
    && forall j, v, k :: j in out && 0 <= v < p.N && 0 <= k < p.r.n ==> out[j][v][k] == Shamir.SlotValue(secret, draws, j, v, k, t) % p.r.q
  }

  lemma PointsDealt(p: Params, shares: map<int, Share>, out: map<int, Share>, secret: Share, draws: Cube, n: nat, t: nat)
    requires p.r.q > 0 && Shape(secret, p.N, p.r.n) && Shamir.DrawsFit(draws, p.N, p.r.n, t)
    requires Shamir.AreValues(shares, secret, draws, n, t, p.N, p.r.n, p.r.q)
    requires (forall j :: j in out <==> 1 <= j <= n) && forall j :: j in out ==> j - 1 in shares && out[j] == shares[j - 1]
    ensures DealtByDraws(p, out, secret, draws, n, t)
  {
    hide Shamir.SlotValue;
    forall j | j in out ensures Shape(out[j], p.N, p.r.n) {
      assert Shape(shares[j - 1], p.N, p.r.n);
    }
    forall j, v, k | j in out && 0 <= v < p.N && 0 <= k < p.r.n
      ensures out[j][v][k] == Shamir.SlotValue(secret, draws, j, v, k, t) % p.r.q
    {
      var i := j - 1;
      assert shares[i][v][k] == Shamir.SlotValue(secret, draws, i + 1, v, k, t) % p.r.q;
    }
  }

  /** bootstrapTrustedDealerImpl. The material is absent when the entropy read failed. */
  method BootstrapTrustedDealer(p: Params, suite: Option<string>, t: int, names: seq<string>, groupID: nat, eraID: nat,
                                material: Option<Material>, draws: Cube, entropy: ByteReader) returns (r: Reply<KeyEra>, ghost dealt: map<int, Share>)
    requires Standard(p) && Prime(p.r.q) && eraID < WORD && (material.Some? ==> IsMaterial(p, material.value))
    requires t >= 1 ==> Shamir.DrawsFit(draws, p.N, p.r.n, t)
    modifies entropy
    ensures r.Refused? <==> |names| == 0 || t < 1 || t > |names| || material.None?
    ensures r.Panicked? <==> 1 <= t <= |names| && material.Some? && |names| >= p.r.q
    ensures r.Done? ==>
              && fresh(r.value) && r.value.p == p && Opened(r.value.Value(), eraID, groupID, Resolve(suite), names, t)
              && r.value.Value() == EraValue(eraID, groupID, r.value.groupKey, 0, Resolve(suite),
                                             EpochState(eraID, Resolve(suite), 0, 0, 0, names, t, r.value.state.shares))
              && r.value.groupKey.A == material.value.A && KeyWith(p, r.value.groupKey, material.value.s, material.value.e)
              && (NoDuplicates(names) ==> Inv(p, r.value.Value(), material.value.s))
              && DealtByDraws(p, dealt, material.value.s, draws, |names|, t)
              && (NoDuplicates(names) ==> HoldShares(p, r.value.state, dealt))
              && RecordsDrawn(r.value.state.shares, |names|, entropy.data, old(entropy.pos))
  {
    hide IsTransform, IsWeights, KeyOf, IsSharing, AllReduced, Inv, Opened, Shape, Reduced, Elem, RecordsDrawn, SeedsDrawn, MacsDrawn, CarriesMaterial, KeyWith, HoldShares, DealtByDraws;
    dealt := map[];
    var n := |names|;
    if n == 0 {
      return Refused(EmptyValidators), dealt;
    }
    if t < 1 || t > n {
      return Refused(InvalidThreshold), dealt;
    }
    if material.None? {
      return Refused(EntropyFailed), dealt;
    }
    var s := material.value.s;
    var gk := GenGroupKey(p, material.value);
    var skShares := Shamir.ShamirSecretSharingGeneral(s, t, n, draws, p.N, p.r.n, p.r.q);
    var seeds, macKeys := DerivePairwiseMaterial(n, entropy);
    var lambdas := FullCommitteeLagrange(n, p.r.q);
    if lambdas.None? {
      return Panicked, dealt;
    }
    var out := KeyByPoint(skShares, n);
    Shamir.DealtIsSharing(skShares, out, s, draws, n, t, p.N, p.r.n, p.r.q);
    DealtReduced(p, skShares, out, s, draws, n, t);
    dealt := out;
    PointsDealt(p, skShares, out, s, draws, n, t);
    DrawnSquare(seeds, n, entropy.data, old(entropy.pos));
    var era := OpenEra(p, gk, out, t, names, eraID, groupID, Resolve(suite), lambdas.value, seeds, macKeys, s);
    CarriedDrawn(era.state.shares, seeds, macKeys, n, entropy.data, old(entropy.pos));
    return Done(era), dealt;
  }

  /** What a Pedersen ceremony yields once every recipient's Round 3 accepted: aggregate shares that are values at
      1, ..., n of polynomials of degree below t, the flooding noise, the bytes of the shares sealed between each pair and
      of each party's own aggregate, and the suite's hash functions. */
  datatype Ceremony = Ceremony(A: Mat, shares: map<int, Share>, noises: seq<Vec>, derivation: Derivation, inputs: seq<map<int, Str>>, own: seq<Str>)

  ghost predicate IsCeremony(p: Params, x: Ceremony, t: int, n: nat, secret: Share)
    requires t >= 0
  {
    && IsMat(p.r, x.A, p.M, p.N) && (forall i :: 1 <= i <= n ==> i in x.shares) && AllReduced(x.shares, p.N, p.r.n, p.r.q)
    && IsSharing(x.shares, t, secret, p.N, p.r.n, p.r.q) && Reduced(secret, p.r.q)
    && |x.noises| == n == |x.own| && AllLength(x.noises, p.M) && SharesOpened(x.inputs, n)
  }

  /** A record's seeds come from the secrets of their pairs, its MAC keys from those of its position's pairs, for exactly
      the other positions. */
  ghost predicate RecordDerived(ks: KeyShare, n: nat, x: Ceremony)
    requires SharesOpened(x.inputs, n) && |x.own| == n
  {
    && 0 <= ks.index < n && SeedsDerived(ks.seeds, x.derivation, x.inputs, x.own, n, n)
    && (forall j :: j in ks.macKeys <==> 0 <= j < n && j != ks.index)
    && forall j :: j in ks.macKeys ==> ks.macKeys[j] == x.derivation.prf(PairKex(x.derivation, x.inputs, n, ks.index, j), Ascii("mac"))
  }

  ghost predicate RecordsDerived(shares: map<string, KeyShare>, n: nat, x: Ceremony)
    requires SharesOpened(x.inputs, n) && |x.own| == n
  {
    forall v :: v in shares ==> RecordDerived(shares[v], n, x)
  }

  lemma CarriedDerived(shares: map<string, KeyShare>, seeds: map<int, seq<Str>>, macKeys: seq<map<int, Str>>, n: nat, x: Ceremony)
    requires SharesOpened(x.inputs, n) && |x.own| == n && CarriesMaterial(shares, seeds, macKeys)
    requires SeedsDerived(seeds, x.derivation, x.inputs, x.own, n, n) && MacTable(macKeys, n) && MacsDerived(macKeys, x.derivation, x.inputs, n)
    ensures RecordsDerived(shares, n, x)
  {
    hide SeedsDerived, PairKex, Ascii;
  }

  lemma DerivedSquare(seeds: map<int, seq<Str>>, n: nat, x: Ceremony)
    requires SharesOpened(x.inputs, n) && |x.own| == n && SeedsDerived(seeds, x.derivation, x.inputs, x.own, n, n)
    ensures SquareTable(seeds, n)
  {
    hide SeedSource, SeedLabel;
    forall i | 0 <= i < n ensures |seeds[i]| == n {
      assert SeedRowDerived(seeds[i], x.derivation, x.inputs, x.own, n, i, n);
    }
  }

  /** BootstrapPedersen from the opened contributions on: the ceremony is absent when the entropy read failed or
      a dealer was blamed. */
  method BootstrapPedersen(p: Params, suite: Option<string>, t: int, names: seq<string>, groupID: nat, eraID: nat,
                           ceremony: Option<Ceremony>, ghost secret: Share) returns (r: Reply<KeyEra>)
    requires Standard(p) && Prime(p.r.q) && eraID < WORD
    requires t >= 0 && ceremony.Some? ==> IsCeremony(p, ceremony.value, t, |names|, secret)
    ensures r.Refused? <==> |names| < 2 || t < 1 || t >= |names| || ceremony.None?
    ensures r.Panicked? <==> 1 <= t < |names| && ceremony.Some? && |names| >= p.r.q
    ensures r.Done? ==>
              && fresh(r.value) && r.value.p == p && Opened(r.value.Value(), eraID, groupID, Resolve(suite), names, t)
              && r.value.Value() == EraValue(eraID, groupID, r.value.groupKey, 0, Resolve(suite),
                                             EpochState(eraID, Resolve(suite), 0, 0, 0, names, t, r.value.state.shares))
              && r.value.groupKey.A == ceremony.value.A && KeyWith(p, r.value.groupKey, secret, VSum(p.r, ceremony.value.noises, p.M))
              && (NoDuplicates(names) ==> Inv(p, r.value.Value(), secret))
              && (NoDuplicates(names) ==> HoldShares(p, r.value.state, ceremony.value.shares))
              && RecordsDerived(r.value.state.shares, |names|, ceremony.value)
  {
    hide IsTransform, IsWeights, IsSharing, AllReduced, Inv, Opened, Reduced, Elem, IsKey, VApply, SeedsDerived, MacsDerived, RecordsDerived, CarriesMaterial, HoldShares;
    var n := |names|;
    if n == 0 {
      return Refused(EmptyValidators);
    }
    if t < 1 || t > n {
      return Refused(InvalidThreshold);
    }
    if n < 2 || t >= n {
      return Refused(PedersenShape);
    }
    if ceremony.None? {
      return Refused(EntropyFailed);
    }
    var x := ceremony.value;
    var lambdas := FullCommitteeLagrange(n, p.r.q);
    if lambdas.None? {
      return Panicked;
    }
    var bTilde := AggregateKey(p, x.A, x.shares, t, secret, n, lambdas.value, x.noises);
    var gk := GroupKey(x.A, bTilde);
    assert KeyOf(p, gk, secret) by {
      var e := VSum(p.r, x.noises, p.M);
      var b :| IsKey(p, x.A, VApply(p.r, p.t.forward, secret), e, b, bTilde);
      KeyWitness(p, gk, secret, e, b);
    }
    var seeds, macKeys := DerivePairwiseFromShares(x.derivation, x.inputs, x.own, n);
    DerivedSquare(seeds, n, x);
    var era := OpenEra(p, gk, x.shares, t, names, eraID, groupID, Resolve(suite), lambdas.value, seeds, macKeys, secret);
    CarriedDerived(era.state.shares, seeds, macKeys, n, x);
    return Done(era);
  }

  lemma KeyWitness(p: Params, gk: GroupKey, secret: Share, e: Vec, b: Vec)
    requires IsKey(p, gk.A, VApply(p.r, p.t.forward, secret), e, b, gk.bTilde)
    ensures KeyOf(p, gk, secret)
  {
    hide IsKey;
  }

  // ----- reanchor ------------------------------------------------------------------

  /** The suite Reanchor picks: it inherits the previous one exactly when that is one of the two known suites. */
  function InheritedSuite(prev: Option<string>): (id: string)
    ensures prev.Some? ==> (id == prev.value <==> prev.value == LEGACY_SUITE || prev.value == DEFAULT_SUITE)
    ensures prev.None? ==> id == DEFAULT_SUITE
  {
    if prev == Some(LEGACY_SUITE) then LEGACY_SUITE else DEFAULT_SUITE
  }

  /** The new era's lineage, whatever the names: the next era id, starting one epoch after the old state, counters fresh. */
  ghost predicate Follows(prev: EraValue, next: EraValue, groupID: nat, suiteID: string, names: seq<string>, t: int) {
    && next.eraID == Next(prev.eraID) == next.state.keyEraID && next.groupID == groupID
    && next.suiteID == suiteID == next.state.suiteID
    && next.genesisEpoch == next.state.epoch == Next(prev.state.epoch)
    && next.state.generation == next.state.rollbackFrom == 0
    && next.state.validators == names && next.state.threshold == t
  }

  /** A new era opened from scratch and moved to start after the previous one is what Reanchored describes. */
  lemma OpenedIsReanchored(p: Params, prev: EraValue, first: EraValue, groupID: nat, suiteID: string, names: seq<string>, t: int,
                           next: EraValue, secret: Share)
    requires Opened(first, Next(prev.eraID), groupID, suiteID, names, t) && Inv(p, first, secret)
    requires next == first.(genesisEpoch := Next(prev.state.epoch), state := first.state.(epoch := Next(prev.state.epoch)))
    ensures Inv(p, next, secret) && Reanchored(p, prev, next)
  {
    hide IsWeights, IsSharing, KeyOf, RecordsOk, Next, Reduced, Keyed;
    SameTable(p, first.state, next.state);
    ModUnique(next.genesisEpoch, 0, next.genesisEpoch, WORD);
    assert Inv(p, next, secret);
  }

  lemma SameHoldings(p: Params, s: EpochState, s': EpochState, out: map<int, Share>)
    requires s'.validators == s.validators && s'.shares == s.shares && HoldShares(p, s, out)
    ensures HoldShares(p, s', out)
  {
    hide VApply;
    forall i | 0 <= i < |s.validators| ensures HoldsShare(p, s', out, i) {
      assert HoldsShare(p, s, out, i);
    }
  }

  lemma SameTable(p: Params, s: EpochState, s': EpochState)
    requires Complete(s) && s'.validators == s.validators && s'.shares == s.shares
    ensures Complete(s') && TableOf(p, s') == TableOf(p, s)
    ensures forall w, gk :: RecordsOk(p, s, w, gk) ==> RecordsOk(p, s', w, gk)
    ensures Keyed(s) ==> Keyed(s')
  {
    hide Standardized, SquareTable, SameMaterial;
    if Keyed(s) {
      forall i | 0 <= i < |s.validators| ensures KeyedAt(s', i) {
        assert KeyedAt(s, i);
      }
    }
    forall j | j in TableOf(p, s) ensures TableOf(p, s')[j] == TableOf(p, s)[j] {
    }
  }

  /** ReanchorTrustedDealerWithSuite. */
  method ReanchorTrustedDealer(prev: KeyEra?, p: Params, suite: Option<string>, t: int, names: seq<string>, groupID: nat,
                               material: Option<Material>, draws: Cube, entropy: ByteReader) returns (r: Reply<KeyEra>, ghost dealt: map<int, Share>)
    requires Standard(p) && Prime(p.r.q) && (material.Some? ==> IsMaterial(p, material.value))
    requires t >= 1 ==> Shamir.DrawsFit(draws, p.N, p.r.n, t)
    modifies entropy
    ensures r.Refused? <==> |names| == 0 || t < 1 || t > |names| || material.None?
    ensures r.Done? ==> r.value.suiteID == Resolve(suite) && r.value.state.validators == names
    ensures r.Done? && prev == null ==> Opened(r.value.Value(), 0, groupID, Resolve(suite), names, t)
    ensures r.Done? && prev != null ==> Follows(prev.Value(), r.value.Value(), groupID, Resolve(suite), names, t)
    ensures r.Done? && NoDuplicates(names) ==> Inv(p, r.value.Value(), material.value.s)
    ensures r.Done? ==>
              var (eraID, epoch) := if prev == null then (0, 0) else (Next(prev.eraID), Next(prev.state.epoch));
              r.value.Value() == EraValue(eraID, groupID, r.value.groupKey, epoch, Resolve(suite),
                                          EpochState(eraID, Resolve(suite), 0, 0, epoch, names, t, r.value.state.shares))
    ensures r.Done? ==>
              && r.value.groupKey.A == material.value.A && KeyWith(p, r.value.groupKey, material.value.s, material.value.e)
              && DealtByDraws(p, dealt, material.value.s, draws, |names|, t)
              && (NoDuplicates(names) ==> HoldShares(p, r.value.state, dealt))
              && RecordsDrawn(r.value.state.shares, |names|, entropy.data, old(entropy.pos))
    ensures r.Done? && NoDuplicates(names) && prev != null ==> Reanchored(p, prev.Value(), r.value.Value())
  {
    hide Inv, IsTransform, IsMaterial, RecordsDrawn, KeyWith, DealtByDraws, HoldShares;
    var eraID, epoch: nat := 0, 0;
    if prev != null {
      eraID, epoch := Next(prev.eraID), Next(prev.state.epoch);
    }
    r, dealt := BootstrapTrustedDealer(p, suite, t, names, groupID, eraID, material, draws, entropy);
    if r.Done? {
      ghost var first := r.value.Value();
      r.value.StartAt(epoch);
      if NoDuplicates(names) {
        SameHoldings(p, first.state, r.value.state, dealt);
      }
      if prev != null && NoDuplicates(names) {
        OpenedIsReanchored(p, prev.Value(), first, groupID, Resolve(suite), names, t, r.value.Value(), material.value.s);
      }
    }
  }

  /** ReanchorPedersenWithSuite. */
  method ReanchorPedersen(prev: KeyEra?, p: Params, suite: Option<string>, t: int, names: seq<string>, groupID: nat,
                          ceremony: Option<Ceremony>, ghost secret: Share) returns (r: Reply<KeyEra>)
    requires Standard(p) && Prime(p.r.q)
    requires t >= 0 && ceremony.Some? ==> IsCeremony(p, ceremony.value, t, |names|, secret)
    ensures r.Refused? <==> |names| < 2 || t < 1 || t >= |names| || ceremony.None?
    ensures r.Done? ==> r.value.suiteID == Resolve(suite) && r.value.state.validators == names
    ensures r.Done? && prev == null ==> Opened(r.value.Value(), 0, groupID, Resolve(suite), names, t)
    ensures r.Done? && prev != null ==> Follows(prev.Value(), r.value.Value(), groupID, Resolve(suite), names, t)
    ensures r.Done? && NoDuplicates(names) ==> Inv(p, r.value.Value(), secret)
    ensures r.Done? ==>
              var (eraID, epoch) := if prev == null then (0, 0) else (Next(prev.eraID), Next(prev.state.epoch));
              r.value.Value() == EraValue(eraID, groupID, r.value.groupKey, epoch, Resolve(suite),
                                          EpochState(eraID, Resolve(suite), 0, 0, epoch, names, t, r.value.state.shares))
    ensures r.Done? ==>
              && r.value.groupKey.A == ceremony.value.A && KeyWith(p, r.value.groupKey, secret, VSum(p.r, ceremony.value.noises, p.M))
              && (NoDuplicates(names) ==> HoldShares(p, r.value.state, ceremony.value.shares))
              && RecordsDerived(r.value.state.shares, |names|, ceremony.value)
    ensures r.Done? && NoDuplicates(names) && prev != null ==> Reanchored(p, prev.Value(), r.value.Value())
  {
    hide Inv, IsTransform, RecordsDerived, KeyWith, HoldShares;
    var eraID, epoch: nat := 0, 0;
    if prev != null {
      eraID, epoch := Next(prev.eraID), Next(prev.state.epoch);
    }
    r := BootstrapPedersen(p, suite, t, names, groupID, eraID, ceremony, secret);
    if r.Done? {
      ghost var first := r.value.Value();
      r.value.StartAt(epoch);
      if NoDuplicates(names) {
        SameHoldings(p, first.state, r.value.state, ceremony.value.shares);
      }
      if prev != null && NoDuplicates(names) {
        OpenedIsReanchored(p, prev.Value(), first, groupID, Resolve(suite), names, t, r.value.Value(), secret);
      }
    }
  }

  /** ReanchorPedersen without a suite: the previous era's suite is carried over when it is a known one. */
  method ReanchorInheriting(prev: KeyEra?, p: Params, t: int, names: seq<string>, groupID: nat,
                            ceremony: Option<Ceremony>, ghost secret: Share) returns (r: Reply<KeyEra>)
    requires Standard(p) && Prime(p.r.q)
    requires t >= 0 && ceremony.Some? ==> IsCeremony(p, ceremony.value, t, |names|, secret)
    ensures r.Refused? <==> |names| < 2 || t < 1 || t >= |names| || ceremony.None?
    ensures r.Done? && prev != null ==> (r.value.suiteID == prev.suiteID <==> prev.suiteID == LEGACY_SUITE || prev.suiteID == DEFAULT_SUITE)
    ensures r.Done? && NoDuplicates(names) && prev != null ==> Reanchored(p, prev.Value(), r.value.Value())
  {
    var suite := InheritedSuite(if prev == null then None else Some(prev.suiteID));
    r := ReanchorPedersen(prev, p, Some(suite), t, names, groupID, ceremony, secret);
  }
}
