/** Pairwise tables of a committee: a seed for every ordered pair, a MAC key for every pair of different parties. */
module PairTables {
  import opened Sign

  /** A row of seeds for every party, a seed for every party in each row. */
  ghost predicate SquareTable(seeds: map<int, seq<Str>>, K: nat) {
    (forall i :: i in seeds <==> 0 <= i < K) && forall i :: 0 <= i < K ==> |seeds[i]| == K
  }

  /** Keys are present for every other party, and both ends of a pair hold the same one. */
  ghost predicate MacTable(macKeys: seq<map<int, Str>>, K: nat) {
    && |macKeys| == K
    && (forall i, j :: 0 <= i < K ==> (j in macKeys[i] <==> 0 <= j < K && j != i))
    && forall i, j :: 0 <= i < K && 0 <= j < K && i != j ==> macKeys[i][j] == macKeys[j][i]
  }

  /** The pairs (a, b) with a < i, or a == i and b < j, have been given a key. */
  ghost predicate PairDone(a: int, b: int, i: nat, j: nat) {
    var lo, hi := if a < b then a else b, if a < b then b else a;
    a != b && 0 <= lo && (lo < i || (lo == i && hi < j))
  }

  ghost predicate MacsSoFar(macKeys: seq<map<int, Str>>, K: nat, i: nat, j: nat) {
    && |macKeys| == K
    && (forall a, b :: 0 <= a < K ==> (b in macKeys[a] <==> b < K && PairDone(a, b, i, j)))
    && forall a, b :: 0 <= a < K && 0 <= b < K && PairDone(a, b, i, j) ==> macKeys[a][b] == macKeys[b][a]
  }

  lemma NoMacs(macKeys: seq<map<int, Str>>, K: nat)
    requires |macKeys| == K && forall a :: 0 <= a < K ==> macKeys[a] == map[]
    ensures MacsSoFar(macKeys, K, 0, 1)
  {
  }

  lemma AllPairsDone(macKeys: seq<map<int, Str>>, K: nat)
    requires MacsSoFar(macKeys, K, K, K + 1)
    ensures MacTable(macKeys, K)
  {
    forall i, j | 0 <= i < K ensures j in macKeys[i] <==> 0 <= j < K && j != i {
      assert 0 <= j < K && j != i ==> PairDone(i, j, K, K + 1);
    }
    forall i, j | 0 <= i < K && 0 <= j < K && i != j ensures macKeys[i][j] == macKeys[j][i] {
      assert PairDone(i, j, K, K + 1);
    }
  }

  ghost function WithPair(macKeys: seq<map<int, Str>>, i: nat, j: nat, key: Str): seq<map<int, Str>>
    requires i < j < |macKeys|
  {
    macKeys[i := macKeys[i][j := key]][j := macKeys[j][i := key]]
  }

  lemma MacsCell(macKeys: seq<map<int, Str>>, K: nat, i: nat, j: nat, key: Str)
    requires i < j < K && MacsSoFar(macKeys, K, i, j)
    ensures MacsSoFar(WithPair(macKeys, i, j, key), K, i, j + 1)
  {
    hide PairDone;
    PairNext(i, j);
    forall a, b ensures PairDone(a, b, i, j) <==> PairDone(b, a, i, j) {
      PairSymmetric(a, b, i, j);
    }
    var m := WithPair(macKeys, i, j, key);
    forall a, b | 0 <= a < K ensures b in m[a] <==> b < K && PairDone(a, b, i, j + 1) {
      assert b in m[a] <==> b in macKeys[a] || (a == i && b == j) || (a == j && b == i);
    }
    forall a, b | 0 <= a < K && 0 <= b < K && PairDone(a, b, i, j + 1) ensures b in m[a] && a in m[b] && m[a][b] == m[b][a] {
      if !((a == i && b == j) || (a == j && b == i)) {
        assert PairDone(a, b, i, j) && PairDone(b, a, i, j);
        assert b in macKeys[a] && a in macKeys[b];
      }
    }
  }

  lemma PairNext(i: nat, j: nat)
    requires i < j
    ensures forall a, b :: PairDone(a, b, i, j + 1) <==> PairDone(a, b, i, j) || (a == i && b == j) || (a == j && b == i)
  {
  }

  lemma PairSymmetric(a: int, b: int, i: nat, j: nat)
    ensures PairDone(a, b, i, j) <==> PairDone(b, a, i, j)
  {
  }

  lemma MacsNext(macKeys: seq<map<int, Str>>, K: nat, i: nat)
    requires i < K && MacsSoFar(macKeys, K, i, K)
    ensures MacsSoFar(macKeys, K, i + 1, i + 2)
  {
    forall a, b | 0 <= a < K && b < K ensures PairDone(a, b, i, K) <==> PairDone(a, b, i + 1, i + 2) {
    }
  }
}
