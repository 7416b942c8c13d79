/** Pairwise seeds and MAC keys of a Pedersen ceremony, derived from the shares each pair sealed to each
    other. */
module Pairwise {
  import opened Bytes
  import opened Sign
  import opened Transcripts
  import opened Wire
  import opened PairTables

  /** The two hash functions the derivation uses. */
  datatype Derivation = Derivation(transcript: seq<Part> -> Str, prf: (Str, Part) -> Str, suiteID: Part)

  /** inputs[r][d] holds the bytes of the share dealer d sealed to recipient r. */
  ghost predicate SharesOpened(inputs: seq<map<int, Str>>, n: nat) {
    |inputs| == n && forall r, d :: 0 <= r < n && 0 <= d < n ==> d in inputs[r]
  }

  /** The secret of a pair: the smaller index leads, so both ends form the same one. */
  function PairKex(x: Derivation, inputs: seq<map<int, Str>>, n: nat, i: nat, j: nat): (kex: Str)
    requires SharesOpened(inputs, n) && i < n && j < n
  {
    var a, b := if i > j then j else i, if i > j then i else j;
    x.transcript([Ascii("CORONA-BOOTSTRAP-PEDERSEN-PAIRWISE-SECRET-v1"), x.suiteID, inputs[b][a], inputs[a][b]])
  }

  lemma KexSymmetric(x: Derivation, inputs: seq<map<int, Str>>, n: nat, i: nat, j: nat)
    requires SharesOpened(inputs, n) && i < n && j < n
    ensures PairKex(x, inputs, n, i, j) == PairKex(x, inputs, n, j, i)
  {
  }

  /** Without hash collisions the secret of a pair changes exactly when one of the two shares they sealed to each other does. */
  lemma KexBinds(x: Derivation, inputs: seq<map<int, Str>>, inputs': seq<map<int, Str>>, n: nat, i: nat, j: nat)
    requires SharesOpened(inputs, n) && SharesOpened(inputs', n) && i < n && j < n
    requires forall ps, ps' :: x.transcript(ps) == x.transcript(ps') ==> ps == ps'
    ensures PairKex(x, inputs, n, i, j) == PairKex(x, inputs', n, i, j) <==>
            inputs[i][j] == inputs'[i][j] && inputs[j][i] == inputs'[j][i]
  {
    hide Ascii;
    var a, b := if i > j then j else i, if i > j then i else j;
    var tag := Ascii("CORONA-BOOTSTRAP-PEDERSEN-PAIRWISE-SECRET-v1");
    var ps, ps' := [tag, x.suiteID, inputs[b][a], inputs[a][b]], [tag, x.suiteID, inputs'[b][a], inputs'[a][b]];
    assert ps == ps' <==> ps[2] == ps'[2] && ps[3] == ps'[3];
  }

  /** What keys the directional seed of the cell (i, j). */
  function SeedSource(x: Derivation, inputs: seq<map<int, Str>>, own: seq<Str>, n: nat, i: nat, j: nat): Str
    requires SharesOpened(inputs, n) && |own| == n && i < n && j < n
  {
    if i == j then x.transcript([Ascii("CORONA-BOOTSTRAP-PEDERSEN-SELFSEED-v1"), x.suiteID, own[i]]) else PairKex(x, inputs, n, i, j)
  }

  function SeedLabel(i: int, j: int): Part {
    Ascii("seed") + Enc32(i) + Enc32(j)
  }

  /** Labels of different cells differ, and none is the MAC label, so within one pair every derived key has its own
      input. */
  lemma LabelsSeparate(i: int, j: int, i': int, j': int)
    requires IsId(i) && IsId(j) && IsId(i') && IsId(j')
    ensures SeedLabel(i, j) == SeedLabel(i', j') <==> i == i' && j == j'
    ensures SeedLabel(i, j) != Ascii("mac")
  {
    hide Enc32, Ascii;
    if SeedLabel(i, j) == SeedLabel(i', j') {
      SplitEqual(Ascii("seed") + Enc32(i), Ascii("seed") + Enc32(i'), Enc32(j), Enc32(j'));
      SplitEqual(Ascii("seed"), Ascii("seed"), Enc32(i), Enc32(i'));
      Enc32Injective(i, i');
      Enc32Injective(j, j');
    }
    assert |SeedLabel(i, j)| == |"seed"| + 8 && |Ascii("mac")| == |"mac"|;
  }

  ghost predicate SeedsDerived(seeds: map<int, seq<Str>>, x: Derivation, inputs: seq<map<int, Str>>, own: seq<Str>, n: nat, rows: nat)
    requires SharesOpened(inputs, n) && |own| == n && rows <= n
  {
    && (forall i :: i in seeds <==> 0 <= i < rows)
    && forall i :: 0 <= i < rows ==> SeedRowDerived(seeds[i], x, inputs, own, n, i, n)
  }

  ghost predicate SeedRowDerived(row: seq<Str>, x: Derivation, inputs: seq<map<int, Str>>, own: seq<Str>, n: nat, i: nat, cells: nat)
    requires SharesOpened(inputs, n) && |own| == n && i < n && cells <= n
  {
    |row| == cells && forall j :: 0 <= j < cells ==> row[j] == x.prf(SeedSource(x, inputs, own, n, i, j), SeedLabel(i, j))
  }

  /** A MAC key is derived from its pair's secret, whichever end looks. */
  ghost predicate MacsDerived(macKeys: seq<map<int, Str>>, x: Derivation, inputs: seq<map<int, Str>>, n: nat)
    requires SharesOpened(inputs, n) && |macKeys| == n
  {
    forall i, j :: 0 <= i < n && 0 <= j < n && j in macKeys[i] ==> macKeys[i][j] == x.prf(PairKex(x, inputs, n, i, j), Ascii("mac"))
  }

  method DeriveSeeds(x: Derivation, inputs: seq<map<int, Str>>, own: seq<Str>, n: nat) returns (seeds: map<int, seq<Str>>)
    requires SharesOpened(inputs, n) && |own| == n
    ensures SeedsDerived(seeds, x, inputs, own, n, n)
  {
    hide SeedSource, SeedLabel;
    seeds := map[];
    for i := 0 to n
      invariant SeedsDerived(seeds, x, inputs, own, n, i)
    {
      var row: seq<Str> := [];
      for j := 0 to n
        invariant SeedRowDerived(row, x, inputs, own, n, i, j)
      {
        row := row + [x.prf(SeedSource(x, inputs, own, n, i, j), SeedLabel(i, j))];
      }
      seeds := seeds[i := row];
    }
  }

  /** derivePairwiseFromShares: seeds for every cell, MAC keys for every pair, the same at both ends. */
  method DerivePairwiseFromShares(x: Derivation, inputs: seq<map<int, Str>>, own: seq<Str>, n: nat)
    returns (seeds: map<int, seq<Str>>, macKeys: seq<map<int, Str>>)
    requires SharesOpened(inputs, n) && |own| == n
    ensures SeedsDerived(seeds, x, inputs, own, n, n)
    ensures MacTable(macKeys, n) && MacsDerived(macKeys, x, inputs, n)
  {
    hide PairDone, MacsSoFar, PairKex;
    seeds := DeriveSeeds(x, inputs, own, n);
    macKeys := seq(n, _ => map[]);
    NoMacs(macKeys, n);
    for i := 0 to n
      invariant |macKeys| == n && MacsSoFar(macKeys, n, i, i + 1) && MacsDerived(macKeys, x, inputs, n)
    {
      for j := i + 1 to n
        invariant |macKeys| == n && MacsSoFar(macKeys, n, i, j) && MacsDerived(macKeys, x, inputs, n)
      {
        var mac := x.prf(PairKex(x, inputs, n, i, j), Ascii("mac"));
        MacsCell(macKeys, n, i, j, mac);
        KexSymmetric(x, inputs, n, i, j);
        macKeys := macKeys[i := macKeys[i][j := mac]];
        macKeys := macKeys[j := macKeys[j][i := mac]];
      }
      MacsNext(macKeys, n, i);
    }
    AllPairsDone(macKeys, n);
  }
}
