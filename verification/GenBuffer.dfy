/** The trusted dealer's randomness: one buffer, computed in advance, handed out slice by slice to the
    share coefficients, the pairwise seeds and the MAC keys. */
module GenBuffer {
  import opened Zq
  import opened Bytes
  import opened Randomness

  type Key = seq<Byte>

  /** PrecomputedRandomness and RandomnessIndex. The ghost log records the slices handed out. */
  class Buffer {
    const data: seq<Byte>
    var index: nat
    ghost var log: seq<(nat, nat)>

    constructor (data: seq<Byte>)
      ensures this.data == data && index == 0 && log == [] && Valid()
    {
      this.data, this.index, this.log := data, 0, [];
    }

    /** Slices lie in the buffer, below the cursor, one after the other. */
    ghost predicate Valid()
      reads this
    {
      && index <= |data|
      && (forall k :: 0 <= k < |log| ==> log[k].0 <= log[k].1 <= index)
      && forall k, l :: 0 <= k < l < |log| ==> log[k].1 <= log[l].0
    }

    /** GetRandomBytes. None is the slice out of range. */
    method GetRandomBytes(n: nat) returns (r: Option<seq<Byte>>)
      requires Valid()
      modifies this
      ensures Valid()
      ensures r.None? <==> old(index) + n > |data|
      ensures r.None? ==> index == old(index) && log == old(log)
      ensures r.Some? ==>
                && r.value == data[old(index)..old(index) + n]
                && index == old(index) + n && log == old(log) + [(old(index), index)]
    {
      if index + n > |data| {
        return None;
      }
      r := Some(data[index..index + n]);
      log := log + [(index, index + n)];
      index := index + n;
    }

    /** GetRandomInt. */
    method GetRandomInt(q: nat) returns (r: Option<nat>)
      requires Valid() && q > 0
      modifies this
      ensures Valid()
      ensures r.None? <==> old(index) + ByteLen(q) > |data|
      ensures r.Some? ==>
                && r.value < q && IntAt(r.value, data, old(index), ByteLen(q), q)
                && index == old(index) + ByteLen(q) && log == old(log) + [(old(index), index)]
    {
      var bytes := GetRandomBytes(ByteLen(q));
      if bytes.None? {
        return None;
      }
      return Some(FromBigEndian(bytes.value) % q);
    }
  }

  // ----- sizes ---------------------------------------------------------------------

  /** precomputeSize of Gen; coeffs is r.N() * N. */
  function PrecomputeSize(K: nat, coeffs: nat, qLen: nat): nat
    requires K >= 1
  {
    K * K * KEY_SIZE + DrawnBytes(coeffs, K - 1, qLen) + K * (K - 1) * KEY_SIZE
  }

  /** The unordered pairs whose smaller member is below i. */
  function PairsBelow(K: nat, i: nat): (n: nat)
    requires i <= K
    ensures 2 * n == i * (2 * K - i - 1)
  {
    if i == 0 then 0
    else
      PairStep(K, i);
      PairsBelow(K, i - 1) + (K - i)
  }

  lemma PairStep(K: int, i: int)
    ensures (i - 1) * (2 * K - i) + 2 * (K - i) == i * (2 * K - i - 1)
  {
  }

  /** The bytes of the integers drawn for c coefficients, t each. */
  function DrawnBytes(c: nat, t: nat, len: nat): (n: nat)
  {
    var count: nat := c * t;
    count * len
  }

  // ----- where each slice lies -----------------------------------------------------

  /** The bytes before row i of the walk over the K x K cells. */
  function RowStart(K: nat, i: nat): nat
    requires i <= K
  {
    KEY_SIZE * (i * K + PairsBelow(K, i))
  }

  /** The seed of cell (i, j): behind j seeds and the MAC keys of the pairs (i, i + 1), ..., (i, j - 1). */
  function SeedAt(K: nat, i: nat, j: nat): nat
    requires i < K && j <= K
  {
    RowStart(K, i) + KEY_SIZE * (j + if j > i + 1 then j - i - 1 else 0)
  }

  /** The MAC key of the pair (i, j), right behind the seed of cell (i, j). */
  function MacKeyAt(K: nat, i: nat, j: nat): nat
    requires i < j < K
  {
    RowStart(K, i) + KEY_SIZE * (2 * j - i)
  }

  /** Cells follow each other without overlap: seed, then MAC key if the pair is new, then the next cell. */
  lemma CellLayout(K: nat, i: nat, j: nat)
    requires i < K && j < K
    ensures i < j ==> MacKeyAt(K, i, j) == SeedAt(K, i, j) + KEY_SIZE && SeedAt(K, i, j + 1) == MacKeyAt(K, i, j) + KEY_SIZE
    ensures i >= j ==> SeedAt(K, i, j + 1) == SeedAt(K, i, j) + KEY_SIZE
    ensures SeedAt(K, i, 0) == RowStart(K, i) && SeedAt(K, i, K) == RowStart(K, i + 1)
  {
    RowBudget(K, i);
  }

  ghost predicate SliceAt(key: Key, data: seq<Byte>, at: nat) {
    at + KEY_SIZE <= |data| && key == data[at..at + KEY_SIZE]
  }

  // ----- no two places overlap -----------------------------------------------------

  /** Everything Gen draws: integer i of coefficient c, the seed of a cell, the MAC key of a pair. */
  datatype Place = Draw(c: nat, i: nat) | Seed(row: nat, col: nat) | MacKey(lo: nat, hi: nat)

  ghost predicate IsPlace(x: Place, K: nat, coeffs: nat, t: nat) {
    match x
    case Draw(c, i) => c < coeffs && i < t
    case Seed(i, j) => i < K && j < K
    case MacKey(i, j) => i < j < K
  }

  ghost function Start(x: Place, K: nat, coeffs: nat, t: nat, len: nat): nat
    requires IsPlace(x, K, coeffs, t)
  {
    match x
    case Draw(c, i) => DrawnBytes(c, t, len) + i * len
    case Seed(i, j) => DrawnBytes(coeffs, t, len) + SeedAt(K, i, j)
    case MacKey(i, j) => DrawnBytes(coeffs, t, len) + MacKeyAt(K, i, j)
  }

  ghost function End(x: Place, K: nat, coeffs: nat, t: nat, len: nat): nat
    requires IsPlace(x, K, coeffs, t)
  {
    Start(x, K, coeffs, t, len) + if x.Draw? then len else KEY_SIZE
  }

  /** Everything in an earlier cell ends before a later cell starts. */
  lemma CellOrder(K: nat, i: nat, j: nat, i': nat, j': nat)
    requires i < K && j < K && i' < K && j' < K && (i < i' || (i == i' && j < j'))
    ensures SeedAt(K, i, j + 1) <= SeedAt(K, i', j')
  {
    if i < i' {
      CellWithin(K, i, j);
      RowOrder(K, i + 1, i');
    }
  }

  lemma {:induction false} RowOrder(K: nat, i: nat, i': nat)
    requires i <= i' <= K
    ensures RowStart(K, i) <= RowStart(K, i')
    decreases i' - i
  {
    if i < i' {
      RowOrder(K, i, i' - 1);
      RowBudget(K, i' - 1);
    }
  }

  lemma DrawOrder(c: nat, i: nat, c': nat, i': nat, t: nat, len: nat)
    requires i < t && i' < t && (c < c' || (c == c' && i < i'))
    ensures DrawnBytes(c, t, len) + i * len + len <= DrawnBytes(c', t, len) + i' * len
  {
    CellStep(i, t, len);
    if c < c' {
      Cells(c, c', t, len);
      assert i' * len >= 0;
    } else {
      CellStep(i, i', len);
    }
  }

  /** A drawn integer lies in front of everything else. */
  lemma DrawFirst(c: nat, i: nat, coeffs: nat, t: nat, len: nat)
    requires c < coeffs && i < t
    ensures DrawnBytes(c, t, len) + i * len + len <= DrawnBytes(coeffs, t, len)
  {
    CellStep(i, t, len);
    Cells(c, coeffs, t, len);
  }

  /** The place of the cell (i, j) that holds a seed or a MAC key. */
  lemma InCell(x: Place, K: nat, coeffs: nat, t: nat, len: nat, i: nat, j: nat)
    requires IsPlace(x, K, coeffs, t) && (x == Seed(i, j) || x == MacKey(i, j))
    ensures var base := DrawnBytes(coeffs, t, len);
            base + SeedAt(K, i, j) <= Start(x, K, coeffs, t, len) && End(x, K, coeffs, t, len) <= base + SeedAt(K, i, j + 1)
  {
    hide SeedAt, MacKeyAt;
    CellLayout(K, i, j);
  }

  ghost function RowOf(x: Place): nat
    requires !x.Draw?
  {
    match x case Seed(i, _) => i case MacKey(i, _) => i
  }

  ghost function ColOf(x: Place): nat
    requires !x.Draw?
  {
    match x case Seed(_, j) => j case MacKey(_, j) => j
  }

  lemma CellsApart(x: Place, y: Place, K: nat, coeffs: nat, t: nat, len: nat)
    requires !x.Draw? && !y.Draw? && IsPlace(x, K, coeffs, t) && IsPlace(y, K, coeffs, t)
    requires RowOf(x) < RowOf(y) || (RowOf(x) == RowOf(y) && ColOf(x) < ColOf(y))
    ensures End(x, K, coeffs, t, len) <= Start(y, K, coeffs, t, len)
  {
    hide Start, End, SeedAt;
    InCell(x, K, coeffs, t, len, RowOf(x), ColOf(x));
    InCell(y, K, coeffs, t, len, RowOf(y), ColOf(y));
    CellOrder(K, RowOf(x), ColOf(x), RowOf(y), ColOf(y));
  }

  /** Any two different draws, seeds or MAC keys lie in disjoint slices of the buffer. */
  lemma PlacesDisjoint(x: Place, y: Place, K: nat, coeffs: nat, t: nat, len: nat)
    requires x != y && IsPlace(x, K, coeffs, t) && IsPlace(y, K, coeffs, t)
    ensures End(x, K, coeffs, t, len) <= Start(y, K, coeffs, t, len) || End(y, K, coeffs, t, len) <= Start(x, K, coeffs, t, len)
  {
    hide SeedAt, MacKeyAt;
    if x.Draw? && y.Draw? {
      if x.c < y.c || (x.c == y.c && x.i < y.i) {
        DrawOrder(x.c, x.i, y.c, y.i, t, len);
      } else {
        DrawOrder(y.c, y.i, x.c, x.i, t, len);
      }
    } else if x.Draw? {
      DrawFirst(x.c, x.i, coeffs, t, len);
    } else if y.Draw? {
      DrawFirst(y.c, y.i, coeffs, t, len);
    } else if RowOf(x) == RowOf(y) && ColOf(x) == ColOf(y) {
      CellLayout(K, RowOf(x), ColOf(x));
    } else if RowOf(x) < RowOf(y) || (RowOf(x) == RowOf(y) && ColOf(x) < ColOf(y)) {
      CellsApart(x, y, K, coeffs, t, len);
    } else {
      CellsApart(y, x, K, coeffs, t, len);
    }
  }

  // ----- seeds and MAC keys --------------------------------------------------------

  ghost predicate Lead(a: int, b: int, i: nat, j: nat) {
    var lo, hi := if a < b then a else b, if a < b then b else a;
    a != b && 0 <= lo && (lo < i || (lo == i && hi < j))
  }

  ghost predicate Has(macs: map<int, map<int, Key>>, a: int, b: int) {
    a in macs && b in macs[a]
  }

  /** The table of MAC keys while the walk is at cell (i, j): the keys of the pairs met so far, at both ends; rows exist
      as soon as they are needed. */
  ghost predicate MacsAt(macs: map<int, map<int, Key>>, K: nat, i: nat, j: nat, data: seq<Byte>, base: nat) {
    && (forall a, b :: Has(macs, a, b) <==> 0 <= a < K && 0 <= b < K && Lead(a, b, i, j))
    && (forall a, b :: Has(macs, a, b) && Has(macs, b, a) ==> macs[a][b] == macs[b][a])
    && (forall a, b :: Has(macs, a, b) && 0 <= a < b < K ==> SliceAt(macs[a][b], data, base + MacKeyAt(K, a, b)))
    && 0 in macs && (forall a :: 0 <= a < K && (i > 0 || a < j) ==> a in macs)
  }

  ghost predicate SeedRow(row: seq<Key>, K: nat, i: nat, n: nat, data: seq<Byte>, base: nat)
    requires i < K && n <= K
  {
    |row| == n && forall j :: 0 <= j < n ==> SliceAt(row[j], data, base + SeedAt(K, i, j))
  }

  /** Every cell has the seed that lies at its place. */
  ghost predicate SeedTable(seeds: map<int, seq<Key>>, K: nat, n: nat, data: seq<Byte>, base: nat)
    requires n <= K
  {
    (forall i :: i in seeds <==> 0 <= i < n) && forall i :: 0 <= i < n ==> SeedRow(seeds[i], K, i, K, data, base)
  }

  /** Total off the diagonal, empty on it, symmetric, and every pair has the key that lies at its place. */
  ghost predicate PairKeyTable(macs: map<int, map<int, Key>>, K: nat, data: seq<Byte>, base: nat) {
    && (forall a :: 0 <= a < K ==> a in macs)
    && (forall a, b :: 0 <= a < K ==> (b in macs[a] <==> 0 <= b < K && b != a))
    && (forall a, b :: 0 <= a < K && 0 <= b < K && a != b ==> macs[a][b] == macs[b][a])
    && forall a, b :: 0 <= a < b < K ==> SliceAt(macs[a][b], data, base + MacKeyAt(K, a, b))
  }

  lemma LeadNext(i: nat, j: nat)
    ensures forall a, b :: Lead(a, b, i, j + 1) <==> Lead(a, b, i, j) || (i < j && ((a == i && b == j) || (a == j && b == i)))
  {
  }

  lemma LeadRow(K: nat, i: nat)
    ensures forall a, b :: a < K && b < K ==> (Lead(a, b, i, K) <==> Lead(a, b, i + 1, 0))
  {
  }

  /** A fresh row and, for a new pair, its key at both ends. */
  ghost function WithKey(macs: map<int, map<int, Key>>, i: int, j: int, key: Key): map<int, map<int, Key>>
    requires i in macs && j in macs && i != j
  {
    macs[i := macs[i][j := key]][j := macs[j][i := key]]
  }

  lemma AddKey(macs: map<int, map<int, Key>>, K: nat, i: nat, j: nat, key: Key, data: seq<Byte>, base: nat)
    requires i < j < K && MacsAt(macs, K, i, j, data, base) && i in macs && j in macs && SliceAt(key, data, base + MacKeyAt(K, i, j))
    ensures MacsAt(WithKey(macs, i, j, key), K, i, j + 1, data, base)
  {
    hide Lead;
    LeadNext(i, j);
    var m := WithKey(macs, i, j, key);
    forall a, b ensures Has(m, a, b) <==> Has(macs, a, b) || (a == i && b == j) || (a == j && b == i) {
    }
    forall a, b | Has(m, a, b) && 0 <= a < b < K ensures SliceAt(m[a][b], data, base + MacKeyAt(K, a, b)) {
      assert !(a == i && b == j) ==> Has(macs, a, b) && m[a][b] == macs[a][b];
    }
    forall a, b ensures Has(m, a, b) <==> 0 <= a < K && 0 <= b < K && Lead(a, b, i, j + 1) {
    }
  }

  lemma SkipCell(macs: map<int, map<int, Key>>, K: nat, i: nat, j: nat, data: seq<Byte>, base: nat)
    requires j <= i < K && MacsAt(macs, K, i, j, data, base) && j in macs
    ensures MacsAt(macs, K, i, j + 1, data, base)
  {
    hide Lead, Has;
    LeadNext(i, j);
    forall a, b ensures Lead(a, b, i, j) <==> Lead(a, b, i, j + 1) {
    }
  }

  lemma AddRow(macs: map<int, map<int, Key>>, K: nat, i: nat, j: nat, data: seq<Byte>, base: nat)
    requires j < K && MacsAt(macs, K, i, j, data, base) && j !in macs
    ensures MacsAt(macs[j := map[]], K, i, j, data, base)
  {
    hide Lead;
    forall a, b ensures Has(macs[j := map[]], a, b) <==> Has(macs, a, b) {
    }
  }

  /** One cell off the diagonal: make row j, and draw the pair's key unless one end already has it. */
  method MacCell(buf: Buffer, macs: map<int, map<int, Key>>, K: nat, i: nat, j: nat, ghost base: nat) returns (r: Option<map<int, map<int, Key>>>)
    requires buf.Valid() && i < K && j < K && i != j && MacsAt(macs, K, i, j, buf.data, base)
    requires i < j ==> buf.index == base + MacKeyAt(K, i, j)
    modifies buf
    ensures buf.Valid() && (r.None? <==> i < j && old(buf.index) + KEY_SIZE > |buf.data|)
    ensures r.Some? ==> MacsAt(r.value, K, i, j + 1, buf.data, base) && buf.index == old(buf.index) + if i < j then KEY_SIZE else 0
  {
    hide MacKeyAt;
    var m := macs;
    if j !in m {
      AddRow(m, K, i, j, buf.data, base);
      m := m[j := map[]];
    }
    assert i in m && (Has(m, i, j) <==> j < i) && (Has(m, j, i) <==> j < i);
    if j !in m[i] && i !in m[j] {
      var key := buf.GetRandomBytes(KEY_SIZE);
      if key.None? {
        return None;
      }
      AddKey(m, K, i, j, key.value, buf.data, base);
      m := m[i := m[i][j := key.value]];
      m := m[j := m[j][i := key.value]];
    } else {
      SkipCell(m, K, i, j, buf.data, base);
    }
    return Some(m);
  }

  /** One row of the walk: a seed for every cell, a MAC key for every new pair. */
  method DealRow(buf: Buffer, macs: map<int, map<int, Key>>, K: nat, i: nat, ghost base: nat)
    returns (row: seq<Key>, out: Option<map<int, map<int, Key>>>)
    requires buf.Valid() && i < K && MacsAt(macs, K, i, 0, buf.data, base) && buf.index == base + RowStart(K, i)
    modifies buf
    ensures buf.Valid()
    ensures out.None? ==> base + RowStart(K, i + 1) > |buf.data|
    ensures out.Some? ==>
              && SeedRow(row, K, i, K, buf.data, base) && MacsAt(out.value, K, i, K, buf.data, base)
              && buf.index == base + RowStart(K, i + 1)
  {
    hide MacsAt, RowStart, MacKeyAt, SeedAt;
    CellLayout(K, i, 0);
    row := [];
    var m := macs;
    for j := 0 to K
      invariant buf.Valid() && SeedRow(row, K, i, j, buf.data, base) && MacsAt(m, K, i, j, buf.data, base)
      invariant buf.index == base + SeedAt(K, i, j)
    {
      CellLayout(K, i, j);
      CellWithin(K, i, j);
      var seed := buf.GetRandomBytes(KEY_SIZE);
      if seed.None? {
        return row, None;
      }
      row := row + [seed.value];
      if i != j {
        var next := MacCell(buf, m, K, i, j, base);
        if next.None? {
          return row, None;
        }
        m := next.value;
      } else {
        DiagonalCell(m, K, i, buf.data, base);
      }
    }
    return row, Some(m);
  }

  lemma DiagonalCell(macs: map<int, map<int, Key>>, K: nat, i: nat, data: seq<Byte>, base: nat)
    requires i < K && MacsAt(macs, K, i, i, data, base)
    ensures MacsAt(macs, K, i, i + 1, data, base)
  {
    SkipCell(macs, K, i, i, data, base);
  }

  lemma CellWithin(K: nat, i: nat, j: nat)
    requires i < K && j < K
    ensures SeedAt(K, i, j + 1) <= RowStart(K, i + 1)
  {
    RowBudget(K, i);
  }

  /** The seed and MAC-key loops of Gen. With 32 (K^2 + K (K - 1) / 2) bytes left they cannot run dry. */
  method DealPairwise(buf: Buffer, K: nat) returns (seeds: map<int, seq<Key>>, macs: map<int, map<int, Key>>)
    requires buf.Valid() && K >= 1 && buf.index + RowStart(K, K) <= |buf.data|
    modifies buf
    ensures buf.Valid() && buf.index == old(buf.index) + RowStart(K, K)
    ensures SeedTable(seeds, K, K, buf.data, old(buf.index)) && PairKeyTable(macs, K, buf.data, old(buf.index))
  {
    hide RowStart, MacsAt, SeedRow;
    ghost var base := buf.index;
    seeds := map[];
    macs := map[0 := map[]];
    WalkStarts(K, buf.data, base);
    for i := 0 to K
      invariant buf.Valid() && SeedTable(seeds, K, i, buf.data, base) && MacsAt(macs, K, i, 0, buf.data, base)
      invariant buf.index == base + RowStart(K, i)
    {
      RowOrder(K, i + 1, K);
      var row, out := DealRow(buf, macs, K, i, base);
      if out.None? {
        assert false;
      }
      seeds := seeds[i := row];
      NextRow(out.value, K, i, buf.data, base);
      macs := out.value;
    }
    AllPairs(macs, K, buf.data, base);
  }

  lemma WalkStarts(K: nat, data: seq<Byte>, base: nat)
    requires K >= 1
    ensures RowStart(K, 0) == 0 && MacsAt(map[0 := map[]], K, 0, 0, data, base)
  {
  }

  lemma {:induction false} PairsGrow(K: nat, i: nat)
    requires i <= K
    ensures PairsBelow(K, i) <= PairsBelow(K, K)
    decreases K - i
  {
    if i < K {
      PairsGrow(K, i + 1);
    }
  }

  lemma RowBudget(K: nat, i: nat)
    requires i < K
    ensures i * K + PairsBelow(K, i) + (K + (K - i - 1)) == (i + 1) * K + PairsBelow(K, i + 1)
    ensures (i + 1) * K + PairsBelow(K, i + 1) <= K * K + PairsBelow(K, K)
  {
    PairsGrow(K, i + 1);
    CellStep(i, K, K);
  }

  lemma NextRow(macs: map<int, map<int, Key>>, K: nat, i: nat, data: seq<Byte>, base: nat)
    requires i < K && MacsAt(macs, K, i, K, data, base)
    ensures MacsAt(macs, K, i + 1, 0, data, base)
  {
    hide Lead, Has;
    LeadRow(K, i);
    forall a, b | 0 <= a < K && 0 <= b < K ensures Lead(a, b, i, K) <==> Lead(a, b, i + 1, 0) {
    }
  }

  lemma AllPairs(macs: map<int, map<int, Key>>, K: nat, data: seq<Byte>, base: nat)
    requires K >= 1 && MacsAt(macs, K, K, 0, data, base)
    ensures PairKeyTable(macs, K, data, base)
  {
    hide MacKeyAt, SliceAt;
    forall a, b | 0 <= a < K ensures b in macs[a] <==> 0 <= b < K && b != a {
      assert Has(macs, a, b) <==> 0 <= b < K && Lead(a, b, K, 0);
    }
    forall a, b | 0 <= a < K && 0 <= b < K && a != b ensures Has(macs, a, b) && macs[a][b] == macs[b][a] {
      assert Has(macs, a, b) && Has(macs, b, a);
    }
    forall a, b | 0 <= a < b < K ensures SliceAt(macs[a][b], data, base + MacKeyAt(K, a, b)) {
      assert Has(macs, a, b);
    }
  }

  // ----- the whole of Gen ----------------------------------------------------------

  /** Consecutive integers of len bytes from `at` on, reduced modulo q. */
  ghost predicate IntsAt(row: seq<nat>, data: seq<Byte>, at: nat, len: nat, q: nat)
    requires q > 0
  {
    forall i :: 0 <= i < |row| ==> IntAt(row[i], data, at + i * len, len, q)
  }

  ghost predicate IntAt(v: nat, data: seq<Byte>, at: nat, len: nat, q: nat)
    requires q > 0
  {
    at + len <= |data| && v == FromBigEndian(data[at..at + len]) % q
  }

  /** Coefficient c has its threshold - 1 integers behind those of the coefficients before it. */
  ghost predicate SharesAt(draws: seq<seq<nat>>, data: seq<Byte>, base: nat, t: nat, q: nat)
    requires q > 0
  {
    forall c :: 0 <= c < |draws| ==> |draws[c]| == t && IntsAt(draws[c], data, base + DrawnBytes(c, t, ByteLen(q)), ByteLen(q), q)
  }

  /** The random shares of ShamirSecretSharing: `coeffs` coefficients, threshold - 1 integers each. */
  method DealShares(buf: Buffer, coeffs: nat, threshold: nat, q: nat) returns (draws: seq<seq<nat>>)
    requires buf.Valid() && threshold >= 1 && q > 0 && buf.index + DrawnBytes(coeffs, threshold - 1, ByteLen(q)) <= |buf.data|
    modifies buf
    ensures buf.Valid() && buf.index == old(buf.index) + DrawnBytes(coeffs, threshold - 1, ByteLen(q))
    ensures |draws| == coeffs && SharesAt(draws, buf.data, old(buf.index), threshold - 1, q)
  {
    hide IntsAt, DrawnBytes;
    NoBytes(threshold - 1, ByteLen(q));
    draws := [];
    for c := 0 to coeffs
      invariant buf.Valid() && buf.index == old(buf.index) + DrawnBytes(c, threshold - 1, ByteLen(q))
      invariant |draws| == c && SharesAt(draws, buf.data, old(buf.index), threshold - 1, q)
    {
      Cells(c, coeffs, threshold - 1, ByteLen(q));
      var row := DealCoefficient(buf, threshold - 1, q);
      draws := draws + [row];
    }
  }

  lemma Cells(c: nat, coeffs: nat, t: nat, len: nat)
    requires c < coeffs
    ensures DrawnBytes(c + 1, t, len) == DrawnBytes(c, t, len) + t * len && DrawnBytes(c + 1, t, len) <= DrawnBytes(coeffs, t, len)
  {
    MulAssoc(c, t, len);
    MulAssoc(c + 1, t, len);
    MulAssoc(coeffs, t, len);
    CellStep(c, coeffs, t * len);
  }

  lemma NoBytes(t: nat, len: nat)
    ensures DrawnBytes(0, t, len) == 0
  {
  }

  lemma CellStep(c: nat, coeffs: nat, w: nat)
    requires c < coeffs
    ensures (c + 1) * w == c * w + w && (c + 1) * w <= coeffs * w
  {
    assert coeffs * w == (c + 1) * w + (coeffs - (c + 1)) * w;
  }

  method DealCoefficient(buf: Buffer, t: nat, q: nat) returns (row: seq<nat>)
    requires buf.Valid() && q > 0 && buf.index + t * ByteLen(q) <= |buf.data|
    modifies buf
    ensures buf.Valid() && buf.index == old(buf.index) + t * ByteLen(q)
    ensures |row| == t && IntsAt(row, buf.data, old(buf.index), ByteLen(q), q)
  {
    hide IntAt;
    row := [];
    for i := 0 to t
      invariant buf.Valid() && buf.index == old(buf.index) + i * ByteLen(q)
      invariant |row| == i && IntsAt(row, buf.data, old(buf.index), ByteLen(q), q)
    {
      CellStep(i, t, ByteLen(q));
      var v := buf.GetRandomInt(q);
      if v.None? {
        assert false;
      }
      row := row + [v.value];
    }
  }

  lemma SizeSplit(K: nat, threshold: nat, coeffs: nat, qLen: nat)
    requires 1 <= threshold <= K
    ensures PrecomputeSize(K, coeffs, qLen) ==
            DrawnBytes(coeffs, threshold - 1, qLen) + RowStart(K, K)
            + (DrawnBytes(coeffs, K - threshold, qLen) + KEY_SIZE * PairsBelow(K, K))
    ensures K >= 2 ==> PairsBelow(K, K) >= 1
  {
    var p := PairsBelow(K, K);
    assert 2 * p == K * (2 * K - K - 1);
    PairBytes(K, p);
    SplitDraws(coeffs, threshold, K, qLen);
  }

  lemma PairBytes(K: nat, p: nat)
    requires K >= 1 && 2 * p == K * (2 * K - K - 1)
    ensures K * (K - 1) * KEY_SIZE == KEY_SIZE * p + KEY_SIZE * p && (K >= 2 ==> p >= 1)
    ensures K * K * KEY_SIZE == KEY_SIZE * (K * K)
  {
    var d := K * (K - 1);
    assert d == 2 * p;
    if K >= 2 {
      assert K * (K - 1) >= 2;
    }
  }

  lemma SplitDraws(coeffs: nat, threshold: nat, K: nat, qLen: nat)
    requires 1 <= threshold <= K
    ensures DrawnBytes(coeffs, K - 1, qLen) == DrawnBytes(coeffs, threshold - 1, qLen) + DrawnBytes(coeffs, K - threshold, qLen)
  {
    var a, b := coeffs * (threshold - 1), coeffs * (K - threshold);
    assert coeffs * (K - 1) == a + b;
    assert (a + b) * qLen == a * qLen + b * qLen;
  }

  /** Gen's consumption of the buffer: every read is served, the slices are disjoint, the MAC table is total off the
      diagonal and symmetric, and what is left is known exactly: at least one key when there are two parties. */
  method DealAll(buf: Buffer, K: nat, threshold: nat, coeffs: nat, q: nat)
    returns (draws: seq<seq<nat>>, seeds: map<int, seq<Key>>, macs: map<int, map<int, Key>>)
    requires 1 <= threshold <= K && q > 0 && buf.Valid() && buf.index == 0 && |buf.data| == PrecomputeSize(K, coeffs, ByteLen(q))
    modifies buf
    ensures buf.Valid() && |draws| == coeffs && SharesAt(draws, buf.data, 0, threshold - 1, q)
    ensures var base := DrawnBytes(coeffs, threshold - 1, ByteLen(q)); SeedTable(seeds, K, K, buf.data, base) && PairKeyTable(macs, K, buf.data, base)
    ensures |buf.data| - buf.index == DrawnBytes(coeffs, K - threshold, ByteLen(q)) + KEY_SIZE * PairsBelow(K, K)
    ensures K >= 2 ==> |buf.data| - buf.index >= KEY_SIZE
  {
    hide PrecomputeSize, SeedTable, PairKeyTable, SharesAt, RowStart, DrawnBytes;
    SizeSplit(K, threshold, coeffs, ByteLen(q));
    draws := DealShares(buf, coeffs, threshold, q);
    seeds, macs := DealPairwise(buf, K);
  }
}
