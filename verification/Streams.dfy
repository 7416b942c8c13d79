/** What the kernel draws, told from the stream alone: cut into blocks of ByteLen(q) bytes, read most significant
    byte first, with every block at or above q dropped. */
module Streams {
  import opened Zq
  import opened Bytes
  import opened Randomness
  import opened Polynomials

  // ----- one block -----------------------------------------------------------------

  /** The number a block stands for: its first byte weighs most. */
  lemma {:induction false} BlockValue(b: seq<Byte>)
    ensures FromBigEndian(b) == Total(seq(|b|, i requires 0 <= i < |b| => b[i] * Pow256(|b| - 1 - i)))
  {
    hide Pow256;
    if b != [] {
      var n := |b| - 1;
      var terms := seq(|b|, i requires 0 <= i < |b| => b[i] * Pow256(n - i));
      var low := seq(n, i requires 0 <= i < n => b[..n][i] * Pow256(n - 1 - i));
      BlockValue(b[..n]);
      forall i | 0 <= i < n ensures terms[..n][i] == 256 * low[i] {
        WeightStep(b[i], n - 1 - i);
      }
      TotalScale(256, low, terms[..n]);
      LastTerm(terms, b[n]);
    }
  }

  lemma WeightStep(x: int, k: nat)
    ensures x * Pow256(k + 1) == 256 * (x * Pow256(k))
  {
    assert x * (256 * Pow256(k)) == 256 * (x * Pow256(k));
  }

  lemma LastTerm(terms: seq<int>, x: int)
    requires terms != [] && terms[|terms| - 1] == x * Pow256(0)
    ensures Total(terms) == Total(terms[..|terms| - 1]) + x
  {
  }

  lemma {:induction false} TotalScale(c: int, s: seq<int>, cs: seq<int>)
    requires |cs| == |s| && forall i :: 0 <= i < |s| ==> cs[i] == c * s[i]
    ensures Total(cs) == c * Total(s)
  {
    if s != [] {
      var n := |s| - 1;
      TotalScale(c, s[..n], cs[..n]);
      assert c * (Total(s[..n]) + s[n]) == c * Total(s[..n]) + c * s[n];
    }
  }

  /** A block is as long as q itself: one byte less could not hold q. */
  lemma {:induction false} BlockLength(q: nat)
    requires q > 0
    ensures ByteLen(q) >= 1 && Pow256(ByteLen(q) - 1) <= q < Pow256(ByteLen(q))
  {
    if q >= 256 {
      BlockLength(q / 256);
      assert q == 256 * (q / 256) + q % 256;
    } else {
      assert ByteLen(q / 256) == 0 && Pow256(0) == 1 && Pow256(1) == 256 * Pow256(0);
    }
  }

  /** The m-th block behind pos. */
  ghost predicate HasBlock(data: seq<Byte>, pos: nat, q: nat, m: nat) {
    pos + (m + 1) * ByteLen(q) <= |data|
  }

  ghost function Block(data: seq<Byte>, pos: nat, q: nat, m: nat): nat
    requires HasBlock(data, pos, q, m)
  {
    var at := pos + m * ByteLen(q);
    BlockFits(ByteLen(q), m);
    FromBigEndian(data[at..at + ByteLen(q)])
  }

  lemma BlockFits(len: nat, m: nat)
    ensures (m + 1) * len == m * len + len
  {
  }

  /** Block m is the first one below q. */
  ghost predicate IsFirst(data: seq<Byte>, pos: nat, q: nat, m: nat) {
    && HasBlock(data, pos, q, m) && Block(data, pos, q, m) < q
    && forall l: nat :: l < m ==> HasBlock(data, pos, q, l) && Block(data, pos, q, l) >= q
  }

  ghost predicate FirstBelow(data: seq<Byte>, pos: nat, q: nat, r: Option<(nat, nat)>) {
    && (r.Some? ==> exists m: nat :: IsFirst(data, pos, q, m) && r.value == (Block(data, pos, q, m), pos + (m + 1) * ByteLen(q)))
    && (r.None? ==> forall m: nat :: HasBlock(data, pos, q, m) ==> Block(data, pos, q, m) >= q)
  }

  /** A draw is the first block below q, and the cursor ends right behind it; it fails exactly when no block that is
      left is below q. */
  lemma {:induction false} DrawIff(data: seq<Byte>, pos: nat, q: nat)
    requires q > 0
    ensures FirstBelow(data, pos, q, Draw(data, pos, q))
    decreases |data| - pos
  {
    hide ByteLen, FromBigEndian, Block;
    var len := ByteLen(q);
    LenPositive(q);
    if pos + len > |data| {
      forall m: nat ensures !HasBlock(data, pos, q, m) {
        NoBlock(len, m);
      }
    } else {
      FirstBlock(data, pos, q);
      if Block(data, pos, q, 0) < q {
        assert IsFirst(data, pos, q, 0);
      } else {
        DrawIff(data, pos + len, q);
        DrawLater(data, pos, q);
      }
    }
  }

  lemma LenPositive(q: nat)
    requires q > 0
    ensures ByteLen(q) > 0
  {
  }

  lemma NoBlock(len: nat, m: nat)
    ensures (m + 1) * len >= len
  {
  }

  lemma FirstBlock(data: seq<Byte>, pos: nat, q: nat)
    requires pos + ByteLen(q) <= |data|
    ensures HasBlock(data, pos, q, 0) && Block(data, pos, q, 0) == FromBigEndian(data[pos..pos + ByteLen(q)])
  {
  }

  lemma ShiftBlock(data: seq<Byte>, pos: nat, q: nat, m: nat)
    ensures HasBlock(data, pos + ByteLen(q), q, m) <==> HasBlock(data, pos, q, m + 1)
    ensures HasBlock(data, pos, q, m + 1) ==> Block(data, pos + ByteLen(q), q, m) == Block(data, pos, q, m + 1)
  {
    hide ByteLen, FromBigEndian;
    var len := ByteLen(q);
    BlockFits(len, m);
    BlockFits(len, m + 1);
  }

  /** Behind a rejected block the search goes on. */
  lemma DrawLater(data: seq<Byte>, pos: nat, q: nat)
    requires q > 0 && HasBlock(data, pos, q, 0) && Block(data, pos, q, 0) >= q
    requires Draw(data, pos, q) == Draw(data, pos + ByteLen(q), q)
    requires FirstBelow(data, pos + ByteLen(q), q, Draw(data, pos + ByteLen(q), q))
    ensures FirstBelow(data, pos, q, Draw(data, pos, q))
  {
    hide ByteLen, FromBigEndian, Block, HasBlock, Draw;
    var len := ByteLen(q);
    var r := Draw(data, pos + len, q);
    if r.Some? {
      var m: nat :| IsFirst(data, pos + len, q, m) && r.value == (Block(data, pos + len, q, m), pos + len + (m + 1) * len);
      FirstShifts(data, pos, q, m);
      BlockFits(len, m + 1);
      assert IsFirst(data, pos, q, m + 1);
    } else {
      forall m: nat | HasBlock(data, pos, q, m) ensures Block(data, pos, q, m) >= q {
        if m > 0 {
          ShiftBlock(data, pos, q, m - 1);
        }
      }
    }
  }

  lemma FirstShifts(data: seq<Byte>, pos: nat, q: nat, m: nat)
    requires HasBlock(data, pos, q, 0) && Block(data, pos, q, 0) >= q && IsFirst(data, pos + ByteLen(q), q, m)
    ensures IsFirst(data, pos, q, m + 1) && Block(data, pos, q, m + 1) == Block(data, pos + ByteLen(q), q, m)
  {
    hide Block, HasBlock;
    ShiftBlock(data, pos, q, m);
    forall l: nat | l < m + 1 ensures HasBlock(data, pos, q, l) && Block(data, pos, q, l) >= q {
      if l > 0 {
        ShiftBlock(data, pos, q, l - 1);
      }
    }
  }

  // ----- all blocks ----------------------------------------------------------------

  /** The values below q among the blocks between two positions, in order. */
  ghost function Kept(data: seq<Byte>, pos: nat, end: nat, q: nat): seq<nat>
    requires q > 0
    decreases end - pos
  {
    if pos + ByteLen(q) > end || end > |data| then []
    else
      var v := FromBigEndian(data[pos..pos + ByteLen(q)]);
      (if v < q then [v] else []) + Kept(data, pos + ByteLen(q), end, q)
  }

  lemma {:induction false} KeptSplit(data: seq<Byte>, pos: nat, m: nat, end: nat, q: nat)
    requires q > 0 && pos + m * ByteLen(q) <= end <= |data|
    ensures Kept(data, pos, end, q) == Kept(data, pos, pos + m * ByteLen(q), q) + Kept(data, pos + m * ByteLen(q), end, q)
    decreases m
  {
    hide ByteLen, FromBigEndian;
    var len := ByteLen(q);
    if m > 0 {
      BlockFits(len, m - 1);
      NoBlock(len, m - 1);
      var mid := pos + m * len;
      assert pos + len + (m - 1) * len == mid;
      KeptSplit(data, pos + len, m - 1, end, q);
      KeptSplit(data, pos + len, m - 1, mid, q);
    } else {
      NothingKept(data, pos, q);
    }
  }

  lemma NothingKept(data: seq<Byte>, pos: nat, q: nat)
    requires q > 0
    ensures Kept(data, pos, pos, q) == []
  {
    LenPositive(q);
  }

  /** Between two cursor positions the stream was consumed block by block and the kept values are vs. */
  ghost predicate Consumed(data: seq<Byte>, pos: nat, next: nat, q: nat, vs: seq<nat>)
    requires q > 0
  {
    (exists m: nat :: next == pos + m * ByteLen(q)) && next <= |data| && Kept(data, pos, next, q) == vs
  }

  lemma ConsumedNothing(data: seq<Byte>, pos: nat, q: nat)
    requires q > 0 && pos <= |data|
    ensures Consumed(data, pos, pos, q, [])
  {
    assert pos == pos + 0 * ByteLen(q);
  }

  lemma ConsumedThen(data: seq<Byte>, pos: nat, mid: nat, next: nat, q: nat, us: seq<nat>, vs: seq<nat>)
    requires q > 0 && Consumed(data, pos, mid, q, us) && Consumed(data, mid, next, q, vs)
    ensures Consumed(data, pos, next, q, us + vs)
    ensures Kept(data, pos, |data|, q) == us + Kept(data, mid, |data|, q)
  {
    var len := ByteLen(q);
    var k: nat :| mid == pos + k * len;
    var l: nat :| next == mid + l * len;
    Steps(k, l, len);
    assert next == pos + (k + l) * len;
    KeptSplit(data, pos, k, next, q);
    KeptSplit(data, pos, k, |data|, q);
  }

  lemma Steps(k: nat, l: nat, len: nat)
    ensures (k + l) * len == k * len + l * len && k * len >= 0 && l * len >= 0
  {
  }

  /** What was consumed heads what the whole rest of the stream keeps. */
  lemma KeptBehind(data: seq<Byte>, pos: nat, next: nat, q: nat, vs: seq<nat>)
    requires q > 0 && Consumed(data, pos, next, q, vs)
    ensures Kept(data, pos, |data|, q) == vs + Kept(data, next, |data|, q)
  {
    ConsumedNothing(data, next, q);
    ConsumedThen(data, pos, next, next, q, vs, []);
  }

  lemma {:induction false} DrawConsumes(data: seq<Byte>, pos: nat, q: nat)
    requires q > 0 && pos <= |data|
    ensures match Draw(data, pos, q)
            case None => Kept(data, pos, |data|, q) == []
            case Some((v, next)) => Consumed(data, pos, next, q, [v])
    decreases |data| - pos
  {
    var len := ByteLen(q);
    if pos + len <= |data| {
      var v := FromBigEndian(data[pos..pos + len]);
      assert pos + len == pos + 1 * len;
      assert Kept(data, pos + len, pos + len, q) == [];
      assert Consumed(data, pos, pos + len, q, if v < q then [v] else []);
      if v >= q {
        DrawConsumes(data, pos + len, q);
        var r := Draw(data, pos + len, q);
        if r.Some? {
          ConsumedThen(data, pos, pos + len, r.value.1, q, [], [r.value.0]);
        }
      }
    }
  }

  // ----- rows, matrices, dealers ---------------------------------------------------

  ghost function Concat(vs: seq<seq<nat>>): seq<nat> {
    if vs == [] then [] else Concat(vs[..|vs| - 1]) + vs[|vs| - 1]
  }

  ghost function FlatCube(c: Cube): seq<nat> {
    Concat(seq(|c|, p requires 0 <= p < |c| => Concat(c[p])))
  }

  /** Dealer by dealer, vector index by vector index, degree by degree, coefficient by coefficient. */
  ghost function Flat(cs: seq<Cube>): seq<nat> {
    Concat(seq(|cs|, i requires 0 <= i < |cs| => FlatCube(cs[i])))
  }

  lemma ConcatSnoc(vs: seq<seq<nat>>, v: seq<nat>)
    ensures Concat(vs + [v]) == Concat(vs) + v
  {
    assert (vs + [v])[..|vs|] == vs;
  }

  lemma FlatCubeSnoc(c: Cube, m: seq<seq<nat>>)
    ensures FlatCube(c + [m]) == FlatCube(c) + Concat(m)
  {
    var all := c + [m];
    assert seq(|all|, p requires 0 <= p < |all| => Concat(all[p])) == seq(|c|, p requires 0 <= p < |c| => Concat(c[p])) + [Concat(m)];
    ConcatSnoc(seq(|c|, p requires 0 <= p < |c| => Concat(c[p])), Concat(m));
  }

  lemma FlatSnoc(cs: seq<Cube>, c: Cube)
    ensures Flat(cs + [c]) == Flat(cs) + FlatCube(c)
  {
    var all := cs + [c];
    assert seq(|all|, i requires 0 <= i < |all| => FlatCube(all[i])) == seq(|cs|, i requires 0 <= i < |cs| => FlatCube(cs[i])) + [FlatCube(c)];
    ConcatSnoc(seq(|cs|, i requires 0 <= i < |cs| => FlatCube(cs[i])), FlatCube(c));
  }

  /** What an unsuccessful draw of `count` values means, and a successful one with values vs. */
  ghost predicate Took(data: seq<Byte>, pos: nat, q: nat, count: nat, drawn: Option<(seq<nat>, nat)>)
    requires q > 0
  {
    match drawn
    case None => |Kept(data, pos, |data|, q)| < count
    case Some((vs, next)) => |vs| == count && Consumed(data, pos, next, q, vs)
  }

  lemma TookNothing(data: seq<Byte>, pos: nat, q: nat)
    requires q > 0 && pos <= |data|
    ensures Took(data, pos, q, 0, Some(([], pos)))
  {
    ConsumedNothing(data, pos, q);
  }

  lemma TookWithin(data: seq<Byte>, pos: nat, q: nat, count: nat, vs: seq<nat>, next: nat)
    requires q > 0 && Took(data, pos, q, count, Some((vs, next)))
    ensures next <= |data|
  {
  }

  /** A draw that fails keeps failing when more is asked for. */
  lemma TookLess(data: seq<Byte>, pos: nat, q: nat, a: nat, b: nat)
    requires q > 0 && Took(data, pos, q, a, None)
    ensures Took(data, pos, q, a + b, None)
  {
    hide Kept;
  }

  lemma TookThen(data: seq<Byte>, pos: nat, q: nat, a: nat, us: seq<nat>, mid: nat, b: nat, rest: Option<(seq<nat>, nat)>)
    requires q > 0 && Took(data, pos, q, a, Some((us, mid))) && Took(data, mid, q, b, rest)
    ensures Took(data, pos, q, a + b, match rest case None => None case Some((vs, next)) => Some((us + vs, next)))
  {
    hide Kept, Consumed;
    ConsumedThen(data, pos, mid, match rest case None => mid case Some((_, next)) => next, q, us,
                 match rest case None => [] case Some((vs, _)) => vs) by {
      if rest.None? {
        ConsumedWithin(data, pos, mid, q, us);
        ConsumedNothing(data, mid, q);
      }
    }
  }

  lemma ConsumedWithin(data: seq<Byte>, pos: nat, next: nat, q: nat, vs: seq<nat>)
    requires q > 0 && Consumed(data, pos, next, q, vs)
    ensures next <= |data|
  {
  }

  lemma {:induction false} RowTook(data: seq<Byte>, pos: nat, q: nat, n: nat)
    requires q > 0 && pos <= |data|
    ensures Took(data, pos, q, n, DrawRow(data, pos, q, n))
  {
    hide Took, Draw;
    if n == 0 {
      TookNothing(data, pos, q);
    } else {
      RowTook(data, pos, q, n - 1);
      match DrawRow(data, pos, q, n - 1)
      case None => TookLess(data, pos, q, n - 1, 1);
      case Some((row, next)) =>
        TookWithin(data, pos, q, n - 1, row, next);
        ValueTook(data, next, q);
        TookThen(data, pos, q, n - 1, row, next, 1, match Draw(data, next, q) case None => None case Some((v, next')) => Some(([v], next')));
    }
  }

  lemma ValueTook(data: seq<Byte>, pos: nat, q: nat)
    requires q > 0 && pos <= |data|
    ensures Took(data, pos, q, 1, match Draw(data, pos, q) case None => None case Some((v, next)) => Some(([v], next)))
  {
    hide Kept, Consumed, Draw;
    DrawConsumes(data, pos, q);
  }

  lemma {:induction false} MatrixTook(data: seq<Byte>, pos: nat, q: nat, rows: nat, cols: nat)
    requires q > 0 && pos <= |data|
    ensures Took(data, pos, q, rows * cols, match DrawMatrix(data, pos, q, rows, cols) case None => None case Some((m, next)) => Some((Concat(m), next)))
  {
    hide Took, DrawRow;
    if rows == 0 {
      TookNothing(data, pos, q);
    } else {
      MatrixTook(data, pos, q, rows - 1, cols);
      Steps(rows - 1, 1, cols);
      var before := (rows - 1) * cols;
      match DrawMatrix(data, pos, q, rows - 1, cols)
      case None => TookLess(data, pos, q, before, cols);
      case Some((m, next)) =>
        TookWithin(data, pos, q, before, Concat(m), next);
        RowTook(data, next, q, cols);
        var r := DrawRow(data, next, q, cols);
        TookThen(data, pos, q, before, Concat(m), next, cols, r);
        if r.Some? {
          ConcatSnoc(m, r.value.0);
        }
    }
  }

  lemma {:induction false} CubeTook(data: seq<Byte>, pos: nat, q: nat, depth: nat, rows: nat, cols: nat)
    requires q > 0 && pos <= |data|
    ensures Took(data, pos, q, depth * (rows * cols),
                 match DrawCube(data, pos, q, depth, rows, cols) case None => None case Some((c, next)) => Some((FlatCube(c), next)))
  {
    hide Took, DrawMatrix, Concat;
    var unit := rows * cols;
    if depth == 0 {
      TookNothing(data, pos, q);
      FlatEmpty();
    } else {
      CubeTook(data, pos, q, depth - 1, rows, cols);
      Steps(depth - 1, 1, unit);
      var before := (depth - 1) * unit;
      match DrawCube(data, pos, q, depth - 1, rows, cols)
      case None => TookLess(data, pos, q, before, unit);
      case Some((c, next)) =>
        TookWithin(data, pos, q, before, FlatCube(c), next);
        MatrixTook(data, next, q, rows, cols);
        var r := DrawMatrix(data, next, q, rows, cols);
        TookThen(data, pos, q, before, FlatCube(c), next, unit, match r case None => None case Some((m, next')) => Some((Concat(m), next')));
        if r.Some? {
          FlatCubeSnoc(c, r.value.0);
        }
    }
  }

  lemma FlatEmpty()
    ensures FlatCube([]) == [] && Flat([]) == []
  {
  }

  lemma {:induction false} CubesTook(data: seq<Byte>, pos: nat, q: nat, dealers: nat, depth: nat, rows: nat, cols: nat)
    requires q > 0 && pos <= |data|
    ensures Took(data, pos, q, dealers * (depth * (rows * cols)),
                 match DrawDealers(data, pos, q, dealers, depth, rows, cols) case None => None case Some((cs, next)) => Some((Flat(cs), next)))
  {
    hide Took, DrawCube, Flat, FlatCube;
    var unit := depth * (rows * cols);
    if dealers == 0 {
      TookNothing(data, pos, q);
      FlatEmpty();
    } else {
      CubesTook(data, pos, q, dealers - 1, depth, rows, cols);
      Steps(dealers - 1, 1, unit);
      var before := (dealers - 1) * unit;
      match DrawDealers(data, pos, q, dealers - 1, depth, rows, cols)
      case None => TookLess(data, pos, q, before, unit);
      case Some((cs, next)) =>
        TookWithin(data, pos, q, before, Flat(cs), next);
        CubeTook(data, next, q, depth, rows, cols);
        var r := DrawCube(data, next, q, depth, rows, cols);
        TookThen(data, pos, q, before, Flat(cs), next, unit, match r case None => None case Some((c, next')) => Some((FlatCube(c), next')));
        if r.Some? {
          FlatSnoc(cs, r.value.0);
        }
    }
  }

  /** The coefficients of all dealers are the blocks below q, in order: none is skipped, none is used twice. The draw
      fails exactly when the stream holds fewer such blocks than there are coefficients. */
  lemma DealersTook(data: seq<Byte>, pos: nat, q: nat, dealers: nat, depth: nat, rows: nat, cols: nat)
    requires q > 0 && pos <= |data|
    ensures match DrawDealers(data, pos, q, dealers, depth, rows, cols)
            case None => |Kept(data, pos, |data|, q)| < dealers * (depth * (rows * cols))
            case Some((cs, next)) =>
              Kept(data, pos, next, q) == Flat(cs) && |Flat(cs)| == dealers * (depth * (rows * cols)) && Consumed(data, pos, next, q, Flat(cs))
  {
    hide Kept, Consumed, DrawDealers, Flat;
    CubesTook(data, pos, q, dealers, depth, rows, cols);
    var r := DrawDealers(data, pos, q, dealers, depth, rows, cols);
    if r.Some? {
      KeptOf(data, pos, r.value.1, q, Flat(r.value.0));
    }
  }

  lemma KeptOf(data: seq<Byte>, pos: nat, next: nat, q: nat, vs: seq<nat>)
    requires q > 0 && Consumed(data, pos, next, q, vs)
    ensures Kept(data, pos, next, q) == vs
  {
  }
}
