/** The deterministic random stream behind the resharing kernel. An io.Reader is a finite
    byte string and a cursor; reading past its end is the panic of sampleModQ. */
module Randomness {
  import opened Zq
  import opened Bytes

  class ByteReader {
    const data: seq<Byte>
    var pos: nat

    constructor (bytes: seq<Byte>)
      ensures data == bytes && pos == 0
    {
      data := bytes;
      pos := 0;
    }
  }

  /** The first block of ByteLen(q) bytes at or after pos whose value is below q. */
  ghost function Draw(data: seq<Byte>, pos: nat, q: nat): (r: Option<(nat, nat)>)
    requires q > 0
    ensures r.Some? ==> r.value.0 < q && pos < r.value.1 <= |data|
    decreases |data| - pos
  {
    var len := ByteLen(q);
    if pos + len > |data| then None
    else
      var v := FromBigEndian(data[pos..pos + len]);
      if v < q then Some((v, pos + len)) else Draw(data, pos + len, q)
  }

  /** sampleModQ: rejection sampling, block by block, until a value below q appears. */
  method SampleModQ(rs: ByteReader, q: nat) returns (r: Option<nat>)
    requires q > 0
    modifies rs
    ensures match Draw(rs.data, old(rs.pos), q)
            case None => r.None?
            case Some((v, next)) => r == Some(v) && rs.pos == next
  {
    var len := ByteLen(q);
    while rs.pos + len <= |rs.data|
      invariant Draw(rs.data, rs.pos, q) == Draw(rs.data, old(rs.pos), q)
      decreases |rs.data| - rs.pos
    {
      var v := FromBigEndian(rs.data[rs.pos..rs.pos + len]);
      rs.pos := rs.pos + len;
      if v < q {
        return Some(v);
      }
    }
    return None;
  }

  ghost function DrawRow(data: seq<Byte>, pos: nat, q: nat, n: nat): (r: Option<(seq<nat>, nat)>)
    requires q > 0
    ensures r.Some? ==> |r.value.0| == n && forall k :: 0 <= k < n ==> r.value.0[k] < q
  {
    if n == 0 then Some(([], pos))
    else match DrawRow(data, pos, q, n - 1)
      case None => None
      case Some((row, next)) =>
        match Draw(data, next, q)
        case None => None
        case Some((v, next')) => Some((row + [v], next'))
  }

  ghost predicate IsMatrix(m: seq<seq<nat>>, rows: nat, cols: nat, q: nat) {
    |m| == rows &&
    forall i :: 0 <= i < rows ==> |m[i]| == cols && forall k :: 0 <= k < cols ==> m[i][k] < q
  }

  ghost function DrawMatrix(data: seq<Byte>, pos: nat, q: nat, rows: nat, cols: nat): (r: Option<(seq<seq<nat>>, nat)>)
    requires q > 0
    ensures r.Some? ==> IsMatrix(r.value.0, rows, cols, q)
  {
    if rows == 0 then Some(([], pos))
    else match DrawMatrix(data, pos, q, rows - 1, cols)
      case None => None
      case Some((m, next)) =>
        match DrawRow(data, next, q, cols)
        case None => None
        case Some((row, next')) => Some((m + [row], next'))
  }

  method SampleMatrix(rs: ByteReader, q: nat, rows: nat, cols: nat) returns (r: Option<seq<seq<nat>>>)
    requires q > 0
    modifies rs
    ensures match DrawMatrix(rs.data, old(rs.pos), q, rows, cols)
            case None => r.None?
            case Some((m, next)) => r == Some(m) && rs.pos == next
  {
    var m := [];
    var i := 0;
    while i < rows
      invariant 0 <= i <= rows
      invariant DrawMatrix(rs.data, old(rs.pos), q, i, cols) == Some((m, rs.pos))
    {
      var row := SampleRow(rs, q, cols);
      i := i + 1;
      if row.None? {
        MatrixFails(rs.data, old(rs.pos), q, i, rows, cols);
        return None;
      }
      m := m + [row.value];
    }
    return Some(m);
  }

  lemma {:induction false} MatrixFails(data: seq<Byte>, pos: nat, q: nat, i: nat, rows: nat, cols: nat)
    requires q > 0 && i <= rows && DrawMatrix(data, pos, q, i, cols).None?
    ensures DrawMatrix(data, pos, q, rows, cols).None?
  {
    if i < rows {
      MatrixFails(data, pos, q, i, rows - 1, cols);
    }
  }

  method SampleRow(rs: ByteReader, q: nat, n: nat) returns (r: Option<seq<nat>>)
    requires q > 0
    modifies rs
    ensures match DrawRow(rs.data, old(rs.pos), q, n)
            case None => r.None?
            case Some((row, next)) => r == Some(row) && rs.pos == next
  {
    var row := [];
    var k := 0;
    while k < n
      invariant 0 <= k <= n
      invariant DrawRow(rs.data, old(rs.pos), q, k) == Some((row, rs.pos))
    {
      var v := SampleModQ(rs, q);
      k := k + 1;
      if v.None? {
        RowFails(rs.data, old(rs.pos), q, k, n);
        return None;
      }
      row := row + [v.value];
    }
    return Some(row);
  }

  lemma {:induction false} RowFails(data: seq<Byte>, pos: nat, q: nat, k: nat, n: nat)
    requires q > 0 && k <= n && DrawRow(data, pos, q, k).None?
    ensures DrawRow(data, pos, q, n).None?
  {
    if k < n {
      RowFails(data, pos, q, k, n - 1);
    }
  }

  type Cube = seq<seq<seq<nat>>>

  ghost predicate IsCube(c: Cube, depth: nat, rows: nat, cols: nat, q: nat) {
    |c| == depth && forall p :: 0 <= p < depth ==> IsMatrix(c[p], rows, cols, q)
  }

  /** One dealer's fresh coefficients: depth matrices drawn in order. */
  ghost function DrawCube(data: seq<Byte>, pos: nat, q: nat, depth: nat, rows: nat, cols: nat): (r: Option<(Cube, nat)>)
    requires q > 0
    ensures r.Some? ==> IsCube(r.value.0, depth, rows, cols, q)
  {
    if depth == 0 then Some(([], pos))
    else match DrawCube(data, pos, q, depth - 1, rows, cols)
      case None => None
      case Some((c, next)) =>
        match DrawMatrix(data, next, q, rows, cols)
        case None => None
        case Some((m, next')) => Some((c + [m], next'))
  }

  method SampleCube(rs: ByteReader, q: nat, depth: nat, rows: nat, cols: nat) returns (r: Option<Cube>)
    requires q > 0
    modifies rs
    ensures match DrawCube(rs.data, old(rs.pos), q, depth, rows, cols)
            case None => r.None?
            case Some((c, next)) => r == Some(c) && rs.pos == next
  {
    var c := [];
    var p := 0;
    while p < depth
      invariant 0 <= p <= depth
      invariant DrawCube(rs.data, old(rs.pos), q, p, rows, cols) == Some((c, rs.pos))
    {
      var m := SampleMatrix(rs, q, rows, cols);
      p := p + 1;
      if m.None? {
        CubeFails(rs.data, old(rs.pos), q, p, depth, rows, cols);
        return None;
      }
      c := c + [m.value];
    }
    return Some(c);
  }

  lemma {:induction false} CubeFails(data: seq<Byte>, pos: nat, q: nat, p: nat, depth: nat, rows: nat, cols: nat)
    requires q > 0 && p <= depth && DrawCube(data, pos, q, p, rows, cols).None?
    ensures DrawCube(data, pos, q, depth, rows, cols).None?
  {
    if p < depth {
      CubeFails(data, pos, q, p, depth - 1, rows, cols);
    }
  }

  /** The fresh coefficients of `dealers` dealers, one cube after another. */
  ghost function DrawDealers(data: seq<Byte>, pos: nat, q: nat, dealers: nat, depth: nat, rows: nat, cols: nat): (r: Option<(seq<Cube>, nat)>)
    requires q > 0
    ensures r.Some? ==> |r.value.0| == dealers && forall i :: 0 <= i < dealers ==> IsCube(r.value.0[i], depth, rows, cols, q)
  {
    if dealers == 0 then Some(([], pos))
    else match DrawDealers(data, pos, q, dealers - 1, depth, rows, cols)
      case None => None
      case Some((cs, next)) =>
        match DrawCube(data, next, q, depth, rows, cols)
        case None => None
        case Some((c, next')) => Some((cs + [c], next'))
  }

  lemma {:induction false} DealersFail(data: seq<Byte>, pos: nat, q: nat, i: nat, dealers: nat, depth: nat, rows: nat, cols: nat)
    requires q > 0 && i <= dealers && DrawDealers(data, pos, q, i, depth, rows, cols).None?
    ensures DrawDealers(data, pos, q, dealers, depth, rows, cols).None?
  {
    if i < dealers {
      DealersFail(data, pos, q, i, dealers - 1, depth, rows, cols);
    }
  }
}
