/** The bounded walk over lattice frames, against the grammar it recognises:
      poly   := levels:u64, n:u64, levels * n coefficients:u64
      vector := count:u64, count polys
      matrix := rows:u64, rows vectors
    all little-endian. */
module Wire {
  import opened Zq
  import opened Bytes
  import opened Rounding

  const MAX_COUNT := 4096
  const MAX_FRAME := 16777216

  // ----- the grammar ---------------------------------------------------------------

  datatype PolyFrame = PolyFrame(levels: nat, n: nat, coeffs: seq<nat>)

  ghost predicate IsPolyFrame(p: PolyFrame) {
    |p.coeffs| == p.levels * p.n && p.levels < WORD && p.n < WORD && AreWords(p.coeffs)
  }

  ghost predicate AreWords(ws: seq<nat>) {
    forall i :: 0 <= i < |ws| ==> ws[i] < WORD
  }

  function EncodeWords(ws: seq<nat>): (b: seq<Byte>)
    ensures |b| == 8 * |ws|
  {
    if ws == [] then [] else LittleEndian(ws[0], 8) + EncodeWords(ws[1..])
  }

  function EncodePoly(p: PolyFrame): (b: seq<Byte>)
    ensures |b| == 16 + 8 * |p.coeffs|
  {
    LittleEndian(p.levels, 8) + LittleEndian(p.n, 8) + EncodeWords(p.coeffs)
  }

  function EncodePolys(ps: seq<PolyFrame>): (b: seq<Byte>)
    ensures |b| >= 16 * |ps|
  {
    if ps == [] then [] else EncodePoly(ps[0]) + EncodePolys(ps[1..])
  }

  function EncodeVector(ps: seq<PolyFrame>): (b: seq<Byte>)
    ensures |b| >= 8 + 16 * |ps|
  {
    LittleEndian(|ps|, 8) + EncodePolys(ps)
  }

  function EncodeVectors(vs: seq<seq<PolyFrame>>): (b: seq<Byte>)
    ensures |b| >= 8 * |vs|
  {
    if vs == [] then [] else EncodeVector(vs[0]) + EncodeVectors(vs[1..])
  }

  function EncodeMatrix(vs: seq<seq<PolyFrame>>): (b: seq<Byte>) {
    LittleEndian(|vs|, 8) + EncodeVectors(vs)
  }

  // ----- the bounds a frame must meet ----------------------------------------------

  /** A count that stands before `after` bytes of the frame. */
  ghost predicate CountFits(n: nat, after: nat) {
    n <= after && n <= MAX_COUNT
  }

  /** Both counts of a poly that is followed by `trailing` bytes. */
  ghost predicate PolyFits(p: PolyFrame, trailing: nat) {
    IsPolyFrame(p) && CountFits(p.levels, 8 + 8 * |p.coeffs| + trailing) && CountFits(p.n, 8 * |p.coeffs| + trailing)
  }

  ghost predicate PolysFit(ps: seq<PolyFrame>, trailing: nat) {
    ps == [] || (PolyFits(ps[0], |EncodePolys(ps[1..])| + trailing) && PolysFit(ps[1..], trailing))
  }

  ghost predicate VectorFits(ps: seq<PolyFrame>, trailing: nat) {
    CountFits(|ps|, |EncodePolys(ps)| + trailing) && PolysFit(ps, trailing)
  }

  ghost predicate VectorsFit(vs: seq<seq<PolyFrame>>, trailing: nat) {
    vs == [] || (VectorFits(vs[0], |EncodeVectors(vs[1..])| + trailing) && VectorsFit(vs[1..], trailing))
  }

  ghost predicate MatrixFits(vs: seq<seq<PolyFrame>>) {
    CountFits(|vs|, |EncodeVectors(vs)|) && VectorsFit(vs, 0)
  }

  // ----- counts and words ----------------------------------------------------------

  lemma WordBytes()
    ensures Pow256(8) == WORD
  {
    assert Pow256(4) == 256 * (256 * (256 * (256 * Pow256(0))));
    assert Pow256(8) == 256 * (256 * (256 * (256 * Pow256(4))));
  }

  function DecodeWords(b: seq<Byte>): (ws: seq<nat>)
    requires |b| % 8 == 0
    ensures |ws| == |b| / 8
  {
    if b == [] then [] else [FromLittleEndian(b[..8])] + DecodeWords(b[8..])
  }

  lemma {:induction false} DecodeWordsSound(b: seq<Byte>)
    requires |b| % 8 == 0
    ensures AreWords(DecodeWords(b)) && EncodeWords(DecodeWords(b)) == b
  {
    if b != [] {
      DecodeWordsSound(b[8..]);
      LittleEndianEncode(b[..8]);
      WordBytes();
      assert DecodeWords(b)[1..] == DecodeWords(b[8..]);
      assert b == b[..8] + b[8..];
    }
  }

  lemma {:induction false} DecodeWordsComplete(ws: seq<nat>)
    requires AreWords(ws)
    ensures DecodeWords(EncodeWords(ws)) == ws
  {
    if ws != [] {
      DecodeWordsComplete(ws[1..]);
      WordBytes();
      LittleEndianDecode(ws[0], 8);
      var b := EncodeWords(ws);
      assert b[..8] == LittleEndian(ws[0], 8) && b[8..] == EncodeWords(ws[1..]);
    }
  }

  /** takeCount. */
  function TakeCount(b: seq<Byte>): (r: Option<(nat, seq<Byte>)>) {
    if |b| < 8 then None
    else
      var n, rest := FromLittleEndian(b[..8]), b[8..];
      if n > |rest| then None
      else if n > MAX_COUNT then None
      else Some((n, rest))
  }

  /** A count is taken exactly when the bytes start with it and enough bytes follow. */
  lemma TakeCountIff(b: seq<Byte>, n: nat, rest: seq<Byte>)
    ensures TakeCount(b) == Some((n, rest)) <==> b == LittleEndian(n, 8) + rest && CountFits(n, |rest|)
  {
    if TakeCount(b) == Some((n, rest)) {
      LittleEndianEncode(b[..8]);
    }
    if b == LittleEndian(n, 8) + rest && CountFits(n, |rest|) {
      WordBytes();
      LittleEndianDecode(n, 8);
      assert b[..8] == LittleEndian(n, 8) && b[8..] == rest;
    }
  }

  // ----- one poly ------------------------------------------------------------------

  /** levels * n * 8 on uint64. */
  function Product64(levels: nat, n: nat): nat {
    (levels * n % WORD * 8) % WORD
  }

  /** The division guard admits exactly the products that fit, and then nothing wraps. */
  lemma GuardExact(levels: nat, n: nat, len: nat)
    requires levels <= MAX_COUNT && n <= MAX_COUNT
    ensures n != 0 ==> (levels <= len / 8 / n <==> levels * n * 8 <= len)
    ensures Product64(levels, n) == levels * n * 8
  {
    if n != 0 {
      DivIff(levels, n, len / 8);
    }
    var p := levels * n;
    ProductBound(levels, n);
    assert p % WORD == p;
    assert (p * 8) % WORD == p * 8;
  }

  lemma ProductBound(levels: nat, n: nat)
    requires levels <= MAX_COUNT && n <= MAX_COUNT
    ensures levels * n <= MAX_COUNT * MAX_COUNT
  {
    ProductMonotone(levels, n, MAX_COUNT);
    ProductMonotone(MAX_COUNT, levels, MAX_COUNT);
    assert levels * MAX_COUNT == MAX_COUNT * levels;
  }

  lemma ProductMonotone(x: nat, y: nat, z: nat)
    requires y <= z
    ensures x * y <= x * z
  {
    assert x * z == x * y + x * (z - y);
    assert x * (z - y) >= 0;
  }

  lemma DivIff(a: nat, b: nat, c: nat)
    requires b > 0
    ensures a <= c / b <==> a * b <= c
  {
    DivMod(c, b);
    var d := c / b;
    if a <= d {
      assert a * b <= d * b;
    } else {
      assert (d + 1) * b <= a * b;
    }
  }

  /** walkPoly. */
  function WalkPoly(b: seq<Byte>): (r: Option<seq<Byte>>)
    ensures r.Some? ==> |r.value| + 16 <= |b|
  {
    match TakeCount(b)
    case None => None
    case Some((levels, rest)) =>
      match TakeCount(rest)
      case None => None
      case Some((n, rest')) =>
        var room := |rest'| / 8;
        GuardExact(levels, n, |rest'|);
        if n != 0 && levels > room / n then None
        else Some(rest'[Product64(levels, n)..])
  }

  lemma WalkPolyRoom(b: seq<Byte>)
    requires WalkPoly(b).Some?
    ensures TakeCount(b).Some? && TakeCount(TakeCount(b).value.1).Some?
    ensures var (levels, rest) := TakeCount(b).value; var (n, rest') := TakeCount(rest).value; levels * n * 8 <= |rest'| && levels * n * 8 % 8 == 0
  {
    hide FromLittleEndian, Product64;
    var (levels, rest) := TakeCount(b).value;
    var (n, rest') := TakeCount(rest).value;
    GuardExact(levels, n, |rest'|);
    SmallCounts(levels, n);
  }

  /** The poly a successful walk passed over. */
  function PolyOf(b: seq<Byte>): (p: PolyFrame)
    requires WalkPoly(b).Some?
  {
    WalkPolyRoom(b);
    var (levels, rest) := TakeCount(b).value;
    var (n, rest') := TakeCount(rest).value;
    PolyFrame(levels, n, DecodeWords(rest'[..levels * n * 8]))
  }

  lemma PolyParts(b: seq<Byte>, p: PolyFrame, rest1: seq<Byte>, rest2: seq<Byte>, rest: seq<Byte>)
    requires rest2 == EncodeWords(p.coeffs) + rest
    requires rest1 == LittleEndian(p.n, 8) + rest2
    ensures b == LittleEndian(p.levels, 8) + rest1 <==> b == EncodePoly(p) + rest
  {
    hide LittleEndian, EncodeWords;
    assert LittleEndian(p.levels, 8) + (LittleEndian(p.n, 8) + (EncodeWords(p.coeffs) + rest)) == EncodePoly(p) + rest;
  }

  lemma WalkPolySound(b: seq<Byte>)
    requires WalkPoly(b).Some?
    ensures var (p, rest) := (PolyOf(b), WalkPoly(b).value); b == EncodePoly(p) + rest && PolyFits(p, |rest|)
  {
    hide LittleEndian, FromLittleEndian, EncodeWords, DecodeWords, EncodePoly, TakeCount, Product64;
    var (levels, rest1) := TakeCount(b).value;
    var (n, rest2) := TakeCount(rest1).value;
    TakeCountIff(b, levels, rest1);
    TakeCountIff(rest1, n, rest2);
    GuardExact(levels, n, |rest2|);
    var cut := levels * n * 8;
    DecodeWordsSound(rest2[..cut]);
    assert rest2 == rest2[..cut] + rest2[cut..];
    SmallCounts(levels, n);
    PolyParts(b, PolyOf(b), rest1, rest2, rest2[cut..]);
  }

  lemma SmallCounts(levels: nat, n: nat)
    requires levels <= MAX_COUNT && n <= MAX_COUNT
    ensures levels < WORD && n < WORD && levels * n * 8 / 8 == levels * n && levels * n * 8 % 8 == 0
  {
  }

  lemma WalkPolyComplete(b: seq<Byte>, p: PolyFrame, rest: seq<Byte>)
    requires b == EncodePoly(p) + rest && PolyFits(p, |rest|)
    ensures WalkPoly(b) == Some(rest) && PolyOf(b) == p
  {
    hide LittleEndian, FromLittleEndian, EncodeWords, DecodeWords, EncodePoly, TakeCount, Product64;
    var rest2 := EncodeWords(p.coeffs) + rest;
    var rest1 := LittleEndian(p.n, 8) + rest2;
    PolyParts(b, p, rest1, rest2, rest);
    TakeCountIff(b, p.levels, rest1);
    TakeCountIff(rest1, p.n, rest2);
    GuardExact(p.levels, p.n, |rest2|);
    var cut := p.levels * p.n * 8;
    assert cut == 8 * |p.coeffs|;
    assert rest2[cut..] == rest && rest2[..cut] == EncodeWords(p.coeffs);
    DecodeWordsComplete(p.coeffs);
  }

  // ----- vectors -------------------------------------------------------------------

  /** The polys a walk over `count` polys passes over, and what is left. */
  function ParsePolys(b: seq<Byte>, count: nat): (r: Option<(seq<PolyFrame>, seq<Byte>)>)
    decreases count
  {
    if count == 0 then Some(([], b))
    else
      match WalkPoly(b)
      case None => None
      case Some(rest) =>
        match ParsePolys(rest, count - 1)
        case None => None
        case Some((ps, left)) => Some(([PolyOf(b)] + ps, left))
  }

  lemma {:induction false} ParsePolysSound(b: seq<Byte>, count: nat)
    requires ParsePolys(b, count).Some?
    ensures var (ps, left) := ParsePolys(b, count).value; |ps| == count && b == EncodePolys(ps) + left && PolysFit(ps, |left|)
    decreases count
  {
    hide WalkPoly, PolyOf, EncodePoly, PolyFits;
    if count > 0 {
      var rest := WalkPoly(b).value;
      WalkPolySound(b);
      ParsePolysSound(rest, count - 1);
      var (ps, left) := ParsePolys(rest, count - 1).value;
      assert ([PolyOf(b)] + ps)[1..] == ps;
      assert b == EncodePoly(PolyOf(b)) + (EncodePolys(ps) + left);
    }
  }

  lemma {:induction false} ParsePolysComplete(b: seq<Byte>, ps: seq<PolyFrame>, left: seq<Byte>)
    requires b == EncodePolys(ps) + left && PolysFit(ps, |left|)
    ensures ParsePolys(b, |ps|) == Some((ps, left))
    decreases |ps|
  {
    hide WalkPoly, PolyOf, EncodePoly, PolyFits;
    if ps != [] {
      var rest := EncodePolys(ps[1..]) + left;
      assert b == EncodePoly(ps[0]) + rest;
      WalkPolyComplete(b, ps[0], rest);
      ParsePolysComplete(rest, ps[1..], left);
      assert [ps[0]] + ps[1..] == ps;
    } else {
      assert b == left;
    }
  }

  function ParseVector(b: seq<Byte>): (r: Option<(seq<PolyFrame>, seq<Byte>)>) {
    match TakeCount(b)
    case None => None
    case Some((count, rest)) => ParsePolys(rest, count)
  }

  /** The vector walk passes over exactly the encodings of vectors that fit. */
  lemma ParseVectorIff(b: seq<Byte>, ps: seq<PolyFrame>, left: seq<Byte>)
    ensures ParseVector(b) == Some((ps, left)) <==> b == EncodeVector(ps) + left && VectorFits(ps, |left|)
  {
    hide TakeCount, ParsePolys, PolysFit, EncodePolys, LittleEndian;
    if ParseVector(b) == Some((ps, left)) {
      var (count, rest) := TakeCount(b).value;
      TakeCountIff(b, count, rest);
      ParsePolysSound(rest, count);
      assert b == LittleEndian(count, 8) + (EncodePolys(ps) + left);
    }
    if b == EncodeVector(ps) + left && VectorFits(ps, |left|) {
      var rest := EncodePolys(ps) + left;
      assert b == LittleEndian(|ps|, 8) + rest;
      TakeCountIff(b, |ps|, rest);
      ParsePolysComplete(rest, ps, left);
    }
  }

  ghost function Left<T>(r: Option<(T, seq<Byte>)>): Option<seq<Byte>> {
    match r
    case None => None
    case Some((_, left)) => Some(left)
  }

  /** walkVector. */
  method WalkVector(b: seq<Byte>) returns (r: Option<seq<Byte>>)
    ensures r == Left(ParseVector(b))
  {
    hide TakeCount, WalkPoly, PolyOf;
    var head := TakeCount(b);
    if head.None? {
      return None;
    }
    var (count, rest) := head.value;
    ghost var start := rest;
    for i := 0 to count
      invariant Left(ParsePolys(start, count)) == Left(ParsePolys(rest, count - i))
    {
      var next := WalkPoly(rest);
      if next.None? {
        return None;
      }
      rest := next.value;
    }
    return Some(rest);
  }

  // ----- matrices ------------------------------------------------------------------

  function ParseVectors(b: seq<Byte>, rows: nat): (r: Option<(seq<seq<PolyFrame>>, seq<Byte>)>)
    decreases rows
  {
    if rows == 0 then Some(([], b))
    else
      match ParseVector(b)
      case None => None
      case Some((ps, rest)) =>
        match ParseVectors(rest, rows - 1)
        case None => None
        case Some((vs, left)) => Some(([ps] + vs, left))
  }

  lemma {:induction false} ParseVectorsSound(b: seq<Byte>, rows: nat)
    requires ParseVectors(b, rows).Some?
    ensures var (vs, left) := ParseVectors(b, rows).value; |vs| == rows && b == EncodeVectors(vs) + left && VectorsFit(vs, |left|)
    decreases rows
  {
    hide ParseVector, EncodeVector, VectorFits;
    if rows > 0 {
      var (ps, rest) := ParseVector(b).value;
      ParseVectorIff(b, ps, rest);
      ParseVectorsSound(rest, rows - 1);
      var (vs, left) := ParseVectors(rest, rows - 1).value;
      assert ([ps] + vs)[1..] == vs;
      assert b == EncodeVector(ps) + (EncodeVectors(vs) + left);
    }
  }

  lemma {:induction false} ParseVectorsComplete(b: seq<Byte>, vs: seq<seq<PolyFrame>>, left: seq<Byte>)
    requires b == EncodeVectors(vs) + left && VectorsFit(vs, |left|)
    ensures ParseVectors(b, |vs|) == Some((vs, left))
    decreases |vs|
  {
    hide ParseVector, EncodeVector, VectorFits;
    if vs != [] {
      var rest := EncodeVectors(vs[1..]) + left;
      assert b == EncodeVector(vs[0]) + rest;
      ParseVectorIff(b, vs[0], rest);
      ParseVectorsComplete(rest, vs[1..], left);
      assert [vs[0]] + vs[1..] == vs;
    } else {
      assert b == left;
    }
  }

  function ParseMatrix(b: seq<Byte>): (r: Option<(seq<seq<PolyFrame>>, seq<Byte>)>) {
    match TakeCount(b)
    case None => None
    case Some((rows, rest)) => ParseVectors(rest, rows)
  }

  lemma ParseMatrixIff(b: seq<Byte>, vs: seq<seq<PolyFrame>>)
    ensures ParseMatrix(b) == Some((vs, [])) <==> b == EncodeMatrix(vs) && MatrixFits(vs)
  {
    hide TakeCount, ParseVectors, VectorsFit, EncodeVectors, LittleEndian;
    if ParseMatrix(b) == Some((vs, [])) {
      var (rows, rest) := TakeCount(b).value;
      TakeCountIff(b, rows, rest);
      ParseVectorsSound(rest, rows);
      assert EncodeVectors(vs) + [] == EncodeVectors(vs);
    }
    if b == EncodeMatrix(vs) && MatrixFits(vs) {
      var rest := EncodeVectors(vs);
      TakeCountIff(b, |vs|, rest);
      assert rest == rest + [];
      ParseVectorsComplete(rest, vs, []);
    }
  }

  // ----- the three validators ------------------------------------------------------

  ghost predicate AcceptedPoly(frame: seq<Byte>, p: PolyFrame) {
    |frame| <= MAX_FRAME && frame == EncodePoly(p) && PolyFits(p, 0)
  }

  ghost predicate AcceptedVector(frame: seq<Byte>, ps: seq<PolyFrame>) {
    |frame| <= MAX_FRAME && frame == EncodeVector(ps) && VectorFits(ps, 0)
  }

  ghost predicate AcceptedMatrix(frame: seq<Byte>, vs: seq<seq<PolyFrame>>) {
    |frame| <= MAX_FRAME && frame == EncodeMatrix(vs) && MatrixFits(vs)
  }

  /** ValidatePolyFrame accepts exactly the encodings of polys within the bounds. */
  method ValidatePolyFrame(frame: seq<Byte>) returns (ok: bool)
    ensures ok <==> exists p :: AcceptedPoly(frame, p)
  {
    if |frame| > MAX_FRAME {
      return false;
    }
    var rest := WalkPoly(frame);
    ok := rest.Some? && |rest.value| == 0;
    if ok {
      WalkPolySound(frame);
      assert AcceptedPoly(frame, PolyOf(frame));
    }
    forall p | AcceptedPoly(frame, p) ensures ok {
      assert frame == EncodePoly(p) + [];
      WalkPolyComplete(frame, p, []);
    }
  }

  method ValidateVectorPolyFrame(frame: seq<Byte>) returns (ok: bool)
    ensures ok <==> exists ps :: AcceptedVector(frame, ps)
  {
    if |frame| > MAX_FRAME {
      return false;
    }
    var rest := WalkVector(frame);
    ok := rest.Some? && |rest.value| == 0;
    if ok {
      var (ps, left) := ParseVector(frame).value;
      ParseVectorIff(frame, ps, left);
      assert EncodeVector(ps) + [] == EncodeVector(ps);
      assert AcceptedVector(frame, ps);
    }
    forall ps | AcceptedVector(frame, ps) ensures ok {
      assert frame == EncodeVector(ps) + [];
      ParseVectorIff(frame, ps, []);
    }
  }

  method ValidateMatrixPolyFrame(frame: seq<Byte>) returns (ok: bool)
    ensures ok <==> exists vs :: AcceptedMatrix(frame, vs)
  {
    if |frame| > MAX_FRAME {
      return false;
    }
    var rest := WalkMatrix(frame);
    ok := rest.Some? && |rest.value| == 0;
    if ok {
      var (vs, left) := ParseMatrix(frame).value;
      ParseMatrixIff(frame, vs);
      assert AcceptedMatrix(frame, vs);
    }
    forall vs | AcceptedMatrix(frame, vs) ensures ok {
      ParseMatrixIff(frame, vs);
    }
  }

  method WalkMatrix(b: seq<Byte>) returns (r: Option<seq<Byte>>)
    ensures r == Left(ParseMatrix(b))
  {
    hide TakeCount, ParseVector;
    var head := TakeCount(b);
    if head.None? {
      return None;
    }
    var (rows, rest) := head.value;
    ghost var start := rest;
    for i := 0 to rows
      invariant Left(ParseVectors(start, rows)) == Left(ParseVectors(rest, rows - i))
    {
      var next := WalkVector(rest);
      if next.None? {
        return None;
      }
      rest := next.value;
    }
    return Some(rest);
  }

  // ----- consequences --------------------------------------------------------------

  /** One byte string, one reading. */
  lemma ParseUnique(frame: seq<Byte>)
    ensures forall p, p' :: AcceptedPoly(frame, p) && AcceptedPoly(frame, p') ==> p == p'
    ensures forall ps, ps' :: AcceptedVector(frame, ps) && AcceptedVector(frame, ps') ==> ps == ps'
    ensures forall vs, vs' :: AcceptedMatrix(frame, vs) && AcceptedMatrix(frame, vs') ==> vs == vs'
  {
    forall p | AcceptedPoly(frame, p) ensures WalkPoly(frame).Some? && p == PolyOf(frame) {
      assert frame == EncodePoly(p) + [];
      WalkPolyComplete(frame, p, []);
    }
    forall ps | AcceptedVector(frame, ps) ensures ParseVector(frame) == Some((ps, [])) {
      assert frame == EncodeVector(ps) + [];
      ParseVectorIff(frame, ps, []);
    }
    forall vs | AcceptedMatrix(frame, vs) ensures ParseMatrix(frame) == Some((vs, [])) {
      ParseMatrixIff(frame, vs);
    }
  }

  /** A poly as the library writes it: at least one level and one coefficient, within the cap. */
  ghost predicate Honest(p: PolyFrame) {
    IsPolyFrame(p) && 1 <= p.levels <= MAX_COUNT && 1 <= p.n <= MAX_COUNT
  }

  /** The bounds beyond the cap bite only on a poly with no level or no coefficient. */
  lemma PolyFitsIff(p: PolyFrame, trailing: nat)
    requires IsPolyFrame(p)
    ensures PolyFits(p, trailing) <==>
            p.levels <= MAX_COUNT && p.n <= MAX_COUNT && (p.levels >= 1 || p.n <= trailing) && (p.n >= 1 || p.levels <= 8 + trailing)
  {
    var c := |p.coeffs|;
    assert c == p.levels * p.n;
    if p.levels >= 1 && p.n >= 1 {
      ProductAtLeast(p.levels, p.n);
    }
  }

  lemma ProductAtLeast(a: nat, b: nat)
    requires a >= 1 && b >= 1
    ensures a * b >= a && a * b >= b
  {
    assert a * b == a + a * (b - 1);
    assert a * b == b + (a - 1) * b;
  }

  lemma {:induction false} HonestPolysFit(ps: seq<PolyFrame>, trailing: nat)
    requires forall i :: 0 <= i < |ps| ==> Honest(ps[i])
    ensures PolysFit(ps, trailing)
  {
    if ps != [] {
      PolyFitsIff(ps[0], |EncodePolys(ps[1..])| + trailing);
      HonestPolysFit(ps[1..], trailing);
    }
  }

  lemma {:induction false} HonestVectorsFit(vs: seq<seq<PolyFrame>>, trailing: nat)
    requires forall k :: 0 <= k < |vs| ==> HonestVector(vs[k])
    ensures VectorsFit(vs, trailing)
  {
    hide Honest, PolysFit, EncodePolys, EncodeVector, LittleEndian;
    if vs != [] {
      HonestPolysFit(vs[0], |EncodeVectors(vs[1..])| + trailing);
      HonestVectorsFit(vs[1..], trailing);
    }
  }

  ghost predicate HonestVector(ps: seq<PolyFrame>) {
    |ps| <= MAX_COUNT && forall i :: 0 <= i < |ps| ==> Honest(ps[i])
  }

  /** Every frame an honest party writes within the size limit is accepted. */
  lemma HonestFramesAccepted(p: PolyFrame, ps: seq<PolyFrame>, vs: seq<seq<PolyFrame>>)
    ensures Honest(p) && |EncodePoly(p)| <= MAX_FRAME ==> AcceptedPoly(EncodePoly(p), p)
    ensures HonestVector(ps) && |EncodeVector(ps)| <= MAX_FRAME ==> AcceptedVector(EncodeVector(ps), ps)
    ensures |vs| <= MAX_COUNT && (forall k :: 0 <= k < |vs| ==> HonestVector(vs[k])) && |EncodeMatrix(vs)| <= MAX_FRAME
            ==> AcceptedMatrix(EncodeMatrix(vs), vs)
  {
    if Honest(p) {
      PolyFitsIff(p, 0);
    }
    if HonestVector(ps) {
      HonestPolysFit(ps, 0);
    }
    if |vs| <= MAX_COUNT && forall k :: 0 <= k < |vs| ==> HonestVector(vs[k]) {
      HonestVectorsFit(vs, 0);
    }
  }

  /** What an accepted frame decodes to. */
  lemma AcceptedDecodes(frame: seq<Byte>)
    ensures (exists p :: AcceptedPoly(frame, p)) ==> WalkPoly(frame).Some? && AcceptedPoly(frame, PolyOf(frame))
    ensures (exists ps :: AcceptedVector(frame, ps)) ==> ParseVector(frame).Some? && AcceptedVector(frame, ParseVector(frame).value.0)
    ensures (exists vs :: AcceptedMatrix(frame, vs)) ==> ParseMatrix(frame).Some? && AcceptedMatrix(frame, ParseMatrix(frame).value.0)
  {
    hide ParseVector, WalkPoly, PolyOf, ParseMatrix, PolyFits, VectorFits, MatrixFits, EncodePoly, EncodeVector, EncodeMatrix;
    if p :| AcceptedPoly(frame, p) {
      assert frame == EncodePoly(p) + [];
      WalkPolyComplete(frame, p, []);
    }
    if ps :| AcceptedVector(frame, ps) {
      assert frame == EncodeVector(ps) + [];
      ParseVectorIff(frame, ps, []);
    }
    if vs :| AcceptedMatrix(frame, vs) {
      ParseMatrixIff(frame, vs);
    }
  }

  // ----- the encodings are prefix-free ---------------------------------------------

  ghost predicate IsVectorFrame(ps: seq<PolyFrame>) {
    |ps| < WORD && forall i :: 0 <= i < |ps| ==> IsPolyFrame(ps[i])
  }

  ghost predicate IsMatrixFrame(vs: seq<seq<PolyFrame>>) {
    |vs| < WORD && forall i :: 0 <= i < |vs| ==> IsVectorFrame(vs[i])
  }

  lemma SplitEqual<T>(a: seq<T>, b: seq<T>, r: seq<T>, r': seq<T>)
    requires |a| == |b| && a + r == b + r'
    ensures a == b && r == r'
  {
    assert a == (a + r)[..|a|] && b == (b + r')[..|a|];
    assert r == (a + r)[|a|..] && r' == (b + r')[|a|..];
  }

  lemma WordPrefix(x: nat, y: nat, r: seq<Byte>, r': seq<Byte>)
    requires x < WORD && y < WORD && LittleEndian(x, 8) + r == LittleEndian(y, 8) + r'
    ensures x == y && r == r'
  {
    hide LittleEndian;
    SplitEqual(LittleEndian(x, 8), LittleEndian(y, 8), r, r');
    WordBytes();
    LittleEndianDecode(x, 8);
    LittleEndianDecode(y, 8);
  }

  lemma PolyPrefix(p: PolyFrame, p': PolyFrame, r: seq<Byte>, r': seq<Byte>)
    requires IsPolyFrame(p) && IsPolyFrame(p') && EncodePoly(p) + r == EncodePoly(p') + r'
    ensures p == p' && r == r'
  {
    hide LittleEndian, EncodeWords;
    var c, c' := EncodeWords(p.coeffs), EncodeWords(p'.coeffs);
    var n, n' := LittleEndian(p.n, 8), LittleEndian(p'.n, 8);
    assert EncodePoly(p) + r == LittleEndian(p.levels, 8) + (n + (c + r));
    assert EncodePoly(p') + r' == LittleEndian(p'.levels, 8) + (n' + (c' + r'));
    WordPrefix(p.levels, p'.levels, n + (c + r), n' + (c' + r'));
    WordPrefix(p.n, p'.n, c + r, c' + r');
    SplitEqual(c, c', r, r');
    DecodeWordsComplete(p.coeffs);
    DecodeWordsComplete(p'.coeffs);
  }

  lemma {:induction false} PolysPrefix(ps: seq<PolyFrame>, ps': seq<PolyFrame>, r: seq<Byte>, r': seq<Byte>)
    requires |ps| == |ps'| && EncodePolys(ps) + r == EncodePolys(ps') + r'
    requires forall i :: 0 <= i < |ps| ==> IsPolyFrame(ps[i]) && IsPolyFrame(ps'[i])
    ensures ps == ps' && r == r'
    decreases |ps|
  {
    hide EncodePoly, IsPolyFrame;
    if |ps| > 0 {
      var t, t' := EncodePolys(ps[1..]), EncodePolys(ps'[1..]);
      assert EncodePolys(ps) + r == EncodePoly(ps[0]) + (t + r) && EncodePolys(ps') + r' == EncodePoly(ps'[0]) + (t' + r');
      PolyPrefix(ps[0], ps'[0], t + r, t' + r');
      PolysPrefix(ps[1..], ps'[1..], r, r');
      assert ps == [ps[0]] + ps[1..] && ps' == [ps'[0]] + ps'[1..];
    } else {
      assert EncodePolys(ps) + r == r && EncodePolys(ps') + r' == r';
    }
  }

  lemma VectorPrefix(ps: seq<PolyFrame>, ps': seq<PolyFrame>, r: seq<Byte>, r': seq<Byte>)
    requires IsVectorFrame(ps) && IsVectorFrame(ps') && EncodeVector(ps) + r == EncodeVector(ps') + r'
    ensures ps == ps' && r == r'
  {
    hide LittleEndian, EncodePolys, IsPolyFrame;
    var t, t' := EncodePolys(ps), EncodePolys(ps');
    assert EncodeVector(ps) + r == LittleEndian(|ps|, 8) + (t + r) && EncodeVector(ps') + r' == LittleEndian(|ps'|, 8) + (t' + r');
    WordPrefix(|ps|, |ps'|, t + r, t' + r');
    PolysPrefix(ps, ps', r, r');
  }

  lemma {:induction false} VectorsPrefix(vs: seq<seq<PolyFrame>>, vs': seq<seq<PolyFrame>>, r: seq<Byte>, r': seq<Byte>)
    requires |vs| == |vs'| && EncodeVectors(vs) + r == EncodeVectors(vs') + r'
    requires forall i :: 0 <= i < |vs| ==> IsVectorFrame(vs[i]) && IsVectorFrame(vs'[i])
    ensures vs == vs' && r == r'
    decreases |vs|
  {
    hide EncodeVector, IsVectorFrame;
    if |vs| > 0 {
      var t, t' := EncodeVectors(vs[1..]), EncodeVectors(vs'[1..]);
      assert EncodeVectors(vs) + r == EncodeVector(vs[0]) + (t + r) && EncodeVectors(vs') + r' == EncodeVector(vs'[0]) + (t' + r');
      VectorPrefix(vs[0], vs'[0], t + r, t' + r');
      VectorsPrefix(vs[1..], vs'[1..], r, r');
      assert vs == [vs[0]] + vs[1..] && vs' == [vs'[0]] + vs'[1..];
    } else {
      assert EncodeVectors(vs) + r == r && EncodeVectors(vs') + r' == r';
    }
  }

  lemma MatrixPrefix(vs: seq<seq<PolyFrame>>, vs': seq<seq<PolyFrame>>, r: seq<Byte>, r': seq<Byte>)
    requires IsMatrixFrame(vs) && IsMatrixFrame(vs') && EncodeMatrix(vs) + r == EncodeMatrix(vs') + r'
    ensures vs == vs' && r == r'
  {
    hide LittleEndian, EncodeVectors, IsVectorFrame;
    var t, t' := EncodeVectors(vs), EncodeVectors(vs');
    assert EncodeMatrix(vs) + r == LittleEndian(|vs|, 8) + (t + r) && EncodeMatrix(vs') + r' == LittleEndian(|vs'|, 8) + (t' + r');
    WordPrefix(|vs|, |vs'|, t + r, t' + r');
    VectorsPrefix(vs, vs', r, r');
  }
}
