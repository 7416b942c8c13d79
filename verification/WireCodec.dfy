/** The canonical envelope of signatures and group keys: magic, version, then length-prefixed frames. The
    frames themselves are written by the lattice codec, represented here by the frame grammar. */
module WireCodec {
  import opened Zq
  import opened Bytes
  import opened Randomness
  import opened Wire

  const MAGIC_SIGNATURE := 0x434F5253
  const MAGIC_GROUP_KEY := 0x434F5247
  const VERSION := 1

  type Frame = seq<Byte>

  // ----- the envelope --------------------------------------------------------------

  /** A frame behind its uint32 length; the conversion to uint32 drops high bits. */
  function Prefixed(f: Frame): (b: seq<Byte>)
    ensures |b| == 4 + |f|
  {
    BigEndian(|f| % U32, 4) + f
  }

  function EncodeFrames(fs: seq<Frame>): (b: seq<Byte>)
    ensures |b| >= 4 * |fs|
  {
    if fs == [] then [] else Prefixed(fs[0]) + EncodeFrames(fs[1..])
  }

  function Header(magic: nat): (b: seq<Byte>)
    ensures |b| == 6
  {
    BigEndian(magic, 4) + BigEndian(VERSION, 2)
  }

  function Envelope(magic: nat, fs: seq<Frame>): (b: seq<Byte>)
    ensures |b| >= 6 + 4 * |fs|
  {
    Header(magic) + EncodeFrames(fs)
  }

  /** readLenPrefixed on the unread bytes. A body read at the end of the input fails even when it is empty. */
  function TakeFrame(b: seq<Byte>): (r: Option<(Frame, seq<Byte>)>) {
    if |b| < 4 then None
    else
      var l := FromBigEndian(b[..4]);
      if l > |b| - 4 then None
      else if |b| == 4 then None
      else Some((b[4..4 + l], b[4 + l..]))
  }

  lemma TakeFrameIff(b: seq<Byte>, f: Frame, rest: seq<Byte>)
    ensures TakeFrame(b) == Some((f, rest)) <==> b == Prefixed(f) + rest && |f| < U32 && |f| + |rest| > 0
  {
    hide TakeFrame, Prefixed;
    if TakeFrame(b) == Some((f, rest)) {
      TakeFrameSound(b, f, rest);
    }
    if b == Prefixed(f) + rest && |f| < U32 && |f| + |rest| > 0 {
      TakeFrameComplete(b, f, rest);
    }
  }

  lemma TakeFrameSound(b: seq<Byte>, f: Frame, rest: seq<Byte>)
    requires TakeFrame(b) == Some((f, rest))
    ensures b == Prefixed(f) + rest && |f| < U32 && |f| + |rest| > 0
  {
    hide BigEndian, FromBigEndian;
    U32Bytes();
    BigEndianEncode(b[..4]);
    assert b == b[..4] + (f + rest);
    assert |f| == FromBigEndian(b[..4]) == |f| % U32;
  }

  lemma TakeFrameComplete(b: seq<Byte>, f: Frame, rest: seq<Byte>)
    requires b == Prefixed(f) + rest && |f| < U32 && |f| + |rest| > 0
    ensures TakeFrame(b) == Some((f, rest))
  {
    hide BigEndian, FromBigEndian;
    U32Bytes();
    BigEndianDecode(|f|, 4);
    assert b[..4] == BigEndian(|f|, 4);
    assert b[4..4 + |f|] == f && b[4 + |f|..] == rest;
  }

  method ReadLenPrefixed(r: ByteReader) returns (f: Option<Frame>)
    requires r.pos <= |r.data|
    modifies r
    ensures r.pos <= |r.data|
    ensures f.None? <==> TakeFrame(old(r.data[r.pos..])).None?
    ensures f.Some? ==> TakeFrame(old(r.data[r.pos..])) == Some((f.value, r.data[r.pos..]))
  {
    if r.pos + 4 > |r.data| {
      return None;
    }
    var l := FromBigEndian(r.data[r.pos..r.pos + 4]);
    ghost var b := r.data[r.pos..];
    assert b[..4] == r.data[r.pos..r.pos + 4];
    r.pos := r.pos + 4;
    if l > |r.data| - r.pos {
      return None;
    }
    if r.pos >= |r.data| {
      return None;
    }
    f := Some(r.data[r.pos..r.pos + l]);
    r.pos := r.pos + l;
    assert b[4 + l..] == r.data[r.pos..] && b[4..4 + l] == f.value;
  }

  datatype WireError = FrameTooShort | MagicMismatch | VersionMismatch | ReadFailed | TrailingBytes | FrameRejected

  ghost predicate HasHeader(b: seq<Byte>, magic: nat) {
    |b| >= 6 && b[..6] == Header(magic)
  }

  lemma HeaderIff(b: seq<Byte>, magic: nat)
    requires |b| >= 6 && magic < U32
    ensures HasHeader(b, magic) <==> FromBigEndian(b[..4]) == magic && FromBigEndian(b[4..6]) == VERSION
  {
    U32Bytes();
    BigEndianEncode(b[..4]);
    BigEndianEncode(b[4..6]);
    BigEndianDecode(magic, 4);
    BigEndianDecode(VERSION, 2);
    assert b[..6] == b[..4] + b[4..6];
    if b[..6] == Header(magic) {
      assert Header(magic)[..4] == BigEndian(magic, 4) && Header(magic)[4..] == BigEndian(VERSION, 2);
    }
  }

  /** The magic and version checks both decoders start with. */
  method ReadHeader(r: ByteReader, magic: nat) returns (err: Option<WireError>)
    requires r.pos == 0 && |r.data| >= 6 && magic < U32
    modifies r
    ensures err.None? <==> HasHeader(r.data, magic)
    ensures err.None? ==> r.pos == 6
    ensures err.Some? ==> err.value == if FromBigEndian(r.data[..4]) != magic then MagicMismatch else VersionMismatch
  {
    HeaderIff(r.data, magic);
    if FromBigEndian(r.data[..4]) != magic {
      return Some(MagicMismatch);
    }
    r.pos := 4;
    if FromBigEndian(r.data[4..6]) != VERSION {
      return Some(VersionMismatch);
    }
    r.pos := 6;
    return None;
  }

  lemma SplitHeader(b: seq<Byte>, magic: nat, rest: seq<Byte>)
    requires |b| >= 6
    ensures b == Header(magic) + rest <==> HasHeader(b, magic) && b[6..] == rest
  {
    hide Header;
    assert b == b[..6] + b[6..];
  }

  // ----- signatures ----------------------------------------------------------------

  datatype SignatureValue = SignatureValue(C: PolyFrame, Z: seq<PolyFrame>, Delta: seq<PolyFrame>)

  /** The wire form of a signature. */
  ghost function SignatureBytes(s: SignatureValue): (b: seq<Byte>) {
    Envelope(MAGIC_SIGNATURE, [EncodePoly(s.C), EncodeVector(s.Z), EncodeVector(s.Delta)])
  }

  /** Every inner frame is one the bounded walk accepts. */
  ghost predicate SignatureOk(s: SignatureValue) {
    && AcceptedPoly(EncodePoly(s.C), s.C)
    && AcceptedVector(EncodeVector(s.Z), s.Z)
    && AcceptedVector(EncodeVector(s.Delta), s.Delta)
  }

  lemma FramesOfThree(f: Frame, g: Frame, h: Frame)
    ensures EncodeFrames([f, g, h]) == Prefixed(f) + (Prefixed(g) + Prefixed(h))
  {
    hide Prefixed;
    assert [f, g, h][1..] == [g, h] && [g, h][1..] == [h] && [h][1..] == [];
    assert EncodeFrames([h]) == Prefixed(h) + EncodeFrames([]);
    assert EncodeFrames([g, h]) == Prefixed(g) + EncodeFrames([h]);
  }

  lemma FramesOfTwo(f: Frame, g: Frame)
    ensures EncodeFrames([f, g]) == Prefixed(f) + Prefixed(g)
  {
    hide Prefixed;
    assert [f, g][1..] == [g] && [g][1..] == [];
    assert EncodeFrames([g]) == Prefixed(g) + EncodeFrames([]);
  }

  class WireSignature {
    var C: PolyFrame
    var Z: seq<PolyFrame>
    var Delta: seq<PolyFrame>

    constructor (C: PolyFrame, Z: seq<PolyFrame>, Delta: seq<PolyFrame>)
      ensures Value() == SignatureValue(C, Z, Delta)
    {
      this.C, this.Z, this.Delta := C, Z, Delta;
    }

    ghost function Value(): SignatureValue
      reads this
    {
      SignatureValue(C, Z, Delta)
    }

    method MarshalBinary() returns (out: seq<Byte>)
      ensures out == SignatureBytes(Value())
    {
      hide EncodePoly, EncodeVector, BigEndian;
      var c, z, d := EncodePoly(C), EncodeVector(Z), EncodeVector(Delta);
      out := BigEndian(MAGIC_SIGNATURE, 4);
      out := out + BigEndian(VERSION, 2);
      out := out + BigEndian(|c| % U32, 4);
      out := out + c;
      out := out + BigEndian(|z| % U32, 4);
      out := out + z;
      out := out + BigEndian(|d| % U32, 4);
      out := out + d;
      FramesOfThree(c, z, d);
      assert out == Header(MAGIC_SIGNATURE) + (Prefixed(c) + (Prefixed(z) + Prefixed(d)));
    }

    /** UnmarshalBinary accepts exactly the wire forms of signatures whose frames the walk accepts, and then holds that
        signature; on any error the receiver keeps what it had. */
    method UnmarshalBinary(b: seq<Byte>) returns (err: Option<WireError>)
      modifies this
      ensures err.None? <==> exists s :: SignatureOk(s) && b == SignatureBytes(s)
      ensures err.None? ==> SignatureOk(Value()) && b == SignatureBytes(Value())
      ensures err.Some? ==> Value() == old(Value())
    {
      hide SignatureBytes, SignatureOk, HasHeader, TakeFrame, AcceptedPoly, AcceptedVector, PolyOf, ParseVector, WalkPoly, ReadSignature;
      SignatureIff(b);
      var c, z, d;
      err, c, z, d := OpenSignature(b);
      if err.Some? {
        return;
      }
      var ok := ValidateFrames(c, z, d);
      if !ok {
        return Some(FrameRejected);
      }
      AcceptedDecodes(c);
      AcceptedDecodes(z);
      AcceptedDecodes(d);
      C, Z, Delta := PolyOf(c), ParseVector(z).value.0, ParseVector(d).value.0;
      FramesAreValue(b, c, z, d, Value());
      return None;
    }
  }

  /** The header and the three length-prefixed frames, up to the check for trailing bytes. */
  method OpenSignature(b: seq<Byte>) returns (err: Option<WireError>, c: Frame, z: Frame, d: Frame)
    ensures err.None? <==> ReadSignature(b).Some?
    ensures err.None? ==> ReadSignature(b) == Some((c, z, d))
  {
    hide HasHeader, TakeFrame;
    c, z, d := [], [], [];
    if |b| < 18 {
      ReadsNothing(b);
      err := Some(FrameTooShort);
      return;
    }
    var r := new ByteReader(b);
    err := ReadHeader(r, MAGIC_SIGNATURE);
    if err.Some? {
      return;
    }
    var frame := ReadLenPrefixed(r);
    if frame.None? {
      err := Some(ReadFailed);
      return;
    }
    c := frame.value;
    frame := ReadLenPrefixed(r);
    if frame.None? {
      err := Some(ReadFailed);
      return;
    }
    z := frame.value;
    frame := ReadLenPrefixed(r);
    if frame.None? {
      err := Some(ReadFailed);
      return;
    }
    d := frame.value;
    if |r.data| - r.pos != 0 {
      err := Some(TrailingBytes);
    }
  }

  /** The three walks, in the order of the fields. */
  method ValidateFrames(c: Frame, z: Frame, d: Frame) returns (ok: bool)
    ensures ok <==> (exists p :: AcceptedPoly(c, p)) && (exists ps :: AcceptedVector(z, ps)) && (exists ps :: AcceptedVector(d, ps))
  {
    hide AcceptedPoly, AcceptedVector;
    ok := ValidatePolyFrame(c);
    if ok {
      ok := ValidateVectorPolyFrame(z);
    }
    if ok {
      ok := ValidateVectorPolyFrame(d);
    }
  }

  /** The three frames of an envelope, when nothing is missing and nothing trails. */
  ghost function ReadSignature(b: seq<Byte>): (r: Option<(Frame, Frame, Frame)>) {
    if |b| < 6 || !HasHeader(b, MAGIC_SIGNATURE) then None
    else
      match TakeFrame(b[6..])
      case None => None
      case Some((c, rest)) =>
        match TakeFrame(rest)
        case None => None
        case Some((z, rest')) =>
          match TakeFrame(rest')
          case None => None
          case Some((d, left)) => if left == [] then Some((c, z, d)) else None
  }

  lemma ReadsNothing(b: seq<Byte>)
    requires |b| < 18
    ensures ReadSignature(b).None?
  {
    if ReadSignature(b).Some? {
      var (c, z, d) := ReadSignature(b).value;
      ReadSignatureIff(b, c, z, d);
      assert false;
    }
  }

  lemma ReadSignatureIff(b: seq<Byte>, c: Frame, z: Frame, d: Frame)
    ensures ReadSignature(b) == Some((c, z, d)) <==>
            b == Envelope(MAGIC_SIGNATURE, [c, z, d]) && |c| < U32 && |z| < U32 && |d| < U32 && |d| > 0
  {
    hide TakeFrame, Prefixed, HasHeader, Header;
    var third := Prefixed(d);
    var second := Prefixed(z) + third;
    var first := Prefixed(c) + second;
    FramesOfThree(c, z, d);
    assert third == Prefixed(d) + [];
    TakeFrameIff(third, d, []);
    TakeFrameIff(second, z, third);
    TakeFrameIff(first, c, second);
    if |b| >= 6 {
      SplitHeader(b, MAGIC_SIGNATURE, first);
      if ReadSignature(b) == Some((c, z, d)) {
        var (_, rest) := TakeFrame(b[6..]).value;
        var (_, rest') := TakeFrame(rest).value;
        TakeFrameIff(b[6..], c, rest);
        TakeFrameIff(rest, z, rest');
        TakeFrameIff(rest', d, []);
      }
    }
  }

  lemma FramesAreValue(b: seq<Byte>, c: Frame, z: Frame, d: Frame, s: SignatureValue)
    requires ReadSignature(b) == Some((c, z, d))
    requires AcceptedPoly(c, s.C) && AcceptedVector(z, s.Z) && AcceptedVector(d, s.Delta)
    ensures SignatureOk(s) && b == SignatureBytes(s)
  {
    hide ReadSignature, PolyFits, VectorFits, EncodePoly, EncodeVector;
    ReadSignatureIff(b, c, z, d);
  }

  /** Wire forms of acceptable signatures are the envelopes whose frames are accepted. */
  lemma SignatureIff(b: seq<Byte>)
    ensures (exists s :: SignatureOk(s) && b == SignatureBytes(s)) <==>
            var r := ReadSignature(b);
            r.Some? && (exists p :: AcceptedPoly(r.value.0, p)) && (exists ps :: AcceptedVector(r.value.1, ps))
            && (exists ps :: AcceptedVector(r.value.2, ps))
  {
    hide ReadSignature, PolyFits, VectorFits, EncodePoly;
    var r := ReadSignature(b);
    if s :| SignatureOk(s) && b == SignatureBytes(s) {
      ReadSignatureIff(b, EncodePoly(s.C), EncodeVector(s.Z), EncodeVector(s.Delta));
    }
    if r.Some? {
      var (c, z, d) := r.value;
      if p, ps, qs :| AcceptedPoly(c, p) && AcceptedVector(z, ps) && AcceptedVector(d, qs) {
        FramesAreValue(b, c, z, d, SignatureValue(p, ps, qs));
      }
    }
  }

  /** A signature survives the wire exactly when its frames are within the limits; an oversized one, whose length prefix
      is cut to 32 bits, is never read back as something else. */
  lemma SignatureRoundTrip(s: SignatureValue)
    requires IsPolyFrame(s.C) && IsVectorFrame(s.Z) && IsVectorFrame(s.Delta)
    ensures (exists s' :: SignatureOk(s') && SignatureBytes(s) == SignatureBytes(s')) <==> SignatureOk(s)
    ensures forall s' :: SignatureOk(s') && SignatureBytes(s) == SignatureBytes(s') ==> s' == s
  {
    hide SignatureBytes, SignatureOk;
    forall s' | SignatureOk(s') && SignatureBytes(s) == SignatureBytes(s') ensures s' == s {
      SameSignature(s, s');
    }
  }

  lemma SameSignature(s: SignatureValue, s': SignatureValue)
    requires IsPolyFrame(s.C) && IsVectorFrame(s.Z) && IsVectorFrame(s.Delta)
    requires SignatureOk(s') && SignatureBytes(s) == SignatureBytes(s')
    ensures s == s'
  {
    hide ReadSignature, EncodePoly, EncodeVector, PolyFits, VectorFits, IsPolyFrame, Prefixed;
    var c, z, d := EncodePoly(s.C), EncodeVector(s.Z), EncodeVector(s.Delta);
    var c', z', d' := EncodePoly(s'.C), EncodeVector(s'.Z), EncodeVector(s'.Delta);
    var b := SignatureBytes(s);
    FramesOfThree(c, z, d);
    FramesOfThree(c', z', d');
    ReadSignatureIff(b, c, z, d);
    ReadSignatureIff(b, c', z', d');
    assert c == c' && z == z' && d == d';
    PolyFitsIsFrame(s'.C);
    VectorFitsAreFrames(s'.Z, 0);
    VectorFitsAreFrames(s'.Delta, 0);
    assert c + [] == c' + [] && z + [] == z' + [] && d + [] == d' + [];
    PolyPrefix(s.C, s'.C, [], []);
    VectorPrefix(s.Z, s'.Z, [], []);
    VectorPrefix(s.Delta, s'.Delta, [], []);
  }

  lemma PolyFitsIsFrame(p: PolyFrame)
    ensures PolyFits(p, 0) ==> IsPolyFrame(p)
  {
    hide IsPolyFrame;
  }

  lemma {:induction false} AllFrames(ps: seq<PolyFrame>, trailing: nat)
    requires PolysFit(ps, trailing)
    ensures forall i :: 0 <= i < |ps| ==> IsPolyFrame(ps[i])
  {
    hide IsPolyFrame;
    if ps != [] {
      AllFrames(ps[1..], trailing);
      assert forall i :: 1 <= i < |ps| ==> ps[i] == ps[1..][i - 1];
    }
  }

  /** Two acceptable signatures never share a wire form. */
  lemma SignatureBytesInjective(s: SignatureValue, s': SignatureValue)
    requires SignatureOk(s) && SignatureOk(s') && SignatureBytes(s) == SignatureBytes(s')
    ensures s == s'
  {
    hide PolyFits, VectorFits, ReadSignature, EncodePoly;
    var b := SignatureBytes(s);
    ReadSignatureIff(b, EncodePoly(s.C), EncodeVector(s.Z), EncodeVector(s.Delta));
    ReadSignatureIff(b, EncodePoly(s'.C), EncodeVector(s'.Z), EncodeVector(s'.Delta));
    ParseUnique(EncodePoly(s.C));
    ParseUnique(EncodeVector(s.Z));
    ParseUnique(EncodeVector(s.Delta));
  }

  // ----- group keys ----------------------------------------------------------------

  datatype GroupKeyValue = GroupKeyValue(A: seq<seq<PolyFrame>>, BTilde: seq<PolyFrame>)

  ghost function GroupKeyBytes(k: GroupKeyValue): (b: seq<Byte>) {
    Envelope(MAGIC_GROUP_KEY, [EncodeMatrix(k.A), EncodeVector(k.BTilde)])
  }

  ghost predicate GroupKeyOk(k: GroupKeyValue) {
    AcceptedMatrix(EncodeMatrix(k.A), k.A) && AcceptedVector(EncodeVector(k.BTilde), k.BTilde)
  }

  class WireGroupKey {
    var A: seq<seq<PolyFrame>>
    var BTilde: seq<PolyFrame>

    constructor (A: seq<seq<PolyFrame>>, BTilde: seq<PolyFrame>)
      ensures Value() == GroupKeyValue(A, BTilde)
    {
      this.A, this.BTilde := A, BTilde;
    }

    ghost function Value(): GroupKeyValue
      reads this
    {
      GroupKeyValue(A, BTilde)
    }

    method MarshalBinary() returns (out: seq<Byte>)
      ensures out == GroupKeyBytes(Value())
    {
      hide EncodeMatrix, EncodeVector, BigEndian;
      var a, b := EncodeMatrix(A), EncodeVector(BTilde);
      out := BigEndian(MAGIC_GROUP_KEY, 4);
      out := out + BigEndian(VERSION, 2);
      out := out + BigEndian(|a| % U32, 4);
      out := out + a;
      out := out + BigEndian(|b| % U32, 4);
      out := out + b;
      FramesOfTwo(a, b);
      assert out == Header(MAGIC_GROUP_KEY) + (Prefixed(a) + Prefixed(b));
    }

    /** As for signatures: exactly the wire forms of acceptable keys, and no change on an error. */
    method UnmarshalBinary(b: seq<Byte>) returns (err: Option<WireError>)
      modifies this
      ensures err.None? <==> exists k :: GroupKeyOk(k) && b == GroupKeyBytes(k)
      ensures err.None? ==> GroupKeyOk(Value()) && b == GroupKeyBytes(Value())
      ensures err.Some? ==> Value() == old(Value())
    {
      hide GroupKeyBytes, GroupKeyOk, HasHeader, TakeFrame, AcceptedMatrix, AcceptedVector, ParseMatrix, ParseVector;
      GroupKeyIff(b);
      if |b| < 14 {
        ReadsNoKey(b);
        return Some(FrameTooShort);
      }
      var r := new ByteReader(b);
      err := ReadHeader(r, MAGIC_GROUP_KEY);
      if err.Some? {
        return;
      }
      var a := ReadLenPrefixed(r);
      if a.None? {
        return Some(ReadFailed);
      }
      var t := ReadLenPrefixed(r);
      if t.None? {
        return Some(ReadFailed);
      }
      if |r.data| - r.pos != 0 {
        return Some(TrailingBytes);
      }
      assert ReadGroupKey(b) == Some((a.value, t.value));
      var okA := ValidateMatrixPolyFrame(a.value);
      if !okA {
        return Some(FrameRejected);
      }
      var okB := ValidateVectorPolyFrame(t.value);
      if !okB {
        return Some(FrameRejected);
      }
      AcceptedDecodes(a.value);
      AcceptedDecodes(t.value);
      A, BTilde := ParseMatrix(a.value).value.0, ParseVector(t.value).value.0;
      FramesAreKey(b, a.value, t.value, Value());
      return None;
    }
  }

  ghost function ReadGroupKey(b: seq<Byte>): (r: Option<(Frame, Frame)>) {
    if |b| < 6 || !HasHeader(b, MAGIC_GROUP_KEY) then None
    else
      match TakeFrame(b[6..])
      case None => None
      case Some((a, rest)) =>
        match TakeFrame(rest)
        case None => None
        case Some((t, left)) => if left == [] then Some((a, t)) else None
  }

  lemma ReadsNoKey(b: seq<Byte>)
    requires |b| < 14
    ensures ReadGroupKey(b).None?
  {
    if ReadGroupKey(b).Some? {
      var (a, t) := ReadGroupKey(b).value;
      ReadGroupKeyIff(b, a, t);
      assert false;
    }
  }

  lemma ReadGroupKeyIff(b: seq<Byte>, a: Frame, t: Frame)
    ensures ReadGroupKey(b) == Some((a, t)) <==> b == Envelope(MAGIC_GROUP_KEY, [a, t]) && |a| < U32 && |t| < U32 && |t| > 0
  {
    hide TakeFrame, Prefixed, HasHeader, Header;
    var second := Prefixed(t);
    var first := Prefixed(a) + second;
    FramesOfTwo(a, t);
    assert second == Prefixed(t) + [];
    TakeFrameIff(second, t, []);
    TakeFrameIff(first, a, second);
    if |b| >= 6 {
      SplitHeader(b, MAGIC_GROUP_KEY, first);
      if ReadGroupKey(b) == Some((a, t)) {
        var (_, rest) := TakeFrame(b[6..]).value;
        TakeFrameIff(b[6..], a, rest);
        TakeFrameIff(rest, t, []);
      }
    }
  }

  lemma FramesAreKey(b: seq<Byte>, a: Frame, t: Frame, k: GroupKeyValue)
    requires ReadGroupKey(b) == Some((a, t)) && AcceptedMatrix(a, k.A) && AcceptedVector(t, k.BTilde)
    ensures GroupKeyOk(k) && b == GroupKeyBytes(k)
  {
    hide ReadGroupKey, MatrixFits, VectorFits, EncodeMatrix, EncodeVector;
    ReadGroupKeyIff(b, a, t);
  }

  lemma GroupKeyIff(b: seq<Byte>)
    ensures (exists k :: GroupKeyOk(k) && b == GroupKeyBytes(k)) <==>
            var r := ReadGroupKey(b);
            r.Some? && (exists vs :: AcceptedMatrix(r.value.0, vs)) && (exists ps :: AcceptedVector(r.value.1, ps))
  {
    hide ReadGroupKey, MatrixFits, VectorFits, EncodeMatrix;
    var r := ReadGroupKey(b);
    if k :| GroupKeyOk(k) && b == GroupKeyBytes(k) {
      ReadGroupKeyIff(b, EncodeMatrix(k.A), EncodeVector(k.BTilde));
    }
    if r.Some? {
      var (a, t) := r.value;
      if vs, ps :| AcceptedMatrix(a, vs) && AcceptedVector(t, ps) {
        FramesAreKey(b, a, t, GroupKeyValue(vs, ps));
      }
    }
  }

  /** A group key survives the wire exactly when its frames are within the limits, and an oversized one is never read
      back as another. */
  lemma GroupKeyRoundTrip(k: GroupKeyValue)
    requires IsMatrixFrame(k.A) && IsVectorFrame(k.BTilde)
    ensures (exists k' :: GroupKeyOk(k') && GroupKeyBytes(k) == GroupKeyBytes(k')) <==> GroupKeyOk(k)
    ensures forall k' :: GroupKeyOk(k') && GroupKeyBytes(k) == GroupKeyBytes(k') ==> k' == k
  {
    hide GroupKeyBytes, GroupKeyOk;
    forall k' | GroupKeyOk(k') && GroupKeyBytes(k) == GroupKeyBytes(k') ensures k' == k {
      SameGroupKey(k, k');
    }
  }

  lemma SameGroupKey(k: GroupKeyValue, k': GroupKeyValue)
    requires IsMatrixFrame(k.A) && IsVectorFrame(k.BTilde)
    requires GroupKeyOk(k') && GroupKeyBytes(k) == GroupKeyBytes(k')
    ensures k == k'
  {
    hide ReadGroupKey, EncodeMatrix, EncodeVector, MatrixFits, VectorFits, IsVectorFrame, Prefixed;
    var a, t := EncodeMatrix(k.A), EncodeVector(k.BTilde);
    var a', t' := EncodeMatrix(k'.A), EncodeVector(k'.BTilde);
    var b := GroupKeyBytes(k);
    FramesOfTwo(a, t);
    FramesOfTwo(a', t');
    ReadGroupKeyIff(b, a, t);
    ReadGroupKeyIff(b, a', t');
    assert a == a' && t == t';
    MatrixFitsAreFrames(k'.A);
    VectorFitsAreFrames(k'.BTilde, 0);
    assert a + [] == a' + [] && t + [] == t' + [];
    MatrixPrefix(k.A, k'.A, [], []);
    VectorPrefix(k.BTilde, k'.BTilde, [], []);
  }

  lemma VectorFitsAreFrames(ps: seq<PolyFrame>, trailing: nat)
    ensures VectorFits(ps, trailing) ==> IsVectorFrame(ps)
  {
    hide IsPolyFrame;
    if VectorFits(ps, trailing) {
      AllFrames(ps, trailing);
    }
  }

  lemma MatrixFitsAreFrames(vs: seq<seq<PolyFrame>>)
    ensures MatrixFits(vs) ==> IsMatrixFrame(vs)
  {
    hide IsVectorFrame;
    if MatrixFits(vs) {
      AllVectorFrames(vs, 0);
    }
  }

  lemma {:induction false} AllVectorFrames(vs: seq<seq<PolyFrame>>, trailing: nat)
    requires VectorsFit(vs, trailing)
    ensures forall i :: 0 <= i < |vs| ==> IsVectorFrame(vs[i])
  {
    hide IsVectorFrame, VectorFits;
    if vs != [] {
      VectorFitsAreFrames(vs[0], |EncodeVectors(vs[1..])| + trailing);
      AllVectorFrames(vs[1..], trailing);
      assert forall i :: 1 <= i < |vs| ==> vs[i] == vs[1..][i - 1];
    }
  }

  /** Two acceptable keys never share a wire form, and no key shares one with a signature. */
  lemma GroupKeyBytesInjective(k: GroupKeyValue, k': GroupKeyValue, s: SignatureValue)
    requires GroupKeyOk(k) && GroupKeyOk(k')
    ensures GroupKeyBytes(k) == GroupKeyBytes(k') ==> k == k'
    ensures GroupKeyBytes(k) != SignatureBytes(s)
  {
    hide MatrixFits, VectorFits, ReadGroupKey, EncodeMatrix, EncodePoly;
    var b := GroupKeyBytes(k);
    ReadGroupKeyIff(b, EncodeMatrix(k.A), EncodeVector(k.BTilde));
    ReadGroupKeyIff(b, EncodeMatrix(k'.A), EncodeVector(k'.BTilde));
    ParseUnique(EncodeMatrix(k.A));
    ParseUnique(EncodeVector(k.BTilde));
    MagicsDiffer(b, SignatureBytes(s));
  }

  lemma MagicsDiffer(b: seq<Byte>, b': seq<Byte>)
    requires |b| >= 6 && |b'| >= 6 && b[..6] == Header(MAGIC_GROUP_KEY) && b'[..6] == Header(MAGIC_SIGNATURE)
    ensures b != b'
  {
    HeaderIff(b, MAGIC_GROUP_KEY);
    HeaderIff(b', MAGIC_SIGNATURE);
  }
}
