/** The byte strings behind the protocol hashes: what is written into the hash determines what was meant. */
module Preimages {
  import opened Zq
  import opened Bytes
  import opened Sorting
  import opened Rounding
  import opened Wire
  import opened Transcripts

  type MatrixFrame = seq<seq<PolyFrame>>

  /** What binary.Write of an int32 (or int64) keeps apart. */
  ghost predicate IsInt32(x: int) {
    -0x8000_0000 <= x < 0x8000_0000
  }

  ghost predicate IsInt64(x: int) {
    -0x8000_0000_0000_0000 <= x < 0x8000_0000_0000_0000
  }

  lemma PowersOf256()
    ensures Pow256(4) == U32 && Pow256(8) == WORD
  {
    U32Bytes();
    WordBytes();
  }

  lemma Int32Injective(x: int, y: int)
    requires IsInt32(x) && IsInt32(y) && Enc32(x) == Enc32(y)
    ensures x == y
  {
    PowersOf256();
    BigEndianDecode(x % U32, 4);
    BigEndianDecode(y % U32, 4);
  }

  lemma Int64Injective(x: int, y: int)
    requires IsInt64(x) && IsInt64(y) && Enc64(x) == Enc64(y)
    ensures x == y
  {
    PowersOf256();
    BigEndianDecode(x % WORD, 8);
    BigEndianDecode(y % WORD, 8);
  }

  // ----- the signer list -----------------------------------------------------------

  function WriteIds(T: seq<int>): (b: seq<Byte>)
    ensures |b| == 4 * |T|
  {
    if T == [] then [] else Enc32(T[0]) + WriteIds(T[1..])
  }

  lemma {:induction false} IdsPrefix(T: seq<int>, T': seq<int>)
    requires |T| == |T'| && WriteIds(T) == WriteIds(T')
    requires forall i :: 0 <= i < |T| ==> IsInt32(T[i]) && IsInt32(T'[i])
    ensures T == T'
    decreases |T|
  {
    hide Enc32;
    if |T| > 0 {
      SplitEqual(Enc32(T[0]), Enc32(T'[0]), WriteIds(T[1..]), WriteIds(T'[1..]));
      Int32Injective(T[0], T'[0]);
      IdsPrefix(T[1..], T'[1..]);
      assert T == [T[0]] + T[1..] && T' == [T'[0]] + T'[1..];
    }
  }

  /** A session id followed by the counted signer list. */
  function WriteSession(sid: int, T: seq<int>): (b: seq<Byte>)
    ensures |b| == 12 + 4 * |T|
  {
    Enc64(sid) + Enc32(|T|) + WriteIds(T)
  }

  ghost predicate IsSession(sid: int, T: seq<int>) {
    IsInt64(sid) && IsInt32(|T|) && forall i :: 0 <= i < |T| ==> IsInt32(T[i])
  }

  lemma SessionPrefix(sid: int, T: seq<int>, sid': int, T': seq<int>, r: seq<Byte>, r': seq<Byte>)
    requires IsSession(sid, T) && IsSession(sid', T') && WriteSession(sid, T) + r == WriteSession(sid', T') + r'
    ensures sid == sid' && T == T' && r == r'
  {
    hide Enc32, Enc64, WriteIds;
    var t, t' := WriteIds(T), WriteIds(T');
    assert WriteSession(sid, T) + r == Enc64(sid) + (Enc32(|T|) + (t + r));
    assert WriteSession(sid', T') + r' == Enc64(sid') + (Enc32(|T'|) + (t' + r'));
    SplitEqual(Enc64(sid), Enc64(sid'), Enc32(|T|) + (t + r), Enc32(|T'|) + (t' + r'));
    SplitEqual(Enc32(|T|), Enc32(|T'|), t + r, t' + r');
    Int64Injective(sid, sid');
    Int32Injective(|T|, |T'|);
    SplitEqual(t, t', r, r');
    IdsPrefix(T, T');
  }

  // ----- primitives.Hash -----------------------------------------------------------

  /** A party without a commitment writes an empty matrix. */
  function CommitmentOf(D: map<int, MatrixFrame>, id: int): MatrixFrame {
    if id in D then D[id] else []
  }

  function WriteCommitments(D: map<int, MatrixFrame>, T: seq<int>): seq<Byte> {
    if T == [] then [] else EncodeMatrix(CommitmentOf(D, T[0])) + WriteCommitments(D, T[1..])
  }

  /** What Hash feeds to the suite. */
  function HashPreimage(A: MatrixFrame, b: seq<PolyFrame>, D: map<int, MatrixFrame>, sid: int, T: seq<int>): seq<Byte> {
    EncodeMatrix(A) + EncodeVector(b) + WriteSession(sid, T) + WriteCommitments(D, T)
  }

  /** Hash, writing its fields in sequence. */
  method WriteHash(A: MatrixFrame, b: seq<PolyFrame>, D: map<int, MatrixFrame>, sid: int, T: seq<int>) returns (buf: seq<Byte>)
    ensures buf == HashPreimage(A, b, D, sid, T)
  {
    hide Enc32, Enc64, EncodeMatrix, EncodeVector;
    buf := EncodeMatrix(A);
    buf := buf + EncodeVector(b);
    buf := buf + Enc64(sid);
    buf := buf + Enc32(|T|);
    ghost var head := buf;
    for i := 0 to |T|
      invariant buf + WriteIds(T[i..]) == head + WriteIds(T)
    {
      assert T[i..][1..] == T[i + 1..];
      assert buf + (Enc32(T[i]) + WriteIds(T[i + 1..])) == buf + Enc32(T[i]) + WriteIds(T[i + 1..]);
      buf := buf + Enc32(T[i]);
    }
    assert buf == head + WriteIds(T);
    ghost var middle := buf;
    for i := 0 to |T|
      invariant buf + WriteCommitments(D, T[i..]) == middle + WriteCommitments(D, T)
    {
      assert T[i..][1..] == T[i + 1..];
      var m := EncodeMatrix(CommitmentOf(D, T[i]));
      assert buf + (m + WriteCommitments(D, T[i + 1..])) == buf + m + WriteCommitments(D, T[i + 1..]);
      buf := buf + m;
    }
    assert middle == EncodeMatrix(A) + EncodeVector(b) + WriteSession(sid, T);
  }

  ghost predicate AreMatrices(D: map<int, MatrixFrame>) {
    forall id :: id in D ==> IsMatrixFrame(D[id])
  }

  lemma {:induction false} CommitmentsIff(D: map<int, MatrixFrame>, D': map<int, MatrixFrame>, T: seq<int>)
    requires AreMatrices(D) && AreMatrices(D')
    ensures WriteCommitments(D, T) == WriteCommitments(D', T) <==>
            forall i :: 0 <= i < |T| ==> CommitmentOf(D, T[i]) == CommitmentOf(D', T[i])
    decreases |T|
  {
    hide EncodeMatrix, IsMatrixFrame;
    if T != [] {
      CommitmentsIff(D, D', T[1..]);
      EmptyIsMatrix();
      if WriteCommitments(D, T) == WriteCommitments(D', T) {
        MatrixPrefix(CommitmentOf(D, T[0]), CommitmentOf(D', T[0]), WriteCommitments(D, T[1..]), WriteCommitments(D', T[1..]));
        forall i | 0 <= i < |T| ensures CommitmentOf(D, T[i]) == CommitmentOf(D', T[i]) {
          if i > 0 {
            assert T[1..][i - 1] == T[i];
          }
        }
      }
    }
  }

  lemma EmptyIsMatrix()
    ensures IsMatrixFrame([])
  {
  }

  /** The preimage of Hash determines A, b, the session, the signer list in order, and every signer's commitment. */
  lemma HashPreimageIff(A: MatrixFrame, b: seq<PolyFrame>, D: map<int, MatrixFrame>, sid: int, T: seq<int>,
                        A': MatrixFrame, b': seq<PolyFrame>, D': map<int, MatrixFrame>, sid': int, T': seq<int>)
    requires IsMatrixFrame(A) && IsMatrixFrame(A') && IsVectorFrame(b) && IsVectorFrame(b')
    requires AreMatrices(D) && AreMatrices(D') && IsSession(sid, T) && IsSession(sid', T')
    ensures HashPreimage(A, b, D, sid, T) == HashPreimage(A', b', D', sid', T') <==>
            && A == A' && b == b' && sid == sid' && T == T'
            && forall i :: 0 <= i < |T| ==> CommitmentOf(D, T[i]) == CommitmentOf(D', T'[i])
  {
    hide EncodeMatrix, EncodeVector, WriteSession, WriteCommitments, IsMatrixFrame, IsVectorFrame, IsSession;
    var d, d' := WriteCommitments(D, T), WriteCommitments(D', T');
    var s, s' := WriteSession(sid, T), WriteSession(sid', T');
    assert HashPreimage(A, b, D, sid, T) == EncodeMatrix(A) + (EncodeVector(b) + (s + d));
    assert HashPreimage(A', b', D', sid', T') == EncodeMatrix(A') + (EncodeVector(b') + (s' + d'));
    if HashPreimage(A, b, D, sid, T) == HashPreimage(A', b', D', sid', T') {
      MatrixPrefix(A, A', EncodeVector(b) + (s + d), EncodeVector(b') + (s' + d'));
      VectorPrefix(b, b', s + d, s' + d');
      SessionPrefix(sid, T, sid', T', d, d');
    }
    CommitmentsIff(D, D', T);
  }

  // ----- GenerateMAC ---------------------------------------------------------------

  function MacPreimage(party: int, D: MatrixFrame, sid: int, T: seq<int>): seq<Byte> {
    Enc64(party) + EncodeMatrix(D) + WriteSession(sid, T)
  }

  /** A MAC binds its sender, commitment, session and signer list. */
  lemma MacPreimageIff(party: int, D: MatrixFrame, sid: int, T: seq<int>, party': int, D': MatrixFrame, sid': int, T': seq<int>)
    requires IsInt64(party) && IsInt64(party') && IsMatrixFrame(D) && IsMatrixFrame(D') && IsSession(sid, T) && IsSession(sid', T')
    ensures MacPreimage(party, D, sid, T) == MacPreimage(party', D', sid', T') <==> party == party' && D == D' && sid == sid' && T == T'
  {
    hide EncodeMatrix, WriteSession, Enc64, IsMatrixFrame, IsSession, IsInt64;
    var s, s' := WriteSession(sid, T), WriteSession(sid', T');
    assert MacPreimage(party, D, sid, T) == Enc64(party) + (EncodeMatrix(D) + s);
    assert MacPreimage(party', D', sid', T') == Enc64(party') + (EncodeMatrix(D') + s');
    if MacPreimage(party, D, sid, T) == MacPreimage(party', D', sid', T') {
      SplitEqual(Enc64(party), Enc64(party'), EncodeMatrix(D) + s, EncodeMatrix(D') + s');
      Int64Injective(party, party');
      MatrixPrefix(D, D', s, s');
      assert s + [] == s && s' + [] == s';
      SessionPrefix(sid, T, sid', T', [], []);
    }
  }
}
