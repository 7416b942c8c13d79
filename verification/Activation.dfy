/** The activation circuit-breaker: a new epoch is accepted only for the views the chain holds. */
module Activation {
  import opened Zq
  import opened Bytes
  import opened Rounding
  import opened Transcripts
  import Wire

  /** The binding fields of one resharing invocation. */
  datatype Invocation = Invocation(
    variant: Part, chainID: Part, networkID: Part, groupID: Part,
    keyEraID: nat, oldGeneration: nat, newGeneration: nat, oldEpoch: nat, newEpoch: nat,
    oldSetHash: Part, newSetHash: Part, thresholdOld: nat, thresholdNew: nat,
    groupKeyHash: Part, nebulaRoot: Part, suiteID: Part, version: Part)

  ghost predicate IsInvocation(x: Invocation) {
    && x.keyEraID < WORD && x.oldGeneration < WORD && x.newGeneration < WORD && x.oldEpoch < WORD && x.newEpoch < WORD
    && x.thresholdOld < U32 && x.thresholdNew < U32
  }

  function StringParts(x: Invocation): (ps: seq<Part>)
    ensures |ps| == 10
  {
    [x.variant, x.chainID, x.networkID, x.groupID, x.oldSetHash, x.newSetHash, x.groupKeyHash, x.nebulaRoot, x.suiteID, x.version]
  }

  function CounterParts(x: Invocation): (ps: seq<Part>)
    ensures |ps| == 7
  {
    [Enc64(x.keyEraID), Enc64(x.oldGeneration), Enc64(x.newGeneration), Enc64(x.oldEpoch), Enc64(x.newEpoch),
     Enc32(x.thresholdOld), Enc32(x.thresholdNew)]
  }

  /** buildTranscriptParts: label and value, field by field. */
  function InvocationParts(x: Invocation): (ps: seq<Part>)
    ensures |ps| == 34
  {
    var s, c := StringParts(x), CounterParts(x);
    [Ascii("variant"), s[0], Ascii("chain_id"), s[1], Ascii("network_id"), s[2], Ascii("group_id"), s[3],
     Ascii("key_era_id"), c[0], Ascii("old_generation"), c[1], Ascii("new_generation"), c[2],
     Ascii("old_epoch_id"), c[3], Ascii("new_epoch_id"), c[4],
     Ascii("old_set_hash"), s[4], Ascii("new_set_hash"), s[5],
     Ascii("threshold_old"), c[5], Ascii("threshold_new"), c[6],
     Ascii("group_public_key_hash"), s[6], Ascii("nebula_root"), s[7],
     Ascii("hash_suite_id"), s[8], Ascii("implementation_version"), s[9]]
  }

  lemma FieldsOf(x: Invocation)
    ensures var ps := InvocationParts(x);
            && StringParts(x) == [ps[1], ps[3], ps[5], ps[7], ps[19], ps[21], ps[27], ps[29], ps[31], ps[33]]
            && CounterParts(x) == [ps[9], ps[11], ps[13], ps[15], ps[17], ps[23], ps[25]]
  {
    hide Ascii, Enc32, Enc64;
  }

  /** The part list determines every field. */
  lemma InvocationPartsIff(x: Invocation, y: Invocation)
    requires IsInvocation(x) && IsInvocation(y)
    ensures InvocationParts(x) == InvocationParts(y) <==> x == y
  {
    if InvocationParts(x) == InvocationParts(y) {
      FieldsOf(x);
      FieldsOf(y);
      SameStrings(x, y);
      SameCounters(x, y);
    }
  }

  lemma SameStrings(x: Invocation, y: Invocation)
    requires StringParts(x) == StringParts(y)
    ensures x.variant == y.variant && x.chainID == y.chainID && x.networkID == y.networkID && x.groupID == y.groupID
    ensures x.oldSetHash == y.oldSetHash && x.newSetHash == y.newSetHash && x.groupKeyHash == y.groupKeyHash
    ensures x.nebulaRoot == y.nebulaRoot && x.suiteID == y.suiteID && x.version == y.version
  {
    assert forall i :: 0 <= i < 10 ==> StringParts(x)[i] == StringParts(y)[i];
  }

  lemma SameCounters(x: Invocation, y: Invocation)
    requires IsInvocation(x) && IsInvocation(y) && CounterParts(x) == CounterParts(y)
    ensures x.keyEraID == y.keyEraID && x.oldGeneration == y.oldGeneration && x.newGeneration == y.newGeneration
    ensures x.oldEpoch == y.oldEpoch && x.newEpoch == y.newEpoch
    ensures x.thresholdOld == y.thresholdOld && x.thresholdNew == y.thresholdNew
  {
    hide Enc32, Enc64;
    assert forall i :: 0 <= i < 7 ==> CounterParts(x)[i] == CounterParts(y)[i];
    Enc64Injective(x.keyEraID, y.keyEraID);
    Enc64Injective(x.oldGeneration, y.oldGeneration);
    Enc64Injective(x.newGeneration, y.newGeneration);
    Enc64Injective(x.oldEpoch, y.oldEpoch);
    Enc64Injective(x.newEpoch, y.newEpoch);
    Enc32Injective(x.thresholdOld, y.thresholdOld);
    Enc32Injective(x.thresholdNew, y.thresholdNew);
  }

  // ----- the certificate -----------------------------------------------------------

  datatype Cert = Cert(invocation: Invocation, exchange: ReshareTranscript, signature: Part)

  datatype ActivationError = TranscriptMismatch | ActivationFailed

  /** The bytes the new committee signs. */
  ghost function SignableBytes(x: Cert, hash: seq<Part> -> Part): Part {
    Ascii("QUASAR-CORONA-ACTIVATE-v1") + hash(InvocationParts(x.invocation)) + hash(ExchangeParts(x.exchange))
  }

  /** The signed bytes tell two certificates apart exactly when one of their two digests does. */
  lemma SignableBytesIff(x: Cert, y: Cert, hash: seq<Part> -> Part)
    requires forall ps :: |hash(ps)| == 32
    ensures SignableBytes(x, hash) == SignableBytes(y, hash) <==>
            && hash(InvocationParts(x.invocation)) == hash(InvocationParts(y.invocation))
            && hash(ExchangeParts(x.exchange)) == hash(ExchangeParts(y.exchange))
  {
    hide InvocationParts, ExchangeParts, Ascii;
    var tag := Ascii("QUASAR-CORONA-ACTIVATE-v1");
    var a, b := hash(InvocationParts(x.invocation)), hash(ExchangeParts(x.exchange));
    var c, d := hash(InvocationParts(y.invocation)), hash(ExchangeParts(y.exchange));
    if tag + a + b == tag + c + d {
      Wire.SplitEqual(tag + a, tag + c, b, d);
      Wire.SplitEqual(tag, tag, a, c);
    }
  }

  /** VerifyActivation. */
  method VerifyActivation(x: Cert, localTranscript: Part, localExchange: Part, hash: seq<Part> -> Part, verify: (Part, Part) -> bool)
    returns (err: Option<ActivationError>)
    ensures err.None? <==>
            && hash(InvocationParts(x.invocation)) == localTranscript
            && hash(ExchangeParts(x.exchange)) == localExchange
            && verify(SignableBytes(x, hash), x.signature)
    ensures err == Some(ActivationFailed) <==>
            && hash(InvocationParts(x.invocation)) == localTranscript
            && hash(ExchangeParts(x.exchange)) == localExchange
            && !verify(SignableBytes(x, hash), x.signature)
  {
    hide InvocationParts, ExchangeParts, Ascii;
    var expected := hash(InvocationParts(x.invocation));
    if expected != localTranscript {
      return Some(TranscriptMismatch);
    }
    var parts := BuildExchangeTranscriptParts(x.exchange);
    var exchange := hash(parts);
    if exchange != localExchange {
      return Some(TranscriptMismatch);
    }
    if !verify(Ascii("QUASAR-CORONA-ACTIVATE-v1") + expected + exchange, x.signature) {
      return Some(ActivationFailed);
    }
    return None;
  }

  /** Agreement on the digests of a resharing: the same table of commitments, the same complaints, the same parties in
      and out. */
  ghost predicate SameView(x: ReshareTranscript, y: ReshareTranscript) {
    && x.digests == y.digests && x.complaints == y.complaints
    && multiset(x.disqualified) == multiset(y.disqualified) && multiset(x.qualified) == multiset(y.qualified)
  }

  ghost predicate Collision(hash: seq<Part> -> Part, ps: seq<Part>, ps': seq<Part>) {
    ps != ps' && hash(ps) == hash(ps')
  }

  /** A certificate accepted against a local view was made for that view, unless the hash collides. */
  lemma ActivationBindsView(x: Cert, invocation: Invocation, exchange: ReshareTranscript, hash: seq<Part> -> Part)
    requires IsInvocation(x.invocation) && IsInvocation(invocation) && IsTranscript(x.exchange) && IsTranscript(exchange)
    requires hash(InvocationParts(x.invocation)) == hash(InvocationParts(invocation))
    requires hash(ExchangeParts(x.exchange)) == hash(ExchangeParts(exchange))
    ensures x.invocation == invocation || Collision(hash, InvocationParts(x.invocation), InvocationParts(invocation))
    ensures SameView(x.exchange, exchange) || Collision(hash, ExchangeParts(x.exchange), ExchangeParts(exchange))
  {
    hide InvocationParts, ExchangeParts, IsTranscript;
    InvocationPartsIff(x.invocation, invocation);
    ExchangePartsIff(x.exchange, exchange);
  }
}
