/** Typed envelopes: a type tag, a schema version, a canonical length, and exactly that much body. */
module Envelopes {
  import opened Octets
  import opened Lengths
  import opened Widths

  const MAX_ENVELOPE_LENGTH: nat := 256 * 1024

  datatype Metadata = Metadata(typeTag: nat, schema: nat, bodyLength: nat)

  datatype EnvelopeError =
    | BodyLimit | HeaderEnd | TypeMismatch | VersionMismatch | BadLength(error: LengthError)
    | BodyLengthMismatch | TrailingData

  datatype Inspected = Accepted(metadata: Metadata) | Rejected(error: EnvelopeError)

  function Word(high: nat, low: nat): nat {
    high * 256 + low
  }

  function InspectEnvelope(input: Octets, expectedType: nat, expectedSchema: nat, maxBody: nat): Inspected {
    if |input| > MAX_ENVELOPE_LENGTH then Rejected(BodyLimit)
    else if |input| < 4 then Rejected(HeaderEnd)
    else
      var typeTag, schema := Word(input[0], input[1]), Word(input[2], input[3]);
      if typeTag != expectedType then Rejected(TypeMismatch)
      else if schema != expectedSchema then Rejected(VersionMismatch)
      else
        var length := GoLength(input[4..]);
        if length.Err? then Rejected(BadLength(length.error))
        else if length.value > maxBody then Rejected(BodyLimit)
        else
          var available := |input| - (4 + length.width);
          if available < length.value then Rejected(BodyLengthMismatch)
          else if available > length.value then Rejected(TrailingData)
          else Accepted(Metadata(typeTag, schema, length.value))
  }

  /** Header, canonical length, body. */
  function Envelope(typeTag: nat, schema: nat, body: Octets): Octets
    requires typeTag < U16_LIMIT && schema < U16_LIMIT
  {
    Header(typeTag, schema) + (LengthBytes(|body|) + body)
  }

  function Header(typeTag: nat, schema: nat): (h: Octets)
    requires typeTag < U16_LIMIT && schema < U16_LIMIT
    ensures |h| == 4
  {
    [typeTag / 256, typeTag % 256, schema / 256, schema % 256]
  }

  /** Whatever is accepted is an envelope of its own body. */
  lemma AcceptedIsEnvelope(input: Octets, typeTag: nat, schema: nat, maxBody: nat)
    requires typeTag < U16_LIMIT && schema < U16_LIMIT
    requires InspectEnvelope(input, typeTag, schema, maxBody).Accepted?
    ensures var m := InspectEnvelope(input, typeTag, schema, maxBody).metadata;
            && m.typeTag == typeTag && m.schema == schema
            && m.bodyLength <= maxBody && m.bodyLength <= |input| <= MAX_ENVELOPE_LENGTH
            && input == Envelope(typeTag, schema, input[|input| - m.bodyLength..])
  {
    var rest := input[4..];
    var length := GoLength(rest);
    EncodeDecoded(rest);
    var body := input[|input| - length.value..];
    assert body == rest[length.width..];
    assert rest == rest[..length.width] + body;
    HeaderOf(input, typeTag, schema, maxBody);
    assert input == input[..4] + rest;
  }

  lemma EnvelopeLayout(typeTag: nat, schema: nat, body: Octets)
    requires typeTag < U16_LIMIT && schema < U16_LIMIT
    ensures var input := Envelope(typeTag, schema, body);
            && |input| == 4 + |LengthBytes(|body|)| + |body|
            && Word(input[0], input[1]) == typeTag && Word(input[2], input[3]) == schema
            && input[4..] == LengthBytes(|body|) + body
  {
    var header := Header(typeTag, schema);
    TakeFront(header, LengthBytes(|body|) + body);
  }

  /** Every envelope within the limits is accepted. */
  lemma EnvelopeIsAccepted(typeTag: nat, schema: nat, body: Octets, maxBody: nat)
    requires typeTag < U16_LIMIT && schema < U16_LIMIT
    requires |body| <= maxBody && |Envelope(typeTag, schema, body)| <= MAX_ENVELOPE_LENGTH
    ensures InspectEnvelope(Envelope(typeTag, schema, body), typeTag, schema, maxBody)
         == Accepted(Metadata(typeTag, schema, |body|))
  {
    EnvelopeLayout(typeTag, schema, body);
    DecodeEncoded(|body|, body);
  }

  ghost predicate IsEnvelope(input: Octets, typeTag: nat, schema: nat, maxBody: nat, body: Octets)
    requires typeTag < U16_LIMIT && schema < U16_LIMIT
  {
    |body| <= maxBody && |input| <= MAX_ENVELOPE_LENGTH && input == Envelope(typeTag, schema, body)
  }

  /** An input is accepted if and only if it is the header, the canonical length and a body within the
      limits; the reported length is that body's, and no other body would do. */
  lemma InspectAcceptsExactlyEnvelopes(input: Octets, typeTag: nat, schema: nat, maxBody: nat)
    requires typeTag < U16_LIMIT && schema < U16_LIMIT
    ensures InspectEnvelope(input, typeTag, schema, maxBody).Accepted?
       <==> exists body :: IsEnvelope(input, typeTag, schema, maxBody, body)
    ensures forall body | IsEnvelope(input, typeTag, schema, maxBody, body) ::
              InspectEnvelope(input, typeTag, schema, maxBody) == Accepted(Metadata(typeTag, schema, |body|))
              && body == input[|input| - |body|..]
  {
    var r := InspectEnvelope(input, typeTag, schema, maxBody);
    if r.Accepted? {
      AcceptedIsEnvelope(input, typeTag, schema, maxBody);
      assert IsEnvelope(input, typeTag, schema, maxBody, input[|input| - r.metadata.bodyLength..]);
    }
    forall body | IsEnvelope(input, typeTag, schema, maxBody, body)
      ensures r == Accepted(Metadata(typeTag, schema, |body|)) && body == input[|input| - |body|..]
    {
      EnvelopeIsAccepted(typeTag, schema, body, maxBody);
      EnvelopeLayout(typeTag, schema, body);
      TakeFront(LengthBytes(|body|), body);
      assert input[|input| - |body|..] == input[4..][|LengthBytes(|body|)|..];
    }
  }

  /** The refusals of a header with a canonical length and whatever follows it, in the order of the checks. */
  lemma FramedRefusals(
    typeTag: nat, schema: nat, length: nat, body: Octets, expectedType: nat, expectedSchema: nat, maxBody: nat)
    requires typeTag < U16_LIMIT && schema < U16_LIMIT && length < U32_LIMIT
    requires |Header(typeTag, schema) + (LengthBytes(length) + body)| <= 262_144
    ensures var input := Header(typeTag, schema) + (LengthBytes(length) + body);
            InspectEnvelope(input, expectedType, expectedSchema, maxBody) ==
            if typeTag != expectedType then Rejected(TypeMismatch)
            else if schema != expectedSchema then Rejected(VersionMismatch)
            else if maxBody < length then Rejected(BodyLimit)
            else if |body| < length then Rejected(BodyLengthMismatch)
            else if |body| > length then Rejected(TrailingData)
            else Accepted(Metadata(typeTag, schema, length))
  {
    TakeFront(Header(typeTag, schema), LengthBytes(length) + body);
    DecodeEncoded(length, body);
  }

  lemma TwoBytes(b: Octets)
    requires |b| == 2
    ensures FromBE(b) == Word(b[0], b[1])
  {
    var high := b[..1];
    assert high[..0] == [] && FromBE(high[..0]) == 0;
    assert FromBE(high) == b[0];
  }

  /** The other refusals: too long, too short for a header, or a length that is not canonical. */
  lemma UnframedRefusals(input: Octets, expectedType: nat, expectedSchema: nat, maxBody: nat, error: LengthError)
    ensures |input| > 262_144 ==> InspectEnvelope(input, expectedType, expectedSchema, maxBody) == Rejected(BodyLimit)
    ensures InspectEnvelope(input, expectedType, expectedSchema, maxBody) == Rejected(HeaderEnd) <==> |input| < 4
    ensures InspectEnvelope(input, expectedType, expectedSchema, maxBody) == Rejected(BadLength(error)) <==>
            && 4 <= |input| <= 262_144 && FromBE(input[..2]) == expectedType && FromBE(input[2..4]) == expectedSchema
            && GoLength(input[4..]) == Err(error)
  {
    if |input| >= 4 {
      TwoBytes(input[..2]);
      TwoBytes(input[2..4]);
    }
  }

  // ---------------------------------------------------------------------------------------------
  // Rebuilding with another body
  // ---------------------------------------------------------------------------------------------

  /** Keeps the header and frames another body; the length is cut to 32 bits. */
  function RebuildEnvelope(input: Octets, body: Octets): Octets
    requires |input| >= 4
  {
    input[..4] + LengthBytes(|body| % U32_LIMIT) + body
  }

  lemma EnvelopeAcceptance(typeTag: nat, schema: nat, body: Octets, maxBody: nat)
    requires typeTag < U16_LIMIT && schema < U16_LIMIT
    ensures var input := Envelope(typeTag, schema, body);
            InspectEnvelope(input, typeTag, schema, maxBody).Accepted?
            <==> |body| <= maxBody && |input| <= MAX_ENVELOPE_LENGTH
  {
    var input := Envelope(typeTag, schema, body);
    EnvelopeLayout(typeTag, schema, body);
    if |input| <= MAX_ENVELOPE_LENGTH { DecodeEncoded(|body|, body); }
  }

  /** A rebuilt envelope is accepted exactly when the new body keeps within the limits, and then frames
      that body under the old header. */
  lemma RebuildKeepsEnvelopes(input: Octets, body: Octets, typeTag: nat, schema: nat, maxBody: nat)
    requires typeTag < U16_LIMIT && schema < U16_LIMIT
    requires |input| >= 4 && InspectEnvelope(input, typeTag, schema, maxBody).Accepted?
    ensures var rebuilt := RebuildEnvelope(input, body);
            && (InspectEnvelope(rebuilt, typeTag, schema, maxBody).Accepted?
                <==> |body| <= maxBody && |rebuilt| <= MAX_ENVELOPE_LENGTH)
            && (|rebuilt| <= MAX_ENVELOPE_LENGTH ==> rebuilt == Envelope(typeTag, schema, body))
  {
    HeaderOf(input, typeTag, schema, maxBody);
    if |RebuildEnvelope(input, body)| <= MAX_ENVELOPE_LENGTH {
      Reframe(input, body, typeTag, schema);
      EnvelopeAcceptance(typeTag, schema, body, maxBody);
    }
  }

  /** Rebuilding with the body that was there changes nothing. */
  lemma RebuildOwnBody(input: Octets, typeTag: nat, schema: nat, maxBody: nat)
    requires typeTag < U16_LIMIT && schema < U16_LIMIT
    requires |input| >= 4 && InspectEnvelope(input, typeTag, schema, maxBody).Accepted?
    ensures var length := InspectEnvelope(input, typeTag, schema, maxBody).metadata.bodyLength;
            length <= |input| && RebuildEnvelope(input, input[|input| - length..]) == input
  {
    AcceptedIsEnvelope(input, typeTag, schema, maxBody);
    HeaderOf(input, typeTag, schema, maxBody);
    Reframe(input, input[|input| - InspectEnvelope(input, typeTag, schema, maxBody).metadata.bodyLength..], typeTag,
      schema);
  }

  lemma HeaderOf(input: Octets, typeTag: nat, schema: nat, maxBody: nat)
    requires typeTag < U16_LIMIT && schema < U16_LIMIT
    requires InspectEnvelope(input, typeTag, schema, maxBody).Accepted?
    ensures |input| >= 4 && input[..4] == Header(typeTag, schema)
  {}

  lemma Reframe(input: Octets, body: Octets, typeTag: nat, schema: nat)
    requires typeTag < U16_LIMIT && schema < U16_LIMIT
    requires |input| >= 4 && input[..4] == Header(typeTag, schema) && |body| < U32_LIMIT
    ensures RebuildEnvelope(input, body) == Envelope(typeTag, schema, body)
  {
    assert |body| % U32_LIMIT == |body|;
  }
}
