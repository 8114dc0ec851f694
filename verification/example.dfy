/**
 * The worked example of src/lib.rs's tests: one message built field by field,
 * and the frame it must encode to.
 */
module Example {
  import opened Wrappers
  import opened Bytes
  import AttributeBlock
  import opened AddressedMessage

  /** Text as the bytes the setters store (each character's code, taken modulo 256). */
  function Ascii(s: string): (r: seq<byte>)
  {
    seq(|s|, k requires 0 <= k < |s| => (s[k] as int % 256) as byte)
  }

  lemma AsciiConcat(s: string, t: string)
    ensures Ascii(s + t) == Ascii(s) + Ascii(t)
  {
    assert |Ascii(s + t)| == |Ascii(s) + Ascii(t)|;
    forall k | 0 <= k < |s + t|
      ensures Ascii(s + t)[k] == (Ascii(s) + Ascii(t))[k]
    {
      if k < |s| {
        assert (s + t)[k] == s[k];
      } else {
        assert (s + t)[k] == t[k - |s|];
      }
    }
  }

  const ADDRESS: string := "afrl.cmasi.AirVehicleState"
  const CONTENT_TYPE: string := "lmcp"
  const DESCRIPTOR: string := "afrl.cmasi.AirVehicleState"
  const ENTITY_ID: string := "1"
  const SERVICE_ID: string := "2"
  const PAYLOAD: string := "LMCPthisisthepayloadhereblabla$sads$"

  /** The frame of the tests, one literal written in three pieces. */
  const TEST_DATA: string :=
    "afrl.cmasi.AirVehicleState$lmcp|"
    + "afrl.cmasi.AirVehicleState||1|2$"
    + "LMCPthisisthepayloadhereblabla$sads$"

  /** The example message: empty sender group, and a payload that holds `$` bytes. */
  function TestMessage(): Envelope
  {
    Envelope(
      Ascii(ADDRESS),
      AttributeBlock.Attributes(Ascii(CONTENT_TYPE), Ascii(DESCRIPTOR), [], Ascii(ENTITY_ID), Ascii(SERVICE_ID)),
      Ascii(PAYLOAD))
  }

  /** An attribute block with an empty sender group, spelled as text. */
  lemma AttributesAsText(contentType: string, descriptor: string, entityId: string, serviceId: string)
    ensures Ascii(contentType + "|" + descriptor + "||" + entityId + "|" + serviceId)
            == AttributeBlock.Encode(
                 AttributeBlock.Attributes(Ascii(contentType), Ascii(descriptor), [], Ascii(entityId), Ascii(serviceId)))
  {
    assert Ascii("|") == [AttributeBlock.PIPE];
    assert Ascii("||") == [AttributeBlock.PIPE] + [] + [AttributeBlock.PIPE];
    var t1 := contentType + "|";
    var t2 := t1 + descriptor;
    var t3 := t2 + "||";
    var t4 := t3 + entityId;
    var t5 := t4 + "|";
    AsciiConcat(contentType, "|");
    AsciiConcat(t1, descriptor);
    AsciiConcat(t2, "||");
    AsciiConcat(t3, entityId);
    AsciiConcat(t4, "|");
    AsciiConcat(t5, serviceId);
  }

  /** A frame spelled as text. */
  lemma FrameAsText(address: string, attributes: string, payload: string)
    ensures Ascii(address + "$" + attributes + "$" + payload)
            == Ascii(address) + [DOLLAR] + Ascii(attributes) + [DOLLAR] + Ascii(payload)
  {
    assert Ascii("$") == [DOLLAR];
    AsciiConcat(address, "$");
    AsciiConcat(address + "$", attributes);
    AsciiConcat(address + "$" + attributes, "$");
    AsciiConcat(address + "$" + attributes + "$", payload);
  }

  const ATTRIBUTES: string := CONTENT_TYPE + "|" + DESCRIPTOR + "||" + ENTITY_ID + "|" + SERVICE_ID

  lemma TestDataPieces()
    ensures TEST_DATA == ADDRESS + "$" + ATTRIBUTES + "$" + PAYLOAD
  {
    assert "afrl.cmasi.AirVehicleState$lmcp|" == ADDRESS + "$" + CONTENT_TYPE + "|";
    assert "afrl.cmasi.AirVehicleState||1|2$" == DESCRIPTOR + "||" + ENTITY_ID + "|" + SERVICE_ID + "$";
    Regroup(ADDRESS, CONTENT_TYPE, DESCRIPTOR, ENTITY_ID, SERVICE_ID, PAYLOAD);
  }

  lemma Regroup(address: string, contentType: string, descriptor: string,
                entityId: string, serviceId: string, payload: string)
    ensures (address + "$" + contentType + "|") + (descriptor + "||" + entityId + "|" + serviceId + "$") + payload
            == address + "$" + (contentType + "|" + descriptor + "||" + entityId + "|" + serviceId) + "$" + payload
  {
  }

  /** The example message encodes to exactly the test frame. */
  lemma TestMessageEncodes()
    ensures Encode(TestMessage()) == Ascii(TEST_DATA)
  {
    TestDataPieces();
    AttributesAsText(CONTENT_TYPE, DESCRIPTOR, ENTITY_ID, SERVICE_ID);
    FrameAsText(ADDRESS, ATTRIBUTES, PAYLOAD);
  }

  /** Every field of the example is free of both delimiters. */
  lemma TestMessageWellFormed()
    ensures WellFormed(TestMessage())
  {
    Undelimited(ADDRESS);
    Undelimited(CONTENT_TYPE);
    Undelimited(ENTITY_ID);
    Undelimited(SERVICE_ID);
  }

  /** Text free of `$` and `|` whose characters are all below 256 stays free of both as bytes. */
  lemma Undelimited(s: string)
    requires forall k :: 0 <= k < |s| ==> s[k] as int < 256 && s[k] != '$' && s[k] != '|'
    ensures DOLLAR !in Ascii(s) && AttributeBlock.PIPE !in Ascii(s)
  {
  }

  /** The test frame decodes to exactly the example message. */
  lemma TestDataDecodes()
    ensures Decode(Ascii(TEST_DATA)) == Some(TestMessage())
  {
    TestMessageEncodes();
    TestMessageWellFormed();
    DecodeEncode(TestMessage());
  }

  /** `test_serialize`: set each field on a fresh message, then serialize it. */
  method TestSerialize() returns (s1: seq<byte>)
    ensures s1 == Ascii(TEST_DATA)
  {
    var msg := new AddressedAttributedMessage.Default();
    msg.SetAddress(Ascii(ADDRESS));
    msg.SetContentType(Ascii(CONTENT_TYPE));
    msg.SetDescriptor(Ascii(DESCRIPTOR));
    msg.SetSenderEntityId(Ascii(ENTITY_ID));
    msg.SetSenderServiceId(Ascii(SERVICE_ID));
    msg.SetPayload(Ascii(PAYLOAD));
    assert msg.Value() == TestMessage();
    s1 := msg.Serialize();
    TestMessageEncodes();
  }

  /** `test_deserialize`: the test frame decodes, and serializing the result gives the frame back. */
  method TestDeserialize() returns (s1: seq<byte>)
    ensures s1 == Ascii(TEST_DATA)
  {
    var data := Ascii(TEST_DATA);
    TestMessageEncodes();
    TestMessageWellFormed();
    DecodeEncode(TestMessage());
    var msg := AddressedAttributedMessage.Deserialize(data);
    s1 := msg.value.Serialize();
  }
}
