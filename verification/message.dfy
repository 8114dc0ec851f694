/**
 * The addressed, attributed message (`AddressedAttributedMessage` in
 * src/lib.rs): `address $ attributes $ payload`, where only the first two `$`
 * bytes are structural and the payload is everything after the second one.
 */
module AddressedMessage {
  import opened Wrappers
  import opened Bytes
  import AttributeBlock

  /** The component delimiter, ASCII `$`. */
  const DOLLAR: byte := 0x24

  datatype Envelope = Envelope(
    address: seq<byte>,
    attributes: AttributeBlock.Attributes,
    payload: seq<byte>)

  /** The frame `address $ content_type|descriptor|... $ payload`. */
  function Encode(e: Envelope): (r: seq<byte>)
    ensures |r| == |e.address| + 1 + |AttributeBlock.Encode(e.attributes)| + 1 + |e.payload|
    ensures r[..|e.address|] == e.address && r[|e.address|] == DOLLAR
    ensures r[|r| - |e.payload|..] == e.payload
  {
    e.address + [DOLLAR] + AttributeBlock.Encode(e.attributes) + [DOLLAR] + e.payload
  }

  /**
   * The bytes before the first `$` and the bytes after it; with no `$` the
   * first part is empty and the second is the whole input.
   */
  function ScanFirst(data: seq<byte>): (seq<byte>, seq<byte>)
  {
    match FirstIndex(data, DOLLAR)
    case None => ([], data)
    case Some(i) => (data[..i], data[i + 1..])
  }

  /**
   * Two forward scans for the first `$`: the first closes the address, the
   * second the attribute section, which must decode; what follows is the
   * payload, verbatim. A scan that finds no `$` leaves its part at the empty
   * default and the decode still succeeds.
   */
  function Decode(data: seq<byte>): (r: Option<Envelope>)
    ensures DOLLAR !in data ==> r == Some(Envelope([], AttributeBlock.Empty, data))
  {
    var (address, rest) := ScanFirst(data);
    match FirstIndex(rest, DOLLAR)
    case None => Some(Envelope(address, AttributeBlock.Empty, rest))
    case Some(j) =>
      match AttributeBlock.Decode(rest[..j])
      case None => None
      case Some(attrs) => Some(Envelope(address, attrs, rest[j + 1..]))
  }

  /** Neither the address nor any attribute field holds a byte that would mis-frame the message. */
  predicate WellFormed(e: Envelope)
  {
    DOLLAR !in e.address
    && AttributeBlock.FieldsFree(e.attributes, AttributeBlock.PIPE)
    && AttributeBlock.FieldsFree(e.attributes, DOLLAR)
  }

  /** A scan over `address $ rest` with a `$`-free address stops at that `$`. */
  lemma ScanFirstAfter(address: seq<byte>, rest: seq<byte>)
    requires DOLLAR !in address
    ensures ScanFirst(address + [DOLLAR] + rest) == (address, rest)
  {
    var data := address + [DOLLAR] + rest;
    FirstIndexAfterPrefix(address, rest, DOLLAR);
    assert data[..|address|] == address;
    assert data[|address| + 1..] == rest;
  }

  /** Once the address is cut off, the decode is decided by the first `$` of what is left. */
  lemma DecodeAfterScan(data: seq<byte>, section: seq<byte>, payload: seq<byte>)
    requires ScanFirst(data).1 == section + [DOLLAR] + payload && DOLLAR !in section
    ensures Decode(data) == match AttributeBlock.Decode(section)
                            case None => None
                            case Some(a) => Some(Envelope(ScanFirst(data).0, a, payload))
  {
    var rest := ScanFirst(data).1;
    FirstIndexAfterPrefix(section, payload, DOLLAR);
    assert rest[..|section|] == section;
    assert rest[|section| + 1..] == payload;
  }

  /**
   * First match wins: in `address $ section $ payload` with `$`-free address
   * and section, the address and section are exactly those bytes, the decode
   * fails exactly when the section does, and the payload is kept verbatim
   * even when it holds further `$` bytes.
   */
  lemma DecodeFrame(address: seq<byte>, section: seq<byte>, payload: seq<byte>)
    requires DOLLAR !in address && DOLLAR !in section
    ensures Decode(address + [DOLLAR] + section + [DOLLAR] + payload)
            == match AttributeBlock.Decode(section)
               case None => None
               case Some(a) => Some(Envelope(address, a, payload))
  {
    var rest := section + [DOLLAR] + payload;
    assert address + [DOLLAR] + section + [DOLLAR] + payload == address + [DOLLAR] + rest;
    ScanFirstAfter(address, rest);
    FirstIndexAfterPrefix(section, payload, DOLLAR);
    assert rest[..|section|] == section;
    assert rest[|section| + 1..] == payload;
  }

  /** With fewer than two `$` the decode never fails, and the attributes stay empty. */
  lemma DecodeFewerThanTwo(data: seq<byte>)
    requires Count(data, DOLLAR) < 2
    ensures Decode(data).Some? && Decode(data).value.attributes == AttributeBlock.Empty
  {
    if DOLLAR in data {
      CutAtFirst(data, DOLLAR);
      assert DOLLAR !in ScanFirst(data).1;
    }
  }

  /** With exactly one `$`, the address is the bytes before it and the payload the bytes after it. */
  lemma DecodeOneDelimiter(before: seq<byte>, after: seq<byte>)
    requires DOLLAR !in before && DOLLAR !in after
    ensures Decode(before + [DOLLAR] + after) == Some(Envelope(before, AttributeBlock.Empty, after))
  {
    ScanFirstAfter(before, after);
  }

  /**
   * Regrouping a frame around its second `$`. Kept as its own lemma so that
   * `CutTwice` sees this one equation and not the sequence axioms behind it.
   */
  lemma Frame(address: seq<byte>, section: seq<byte>, payload: seq<byte>)
    ensures address + [DOLLAR] + (section + [DOLLAR] + payload)
            == address + [DOLLAR] + section + [DOLLAR] + payload
  {
  }

  /** An input with two or more `$` is its first two `$`-chunks and the rest, framed by `$`. */
  lemma CutTwice(data: seq<byte>) returns (payload: seq<byte>)
    requires Count(data, DOLLAR) >= 2
    ensures var chunks := Split(data, DOLLAR);
      data == chunks[0] + [DOLLAR] + chunks[1] + [DOLLAR] + payload
  {
    CutAtFirst(data, DOLLAR);
    var i := FirstIndex(data, DOLLAR).value;
    var address, rest := data[..i], data[i + 1..];
    CutAtFirst(rest, DOLLAR);
    var j := FirstIndex(rest, DOLLAR).value;
    var section := rest[..j];
    payload := rest[j + 1..];
    SplitAtFirst(data, DOLLAR);
    SplitAtFirst(rest, DOLLAR);
    Frame(address, section, payload);
  }

  /**
   * With two or more `$`: the address is the first `$`-chunk, the attribute
   * section is the second, the decode fails exactly when that section does
   * not decode, and otherwise the payload is every byte after the second `$`.
   */
  lemma DecodeTwoDelimiters(data: seq<byte>)
    requires Count(data, DOLLAR) >= 2
    ensures var chunks := Split(data, DOLLAR);
      var section := AttributeBlock.Decode(chunks[1]);
      && (Decode(data).None? <==> section.None?)
      && (Decode(data).Some? ==>
            && Decode(data).value.address == chunks[0]
            && Decode(data).value.attributes == section.value
            && data == chunks[0] + [DOLLAR] + chunks[1] + [DOLLAR] + Decode(data).value.payload)
  {
    var chunks := Split(data, DOLLAR);
    var payload := CutTwice(data);
    DecodeFrame(chunks[0], chunks[1], payload);
  }

  /**
   * Re-encoding a decoded message reproduces the input exactly when the input
   * has at least two `$`; with fewer, the re-encoding adds the missing ones.
   */
  lemma EncodeDecode(data: seq<byte>)
    requires Decode(data).Some?
    ensures Encode(Decode(data).value) == data <==> Count(data, DOLLAR) >= 2
  {
    var e := Decode(data).value;
    EncodeCount(e);
    if Count(data, DOLLAR) >= 2 {
      var chunks := Split(data, DOLLAR);
      var payload := CutTwice(data);
      DecodeFrame(chunks[0], chunks[1], payload);
    }
  }

  /** Every frame carries at least the two structural `$` bytes. */
  lemma EncodeCount(e: Envelope)
    ensures Count(Encode(e), DOLLAR) >= 2
  {
    var sep := [DOLLAR];
    assert Count(sep, DOLLAR) == 1 by {
      assert sep[1..] == [];
    }
    var attrs := AttributeBlock.Encode(e.attributes);
    CountConcat(e.address, sep, DOLLAR);
    CountConcat(e.address + sep, attrs, DOLLAR);
    CountConcat(e.address + sep + attrs, sep, DOLLAR);
    CountConcat(e.address + sep + attrs + sep, e.payload, DOLLAR);
  }

  /** A well-formed message survives an encode/decode round trip, whatever its payload holds. */
  lemma DecodeEncode(e: Envelope)
    requires WellFormed(e)
    ensures Decode(Encode(e)) == Some(e)
  {
    var attrs := AttributeBlock.Encode(e.attributes);
    assert DOLLAR !in attrs by {
      AttributeBlock.EncodeCount(e.attributes, DOLLAR);
    }
    DecodeFrame(e.address, attrs, e.payload);
    AttributeBlock.DecodeEncode(e.attributes);
  }

  /**
   * The index loop of the decoder: walks `data` from index 0 and, at the
   * first `$`, drains the bytes before it, drops the `$` and stops. With no
   * `$`, nothing is drained and `after` is the whole input.
   */
  method ScanForDelimiter(data: seq<byte>) returns (found: bool, before: seq<byte>, after: seq<byte>)
    ensures found <==> DOLLAR in data
    ensures found ==> data == before + [DOLLAR] + after && DOLLAR !in before
    ensures !found ==> before == [] && after == data
  {
    found, before, after := false, [], data;
    for idx := 0 to |data|
      invariant !found && before == [] && after == data
      invariant DOLLAR !in data[..idx]
    {
      if after[idx] == DOLLAR {
        before := after[..idx];
        after := after[idx..];
        after := after[1..]; // drop the '$'
        found := true;
        break;
      }
    }
  }

  /** The message object whose parts the setters replace in place. */
  class AddressedAttributedMessage {
    var address: seq<byte>
    var attributes: AttributeBlock.MessageAttributes
    var payload: seq<byte>

    function Value(): Envelope
      reads this, attributes
    {
      Envelope(address, attributes.Value(), payload)
    }

    constructor Default()
      ensures fresh(attributes)
      ensures Value() == Envelope([], AttributeBlock.Empty, [])
    {
      address := [];
      attributes := new AttributeBlock.MessageAttributes.Default();
      payload := [];
    }

    method GetPayload() returns (p: seq<byte>)
      ensures p == Value().payload
    {
      p := payload;
    }

    method SetAddress(val: seq<byte>)
      modifies this
      ensures attributes == old(attributes)
      ensures Value() == old(Value()).(address := val)
    {
      address := val;
    }

    method SetPayload(val: seq<byte>)
      modifies this
      ensures attributes == old(attributes)
      ensures Value() == old(Value()).(payload := val)
    {
      payload := val;
    }

    method SetContentType(val: seq<byte>)
      modifies attributes
      ensures Value() == old(Value()).(attributes := old(Value()).attributes.(contentType := val))
    {
      attributes.SetContentType(val);
    }

    method SetDescriptor(val: seq<byte>)
      modifies attributes
      ensures Value() == old(Value()).(attributes := old(Value()).attributes.(descriptor := val))
    {
      attributes.SetDescriptor(val);
    }

    method SetSenderGroup(val: seq<byte>)
      modifies attributes
      ensures Value() == old(Value()).(attributes := old(Value()).attributes.(senderGroup := val))
    {
      attributes.SetSenderGroup(val);
    }

    method SetSenderEntityId(val: seq<byte>)
      modifies attributes
      ensures Value() == old(Value()).(attributes := old(Value()).attributes.(senderEntityId := val))
    {
      attributes.SetSenderEntityId(val);
    }

    method SetSenderServiceId(val: seq<byte>)
      modifies attributes
      ensures Value() == old(Value()).(attributes := old(Value()).attributes.(senderServiceId := val))
    {
      attributes.SetSenderServiceId(val);
    }

    /** The frame of the current parts; every part is moved out and left empty. */
    method Serialize() returns (v: seq<byte>)
      modifies this, attributes
      ensures v == Encode(old(Value()))
      ensures attributes == old(attributes)
      ensures Value() == Envelope([], AttributeBlock.Empty, [])
    {
      v := [];
      v := v + address;
      address := [];
      v := v + [DOLLAR];
      var attrs := attributes.Serialize();
      v := v + attrs;
      v := v + [DOLLAR];
      v := v + payload;
      payload := [];
    }

    /**
     * Decodes `data` by two scans, each cutting what is left at the first `$`
     * it meets; a `$`-closed attribute section that does not decode aborts.
     */
    static method Deserialize(data: seq<byte>) returns (r: Option<AddressedAttributedMessage>)
      ensures r.None? <==> Decode(data).None?
      ensures r.Some? ==> fresh(r.value) && fresh(r.value.attributes)
                          && Decode(data) == Some(r.value.Value())
    {
      var msg := new AddressedAttributedMessage.Default();

      // Get address
      var found, address, rest := ScanForDelimiter(data);
      if found {
        msg.address := address;
        ScanFirstAfter(address, rest);
      }
      assert ScanFirst(data) == (msg.address, rest);

      // Get attributes
      var closed, section, payload := ScanForDelimiter(rest);
      if closed {
        DecodeAfterScan(data, section, payload);
        var attrs := AttributeBlock.MessageAttributes.Deserialize(section);
        match attrs
        case Some(a) =>
          msg.attributes := a;
        case None =>
          return None;
      }

      msg.SetPayload(payload);
      r := Some(msg);
    }
  }
}
