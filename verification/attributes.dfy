/**
 * The attribute block of an addressed, attributed message: five byte fields
 * written one after another with `|` between them (`MessageAttributes` in
 * src/lib.rs).
 */
module AttributeBlock {
  import opened Wrappers
  import opened Bytes

  /** The field delimiter, ASCII `|`. */
  const PIPE: byte := 0x7C

  /** Exactly this many chunks make a well-formed attribute block. */
  const CHUNKS_LEN: nat := 5

  /** The five fields, in wire order. */
  datatype Attributes = Attributes(
    contentType: seq<byte>,
    descriptor: seq<byte>,
    senderGroup: seq<byte>,
    senderEntityId: seq<byte>,
    senderServiceId: seq<byte>)

  /** The attributes a fresh message starts with: every field empty. */
  const Empty := Attributes([], [], [], [], [])

  function Fields(a: Attributes): seq<seq<byte>>
  {
    [a.contentType, a.descriptor, a.senderGroup, a.senderEntityId, a.senderServiceId]
  }

  /** None of the five fields contains the byte `d`. */
  predicate FieldsFree(a: Attributes, d: byte)
  {
    d !in a.contentType && d !in a.descriptor && d !in a.senderGroup
    && d !in a.senderEntityId && d !in a.senderServiceId
  }

  /** The wire form `content_type|descriptor|sender_group|sender_entity_id|sender_service_id`. */
  function Encode(a: Attributes): (r: seq<byte>)
    ensures |r| == |a.contentType| + |a.descriptor| + |a.senderGroup|
                   + |a.senderEntityId| + |a.senderServiceId| + 4
    ensures r[..|a.contentType|] == a.contentType && r[|a.contentType|] == PIPE
    ensures r[|r| - |a.senderServiceId|..] == a.senderServiceId
  {
    a.contentType + [PIPE] + a.descriptor + [PIPE] + a.senderGroup + [PIPE]
    + a.senderEntityId + [PIPE] + a.senderServiceId
  }

  /** The encoding carries the fields' own occurrences of `d` plus, for `|`, the four separators. */
  lemma EncodeCount(a: Attributes, d: byte)
    ensures Count(Encode(a), d) == Count(a.contentType, d) + Count(a.descriptor, d)
                                   + Count(a.senderGroup, d) + Count(a.senderEntityId, d)
                                   + Count(a.senderServiceId, d) + (if d == PIPE then 4 else 0)
  {
    var sep := [PIPE];
    assert Count(sep, d) == if d == PIPE then 1 else 0 by {
      assert sep[1..] == [];
    }
    var p1 := a.contentType + sep;
    var p2 := p1 + a.descriptor;
    var p3 := p2 + sep;
    var p4 := p3 + a.senderGroup;
    var p5 := p4 + sep;
    var p6 := p5 + a.senderEntityId;
    var p7 := p6 + sep;
    CountConcat(a.contentType, sep, d);
    CountConcat(p1, a.descriptor, d);
    CountConcat(p2, sep, d);
    CountConcat(p3, a.senderGroup, d);
    CountConcat(p4, sep, d);
    CountConcat(p5, a.senderEntityId, d);
    CountConcat(p6, sep, d);
    CountConcat(p7, a.senderServiceId, d);
  }

  /** The wire form is the five fields joined with `|`. */
  lemma EncodeIsJoin(a: Attributes)
    ensures Encode(a) == Join(Fields(a), PIPE)
  {
    var f := Fields(a);
    assert f[1..][1..][1..][1..] == [a.senderServiceId];
    assert f[1..][1..][1..] == [a.senderEntityId, a.senderServiceId];
    assert f[1..][1..] == [a.senderGroup, a.senderEntityId, a.senderServiceId];
    assert f[1..] == [a.descriptor, a.senderGroup, a.senderEntityId, a.senderServiceId];
    var j4 := a.senderServiceId;
    var j3 := a.senderEntityId + [PIPE] + j4;
    var j2 := a.senderGroup + [PIPE] + j3;
    var j1 := a.descriptor + [PIPE] + j2;
    assert Join(f[1..][1..][1..][1..], PIPE) == j4;
    assert Join(f[1..][1..][1..], PIPE) == j3;
    assert Join(f[1..][1..], PIPE) == j2;
    assert Join(f[1..], PIPE) == j1;
    assert Join(f, PIPE) == a.contentType + [PIPE] + j1;
  }

  /**
   * Splits `data` on every `|` and succeeds only with exactly five chunks,
   * taken as the fields in order.
   */
  function Decode(data: seq<byte>): (r: Option<Attributes>)
    ensures r.Some? <==> Count(data, PIPE) == 4
    ensures r.Some? ==> Fields(r.value) == Split(data, PIPE)
    ensures r.Some? ==> FieldsFree(r.value, PIPE) && Encode(r.value) == data
  {
    var chunks := Split(data, PIPE);
    if |chunks| != CHUNKS_LEN then None
    else
      var a := Attributes(chunks[0], chunks[1], chunks[2], chunks[3], chunks[4]);
      assert Fields(a) == chunks;
      JoinSplit(data, PIPE);
      EncodeIsJoin(a);
      Some(a)
  }

  /** Decoding the encoding of `|`-free fields gives the same five fields back. */
  lemma DecodeEncode(a: Attributes)
    requires FieldsFree(a, PIPE)
    ensures Decode(Encode(a)) == Some(a)
  {
    SplitJoin(Fields(a), PIPE);
    EncodeIsJoin(a);
  }

  /**
   * Fields updated in place: setters replace one field, and serializing moves
   * every field out into the returned buffer.
   */
  class MessageAttributes {
    var contentType: seq<byte>
    var descriptor: seq<byte>
    var senderGroup: seq<byte>
    var senderEntityId: seq<byte>
    var senderServiceId: seq<byte>

    function Value(): Attributes
      reads this
    {
      Attributes(contentType, descriptor, senderGroup, senderEntityId, senderServiceId)
    }

    constructor Default()
      ensures Value() == Empty
    {
      contentType, descriptor, senderGroup := [], [], [];
      senderEntityId, senderServiceId := [], [];
    }

    method SetContentType(val: seq<byte>)
      modifies this
      ensures Value() == old(Value()).(contentType := val)
    {
      contentType := val;
    }

    method SetDescriptor(val: seq<byte>)
      modifies this
      ensures Value() == old(Value()).(descriptor := val)
    {
      descriptor := val;
    }

    method SetSenderGroup(val: seq<byte>)
      modifies this
      ensures Value() == old(Value()).(senderGroup := val)
    {
      senderGroup := val;
    }

    method SetSenderEntityId(val: seq<byte>)
      modifies this
      ensures Value() == old(Value()).(senderEntityId := val)
    {
      senderEntityId := val;
    }

    method SetSenderServiceId(val: seq<byte>)
      modifies this
      ensures Value() == old(Value()).(senderServiceId := val)
    {
      senderServiceId := val;
    }

    /** A new object holding the decoded fields, or None when `data` does not split into five chunks. */
    static method Deserialize(data: seq<byte>) returns (r: Option<MessageAttributes>)
      ensures r.None? <==> Count(data, PIPE) != 4
      ensures r.Some? ==> fresh(r.value) && Decode(data) == Some(r.value.Value())
    {
      var chunks := Split(data, PIPE);
      if |chunks| != CHUNKS_LEN {
        r := None;
      } else {
        var msg := new MessageAttributes.Default();
        msg.contentType := chunks[0];
        msg.descriptor := chunks[1];
        msg.senderGroup := chunks[2];
        msg.senderEntityId := chunks[3];
        msg.senderServiceId := chunks[4];
        r := Some(msg);
      }
    }

    /** Appends the fields with `|` between them, leaving every field empty. */
    method Serialize() returns (v: seq<byte>)
      modifies this
      ensures v == Encode(old(Value()))
      ensures Value() == Empty
    {
      ghost var a := Value();
      v := [];
      v := v + contentType;
      contentType := [];
      v := v + [PIPE];
      v := v + descriptor;
      descriptor := [];
      v := v + [PIPE];
      assert v == a.contentType + [PIPE] + a.descriptor + [PIPE];
      v := v + senderGroup;
      senderGroup := [];
      v := v + [PIPE];
      v := v + senderEntityId;
      senderEntityId := [];
      v := v + [PIPE];
      v := v + senderServiceId;
      senderServiceId := [];
      assert v == Encode(a);
    }
  }
}
