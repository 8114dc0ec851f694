# UxAS addressed, attributed message — a Dafny model

This project models the framing codec of the UxAS "addressed, attributed
message" (`src/lib.rs`). The codec carries an opaque payload together with
routing and provenance metadata over a byte stream. A frame has three parts:

```
<address> $ <content_type>|<descriptor>|<sender_group>|<sender_entity_id>|<sender_service_id> $ <payload>
```

- `AttributeBlock` (`attributes.dfy`) is the five-field attribute block,
  delimited by `|` (0x7C). It has a value view (`Attributes`), the wire
  functions `Encode`/`Decode`, and the class `MessageAttributes`. The class's
  setters replace one field, and its `Serialize` moves every field into the
  output buffer, leaving the fields empty as Rust's `Vec::append` does.
- `AddressedMessage` (`message.dfy`) is the envelope, delimited by `$` (0x24).
  It has a value view (`Envelope`), the wire functions `Encode`/`Decode`, and
  the class `AddressedAttributedMessage`. The class's `Deserialize` runs the
  source's two forward scans for the first `$` (`ScanForDelimiter`) and is
  proved equal to `Decode`.
- `Bytes` (`bytes.dfy`) holds the byte type and the primitives the codec uses:
  the first-occurrence scan, occurrence counting, and `<[u8]>::split` with its
  inverse `Join`.
- `Example` (`example.dfy`) restates the two unit tests, `test_serialize` and
  `test_deserialize`, as verified methods on the test frame `TEST_DATA`.

Decoding as written: only the first two `$` bytes are structural, and the
payload is every byte after the second one, including any further `$`. If the
input has fewer than two `$`, decoding still succeeds. Any part that was not
closed by a `$` keeps its empty default, and the remaining bytes become the
payload. Decoding fails only when a `$`-closed attribute section does not
split into exactly five chunks on `|`.

Where the code's own comments and the code disagree, or the code behaves
unexpectedly, the model follows the code:
- Decoding does not need two `$`: with fewer, src/lib.rs:192-218 still
  returns a message (`DecodeFewerThanTwo`, `DecodeOneDelimiter`, `Decode`'s
  own contract).
- The module comment at src/lib.rs:20 says attributes are `$`-delimited. The
  code uses `|` (src/lib.rs:41), and so does the model.

## Model

| member | source | states |
|---|---|---|
| `Bytes.FirstIndex` | src/lib.rs:192-198 | the scan result is absent exactly when the delimiter does not occur; otherwise it is an index holding the delimiter with no delimiter before it |
| `Bytes.Count` | src/lib.rs:98-99 | the number of occurrences is zero exactly when the byte is absent, and never exceeds the length |
| `Bytes.Split` | src/lib.rs:98 | splitting on a delimiter gives one more chunk than there are delimiters (the empty input gives one empty chunk), and no chunk contains the delimiter |
| `Bytes.JoinSplit` | src/lib.rs:98 | rejoining the chunks of a split with the delimiter gives back the input |
| `Bytes.SplitJoin` | src/lib.rs:98 | splitting a join of delimiter-free chunks gives back exactly those chunks |
| `AttributeBlock.Encode` | src/lib.rs:112-124 | the block's length is the sum of the five field lengths plus 4; it starts with the content type followed by the pipe byte and ends with the sender service id, with no trailing delimiter |
| `AttributeBlock.EncodeIsJoin` | src/lib.rs:112-124 | the block is the five fields, in order, joined by the pipe byte |
| `AttributeBlock.Decode` | src/lib.rs:97-110 | succeeds if and only if the input holds exactly four pipe bytes (0x7C), that is, when the split gives five chunks; on success chunk i is field i, no field contains a pipe byte, and re-encoding gives the input back |
| `AttributeBlock.DecodeEncode` | src/lib.rs:97-124 | when no field contains the pipe byte, decoding the encoding gives back the same five fields |
| `AttributeBlock.MessageAttributes.Default` | src/lib.rs:47-55 | a new attribute block has all five fields empty |
| `AttributeBlock.MessageAttributes.SetContentType` | src/lib.rs:57-63 | replaces the content type and leaves the other fields unchanged |
| `AttributeBlock.MessageAttributes.SetDescriptor` | src/lib.rs:65-71 | replaces the descriptor and leaves the other fields unchanged |
| `AttributeBlock.MessageAttributes.SetSenderGroup` | src/lib.rs:73-79 | replaces the sender group and leaves the other fields unchanged |
| `AttributeBlock.MessageAttributes.SetSenderEntityId` | src/lib.rs:81-87 | replaces the sender entity id and leaves the other fields unchanged |
| `AttributeBlock.MessageAttributes.SetSenderServiceId` | src/lib.rs:89-95 | replaces the sender service id and leaves the other fields unchanged |
| `AttributeBlock.MessageAttributes.Deserialize` | src/lib.rs:97-110 | gives None exactly when the input does not hold exactly four pipe bytes; otherwise gives a new object whose fields are the decoded ones |
| `AttributeBlock.MessageAttributes.Serialize` | src/lib.rs:112-124 | returns the encoding of the fields as they were, and leaves all five fields empty |
| `AddressedMessage.Encode` | src/lib.rs:175-183 | the frame's length is len(address) + 1 + len(encoded attributes) + 1 + len(payload); it starts with the address followed by `$` and ends with the payload |
| `AddressedMessage.EncodeCount` | src/lib.rs:175-183 | every frame holds at least the two structural `$` bytes |
| `AddressedMessage.Decode` | src/lib.rs:188-219 | an input without `$` decodes to an empty address, empty attributes and the whole input as payload |
| `AddressedMessage.ScanForDelimiter` | src/lib.rs:192-198 | finds a `$` exactly when the input holds one; it then cuts the input into the `$`-free bytes before the first `$` and everything after it; otherwise it leaves the input whole |
| `AddressedMessage.DecodeFrame` | src/lib.rs:192-218 | first match wins: for `address $ section $ payload` with `$`-free address and section, the result is None exactly when the section fails to decode; otherwise it holds that address, the decoded section and the payload verbatim, even if the payload contains `$` |
| `AddressedMessage.DecodeFewerThanTwo` | src/lib.rs:192-218 | with fewer than two `$`, decoding never fails and the attributes stay empty |
| `AddressedMessage.DecodeOneDelimiter` | src/lib.rs:192-218 | with exactly one `$`, the address is the bytes before it, the attributes are empty and the payload is the bytes after it |
| `AddressedMessage.DecodeTwoDelimiters` | src/lib.rs:192-218 | with two or more `$`, decoding fails exactly when the second `$`-chunk fails to decode as attributes; on success the address is the first chunk and the payload is every byte after the second `$` |
| `AddressedMessage.EncodeDecode` | src/lib.rs:175-219 | re-encoding a decoded message gives back the input exactly when the input has at least two `$` |
| `AddressedMessage.DecodeEncode` | src/lib.rs:175-219 | a message whose address has no `$`, and whose attribute fields have neither the pipe byte nor `$`, decodes back to itself whatever its payload holds |
| `AddressedMessage.AddressedAttributedMessage.Default` | src/lib.rs:160-166 | a new message has an empty address, a new attribute block with every field empty, and an empty payload |
| `AddressedMessage.AddressedAttributedMessage.GetPayload` | src/lib.rs:169-171 | returns the stored payload and changes nothing |
| `AddressedMessage.AddressedAttributedMessage.SetAddress` | src/lib.rs:221-227 | replaces the address and leaves the attributes and payload unchanged |
| `AddressedMessage.AddressedAttributedMessage.SetPayload` | src/lib.rs:229-231 | replaces the payload and leaves the address and attributes unchanged |
| `AddressedMessage.AddressedAttributedMessage.SetContentType` | src/lib.rs:233-235 | replaces only the content type in the attribute block |
| `AddressedMessage.AddressedAttributedMessage.SetDescriptor` | src/lib.rs:237-239 | replaces only the descriptor in the attribute block |
| `AddressedMessage.AddressedAttributedMessage.SetSenderGroup` | src/lib.rs:241-243 | replaces only the sender group in the attribute block |
| `AddressedMessage.AddressedAttributedMessage.SetSenderEntityId` | src/lib.rs:245-247 | replaces only the sender entity id in the attribute block |
| `AddressedMessage.AddressedAttributedMessage.SetSenderServiceId` | src/lib.rs:249-251 | replaces only the sender service id in the attribute block |
| `AddressedMessage.AddressedAttributedMessage.Serialize` | src/lib.rs:175-183 | returns the frame of the message as it was, and leaves the address, payload and every attribute field empty |
| `AddressedMessage.AddressedAttributedMessage.Deserialize` | src/lib.rs:188-219 | gives None exactly when `Decode` does; otherwise gives a new message whose parts are `Decode`'s result |
| `Example.TestMessageEncodes` | src/lib.rs:267-283 | the example message encodes to exactly `TEST_DATA` |
| `Example.TestDataDecodes` | src/lib.rs:286-296 | `TEST_DATA` decodes to the example message: address `afrl.cmasi.AirVehicleState`, content type `lmcp`, descriptor `afrl.cmasi.AirVehicleState`, empty sender group, entity id `1`, service id `2`, and the payload with its two trailing `$` kept |
| `Example.TestSerialize` | src/lib.rs:270-284 | building the example with the setters and serializing it gives `TEST_DATA` |
| `Example.TestDeserialize` | src/lib.rs:286-296 | deserializing `TEST_DATA` succeeds, and serializing the result gives `TEST_DATA` back |

## Left out

- The `fmt::Display` implementations (src/lib.rs:127-140, 254-261) are left out. They only render fields as text, lossily, for diagnostics.
- Setters take byte sequences, not `&str`. The UTF-8 view of their argument (src/lib.rs:57-95, 221-251) is not modelled. The tests' text is turned into bytes by `Example.Ascii`, which takes each character's code modulo 256; every character in the tests is ASCII.
- The capacity constants `DEFAULT_HEADER_SIZE` and `DEFAULT_ADDR_SIZE`, and `Vec::with_capacity`, are left out. They are allocation hints with no observable effect.
- The `println!` calls and the `String::from_utf8(..).unwrap()` in the tests are left out. They are output and text conversion only.
- `AddressedMessage.AddressedAttributedMessage.Serialize`: Rust consumes the message (`serialize(mut self)`), so nothing can use it afterwards. The model keeps the object and states that its parts are left empty, which is what the `append` calls do to the buffers.
- `usize` bounds are not modelled. Lengths and indices are unbounded naturals, since a `Vec` cannot outgrow `usize` in practice.
- `TEST_DATA` is written as one literal split across three lines. The bytes are the same as the test's constant (src/lib.rs:267-268).
