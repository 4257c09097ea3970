# eventstore-tcp frame codec, credentials and write-events results — a Dafny model

This project models the byte-level core of a Rust client for the Event Store
TCP protocol. Every exchange is a *package*: a correlation id, optional
credentials and a message, carried in a length-prefixed frame:

```
u32 length (little-endian, bytes after this field)
u8  discriminator | u8 flags (bit 0 = AUTHENTICATED) | 16-byte correlation id
[u8 len | username] [u8 len | password]     -- only when AUTHENTICATED
message body                                -- the rest of the frame
```

Modules, one per component:

- `Bytes` (bytes.dfy): bytes and the little-endian u32 length prefix.
- `Utf8` (utf8.dfy): well-formed UTF-8 as section 4 of RFC 3629 defines it, the check `String::from_utf8` makes on credential fields.
- `Wrappers` (wrappers.dfy), `Errors` (errors.dfy): `Option`/`Result` and the typed error values. Every panic, assert and `unreachable!` of the source on untrusted input is an error value here.
- `Auth` (auth.dfy): `UsernamePassword` with `new`, `encode` and `decode`.
- `Package` (package.dfy): the strict frame flags, `Package`, and `MessageCatalog`. The catalog is the message capability the codec is parameterised by: discriminator, body encoder and body decoder. The source's `Message` enum and its protobuf bodies fill that role. `RoundTrips(cat)` is the catalog's contract that a body read back under its own discriminator gives the message back.
- `Codec` (codec.dfy): `PackageCodec`. `Decode` is one resumable step over the buffered bytes. It returns the outcome and the buffer as the step leaves it. `Ok(None)` means "not enough data yet". `Encode` is the two-pass encoder: it writes a zero placeholder, then the fields, then patches the length in, and appends the frame to the output.
- `PingCatalog` (ping.dfy): a concrete catalog holding only `Ping` (discriminator 0x03, empty body). The known test frames are proved against it.
- `ClientMessages`, `WriteEvents` (client_messages.dfy, write_events.dfy): the wire record of a write-events reply and its typed outcome. On success the outcome is a half-open event-number range with optional log positions. On failure it is one of six reasons, three of them transient.

The code drains the buffer only in the `Ok` branch (src/codec.rs:37-47), so
`Codec.Decode` leaves the buffer unchanged on every error.

## Model

| member | source | states |
|---|---|---|
| Codec.Decode | src/codec.rs:13-48 | under 22 buffered bytes: "not enough data", buffer unchanged; only a decoded package removes bytes, and then exactly the `4 + len` bytes of its frame, the prefix being at least 18 and the whole frame buffered; every other outcome leaves the buffer unchanged |
| Codec.DecodeStates | src/codec.rs:22-37 | a length prefix below 18 is the fatal `FrameTooShort(len)` error; a frame not yet fully buffered is "not enough data"; a fully buffered frame gives whatever decoding the isolated frame bytes alone gives |
| Codec.DecodeWholeFrame | src/codec.rs:31-47 | a fully buffered frame that decodes to a package gives that package and leaves exactly the bytes after the frame |
| Codec.WholeFrameStep | src/codec.rs:31-47 | a buffered whole frame always decides: a package drains exactly the frame, an error leaves the buffer as it was |
| Codec.DecodeHeader | src/codec.rs:58-88 | a decoded header takes at least the 18 fixed bytes and never reads past the frame |
| Codec.DecodeHeaderFacts | src/codec.rs:61-81 | a frame too short for the discriminator, flags and id is truncated; a flags byte with an unknown bit fails with `InvalidFlags(byte)`, before the id is read; a decoded header holds the frame's discriminator and id, its flags byte is 0x00 or 0x01, and credentials are present exactly when it is 0x01 |
| Codec.DecodeFrameParts | src/codec.rs:50-56 | header errors and catalog errors propagate as the frame's error; a header and a body that both decode give exactly the package of the header's id and credentials and the body's message; a decoded package's message is what the catalog reads from exactly the frame bytes after the header, under the frame's discriminator |
| Codec.DecodeFrame | src/codec.rs:50-56 | a header error is the frame's error, and a decoded frame has a decoded header whose credentials it carries |
| Codec.DecodeAuthentication | src/codec.rs:77-81 | without the AUTHENTICATED flag the header has no credentials and takes 18 bytes; with it the credentials are present and the header takes between 18 bytes and the whole frame |
| Codec.DecodeCredentialBlock | src/codec.rs:77-81 | with flags 0x00 the header has no credentials and takes 18 bytes; with AUTHENTICATED the credentials and the bytes taken are what `UsernamePassword::decode` reads after the id, and its error becomes the header's and the frame's error |
| Codec.CredentialBytes | src/codec.rs:112-116 | the credential block is absent without credentials and is their `2 + |user| + |pass|`-byte encoding with them |
| Codec.PatchLength | src/codec.rs:120-124 | the patched prefix reads back as the number of bytes after it (modulo 2^32, as `as u32` truncates) and nothing else changes |
| Codec.FrameFields | src/codec.rs:108-118 | the bytes after the prefix number 18 plus the credentials plus the body |
| Codec.Unpatched | src/codec.rs:108-118 | the first pass is a four-byte placeholder followed by exactly the frame fields |
| Codec.EncodeFrame | src/codec.rs:99-124 | the frame is 22 bytes plus credentials plus body; its prefix reads back as its length minus 4 (modulo 2^32); after the prefix come discriminator, flags (AUTHENTICATED exactly when credentials are present), correlation id, credentials and body |
| Codec.Encode | src/codec.rs:126-127 | the output keeps its old bytes and gains exactly one frame after them |
| Codec.EncodedLength | src/codec.rs:120-124 | an encodable frame's prefix equals its length minus 4 and is at least 18 |
| Codec.HeaderOfFlags | src/codec.rs:61-81 | a header whose flags byte is the bits of some flags reads the discriminator, those flags and the id, and reads credentials from the bytes after the id exactly as the flags direct |
| Codec.HeaderWithoutCredentials | src/codec.rs:61-81 | a header written without credentials decodes to its discriminator and id, with no credentials, and takes 18 bytes |
| Codec.HeaderWithCredentials | src/codec.rs:61-81 | a header written with credentials decodes to its discriminator, id and those credentials, and takes 18 bytes plus their encoding |
| Codec.DecodeHeaderOfFields | src/codec.rs:58-88 | a header written from a discriminator, id and credentials decodes back to them and takes exactly the header and credential bytes, whatever body follows |
| Codec.DecodeEncodedHeader | src/codec.rs:108-116 | the header written for a package decodes back to the same discriminator, id and credentials, leaving exactly the body |
| Codec.WholeFrameStepExtended | src/codec.rs:31-47 | bytes appended after a whole frame change neither the frame's outcome nor what it drains; they stay behind in order |
| Codec.DecodeFrameFields | src/codec.rs:50-56 | the fields written for a package decode, as a frame, to the same package |
| Codec.DecodeEncode | src/codec.rs:143-177 | round trip: an encodable package's frame followed by any bytes decodes to the package and leaves exactly those bytes |
| Codec.DecodeEncodeExact | src/codec.rs:258-265 | a buffer holding exactly one frame decodes to its package and is emptied |
| Codec.DecodePrefix | src/codec.rs:267-275 | every proper prefix of a frame is "not enough data" and the buffer keeps its length |
| Codec.DecodeIgnoresTrailing | src/codec.rs:31-39 | once a buffer yields a package or an error, appended bytes change neither and stay behind in order: decoding sees only the declared frame |
| Codec.Pipeline | src/codec.rs:126-127 | two frames appended to one output are decoded one per call, in order, and the second call empties the buffer |
| Package.FlagsFromBits | src/codec.rs:65-68 | only the bytes 0x00 and 0x01 are accepted flags, and an accepted byte is the bits of the flags it yields |
| Package.TcpFlags.Bits | src/codec.rs:103-110 | the flags byte is 0x01 exactly when AUTHENTICATED is set, and 0x00 otherwise |
| Package.FlagsRoundTrip | src/codec.rs:103-110 | flags written as a byte read back as the same flags |
| Auth.New | src/auth.rs:19-25 | a token is built exactly when both fields are under 255 bytes, and is otherwise the `ValueTooLong` error |
| Auth.EncodeField | src/auth.rs:50-53 | a field is written as its length truncated to a byte (`len() as u8`) followed by its bytes |
| Auth.Encode | src/auth.rs:49-56 | the returned count `1 + |user| + 1 + |pass|` equals the number of bytes written; a length byte and the username bytes, then a length byte and the password bytes |
| Auth.DecodeField | src/auth.rs:35-38 | a decoded field is exactly the bytes after its length byte, as many as that byte says, all within the input, and well-formed UTF-8 by its type; failures are truncation or a UTF-8 error |
| Auth.DecodeFieldErrors | src/auth.rs:35-38 | truncation is reported exactly when the input ends before the field does, and a UTF-8 error exactly when the whole field is there but its bytes are not UTF-8 |
| Auth.Decode | src/auth.rs:28-46 | a decoded token consumed `2 + |user| + |pass|` bytes of the input, and both fields fit their length bytes; failures are truncation or invalid UTF-8 |
| Auth.DecodeConsumesEncoding | src/auth.rs:28-46 | the bytes a successful decode passes over are exactly the encoding of the token it returns |
| Auth.DecodeOfFields | src/auth.rs:40-45 | the password is read from where the username stopped, and the token consumes both fields |
| Auth.DecodeEncodeField | src/auth.rs:35-53 | a field's encoding followed by anything decodes to the field and stops after it |
| Auth.DecodeEncode | src/auth.rs:28-56 | round trip: decoding a token's encoding, followed by anything, gives the token and stops right after the password |
| Auth.NewRoundTrip | src/auth.rs:19-56 | every token `new` accepts survives encode then decode |
| Auth.DecodeEncodeExact | src/auth.rs:28-56 | exactly one token's encoding decodes to the token and is consumed whole |
| Auth.DecodeTruncated | src/auth.rs:35-43 | input cut anywhere inside a token's encoding fails as truncated |
| Auth.FieldPrefixTruncated | src/auth.rs:35-37 | a field's encoding cut anywhere fails as truncated |
| Auth.DecodeFieldFailure | src/auth.rs:35-43 | the token fails with the error of the first field that fails |
| Utf8.ValidUtf8 | src/auth.rs:38-43 | the check `String::from_utf8` makes: one- to four-byte characters with the lead-byte and second-byte ranges of section 4 of RFC 3629; its consequences are stated by the lemmas below |
| Utf8.AsciiIsValid | src/auth.rs:38 | every ASCII string is accepted as UTF-8 |
| Utf8.LeadByte | src/auth.rs:38 | a well-formed string never starts with a continuation byte, the overlong lead bytes C0 and C1, or a lead byte above F4 |
| Utf8.Rfc3629Examples | src/auth.rs:43 | overlong forms, surrogates, code points above U+10FFFF and stray continuation bytes are rejected; two-, three- and four-byte characters are accepted |
| Bytes.ReadU32Le | src/codec.rs:18-21 | the length prefix read is below 2^32 |
| Bytes.WriteU32Le | src/codec.rs:108-124 | a u32 is written as four bytes that read back as the same integer |
| Bytes.WriteReadU32Le | src/codec.rs:18-21 | four bytes read and rewritten are the same bytes |
| PingCatalog.DecodeBody | src/codec.rs:54 | discriminator 0x03 decodes to `Ping` whatever the body; every other discriminator is `UnsupportedDiscriminator(d)` |
| PingCatalog.CatalogRoundTrips | src/codec.rs:54 | the Ping catalog meets the body round-trip contract |
| PingCatalog.PingFrame | src/codec.rs:167-177 | a Ping without credentials is encoded as 1200000003007b50a1b034b9224e8f9d708c394fab2d |
| PingCatalog.PingVector | src/codec.rs:143-153 | that frame is what `encode` writes into an empty output, and it decodes to the Ping, emptying the buffer |
| PingCatalog.PingVectorPartialAndOverlong | src/codec.rs:267-286 | every proper prefix of the Ping frame is "not enough data"; the frame with any bytes appended yields the Ping and leaves exactly those bytes |
| PingCatalog.PingWithJunkVector | src/codec.rs:155-165 | a Ping frame whose length covers one extra body byte still decodes to the Ping and is fully consumed |
| PingCatalog.UnknownDiscriminatorVector | src/codec.rs:179-201 | discriminator 0xff yields the error `UnsupportedDiscriminator(0xff)` and consumes nothing |
| WriteEvents.RangeFromParts | src/write_events.rs:14-16 | `(first, last)` becomes `first .. last + 1`, and is refused exactly when `last + 1` overflows an i32 |
| WriteEvents.RangeToParts | src/write_events.rs:18-22 | a range becomes `(start, end - 1)` |
| WriteEvents.RangeRoundTrip | src/write_events.rs:14-22 | the two range conversions are inverse in both directions |
| WriteEvents.FailureToResult | src/write_events.rs:137-149 | a failure never maps to `Success` or `InvalidTransaction` |
| WriteEvents.FailureFromResult | src/write_events.rs:120-135 | exactly `Success` and `InvalidTransaction` are refused, as a malformed response |
| WriteEvents.FailureResultBijection | src/write_events.rs:120-149 | failure to code to failure is the identity, failure-to-code is injective, and every accepted code is the code of its failure |
| WriteEvents.TransientExactlyTimeouts | src/write_events.rs:98-104 | a failure is transient exactly when it is one of the three timeouts, and not for the other three |
| WriteEvents.IsTransient | src/write_events.rs:98-104 | a failure is transient exactly when its wire code is one of the three timeouts |
| WriteEvents.CompletedToWire | src/write_events.rs:37-49 | a success is written as code `Success`, no message, inclusive event numbers from the range, positions unchanged |
| WriteEvents.FailureToWire | src/write_events.rs:107-118 | a failure is written as its own code, no message, event numbers -1 and -1, no positions |
| WriteEvents.OutcomeToWire | src/write_events.rs:37-118 | a written outcome always has a code, which is `Success` exactly for a success |
| WriteEvents.OutcomeFromWire | src/write_events.rs:51-73 | `Success` gives the completed write whose range converts back to the wire pair, with positions unchanged; another code gives the failure with that code; a missing code, `InvalidTransaction` or an overflowing last event number is malformed |
| WriteEvents.OutcomeRoundTrip | src/write_events.rs:37-135 | reading back any written outcome gives the same success or failure |
| WriteEvents.WriteEventsCompletedVector | src/codec.rs:203-218 | the reply with code Success, events 30 to 39 and both positions 181349124 reads as events `30 .. 40` with those positions |

## Left out

- The transport in src/client.rs (the tokio `TcpClient`, `Framed` and `Service` plumbing) is asynchronous I/O glue and is not modelled.
- The message catalog beyond `Ping` is abstract. `Message::decode`, `discriminator` and `encode` are not part of this model. The protobuf encoding of message bodies is not modelled either, so the write-events frame of src/codec.rs:203-247 is checked only at the level of its wire fields, not byte for byte.
- The correlation id is 16 raw bytes; `Uuid` parsing and formatting are not modelled. `StreamVersion` and `LogPosition` are plain integers, since their conversions are not part of this model.
- The flag set comes from src/package.rs, which is not part of this model. The model takes AUTHENTICATED (0x01) as the only defined bit, so only the bytes 0x00 and 0x01 are valid flags.
- `From<WriteEvents>` and `into_owned` (src/write_events.rs:7-12), the `Display` and `description` strings, and the password-hiding `Debug` impl are cosmetic and are left out.
- `error_chain` and `io::Error` wrapping are replaced by the plain `Errors.Error` datatype.
- I/O errors from writing into the in-memory cursor cannot happen and are not modelled. Neither is the `expect` in `encode`: the flag is derived from the presence of credentials, so it always holds.
- Overflow of `len + 4` in a 32-bit `usize` is not modelled; `usize` is taken to be 64 bits wide.
- Codec.DecodeEncode: the round trip is stated only for encodable packages. That means credential fields under 256 bytes and a frame length that fits the u32 prefix. Beyond that, `len() as u8` and `as u32` truncate, which `Auth.EncodeField` and `Codec.PatchLength` model.
- WriteEvents.RangeFromParts: `last + 1` overflowing an i32 is reported as a malformed response, which is the debug-build panic. The release-build wrap to the smallest i32 is not modelled.
- WriteEvents.RangeToParts: it requires both ends of the range to be i32 values with `end - 1` not underflowing. The `StreamVersion`-to-`i32` conversion that enforces this in the source is not part of this model.
