/** `PackageCodec` (src/codec.rs): the length-prefixed frame codec between a
    growable byte buffer and `Package` values.

    Wire layout, integers little-endian:
      u32 length (bytes after this field) | u8 discriminator | u8 flags |
      16-byte correlation id | credential block if AUTHENTICATED | body */
module Codec {
  import opened Wrappers
  import opened Errors
  import opened Bytes
  import Auth
  import opened Package

  /** Bytes needed before the length prefix is even looked at:
      prefix, discriminator, flags and correlation id. */
  const HEADER_MIN: nat := 4 + 1 + 1 + 16

  /** The smallest legal length prefix: discriminator, flags and
      correlation id with no credentials and an empty body. */
  const FRAME_MIN: nat := 18

  /** What `decode_header` hands on: the discriminator, the correlation id,
      the credentials, and how many frame bytes the header took. */
  datatype Header = Header(
    discriminator: uint8,
    correlationId: Uuid,
    authentication: Option<Auth.UsernamePassword>,
    consumed: nat)

  /** One call of `decode`: the outcome (`Ok(None)` is "not enough data
      yet") and the buffer as the call leaves it. */
  datatype DecodeStep<M> = DecodeStep(outcome: Result<Option<Package<M>>, Error>, rest: seq<uint8>)

  /** The bytes of the optional credential block. */
  function CredentialBytes(a: Option<Auth.UsernamePassword>): (r: seq<uint8>)
    ensures a.None? ==> r == []
    ensures a.Some? ==> |r| == 2 + |a.value.username| + |a.value.password|
  {
    match a
    case None => []
    case Some(c) => Auth.Encode(c).value
  }

  /** The credential block, read from the frame bytes after the correlation
      id exactly when the flags announce it. */
  function DecodeAuthentication(d: uint8, id: Uuid, flags: TcpFlags, tail: seq<uint8>): (r: Result<Header, Error>)
    ensures r.Ok? ==> r.value.discriminator == d && r.value.correlationId == id
    ensures r.Ok? ==> (r.value.authentication.Some? <==> flags.authenticated)
    ensures r.Ok? ==> FRAME_MIN <= r.value.consumed <= FRAME_MIN + |tail|
    ensures !flags.authenticated ==> r == Ok(Header(d, id, None, FRAME_MIN))
  {
    if flags.authenticated then
      match Auth.Decode(tail)
      case Err(e) => Err(e)
      case Ok(c) => Ok(Header(d, id, Some(c.value), FRAME_MIN + c.consumed))
    else Ok(Header(d, id, None, FRAME_MIN))
  }

  /** `decode_header`: discriminator, strict flags, correlation id, and the
      credential block exactly when the AUTHENTICATED bit is set. It reads
      nothing beyond `frame`. Reading the discriminator and reading the flags
      fail alike on a frame too short for them. */
  function DecodeHeader(frame: seq<uint8>): (r: Result<Header, Error>)
    ensures r.Ok? ==> FRAME_MIN <= r.value.consumed <= |frame|
  {
    if |frame| < 2 then Err(Truncated)
    else
      match FlagsFromBits(frame[1])
      case None => Err(InvalidFlags(frame[1]))
      case Some(flags) =>
        if |frame| < FRAME_MIN then Err(Truncated)
        else DecodeAuthentication(frame[0], frame[2..18], flags, frame[FRAME_MIN..])
  }

  /** What a header read reports: truncation for a frame too short for the
      fixed fields, `InvalidFlags(byte)` for a flags byte with an unknown
      bit (checked before the id is read), and otherwise the frame's
      discriminator and id, with credentials exactly when the flags byte is
      AUTHENTICATED. */
  lemma DecodeHeaderFacts(frame: seq<uint8>)
    ensures |frame| < 2 ==> DecodeHeader(frame) == Err(Truncated)
    ensures |frame| >= 2 && FlagsFromBits(frame[1]).None? ==> DecodeHeader(frame) == Err(InvalidFlags(frame[1]))
    ensures |frame| >= 2 && FlagsFromBits(frame[1]).Some? && |frame| < FRAME_MIN ==> DecodeHeader(frame) == Err(Truncated)
    ensures DecodeHeader(frame).Ok? ==>
      var h := DecodeHeader(frame).value;
      && h.discriminator == frame[0] && h.correlationId == frame[2..18]
      && (frame[1] == 0 || frame[1] == FLAG_AUTHENTICATED)
      && (h.authentication.Some? <==> frame[1] == FLAG_AUTHENTICATED)
  {
  }

  /** `decode_body`: the header, then the message body dispatched on the
      discriminator. The body is the rest of the frame and nothing more. */
  function DecodeFrame<M>(cat: MessageCatalog<M>, frame: seq<uint8>): (r: Result<Package<M>, Error>)
    ensures DecodeHeader(frame).Err? ==> r == Err(DecodeHeader(frame).error)
    ensures r.Ok? ==> DecodeHeader(frame).Ok? && r.value.authentication == DecodeHeader(frame).value.authentication
  {
    match DecodeHeader(frame)
    case Err(e) => Err(e)
    case Ok(h) =>
      match cat.decodeBody(h.discriminator, frame[h.consumed..])
      case Err(e) => Err(e)
      case Ok(m) => Ok(Package(h.correlationId, h.authentication, m))
  }

  /** The step taken on a buffer that holds a whole frame of legal length:
      the frame's package with the buffer drained past it, or the frame's
      error with the buffer untouched. */
  function WholeFrameStep<M>(cat: MessageCatalog<M>, buf: seq<uint8>, len: nat): (r: DecodeStep<M>)
    requires 4 + len <= |buf|
    ensures r.outcome != Ok(None)
    ensures r.outcome.Ok? ==> r.rest == buf[4 + len..]
    ensures r.outcome.Err? ==> r.rest == buf
  {
    match DecodeFrame(cat, buf[4..4 + len])
    case Ok(p) => DecodeStep(Ok(Some(p)), buf[4 + len..])
    case Err(e) => DecodeStep(Err(e), buf)
  }

  /** `decode` / `decode_inner`: one resumable step over the buffered bytes.
      Bytes leave the buffer only when a whole frame decodes; then exactly
      `4 + len` of them leave and whatever follows stays, in order. */
  function Decode<M>(cat: MessageCatalog<M>, buf: seq<uint8>): (r: DecodeStep<M>)
    ensures |buf| < HEADER_MIN ==> r == DecodeStep(Ok(None), buf)
    ensures !(r.outcome.Ok? && r.outcome.value.Some?) ==> r.rest == buf
    ensures r.outcome.Ok? && r.outcome.value.Some? ==>
      && |buf| >= HEADER_MIN
      && FRAME_MIN <= ReadU32Le(buf)
      && ReadU32Le(buf) + 4 <= |buf|
      && r.rest == buf[4 + ReadU32Le(buf)..]
  {
    if |buf| < HEADER_MIN then DecodeStep(Ok(None), buf)
    else
      var len := ReadU32Le(buf);
      if len < FRAME_MIN then DecodeStep(Err(FrameTooShort(len)), buf)
      else if |buf| < len + 4 then DecodeStep(Ok(None), buf)
      else WholeFrameStep(cat, buf, len)
  }

  /** The decoding state machine, case by case: a length prefix below 18
      is fatal; a frame not yet fully buffered is "not enough data"; a fully
      buffered frame gives whatever decoding that frame alone gives. */
  lemma DecodeStates<M>(cat: MessageCatalog<M>, buf: seq<uint8>)
    requires |buf| >= HEADER_MIN
    ensures ReadU32Le(buf) < FRAME_MIN ==>
      Decode(cat, buf) == DecodeStep(Err(FrameTooShort(ReadU32Le(buf))), buf)
    ensures FRAME_MIN <= ReadU32Le(buf) && |buf| < ReadU32Le(buf) + 4 ==>
      Decode(cat, buf) == DecodeStep(Ok(None), buf)
    ensures FRAME_MIN <= ReadU32Le(buf) && ReadU32Le(buf) + 4 <= |buf| ==>
      var frame := DecodeFrame(cat, buf[4..4 + ReadU32Le(buf)]);
      && (frame.Ok? ==> Decode(cat, buf).outcome == Ok(Some(frame.value)))
      && (frame.Err? ==> Decode(cat, buf).outcome == Err(frame.error))
  {
    var len := ReadU32Le(buf);
    if FRAME_MIN <= len && len + 4 <= |buf| {
      assert Decode(cat, buf) == WholeFrameStep(cat, buf, len);
    }
  }

  /** How a frame decodes: a header error is the frame's error, and a
      decoded package carries the header's id and credentials and the
      message the catalog reads from exactly the frame bytes after the
      header, under the header's discriminator. */
  lemma DecodeFrameParts<M>(cat: MessageCatalog<M>, frame: seq<uint8>)
    ensures DecodeHeader(frame).Err? ==> DecodeFrame(cat, frame) == Err(DecodeHeader(frame).error)
    ensures DecodeFrame(cat, frame).Ok? ==>
      && DecodeHeader(frame).Ok?
      && var h := DecodeHeader(frame).value;
         var p := DecodeFrame(cat, frame).value;
         && p.correlationId == frame[2..18]
         && p.authentication == h.authentication
         && cat.decodeBody(frame[0], frame[h.consumed..]) == Ok(p.message)
    ensures DecodeHeader(frame).Ok? ==>
      var h := DecodeHeader(frame).value;
      var body := cat.decodeBody(frame[0], frame[h.consumed..]);
      && (body.Err? ==> DecodeFrame(cat, frame) == Err(body.error))
      && (body.Ok? ==> DecodeFrame(cat, frame) == Ok(Package(frame[2..18], h.authentication, body.value)))
  {
    DecodeHeaderFacts(frame);
  }

  /** The credential block of a frame holding the fixed fields: without the
      AUTHENTICATED flag there is none and the header takes 18 bytes; with it
      the credentials are whatever `Auth.Decode` reads from the bytes after
      the id, the header takes those bytes too, and a credential error is the
      header's error and so the frame's error. */
  lemma DecodeCredentialBlock<M>(cat: MessageCatalog<M>, frame: seq<uint8>)
    requires |frame| >= FRAME_MIN
    ensures frame[1] == 0 ==> DecodeHeader(frame) == Ok(Header(frame[0], frame[2..18], None, FRAME_MIN))
    ensures frame[1] == FLAG_AUTHENTICATED ==>
      var a := Auth.Decode(frame[FRAME_MIN..]);
      && (a.Ok? ==> DecodeHeader(frame) == Ok(Header(frame[0], frame[2..18], Some(a.value.value), FRAME_MIN + a.value.consumed)))
      && (a.Err? ==> DecodeHeader(frame) == Err(a.error) && DecodeFrame(cat, frame) == Err(a.error))
  {
    assert FlagsFromBits(0) == Some(TcpFlags(false));
    assert FlagsFromBits(FLAG_AUTHENTICATED) == Some(TcpFlags(true));
  }

  /** The fields after the length prefix: discriminator, flags
      (AUTHENTICATED exactly when credentials are present), correlation id,
      credentials, body. */
  function FrameFields<M>(cat: MessageCatalog<M>, p: Package<M>): (w: seq<uint8>)
    ensures |w| == FRAME_MIN + |CredentialBytes(p.authentication)| + |cat.encodeBody(p.message)|
  {
    var flags := TcpFlags(p.authentication.Some?);
    [cat.discriminator(p.message), flags.Bits()] + p.correlationId
      + (CredentialBytes(p.authentication) + cat.encodeBody(p.message))
  }

  /** What the encoder's cursor holds before the length is patched in: a
      zero placeholder followed by the fields. */
  function Unpatched<M>(cat: MessageCatalog<M>, p: Package<M>): (w: seq<uint8>)
    ensures |w| == HEADER_MIN + |CredentialBytes(p.authentication)| + |cat.encodeBody(p.message)|
    ensures w[4..] == FrameFields(cat, p)
  {
    [0, 0, 0, 0] + FrameFields(cat, p)
  }

  /** The second pass: overwrite the placeholder with the number of bytes
      after it, as `at_end as u32 - 4` computes it (modulo 2^32). */
  function PatchLength(w: seq<uint8>): (r: seq<uint8>)
    requires |w| >= 4
    ensures |r| == |w| && r[4..] == w[4..]
    ensures ReadU32Le(r) == (|w| - 4) % U32_LIMIT
  {
    var prefix := WriteU32Le((|w| - 4) % U32_LIMIT);
    assert (prefix + w[4..])[..4] == prefix;
    prefix + w[4..]
  }

  /** The bytes of one package's frame: the length prefix counts the bytes
      after it (modulo 2^32), then discriminator, flags (AUTHENTICATED
      exactly when credentials are present), correlation id, credentials and
      body. */
  function EncodeFrame<M>(cat: MessageCatalog<M>, p: Package<M>): (f: seq<uint8>)
    ensures |f| == HEADER_MIN + |CredentialBytes(p.authentication)| + |cat.encodeBody(p.message)|
    ensures ReadU32Le(f) == (|f| - 4) % U32_LIMIT
    ensures f[4..] == FrameFields(cat, p)
  {
    PatchLength(Unpatched(cat, p))
  }

  /** The package's frame is representable: credential fields fit their
      length bytes and the frame length fits the u32 prefix. */
  predicate Encodable<M>(cat: MessageCatalog<M>, p: Package<M>) {
    && (p.authentication.Some? ==> p.authentication.value.Encodable())
    && |Unpatched(cat, p)| - 4 < U32_LIMIT
  }

  /** `Codec::encode`: the frame is appended to the existing output, whose
      bytes stay as they were. */
  function Encode<M>(cat: MessageCatalog<M>, p: Package<M>, out: seq<uint8>): (r: seq<uint8>)
    ensures |r| == |out| + HEADER_MIN + |CredentialBytes(p.authentication)| + |cat.encodeBody(p.message)|
    ensures r[..|out|] == out
    ensures r[|out|..] == EncodeFrame(cat, p)
  {
    out + EncodeFrame(cat, p)
  }

  /** The length prefix of an encodable package's frame counts exactly the
      bytes after it. */
  lemma EncodedLength<M>(cat: MessageCatalog<M>, p: Package<M>)
    requires Encodable(cat, p)
    ensures ReadU32Le(EncodeFrame(cat, p)) == |EncodeFrame(cat, p)| - 4
    ensures ReadU32Le(EncodeFrame(cat, p)) >= FRAME_MIN
  {
  }

  /** Where the fields of a header sit in the frame bytes. */
  lemma HeaderLayout(d: uint8, bits: uint8, id: Uuid, tail: seq<uint8>)
    ensures var frame := [d, bits] + id + tail;
            && |frame| == FRAME_MIN + |tail|
            && frame[0] == d && frame[1] == bits
            && frame[2..18] == id && frame[FRAME_MIN..] == tail
  {
  }

  /** A header whose flags byte is the bits of some flags reads the
      discriminator, those flags and the id, and hands the bytes after the id
      to the credential reader. */
  lemma HeaderOfFlags(d: uint8, flags: TcpFlags, id: Uuid, tail: seq<uint8>)
    ensures DecodeHeader([d, flags.Bits()] + id + tail) == DecodeAuthentication(d, id, flags, tail)
  {
    HeaderLayout(d, flags.Bits(), id, tail);
    assert FlagsFromBits(flags.Bits()) == Some(flags);
  }

  /** Credentials announced by the flags and written as their encoding are
      read back, taking exactly their encoding's bytes. */
  lemma CredentialsOfEncoding(d: uint8, id: Uuid, c: Auth.UsernamePassword, body: seq<uint8>)
    requires c.Encodable()
    ensures DecodeAuthentication(d, id, TcpFlags(true), CredentialBytes(Some(c)) + body)
      == Ok(Header(d, id, Some(c), FRAME_MIN + |CredentialBytes(Some(c))|))
  {
    assert CredentialBytes(Some(c)) == Auth.Encode(c).value;
    Auth.DecodeEncode(c, body);
  }

  /** A header without credentials decodes to its fields and takes 18
      bytes. */
  lemma HeaderWithoutCredentials(d: uint8, id: Uuid, body: seq<uint8>)
    ensures DecodeHeader([d, TcpFlags(false).Bits()] + id + (CredentialBytes(None) + body))
      == Ok(Header(d, id, None, FRAME_MIN))
  {
    HeaderOfFlags(d, TcpFlags(false), id, CredentialBytes(None) + body);
  }

  /** A header with credentials decodes to its fields and takes the 18
      fixed bytes plus the credentials' encoding. */
  lemma HeaderWithCredentials(d: uint8, id: Uuid, c: Auth.UsernamePassword, body: seq<uint8>)
    requires c.Encodable()
    ensures DecodeHeader([d, TcpFlags(true).Bits()] + id + (CredentialBytes(Some(c)) + body))
      == Ok(Header(d, id, Some(c), FRAME_MIN + |CredentialBytes(Some(c))|))
  {
    HeaderOfFlags(d, TcpFlags(true), id, CredentialBytes(Some(c)) + body);
    CredentialsOfEncoding(d, id, c, body);
  }

  /** A header built from its fields decodes back to those fields, whatever
      body follows it. */
  lemma DecodeHeaderOfFields(d: uint8, id: Uuid, a: Option<Auth.UsernamePassword>, body: seq<uint8>)
    requires a.Some? ==> a.value.Encodable()
    ensures DecodeHeader([d, TcpFlags(a.Some?).Bits()] + id + (CredentialBytes(a) + body))
      == Ok(Header(d, id, a, FRAME_MIN + |CredentialBytes(a)|))
  {
    match a
    case None => HeaderWithoutCredentials(d, id, body);
    case Some(c) => HeaderWithCredentials(d, id, c, body);
  }

  /** The body sits right after the fixed header fields and the
      credentials. */
  lemma BodyAfterHeader(d: uint8, bits: uint8, id: Uuid, creds: seq<uint8>, body: seq<uint8>)
    ensures ([d, bits] + id + (creds + body))[FRAME_MIN + |creds|..] == body
  {
    HeaderLayout(d, bits, id, creds + body);
    var frame := [d, bits] + id + (creds + body);
    assert frame[FRAME_MIN + |creds|..] == frame[FRAME_MIN..][|creds|..];
    assert (creds + body)[|creds|..] == body;
  }

  /** The header written for a package decodes back to the package's
      discriminator, id and credentials, and takes exactly the header and
      credential bytes, leaving the body. */
  lemma DecodeEncodedHeader<M>(cat: MessageCatalog<M>, p: Package<M>)
    requires Encodable(cat, p)
    ensures var frame := FrameFields(cat, p);
            var n := FRAME_MIN + |CredentialBytes(p.authentication)|;
            DecodeHeader(frame) == Ok(Header(cat.discriminator(p.message), p.correlationId, p.authentication, n))
            && frame[n..] == cat.encodeBody(p.message)
  {
    EncodedHeaderFields(cat, p);
    EncodedBody(cat, p);
  }

  /** The header part of `DecodeEncodedHeader`. */
  lemma EncodedHeaderFields<M>(cat: MessageCatalog<M>, p: Package<M>)
    requires p.authentication.Some? ==> p.authentication.value.Encodable()
    ensures DecodeHeader(FrameFields(cat, p)) == Ok(Header(cat.discriminator(p.message), p.correlationId,
      p.authentication, FRAME_MIN + |CredentialBytes(p.authentication)|))
  {
    DecodeHeaderOfFields(cat.discriminator(p.message), p.correlationId, p.authentication, cat.encodeBody(p.message));
  }

  /** The body part of `DecodeEncodedHeader`. */
  lemma EncodedBody<M>(cat: MessageCatalog<M>, p: Package<M>)
    ensures FrameFields(cat, p)[FRAME_MIN + |CredentialBytes(p.authentication)|..] == cat.encodeBody(p.message)
  {
    BodyAfterHeader(cat.discriminator(p.message), TcpFlags(p.authentication.Some?).Bits(), p.correlationId,
      CredentialBytes(p.authentication), cat.encodeBody(p.message));
  }

  /** The fields written for a package decode, as a frame, to the package. */
  lemma DecodeFrameFields<M(!new)>(cat: MessageCatalog<M>, p: Package<M>)
    requires RoundTrips(cat)
    requires Encodable(cat, p)
    ensures DecodeFrame(cat, FrameFields(cat, p)) == Ok(p)
  {
    DecodeEncodedHeader(cat, p);
    assert cat.decodeBody(cat.discriminator(p.message), cat.encodeBody(p.message)) == Ok(p.message);
  }

  /** A buffer holding a whole frame that decodes gives its package and
      keeps what follows the frame. */
  lemma DecodeWholeFrame<M>(cat: MessageCatalog<M>, buf: seq<uint8>, p: Package<M>)
    requires |buf| >= HEADER_MIN
    requires FRAME_MIN <= ReadU32Le(buf) && ReadU32Le(buf) + 4 <= |buf|
    requires DecodeFrame(cat, buf[4..4 + ReadU32Le(buf)]) == Ok(p)
    ensures Decode(cat, buf) == DecodeStep(Ok(Some(p)), buf[4 + ReadU32Le(buf)..])
  {
    assert Decode(cat, buf) == WholeFrameStep(cat, buf, ReadU32Le(buf));
  }

  /** Round trip: an encodable package's frame, followed by any bytes,
      decodes to the same package, takes the whole frame, and leaves the
      following bytes untouched. */
  lemma DecodeEncode<M(!new)>(cat: MessageCatalog<M>, p: Package<M>, rest: seq<uint8>)
    requires RoundTrips(cat)
    requires Encodable(cat, p)
    ensures Decode(cat, EncodeFrame(cat, p) + rest) == DecodeStep(Ok(Some(p)), rest)
  {
    var f := EncodeFrame(cat, p);
    var len := |f| - 4;
    EncodedLength(cat, p);
    PrefixOfExtended(f, rest);
    FrameOfExtended(f, rest, len);
    assert f[4..4 + len] == FrameFields(cat, p);
    assert f[4 + len..] + rest == rest;
    DecodeFrameFields(cat, p);
    DecodeWholeFrame(cat, f + rest, p);
  }

  /** The round trip on a buffer holding exactly one frame: every byte is
      consumed. */
  lemma DecodeEncodeExact<M(!new)>(cat: MessageCatalog<M>, p: Package<M>)
    requires RoundTrips(cat)
    requires Encodable(cat, p)
    ensures Decode(cat, Encode(cat, p, [])) == DecodeStep(Ok(Some(p)), [])
  {
    assert Encode(cat, p, []) == EncodeFrame(cat, p) + [];
    DecodeEncode(cat, p, []);
  }

  /** Any proper prefix of a frame is "not enough data yet", and the buffer
      is left as it was: decoding resumes once more bytes arrive. */
  lemma DecodePrefix<M>(cat: MessageCatalog<M>, p: Package<M>, n: nat)
    requires Encodable(cat, p)
    requires n < |EncodeFrame(cat, p)|
    ensures Decode(cat, EncodeFrame(cat, p)[..n]) == DecodeStep(Ok(None), EncodeFrame(cat, p)[..n])
  {
    var f := EncodeFrame(cat, p);
    var buf := f[..n];
    if n >= HEADER_MIN {
      EncodedLength(cat, p);
      assert buf[..4] == f[..4];
      assert ReadU32Le(buf) == |f| - 4;
    }
  }

  /** Appending bytes to a buffer holding the header leaves its length
      prefix as it was. */
  lemma PrefixOfExtended(buf: seq<uint8>, extra: seq<uint8>)
    requires |buf| >= 4
    ensures ReadU32Le(buf + extra) == ReadU32Le(buf)
  {
    assert forall i | 0 <= i < 4 :: (buf + extra)[i] == buf[i];
  }

  /** Appending bytes to a buffer holding a whole frame leaves the frame as
      it was and lengthens only what follows it. */
  lemma FrameOfExtended(buf: seq<uint8>, extra: seq<uint8>, len: nat)
    requires 4 + len <= |buf|
    ensures (buf + extra)[4..4 + len] == buf[4..4 + len]
    ensures (buf + extra)[4 + len..] == buf[4 + len..] + extra
  {
  }

  /** A buffer holding a whole frame of legal length takes the whole-frame
      step. */
  lemma DecodeIsWholeFrameStep<M>(cat: MessageCatalog<M>, buf: seq<uint8>)
    requires |buf| >= HEADER_MIN
    requires FRAME_MIN <= ReadU32Le(buf) && ReadU32Le(buf) + 4 <= |buf|
    ensures Decode(cat, buf) == WholeFrameStep(cat, buf, ReadU32Le(buf))
  {
  }

  /** The whole-frame step on an extended buffer reads the same frame and
      keeps the extension after whatever it keeps. */
  lemma WholeFrameStepExtended<M>(cat: MessageCatalog<M>, buf: seq<uint8>, extra: seq<uint8>, len: nat)
    requires 4 + len <= |buf|
    ensures WholeFrameStep(cat, buf + extra, len)
      == DecodeStep(WholeFrameStep(cat, buf, len).outcome, WholeFrameStep(cat, buf, len).rest + extra)
  {
    FrameOfExtended(buf, extra, len);
  }

  /** Decoding looks no further than the frame the length prefix declares:
      once a buffer yields a package or an error, appending bytes changes
      neither, and the appended bytes stay behind in order. */
  lemma DecodeIgnoresTrailing<M>(cat: MessageCatalog<M>, buf: seq<uint8>, extra: seq<uint8>)
    requires Decode(cat, buf).outcome != Ok(None)
    ensures Decode(cat, buf + extra) == DecodeStep(Decode(cat, buf).outcome, Decode(cat, buf).rest + extra)
  {
    assert |buf| >= HEADER_MIN;
    PrefixOfExtended(buf, extra);
    var len := ReadU32Le(buf);
    if len < FRAME_MIN {
      DecodeStates(cat, buf);
      DecodeStates(cat, buf + extra);
    } else {
      assert len + 4 <= |buf|;
      DecodeIsWholeFrameStep(cat, buf);
      DecodeIsWholeFrameStep(cat, buf + extra);
      WholeFrameStepExtended(cat, buf, extra, len);
    }
  }

  /** Two packages written one after the other into the same output are
      read back one per call, in order, and the second call empties the
      buffer. */
  lemma Pipeline<M(!new)>(cat: MessageCatalog<M>, p1: Package<M>, p2: Package<M>)
    requires RoundTrips(cat)
    requires Encodable(cat, p1) && Encodable(cat, p2)
    ensures var wire := Encode(cat, p2, Encode(cat, p1, []));
            var first := Decode(cat, wire);
            && first == DecodeStep(Ok(Some(p1)), EncodeFrame(cat, p2))
            && Decode(cat, first.rest) == DecodeStep(Ok(Some(p2)), [])
  {
    var f1 := EncodeFrame(cat, p1);
    var f2 := EncodeFrame(cat, p2);
    assert Encode(cat, p2, Encode(cat, p1, [])) == f1 + f2;
    DecodeEncode(cat, p1, f2);
    DecodeEncode(cat, p2, []);
    assert f2 + [] == f2;
  }
}
