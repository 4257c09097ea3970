/** A minimal concrete message catalog: the `Ping` message, discriminator
    0x03, with an empty body. It decodes under 0x03 whatever body bytes the
    frame carries, and reports every other discriminator as unsupported. */
module PingCatalog {
  import opened Wrappers
  import opened Errors
  import opened Bytes
  import opened Package
  import opened Codec

  datatype Message = Ping

  const PING: uint8 := 0x03

  function DecodeBody(d: uint8, body: seq<uint8>): (r: Result<Message, Error>)
    ensures r.Ok? <==> d == PING
    ensures r.Err? ==> r.error == UnsupportedDiscriminator(d)
  {
    if d == PING then Ok(Ping) else Err(UnsupportedDiscriminator(d))
  }

  function Discriminator(m: Message): uint8 {
    PING
  }

  function EncodeBody(m: Message): seq<uint8> {
    []
  }

  function Catalog(): MessageCatalog<Message> {
    MessageCatalog(Discriminator, EncodeBody, DecodeBody)
  }

  /** The catalog honours the body round trip the codec relies on. */
  lemma CatalogRoundTrips()
    ensures RoundTrips(Catalog())
  {
    forall m: Message
      ensures Catalog().decodeBody(Catalog().discriminator(m), Catalog().encodeBody(m)) == Ok(m)
    {
      assert Catalog().encodeBody(m) == [];
      assert Catalog().discriminator(m) == PING;
      assert m == Ping;
    }
  }

  /** The correlation id 7b50a1b0-34b9-224e-8f9d-708c394fab2d. */
  const PING_ID: Uuid := [0x7b, 0x50, 0xa1, 0xb0, 0x34, 0xb9, 0x22, 0x4e,
                          0x8f, 0x9d, 0x70, 0x8c, 0x39, 0x4f, 0xab, 0x2d]

  /** The frame 1200000003007b50a1b034b9224e8f9d708c394fab2d. */
  const PING_FRAME: seq<uint8> := [0x12, 0x00, 0x00, 0x00, 0x03, 0x00] + PING_ID

  /** The frame of a Ping without credentials. */
  lemma PingFrame()
    ensures EncodeFrame(Catalog(), Package(PING_ID, None, Ping)) == PING_FRAME
  {
    var f := EncodeFrame(Catalog(), Package(PING_ID, None, Ping));
    assert |f| == 22;
    assert f[4..] == [0x03, 0x00] + PING_ID;
    assert ReadU32Le(f[..4]) == 18;
    WriteReadU32Le(f[..4]);
    assert f[..4] == [0x12, 0x00, 0x00, 0x00];
    assert f == f[..4] + f[4..];
  }

  /** Encoding a Ping without credentials gives exactly the known frame, and
      that frame decodes back to the Ping, consuming all of it. */
  lemma PingVector()
    ensures Encode(Catalog(), Package(PING_ID, None, Ping), []) == PING_FRAME
    ensures Decode(Catalog(), PING_FRAME) == DecodeStep(Ok(Some(Package(PING_ID, None, Ping))), [])
  {
    var p := Package(PING_ID, None, Ping);
    PingFrame();
    assert Encode(Catalog(), p, []) == [] + EncodeFrame(Catalog(), p);
    CatalogRoundTrips();
    DecodeEncode(Catalog(), p, []);
    assert PING_FRAME + [] == PING_FRAME;
  }

  /** Every proper prefix of the Ping frame is "not enough data yet", and a
      Ping frame followed by any bytes yields the Ping and leaves exactly
      those bytes. */
  lemma PingVectorPartialAndOverlong(n: nat, extra: seq<uint8>)
    requires n < |PING_FRAME|
    ensures Decode(Catalog(), PING_FRAME[..n]) == DecodeStep(Ok(None), PING_FRAME[..n])
    ensures Decode(Catalog(), PING_FRAME + extra) == DecodeStep(Ok(Some(Package(PING_ID, None, Ping))), extra)
  {
    var p := Package(PING_ID, None, Ping);
    PingFrame();
    DecodePrefix(Catalog(), p, n);
    CatalogRoundTrips();
    DecodeEncode(Catalog(), p, extra);
  }

  /** The frame 1300000003007b50a1b034b9224e8f9d708c394fab2d00: the length
      prefix covers one body byte after the header. Ping ignores its body,
      so the frame still decodes to the Ping and all of it is consumed. */
  lemma PingWithJunkVector()
    ensures var buf := [0x13, 0x00, 0x00, 0x00, 0x03, 0x00] + PING_ID + [0x00];
            Decode(Catalog(), buf) == DecodeStep(Ok(Some(Package(PING_ID, None, Ping))), [])
  {
    var buf: seq<uint8> := [0x13, 0x00, 0x00, 0x00, 0x03, 0x00] + PING_ID + [0x00];
    assert ReadU32Le(buf) == 19;
    assert buf[6..22] == PING_ID;
    assert buf[4..23][2..18] == PING_ID;
  }

  /** The frame 12000000ff007b50a1b034b9224e8f9d708c394fab2d: discriminator
      0xff is not in the catalog, so decoding reports it as an error value
      and consumes nothing. */
  lemma UnknownDiscriminatorVector()
    ensures var buf := [0x12, 0x00, 0x00, 0x00, 0xff, 0x00] + PING_ID;
            Decode(Catalog(), buf) == DecodeStep(Err(UnsupportedDiscriminator(0xff)), buf)
  {
    var buf: seq<uint8> := [0x12, 0x00, 0x00, 0x00, 0xff, 0x00] + PING_ID;
    assert ReadU32Le(buf) == 18;
    assert buf[6..] == PING_ID;
    assert buf[4..22][2..18] == PING_ID;
  }
}
