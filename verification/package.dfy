/** The unit of exchange: a correlation id, optional credentials and a
    message, together with the frame flags and the message catalog the
    codec dispatches through. */
module Package {
  import opened Wrappers
  import opened Errors
  import opened Bytes
  import Auth

  /** The 16 raw bytes of the correlation id (a UUID, opaque to the codec). */
  type Uuid = s: seq<uint8> | |s| == 16 witness [0, 0, 0, 0, 0, 0, 0, 0, 0, 0, 0, 0, 0, 0, 0, 0]

  /** The bit of the flags byte that announces a credential block. */
  const FLAG_AUTHENTICATED: uint8 := 0x01

  /** The strict flag set: one known bit today. */
  datatype TcpFlags = TcpFlags(authenticated: bool)
  {
    /** The flags byte written on the wire. */
    function Bits(): (b: uint8)
      ensures b == FLAG_AUTHENTICATED || b == 0
      ensures (b == FLAG_AUTHENTICATED) <==> authenticated
    {
      if authenticated then FLAG_AUTHENTICATED else 0
    }
  }

  /** `TcpFlags::from_bits`: a byte with any bit outside the known set is
      rejected rather than silently masked. */
  function FlagsFromBits(b: uint8): (r: Option<TcpFlags>)
    ensures r.Some? <==> b == 0 || b == FLAG_AUTHENTICATED
    ensures r.Some? ==> r.value.Bits() == b
  {
    if b == 0 then Some(TcpFlags(false))
    else if b == FLAG_AUTHENTICATED then Some(TcpFlags(true))
    else None
  }

  /** Flags survive a trip through their byte, and a byte accepted by
      `FlagsFromBits` names exactly one flag set. */
  lemma FlagsRoundTrip(f: TcpFlags, b: uint8)
    ensures FlagsFromBits(f.Bits()) == Some(f)
    ensures FlagsFromBits(b).Some? ==> FlagsFromBits(b).value.authenticated == (b == FLAG_AUTHENTICATED)
  {
  }

  datatype Package<M> = Package(correlationId: Uuid, authentication: Option<Auth.UsernamePassword>, message: M)

  /** The message capability the codec is parameterised by: a registry from
      discriminator byte to body decoder, and for each message its
      discriminator and body encoding. The source's `Message` enum and its
      protobuf bodies play this part. */
  datatype MessageCatalog<!M> = MessageCatalog(
    discriminator: M -> uint8,
    encodeBody: M -> seq<uint8>,
    decodeBody: (uint8, seq<uint8>) -> Result<M, Error>)

  /** The catalog's own contract: a message's body, read back under its own
      discriminator, gives the message back. */
  ghost predicate RoundTrips<M(!new)>(cat: MessageCatalog<M>) {
    forall m: M :: cat.decodeBody(cat.discriminator(m), cat.encodeBody(m)) == Ok(m)
  }
}
