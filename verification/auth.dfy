/** The username/password token embedded in authenticated packages
    (`UsernamePassword` in src/auth.rs). The protocol has no session, so
    every request carries its own credentials. */
module Auth {
  import opened Wrappers
  import opened Errors
  import opened Bytes
  import opened Utf8

  /** Both fields are Rust strings, so both are well-formed UTF-8; their
      lengths are byte lengths. */
  datatype UsernamePassword = UsernamePassword(username: Utf8Bytes, password: Utf8Bytes)
  {
    /** Each field fits the one-byte length prefix with room to spare, as
        the constructor demands. */
    predicate WellFormed() {
      |username| < 255 && |password| < 255
    }

    /** Each field's length fits the one-byte prefix, so the encoding is
        lossless. */
    predicate Encodable() {
      |username| < 0x100 && |password| < 0x100
    }
  }

  /** A decoded value together with the number of input bytes it used. */
  datatype Decoded<+T> = Decoded(value: T, consumed: nat)

  /** `UsernamePassword::new`: both fields must be shorter than 255 bytes
      (the source asserts; here a too-long field is an error). */
  function New(username: Utf8Bytes, password: Utf8Bytes): (r: Result<UsernamePassword, Error>)
    ensures r.Ok? <==> |username| < 255 && |password| < 255
    ensures r.Ok? ==> r.value.username == username && r.value.password == password
    ensures r.Ok? ==> r.value.WellFormed()
    ensures r.Err? ==> r.error == ValueTooLong
  {
    if |username| < 255 && |password| < 255 then Ok(UsernamePassword(username, password))
    else Err(ValueTooLong)
  }

  /** One length-prefixed field: the length byte, then the bytes. The length
      is truncated to a byte, as `len() as u8` does. */
  function EncodeField(field: seq<uint8>): (r: seq<uint8>)
    ensures |r| == 1 + |field|
    ensures r[1..] == field
    ensures r[0] == |field| % 0x100
  {
    [|field| % 0x100] + field
  }

  /** `UsernamePassword::encode`: the bytes written and the count it returns. */
  function Encode(c: UsernamePassword): (r: Decoded<seq<uint8>>)
    ensures r.consumed == |r.value| == 2 + |c.username| + |c.password|
    ensures r.value[0] == |c.username| % 0x100
    ensures r.value[1 + |c.username|] == |c.password| % 0x100
    ensures r.value[1..1 + |c.username|] == c.username
    ensures r.value[2 + |c.username|..] == c.password
  {
    var bytes := EncodeField(c.username) + EncodeField(c.password);
    Decoded(bytes, 1 + |c.username| + 1 + |c.password|)
  }

  /** Reads one length-prefixed field from the front of `s`; `read_u8` and
      `read_exact` fail on input that ends too early, and `String::from_utf8`
      fails on bytes that are not UTF-8. */
  function DecodeField(s: seq<uint8>): (r: Result<Decoded<Utf8Bytes>, Error>)
    ensures r.Ok? ==> 0 < |s| && r.value.consumed == 1 + s[0] as int
    ensures r.Ok? ==> r.value.consumed == 1 + |r.value.value| <= |s|
    ensures r.Ok? ==> r.value.value == s[1..r.value.consumed]
    ensures r.Err? ==> r.error == Truncated || r.error == InvalidUtf8
  {
    if |s| < 1 then Err(Truncated)
    else
      var len: nat := s[0];
      if |s| < 1 + len then Err(Truncated)
      else
        var field := s[1..1 + len];
        if !ValidUtf8(field) then Err(InvalidUtf8)
        else Ok(Decoded(field, 1 + len))
  }

  /** Which error a field read reports: truncation exactly when the input
      ends before the field does, and a UTF-8 error exactly when the whole
      field is there but its bytes are not UTF-8. */
  lemma DecodeFieldErrors(s: seq<uint8>)
    ensures DecodeField(s) == Err(Truncated) <==> |s| == 0 || |s| <= s[0]
    ensures DecodeField(s) == Err(InvalidUtf8) <==> 0 < |s| && s[0] < |s| && !ValidUtf8(s[1..1 + s[0]])
  {
  }

  /** `UsernamePassword::decode`: the username field, then the password
      field. On success the reader stands right after the password, and the
      bytes it passed over are exactly the token's encoding. */
  function Decode(s: seq<uint8>): (r: Result<Decoded<UsernamePassword>, Error>)
    ensures r.Ok? ==> r.value.consumed == 2 + |r.value.value.username| + |r.value.value.password|
    ensures r.Ok? ==> r.value.consumed <= |s|
    ensures r.Ok? ==> r.value.value.Encodable()
    ensures r.Err? ==> r.error == Truncated || r.error == InvalidUtf8
  {
    match DecodeField(s)
    case Err(e) => Err(e)
    case Ok(user) =>
      match DecodeField(s[user.consumed..])
      case Err(e) => Err(e)
      case Ok(pass) =>
        var n := user.consumed + pass.consumed;
        Ok(Decoded(UsernamePassword(user.value, pass.value), n))
  }

  /** Decoding a field's encoding, followed by anything, gives the field back
      and stops right after it. */
  lemma DecodeEncodeField(field: Utf8Bytes, rest: seq<uint8>)
    requires |field| < 0x100
    ensures DecodeField(EncodeField(field) + rest) == Ok(Decoded(field, 1 + |field|))
  {
    var s := EncodeField(field) + rest;
    assert s[0] == |field|;
    assert s[1..1 + |field|] == field;
  }

  /** The bytes a successful decode passes over are exactly the encoding of
      the token it returns. */
  lemma DecodeConsumesEncoding(s: seq<uint8>)
    requires Decode(s).Ok?
    ensures s[..Decode(s).value.consumed] == Encode(Decode(s).value.value).value
  {
    var user := DecodeField(s).value;
    var pass := DecodeField(s[user.consumed..]).value;
    var n := user.consumed + pass.consumed;
    assert s[..n] == s[..user.consumed] + s[user.consumed..][..pass.consumed];
    assert s[..user.consumed] == EncodeField(user.value);
    assert s[user.consumed..][..pass.consumed] == EncodeField(pass.value);
  }

  /** A token is decoded from its two fields, the password read from where
      the username stopped. */
  lemma DecodeOfFields(s: seq<uint8>, user: Decoded<Utf8Bytes>, pass: Decoded<Utf8Bytes>)
    requires DecodeField(s) == Ok(user)
    requires DecodeField(s[user.consumed..]) == Ok(pass)
    ensures Decode(s) == Ok(Decoded(UsernamePassword(user.value, pass.value), user.consumed + pass.consumed))
  {
  }

  /** Round trip: decoding the encoding of a token whose fields fit their
      length bytes (every token `New` accepts does) gives the same token,
      consumes exactly the encoding, and leaves what follows unread. */
  lemma DecodeEncode(c: UsernamePassword, rest: seq<uint8>)
    requires c.Encodable()
    ensures Decode(Encode(c).value + rest) == Ok(Decoded(c, Encode(c).consumed))
  {
    var u := EncodeField(c.username);
    var p := EncodeField(c.password);
    var s := u + (p + rest);
    assert Encode(c).value + rest == s;
    DecodeEncodeField(c.username, p + rest);
    assert s[|u|..] == p + rest;
    DecodeEncodeField(c.password, rest);
    DecodeOfFields(s, Decoded(c.username, |u|), Decoded(c.password, |p|));
  }

  /** The round trip on exactly one token's encoding. */
  lemma DecodeEncodeExact(c: UsernamePassword)
    requires c.Encodable()
    ensures Decode(Encode(c).value) == Ok(Decoded(c, Encode(c).consumed))
  {
    DecodeEncode(c, []);
    assert Encode(c).value + [] == Encode(c).value;
  }

  /** Every token built by `New` survives the round trip. */
  lemma NewRoundTrip(username: Utf8Bytes, password: Utf8Bytes)
    requires New(username, password).Ok?
    ensures var c := New(username, password).value;
            Decode(Encode(c).value) == Ok(Decoded(c, 2 + |username| + |password|))
  {
    var c := New(username, password).value;
    assert c == UsernamePassword(username, password);
    DecodeEncodeExact(c);
  }

  /** A field's encoding cut short anywhere is truncated. */
  lemma FieldPrefixTruncated(field: seq<uint8>, m: nat)
    requires |field| < 0x100
    requires m < 1 + |field|
    ensures DecodeField(EncodeField(field)[..m]) == Err(Truncated)
  {
    var s := EncodeField(field)[..m];
    if m > 0 {
      assert s[0] == |field|;
    }
  }

  /** A token's decode fails with the first failing field's error. */
  lemma DecodeFieldFailure(s: seq<uint8>)
    ensures DecodeField(s).Err? ==> Decode(s) == Err(DecodeField(s).error)
    ensures DecodeField(s).Ok? && DecodeField(s[DecodeField(s).value.consumed..]).Err? ==>
      Decode(s) == Err(DecodeField(s[DecodeField(s).value.consumed..]).error)
  {
  }

  /** Input cut short anywhere inside a token's encoding is reported as
      truncated: never decoded, never a UTF-8 error. */
  lemma DecodeTruncated(c: UsernamePassword, n: nat)
    requires c.Encodable()
    requires n < |Encode(c).value|
    ensures Decode(Encode(c).value[..n]) == Err(Truncated)
  {
    var e := Encode(c).value;
    var s := e[..n];
    var ul := |c.username|;
    var u := EncodeField(c.username);
    assert e == u + EncodeField(c.password);
    if n >= 1 + ul {
      var tail := s[1 + ul..];
      assert s == u + tail;
      DecodeEncodeField(c.username, tail);
      assert tail == EncodeField(c.password)[..n - 1 - ul];
      FieldPrefixTruncated(c.password, n - 1 - ul);
    } else {
      assert s == u[..n];
      FieldPrefixTruncated(c.username, n);
    }
    DecodeFieldFailure(s);
  }
}
