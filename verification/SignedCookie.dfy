/**
 signCookie and verifyCookie of gateway/internal/admin/auth.go, and verifySessionCookie of middleware.go, which
 repeats the latter. The keyed MAC is a parameter: any function of the text.
 */
module SignedCookie {
  import opened Outcomes
  import opened Base64Url

  datatype CookieError = InvalidFormat | InvalidSignature | InvalidPayload

  type Mac = string -> seq<Byte>

  function Sign(mac: Mac, payload: seq<Byte>): string {
    var encoded := Encode(payload);
    encoded + "." + Encode(mac(encoded))
  }

  /** Index of the last dot, or -1. */
  function LastDot(s: string): (i: int)
    ensures -1 <= i < |s|
    ensures i >= 0 ==> s[i] == '.'
    ensures forall k :: i < k < |s| ==> s[k] != '.'
  {
    if s == [] then -1
    else if s[|s| - 1] == '.' then |s| - 1
    else LastDot(s[..|s| - 1])
  }

  function Verify(mac: Mac, value: string): Result<seq<Byte>, CookieError> {
    var i := LastDot(value);
    if i < 0 then Err(InvalidFormat)
    else
      var encoded, signature := value[..i], value[i + 1..];
      if Encode(mac(encoded)) != signature then Err(InvalidSignature)
      else
        match Decode(encoded)
        case Some(payload) => Ok(payload)
        case None => Err(InvalidPayload)
  }

  lemma NoDots(b: seq<Byte>)
    ensures forall i :: 0 <= i < |Encode(b)| ==> Encode(b)[i] != '.'
  {
    EncodedDigits(b);
    forall i | 0 <= i < |Encode(b)| ensures Encode(b)[i] != '.' {
      assert IsDigit(Encode(b)[i]);
    }
  }

  /** The last dot stands between a text and its MAC, whatever dots the text itself holds. */
  lemma {:induction false} LastDotSplits(text: string, signature: string)
    requires forall i :: 0 <= i < |signature| ==> signature[i] != '.'
    ensures LastDot(text + "." + signature) == |text|
    decreases |signature|
  {
    var s := text + "." + signature;
    if signature != [] {
      var shorter := signature[..|signature| - 1];
      LastDotSplits(text, shorter);
      assert s[..|s| - 1] == text + "." + shorter;
      assert s[|s| - 1] == signature[|signature| - 1];
    }
  }

  /** A signed payload verifies to itself, for every byte string and every MAC. */
  lemma RoundTrip(mac: Mac, payload: seq<Byte>)
    ensures Verify(mac, Sign(mac, payload)) == Ok(payload)
  {
    var encoded := Encode(payload);
    VerifyExactly(mac, Sign(mac, payload), payload, encoded);
    Base64Url.RoundTrip(payload);
  }

  lemma VerifyExactly(mac: Mac, value: string, payload: seq<Byte>, encoded: string)
    requires value == encoded + "." + Encode(mac(encoded))
    ensures Verify(mac, value) == Ok(payload) <==> Decode(encoded) == Some(payload)
  {
    NoDots(mac(encoded));
    LastDotSplits(encoded, Encode(mac(encoded)));
    assert value[..|encoded|] == encoded;
    assert value[|encoded| + 1..] == Encode(mac(encoded));
  }

  /** The accepted cookies are exactly the texts that decode to the payload, each with its own MAC after a dot. */
  lemma AcceptedCookies(mac: Mac, value: string, payload: seq<Byte>)
    ensures Verify(mac, value) == Ok(payload)
            <==> exists encoded :: value == encoded + "." + Encode(mac(encoded)) && Decode(encoded) == Some(payload)
  {
    if Verify(mac, value) == Ok(payload) {
      var i := LastDot(value);
      assert value == value[..i] + "." + value[i + 1..];
    }
    forall encoded | value == encoded + "." + Encode(mac(encoded)) && Decode(encoded) == Some(payload)
      ensures Verify(mac, value) == Ok(payload)
    {
      VerifyExactly(mac, value, payload, encoded);
    }
  }

  /** Every other text is refused, and the error says at which check. */
  lemma RefusedCookies(mac: Mac, value: string)
    ensures Verify(mac, value) == Err(InvalidFormat) <==> forall i :: 0 <= i < |value| ==> value[i] != '.'
    ensures Verify(mac, value) == Err(InvalidPayload)
            <==> exists encoded :: value == encoded + "." + Encode(mac(encoded)) && Decode(encoded).None?
  {
    if Verify(mac, value) == Err(InvalidPayload) {
      var i := LastDot(value);
      assert value == value[..i] + "." + value[i + 1..];
    }
    forall encoded | value == encoded + "." + Encode(mac(encoded)) && Decode(encoded).None?
      ensures Verify(mac, value) == Err(InvalidPayload)
    {
      NoDots(mac(encoded));
      LastDotSplits(encoded, Encode(mac(encoded)));
      assert value[..|encoded|] == encoded && value[|encoded| + 1..] == Encode(mac(encoded));
    }
  }
}
