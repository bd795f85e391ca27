/** The challenge headers with which the router answers an authentication GET. */
module Challenge {
  import opened Bytes

  datatype Header = Realm | Nonce

  datatype Malformed =
    | IncompleteHeaders
    | InvalidHeader(header: Header)
    | EmptyHeader(header: Header)

  datatype ChallengeError = Unsupported | MalformedResponse(reason: Malformed)

  /** The values of the realm and the challenge header, where present. */
  datatype Headers = Headers(realm: Option<seq<byte>>, nonce: Option<seq<byte>>)

  /** Header values convert to text when they are visible ASCII or tabs. */
  predicate IsText(value: seq<byte>) {
    forall i :: 0 <= i < |value| ==> 0x20 <= value[i] < 0x7F || value[i] == 0x09
  }

  predicate Visible(value: seq<byte>) {
    forall i :: 0 <= i < |value| ==> value[i] == '\t' as byte || ' ' as byte <= value[i] <= '~' as byte
  }

  predicate Usable(value: Option<seq<byte>>) {
    value.Some? && value.value != [] && IsText(value.value)
  }

  /**
   Both headers or none must be there; text conversion is checked before emptiness, and
   the realm before the challenge.
   */
  function ParseChallenge(h: Headers): (r: Result<(seq<byte>, seq<byte>), ChallengeError>)
    ensures r.Ok? <==> Usable(h.realm) && Usable(h.nonce)
    ensures r.Ok? <==> h.realm.Some? && h.nonce.Some? && h.realm.value != [] && h.nonce.value != []
                       && Visible(h.realm.value) && Visible(h.nonce.value)
    ensures r.Ok? ==> h == Headers(Some(r.value.0), Some(r.value.1))
    ensures r == Err(Unsupported) <==> h == Headers(None, None)
    ensures r == Err(MalformedResponse(IncompleteHeaders)) <==> h.realm.Some? != h.nonce.Some?
    ensures r == Err(MalformedResponse(InvalidHeader(Realm))) <==>
            h.realm.Some? && h.nonce.Some? && !IsText(h.realm.value)
    ensures r == Err(MalformedResponse(InvalidHeader(Nonce))) <==>
            h.realm.Some? && h.nonce.Some? && IsText(h.realm.value) && !IsText(h.nonce.value)
    ensures r == Err(MalformedResponse(EmptyHeader(Realm))) <==>
            h.realm == Some([]) && h.nonce.Some? && IsText(h.nonce.value)
    ensures r == Err(MalformedResponse(EmptyHeader(Nonce))) <==> Usable(h.realm) && h.nonce == Some([])
  {
    if h.realm.None? && h.nonce.None? then Err(Unsupported)
    else if h.realm.None? || h.nonce.None? then Err(MalformedResponse(IncompleteHeaders))
    else
      var realm, nonce := h.realm.value, h.nonce.value;
      if !IsText(realm) then Err(MalformedResponse(InvalidHeader(Realm)))
      else if !IsText(nonce) then Err(MalformedResponse(InvalidHeader(Nonce)))
      else if realm == [] then Err(MalformedResponse(EmptyHeader(Realm)))
      else if nonce == [] then Err(MalformedResponse(EmptyHeader(Nonce)))
      else Ok((realm, nonce))
  }
}
