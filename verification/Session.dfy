/** The web interface's session cookie (internal/api/ui_session.go). */
module Session {
  import opened Base64
  import opened Basics
  import opened CryptoPrimitives
  import opened Decimal

  /** "v1". */
  const VERSION: Str := [118, 49]

  /** v1|expiry|token. */
  function Payload(token: Str, exp: int): Str { VERSION + [BAR] + (Dec(exp) + [BAR] + token) }

  /** The cookie value of issueUICookie. */
  function Issue(c: Crypto, sessionKey: Str, token: Str, exp: int): Str
  {
    Encode(Payload(token, exp)) + [DOT] + Encode(c.hmac(sessionKey, Payload(token, exp)))
  }

  /** The token of a payload that is still valid, or "". */
  function ReadPayload(payload: Str, now: int): Str
  {
    var fields := SplitN(payload, BAR, 3);
    if |fields| != 3 || fields[0] != VERSION then [] else
    var exp := ParseInt64(fields[1]);
    if exp.None? || now > exp.value then [] else fields[2]
  }

  /** verifyUICookie: the token, or "" when the cookie is missing, malformed, wrongly signed or expired. */
  function Verify(c: Crypto, sessionKey: Str, cookie: Option<Str>, now: int): Str
  {
    if sessionKey == [] || cookie.None? then [] else
    var parts := SplitN(cookie.value, DOT, 2);
    if |parts| != 2 then [] else
    var payload, sig := Decode(parts[0]), Decode(parts[1]);
    if payload.None? || sig.None? || sig.value != c.hmac(sessionKey, payload.value) then []
    else ReadPayload(payload.value, now)
  }

  lemma {:induction false} NoBarInDec(n: int)
    ensures BAR !in Dec(n)
  {
    var digits := DecNat(if n < 0 then -n else n);
    assert forall b :: b in digits ==> IsDigit(b);
  }

  /** The third field takes everything behind the second bar, further bars included. */
  lemma {:induction false} ReadIssued(token: Str, exp: int, now: int)
    requires INT64_MIN <= exp <= INT64_MAX
    ensures ReadPayload(Payload(token, exp), now) == if now <= exp then token else []
  {
    var rest := Dec(exp) + [BAR] + token;
    SplitNAppend(VERSION, BAR, rest, 3);
    NoBarInDec(exp);
    SplitNAppend(Dec(exp), BAR, token, 2);
    assert SplitN(token, BAR, 1) == [token];
    ParseDec(exp);
  }

  predicate SameMac(c: Crypto, key: Str, key': Str, message: Str) { c.hmac(key, message) == c.hmac(key', message) }

  /** An issued cookie, checked under any key: it yields its token exactly until it expires, for any token, as long as
      the key is set up and gives the payload the same MAC (the issuing key does). */
  lemma {:induction false} IssuedCookie(c: Crypto, issuingKey: Str, checkingKey: Str, token: Str, exp: int, now: int)
    requires INT64_MIN <= exp <= INT64_MAX
    ensures Verify(c, checkingKey, Some(Issue(c, issuingKey, token, exp)), now) ==
      if checkingKey != [] && SameMac(c, issuingKey, checkingKey, Payload(token, exp)) && now <= exp then token else []
  {
    var payload := Payload(token, exp);
    var mac: Str := c.hmac(issuingKey, payload);
    DecodeEncode(payload);
    DecodeEncode(mac);
    SplitNAppend(Encode(payload), DOT, Encode(mac), 2);
    assert SplitN(Encode(mac), DOT, 1) == [Encode(mac)];
    ReadIssued(token, exp, now);
  }

  /** Round trip: a non-empty token comes back exactly when the cookie has not expired. */
  lemma {:induction false} CookieRoundTripIff(c: Crypto, sessionKey: Str, token: Str, exp: int, now: int)
    requires INT64_MIN <= exp <= INT64_MAX && token != [] && sessionKey != []
    ensures Verify(c, sessionKey, Some(Issue(c, sessionKey, token, exp)), now) == token <==> now <= exp
  {
    IssuedCookie(c, sessionKey, sessionKey, token, exp, now);
  }

  /** Every cookie that yields a token carries a payload and its MAC under the key around its first dot, and the payload an
      expiry that has not passed. */
  lemma {:induction false} AcceptedIsSigned(c: Crypto, sessionKey: Str, cookie: Str, now: int) returns (payload: Str,
                                            exp: int)
    requires Verify(c, sessionKey, Some(cookie), now) != []
    ensures var i := IndexOf(cookie, DOT);
      i < |cookie| && Decode(cookie[..i]) == Some(payload) &&
      Decode(cookie[i + 1..]) == Some(c.hmac(sessionKey, payload))
    ensures now <= exp && ReadPayload(payload, exp) == Verify(c, sessionKey, Some(cookie), now)
    ensures forall later :: later > exp ==> ReadPayload(payload, later) == []
  {
    var parts := SplitN(cookie, DOT, 2);
    payload := Decode(parts[0]).value;
    exp := ParseInt64(SplitN(payload, BAR, 3)[1]).value;
    var i := IndexOf(cookie, DOT);
    assert parts == [cookie[..i], cookie[i + 1..]];
  }

  /** A payload that reads as this token: v1, an int64 that is not past, and the token, with bars between. */
  ghost predicate Reads(payload: Str, token: Str, now: int)
  {
    exists d :: BAR !in d && payload == [118, 49] + [BAR] + (d + [BAR] + token) && ParseInt64(d).Some? &&
                now <= ParseInt64(d).value
  }

  lemma {:induction false} TwoFields(s: Str, c: byte) returns (a: Str, b: Str)
    requires |SplitN(s, c, 2)| == 2
    ensures SplitN(s, c, 2) == [a, b] && s == a + [c] + b && c !in a
  {
    var i := IndexOf(s, c);
    a, b := s[..i], s[i + 1..];
    assert SplitN(b, c, 1) == [b];
    Reassemble(s, i);
  }

  lemma {:induction false} JoinedTwo(a: Str, c: byte, b: Str)
    requires c !in a
    ensures SplitN(a + [c] + b, c, 2) == [a, b]
  {
    SplitNAppend(a, c, b, 2);
    assert SplitN(b, c, 1) == [b];
  }

  lemma {:induction false} ThreeFields(s: Str) returns (v: Str, d: Str, last: Str)
    requires |SplitN(s, BAR, 3)| == 3
    ensures SplitN(s, BAR, 3) == [v, d, last] && s == v + [BAR] + (d + [BAR] + last) && BAR !in d
  {
    var i := IndexOf(s, BAR);
    v := s[..i];
    Reassemble(s, i);
    d, last := TwoFields(s[i + 1..], BAR);
  }

  lemma {:induction false} JoinedFields(v: Str, d: Str, last: Str)
    requires BAR !in v && BAR !in d
    ensures SplitN(v + [BAR] + (d + [BAR] + last), BAR, 3) == [v, d, last]
  {
    SplitNAppend(v, BAR, d + [BAR] + last, 3);
    JoinedTwo(d, BAR, last);
  }

  lemma {:induction false} ReadPayloadIff(payload: Str, token: Str, now: int)
    requires token != []
    ensures ReadPayload(payload, now) == token <==> Reads(payload, token, now)
  {
    if ReadPayload(payload, now) == token {
      var v, d, last := ThreeFields(payload);
      assert payload == [118, 49] + [BAR] + (d + [BAR] + token);
    }
    if d :| BAR !in d && payload == [118, 49] + [BAR] + (d + [BAR] + token) && ParseInt64(d).Some? &&
            now <= ParseInt64(d).value {
      JoinedFields(VERSION, d, token);
    }
  }

  predicate Around(a: Str, b: Str, cookie: Str) { DOT !in a && cookie == a + [DOT] + b }

  /** A cookie yields a token exactly when a key is set up, and around its first dot stand the encodings of such a payload
      and of the payload's MAC under the key. */
  lemma {:induction false} VerifyIff(c: Crypto, sessionKey: Str, cookie: Str, now: int, token: Str)
    requires token != []
    ensures Verify(c, sessionKey, Some(cookie), now) == token <==>
      sessionKey != [] && exists a, b, payload ::
        Around(a, b, cookie) && Decode(a) == Some(payload) && Decode(b) == Some(c.hmac(sessionKey, payload)) &&
        Reads(payload, token, now)
    ensures Verify(c, sessionKey, None, now) == []
  {
    if Verify(c, sessionKey, Some(cookie), now) == token {
      var a, b := TwoFields(cookie, DOT);
      ReadPayloadIff(Decode(a).value, token, now);
      assert Around(a, b, cookie);
    }
    if a, b, payload :| sessionKey != [] && Around(a, b, cookie) && Decode(a) == Some(payload) &&
                        Decode(b) == Some(c.hmac(sessionKey, payload)) && Reads(payload, token, now) {
      JoinedTwo(a, DOT, b);
      ReadPayloadIff(payload, token, now);
    }
  }
}
