/** The token library: `sign`, `verify` and `decode`. HMAC, JSON.stringify and JSON.parse are functions the
    library is given; what is proved of it holds whatever they are, but for what each lemma asks of them. */
module Jwt {
  import opened Base64Url
  import opened Bytes
  import opened JsText
  import opened Options
  import opened Unicode

  /** A claim's value; `Other` stands for everything but whole numbers. */
  datatype Json<J> = Number(value: int) | Other(other: J)

  type Claims<J> = map<Text, Json<J>>

  /** `lenient` is what Node decodes from a text outside the base64url alphabet, `past` what the expiry test
      says of an `exp` that is no whole number at a time in milliseconds. */
  datatype Library<!J, !K> = Library(stringify: Claims<J> -> Text, parse: seq<byte> -> Option<Claims<J>>,
                                     mac: (K, Text) -> seq<byte>, lenient: Text -> seq<byte>,
                                     past: (J, nat) -> bool)

  datatype Outcome<J> =
    | Verified(claims: Claims<J>)
    | MalformedToken
    | InvalidSignature
    | UnequalLengths
    | NotJson
    | TokenExpired

  const HEADER: Text := Ascii("{\"alg\":\"HS256\",\"typ\":\"JWT\"}")

  function Stamped<J>(payload: Claims<J>, expiresInSeconds: int, iatClock: nat, expClock: nat): Claims<J> {
    payload[Ascii("iat") := Number(iatClock / 1000)][Ascii("exp") := Number(expClock / 1000 + expiresInSeconds)]
  }

  /** `sign`, which reads the clock twice. */
  function Sign<J, K>(lib: Library<J, K>, payload: Claims<J>, secret: K, expiresInSeconds: int,
                      iatClock: nat, expClock: nat): Text
  {
    var full := Stamped(payload, expiresInSeconds, iatClock, expClock);
    var signingInput := Encode(Utf8(HEADER)) + [DOT] + Encode(Utf8(lib.stringify(full)));
    signingInput + [DOT] + Signature(lib, secret, signingInput)
  }

  function Signature<J, K>(lib: Library<J, K>, secret: K, signingInput: Text): Text {
    Encode(lib.mac(secret, signingInput))
  }

  /** A destructured part of a split: empty if it is not there, which the code does not tell apart. */
  function Part(parts: seq<Text>, i: nat): Text { if i < |parts| then parts[i] else [] }

  /** The text of `Buffer.from(payloadB64, "base64url")`, parsed. */
  function Read<J, K>(lib: Library<J, K>, payloadB64: Text): Option<Claims<J>> {
    lib.parse(if InAlphabet(payloadB64) then Base64Url.Decode(payloadB64) else lib.lenient(payloadB64))
  }

  predicate IsPast<J, K>(lib: Library<J, K>, claims: Claims<J>, clock: nat) {
    Ascii("exp") in claims
    && match claims[Ascii("exp")]
       case Number(exp) => exp != 0 && clock > exp * 1000
       case Other(j) => lib.past(j, clock)
  }

  /** `verify`; `timingSafeEqual` throws when the lengths in bytes are not the same. */
  function Verify<J, K>(lib: Library<J, K>, token: Text, secret: K, clock: nat): Outcome<J> {
    var parts := Split(token, DOT);
    var headerB64, payloadB64, signature := Part(parts, 0), Part(parts, 1), Part(parts, 2);
    if headerB64 == [] || payloadB64 == [] || signature == [] then MalformedToken
    else
      var expected := Signature(lib, secret, headerB64 + [DOT] + payloadB64);
      if |signature| != |expected| then InvalidSignature
      else if |Utf8(signature)| != |Utf8(expected)| then UnequalLengths
      else if Utf8(signature) != Utf8(expected) then InvalidSignature
      else
        match Read(lib, payloadB64)
        case None => NotJson
        case Some(claims) => if IsPast(lib, claims, clock) then TokenExpired else Verified(claims)
  }

  /** `decode`: `None` for a token without a second part or one that is no JSON. */
  function Decode<J, K>(lib: Library<J, K>, token: Text): Option<Claims<J>> {
    var parts := Split(token, DOT);
    if |parts| < 2 then None else Read(lib, parts[1])
  }

  /** The signature was accepted. */
  predicate Accepted<J>(o: Outcome<J>) { o.Verified? || o.NotJson? || o.TokenExpired? }

  /** The token is the two parts with their signature, or goes on with a dot after it. */
  ghost predicate Signs<J, K>(lib: Library<J, K>, secret: K, token: Text, header: Text, payload: Text) {
    && header != [] && payload != [] && DOT !in header && DOT !in payload
    && var input := header + [DOT] + payload;
       var signed := input + [DOT] + Signature(lib, secret, input);
       Signature(lib, secret, input) != [] && (token == signed || signed + [DOT] <= token)
  }

  lemma {:induction false} EncodedIsAscii(b: seq<byte>)
    ensures IsAscii(Encode(b)) && |Utf8(Encode(b))| == |Encode(b)|
  {
    DecodeEncode(b);
    Utf8Length(Encode(b));
  }

  /** The comparison of the signatures is equality of the texts. */
  lemma {:induction false} Compared(signature: Text, b: seq<byte>)
    ensures |signature| == |Encode(b)| && |Utf8(signature)| == |Utf8(Encode(b))| && Utf8(signature) == Utf8(Encode(b))
            <==> signature == Encode(b)
    ensures |signature| == |Encode(b)| && |Utf8(signature)| != |Utf8(Encode(b))|
            <==> |signature| == |Encode(b)| && !IsAscii(signature)
  {
    EncodedIsAscii(b);
    Utf8Length(signature);
    if IsAscii(signature) { Utf8Ascii(signature, Encode(b)); }
  }

  /** What `split` does at the first dot. */
  lemma SplitFirst(s: Text) returns (rest: Text)
    requires |Split(s, DOT)| > 1
    ensures var parts := Split(s, DOT);
            s == parts[0] + [DOT] + rest && DOT !in parts[0] && Split(rest, DOT) == parts[1..]
  {
    IndexOfUnit(s, DOT);
    var i := IndexOf(s, [DOT]);
    rest := s[i + 1..];
    assert s == s[..i] + [DOT] + rest;
  }

  /** A text with two dots or more, by its parts. */
  lemma {:induction false} ThreeParts(token: Text)
    requires |Split(token, DOT)| >= 3
    ensures var parts := Split(token, DOT);
            var three := parts[0] + [DOT] + parts[1] + [DOT] + parts[2];
            && DOT !in parts[0] && DOT !in parts[1] && DOT !in parts[2]
            && (token == three || three + [DOT] <= token)
  {
    var parts := Split(token, DOT);
    var after := SplitFirst(token);
    var last := SplitFirst(after);
    IndexOfUnit(last, DOT);
    Nested(parts[0], parts[1], last, DOT);
    if |parts| > 3 {
      var more := SplitFirst(last);
      assert Split(last, DOT)[0] == parts[2];
      Nested(parts[0] + [DOT] + parts[1], parts[2], more, DOT);
    } else {
      assert last == parts[2];
    }
  }

  lemma {:induction false} PartsOf(token: Text, header: Text, payload: Text, signature: Text)
    requires DOT !in header && DOT !in payload && DOT !in signature
    requires var three := header + [DOT] + payload + [DOT] + signature; token == three || three + [DOT] <= token
    ensures var parts := Split(token, DOT);
            |parts| >= 3 && parts[0] == header && parts[1] == payload && parts[2] == signature
  {
    var three := header + [DOT] + payload + [DOT] + signature;
    if token == three {
      Nested(header, payload, signature, DOT);
      PartsAre(header, payload, signature);
      IndexOfUnit(signature, DOT);
    } else {
      var more := token[|three| + 1..];
      assert token == three + [DOT] + more;
      Nested(header + [DOT] + payload, signature, more, DOT);
      Nested(header, payload, signature + [DOT] + more, DOT);
      PartsAre(header, payload, signature + [DOT] + more);
      SplitHead(signature, more, DOT);
    }
  }

  lemma {:induction false} PartsAre(header: Text, payload: Text, last: Text)
    requires DOT !in header && DOT !in payload
    ensures Split(header + [DOT] + (payload + [DOT] + last), DOT) == [header, payload] + Split(last, DOT)
  {
    SplitHead(payload, last, DOT);
    SplitHead(header, payload + [DOT] + last, DOT);
  }

  /** The signature is accepted exactly when the token starts with two non-empty parts and their MAC, alone or
      followed by a dot and anything: no character of the MAC's text can be changed, and no other text of
      the same bytes does. */
  lemma AcceptedExact<J, K>(lib: Library<J, K>, token: Text, secret: K, clock: nat)
    ensures Accepted(Verify(lib, token, secret, clock))
            <==> exists header, payload :: Signs(lib, secret, token, header, payload)
  {
    var parts := Split(token, DOT);
    if Accepted(Verify(lib, token, secret, clock)) {
      ThreeParts(token);
      Compared(parts[2], lib.mac(secret, parts[0] + [DOT] + parts[1]));
      assert Signs(lib, secret, token, parts[0], parts[1]);
    }
    forall header, payload | Signs(lib, secret, token, header, payload)
      ensures Accepted(Verify(lib, token, secret, clock))
    {
      AcceptsSigned(lib, token, secret, clock, header, payload);
    }
  }

  lemma AcceptsSigned<J, K>(lib: Library<J, K>, token: Text, secret: K, clock: nat, header: Text, payload: Text)
    requires Signs(lib, secret, token, header, payload)
    ensures Verify(lib, token, secret, clock)
            == match Read(lib, payload)
               case None => NotJson
               case Some(claims) => if IsPast(lib, claims, clock) then TokenExpired else Verified(claims)
    ensures Decode(lib, token) == Read(lib, payload)
  {
    var mac := lib.mac(secret, header + [DOT] + payload);
    EncodeShape(mac);
    PartsOf(token, header, payload, Encode(mac));
    Compared(Encode(mac), mac);
  }

  /** `decode` reads what stands behind the first dot, up to the next one if there is one, and asks for no signature. */
  lemma {:induction false} DecodeReads<J, K>(lib: Library<J, K>, header: Text, payload: Text, more: Text)
    requires DOT !in header && DOT !in payload
    ensures Decode(lib, header) == None
    ensures Decode(lib, header + [DOT] + payload) == Read(lib, payload)
    ensures Decode(lib, header + [DOT] + payload + [DOT] + more) == Read(lib, payload)
  {
    IndexOfUnit(header, DOT);
    IndexOfUnit(payload, DOT);
    SplitHead(header, payload, DOT);
    Nested(header, payload, more, DOT);
    PartsAre(header, payload, more);
  }

  /** The token is three parts, or goes on with a dot after them. */
  ghost predicate Shaped(token: Text, header: Text, payload: Text, signature: Text) {
    && header != [] && payload != [] && signature != []
    && DOT !in header && DOT !in payload && DOT !in signature
    && var three := header + [DOT] + payload + [DOT] + signature;
       token == three || three + [DOT] <= token
  }

  /** A token is malformed exactly when it does not start with three non-empty parts. */
  lemma MalformedExact<J, K>(lib: Library<J, K>, token: Text, secret: K, clock: nat)
    ensures Verify(lib, token, secret, clock) == MalformedToken
            <==> !exists header, payload, signature :: Shaped(token, header, payload, signature)
  {
    var parts := Split(token, DOT);
    if Verify(lib, token, secret, clock) != MalformedToken {
      ThreeParts(token);
      assert Shaped(token, parts[0], parts[1], parts[2]);
    }
    forall header, payload, signature | Shaped(token, header, payload, signature)
      ensures Verify(lib, token, secret, clock) != MalformedToken
    {
      PartsOf(token, header, payload, signature);
    }
  }

  /** The comparison itself fails, with an error of its own, exactly when the signature has the right number
      of characters but one of them is not ASCII. */
  lemma {:induction false} UnequalLengthsExact<J, K>(lib: Library<J, K>, token: Text, secret: K, clock: nat)
    ensures Verify(lib, token, secret, clock) == UnequalLengths
            <==> var parts := Split(token, DOT);
                 |parts| >= 3 && parts[0] != [] && parts[1] != [] && parts[2] != []
                 && |parts[2]| == |Signature(lib, secret, parts[0] + [DOT] + parts[1])| && !IsAscii(parts[2])
  {
    var parts := Split(token, DOT);
    Compared(Part(parts, 2), lib.mac(secret, Part(parts, 0) + [DOT] + Part(parts, 1)));
  }

  /** It does happen, to every token with two parts: the right signature with one character for an accented one. */
  lemma AccentThrows<J, K>(lib: Library<J, K>, header: Text, payload: Text, secret: K, clock: nat)
    requires header != [] && payload != [] && DOT !in header && DOT !in payload
    requires lib.mac(secret, header + [DOT] + payload) != []
    ensures var right := Signature(lib, secret, header + [DOT] + payload);
            && right != []
            && Verify(lib, header + [DOT] + payload + [DOT] + right[0 := 0xE9], secret, clock) == UnequalLengths
  {
    var mac := lib.mac(secret, header + [DOT] + payload);
    EncodeShape(mac);
    var wrong := Encode(mac)[0 := 0xE9];
    assert DOT !in wrong && wrong[0] == 0xE9;
    var token := header + [DOT] + payload + [DOT] + wrong;
    PartsOf(token, header, payload, wrong);
    UnequalLengthsExact(lib, token, secret, clock);
  }

  /** The claims of a token: all that was asked for, but for the two stamps. */
  ghost predicate Carries<J>(claims: Claims<J>, payload: Claims<J>, iat: int, exp: int) {
    && (forall key :: key != Ascii("iat") && key != Ascii("exp") ==>
          (key in claims <==> key in payload) && (key in payload ==> claims[key] == payload[key]))
    && Ascii("iat") in claims && claims[Ascii("iat")] == Number(iat)
    && Ascii("exp") in claims && claims[Ascii("exp")] == Number(exp)
  }

  lemma StampedCarries<J>(payload: Claims<J>, expiresInSeconds: int, iatClock: nat, expClock: nat)
    ensures Carries(Stamped(payload, expiresInSeconds, iatClock, expClock), payload,
                    iatClock / 1000, expClock / 1000 + expiresInSeconds)
  {
    assert Ascii("iat")[0] != Ascii("exp")[0];
  }

  /** They are determined by that. */
  lemma CarriesOnly<J>(claims: Claims<J>, payload: Claims<J>, expiresInSeconds: int, iatClock: nat, expClock: nat)
    requires Carries(claims, payload, iatClock / 1000, expClock / 1000 + expiresInSeconds)
    ensures claims == Stamped(payload, expiresInSeconds, iatClock, expClock)
  {
    var stamped := Stamped(payload, expiresInSeconds, iatClock, expClock);
    StampedCarries(payload, expiresInSeconds, iatClock, expClock);
    forall key ensures (key in claims <==> key in stamped) && (key in claims ==> claims[key] == stamped[key]) {
    }
    assert claims.Keys == stamped.Keys;
  }

  /** A token is three texts: the header, the stamped payload, and the MAC of the two with the dot between them. */
  lemma {:induction false} SignedParts<J, K>(lib: Library<J, K>, payload: Claims<J>, secret: K, expiresInSeconds: int,
                                             iatClock: nat, expClock: nat)
    ensures var full := Stamped(payload, expiresInSeconds, iatClock, expClock);
            var header := Encode(AsciiBytes("{\"alg\":\"HS256\",\"typ\":\"JWT\"}"));
            var body := Encode(Utf8(lib.stringify(full)));
            Split(Sign(lib, payload, secret, expiresInSeconds, iatClock, expClock), 46)
            == [header, body, Encode(lib.mac(secret, header + [46] + body))]
  {
    var full := Stamped(payload, expiresInSeconds, iatClock, expClock);
    var header, body := Encode(Utf8(HEADER)), Encode(Utf8(lib.stringify(full)));
    HeaderBytes();
    EncodeShape(Utf8(HEADER));
    EncodeShape(Utf8(lib.stringify(full)));
    EncodeShape(lib.mac(secret, header + [DOT] + body));
    SplitThree(header, body, Encode(lib.mac(secret, header + [DOT] + body)));
  }

  lemma HeaderBytes()
    ensures Utf8(HEADER) == AsciiBytes("{\"alg\":\"HS256\",\"typ\":\"JWT\"}")
  {
    Utf8OfAscii(HEADER, AsciiBytes("{\"alg\":\"HS256\",\"typ\":\"JWT\"}"));
  }

  lemma {:induction false} SplitThree(a: Text, b: Text, c: Text)
    requires DOT !in a && DOT !in b && DOT !in c
    ensures Split(a + [DOT] + b + [DOT] + c, DOT) == [a, b, c]
  {
    Nested(a, b, c, DOT);
    PartsAre(a, b, c);
    IndexOfUnit(c, DOT);
  }

  /** Round trip: verifying a signed token with its secret gives what was signed, stamped with the second of
      signing and that of expiry, until it expires, and from then on the expiry; a token that expires at second
      0 never does. Decoding gives the same at any time. */
  lemma RoundTrip<J, K>(lib: Library<J, K>, payload: Claims<J>, secret: K, expiresInSeconds: int,
                        iatClock: nat, expClock: nat, clock: nat)
    requires var full := Stamped(payload, expiresInSeconds, iatClock, expClock);
             lib.stringify(full) != [] && lib.parse(Utf8(lib.stringify(full))) == Some(full)
    requires forall input :: lib.mac(secret, input) != []
    ensures var token := Sign(lib, payload, secret, expiresInSeconds, iatClock, expClock);
            var exp := expClock / 1000 + expiresInSeconds;
            var outcome, decoded := Verify(lib, token, secret, clock), Decode(lib, token);
            && (if exp != 0 && clock > exp * 1000 then outcome == TokenExpired
                else outcome.Verified? && Carries(outcome.claims, payload, iatClock / 1000, exp))
            && decoded.Some? && Carries(decoded.value, payload, iatClock / 1000, exp)
            && (outcome.Verified? ==> decoded.value == outcome.claims)
    ensures var full := Stamped(payload, expiresInSeconds, iatClock, expClock);
            var token := Sign(lib, payload, secret, expiresInSeconds, iatClock, expClock);
            var exp := expClock / 1000 + expiresInSeconds;
            && Verify(lib, token, secret, clock)
               == (if exp != 0 && clock > exp * 1000 then TokenExpired else Verified(full))
            && Decode(lib, token) == Some(full)
  {
    StampedCarries(payload, expiresInSeconds, iatClock, expClock);
    var full := Stamped(payload, expiresInSeconds, iatClock, expClock);
    var header, body := Encode(Utf8(HEADER)), Encode(Utf8(lib.stringify(full)));
    var token := Sign(lib, payload, secret, expiresInSeconds, iatClock, expClock);
    EncodedPart(HEADER);
    EncodedPart(lib.stringify(full));
    EncodeShape(lib.mac(secret, header + [DOT] + body));
    assert Signs(lib, secret, token, header, body);
    AcceptsSigned(lib, token, secret, clock, header, body);
    DecodeEncode(Utf8(lib.stringify(full)));
  }

  lemma {:induction false} EncodedPart(t: Text)
    ensures DOT !in Encode(Utf8(t))
    ensures t != [] ==> Encode(Utf8(t)) != []
  {
    EncodeShape(Utf8(t));
    Utf8Length(t);
  }

  /** What `verify` returns `decode` returns too. */
  lemma DecodeAgrees<J, K>(lib: Library<J, K>, token: Text, secret: K, clock: nat)
    requires Verify(lib, token, secret, clock).Verified?
    ensures Decode(lib, token) == Some(Verify(lib, token, secret, clock).claims)
    ensures !IsPast(lib, Verify(lib, token, secret, clock).claims, clock)
  {
  }

  /** Which accepted tokens are refused as expired: by the claim `exp`, unless it is missing or zero. */
  lemma ExpiredExact<J, K>(lib: Library<J, K>, token: Text, secret: K, clock: nat, header: Text, payload: Text,
                           claims: Claims<J>)
    requires Signs(lib, secret, token, header, payload) && Read(lib, payload) == Some(claims)
    ensures Verify(lib, token, secret, clock) in {TokenExpired, Verified(claims)}
    ensures Verify(lib, token, secret, clock) == TokenExpired
            <==> Ascii("exp") in claims
                 && ((claims[Ascii("exp")].Number? && claims[Ascii("exp")].value != 0
                      && clock > claims[Ascii("exp")].value * 1000)
                     || (claims[Ascii("exp")].Other? && lib.past(claims[Ascii("exp")].other, clock)))
  {
    AcceptsSigned(lib, token, secret, clock, header, payload);
  }

  /** A token with other parts under a signature that was made is accepted only on a collision of the MAC. */
  lemma Forgery<J, K>(lib: Library<J, K>, secret: K, input: Text, header: Text, payload: Text, clock: nat)
    requires DOT !in header && DOT !in payload
    requires Accepted(Verify(lib, header + [DOT] + payload + [DOT] + Signature(lib, secret, input), secret, clock))
    ensures lib.mac(secret, header + [DOT] + payload) == lib.mac(secret, input)
  {
    var signature := Signature(lib, secret, input);
    var token := header + [DOT] + payload + [DOT] + signature;
    EncodeShape(lib.mac(secret, input));
    PartsOf(token, header, payload, signature);
    Compared(signature, lib.mac(secret, header + [DOT] + payload));
    EncodeInjective(lib.mac(secret, header + [DOT] + payload), lib.mac(secret, input));
  }
}
