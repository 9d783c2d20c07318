/** The short-lived identity assertion: the token the bridge signs and the rules by
    which the API verifies it. */
module Assertion {
  import opened Options
  import opened Text
  import opened Base64Url

  // ----- text and values -----

  const ISSUER := "open-webui"
  const LIFETIME := 60
  const MAX_ASSERTION_BYTES := 4096
  const MAX_SUBJECT_LENGTH := 200
  const REQUIRED_CLAIMS: set<string> := {"sub", "email", "name", "role", "iss", "iat", "exp"}

  /** A parsed JSON value; arrays and fractions are left as opaque. */
  datatype Json =
    | Null
    | Truth(truth: bool)
    | Integer(number: int)
    | Text(text: string)
    | Object(fields: map<string, Json>)
    | Opaque(id: int)

  const HEADER := Object(map["alg" := Text("HS256"), "typ" := Text("JWT")])

  /** The library functions both sides share. */
  datatype Host = Host(
    dumps: Json -> Bytes,
    loads: Bytes -> Option<Json>,
    hmac: (Bytes, string) -> Bytes)

  /** What is assumed of them: reading back what was written, and digests of 32 bytes. */
  ghost predicate Sound(h: Host) {
    && (forall v :: h.dumps(v) != [] && h.loads(h.dumps(v)) == Some(v))
    && (forall key, text :: |h.hmac(key, text)| == 32)
  }

  // ----- signing -----

  datatype User = User(id: string, email: string, name: string, role: string)

  function ClaimsOf(user: User, issued: int): (r: Json)
    ensures r.Object?
  {
    Object(map[
      "sub" := Text(user.id), "email" := Text(user.email), "name" := Text(user.name),
      "role" := Text(if user.role == "" then "user" else user.role),
      "iss" := Text(ISSUER), "iat" := Integer(issued), "exp" := Integer(issued + LIFETIME)])
  }

  function Part(h: Host, v: Json): string {
    Encode(h.dumps(v))
  }

  function Signed(h: Host, user: User, issued: int): string {
    Part(h, HEADER) + "." + Part(h, ClaimsOf(user, issued))
  }

  /** None when a secret is shorter than 32 bytes. */
  function SignedIdentity(h: Host, gateway: string, secret: string, user: User, issued: int): Option<string> {
    if |Utf8(gateway)| < 32 || |Utf8(secret)| < 32 then None
    else
      var signed := Signed(h, user, issued);
      Some(signed + "." + Encode(h.hmac(Utf8(secret), signed)))
  }

  // ----- verifying -----

  datatype Verifier = Verifier(secret: Bytes, maxLifetime: int, skew: int)

  function Configured(secret: string, maxLifetime: int, skew: int): Option<Verifier> {
    if !Stripped(secret) || |Utf8(secret)| < 32 then None
    else if !(1 <= maxLifetime <= 300) || !(0 <= skew <= 30) then None
    else Some(Verifier(Utf8(secret), maxLifetime, skew))
  }

  datatype Refusal =
    | Malformed | BadEncoding | BadJson | BadAlgorithm | BadClaims
    | BadSignature | BadIssuer | BadSubject | BadTimes | NotYet | Expired

  datatype Verdict =
    | Refused(why: Refusal)
    | Accepted(issuer: string, subject: string, issuedAt: int, expiresAt: int)

  predicate ClosedText(s: string, maximum: int) {
    s != "" && Stripped(s) && |s| <= maximum && forall i :: 0 <= i < |s| ==> 32 <= s[i] as int < 127
  }

  /** The issuer, subject and time rules, in the order they are applied. */
  function CheckClaims(v: Verifier, fields: map<string, Json>, now: int): Verdict
    requires fields.Keys == REQUIRED_CLAIMS
  {
    var sub, iss, iat, exp := fields["sub"], fields["iss"], fields["iat"], fields["exp"];
    if iss != Text(ISSUER) then Refused(BadIssuer)
    else if !sub.Text? || !ClosedText(sub.text, MAX_SUBJECT_LENGTH) then Refused(BadSubject)
    else if !iat.Integer? || !exp.Integer? || exp.number <= iat.number
            || exp.number - iat.number > v.maxLifetime then Refused(BadTimes)
    else if iat.number > now + v.skew then Refused(NotYet)
    else if exp.number <= now - v.skew then Refused(Expired)
    else Accepted(ISSUER, sub.text, iat.number, exp.number)
  }

  /** Header, claims, then signature. */
  function CheckParts(h: Host, v: Verifier, head: string, body: string, tail: string, now: int): Verdict {
    if Decode(head).None? then Refused(BadEncoding)
    else if h.loads(Decode(head).value).None? then Refused(BadJson)
    else if Decode(body).None? then Refused(BadEncoding)
    else if h.loads(Decode(body).value).None? then Refused(BadJson)
    else
      var claims := h.loads(Decode(body).value).value;
      if h.loads(Decode(head).value) != Some(HEADER) then Refused(BadAlgorithm)
      else if !claims.Object? || claims.fields.Keys != REQUIRED_CLAIMS then Refused(BadClaims)
      else if Decode(tail).None? then Refused(BadEncoding)
      else if Decode(tail).value != h.hmac(v.secret, head + "." + body) then Refused(BadSignature)
      else CheckClaims(v, claims.fields, now)
  }

  function Verify(h: Host, v: Verifier, token: string, now: int): Verdict {
    if token == "" || |Utf8(token)| > MAX_ASSERTION_BYTES || !Stripped(token) then Refused(Malformed)
    else
      var parts := Split(token, '.');
      if |parts| != 3 || parts[0] == "" || parts[1] == "" || parts[2] == "" then Refused(Malformed)
      else CheckParts(h, v, parts[0], parts[1], parts[2], now)
  }

  // ----- the two sides agree -----

  lemma LettersAreText(s: string)
    requires Letters(s)
    ensures Ascii(s) && '.' !in s && Stripped(s)
  {
    forall i | 0 <= i < |s| ensures s[i] < 128 as char && s[i] != '.' && !IsSpace(s[i]) {
      assert Bits(s[i]).Some?;
    }
  }

  lemma EncodedPart(raw: Bytes)
    requires raw != []
    ensures Encode(raw) != "" && Letters(Encode(raw))
    ensures Ascii(Encode(raw)) && '.' !in Encode(raw) && Stripped(Encode(raw))
  {
    EncodeIsUnpadded(raw);
    LetterCount(raw);
    LettersAreText(Encode(raw));
  }

  /** Three encoded parts joined by dots come apart again, and only their length can
      make the token malformed. */
  lemma TokenComesApart(head: string, body: string, tail: string)
    requires head != "" && Letters(head)
    requires body != "" && Letters(body)
    requires tail != "" && Letters(tail)
    ensures var token := head + "." + body + "." + tail;
            && Split(token, '.') == [head, body, tail]
            && Stripped(token) && |Utf8(token)| == |token|
  {
    LettersAreText(head);
    LettersAreText(body);
    LettersAreText(tail);
    var token := head + "." + body + "." + tail;
    assert token == head + ['.'] + (body + ['.'] + tail);
    SplitFirst(head, body + ['.'] + tail, '.');
    SplitFirst(body, tail, '.');
    SplitWhole(tail, '.');
    AsciiLength(token);
  }

  predicate Fits(user: User, v: Verifier, issued: int, now: int) {
    && ClosedText(user.id, MAX_SUBJECT_LENGTH)
    && v.maxLifetime >= LIFETIME
    && issued - v.skew <= now < issued + LIFETIME + v.skew
  }

  lemma SignedClaims(v: Verifier, user: User, issued: int, now: int)
    ensures ClaimsOf(user, issued).fields.Keys == REQUIRED_CLAIMS
    ensures var verdict := CheckClaims(v, ClaimsOf(user, issued).fields, now);
            if Fits(user, v, issued, now)
            then verdict == Accepted(ISSUER, user.id, issued, issued + LIFETIME)
            else verdict.Refused?
  {
  }

  /** What the bridge signs with the shared secret at `issued` is accepted at `now`
      exactly when the subject is closed text, the token is not too long, the verifier
      allows a minute, and the clock is inside the window widened by the skew. */
  lemma SignedIsAcceptedIff(h: Host, gateway: string, secret: string, user: User, issued: int,
      maxLifetime: int, skew: int, now: int)
    requires Sound(h)
    requires SignedIdentity(h, gateway, secret, user, issued).Some?
    requires Configured(secret, maxLifetime, skew).Some?
    ensures var token := SignedIdentity(h, gateway, secret, user, issued).value;
            var v := Configured(secret, maxLifetime, skew).value;
            var verdict := Verify(h, v, token, now);
            if |token| <= MAX_ASSERTION_BYTES && Fits(user, v, issued, now)
            then verdict == Accepted(ISSUER, user.id, issued, issued + LIFETIME)
            else verdict.Refused?
  {
    hide *;
    var v := Configured(secret, maxLifetime, skew).value;
    var head, body := h.dumps(HEADER), h.dumps(ClaimsOf(user, issued));
    var signed := Encode(head) + "." + Encode(body);
    var mac := h.hmac(Utf8(secret), signed);
    HostFacts(h, HEADER, Utf8(secret), signed);
    HostFacts(h, ClaimsOf(user, issued), Utf8(secret), signed);
    EncodedPart(head);
    EncodedPart(body);
    EncodedPart(mac);
    TokenComesApart(Encode(head), Encode(body), Encode(mac));
    DecodeEncode(head);
    DecodeEncode(body);
    DecodeEncode(mac);
    SignedClaims(v, user, issued, now);
    ConfiguredSecret(secret, maxLifetime, skew);
    SignedForm(h, gateway, secret, user, issued);
    PartsStep(h, v, Encode(head), Encode(body), Encode(mac), ClaimsOf(user, issued).fields, now);
    VerifyStep(h, v, Encode(head) + "." + Encode(body) + "." + Encode(mac), now);
  }

  lemma HostFacts(h: Host, v: Json, key: Bytes, text: string)
    requires Sound(h)
    ensures h.dumps(v) != [] && h.loads(h.dumps(v)) == Some(v) && |h.hmac(key, text)| == 32
  {
  }

  lemma ConfiguredSecret(secret: string, maxLifetime: int, skew: int)
    requires Configured(secret, maxLifetime, skew).Some?
    ensures Configured(secret, maxLifetime, skew).value.secret == Utf8(secret)
  {
  }

  lemma SignedForm(h: Host, gateway: string, secret: string, user: User, issued: int)
    requires SignedIdentity(h, gateway, secret, user, issued).Some?
    ensures var signed := Encode(h.dumps(HEADER)) + "." + Encode(h.dumps(ClaimsOf(user, issued)));
            SignedIdentity(h, gateway, secret, user, issued).value
            == signed + "." + Encode(h.hmac(Utf8(secret), signed))
  {
    hide Encode, Utf8, ClaimsOf;
  }

  lemma PartsStep(h: Host, v: Verifier, head: string, body: string, tail: string,
      fields: map<string, Json>, now: int)
    requires Decode(head).Some? && h.loads(Decode(head).value) == Some(HEADER)
    requires Decode(body).Some? && h.loads(Decode(body).value) == Some(Object(fields))
    requires fields.Keys == REQUIRED_CLAIMS
    requires Decode(tail) == Some(h.hmac(v.secret, head + "." + body))
    ensures CheckParts(h, v, head, body, tail, now) == CheckClaims(v, fields, now)
  {
    hide Decode, CheckClaims;
  }

  lemma VerifyStep(h: Host, v: Verifier, token: string, now: int)
    requires |Split(token, '.')| == 3
    requires forall i :: 0 <= i < 3 ==> Split(token, '.')[i] != ""
    requires token != "" && Stripped(token) && |Utf8(token)| == |token|
    ensures var parts := Split(token, '.');
            Verify(h, v, token, now) ==
            if |token| > MAX_ASSERTION_BYTES then Refused(Malformed)
            else CheckParts(h, v, parts[0], parts[1], parts[2], now)
  {
    hide Utf8, Stripped, Split, CheckParts;
  }

  // ----- any accepted token -----

  /** Whoever made it, a token accepted at two moments is accepted with the same
      identity at every moment between, and the two are less than its lifetime plus
      twice the skew apart. */
  lemma AcceptedForOneWindow(h: Host, v: Verifier, token: string, first: int, now: int, last: int)
    requires Verify(h, v, token, first).Accepted? && Verify(h, v, token, last).Accepted?
    requires first <= now <= last
    ensures Verify(h, v, token, now) == Verify(h, v, token, first) == Verify(h, v, token, last)
    ensures last - first < v.maxLifetime + 2 * v.skew
  {
    hide Utf8, Stripped, Split, Decode, ClosedText;
  }
}
