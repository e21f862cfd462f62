/** `ZkLoginClient` and `getJwtFromCookies`: from the compact token in the
    `auth_token` cookie to a 32-byte key. The steps are parsing the token's
    payload section, hashing `iss:sub:aud` into a WebAuthn challenge,
    obtaining the authenticator's signature (or, failing that, a new
    credential's attestation object), and hashing `iss‖sub‖aud‖proof`.
    The token's signature is never checked: trust in it is left to the
    transport and to whoever later verifies the token. */
module ZkLogin {
  import opened Wrappers
  import opened Bytes
  import opened JsStrings
  import Utf8
  import Base64
  import Percent
  import opened JsValues
  import opened Platform

  /** A `ZkLoginClient`: the relying-party id and name it registers under. */
  datatype Client = Client(rpId: string, rpName: string)

  /** The constructor's default `rpName`. */
  const DefaultRpName: string := "Nillion 2FA"

  /** `new ZkLoginClient(rpId)`: the default relying-party name. */
  function NewClient(rpId: string): Client
  {
    Client(rpId, DefaultRpName)
  }

  /** A client built with the default name registers credentials under
      the relying party "Nillion 2FA" with the given id. */
  lemma NewClientRelyingParty(p: Primitives, rpId: string, auth: Authenticator, payload: Json,
                              challenge: seq<byte>)
    ensures var r := CreatePasskey(p, NewClient(rpId), auth, payload, challenge);
            r.calls != [] ==> r.calls[0].CreateCall?
                              && r.calls[0].creation.rp == RelyingParty("Nillion 2FA", rpId)
  {
  }

  // ---------------------------------------------------------------------
  // parseJwt

  /** The middle section's text: base64url translated to base64, decoded
      by `atob`, then read as UTF-8. */
  function PayloadText(section: string): Option<string>
  {
    var bytes :- Base64.Atob(Base64.UrlToStandard(section));
    Utf8.Decode(bytes)
  }

  /** What the body of `parseJwt`'s `try` does with the middle section:
      `atob`, each byte as `%hh`, `decodeURIComponent`, `JSON.parse`. */
  function DecodeSection(p: Primitives, section: string): (r: Option<Json>)
    ensures r.Some? <==> PayloadText(section).Some? && p.jsonParse(PayloadText(section).value).Some?
    ensures r.Some? ==> r == p.jsonParse(PayloadText(section).value)
  {
    var bytes :- Base64.Atob(Base64.UrlToStandard(section));
    Percent.DecodeUriComponentOfPercentEncode(bytes);
    var json :- Percent.DecodeUriComponent(Percent.PercentEncode(bytes));
    p.jsonParse(json)
  }

  /** `parseJwt(token)`: exactly three `.`-separated sections are needed
      (empty ones count), only the middle one is decoded, and every failure
      becomes the single error "Failed to parse JWT". */
  function ParseJwt(p: Primitives, token: string): (r: Result<Json, JsError>)
    ensures r.Failure? ==> r.error == JwtParseFailed
    ensures r.Success? <==> Count(token, '.') == 2
                            && PayloadText(Split(token, '.')[1]).Some?
                            && p.jsonParse(PayloadText(Split(token, '.')[1]).value).Some?
    ensures r.Success? ==> Some(r.value) == p.jsonParse(PayloadText(Split(token, '.')[1]).value)
  {
    var parts := Split(token, '.');
    if |parts| != 3 then Failure(JwtParseFailed)
    else
      match DecodeSection(p, parts[1])
      case None => Failure(JwtParseFailed)
      case Some(payload) => Success(payload)
  }

  /** Header and signature are never decoded nor verified: replacing them
      by any other dot-free text leaves the parse unchanged. */
  lemma ParseJwtReadsOnlyPayload(p: Primitives, header: string, payload: string, signature: string,
                                 header': string, signature': string)
    requires '.' !in header && '.' !in payload && '.' !in signature
    requires '.' !in header' && '.' !in signature'
    ensures ParseJwt(p, header + "." + payload + "." + signature)
            == ParseJwt(p, header' + "." + payload + "." + signature')
  {
    SectionsOfToken(header, payload, signature);
    SectionsOfToken(header', payload, signature');
  }

  lemma SectionsOfToken(header: string, payload: string, signature: string)
    requires '.' !in header && '.' !in payload && '.' !in signature
    ensures Split(header + "." + payload + "." + signature, '.') == [header, payload, signature]
  {
    var parts := [header, payload, signature];
    assert parts[1..] == [payload, signature] && parts[1..][1..] == [signature];
    assert Join([payload, signature], '.') == payload + "." + signature;
    assert Join(parts, '.') == header + "." + (payload + "." + signature);
    assert header + "." + (payload + "." + signature) == header + "." + payload + "." + signature;
    assert forall i :: 0 <= i < |parts| ==> '.' !in parts[i];
    SplitJoin(parts, '.');
  }

  /** A token whose middle section is the base64url text of the UTF-8 of
      `text` parses to whatever `JSON.parse(text)` gives. */
  lemma ParseJwtOfEncodedPayload(p: Primitives, header: string, text: string, signature: string)
    requires '.' !in header && '.' !in signature
    requires p.jsonParse(text).Some?
    ensures ParseJwt(p, header + "." + Base64.UrlEncode(Utf8.Encode(text)) + "." + signature)
            == Success(p.jsonParse(text).value)
  {
    var bytes := Utf8.Encode(text);
    var section := Base64.UrlEncode(bytes);
    Base64.UrlEncodeHasNoDot(bytes);
    SectionsOfToken(header, section, signature);
    Base64.AtobOfUrlEncode(bytes);
    Utf8.DecodeEncode(text);
    assert PayloadText(section) == Some(text);
  }

  /** A token without exactly two dots is rejected whatever it holds. */
  lemma ParseJwtRejectsSectionCount(p: Primitives, token: string)
    requires Count(token, '.') != 2
    ensures ParseJwt(p, token) == Failure(JwtParseFailed)
  {
  }

  // ---------------------------------------------------------------------
  // getUserIdFromJwt

  /** `getUserIdFromJwt(jwt)`: the parsed payload's `sub`, as it is. */
  function GetUserIdFromJwt(p: Primitives, jwt: string): (r: Result<JsValue, JsError>)
    ensures ParseJwt(p, jwt).Failure? ==> r == Failure(JwtParseFailed)
    ensures ParseJwt(p, jwt).Success? ==> r == GetClaim(ParseJwt(p, jwt).value, Sub)
  {
    var payload :- ParseJwt(p, jwt);
    GetClaim(payload, Sub)
  }

  /** A payload object with a string `sub` yields exactly that string. */
  lemma UserIdIsSubject(p: Primitives, jwt: string, sub: string)
    requires ParseJwt(p, jwt).Success? && ParseJwt(p, jwt).value.JObject?
    requires "sub" in ParseJwt(p, jwt).value.members
    requires ParseJwt(p, jwt).value.members["sub"] == JString(sub)
    ensures GetUserIdFromJwt(p, jwt) == Success(Value(JString(sub)))
  {
  }

  // ---------------------------------------------------------------------
  // createChallengeFromJwt and createUserId

  /** `${payload.<claim>}`: the claim read and turned into text. */
  function ClaimText(p: Primitives, payload: Json, c: Claim): (r: Result<string, JsError>)
  {
    var v :- GetClaim(payload, c);
    ToJsString(p.numberToString, v)
  }

  /** `${iss}:${sub}:${aud}`, claims evaluated left to right. */
  function ChallengeText(p: Primitives, payload: Json): Result<string, JsError>
  {
    var iss :- ClaimText(p, payload, Iss);
    var sub :- ClaimText(p, payload, Sub);
    var aud :- ClaimText(p, payload, Aud);
    Success(iss + ":" + sub + ":" + aud)
  }

  /** `${iss}:${sub}`. */
  function UserIdText(p: Primitives, payload: Json): Result<string, JsError>
  {
    var iss :- ClaimText(p, payload, Iss);
    var sub :- ClaimText(p, payload, Sub);
    Success(iss + ":" + sub)
  }

  /** `createChallengeFromJwt(payload)`: SHA-256 of the UTF-8 of
      `iss:sub:aud`. Only a `null` payload or a claim that cannot be turned
      into text makes it throw. */
  function CreateChallengeFromJwt(p: Primitives, payload: Json): (r: Result<Digest, JsError>)
    ensures payload.JNull? ==> r == Failure(NullPropertyRead("iss"))
    ensures r.Failure? ==> r.error == NullPropertyRead("iss") || r.error == NoPrimitiveValue
    ensures r.Failure? <==> payload.JNull? || exists c :: ClaimText(p, payload, c).Failure?
    ensures r.Failure? && !payload.JNull? ==> r.error == NoPrimitiveValue
  {
    var text :- ChallengeText(p, payload);
    Success(p.sha256(Utf8.Encode(text)))
  }

  /** `createUserId(payload)`: SHA-256 of the UTF-8 of `iss:sub`; it
      fails exactly when `iss` or `sub` cannot be read or turned into text,
      and so never fails where the challenge succeeds. */
  function CreateUserId(p: Primitives, payload: Json): (r: Result<Digest, JsError>)
    ensures r.Failure? <==> ClaimText(p, payload, Iss).Failure? || ClaimText(p, payload, Sub).Failure?
    ensures CreateChallengeFromJwt(p, payload).Success? ==> r.Success?
  {
    var text :- UserIdText(p, payload);
    Success(p.sha256(Utf8.Encode(text)))
  }

  /** `payload.<name>` on an object payload: the member, or `undefined`. */
  function Member(m: map<string, Json>, name: string): JsValue
  {
    if name in m then Value(m[name]) else Undefined
  }

  /** For any object payload whose three claims convert to `iss`, `sub`
      and `aud` (whatever their JSON types), the challenge hashes
      `iss:sub:aud` and the user id hashes `iss:sub`. */
  lemma ChallengeOfObjectPayload(p: Primitives, m: map<string, Json>, iss: string, sub: string, aud: string)
    requires ToJsString(p.numberToString, Member(m, "iss")) == Success(iss)
    requires ToJsString(p.numberToString, Member(m, "sub")) == Success(sub)
    requires ToJsString(p.numberToString, Member(m, "aud")) == Success(aud)
    ensures CreateChallengeFromJwt(p, JObject(m)) == Success(p.sha256(Utf8.Encode(iss + ":" + sub + ":" + aud)))
    ensures CreateUserId(p, JObject(m)) == Success(p.sha256(Utf8.Encode(iss + ":" + sub)))
  {
    assert ClaimText(p, JObject(m), Iss) == Success(iss);
    assert ClaimText(p, JObject(m), Sub) == Success(sub);
    assert ClaimText(p, JObject(m), Aud) == Success(aud);
  }

  /** An array audience enters the challenge comma-joined: `aud: [a, b]`
      hashes `iss:sub:a,b`. */
  lemma ChallengeOfArrayAudience(p: Primitives, m: map<string, Json>, iss: string, sub: string,
                                 auds: seq<string>)
    requires |auds| >= 1
    requires "iss" in m && m["iss"] == JString(iss)
    requires "sub" in m && m["sub"] == JString(sub)
    requires "aud" in m && m["aud"] == JArray(seq(|auds|, i requires 0 <= i < |auds| => JString(auds[i])))
    ensures CreateChallengeFromJwt(p, JObject(m))
            == Success(p.sha256(Utf8.Encode(iss + ":" + sub + ":" + Join(auds, ','))))
  {
    ArrayOfStringsText(p.numberToString, auds);
    ChallengeOfObjectPayload(p, m, iss, sub, Join(auds, ','));
  }

  /** With string claims the challenge and the user id hash exactly the
      colon-joined claims; `exp`, `iat` and every other claim play no part. */
  lemma ChallengeOfStringClaims(p: Primitives, m: map<string, Json>, iss: string, sub: string, aud: string)
    requires "iss" in m && m["iss"] == JString(iss)
    requires "sub" in m && m["sub"] == JString(sub)
    requires "aud" in m && m["aud"] == JString(aud)
    ensures CreateChallengeFromJwt(p, JObject(m)) == Success(p.sha256(Utf8.Encode(iss + ":" + sub + ":" + aud)))
    ensures CreateUserId(p, JObject(m)) == Success(p.sha256(Utf8.Encode(iss + ":" + sub)))
  {
  }

  /** Adding, changing or removing a member other than `iss`, `sub` and
      `aud` changes neither the challenge nor the user id. */
  lemma ChallengeIgnoresOtherClaims(p: Primitives, m: map<string, Json>, key: string, v: Json)
    requires key != "iss" && key != "sub" && key != "aud"
    ensures CreateChallengeFromJwt(p, JObject(m[key := v])) == CreateChallengeFromJwt(p, JObject(m))
    ensures CreateChallengeFromJwt(p, JObject(m - {key})) == CreateChallengeFromJwt(p, JObject(m))
    ensures CreateUserId(p, JObject(m[key := v])) == CreateUserId(p, JObject(m))
    ensures CreateUserId(p, JObject(m - {key})) == CreateUserId(p, JObject(m))
  {
    ClaimsUnchanged(m, m[key := v], key);
    ClaimsUnchanged(m, m - {key}, key);
  }

  lemma ClaimsUnchanged(m: map<string, Json>, m': map<string, Json>, key: string)
    requires key != "iss" && key != "sub" && key != "aud"
    requires forall k :: k != key ==> (k in m <==> k in m') && (k in m ==> m[k] == m'[k])
    ensures forall c :: GetClaim(JObject(m), c) == GetClaim(JObject(m'), c)
  {
    forall c: Claim
      ensures GetClaim(JObject(m), c) == GetClaim(JObject(m'), c)
    {
      assert ClaimName(c) != key;
    }
  }

  /** Everything but the three claims is ignored: two payloads whose
      `iss`, `sub` and `aud` read alike give the same challenge, user id
      and key material. */
  lemma DerivationDependsOnlyOnClaims(p: Primitives, a: Json, b: Json, keyData: seq<byte>)
    requires forall c :: GetClaim(a, c) == GetClaim(b, c)
    ensures CreateChallengeFromJwt(p, a) == CreateChallengeFromJwt(p, b)
    ensures CreateUserId(p, a) == CreateUserId(p, b)
    ensures KeyMaterial(p, a, keyData) == KeyMaterial(p, b, keyData)
  {
    assert GetClaim(a, Iss) == GetClaim(b, Iss);
    assert GetClaim(a, Sub) == GetClaim(b, Sub);
    assert GetClaim(a, Aud) == GetClaim(b, Aud);
  }

  /** Claim presence is never checked: missing claims enter the challenge
      as the text "undefined". */
  lemma ChallengeOfEmptyPayload(p: Primitives)
    ensures CreateChallengeFromJwt(p, JObject(map[]))
            == Success(p.sha256(Utf8.Encode("undefined:undefined:undefined")))
    ensures CreateUserId(p, JObject(map[])) == Success(p.sha256(Utf8.Encode("undefined:undefined")))
  {
    var empty := JObject(map[]);
    assert forall c :: ClaimText(p, empty, c) == Success("undefined");
    assert ChallengeText(p, empty) == Success("undefined" + ":" + "undefined" + ":" + "undefined");
    assert "undefined" + ":" + "undefined" + ":" + "undefined" == "undefined:undefined:undefined";
    assert "undefined" + ":" + "undefined" == "undefined:undefined";
  }

  /** A `null` payload throws when `iss` is read. */
  lemma ChallengeOfNullPayload(p: Primitives)
    ensures CreateChallengeFromJwt(p, JNull) == Failure(NullPropertyRead("iss"))
    ensures CreateUserId(p, JNull) == Failure(NullPropertyRead("iss"))
  {
  }

  // ---------------------------------------------------------------------
  // getOrCreatePasskey, getPasskeyAssertion, createPasskey

  /** One call the client makes on the authenticator. */
  datatype AuthenticatorCall =
    | GetCall(request: RequestOptions)
    | CreateCall(creation: CreationOptions)

  /** The outcome of a step that talks to the authenticator, with the calls
      it made in order. */
  datatype Exchange = Exchange(result: Result<seq<byte>, JsError>, calls: seq<AuthenticatorCall>)

  /** The bytes read off a settled credential promise. */
  function Settled(s: Settlement): (r: Result<seq<byte>, JsError>)
  {
    match s
    case Resolved(data) => Success(data)
    case ResolvedNull => Failure(NullPropertyRead("response"))
    case Rejected(message) => Failure(AuthenticatorFailed(message))
  }

  function AssertionOptions(client: Client, challenge: seq<byte>): RequestOptions
  {
    RequestOptions(challenge, client.rpId, "preferred")
  }

  /** The options `createPasskey` passes to `navigator.credentials.create`. */
  function CreationOptionsFor(client: Client, challenge: seq<byte>, userId: seq<byte>, sub: JsValue): CreationOptions
  {
    CreationOptions(
      challenge,
      RelyingParty(client.rpName, client.rpId),
      UserEntity(userId, sub, sub),
      [CredentialParameter("public-key", -8)],
      AuthenticatorSelection("required", true, "preferred"),
      60000,
      "none")
  }

  /** The fixed part of every creation request: EdDSA only, a discoverable
      credential, user verification preferred, a one-minute timeout, no
      attestation, and the client's relying party. */
  predicate CreationPolicy(client: Client, o: CreationOptions)
  {
    && o.rp == RelyingParty(client.rpName, client.rpId)
    && o.pubKeyCredParams == [CredentialParameter("public-key", -8)]
    && o.authenticatorSelection.residentKey == "required"
    && o.authenticatorSelection.requireResidentKey
    && o.authenticatorSelection.userVerification == "preferred"
    && o.timeout == 60000
    && o.attestation == "none"
  }

  /** `getPasskeyAssertion(challenge)` followed by the read of
      `response.signature`: a discovery-mode request for the challenge. */
  function GetPasskeyAssertion(client: Client, auth: Authenticator, challenge: seq<byte>): (r: Exchange)
    ensures !auth.canGet ==> r == Exchange(Failure(WebAuthnUnsupported), [])
    ensures auth.canGet ==> r.calls == [GetCall(AssertionOptions(client, challenge))]
    ensures r.result.Success? <==> auth.canGet && auth.get(AssertionOptions(client, challenge)).Resolved?
  {
    if !auth.canGet then Exchange(Failure(WebAuthnUnsupported), [])
    else
      var request := AssertionOptions(client, challenge);
      Exchange(Settled(auth.get(request)), [GetCall(request)])
  }

  /** `createPasskey(payload, challenge)` followed by the read of
      `response.attestationObject`. When it reaches the authenticator it
      makes exactly one creation request, for the given challenge, with the
      hashed `iss:sub` as user handle and `sub` as both names. */
  function CreatePasskey(p: Primitives, client: Client, auth: Authenticator, payload: Json,
                         challenge: seq<byte>): (r: Exchange)
    ensures r.calls == [] <==> !auth.canCreate || CreateUserId(p, payload).Failure?
    ensures r.calls == [] ==> r.result.Failure?
    ensures !auth.canCreate ==> r.result == Failure(WebAuthnUnsupported)
    ensures auth.canCreate && CreateUserId(p, payload).Failure? ==>
              r.result == Failure(CreateUserId(p, payload).error)
    ensures r.calls != [] ==> r.calls[0].CreateCall?
    ensures r.calls != [] && r.calls[0].CreateCall? ==>
              var o := r.calls[0].creation;
              && r.calls == [CreateCall(o)]
              && CreationPolicy(client, o)
              && o.challenge == challenge
              && o.user.id == CreateUserId(p, payload).value
              && GetClaim(payload, Sub) == Success(o.user.name)
              && o.user.displayName == o.user.name
              && r.result == Settled(auth.create(o))
  {
    if !auth.canCreate then Exchange(Failure(WebAuthnUnsupported), [])
    else
      match CreateUserId(p, payload)
      case Failure(e) => Exchange(Failure(e), [])
      case Success(userId) =>
        var sub := GetClaim(payload, Sub).value;
        var creation := CreationOptionsFor(client, challenge, userId, sub);
        Exchange(Settled(auth.create(creation)), [CreateCall(creation)])
  }

  /** Whether the discovery-mode assertion yields a signature. */
  predicate AssertionSucceeds(client: Client, auth: Authenticator, challenge: seq<byte>)
  {
    auth.canGet && auth.get(AssertionOptions(client, challenge)).Resolved?
  }

  /** `getOrCreatePasskey(payload, challenge)`: the assertion's signature
      when the assertion succeeds, and then nothing is created; after any
      assertion failure (an unsupported platform included) a creation
      request, whose attestation object or error is the outcome. */
  function GetOrCreatePasskey(p: Primitives, client: Client, auth: Authenticator, payload: Json,
                              challenge: seq<byte>): (r: Exchange)
    ensures AssertionSucceeds(client, auth, challenge) ==>
              && r.result == Success(auth.get(AssertionOptions(client, challenge)).data)
              && r.calls == [GetCall(AssertionOptions(client, challenge))]
    ensures !AssertionSucceeds(client, auth, challenge) ==>
              var created := CreatePasskey(p, client, auth, payload, challenge);
              && r.result == created.result
              && r.calls == (if auth.canGet then [GetCall(AssertionOptions(client, challenge))] else [])
                            + created.calls
    ensures forall k :: 0 <= k < |r.calls| ==> CallChallenge(r.calls[k]) == challenge
  {
    var assertion := GetPasskeyAssertion(client, auth, challenge);
    if assertion.result.Success? then assertion
    else
      var created := CreatePasskey(p, client, auth, payload, challenge);
      Exchange(created.result, assertion.calls + created.calls)
  }

  function CallChallenge(call: AuthenticatorCall): seq<byte>
  {
    match call
    case GetCall(request) => request.challenge
    case CreateCall(creation) => creation.challenge
  }

  // ---------------------------------------------------------------------
  // deriveKey

  /** `encoder.encode(payload.<claim>)`. `TextEncoder.encode`'s argument
      defaults to "", so a missing claim contributes no bytes at all; any
      other value is converted to text as the challenge's template literal
      converts it. */
  function ClaimBytes(p: Primitives, payload: Json, c: Claim): (r: Result<seq<byte>, JsError>)
    ensures GetClaim(payload, c) == Success(Undefined) ==> r == Success([])
    ensures (payload.JObject? && ClaimName(c) in payload.members
             && payload.members[ClaimName(c)].JString?)
            ==> r == Success(Utf8.Encode(payload.members[ClaimName(c)].s))
    ensures GetClaim(payload, c).Success? && !GetClaim(payload, c).value.Undefined? ==>
              && (r.Success? <==> ClaimText(p, payload, c).Success?)
              && (r.Success? ==> r.value == Utf8.Encode(ClaimText(p, payload, c).value))
  {
    var v :- GetClaim(payload, c);
    if v.Undefined? then Success([])
    else
      var text :- ToJsString(p.numberToString, v);
      Success(Utf8.Encode(text))
  }

  /** The bytes `deriveKey` hashes: the three claims' bytes and the
      authenticator's bytes, concatenated with no separator. */
  function KeyMaterial(p: Primitives, payload: Json, keyData: seq<byte>): (r: Result<seq<byte>, JsError>)
    ensures r.Success? <==> ClaimBytes(p, payload, Iss).Success? && ClaimBytes(p, payload, Sub).Success?
                            && ClaimBytes(p, payload, Aud).Success?
    ensures r.Success? ==>
              |r.value| == |ClaimBytes(p, payload, Iss).value| + |ClaimBytes(p, payload, Sub).value|
                           + |ClaimBytes(p, payload, Aud).value| + |keyData|
    ensures r.Success? ==> r.value[|r.value| - |keyData|..] == keyData
    ensures r.Success? ==>
              var i, s, a := ClaimBytes(p, payload, Iss).value, ClaimBytes(p, payload, Sub).value,
                             ClaimBytes(p, payload, Aud).value;
              && r.value[..|i|] == i
              && r.value[|i|..|i| + |s|] == s
              && r.value[|i| + |s|..|i| + |s| + |a|] == a
  {
    var iss, sub, aud := ClaimBytes(p, payload, Iss), ClaimBytes(p, payload, Sub), ClaimBytes(p, payload, Aud);
    if iss.Failure? then Failure(iss.error)
    else if sub.Failure? then Failure(sub.error)
    else if aud.Failure? then Failure(aud.error)
    else
      Concat4(iss.value, sub.value, aud.value, keyData);
      Success(iss.value + sub.value + aud.value + keyData)
  }

  lemma Concat4(i: seq<byte>, s: seq<byte>, a: seq<byte>, k: seq<byte>)
    ensures var r := i + s + a + k;
            && |r| == |i| + |s| + |a| + |k|
            && r[|r| - |k|..] == k
            && r[..|i|] == i
            && r[|i|..|i| + |s|] == s
            && r[|i| + |s|..|i| + |s| + |a|] == a
  {
  }

  /** `deriveKey(jwt, keyData)`: parses the token again and hashes the key
      material. */
  function DeriveKey(p: Primitives, jwt: string, keyData: seq<byte>): (r: Result<Digest, JsError>)
    ensures ParseJwt(p, jwt).Failure? ==> r == Failure(JwtParseFailed)
    ensures r.Success? <==> ParseJwt(p, jwt).Success? && KeyMaterial(p, ParseJwt(p, jwt).value, keyData).Success?
    ensures r.Success? ==> r.value == p.sha256(KeyMaterial(p, ParseJwt(p, jwt).value, keyData).value)
    ensures ParseJwt(p, jwt).Success? && CreateChallengeFromJwt(p, ParseJwt(p, jwt).value).Success? ==> r.Success?
  {
    KeyMaterialAfterChallengeOf(p, jwt, keyData);
    var payload :- ParseJwt(p, jwt);
    var material :- KeyMaterial(p, payload, keyData);
    Success(p.sha256(material))
  }

  /** Every claim that can be turned into text can be encoded, so once the
      challenge exists the key material exists too. */
  lemma KeyMaterialAfterChallenge(p: Primitives, payload: Json, keyData: seq<byte>)
    requires CreateChallengeFromJwt(p, payload).Success?
    ensures KeyMaterial(p, payload, keyData).Success?
  {
    assert forall c :: ClaimText(p, payload, c).Success?;
  }

  lemma KeyMaterialAfterChallengeOf(p: Primitives, jwt: string, keyData: seq<byte>)
    ensures ParseJwt(p, jwt).Success? && CreateChallengeFromJwt(p, ParseJwt(p, jwt).value).Success? ==>
              KeyMaterial(p, ParseJwt(p, jwt).value, keyData).Success?
  {
    if ParseJwt(p, jwt).Success? && CreateChallengeFromJwt(p, ParseJwt(p, jwt).value).Success? {
      KeyMaterialAfterChallenge(p, ParseJwt(p, jwt).value, keyData);
    }
  }

  /** A token whose payload is an object with string claims gives the key
      SHA-256(UTF-8(`iss + sub + aud`) followed by the authenticator's
      bytes). */
  lemma DeriveKeyOfStringClaims(p: Primitives, jwt: string, m: map<string, Json>, iss: string, sub: string,
                                aud: string, keyData: seq<byte>)
    requires ParseJwt(p, jwt) == Success(JObject(m))
    requires "iss" in m && m["iss"] == JString(iss)
    requires "sub" in m && m["sub"] == JString(sub)
    requires "aud" in m && m["aud"] == JString(aud)
    ensures DeriveKey(p, jwt, keyData) == Success(p.sha256(Utf8.Encode(iss + sub + aud) + keyData))
  {
    KeyMaterialOfStringClaims(p, m, iss, sub, aud, keyData);
  }

  /** With string claims the key hashes the UTF-8 of `iss + sub + aud`
      followed by the authenticator's bytes. */
  lemma KeyMaterialOfStringClaims(p: Primitives, m: map<string, Json>, iss: string, sub: string, aud: string,
                                  keyData: seq<byte>)
    requires "iss" in m && m["iss"] == JString(iss)
    requires "sub" in m && m["sub"] == JString(sub)
    requires "aud" in m && m["aud"] == JString(aud)
    ensures KeyMaterial(p, JObject(m), keyData) == Success(Utf8.Encode(iss + sub + aud) + keyData)
  {
    Utf8.EncodeAppend(iss, sub);
    Utf8.EncodeAppend(iss + sub, aud);
  }

  /** Without separators, moving text across a claim boundary goes
      unnoticed: `iss = a + b, sub = c` and `iss = a, sub = b + c` give the
      same key. */
  lemma KeyIgnoresClaimBoundaries(p: Primitives, m: map<string, Json>, m': map<string, Json>,
                                  a: string, b: string, c: string, aud: string, keyData: seq<byte>)
    requires "iss" in m && m["iss"] == JString(a + b) && "sub" in m && m["sub"] == JString(c)
    requires "iss" in m' && m'["iss"] == JString(a) && "sub" in m' && m'["sub"] == JString(b + c)
    requires "aud" in m && m["aud"] == JString(aud) && "aud" in m' && m'["aud"] == JString(aud)
    ensures KeyMaterial(p, JObject(m), keyData) == KeyMaterial(p, JObject(m'), keyData)
  {
    assert (a + b) + c + aud == a + (b + c) + aud;
    KeyMaterialOfStringClaims(p, m, a + b, c, aud, keyData);
    KeyMaterialOfStringClaims(p, m', a, b + c, aud, keyData);
  }

  /** Missing claims are absent from the key material, where the challenge
      spells them "undefined". */
  lemma KeyMaterialOfEmptyPayload(p: Primitives, keyData: seq<byte>)
    ensures KeyMaterial(p, JObject(map[]), keyData) == Success(keyData)
  {
  }

  // ---------------------------------------------------------------------
  // processJwtCookie

  /** The key `processJwtCookie` returns, with the authenticator calls made
      on the way. */
  datatype Derivation = Derivation(key: Result<Digest, JsError>, calls: seq<AuthenticatorCall>)

  /** `processJwtCookie(jwt)`: parse, challenge, passkey, key. */
  function ProcessJwtCookie(p: Primitives, client: Client, auth: Authenticator, jwt: string): (r: Derivation)
    ensures ParseJwt(p, jwt).Failure? ==> r == Derivation(Failure(JwtParseFailed), [])
    ensures r.key.Success? ==>
              && ParseJwt(p, jwt).Success?
              && var payload := ParseJwt(p, jwt).value;
              && CreateChallengeFromJwt(p, payload).Success?
              && var challenge := CreateChallengeFromJwt(p, payload).value;
              && var proof := GetOrCreatePasskey(p, client, auth, payload, challenge).result;
              && proof.Success?
              && KeyMaterial(p, payload, proof.value).Success?
              && r.key.value == p.sha256(KeyMaterial(p, payload, proof.value).value)
    ensures ParseJwt(p, jwt).Success? && CreateChallengeFromJwt(p, ParseJwt(p, jwt).value).Failure? ==>
              r == Derivation(Failure(CreateChallengeFromJwt(p, ParseJwt(p, jwt).value).error), [])
    ensures ParseJwt(p, jwt).Success? && CreateChallengeFromJwt(p, ParseJwt(p, jwt).value).Success? ==>
              var payload := ParseJwt(p, jwt).value;
              var passkey := GetOrCreatePasskey(p, client, auth, payload, CreateChallengeFromJwt(p, payload).value);
              && r.calls == passkey.calls
              && (r.key.Success? <==> passkey.result.Success?)
              && (passkey.result.Failure? ==> r.key == Failure(passkey.result.error))
    ensures ParseJwt(p, jwt).Success? && CreateChallengeFromJwt(p, ParseJwt(p, jwt).value).Success? ==>
              forall k :: 0 <= k < |r.calls| ==>
                CallChallenge(r.calls[k]) == CreateChallengeFromJwt(p, ParseJwt(p, jwt).value).value
  {
    match ParseJwt(p, jwt)
    case Failure(e) => Derivation(Failure(e), [])
    case Success(payload) =>
      match CreateChallengeFromJwt(p, payload)
      case Failure(e) => Derivation(Failure(e), [])
      case Success(challenge) =>
        var passkey := GetOrCreatePasskey(p, client, auth, payload, challenge);
        match passkey.result
        case Failure(e) => Derivation(Failure(e), passkey.calls)
        case Success(keyData) => Derivation(DeriveKey(p, jwt, keyData), passkey.calls)
  }

  /** End to end: a token whose payload is an object with string claims,
      presented to an authenticator that answers the assertion, yields
      SHA-256 of the claims' UTF-8 followed by the signature, after exactly
      one assertion request for the payload's challenge. */
  lemma ProcessJwtCookieOfStringClaims(p: Primitives, client: Client, auth: Authenticator, jwt: string,
                                       m: map<string, Json>, iss: string, sub: string, aud: string)
    requires ParseJwt(p, jwt) == Success(JObject(m))
    requires "iss" in m && m["iss"] == JString(iss)
    requires "sub" in m && m["sub"] == JString(sub)
    requires "aud" in m && m["aud"] == JString(aud)
    requires AssertionSucceeds(client, auth, p.sha256(Utf8.Encode(iss + ":" + sub + ":" + aud)))
    ensures var challenge := p.sha256(Utf8.Encode(iss + ":" + sub + ":" + aud));
            var r := ProcessJwtCookie(p, client, auth, jwt);
            && r.calls == [GetCall(AssertionOptions(client, challenge))]
            && r.key == Success(p.sha256(Utf8.Encode(iss + sub + aud)
                                         + auth.get(AssertionOptions(client, challenge)).data))
  {
    ChallengeOfStringClaims(p, m, iss, sub, aud);
    var challenge := p.sha256(Utf8.Encode(iss + ":" + sub + ":" + aud));
    DeriveKeyOfStringClaims(p, jwt, m, iss, sub, aud, auth.get(AssertionOptions(client, challenge)).data);
  }

  // ---------------------------------------------------------------------
  // getJwtFromCookies

  const AuthCookiePrefix: string := "auth_token="

  /** `cookies[i].trim()` for every entry. */
  function TrimAll(entries: seq<string>): (r: seq<string>)
    ensures |r| == |entries|
    ensures forall i :: 0 <= i < |entries| ==> r[i] == Trim(entries[i])
  {
    seq(|entries|, i requires 0 <= i < |entries| => Trim(entries[i]))
  }

  /** Whether a trimmed entry is the auth cookie. */
  predicate IsAuthCookie(cookie: string)
  {
    StartsWith(cookie, AuthCookiePrefix)
  }

  /** The loop of `getJwtFromCookies` over the trimmed entries: the text
      after `auth_token=` in the first entry that starts with it, or `None`
      (`null`) when no entry does. */
  function FirstAuthToken(cookies: seq<string>): (r: Option<string>)
    ensures r.None? <==> forall i :: 0 <= i < |cookies| ==> !IsAuthCookie(cookies[i])
    ensures r.Some? ==> exists i :: 0 <= i < |cookies| && IsAuthCookie(cookies[i])
                                    && (forall k :: 0 <= k < i ==> !IsAuthCookie(cookies[k]))
                                    && r.value == cookies[i][|AuthCookiePrefix|..]
  {
    if |cookies| == 0 then None
    else if StartsWith(cookies[0], AuthCookiePrefix) then Some(cookies[0][|AuthCookiePrefix|..])
    else
      var r := FirstAuthToken(cookies[1..]);
      FoundAfterFirst(cookies[0], cookies[1..], r);
      assert [cookies[0]] + cookies[1..] == cookies;
      r
  }

  /** A token found in the entries after the first, when the first is not
      the auth cookie, is the first match among all entries. */
  lemma FoundAfterFirst(head: string, tail: seq<string>, r: Option<string>)
    requires !IsAuthCookie(head)
    requires r.None? <==> forall i :: 0 <= i < |tail| ==> !IsAuthCookie(tail[i])
    requires r.Some? ==> exists i :: 0 <= i < |tail| && IsAuthCookie(tail[i])
                                    && (forall k :: 0 <= k < i ==> !IsAuthCookie(tail[k]))
                                    && r.value == tail[i][|AuthCookiePrefix|..]
    ensures var cookies := [head] + tail;
            && (r.None? <==> forall i :: 0 <= i < |cookies| ==> !IsAuthCookie(cookies[i]))
            && (r.Some? ==> exists i :: 0 <= i < |cookies| && IsAuthCookie(cookies[i])
                                        && (forall k :: 0 <= k < i ==> !IsAuthCookie(cookies[k]))
                                        && r.value == cookies[i][|AuthCookiePrefix|..])
  {
    var cookies := [head] + tail;
    assert forall i :: 0 < i < |cookies| ==> cookies[i] == tail[i - 1];
    if r.Some? {
      var j :| 0 <= j < |tail| && IsAuthCookie(tail[j])
               && (forall k :: 0 <= k < j ==> !IsAuthCookie(tail[k]))
               && r.value == tail[j][|AuthCookiePrefix|..];
      assert cookies[j + 1] == tail[j];
    }
  }

  /** `getJwtFromCookies()` over the text of `document.cookie`: the value
      of the first `;`-separated entry that, once trimmed, is named
      `auth_token`, or `None` when there is no such entry. */
  function GetJwtFromCookies(cookie: string): (r: Option<string>)
    ensures r.None? <==> forall i :: 0 <= i < |Split(cookie, ';')| ==> !IsAuthCookie(Trim(Split(cookie, ';')[i]))
    ensures r.Some? ==> ';' !in r.value && |r.value| <= |cookie|
  {
    CookieValueWithin(cookie);
    FirstAuthToken(TrimAll(Split(cookie, ';')))
  }

  /** The token found is a slice of one `;`-free entry of the header. */
  lemma CookieValueWithin(cookie: string)
    ensures var r := FirstAuthToken(TrimAll(Split(cookie, ';')));
            r.Some? ==> ';' !in r.value && |r.value| <= |cookie|
  {
    var segments := Split(cookie, ';');
    var cookies := TrimAll(segments);
    var r := FirstAuthToken(cookies);
    if r.Some? {
      var i :| 0 <= i < |cookies| && IsAuthCookie(cookies[i]) && r.value == cookies[i][|AuthCookiePrefix|..];
      SegmentLength(segments, i, ';');
      AuthValueOfEntry(segments[i], ';');
    }
  }

  lemma AuthValueOfEntry(entry: string, sep: char)
    requires sep !in entry && IsAuthCookie(Trim(entry))
    ensures sep !in Trim(entry)[|AuthCookiePrefix|..] && |Trim(entry)| <= |entry|
  {
    var t := Trim(entry);
    TrimAvoids(entry, sep);
    SliceAvoids(t, |AuthCookiePrefix|, |t|, sep);
    assert t[|AuthCookiePrefix|..|t|] == t[|AuthCookiePrefix|..];
  }

  lemma TrimAvoids(s: string, c: char)
    requires c !in s
    ensures c !in Trim(s) && |Trim(s)| <= |s|
  {
    var a, b :| 0 <= a <= b <= |s| && Trim(s) == s[a..b];
    SliceAvoids(s, a, b, c);
  }

  lemma SliceAvoids(s: string, i: nat, j: nat, c: char)
    requires i <= j <= |s| && c !in s
    ensures c !in s[i..j]
  {
    forall k | 0 <= k < j - i ensures s[i..j][k] != c {
      assert s[i..j][k] == s[i + k];
    }
  }

  /** No part of a join is longer than the join. */
  lemma {:induction false} SegmentLength(parts: seq<string>, i: nat, sep: char)
    requires |parts| >= 1 && i < |parts|
    ensures |parts[i]| <= |Join(parts, sep)|
  {
    if |parts| > 1 && i > 0 {
      SegmentLength(parts[1..], i - 1, sep);
    }
  }

  /** Text that neither starts nor ends with whitespace is its own trim. */
  lemma TrimOfUnpadded(s: string)
    requires |s| > 0 && !IsJsWhitespace(s[0]) && !IsJsWhitespace(s[|s| - 1])
    ensures Trim(s) == s
  {
    var t := Trim(s);
    var i, j :| 0 <= i <= j <= |s| && t == s[i..j] && AllWhitespace(s[..i]) && AllWhitespace(s[j..]);
    if i > 0 {
      assert false;
    }
    if j < |s| {
      assert false;
    }
  }

  /** A header made of `;`-free entries is read entry by entry, in order. */
  lemma GetJwtFromCookiesOfEntries(entries: seq<string>)
    requires |entries| >= 1
    requires forall i :: 0 <= i < |entries| ==> ';' !in entries[i]
    ensures GetJwtFromCookies(Join(entries, ';')) == FirstAuthToken(TrimAll(entries))
  {
    SplitJoin(entries, ';');
  }

  /** A lone `auth_token=v` cookie yields `v` whenever `v` holds no `;`
      and does not end in whitespace. */
  lemma GetJwtFromSingleCookie(v: string)
    requires ';' !in v
    requires |v| == 0 || !IsJsWhitespace(v[|v| - 1])
    ensures GetJwtFromCookies(AuthCookiePrefix + v) == Some(v)
  {
    var s := AuthCookiePrefix + v;
    PrefixedAvoids(v, ';');
    UnpaddedCookie(v);
    TrimOfUnpadded(s);
    SingleEntry(s);
  }

  lemma SingleEntry(s: string)
    requires ';' !in s && Trim(s) == s && IsAuthCookie(s)
    ensures GetJwtFromCookies(s) == Some(s[|AuthCookiePrefix|..])
  {
    SplitOfSingle(s, ';');
    TrimAllOfSingle(s);
  }

  lemma SplitOfSingle(s: string, sep: char)
    requires sep !in s
    ensures Split(s, sep) == [s]
  {
    CountAbsent(s, sep);
  }

  lemma TrimAllOfSingle(s: string)
    requires Trim(s) == s
    ensures TrimAll([s]) == [s]
  {
  }

  lemma PrefixedAvoids(v: string, c: char)
    requires c !in v && c !in AuthCookiePrefix
    ensures c !in AuthCookiePrefix + v
  {
    var s := AuthCookiePrefix + v;
    forall k | 0 <= k < |s| ensures s[k] != c {
      if k >= |AuthCookiePrefix| {
        assert s[k] == v[k - |AuthCookiePrefix|];
      } else {
        assert s[k] == AuthCookiePrefix[k];
      }
    }
  }

  lemma UnpaddedCookie(v: string)
    requires |v| == 0 || !IsJsWhitespace(v[|v| - 1])
    ensures var s := AuthCookiePrefix + v;
            |s| > 0 && !IsJsWhitespace(s[0]) && !IsJsWhitespace(s[|s| - 1])
            && IsAuthCookie(s) && s[|AuthCookiePrefix|..] == v
  {
    var s := AuthCookiePrefix + v;
    assert s[0] == 'a';
    if |v| > 0 {
      assert s[|s| - 1] == v[|v| - 1];
    }
    assert s[..|AuthCookiePrefix|] == AuthCookiePrefix;
  }
}
