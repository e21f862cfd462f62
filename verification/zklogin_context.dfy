/** The session state the `ZkLoginProvider` keeps and its four operations:
    `initialize` (run once on mount), `hardwareInit`, `basicNuc` and
    `logout`. Each operation is a total function from the state before to
    the state after (or to what it returns); the React plumbing around
    them is not modelled. */
module ZkLoginContext {
  import opened Wrappers
  import opened Bytes
  import opened JsValues
  import opened Platform
  import opened ZkLogin

  /** `AuthState`, an absent optional field being `None`. `userId` holds
      whatever the payload's `sub` read as; the type annotation `string`
      is never checked. */
  datatype AuthState = AuthState(
    isAuthenticated: bool,
    derivedKeyMaterial: Option<seq<byte>>,
    privateKey: Option<seq<byte>>,
    privKeyHex: Option<string>,
    pubKey: Option<seq<byte>>,
    pubKeyHex: Option<string>,
    jwt: Option<string>,
    userId: Option<JsValue>,
    error: Option<string>)

  /** `{ isAuthenticated: false }`. */
  const SignedOut: AuthState := AuthState(false, None, None, None, None, None, None, None, None)

  /** The provider's two state hooks. */
  datatype Session = Session(auth: AuthState, isLoading: bool)

  /** The state before `initialize` runs: signed out and loading. */
  const InitialSession: Session := Session(SignedOut, true)

  /** JavaScript truthiness of an optional string: `null`, `undefined`
      and `""` are all falsy. */
  predicate Truthy(s: Option<string>)
  {
    s.Some? && s.value != ""
  }

  /** `initialize()` with `document.cookie` equal to `cookie`. Without a
      non-empty `auth_token` the state is kept; with one it is replaced by
      `{isAuthenticated: true, jwt, userId}` or, when reading `sub`
      throws, by `{isAuthenticated: false, error}`. Loading ends on every
      path. */
  function Initialize(p: Primitives, session: Session, cookie: string): (r: Session)
    ensures !r.isLoading
    ensures !Truthy(GetJwtFromCookies(cookie)) ==> r.auth == session.auth
    ensures Truthy(GetJwtFromCookies(cookie)) ==>
              var jwt := GetJwtFromCookies(cookie).value;
              match GetUserIdFromJwt(p, jwt)
              case Success(sub) =>
                r.auth == SignedOut.(isAuthenticated := true, jwt := Some(jwt), userId := Some(sub))
              case Failure(e) =>
                r.auth == SignedOut.(error := Some(Message(e)))
  {
    var jwt := GetJwtFromCookies(cookie);
    if !Truthy(jwt) then session.(isLoading := false)
    else
      match GetUserIdFromJwt(p, jwt.value)
      case Success(userId) =>
        Session(AuthState(true, None, None, None, None, None, jwt, Some(userId), None), false)
      case Failure(e) =>
        Session(AuthState(false, None, None, None, None, None, None, None, Some(Message(e))), false)
  }

  /** From the initial state: signed in exactly when the cookie holds a
      token whose payload can be read, and then with that payload's `sub`;
      a token that fails to parse leaves the error "Failed to parse JWT". */
  lemma InitializeFromStart(p: Primitives, cookie: string)
    ensures var r := Initialize(p, InitialSession, cookie);
            && !r.isLoading
            && (r.auth.isAuthenticated <==>
                  Truthy(GetJwtFromCookies(cookie))
                  && GetUserIdFromJwt(p, GetJwtFromCookies(cookie).value).Success?)
            && (r.auth.isAuthenticated ==>
                  r.auth.jwt == GetJwtFromCookies(cookie)
                  && r.auth.userId.Some?
                  && GetUserIdFromJwt(p, r.auth.jwt.value) == Success(r.auth.userId.value))
            && (Truthy(GetJwtFromCookies(cookie))
                && ParseJwt(p, GetJwtFromCookies(cookie).value).Failure? ==>
                  r.auth == SignedOut.(error := Some("Failed to parse JWT")))
            && r.auth.derivedKeyMaterial.None? && r.auth.privateKey.None?
  {
  }

  /** `hardwareInit()` with the given authenticator. Without a held token
      nothing happens. Otherwise the key is derived and its public key
      computed; only when both succeed are the five key fields written,
      every other field keeping its value. */
  function HardwareInit(p: Primitives, secp: Secp256k1, client: Client, auth: Authenticator,
                        s: AuthState): (r: AuthState)
    ensures !Truthy(s.jwt) ==> r == s
    ensures r.isAuthenticated == s.isAuthenticated && r.jwt == s.jwt
            && r.userId == s.userId && r.error == s.error
    ensures r == s || (Truthy(s.jwt) && ProcessJwtCookie(p, client, auth, s.jwt.value).key.Success?)
    ensures r != s ==> r.derivedKeyMaterial == Some(ProcessJwtCookie(p, client, auth, s.jwt.value).key.value)
    ensures Truthy(s.jwt) && ProcessJwtCookie(p, client, auth, s.jwt.value).key.Failure? ==> r == s
    ensures (Truthy(s.jwt) && ProcessJwtCookie(p, client, auth, s.jwt.value).key.Success?
             && secp.getPublicKey(ProcessJwtCookie(p, client, auth, s.jwt.value).key.value).Failure?) ==> r == s
    ensures (Truthy(s.jwt) && ProcessJwtCookie(p, client, auth, s.jwt.value).key.Success?
             && secp.getPublicKey(ProcessJwtCookie(p, client, auth, s.jwt.value).key.value).Success?) ==>
              KeyBound(secp, r) && r.derivedKeyMaterial == Some(ProcessJwtCookie(p, client, auth, s.jwt.value).key.value)
  {
    if !Truthy(s.jwt) then s
    else
      match ProcessJwtCookie(p, client, auth, s.jwt.value).key
      case Failure(_) => s
      case Success(derived) =>
        match secp.getPublicKey(derived)
        case Failure(_) => s
        case Success(pub) =>
          s.(derivedKeyMaterial := Some(derived),
             privateKey := Some(derived),
             privKeyHex := Some(secp.bytesToHex(derived)),
             pubKey := Some(pub),
             pubKeyHex := Some(secp.bytesToHex(pub)))
  }

  /** The key fields hang together: a derived key is never held without
      being the private key, without its public key, without both hex forms
      and without the token it came from; and the private key is never held
      without the derived key. */
  predicate KeyBound(secp: Secp256k1, s: AuthState)
  {
    && (s.privateKey.Some? ==> s.derivedKeyMaterial.Some?)
    && (s.derivedKeyMaterial.Some? ==>
          && s.privateKey == s.derivedKeyMaterial
          && s.privKeyHex == Some(secp.bytesToHex(s.derivedKeyMaterial.value))
          && s.pubKey.Some?
          && secp.getPublicKey(s.derivedKeyMaterial.value) == Success(s.pubKey.value)
          && s.pubKeyHex == Some(secp.bytesToHex(s.pubKey.value))
          && Truthy(s.jwt))
  }

  /** Every transition keeps the key fields consistent. */
  lemma KeyBoundPreserved(p: Primitives, secp: Secp256k1, client: Client, auth: Authenticator,
                          nuc: NucLibrary, s: Session, cookie: string)
    requires KeyBound(secp, s.auth)
    ensures KeyBound(secp, Initialize(p, s, cookie).auth)
    ensures KeyBound(secp, HardwareInit(p, secp, client, auth, s.auth))
    ensures KeyBound(secp, Logout(s).session.auth)
  {
    InitializeKeepsKeyBound(p, secp, s, cookie);
    HardwareInitKeepsKeyBound(p, secp, client, auth, s.auth);
  }

  /** `initialize` either keeps the state or replaces it by one holding no key. */
  lemma InitializeKeepsKeyBound(p: Primitives, secp: Secp256k1, s: Session, cookie: string)
    requires KeyBound(secp, s.auth)
    ensures KeyBound(secp, Initialize(p, s, cookie).auth)
  {
    var r := Initialize(p, s, cookie).auth;
    assert r == s.auth || (r.derivedKeyMaterial.None? && r.privateKey.None?);
  }

  /** `hardwareInit` either keeps the state or writes a consistent key. */
  lemma HardwareInitKeepsKeyBound(p: Primitives, secp: Secp256k1, client: Client, auth: Authenticator,
                                  s: AuthState)
    requires KeyBound(secp, s)
    ensures KeyBound(secp, HardwareInit(p, secp, client, auth, s))
  {
    var r := HardwareInit(p, secp, client, auth, s);
    assert r == s || KeyBound(secp, r);
  }

  /** A second `hardwareInit` with the same authenticator behaviour leaves
      the state as the first one left it. */
  lemma HardwareInitIdempotent(p: Primitives, secp: Secp256k1, client: Client, auth: Authenticator,
                               s: AuthState)
    ensures var once := HardwareInit(p, secp, client, auth, s);
            HardwareInit(p, secp, client, auth, once) == once
  {
    var once := HardwareInit(p, secp, client, auth, s);
    assert once.jwt == s.jwt;
  }

  /** The request `basicNuc(data)` builds: no policies, audience 33 bytes
      of 0xbb, subject 33 bytes of 0xcc, command `nil db read`, and
      `{name: data}` as meta. */
  function DelegationFor(data: string): (q: DelegationRequest)
    ensures q.policies == []
    ensures |q.audience.publicKey| == 33 && forall i :: 0 <= i < 33 ==> q.audience.publicKey[i] == 0xbb
    ensures |q.subject.publicKey| == 33 && forall i :: 0 <= i < 33 ==> q.subject.publicKey[i] == 0xcc
    ensures q.command == ["nil", "db", "read"]
    ensures q.meta.Keys == {"name"} && q.meta["name"] == JString(data)
  {
    DelegationRequest([], Did(Fill(33, 0xbb)), Did(Fill(33, 0xcc)), ["nil", "db", "read"],
                      map["name" := JString(data)])
  }

  /** `basicNuc(data)`: with a private key, the delegation is built and
      signed with it, parsed back into an envelope and its signatures
      checked; the envelope is returned only when all three succeed. It
      returns a value and never changes the state. */
  function BasicNuc(nuc: NucLibrary, s: AuthState, data: string): (r: Option<Envelope>)
    ensures s.privateKey.None? ==> r.None?
    ensures r.Some? <==>
              && s.privateKey.Some?
              && nuc.build(DelegationFor(data), s.privateKey.value).Some?
              && nuc.parseEnvelope(nuc.build(DelegationFor(data), s.privateKey.value).value).Some?
              && nuc.validateSignatures(nuc.parseEnvelope(nuc.build(DelegationFor(data), s.privateKey.value).value).value)
    ensures r.Some? ==> r == nuc.parseEnvelope(nuc.build(DelegationFor(data), s.privateKey.value).value)
  {
    if s.privateKey.None? then None
    else
      var token :- nuc.build(DelegationFor(data), s.privateKey.value);
      var envelope :- nuc.parseEnvelope(token);
      if nuc.validateSignatures(envelope) then Some(envelope) else None
  }

  /** The URL `logout()` navigates to. */
  const LogoutUrl: string := "/api/auth/logout"

  datatype Navigation = Navigation(session: Session, location: string)

  /** `logout()`: navigates to the logout endpoint and leaves the state,
      the key included, exactly as it was. */
  function Logout(s: Session): (r: Navigation)
    ensures r.session == s && r.location == LogoutUrl
  {
    Navigation(s, LogoutUrl)
  }

  /** Since `logout` clears nothing, until the page unloads a delegation
      can still be issued exactly as before it. */
  lemma BasicNucAfterLogout(nuc: NucLibrary, s: Session, data: string)
    ensures BasicNuc(nuc, Logout(s).session.auth, data) == BasicNuc(nuc, s.auth, data)
  {
  }
}
