/** The code the client calls but does not contain, each reduced to what
    the client relies on: SHA-256 (any function to 32 bytes), `JSON.parse`,
    number formatting, the WebAuthn authenticator, the secp256k1 library
    and the NUC token library. Every model function takes these as
    parameters, so each property holds for every implementation of them. */
module Platform {
  import opened Wrappers
  import opened Bytes
  import opened JsValues

  /** A SHA-256 digest. */
  type Digest = s: seq<byte> | |s| == 32 witness seq(32, _ => 0)

  /** The browser built-ins of the client. */
  datatype Primitives = Primitives(
    sha256: seq<byte> -> Digest,        // crypto.subtle.digest("SHA-256", ·)
    jsonParse: string -> Option<Json>,   // JSON.parse; None when it throws
    numberToString: bv64 -> string)      // Number::toString of a double

  /** `PublicKeyCredentialRequestOptions` (section 5.5 of W3C WebAuthn
      Level 2) as the client fills it: no `allowCredentials`, so the
      authenticator discovers a credential itself. */
  datatype RequestOptions = RequestOptions(
    challenge: seq<byte>,
    rpId: string,
    userVerification: string)

  datatype RelyingParty = RelyingParty(name: string, id: string)

  /** The user entity; `name` and `displayName` hold whatever the payload's
      `sub` read as, before WebIDL turns them into strings. */
  datatype UserEntity = UserEntity(id: seq<byte>, name: JsValue, displayName: JsValue)

  /** One `PublicKeyCredentialParameters` entry; `alg` is a COSE algorithm
      identifier (-8 is EdDSA, section 8.2 of RFC 8152). */
  datatype CredentialParameter = CredentialParameter(kind: string, alg: int)

  datatype AuthenticatorSelection = AuthenticatorSelection(
    residentKey: string,
    requireResidentKey: bool,
    userVerification: string)

  /** `PublicKeyCredentialCreationOptions` (section 5.4 of W3C WebAuthn
      Level 2). */
  datatype CreationOptions = CreationOptions(
    challenge: seq<byte>,
    rp: RelyingParty,
    user: UserEntity,
    pubKeyCredParams: seq<CredentialParameter>,
    authenticatorSelection: AuthenticatorSelection,
    timeout: nat,
    attestation: string)

  /** How a `navigator.credentials` promise settles: with a credential
      (given by the bytes the client reads off its response), with `null`,
      or rejected with an error message. */
  datatype Settlement = Resolved(data: seq<byte>) | ResolvedNull | Rejected(message: string)

  /** The platform authenticator. `canGet`/`canCreate` say whether
      `navigator.credentials.get`/`.create` exist; `get` yields the
      assertion's `signature`, `create` the `attestationObject`. */
  datatype Authenticator = Authenticator(
    canGet: bool,
    canCreate: bool,
    get: RequestOptions -> Settlement,
    create: CreationOptions -> Settlement)

  /** `@noble/secp256k1`: `getPublicKey(privateKey, true)` (throws on an
      invalid scalar) and `etc.bytesToHex`. */
  datatype Secp256k1 = Secp256k1(
    getPublicKey: seq<byte> -> Result<seq<byte>, string>,
    bytesToHex: seq<byte> -> string)

  /** A decentralised identifier given by its public-key bytes (`new Did(bytes)`). */
  datatype Did = Did(publicKey: seq<byte>)

  /** What `NucTokenBuilder.delegation(policies).audience(..).subject(..)
      .command(..).meta(..)` has collected before `build` signs it. */
  datatype DelegationRequest = DelegationRequest(
    policies: seq<Json>,
    audience: Did,
    subject: Did,
    command: seq<string>,
    meta: map<string, Json>)

  /** A parsed token envelope: the token and its proofs, each serialized. */
  datatype Envelope = Envelope(token: string, proofs: seq<string>)

  /** `@nillion/nuc`: `build(privateKey)` signs a request into a serialized
      token (or throws), `NucTokenEnvelopeSchema.parse` reads it back (or
      throws), and `validateSignatures` checks it (throwing means false). */
  datatype NucLibrary = NucLibrary(
    build: (DelegationRequest, seq<byte>) -> Option<string>,
    parseEnvelope: string -> Option<Envelope>,
    validateSignatures: Envelope -> bool)
}
