# zkLogin client model

This project models the browser-side core of a "zkLogin" two-factor scheme
in Dafny. The client takes the identity token (a compact JWT) that an
external login flow left in the `auth_token` cookie. It reads the
token's `iss`, `sub` and `aud` claims and hashes them into a WebAuthn
challenge. It then obtains a hardware proof from the platform
authenticator: the signature of a discoverable-credential assertion or,
failing that, the attestation object of a newly created credential.
Finally it hashes the claims and the proof into a 32-byte key. The React
provider around the client keeps an `AuthState`, turns the key into a
secp256k1 key pair (`hardwareInit`) and signs NUC delegation tokens with
it (`basicNuc`).

The client does not verify the token's signature. Trust in the token is
left to the cookie transport and to whoever later checks the token.

Layout (one module per file):

- `wrappers.dfy`: `Option` and `Result`.
- `bytes.dfy`: bytes and filled byte arrays.
- `js_strings.dfy`: `split`, `trim` and `startsWith` with ECMAScript semantics.
- `utf8.dfy`: UTF-8 encoding (`TextEncoder`) and strict decoding, with the round trip.
- `base64.dfy`: the base64url-to-base64 translation and forgiving-base64 `atob`, with a reference base64url encoder.
- `percent.dfy`: the parser's `%hh` escapes and `decodeURIComponent`.
- `js_values.dfy`: parsed JSON values, claim reads, template-literal string conversion and the thrown errors.
- `platform.dfy`: the code the client calls but does not contain. This covers SHA-256, `JSON.parse`, number formatting, the authenticator, secp256k1 and the NUC library. Each is a function-valued parameter, so every property holds for every implementation.
- `zklogin.dfy`: `ZkLoginClient` and `getJwtFromCookies`.
- `zklogin_context.dfy`: the provider's `AuthState` transitions.

Where a WebAuthn call settles, the model returns its outcome together with
the calls the client made, so the contracts can say what was asked of the
authenticator.

## Model

| member | source | states |
|---|---|---|
| JsStrings.Split | frontend/src/lib/zklogin.ts:62-63 | `split` with a one-character separator gives one more part than there are separators, no part contains the separator, and joining the parts gives the input back |
| JsStrings.SplitJoin | frontend/src/lib/zklogin.ts:62-63 | splitting a join of separator-free parts returns exactly those parts |
| JsStrings.Trim | frontend/src/lib/zklogin.ts:261 | `trim` yields a slice of the input whose removed ends are all whitespace and whose own ends are not |
| Utf8.DecodeFirst | frontend/src/lib/zklogin.ts:69-74 | a decoded scalar value is exactly the UTF-8 encoding of the bytes consumed |
| Utf8.Decode | frontend/src/lib/zklogin.ts:69-74 | strict UTF-8 decoding succeeds only on text whose encoding is the input |
| Utf8.DecodeEncode | frontend/src/lib/zklogin.ts:69-74 | decoding the UTF-8 encoding of any text gives the text back |
| Utf8.EncodeAppend | frontend/src/lib/zklogin.ts:226-231 | the encoding of a concatenation is the concatenation of the encodings |
| Base64.UrlToStandard | frontend/src/lib/zklogin.ts:68 | every `-` becomes `+`, every `_` becomes `/`, all else is kept, and no `-` or `_` remains |
| Base64.Sextets | frontend/src/lib/zklogin.ts:67 | base64url text of n bytes has ceil(4n/3) characters and never a length of 1 mod 4 |
| Base64.DecodeValues | frontend/src/lib/zklogin.ts:70 | k sextets decode to floor(3k/4) bytes |
| Base64.RemoveAsciiWhitespace | frontend/src/lib/zklogin.ts:70 | the first step of `atob`: a single whitespace character is dropped and any other kept, and the result holds no whitespace and is no longer than the input |
| Base64.RemoveAppend | frontend/src/lib/zklogin.ts:70 | whitespace removal distributes over concatenation, so with the one-character case it drops exactly the whitespace and keeps everything else in order |
| Base64.Atob | frontend/src/lib/zklogin.ts:70 | `atob` fails exactly when the cleaned text has length 1 mod 4 or holds a non-alphabet character; otherwise it gives floor(3k/4) bytes |
| Base64.AtobOfUrlEncode | frontend/src/lib/zklogin.ts:67-70 | translating unpadded base64url text and decoding it with `atob` gives the encoded bytes back |
| Percent.ToHexString | frontend/src/lib/zklogin.ts:72 | `toString(16)` writes lowercase hex digits that denote the number, without leading zeros |
| Percent.EscapeByte | frontend/src/lib/zklogin.ts:72 | each byte becomes `%` plus exactly two lowercase hex digits whose value is the byte |
| Percent.PercentEncode | frontend/src/lib/zklogin.ts:71-73 | the escaped text has three characters per byte, and the i-th triple escapes the i-th byte |
| Percent.EscapedRunOfPercentEncode | frontend/src/lib/zklogin.ts:69-73 | the escaped text reads back as one run of escapes holding the original bytes |
| Percent.DecodeUriComponentOfPercentEncode | frontend/src/lib/zklogin.ts:69-74 | `decodeURIComponent` of the escaped bytes is their strict UTF-8 decoding |
| Percent.DecodeUriComponentOfPlainText | frontend/src/lib/zklogin.ts:69 | `decodeURIComponent` leaves text without `%` unchanged |
| JsValues.GetClaim | frontend/src/lib/zklogin.ts:90 | reading a claim throws only on a `null` payload; on an object it gives the member or `undefined`; on a string `sub` is the inherited `String.prototype.sub`, and every other read on a string, number, boolean or array is `undefined`; presence and type are never checked |
| JsValues.ToJsString | frontend/src/lib/zklogin.ts:90 | template-literal conversion fails, with "Cannot convert object to primitive value", exactly when the value is or holds an object with its own `toString` member; otherwise `undefined` gives "undefined", the inherited `sub` its native source text, `null` "null", booleans "true"/"false", a number its formatted text, a string itself, an object "[object Object]" and an empty array "" |
| JsValues.ArrayText | frontend/src/lib/zklogin.ts:90 | a non-empty array converts to its elements' texts joined by `,`, with `null` elements written as the empty string |
| JsValues.ArrayOfStringsText | frontend/src/lib/zklogin.ts:90 | an array of strings converts to the strings joined by `,` |
| ZkLogin.DecodeSection | frontend/src/lib/zklogin.ts:67-76 | the base64-to-`%hh`-to-`decodeURIComponent` detour yields `JSON.parse` of the UTF-8 text of the section's bytes, and fails exactly when one of those steps fails |
| ZkLogin.ParseJwt | frontend/src/lib/zklogin.ts:60-81 | a token parses exactly when it has two dots and its middle section decodes to text `JSON.parse` accepts; the result is that parse; every failure is "Failed to parse JWT" |
| ZkLogin.ParseJwtReadsOnlyPayload | frontend/src/lib/zklogin.ts:62-76 | header and signature sections are neither decoded nor verified: swapping them leaves the parse unchanged |
| ZkLogin.ParseJwtOfEncodedPayload | frontend/src/lib/zklogin.ts:60-76 | a token whose middle section base64url-encodes the UTF-8 of some JSON text parses to that text's value |
| ZkLogin.ParseJwtRejectsSectionCount | frontend/src/lib/zklogin.ts:62-65 | a token without exactly three sections is rejected with "Failed to parse JWT" |
| ZkLogin.GetUserIdFromJwt | frontend/src/lib/zklogin.ts:239-243 | the user id is whatever the parsed payload's `sub` reads as; parse errors pass through |
| ZkLogin.UserIdIsSubject | frontend/src/lib/zklogin.ts:239-243 | a payload object with a string `sub` yields exactly that string |
| ZkLogin.CreateChallengeFromJwt | frontend/src/lib/zklogin.ts:86-96 | the challenge fails only on a `null` payload or on a claim that cannot be turned into text; the error is the `null` read of `iss` in the first case and "Cannot convert object to primitive value" in the second |
| ZkLogin.CreateUserId | frontend/src/lib/zklogin.ts:101-105 | the user id fails exactly when `iss` or `sub` cannot be read as text, so it succeeds whenever the challenge does |
| ZkLogin.ChallengeOfObjectPayload | frontend/src/lib/zklogin.ts:86-105 | for any object payload, whatever the claims' JSON types, the challenge is SHA-256 of the UTF-8 of the three claims' texts joined by `:` and the user id is SHA-256 of `iss` and `sub` joined by `:` |
| ZkLogin.ChallengeOfArrayAudience | frontend/src/lib/zklogin.ts:90 | an array audience enters the challenge as its strings joined by `,` |
| ZkLogin.ChallengeOfStringClaims | frontend/src/lib/zklogin.ts:86-105 | with string claims the challenge is SHA-256 of the UTF-8 of `iss:sub:aud` and the user id is SHA-256 of `iss:sub` |
| ZkLogin.DerivationDependsOnlyOnClaims | frontend/src/lib/zklogin.ts:86-105 | payloads whose `iss`, `sub` and `aud` read alike give the same challenge, user id and key material |
| ZkLogin.ChallengeIgnoresOtherClaims | frontend/src/lib/zklogin.ts:90 | adding, changing or removing any member other than the three claims changes neither the challenge nor the user id |
| ZkLogin.ChallengeOfEmptyPayload | frontend/src/lib/zklogin.ts:90 | missing claims enter the challenge as the text "undefined" |
| ZkLogin.ChallengeOfNullPayload | frontend/src/lib/zklogin.ts:90 | a `null` payload throws on reading `iss` |
| ZkLogin.NewClientRelyingParty | frontend/src/lib/zklogin.ts:30-38 | a client built with the default name registers credentials under the relying party "Nillion 2FA" with its id |
| ZkLogin.GetPasskeyAssertion | frontend/src/lib/zklogin.ts:130-151 | without `credentials.get` the step fails with "WebAuthn not supported" and makes no call; otherwise it makes one discovery-mode request for the challenge under the client's rpId, and succeeds exactly when that request resolves to a credential |
| ZkLogin.CreatePasskey | frontend/src/lib/zklogin.ts:156-212 | a creation request is made exactly when `credentials.create` exists and the user id can be computed; otherwise the outcome is "WebAuthn not supported" or the user id's own error. The request is EdDSA (-8), with a required resident key, user verification preferred, 60000 ms and no attestation. It carries the given challenge, the hashed `iss:sub` as handle and `sub` as both names, and its settlement is the outcome |
| ZkLogin.GetOrCreatePasskey | frontend/src/lib/zklogin.ts:110-125 | a successful assertion returns its signature and creates nothing; any assertion failure leads to one creation attempt whose result is the outcome; every call uses the same challenge |
| ZkLogin.ClaimBytes | frontend/src/lib/zklogin.ts:226-229 | a missing claim contributes no bytes; any other claim contributes the UTF-8 of the same text the challenge's template literal makes of it, and fails exactly when that conversion does; a string claim contributes its own UTF-8 |
| ZkLogin.KeyMaterial | frontend/src/lib/zklogin.ts:226-231 | the hashed bytes exist exactly when all three claims can be encoded, and are `iss`'s, `sub`'s and `aud`'s bytes in that order followed by the proof, with no separator: the lengths add up and each claim and the proof occupies its own slice |
| ZkLogin.KeyMaterialAfterChallenge | frontend/src/lib/zklogin.ts:217-231 | whenever the challenge can be computed, the key material can be too |
| ZkLogin.DeriveKey | frontend/src/lib/zklogin.ts:217-234 | the token is parsed again and its parse failure is "Failed to parse JWT"; the key exists exactly when the payload parses and its key material exists, is SHA-256 of that material, and always exists when the challenge of the same payload does |
| ZkLogin.DeriveKeyOfStringClaims | frontend/src/lib/zklogin.ts:217-234 | for an object payload with string claims the key is SHA-256 of the UTF-8 of `iss + sub + aud` followed by the proof |
| ZkLogin.KeyMaterialOfStringClaims | frontend/src/lib/zklogin.ts:217-234 | with string claims the key material is the UTF-8 of `iss + sub + aud` followed by the proof |
| ZkLogin.KeyIgnoresClaimBoundaries | frontend/src/lib/zklogin.ts:226-231 | moving text across the `iss`/`sub` boundary leaves the key material unchanged |
| ZkLogin.KeyMaterialOfEmptyPayload | frontend/src/lib/zklogin.ts:226-231 | with no claims the key material is the proof alone, whereas the challenge spells missing claims "undefined" |
| ZkLogin.ProcessJwtCookie | frontend/src/lib/zklogin.ts:43-55 | an unparsable token fails with "Failed to parse JWT" and a failed challenge with its own error, both before any authenticator call; otherwise the calls are exactly the passkey step's, a key is produced exactly when that step yields a proof (its error passing through otherwise), and the key is SHA-256 of the same payload's key material and that proof |
| ZkLogin.ProcessJwtCookieOfStringClaims | frontend/src/lib/zklogin.ts:43-55 | for a payload with string claims and an authenticator that answers the assertion, the pipeline succeeds after one assertion request for the payload's challenge, with the key SHA-256 of the claims' UTF-8 followed by the signature |
| ZkLogin.FirstAuthToken | frontend/src/lib/zklogin.ts:260-267 | the result is `null` exactly when no trimmed entry starts with `auth_token=`; otherwise it is the text after the prefix in the first entry that does |
| ZkLogin.GetJwtFromCookies | frontend/src/lib/zklogin.ts:253-268 | the cookie header yields `null` exactly when none of its `;`-separated entries is the auth cookie; a found token holds no `;` and is no longer than the header |
| ZkLogin.GetJwtFromCookiesOfEntries | frontend/src/lib/zklogin.ts:257-266 | a header joined from `;`-free entries is searched entry by entry, in order |
| ZkLogin.GetJwtFromSingleCookie | frontend/src/lib/zklogin.ts:257-266 | a lone `auth_token=v` cookie yields `v` when `v` has no `;` and no trailing whitespace |
| ZkLoginContext.Initialize | frontend/src/contexts/ZkLoginContext.tsx:51-80 | without a non-empty token the state is kept; with one it becomes exactly `{isAuthenticated: true, jwt, userId}`, or `{isAuthenticated: false, error}` with the thrown message; loading ends on every path |
| ZkLoginContext.InitializeFromStart | frontend/src/contexts/ZkLoginContext.tsx:44-80 | from the initial state, the session is authenticated exactly when the cookie holds a token whose payload parses to something other than `null` (reading `sub` off `null` throws), and then with that token and its `sub`; an unparsable token leaves the error "Failed to parse JWT"; no key is held |
| ZkLoginContext.HardwareInit | frontend/src/contexts/ZkLoginContext.tsx:85-110 | without a held token nothing changes; a failure to derive the key or its public key changes nothing; on success the five key fields are always written, whatever key was held before: the derived key is the newly produced one and the other four follow from it, and every other field keeps its value |
| ZkLoginContext.KeyBoundPreserved | frontend/src/contexts/ZkLoginContext.tsx:44-142 | `initialize`, `hardwareInit` and `logout` keep the key fields consistent: the private key is the derived key, the public key belongs to it, both hex forms match, and a token is held |
| ZkLoginContext.HardwareInitIdempotent | frontend/src/contexts/ZkLoginContext.tsx:85-110 | a second `hardwareInit` with an authenticator that answers the same way leaves the state as the first left it |
| ZkLoginContext.DelegationFor | frontend/src/contexts/ZkLoginContext.tsx:118-122 | the delegation has no policies, an audience of 33 bytes 0xbb, a subject of 33 bytes 0xcc, the command `nil db read` and `{name: data}` as meta |
| ZkLoginContext.BasicNuc | frontend/src/contexts/ZkLoginContext.tsx:113-135 | without a private key there is no envelope; otherwise an envelope is returned exactly when building with the private key, parsing and signature validation all succeed, and it is the parsed envelope |
| ZkLoginContext.Logout | frontend/src/contexts/ZkLoginContext.tsx:138-142 | logout navigates to `/api/auth/logout` and leaves the state as it was |
| ZkLoginContext.BasicNucAfterLogout | frontend/src/contexts/ZkLoginContext.tsx:113-142 | a delegation issued after logout, before the page unloads, is the same as one issued before it |

### Behaviour of the code worth knowing

- `logout()` does not reset the session or discard the key: it only navigates to the logout endpoint, so until the page unloads the key is still held and `basicNuc` still signs (`BasicNucAfterLogout`).
- Changing issuer, subject or audience does not always change the key. The code concatenates the claims without separators, so text moved across a claim boundary gives the same key (`KeyIgnoresClaimBoundaries`).
- A missing claim is not an error. The code never checks presence or type. A missing claim is spelled "undefined" in the challenge (`ChallengeOfEmptyPayload`) but contributes no bytes to the key material (`KeyMaterialOfEmptyPayload`).
- `deriveKey` parses the token a second time rather than reusing the claims. The model does the same, and the second parse always succeeds once the first has; after a successful challenge the key itself always exists (`DeriveKey`).

## Left out

- Asynchrony, React hooks, rendering and `console` logging are left out. Each operation is a total function from the state before to the state after.
- The `typeof window` / `typeof document` guards are left out: the model is the browser case. On the server the client singleton is `null`, and that path is not modelled.
- The constructor's default `rpId` (`window.location.hostname`) is left out. The rpId is a parameter of `ZkLogin.Client`.
- SHA-256, `JSON.parse`, number-to-text formatting, the WebAuthn authenticator, `@noble/secp256k1` and `@nillion/nuc` are parameters, not implementations. The properties hold for every behaviour of them. SHA-256 is only assumed to return 32 bytes.
- A stale closure is not modelled: `hardwareInit` reads the state it is given. React closures over an older `authState` are not captured.
- Lone UTF-16 surrogates cannot be represented. Dafny characters are Unicode scalar values, so text holding them is not modelled.
- The "Unknown error" branch of `initialize` is not modelled, because everything the modelled code throws is an `Error`.
- The browser's WebIDL conversion of `user.name`/`displayName` to strings is left out. The creation options carry the raw `sub` value.
- ZkLoginContext.BasicNuc: when building, parsing or validation throws, the model only records that no envelope is returned. The library's error values are not modelled.
