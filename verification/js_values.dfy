/** The JavaScript values the client handles after `JSON.parse`: the parsed
    payload, what reading `iss`, `sub` or `aud` off it yields (no claim is
    checked for presence or type), how such a value becomes a string, and
    the errors thrown along the way. */
module JsValues {
  import opened Wrappers
  import JsStrings

  /** A value `JSON.parse` can return. A number is kept as the bit pattern
      of its IEEE-754 double; its formatting is left to the caller. */
  datatype Json =
    | JNull
    | JBool(b: bool)
    | JNumber(bits: bv64)
    | JString(s: string)
    | JArray(items: seq<Json>)
    | JObject(members: map<string, Json>)

  /** The result of a property read: a JSON value, `undefined`, or a
      built-in method inherited from a prototype. */
  datatype JsValue =
    | Undefined
    | Value(json: Json)
    | NativeMethod(name: string)

  /** The three claims the client reads. */
  datatype Claim = Iss | Sub | Aud

  function ClaimName(c: Claim): string
  {
    match c
    case Iss => "iss"
    case Sub => "sub"
    case Aud => "aud"
  }

  /** Everything the modelled code can throw. */
  datatype JsError =
    | JwtParseFailed                      // Error("Failed to parse JWT")
    | NullPropertyRead(property: string)  // TypeError: reading a property of null
    | NoPrimitiveValue                    // TypeError: Cannot convert object to primitive value
    | WebAuthnUnsupported                 // Error("WebAuthn not supported in this environment")
    | AuthenticatorFailed(message: string) // the rejection of a WebAuthn call
    | PublicKeyFailed(message: string)     // secp256k1 rejecting a private key

  /** `error.message` of each error (TypeError texts as V8 words them). */
  function Message(e: JsError): string
  {
    match e
    case JwtParseFailed => "Failed to parse JWT"
    case NullPropertyRead(p) => "Cannot read properties of null (reading '" + p + "')"
    case NoPrimitiveValue => "Cannot convert object to primitive value"
    case WebAuthnUnsupported => "WebAuthn not supported in this environment"
    case AuthenticatorFailed(m) => m
    case PublicKeyFailed(m) => m
  }

  /** `payload.iss`, `payload.sub` or `payload.aud`. Only `null` makes the
      read throw; a missing member reads as `undefined`, and on a string
      `sub` is the inherited `String.prototype.sub`. */
  function GetClaim(payload: Json, c: Claim): (r: Result<JsValue, JsError>)
    ensures r.Failure? <==> payload.JNull?
    ensures r.Failure? ==> r.error == NullPropertyRead(ClaimName(c))
    ensures payload.JObject? ==>
              r == Success(if ClaimName(c) in payload.members
                           then Value(payload.members[ClaimName(c)]) else Undefined)
    ensures r.Success? && r.value.NativeMethod? ==> payload.JString? && c == Sub
    ensures !payload.JNull? && !payload.JObject? ==>
              r == Success(if payload.JString? && c == Sub then NativeMethod("sub") else Undefined)
  {
    match payload
    case JNull => Failure(NullPropertyRead(ClaimName(c)))
    case JObject(m) => Success(if ClaimName(c) in m then Value(m[ClaimName(c)]) else Undefined)
    case JString(_) => Success(if c == Sub then NativeMethod("sub") else Undefined)
    case _ => Success(Undefined)
  }

  /** Whether converting `j` to a string meets an object whose own
      `toString` member (never callable in JSON) hides the inherited one. */
  predicate HasOwnToString(j: Json)
  {
    match j
    case JObject(m) => "toString" in m
    case JArray(items) => exists i :: 0 <= i < |items| && HasOwnToString(items[i])
    case _ => false
  }

  /** `String(v)`, as a template literal applies it. A number is formatted
      by `numberToString`; an object with an own `toString` member throws. */
  function ToJsString(numberToString: bv64 -> string, v: JsValue): (r: Result<string, JsError>)
    ensures r.Failure? <==> v.Value? && HasOwnToString(v.json)
    ensures r.Failure? ==> r.error == NoPrimitiveValue
    ensures v.Undefined? ==> r == Success("undefined")
    ensures v.NativeMethod? ==> r == Success("function " + v.name + "() { [native code] }")
    ensures v.Value? ==> r == JsonToString(numberToString, v.json)
  {
    match v
    case Undefined => Success("undefined")
    case NativeMethod(n) => Success("function " + n + "() { [native code] }")
    case Value(j) => JsonToString(numberToString, j)
  }

  function JsonToString(numberToString: bv64 -> string, j: Json): (r: Result<string, JsError>)
    ensures r.Failure? <==> HasOwnToString(j)
    ensures r.Failure? ==> r.error == NoPrimitiveValue
    ensures j.JNull? ==> r == Success("null")
    ensures j.JBool? ==> r == Success(if j.b then "true" else "false")
    ensures j.JNumber? ==> r == Success(numberToString(j.bits))
    ensures j.JString? ==> r == Success(j.s)
    ensures j.JObject? && "toString" !in j.members ==> r == Success("[object Object]")
    ensures j.JArray? && |j.items| == 0 ==> r == Success("")
    decreases j, 1, 0
  {
    match j
    case JNull => Success("null")
    case JBool(b) => Success(if b then "true" else "false")
    case JNumber(x) => Success(numberToString(x))
    case JString(s) => Success(s)
    case JObject(m) => if "toString" in m then Failure(NoPrimitiveValue) else Success("[object Object]")
    case JArray(items) => JoinFrom(numberToString, j, 0)
  }

  /** `Array.prototype.join` from element `i` on: elements joined by `,`,
      with `null` written as the empty string. */
  function JoinFrom(numberToString: bv64 -> string, j: Json, i: nat): (r: Result<string, JsError>)
    requires j.JArray? && i <= |j.items|
    ensures r.Failure? <==> exists k :: i <= k < |j.items| && HasOwnToString(j.items[k])
    ensures r.Failure? ==> r.error == NoPrimitiveValue
    decreases j, 0, |j.items| - i
  {
    if i == |j.items| then Success("")
    else
      var item := j.items[i];
      var first :- if item.JNull? then Success("") else JsonToString(numberToString, item);
      if i + 1 == |j.items| then Success(first)
      else
        var rest :- JoinFrom(numberToString, j, i + 1);
        Success(first + "," + rest)
  }

  /** The text an array element contributes to a join: `null` is written
      as the empty string. */
  function ElementText(numberToString: bv64 -> string, item: Json): Result<string, JsError>
  {
    if item.JNull? then Success("") else JsonToString(numberToString, item)
  }

  /** A non-empty array whose elements convert to `ts` converts to `ts`
      joined by `,`. */
  lemma ArrayText(numberToString: bv64 -> string, items: seq<Json>, ts: seq<string>)
    requires |items| >= 1 && |ts| == |items|
    requires forall k :: 0 <= k < |items| ==> ElementText(numberToString, items[k]) == Success(ts[k])
    ensures JsonToString(numberToString, JArray(items)) == Success(JsStrings.Join(ts, ','))
  {
    JoinFromIsJoin(numberToString, JArray(items), 0, ts);
    assert ts[0..] == ts;
  }

  lemma {:induction false} JoinFromIsJoin(numberToString: bv64 -> string, j: Json, i: nat, ts: seq<string>)
    requires j.JArray? && i < |j.items| && |ts| == |j.items|
    requires forall k :: i <= k < |j.items| ==> ElementText(numberToString, j.items[k]) == Success(ts[k])
    ensures JoinFrom(numberToString, j, i) == Success(JsStrings.Join(ts[i..], ','))
    decreases |j.items| - i
  {
    assert ElementText(numberToString, j.items[i]) == Success(ts[i]);
    if i + 1 == |j.items| {
      assert ts[i..] == [ts[i]];
    } else {
      JoinFromIsJoin(numberToString, j, i + 1, ts);
      assert ts[i..][1..] == ts[i + 1..];
    }
  }

  /** An array of strings converts to the strings joined by `,`, as an
      array `aud` claim enters the challenge. */
  lemma ArrayOfStringsText(numberToString: bv64 -> string, ss: seq<string>)
    requires |ss| >= 1
    ensures JsonToString(numberToString, JArray(seq(|ss|, i requires 0 <= i < |ss| => JString(ss[i]))))
            == Success(JsStrings.Join(ss, ','))
  {
    var items := seq(|ss|, i requires 0 <= i < |ss| => JString(ss[i]));
    ArrayText(numberToString, items, ss);
  }
}
