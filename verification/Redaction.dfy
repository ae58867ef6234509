/** Redaction of sensitive fields in logged JSON bodies. */
module Redaction {
  import opened Common

  datatype Json =
    | Null
    | Bool(b: bool)
    | Number(text: string)
    | Str(s: string)
    | Arr(items: seq<Json>)
    | Obj(fields: map<string, Json>)

  const MARKER: Json := Str("[REDACTED]")

  const PASSWORD_FIELDS: set<string> := {
    "password", "password_confirmation", "passwd", "pwd", "token", "access_token", "refresh_token", "bearer",
    "authorization", "auth_token", "session_token"}
  const KEY_FIELDS: set<string> := {
    "api_key", "api_secret", "secret", "client_secret", "private_key", "private_secret", "signing_key", "hmac_key"}
  const FINANCIAL_FIELDS: set<string> := {
    "credit_card", "creditcard", "card_number", "cvv", "cvc", "ssn", "social_security", "tin", "ein",
    "bank_account", "routing_number", "account_number"}
  const PERSONAL_FIELDS: set<string> := {
    "email", "phone", "phone_number", "mobile", "dob", "date_of_birth", "birthdate", "drivers_license",
    "passport", "identity_number"}
  const OAUTH_FIELDS: set<string> := {
    "oauth_token", "jwt", "jti", "nonce", "signature", "signed_request", "webhook_secret"}

  const SENSITIVE_FIELDS: set<string> :=
    PASSWORD_FIELDS + KEY_FIELDS + FINANCIAL_FIELDS + PERSONAL_FIELDS + OAUTH_FIELDS

  /** The reference: every field of an object, recursively through objects only. */
  function Redact(sensitive: string -> bool, v: Json): Json {
    match v
    case Obj(fields) => Obj(map k | k in fields :: if sensitive(k) then MARKER else Redact(sensitive, fields[k]))
    case _ => v
  }

  lemma FieldwiseRedacted(sensitive: string -> bool, before: map<string, Json>, after: map<string, Json>)
    requires after.Keys == before.Keys
    requires forall k :: k in before ==>
      after[k] == if sensitive(k) then MARKER else Redact(sensitive, before[k])
    ensures Obj(after) == Redact(sensitive, Obj(before))
  {
    assert Redact(sensitive, Obj(before)).fields == after;
  }

  /** The in-place key loop. */
  method RedactMap(sensitive: string -> bool, map0: map<string, Json>) returns (m: map<string, Json>)
    ensures Obj(m) == Redact(sensitive, Obj(map0))
    decreases Obj(map0)
  {
    m := map0;
    var todo := map0.Keys;
    while todo != {}
      invariant todo <= map0.Keys == m.Keys
      invariant forall k :: k in todo ==> m[k] == map0[k]
      invariant forall k :: k in map0 && k !in todo ==>
        m[k] == if sensitive(k) then MARKER else Redact(sensitive, map0[k])
      decreases |todo|
    {
      var key :| key in todo;
      todo := todo - {key};
      if sensitive(key) {
        m := m[key := MARKER];
      } else if m[key].Obj? {
        var nested := RedactMap(sensitive, m[key].fields);
        m := m[key := Obj(nested)];
      }
    }
    FieldwiseRedacted(sensitive, map0, m);
  }

  function Lookup(v: Json, path: seq<string>): Option<Json> {
    if path == [] then Some(v)
    else if v.Obj? && path[0] in v.fields then Lookup(v.fields[path[0]], path[1..])
    else None
  }

  ghost predicate Harmless(sensitive: string -> bool, path: seq<string>) {
    forall i :: 0 <= i < |path| ==> !sensitive(path[i])
  }

  /** Along harmless keys the same values are found, with their own contents redacted. */
  lemma {:induction false} HarmlessPathKept(sensitive: string -> bool, v: Json, path: seq<string>)
    requires Harmless(sensitive, path)
    ensures Lookup(Redact(sensitive, v), path)
            == if Lookup(v, path).Some? then Some(Redact(sensitive, Lookup(v, path).value)) else None
    decreases |path|
  {
    if path != [] && v.Obj? && path[0] in v.fields {
      HarmlessPathKept(sensitive, v.fields[path[0]], path[1..]);
    }
  }

  /** A sensitive key reached through harmless ones holds the marker, and nothing is left below it. */
  lemma {:induction false} SensitiveKeyMasked(sensitive: string -> bool, v: Json, path: seq<string>, key: string,
                                              below: seq<string>)
    requires Harmless(sensitive, path) && sensitive(key)
    ensures Lookup(Redact(sensitive, v), path + [key])
            == if Lookup(v, path + [key]).Some? then Some(Str("[REDACTED]")) else None
    ensures below != [] ==> Lookup(Redact(sensitive, v), path + [key] + below).None?
    decreases |path|
  {
    var whole := path + [key];
    if path == [] {
      assert whole[0] == key && whole[1..] == [] && (whole + below)[1..] == below;
    } else {
      assert whole[1..] == path[1..] + [key];
      assert (whole + below)[0] == path[0] && (whole + below)[1..] == path[1..] + [key] + below;
      if v.Obj? && path[0] in v.fields {
        SensitiveKeyMasked(sensitive, v.fields[path[0]], path[1..], key, below);
      }
    }
  }

  /** Redacting twice equals redacting once. */
  lemma {:induction false} RedactIdempotent(sensitive: string -> bool, v: Json)
    ensures Redact(sensitive, Redact(sensitive, v)) == Redact(sensitive, v)
  {
    if v.Obj? {
      forall k | k in v.fields && !sensitive(k)
        ensures Redact(sensitive, Redact(sensitive, v.fields[k])) == Redact(sensitive, v.fields[k])
      {
        RedactIdempotent(sensitive, v.fields[k]);
      }
    }
  }

  /** No sensitive key anywhere, inside arrays too, holds anything but the marker. */
  ghost predicate Clean(sensitive: string -> bool, v: Json) {
    match v
    case Obj(fields) => forall k :: k in fields ==> (sensitive(k) ==> fields[k] == MARKER) && Clean(sensitive, fields[k])
    case Arr(items) => forall i :: 0 <= i < |items| ==> Clean(sensitive, items[i])
    case _ => true
  }

  /** Every array met on the way down through harmless object keys is already clean. */
  ghost predicate ArraysClean(sensitive: string -> bool, v: Json) {
    match v
    case Obj(fields) => forall k :: k in fields && !sensitive(k) ==> ArraysClean(sensitive, fields[k])
    case Arr(_) => Clean(sensitive, v)
    case _ => true
  }

  /** Redaction does not enter arrays: nothing leaks exactly when the arrays hold no secrets. */
  lemma {:induction false} RedactedCleanIff(sensitive: string -> bool, v: Json)
    ensures Clean(sensitive, Redact(sensitive, v)) <==> ArraysClean(sensitive, v)
  {
    if v.Obj? {
      var r := Redact(sensitive, v);
      forall k | k in v.fields && !sensitive(k)
        ensures Clean(sensitive, r.fields[k]) <==> ArraysClean(sensitive, v.fields[k])
      {
        RedactedCleanIff(sensitive, v.fields[k]);
      }
      assert r.fields.Keys == v.fields.Keys;
    }
  }

  /** The service's choice of sensitive keys, given the lower-casing of the standard library. */
  predicate ServiceSensitive(lower: string -> string, key: string) {
    exists field :: field in SENSITIVE_FIELDS && Contains(lower(key), field)
  }

  /** A key is sensitive exactly when a listed field stands anywhere in its lower-cased text. */
  lemma SensitiveIff(lower: string -> string, key: string)
    ensures ServiceSensitive(lower, key) <==>
            exists field, before, after :: field in SENSITIVE_FIELDS && lower(key) == before + field + after
  {
    forall field
      ensures Contains(lower(key), field) <==> exists before, after :: lower(key) == before + field + after
    {
      ContainsIff(lower(key), field);
    }
  }

  lemma FieldNamesAreLong(field: string)
    requires field in SENSITIVE_FIELDS
    ensures |field| > 1
  {
    assert field in PASSWORD_FIELDS ==> |field| > 1;
    assert field in KEY_FIELDS ==> |field| > 1;
    assert field in FINANCIAL_FIELDS ==> |field| > 1;
    assert field in PERSONAL_FIELDS ==> |field| > 1;
    assert field in OAUTH_FIELDS ==> |field| > 1;
  }

  lemma ServiceKeys(lower: string -> string)
    requires lower("x") == "x" && lower("password") == "password"
    ensures ServiceSensitive(lower, "password") && !ServiceSensitive(lower, "x")
  {
    assert "password" in SENSITIVE_FIELDS && OccursAt("password", "password", 0);
    forall field | field in SENSITIVE_FIELDS
      ensures !Contains("x", field)
    {
      FieldNamesAreLong(field);
    }
  }

  /** The shortest leak: a password in an object in an array survives. */
  lemma ArraySecretSurvives(sensitive: string -> bool, secret: string)
    requires sensitive("password") && !sensitive("x") && Str(secret) != MARKER
    ensures var body := Obj(map["x" := Arr([Obj(map["password" := Str(secret)])])]);
            Redact(sensitive, body) == body && !Clean(sensitive, Redact(sensitive, body))
  {
    var inner := Obj(map["password" := Str(secret)]);
    var body := Obj(map["x" := Arr([inner])]);
    assert "password" in inner.fields && !Clean(sensitive, inner);
    assert Arr([inner]).items[0] == inner;
    assert "x" in body.fields && body.fields["x"] == Arr([inner]);
    assert Redact(sensitive, body).fields == body.fields;
  }

  /** The leak in the service, with its own list of fields. */
  lemma ServiceLeaksFromArrays(lower: string -> string, secret: string)
    requires lower("x") == "x" && lower("password") == "password" && Str(secret) != MARKER
    ensures var sensitive := (key: string) => ServiceSensitive(lower, key);
            var body := Obj(map["x" := Arr([Obj(map["password" := Str(secret)])])]);
            Redact(sensitive, body) == body && !Clean(sensitive, Redact(sensitive, body))
  {
    ServiceKeys(lower);
    ArraySecretSurvives((key: string) => ServiceSensitive(lower, key), secret);
  }

  /**
   A body that parses as an object is redacted and printed again; any other body,
   and one that cannot be printed, is logged as it is.
   */
  method RedactSensitive(lower: string -> string, parse: string -> Option<Json>,
                         render: Json -> Option<string>, body: string)
    returns (text: string)
    ensures parse(body).None? || !parse(body).value.Obj? ==> text == body
    ensures parse(body).Some? && parse(body).value.Obj? ==>
              text == render(Redact((key: string) => ServiceSensitive(lower, key), parse(body).value)).GetOr(body)
  {
    var parsed := parse(body);
    if parsed.Some? && parsed.value.Obj? {
      var m := RedactMap((key: string) => ServiceSensitive(lower, key), parsed.value.fields);
      assert Obj(parsed.value.fields) == parsed.value;
      return render(Obj(m)).GetOr(body);
    }
    return body;
  }
}
