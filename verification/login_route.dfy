/** `POST /api/login`: the prototype credential check. The request body is
    the parsed JSON value, or `None` when it is not JSON; the reply is a
    status, an error message or `ok`, and the session cookie on success. */
module LoginRoute {
  import opened Seqs
  import opened Text
  import opened Js

  datatype Cookie = Cookie(name: string, value: string, path: string, httpOnly: bool, sameSite: string)

  datatype Reply = Reply(status: int, error: Option<string>, cookie: Option<Cookie>)

  /** The cookie the front end reads to decide that someone is logged in;
      it is readable from scripts. */
  const SessionCookie: Cookie := Cookie("session", "demo", "/", false, "lax")

  const Account: string := "klub"
  const Passcode: string := "1234"

  /** `String(body[primary] ?? body[fallback] ?? "").trim()`; `None` when
      it throws: the property read on a `null` body, or `String` on the
      field an object body supplies. A body that is neither an object nor
      nullish has no such fields and gives empty text. */
  function Credential(body: JsValue, primary: string, fallback: string): (r: Option<string>)
    ensures Nullish(body) ==> r.None?
    ensures body.Obj? ==> (r.None? <==> StringThrows(Supplied(body.fields, primary, fallback)))
    ensures !Nullish(body) && !body.Obj? ==> r == Some("")
    ensures r.Some? ==> IsTrimmed(r.value)
  {
    var a := Get(body, primary);
    var b := Get(body, fallback);
    if a.None? || b.None? then None
    else
      var v := Coalesce(Coalesce(a.value, b.value), Str(""));
      SuppliedOf(body, primary, fallback);
      if StringThrows(v) then None
      else
        TrimShorter("");
        Some(Trim(ToJsString(v)))
  }

  /** The value `body[primary] ?? body[fallback] ?? ""` reads from a body
      that is not nullish. */
  lemma SuppliedOf(body: JsValue, primary: string, fallback: string)
    requires !Nullish(body)
    ensures Coalesce(Coalesce(Get(body, primary).value, Get(body, fallback).value), Str("")) ==
      if body.Obj? then Supplied(body.fields, primary, fallback) else Str("")
  {
  }

  /** The credential field an object body supplies: the primary name unless
      it is absent or `null`, then the fallback name, then empty text. */
  function Supplied(fields: map<string, JsValue>, primary: string, fallback: string): JsValue {
    if primary in fields && !Nullish(fields[primary]) then fields[primary]
    else if fallback in fields && !Nullish(fields[fallback]) then fields[fallback]
    else Str("")
  }

  /** For an object body the credential is the trimmed text of the field it
      supplies. */
  lemma CredentialOfObject(fields: map<string, JsValue>, primary: string, fallback: string)
    ensures Credential(Obj(fields), primary, fallback) ==
      var v := Supplied(fields, primary, fallback);
      if StringThrows(v) then None else Some(Trim(ToJsString(v)))
  {
    var v := Coalesce(Coalesce(Get(Obj(fields), primary).value, Get(Obj(fields), fallback).value), Str(""));
    assert v == Supplied(fields, primary, fallback);
  }

  /** Whether the trimmed credentials match the prototype account, its name
      in any letter case. */
  predicate Matches(account: string, passcode: string) {
    ToLower(account) == Account && passcode == Passcode
  }

  /** The handler: 400 when reading the credentials throws (the body is not
      JSON or is `null`, or `String` of a supplied field throws), 401 when
      the credentials do not match, 200 with the session cookie otherwise. */
  function Login(body: Option<JsValue>): (r: Reply)
    ensures r.status in {200, 400, 401}
    ensures r.cookie.Some? <==> r.status == 200
    ensures r.cookie.Some? ==> r.cookie.value == SessionCookie
    ensures r.error.None? <==> r.status == 200
    ensures r.status == 400 <==>
      || body.None? || Nullish(body.value)
      || (body.value.Obj? && (StringThrows(Supplied(body.value.fields, "account", "username"))
                              || StringThrows(Supplied(body.value.fields, "passcode", "password"))))
    ensures r.status == 200 <==>
      && body.Some?
      && Credential(body.value, "account", "username").Some?
      && Credential(body.value, "passcode", "password").Some?
      && Matches(Credential(body.value, "account", "username").value,
                 Credential(body.value, "passcode", "password").value)
  {
    if body.None? then Reply(400, Some("Bad request"), None)
    else
      var account := Credential(body.value, "account", "username");
      var passcode := Credential(body.value, "passcode", "password");
      if account.None? || passcode.None? then Reply(400, Some("Bad request"), None)
      else if !Matches(account.value, passcode.value) then Reply(401, Some("Invalid credentials"), None)
      else Reply(200, None, Some(SessionCookie))
  }

  /** The status for a non-null body, given its two credentials. */
  lemma LoginOf(body: JsValue, account: string, passcode: string)
    requires Credential(body, "account", "username") == Some(account)
    requires Credential(body, "passcode", "password") == Some(passcode)
    ensures Login(Some(body)).status == if Matches(account, passcode) then 200 else 401
  {
  }

  /** An object body whose account text trims and lower-cases to the account
      name and whose passcode text trims to the passcode logs in, whatever
      else it holds. */
  lemma LoginAccepts(fields: map<string, JsValue>, account: string, passcode: string)
    requires "account" in fields && fields["account"] == Str(account)
    requires "passcode" in fields && fields["passcode"] == Str(passcode)
    requires ToLower(Trim(account)) == Account && Trim(passcode) == Passcode
    ensures Login(Some(Obj(fields))).status == 200
  {
    TextCredential(fields, "account", "username", account);
    TextCredential(fields, "passcode", "password", passcode);
    LoginOf(Obj(fields), Trim(account), Trim(passcode));
  }

  /** A text field under the newer name is the credential, trimmed. */
  lemma TextCredential(fields: map<string, JsValue>, primary: string, fallback: string, text: string)
    requires primary in fields && fields[primary] == Str(text)
    ensures Credential(Obj(fields), primary, fallback) == Some(Trim(text))
  {
    var v := Supplied(fields, primary, fallback);
    assert v == Str(text) && !StringThrows(v) && ToJsString(v) == text;
    CredentialOfObject(fields, primary, fallback);
  }

  /** The older field name is read when the newer one is absent or `null`;
      this is how `username` and `password` are accepted. */
  lemma Fallback(fields: map<string, JsValue>, primary: string, fallback: string)
    requires primary !in fields || Nullish(fields[primary])
    requires fallback in fields && !Nullish(fields[fallback])
    ensures Credential(Obj(fields), primary, fallback) ==
      if StringThrows(fields[fallback]) then None else Some(Trim(ToJsString(fields[fallback])))
  {
    CredentialOfObject(fields, primary, fallback);
  }

  /** `??` falls back only on `null` and `undefined`: an empty newer field
      hides the older one. */
  lemma EmptyPrimaryNoFallback(fields: map<string, JsValue>, primary: string, fallback: string)
    requires primary in fields && fields[primary] == Str("")
    ensures Credential(Obj(fields), primary, fallback) == Some("")
  {
    var v := Supplied(fields, primary, fallback);
    assert v == Str("") && !StringThrows(v) && ToJsString(v) == "";
    CredentialOfObject(fields, primary, fallback);
    TrimShorter("");
  }

  /** An empty `account` is refused even when `username` is right: 401,
      or 400 when reading the passcode throws. */
  lemma EmptyAccountRefused(fields: map<string, JsValue>)
    requires "account" in fields && fields["account"] == Str("")
    ensures Login(Some(Obj(fields))).status ==
      if StringThrows(Supplied(fields, "passcode", "password")) then 400 else 401
  {
    EmptyPrimaryNoFallback(fields, "account", "username");
    assert |ToLower("")| == 0 != |Account|;
    var pass := Credential(Obj(fields), "passcode", "password");
    if pass.Some? {
      LoginOf(Obj(fields), "", pass.value);
    }
  }

  /** A credential field holding an object with its own `toString` makes
      `String` throw, and the handler answers 400 even with the right
      passcode. */
  lemma ObjectAccountRefused(n: int)
    ensures Login(Some(Obj(map["account" := Obj(map["toString" := Num(n)]), "passcode" := Str(Passcode)]))).status == 400
  {
    var fields := map["account" := Obj(map["toString" := Num(n)]), "passcode" := Str(Passcode)];
    assert Supplied(fields, "account", "username") == Obj(map["toString" := Num(n)]);
  }

  /** A numeric passcode is read through `String(n)`: exactly the number
      1234 matches. */
  lemma NumericPasscode(n: int)
    ensures Trim(ToJsString(Num(n))) == Passcode <==> n == 1234
  {
    var t := IntToString(n);
    if n < 0 {
      assert t[0] == '-' && t[|t| - 1] == NatToString(-n)[|NatToString(-n)| - 1];
    }
    assert IsTrimmed(t);
    TrimOfTrimmed(t);
    PasscodeText();
    if t == Passcode {
      IntToStringInjective(n, 1234);
    }
  }

  lemma PasscodeText()
    ensures IntToString(1234) == Passcode
  {
    assert NatToString(1) == ['1'];
    assert NatToString(12) == ['1', '2'];
    assert NatToString(123) == ['1', '2', '3'];
    assert NatToString(1234) == ['1', '2', '3', '4'];
  }
}
