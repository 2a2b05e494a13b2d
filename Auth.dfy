/**
 * backend/app/utils/auth.py: lazy Firebase Admin initialisation and the
 * bearer-token dependency. The environment is a map; the Firebase SDK is
 * reduced to what the code observes of it: whether an app already exists,
 * which files exist, whether Application Default Credentials fail, whether
 * `initialize_app` fails, and what `verify_id_token` makes of a token.
 */
module Auth {
  import opened Wrappers
  import opened Text
  import opened Http

  type Env = map<string, string>

  /** `os.getenv(key)`. */
  function Getenv(env: Env, key: string): (r: Option<string>)
    ensures r.Some? <==> key in env
  {
    if key in env then Some(env[key]) else None
  }

  function LowerChar(c: char): (l: char)
    ensures 'A' <= c <= 'Z' ==> l as int == c as int + 32
    ensures !('A' <= c <= 'Z') ==> l == c
  {
    if 'A' <= c <= 'Z' then (c as int + 32) as char else c
  }

  /** `str.lower()` on the letters A to Z. */
  function Lower(s: string): (r: string)
    ensures |r| == |s|
    ensures forall i :: 0 <= i < |s| ==> r[i] == LowerChar(s[i])
  {
    if |s| == 0 then "" else [LowerChar(s[0])] + Lower(s[1..])
  }

  const DISABLE_FLAG: string := "DISABLE_FIREBASE_AUTH"
  const CREDENTIALS_VAR: string := "GOOGLE_APPLICATION_CREDENTIALS"
  const FAKE_USER_VAR: string := "DEV_FAKE_USER_EMAIL"
  const DEFAULT_FAKE_USER: string := "dev@example.com"

  /** `os.getenv("DISABLE_FIREBASE_AUTH", "false").lower() == "true"`. */
  predicate AuthDisabled(env: Env)
    ensures DISABLE_FLAG !in env ==> !AuthDisabled(env)
  {
    Lower(Getenv(env, DISABLE_FLAG).GetOr("false")) == "true"
  }

  predicate SameLetter(c: char, lower: char)
  {
    c == lower || c as int == lower as int - 32
  }

  /** The flag disables authentication exactly when it spells "true" in any mix of cases. */
  lemma DisabledIff(env: Env)
    ensures AuthDisabled(env) <==>
      var f := Getenv(env, DISABLE_FLAG).GetOr("false");
      |f| == 4 && SameLetter(f[0], 't') && SameLetter(f[1], 'r') && SameLetter(f[2], 'u') && SameLetter(f[3], 'e')
  {
    var f := Getenv(env, DISABLE_FLAG).GetOr("false");
    if |f| == 4 {
      assert Lower(f) == [LowerChar(f[0]), LowerChar(f[1]), LowerChar(f[2]), LowerChar(f[3])];
    }
  }

  /** What initialising the Admin SDK meets. */
  datatype Firebase = Firebase(
    appsInitialized: bool,
    existingFiles: set<string>,
    adcError: Option<string>,
    initializeError: Option<string>)

  const KEY_FILE_MISSING: string := "Service account key file not found: "
  const INIT_FAILED: string := "Firebase Admin SDK initialization failed: "

  /** The message of the exception the setup block raises, or `None` when it completes. */
  function InitError(env: Env, fb: Firebase): (r: Option<string>)
    ensures fb.appsInitialized ==> r.None?
    ensures !fb.appsInitialized && CREDENTIALS_VAR in env && env[CREDENTIALS_VAR] != "" ==>
              r == if env[CREDENTIALS_VAR] in fb.existingFiles then fb.initializeError
                   else Some(KEY_FILE_MISSING + env[CREDENTIALS_VAR])
    ensures !fb.appsInitialized && !(CREDENTIALS_VAR in env && env[CREDENTIALS_VAR] != "") ==>
              r == if fb.adcError.Some? then fb.adcError else fb.initializeError
  {
    if fb.appsInitialized then None
    else
      var path := Getenv(env, CREDENTIALS_VAR);
      if path.Some? && path.value != "" then
        if path.value in fb.existingFiles then fb.initializeError
        else Some(KEY_FILE_MISSING + path.value)
      else if fb.adcError.Some? then fb.adcError
      else fb.initializeError
  }

  /** `_ensure_initialized()`: the error it raises and the new value of `_initialized`. */
  function EnsureInitializedSpec(initialized: bool, env: Env, fb: Firebase): (r: (Option<HttpError>, bool))
    ensures r.0.None? <==> r.1
    ensures initialized || AuthDisabled(env) ==> r == (None, true)
    ensures r.0.Some? ==> r.0.value.status == 500 && StartsWith(r.0.value.detail, INIT_FAILED)
    ensures r.0.Some? <==> !initialized && !AuthDisabled(env) && InitError(env, fb).Some?
  {
    if initialized then (None, true)
    else if AuthDisabled(env) then (None, true)
    else
      match InitError(env, fb)
      case None => (None, true)
      case Some(message) => (Some(HttpError(500, INIT_FAILED + message)), false)
  }

  /** Initialisation happens at most once: after it succeeds, later calls do nothing. */
  lemma InitializeOnce(initialized: bool, env: Env, fb: Firebase, env': Env, fb': Firebase)
    requires EnsureInitializedSpec(initialized, env, fb).0.None?
    ensures EnsureInitializedSpec(EnsureInitializedSpec(initialized, env, fb).1, env', fb') == (None, true)
  {
  }

  /** `authorization.split(" ", 1)`. */
  function SplitOnce(s: string, sep: char): (parts: seq<string>)
    ensures 1 <= |parts| <= 2
    ensures |parts| == 1 <==> sep !in s
    ensures |parts| == 1 ==> parts[0] == s
    ensures |parts| == 2 ==> parts[0] + [sep] + parts[1] == s && sep !in parts[0]
    decreases |s|
  {
    if |s| == 0 then [""]
    else if s[0] == sep then ["", s[1..]]
    else
      var rest := SplitOnce(s[1..], sep);
      [[s[0]] + rest[0]] + rest[1..]
  }

  /** The split happens at the first separator. */
  lemma {:induction false} SplitOnceAround(a: string, b: string, sep: char)
    requires sep !in a
    ensures SplitOnce(a + [sep] + b, sep) == [a, b]
    decreases |a|
  {
    if |a| == 0 {
      assert a + [sep] + b == [sep] + b;
      assert ([sep] + b)[1..] == b;
    } else {
      var s := a + [sep] + b;
      assert s[0] == a[0] && s[1..] == a[1..] + [sep] + b;
      SplitOnceAround(a[1..], b, sep);
      var rest := SplitOnce(s[1..], sep);
      assert rest == [a[1..], b];
      assert SplitOnce(s, sep) == [[s[0]] + rest[0]] + rest[1..];
      assert [a[0]] + a[1..] == a;
    }
  }

  const BEARER: string := "Bearer "

  /** After the `Bearer ` check, the token is everything after those seven characters. */
  lemma BearerSplit(authorization: string)
    requires StartsWith(authorization, BEARER)
    ensures SplitOnce(authorization, ' ') == ["Bearer", authorization[7..]]
  {
    assert authorization == "Bearer" + [' '] + authorization[7..];
    SplitOnceAround("Bearer", authorization[7..], ' ');
  }

  const MISSING_HEADER: string := "Missing Authorization header. Expected format: 'Bearer <firebase_id_token>'"
  const BAD_HEADER: string := "Invalid Authorization header format. Expected: 'Bearer <firebase_id_token>'"
  const EMPTY_TOKEN: string := "Empty token"
  const MISSING_EMAIL: string := "Token is valid but missing email. Ensure email is verified in Firebase."
  const EXPIRED: string := "Token has expired. Please sign in again."
  const REVOKED: string := "Token has been revoked. Please sign in again."
  const INVALID: string := "Invalid token format or signature."
  const VERIFICATION_FAILED: string := "Token verification failed."

  /** The token in the header, or the 401 that rejects the header. */
  function HeaderToken(authorization: Option<string>): (r: Outcome<string>)
    ensures r.Return? <==> authorization.Some? && StartsWith(authorization.value, BEARER) && |authorization.value| > 7
    ensures r.Return? ==> authorization.value == BEARER + r.value && r.value != ""
    ensures r.Raise? ==> r.error.status == 401
    ensures authorization.None? || authorization == Some("") ==> r == Raise(HttpError(401, MISSING_HEADER))
    ensures authorization.Some? && authorization.value != "" && !StartsWith(authorization.value, BEARER) ==>
              r == Raise(HttpError(401, BAD_HEADER))
    ensures authorization == Some(BEARER) ==> r == Raise(HttpError(401, EMPTY_TOKEN))
    ensures r != Crash
  {
    if authorization.None? || authorization.value == "" then Raise(HttpError(401, MISSING_HEADER))
    else if !StartsWith(authorization.value, BEARER) then Raise(HttpError(401, BAD_HEADER))
    else
      BearerSplit(authorization.value);
      var token := SplitOnce(authorization.value, ' ')[1];
      if token == "" then Raise(HttpError(401, EMPTY_TOKEN)) else Return(token)
  }

  /** What `fb_auth.verify_id_token(token)` does: the decoded token's `email` claim, or the error it raises. */
  datatype Verified = Decoded(email: Option<string>) | Expired | Revoked | InvalidToken | OtherError

  /**
   * The `try` block as written: the 401 for a token without an email is
   * raised inside the `try`, so the final `except Exception` replaces it.
   */
  function CheckTokenAsWritten(v: Verified): (r: Outcome<string>)
    ensures r.Return? <==> v.Decoded? && v.email.Some? && v.email.value != ""
    ensures r.Return? ==> r.value == v.email.value
    ensures r.Raise? ==> r.error.status == 401
  {
    match v
    case Decoded(email) =>
      if email.None? || email.value == "" then Raise(HttpError(401, VERIFICATION_FAILED))
      else Return(email.value)
    case Expired => Raise(HttpError(401, EXPIRED))
    case Revoked => Raise(HttpError(401, REVOKED))
    case InvalidToken => Raise(HttpError(401, INVALID))
    case OtherError => Raise(HttpError(401, VERIFICATION_FAILED))
  }

  /** The message written for a token without an email never reaches the client. */
  lemma MissingEmailDetailLost(v: Verified)
    ensures CheckTokenAsWritten(v) != Raise(HttpError(401, MISSING_EMAIL))
    ensures CheckTokenAsWritten(Decoded(None)) == Raise(HttpError(401, VERIFICATION_FAILED))
  {
  }

  /** The `try` block with the missing-email 401 let through, as its message intends. */
  function CheckToken(v: Verified): (r: Outcome<string>)
    ensures r.Return? <==> v.Decoded? && v.email.Some? && v.email.value != ""
    ensures r.Return? ==> r.value == v.email.value
    ensures r.Raise? ==> r.error.status == 401
    ensures r == Raise(HttpError(401, MISSING_EMAIL)) <==> v.Decoded? && (v.email.None? || v.email == Some(""))
    ensures r == Raise(HttpError(401, VERIFICATION_FAILED)) <==> v.OtherError?
    ensures !(v.Decoded? && (v.email.None? || v.email == Some(""))) ==> r == CheckTokenAsWritten(v)
  {
    match v
    case Decoded(email) =>
      if email.None? || email.value == "" then Raise(HttpError(401, MISSING_EMAIL))
      else Return(email.value)
    case Expired => Raise(HttpError(401, EXPIRED))
    case Revoked => Raise(HttpError(401, REVOKED))
    case InvalidToken => Raise(HttpError(401, INVALID))
    case OtherError => Raise(HttpError(401, VERIFICATION_FAILED))
  }

  /** `verify_bearer_token(authorization)` as written: the outcome and the new value of `_initialized`. */
  function VerifyBearerSpec(initialized: bool, env: Env, fb: Firebase, authorization: Option<string>,
                            verify: string -> Verified): (r: (Outcome<string>, bool))
    ensures r.1 == EnsureInitializedSpec(initialized, env, fb).1
    ensures !AuthDisabled(env) && EnsureInitializedSpec(initialized, env, fb).0.None? ==>
              r.0 == match HeaderToken(authorization)
                     case Return(token) => CheckTokenAsWritten(verify(token))
                     case _ => HeaderToken(authorization)
  {
    var (err, initialized') := EnsureInitializedSpec(initialized, env, fb);
    if err.Some? then (Raise(err.value), initialized')
    else if AuthDisabled(env) then (Return(Getenv(env, FAKE_USER_VAR).GetOr(DEFAULT_FAKE_USER)), initialized')
    else
      match HeaderToken(authorization)
      case Return(token) => (CheckTokenAsWritten(verify(token)), initialized')
      case Raise(e) => (Raise(e), initialized')
      case Crash => (Crash, initialized')
  }

  /** `verify_bearer_token(authorization)` with the token check that lets the missing-email 401 through. */
  function VerifyBearerSpecIntended(initialized: bool, env: Env, fb: Firebase, authorization: Option<string>,
                                    verify: string -> Verified): (r: (Outcome<string>, bool))
    ensures r.1 == EnsureInitializedSpec(initialized, env, fb).1
    ensures !AuthDisabled(env) && EnsureInitializedSpec(initialized, env, fb).0.None? ==>
              r.0 == match HeaderToken(authorization)
                     case Return(token) => CheckToken(verify(token))
                     case _ => HeaderToken(authorization)
  {
    var (err, initialized') := EnsureInitializedSpec(initialized, env, fb);
    if err.Some? then (Raise(err.value), initialized')
    else if AuthDisabled(env) then (Return(Getenv(env, FAKE_USER_VAR).GetOr(DEFAULT_FAKE_USER)), initialized')
    else
      match HeaderToken(authorization)
      case Return(token) => (CheckToken(verify(token)), initialized')
      case Raise(e) => (Raise(e), initialized')
      case Crash => (Crash, initialized')
  }

  /**
   * The two differ only for a well-formed header whose token decodes without
   * an email: as written that request gets the generic 401, as intended the
   * missing-email 401.
   */
  lemma IntendedDiffersOnlyOnMissingEmail(initialized: bool, env: Env, fb: Firebase, authorization: Option<string>,
                                          verify: string -> Verified)
    ensures VerifyBearerSpec(initialized, env, fb, authorization, verify) !=
            VerifyBearerSpecIntended(initialized, env, fb, authorization, verify) <==>
      !AuthDisabled(env) && EnsureInitializedSpec(initialized, env, fb).0.None? &&
      HeaderToken(authorization).Return? &&
      var v := verify(HeaderToken(authorization).value);
      v.Decoded? && (v.email.None? || v.email == Some(""))
    ensures VerifyBearerSpec(initialized, env, fb, authorization, verify) !=
            VerifyBearerSpecIntended(initialized, env, fb, authorization, verify) ==>
      VerifyBearerSpec(initialized, env, fb, authorization, verify).0 == Raise(HttpError(401, VERIFICATION_FAILED)) &&
      VerifyBearerSpecIntended(initialized, env, fb, authorization, verify).0 == Raise(HttpError(401, MISSING_EMAIL))
  {
  }

  /** Every rejection is a 401, except a failed initialisation, which is a 500; nothing else escapes. */
  lemma RejectionStatus(initialized: bool, env: Env, fb: Firebase, authorization: Option<string>,
                        verify: string -> Verified)
    ensures var r := VerifyBearerSpec(initialized, env, fb, authorization, verify).0;
      r != Crash &&
      (r.Raise? ==> (r.error.status == 401 <==> EnsureInitializedSpec(initialized, env, fb).0.None?)) &&
      (r.Raise? && r.error.status != 401 ==> r.error.status == 500 && StartsWith(r.error.detail, INIT_FAILED))
  {
  }

  /** With authentication disabled, every request is the configured development user. */
  lemma DisabledAcceptsAll(initialized: bool, env: Env, fb: Firebase, authorization: Option<string>,
                           verify: string -> Verified)
    requires AuthDisabled(env)
    ensures VerifyBearerSpec(initialized, env, fb, authorization, verify) ==
              (Return(if FAKE_USER_VAR in env then env[FAKE_USER_VAR] else DEFAULT_FAKE_USER), true)
  {
  }

  /** With authentication on, a request is accepted exactly for a `Bearer ` header whose token decodes to an email. */
  lemma AcceptedIff(initialized: bool, env: Env, fb: Firebase, authorization: Option<string>,
                    verify: string -> Verified, email: string)
    requires !AuthDisabled(env) && EnsureInitializedSpec(initialized, env, fb).0.None?
    ensures VerifyBearerSpec(initialized, env, fb, authorization, verify).0 == Return(email) <==>
      authorization.Some? && StartsWith(authorization.value, BEARER) && |authorization.value| > 7 &&
      verify(authorization.value[7..]) == Decoded(Some(email)) && email != ""
  {
    if authorization.Some? && StartsWith(authorization.value, BEARER) && |authorization.value| > 7 {
      var token := HeaderToken(authorization).value;
      assert authorization.value == BEARER + token;
      assert token == authorization.value[7..];
    }
  }

  /** The module-level `_initialized` flag and the operations that use it. */
  class AuthState {
    var initialized: bool

    constructor()
      ensures !initialized
    {
      initialized := false;
    }

    /** `_ensure_initialized()`. */
    method EnsureInitialized(env: Env, fb: Firebase) returns (err: Option<HttpError>)
      modifies this
      ensures (err, initialized) == EnsureInitializedSpec(old(initialized), env, fb)
    {
      if initialized {
        return None;
      }
      if AuthDisabled(env) {
        initialized := true;
        return None;
      }
      var failure := InitError(env, fb);
      if failure.Some? {
        return Some(HttpError(500, INIT_FAILED + failure.value));
      }
      initialized := true;
      return None;
    }

    /** `verify_bearer_token(authorization)` as written. */
    method VerifyBearerToken(env: Env, fb: Firebase, authorization: Option<string>, verify: string -> Verified)
      returns (outcome: Outcome<string>)
      modifies this
      ensures (outcome, initialized) == VerifyBearerSpec(old(initialized), env, fb, authorization, verify)
    {
      var err := EnsureInitialized(env, fb);
      if err.Some? {
        return Raise(err.value);
      }
      if AuthDisabled(env) {
        return Return(Getenv(env, FAKE_USER_VAR).GetOr(DEFAULT_FAKE_USER));
      }
      var header := HeaderToken(authorization);
      if !header.Return? {
        return header;
      }
      return CheckTokenAsWritten(verify(header.value));
    }
  }
}
