/**
 * Request identity resolution (src/extractors/current_user.rs): the two axum
 * extractors `CurrentUser` (authentication required) and `MaybeUser`
 * (authentication optional), and the cookie scan both of them start with.
 *
 * `jsonwebtoken::decode::<UserClaims>(token, key, &Validation::default())` is
 * not modelled: it is the parameter `decode`, applied to the token and the
 * secret, `None` for every failure (bad signature, expiry, malformed token).
 */
module Extractors {
  import opened Wrappers
  import opened RustStr
  import opened UserStore

  // ---------------------------------------------------------------------------
  // The cookie scan
  // ---------------------------------------------------------------------------

  const AUTH_COOKIE_PREFIX: string := "auth_token="

  /** A segment of the header that, once trimmed, begins with `auth_token=`. */
  predicate IsAuthCookie(segment: string) {
    StartsWith(Trim(segment), AUTH_COOKIE_PREFIX)
  }

  /** What one segment offers the scan: its trimmed text after `auth_token=`, if it is an auth cookie. */
  function CookieValue(segment: string): (r: Option<string>)
    ensures r.Some? <==> IsAuthCookie(segment)
    ensures r.Some? ==> Trim(segment) == AUTH_COOKIE_PREFIX + r.value
  {
    StripPrefix(Trim(segment), AUTH_COOKIE_PREFIX)
  }

  /** `.map(str::trim).find_map(|c| c.strip_prefix("auth_token="))` over the segments. */
  function FindAuthToken(segments: seq<string>): Option<string> {
    if |segments| == 0 then None
    else match CookieValue(segments[0])
      case Some(value) => Some(value)
      case None => FindAuthToken(segments[1..])
  }

  /** The scan finds nothing exactly when no segment is an auth cookie. */
  lemma {:induction false} FindAuthTokenNone(segments: seq<string>)
    ensures FindAuthToken(segments).None? <==> forall i :: 0 <= i < |segments| ==> !IsAuthCookie(segments[i])
  {
    if |segments| > 0 {
      FindAuthTokenNone(segments[1..]);
      assert forall i :: 1 <= i < |segments| ==> segments[i] == segments[1..][i - 1];
    }
  }

  /** The token found comes from the first segment that is an auth cookie. */
  lemma {:induction false} FindAuthTokenIsFirst(segments: seq<string>) returns (i: nat)
    requires FindAuthToken(segments).Some?
    ensures i < |segments|
    ensures CookieValue(segments[i]) == FindAuthToken(segments)
    ensures forall j :: 0 <= j < i ==> !IsAuthCookie(segments[j])
  {
    if CookieValue(segments[0]).Some? {
      i := 0;
    } else {
      var rest := segments[1..];
      assert FindAuthToken(segments) == FindAuthToken(rest);
      var k := FindAuthTokenIsFirst(rest);
      i := k + 1;
      forall j | 0 <= j < i ensures !IsAuthCookie(segments[j]) {
        if j > 0 {
          assert segments[j] == rest[j - 1];
        }
      }
    }
  }

  /** Whatever follows the first auth cookie is not looked at. */
  lemma {:induction false} FirstAuthCookieWins(segments: seq<string>, i: nat)
    requires i < |segments| && IsAuthCookie(segments[i])
    requires forall j :: 0 <= j < i ==> !IsAuthCookie(segments[j])
    ensures FindAuthToken(segments) == CookieValue(segments[i])
  {
    if i > 0 {
      assert !IsAuthCookie(segments[0]);
      FirstAuthCookieWins(segments[1..], i - 1);
    }
  }

  /** Scanning two runs of segments: the first run decides if it holds an auth cookie. */
  lemma {:induction false} FindAuthTokenAppend(a: seq<string>, b: seq<string>)
    ensures FindAuthToken(a + b)
            == if FindAuthToken(a).Some? then FindAuthToken(a) else FindAuthToken(b)
  {
    if |a| > 0 {
      assert (a + b)[0] == a[0] && (a + b)[1..] == a[1..] + b;
      FindAuthTokenAppend(a[1..], b);
    } else {
      assert a + b == b;
    }
  }

  /**
   * The `auth_token` cookie's value in a `Cookie` header: split on `;`, trim
   * each segment, keep the rest of the first one that begins with
   * `auth_token=`.
   */
  function AuthToken(cookieHeader: string): Option<string> {
    FindAuthToken(Split(cookieHeader, ';'))
  }

  /** A value found among `;`-free segments holds no `;` and does not end in whitespace. */
  lemma FoundTokenShape(segments: seq<string>)
    requires forall k :: 0 <= k < |segments| ==> ';' !in segments[k]
    requires FindAuthToken(segments).Some?
    ensures var v := FindAuthToken(segments).value;
      && ';' !in v
      && (v != [] ==> !IsWhitespace(v[|v| - 1]))
  {
    var i := FindAuthTokenIsFirst(segments);
    var v := FindAuthToken(segments).value;
    var t := Trim(segments[i]);
    TrimKeepsOnlyInputChars(segments[i], ';');
    assert t[|AUTH_COOKIE_PREFIX|..] == v;
    if v != [] {
      assert v[|v| - 1] == t[|t| - 1];
    }
  }

  /** The token never holds a `;` and never ends in whitespace. */
  lemma AuthTokenShape(cookieHeader: string)
    requires AuthToken(cookieHeader).Some?
    ensures var v := AuthToken(cookieHeader).value;
      && ';' !in v
      && (v != [] ==> !IsWhitespace(v[|v| - 1]))
  {
    SplitPartsLackSeparator(cookieHeader, ';');
    FoundTokenShape(Split(cookieHeader, ';'));
  }

  /** There is no token exactly when no trimmed segment begins with `auth_token=`. */
  lemma NoAuthCookieNoToken(cookieHeader: string, segments: seq<string>)
    requires segments == Split(cookieHeader, ';')
    ensures AuthToken(cookieHeader).None? <==> forall i :: 0 <= i < |segments| ==> !IsAuthCookie(segments[i])
  {
    FindAuthTokenNone(segments);
  }

  /** The token is the value of the first `;`-separated, trimmed segment that is an auth cookie. */
  lemma AuthTokenIsFirstAuthCookie(cookieHeader: string) returns (i: nat)
    requires AuthToken(cookieHeader).Some?
    ensures var segments := Split(cookieHeader, ';');
      && i < |segments|
      && Trim(segments[i]) == AUTH_COOKIE_PREFIX + AuthToken(cookieHeader).value
      && forall j :: 0 <= j < i ==> !IsAuthCookie(segments[j])
  {
    i := FindAuthTokenIsFirst(Split(cookieHeader, ';'));
  }

  /** A header whose first auth cookie is segment `i` yields that cookie's value. */
  lemma FirstAuthCookieGivesToken(cookieHeader: string, i: nat)
    requires i < |Split(cookieHeader, ';')|
    requires IsAuthCookie(Split(cookieHeader, ';')[i])
    requires forall j :: 0 <= j < i ==> !IsAuthCookie(Split(cookieHeader, ';')[j])
    ensures AuthToken(cookieHeader) == CookieValue(Split(cookieHeader, ';')[i])
  {
    FirstAuthCookieWins(Split(cookieHeader, ';'), i);
  }

  /**
   * Cookies after the first auth cookie are ignored, and cookies before it
   * that are not auth cookies do not matter.
   */
  lemma LaterCookiesIgnored(front: string, back: string)
    ensures AuthToken(front).Some? ==> AuthToken(front + ";" + back) == AuthToken(front)
    ensures AuthToken(front).None? ==> AuthToken(front + ";" + back) == AuthToken(back)
  {
    SplitAppend(front, back, ';');
    assert front + ";" + back == front + [';'] + back;
    FindAuthTokenAppend(Split(front, ';'), Split(back, ';'));
  }

  /** The token of a header made of one cookie with nothing to trim. */
  lemma SingleCookie(cookie: string)
    requires cookie != [] && ';' !in cookie
    requires !IsWhitespace(cookie[0]) && !IsWhitespace(cookie[|cookie| - 1])
    ensures AuthToken(cookie) == StripPrefix(cookie, AUTH_COOKIE_PREFIX)
  {
    SplitWithoutSeparator(cookie, ';');
    TrimUnpadded(cookie);
    var segments := Split(cookie, ';');
    assert segments == [cookie];
    assert FindAuthToken(segments) == match CookieValue(cookie)
      case Some(value) => Some(value)
      case None => FindAuthToken(segments[1..]);
  }

  /** The token of a header made of one cookie preceded by one whitespace character. */
  lemma SinglePaddedCookie(cookie: string)
    requires |cookie| >= 2 && ';' !in cookie && IsWhitespace(cookie[0])
    requires !IsWhitespace(cookie[1]) && !IsWhitespace(cookie[|cookie| - 1])
    ensures AuthToken(cookie) == StripPrefix(cookie[1..], AUTH_COOKIE_PREFIX)
  {
    SplitWithoutSeparator(cookie, ';');
    TrimLeadingSpace(cookie);
    TrimUnpadded(cookie[1..]);
    var segments := Split(cookie, ';');
    assert segments == [cookie];
    assert FindAuthToken(segments) == match CookieValue(cookie)
      case Some(value) => Some(value)
      case None => FindAuthToken(segments[1..]);
  }

  /** A header holding just `auth_token=` and a value yields that value, even an empty one. */
  lemma BareCookieGivesValue(value: string)
    requires ';' !in value
    requires value == [] || !IsWhitespace(value[|value| - 1])
    ensures AuthToken(AUTH_COOKIE_PREFIX + value) == Some(value)
  {
    var cookie := AUTH_COOKIE_PREFIX + value;
    assert cookie[|cookie| - 1] == if value == [] then '=' else value[|value| - 1];
    SingleCookie(cookie);
    assert StartsWith(cookie, AUTH_COOKIE_PREFIX);
  }

  /** A longer cookie name that ends in `auth_token` is not the auth cookie. */
  lemma LongerNameSample()
    ensures AuthToken("xauth_token=v") == None
  {
    SingleCookie("xauth_token=v");
    assert "xauth_token=v"[0] != AUTH_COOKIE_PREFIX[0];
  }

  /** The name without `=` is not the auth cookie. */
  lemma NameWithoutValueSample()
    ensures AuthToken("auth_token") == None
  {
    SingleCookie("auth_token");
  }

  /** Whitespace in front of a cookie is trimmed away before its name is compared. */
  lemma PaddedCookieGivesValue(space: char, value: string)
    requires IsWhitespace(space) && ';' !in value
    requires value == [] || !IsWhitespace(value[|value| - 1])
    ensures AuthToken([space] + AUTH_COOKIE_PREFIX + value) == Some(value)
  {
    var cookie := [space] + AUTH_COOKIE_PREFIX + value;
    assert cookie[1..] == AUTH_COOKIE_PREFIX + value;
    assert cookie[|cookie| - 1] == if value == [] then '=' else value[|value| - 1];
    SinglePaddedCookie(cookie);
    assert StartsWith(cookie[1..], AUTH_COOKIE_PREFIX);
  }

  /**
   * Cookies without a token in front of an auth cookie do not matter, and
   * nothing after it does either.
   */
  lemma FirstAuthCookieAmongOthers(before: string, cookie: string, after: string)
    requires AuthToken(before).None? && AuthToken(cookie).Some?
    ensures AuthToken(before + ";" + (cookie + ";" + after)) == AuthToken(cookie)
  {
    LaterCookiesIgnored(cookie, after);
    LaterCookiesIgnored(before, cookie + ";" + after);
  }

  /** A cookie with another name carries no token. */
  lemma OtherCookieSample()
    ensures AuthToken("theme=dark") == None
  {
    SingleCookie("theme=dark");
    assert "theme=dark"[0] != AUTH_COOKIE_PREFIX[0];
  }

  // ---------------------------------------------------------------------------
  // The request, the token's claims and the extractors' answers
  // ---------------------------------------------------------------------------

  /** A `Cookie` header value, with its text when `HeaderValue::to_str` accepts it. */
  datatype HeaderValue = HeaderValue(text: Option<string>)

  /** What the extractors read of the request: its `Cookie` header, if it has one. */
  datatype RequestParts = RequestParts(cookie: Option<HeaderValue>)

  /** `parts.headers.get(COOKIE).and_then(|hv| hv.to_str().ok())`. */
  function CookieHeader(parts: RequestParts): Option<string> {
    match parts.cookie
    case None => None
    case Some(value) => value.text
  }

  /** `UserClaims`, the payload of a session token. */
  datatype Claims = Claims(sub: string, email: string, exp: int)

  const UNAUTHORIZED: int := 401
  const MISSING_COOKIES: string := "Missing cookies"
  const AUTH_COOKIE_NOT_FOUND: string := "auth_token cookie not found"
  const INVALID_TOKEN: string := "Invalid token"
  const INVALID_USER_ID: string := "Invalid user id in token"
  const LOOKUP_FAILED: string := "Something went wrong"

  /** `CurrentUser`'s rejection: a status code and a reason. */
  datatype Rejection = Rejection(status: int, reason: string)

  /** What `CurrentUser::from_request_parts` does with a request. */
  datatype CurrentUserOutcome =
    | Extracted(user: User)
    | Rejected(rejection: Rejection)
    /** `unwrap()` on an `Err` holding this rejection: the request aborts. */
    | Panicked(unwrapped: Rejection)

  /** A user the store holds, exactly as the store holds it. */
  ghost predicate IsStoredUser(store: UserRepository, user: User)
    reads store
  {
    store.reachable && user.id in store.rows && user == UserOf(user.id, store.rows[user.id])
  }

  /**
   * `CurrentUser::from_request_parts`: the steps in order, each stopping the
   * request with a 401 and its own reason; a failed lookup is `unwrap`ped
   * and aborts the request instead.
   */
  function CurrentUser(parts: RequestParts, secret: string,
                       decode: (string, string) -> Option<Claims>,
                       store: UserRepository): (r: CurrentUserOutcome)
    reads store
    ensures r.Rejected? ==> r.rejection.status == UNAUTHORIZED
    ensures r.Rejected? ==>
      r.rejection.reason in {MISSING_COOKIES, AUTH_COOKIE_NOT_FOUND, INVALID_TOKEN, INVALID_USER_ID}
    ensures r.Panicked? ==> r.unwrapped == Rejection(UNAUTHORIZED, LOOKUP_FAILED)
    ensures r.Extracted? ==> IsStoredUser(store, r.user)
  {
    match CookieHeader(parts)
    case None => Rejected(Rejection(UNAUTHORIZED, MISSING_COOKIES))
    case Some(header) =>
      match AuthToken(header)
      case None => Rejected(Rejection(UNAUTHORIZED, AUTH_COOKIE_NOT_FOUND))
      case Some(token) =>
        match decode(token, secret)
        case None => Rejected(Rejection(UNAUTHORIZED, INVALID_TOKEN))
        case Some(claims) =>
          match ParseI64(claims.sub)
          case None => Rejected(Rejection(UNAUTHORIZED, INVALID_USER_ID))
          case Some(id) =>
            match store.FindById(id)
            case Err(_) => Panicked(Rejection(UNAUTHORIZED, LOOKUP_FAILED))
            case Ok(user) => Extracted(user)
  }

  /**
   * `MaybeUser::from_request_parts`: the same steps, each failure giving
   * `None`. Its rejection type is `Infallible`, so the `Ok` it always returns
   * is left implicit.
   */
  function MaybeUser(parts: RequestParts, secret: string,
                     decode: (string, string) -> Option<Claims>,
                     store: UserRepository): (r: Option<User>)
    reads store
    ensures r.Some? ==> IsStoredUser(store, r.value)
  {
    match CookieHeader(parts)
    case None => None
    case Some(header) =>
      match AuthToken(header)
      case None => None
      case Some(token) =>
        match decode(token, secret)
        case None => None
        case Some(claims) =>
          match ParseI64(claims.sub)
          case None => None
          case Some(id) =>
            match store.FindById(id)
            case Err(_) => None
            case Ok(user) => Some(user)
  }

  // ---------------------------------------------------------------------------
  // The pipeline both extractors follow, as a forward-only state machine
  // ---------------------------------------------------------------------------

  /** The step at which a resolution stops. */
  datatype Failure = NoCookieHeader | NoAuthCookie | TokenInvalid | SubjectUnparseable | UserNotFound

  /** How far the resolution of one request has got. */
  datatype Stage =
    | Received(parts: RequestParts)
    | HeaderRead(header: string)
    | TokenFound(token: string)
    | ClaimsDecoded(claims: Claims)
    | SubjectParsed(id: i64)
    | Resolved(user: User)
    | Stopped(failure: Failure)

  predicate Final(s: Stage) {
    s.Resolved? || s.Stopped?
  }

  /** The position of a stage in the pipeline; both final stages come last. */
  function Progress(s: Stage): nat {
    match s
    case Received(_) => 0
    case HeaderRead(_) => 1
    case TokenFound(_) => 2
    case ClaimsDecoded(_) => 3
    case SubjectParsed(_) => 4
    case Resolved(_) => 5
    case Stopped(_) => 5
  }

  /**
   * One step of the pipeline. A step only moves forward, a final stage stays
   * as it is, and no stage is ever revisited.
   */
  function Step(s: Stage, secret: string, decode: (string, string) -> Option<Claims>,
                store: UserRepository): (next: Stage)
    reads store
    ensures Final(s) ==> next == s
    ensures !Final(s) ==> Progress(next) > Progress(s)
    ensures next.Resolved? && !s.Resolved? ==> s.SubjectParsed? && IsStoredUser(store, next.user)
  {
    match s
    case Received(parts) =>
      (match CookieHeader(parts)
       case None => Stopped(NoCookieHeader)
       case Some(header) => HeaderRead(header))
    case HeaderRead(header) =>
      (match AuthToken(header)
       case None => Stopped(NoAuthCookie)
       case Some(token) => TokenFound(token))
    case TokenFound(token) =>
      (match decode(token, secret)
       case None => Stopped(TokenInvalid)
       case Some(claims) => ClaimsDecoded(claims))
    case ClaimsDecoded(claims) =>
      (match ParseI64(claims.sub)
       case None => Stopped(SubjectUnparseable)
       case Some(id) => SubjectParsed(id))
    case SubjectParsed(id) =>
      (match store.FindById(id)
       case Err(_) => Stopped(UserNotFound)
       case Ok(user) => Resolved(user))
    case Resolved(_) => s
    case Stopped(_) => s
  }

  /** `steps` steps of the pipeline from `s`. */
  function Run(s: Stage, steps: nat, secret: string, decode: (string, string) -> Option<Claims>,
               store: UserRepository): (r: Stage)
    reads store
    ensures Progress(r) >= Progress(s)
    ensures Progress(r) >= 5 || Progress(r) >= Progress(s) + steps
    ensures Final(s) ==> r == s
    decreases steps
  {
    if steps == 0 then s else Run(Step(s, secret, decode, store), steps - 1, secret, decode, store)
  }

  /** Five steps decide every request: it is resolved or stopped at its first failure. */
  function Resolve(parts: RequestParts, secret: string, decode: (string, string) -> Option<Claims>,
                   store: UserRepository): (r: Stage)
    reads store
    ensures Final(r)
  {
    Run(Received(parts), 5, secret, decode, store)
  }

  /** `CurrentUser`'s failure policy: a 401 with the step's reason, a panic after the lookup. */
  function CurrentUserPolicy(s: Stage): CurrentUserOutcome
    requires Final(s)
  {
    match s
    case Resolved(user) => Extracted(user)
    case Stopped(NoCookieHeader) => Rejected(Rejection(UNAUTHORIZED, MISSING_COOKIES))
    case Stopped(NoAuthCookie) => Rejected(Rejection(UNAUTHORIZED, AUTH_COOKIE_NOT_FOUND))
    case Stopped(TokenInvalid) => Rejected(Rejection(UNAUTHORIZED, INVALID_TOKEN))
    case Stopped(SubjectUnparseable) => Rejected(Rejection(UNAUTHORIZED, INVALID_USER_ID))
    case Stopped(UserNotFound) => Panicked(Rejection(UNAUTHORIZED, LOOKUP_FAILED))
  }

  /** `MaybeUser`'s failure policy: every failure is an anonymous request. */
  function MaybeUserPolicy(s: Stage): Option<User>
    requires Final(s)
  {
    if s.Resolved? then Some(s.user) else None
  }

  /** `CurrentUser` is the pipeline under its own failure policy. */
  lemma CurrentUserFollowsPipeline(parts: RequestParts, secret: string,
                                   decode: (string, string) -> Option<Claims>, store: UserRepository)
    ensures CurrentUser(parts, secret, decode, store)
            == CurrentUserPolicy(Resolve(parts, secret, decode, store))
  {
    RunFromReceived(parts, secret, decode, store);
  }

  /** `MaybeUser` is the same pipeline under the anonymous-on-failure policy. */
  lemma MaybeUserFollowsPipeline(parts: RequestParts, secret: string,
                                 decode: (string, string) -> Option<Claims>, store: UserRepository)
    ensures MaybeUser(parts, secret, decode, store)
            == MaybeUserPolicy(Resolve(parts, secret, decode, store))
  {
    RunFromReceived(parts, secret, decode, store);
  }

  /** Resolution unrolled: the five steps in order, each able to stop it. */
  lemma RunFromReceived(parts: RequestParts, secret: string,
                        decode: (string, string) -> Option<Claims>, store: UserRepository)
    ensures Resolve(parts, secret, decode, store) ==
      match CookieHeader(parts)
      case None => Stopped(NoCookieHeader)
      case Some(header) =>
        match AuthToken(header)
        case None => Stopped(NoAuthCookie)
        case Some(token) =>
          match decode(token, secret)
          case None => Stopped(TokenInvalid)
          case Some(claims) =>
            match ParseI64(claims.sub)
            case None => Stopped(SubjectUnparseable)
            case Some(id) =>
              match store.FindById(id)
              case Err(_) => Stopped(UserNotFound)
              case Ok(user) => Resolved(user)
  {
    var s0 := Received(parts);
    var s1 := Step(s0, secret, decode, store);
    var s2 := Step(s1, secret, decode, store);
    var s3 := Step(s2, secret, decode, store);
    var s4 := Step(s3, secret, decode, store);
    var s5 := Step(s4, secret, decode, store);
    assert Run(s5, 0, secret, decode, store) == s5;
    assert Run(s4, 1, secret, decode, store) == s5;
    assert Run(s3, 2, secret, decode, store) == s5;
    assert Run(s2, 3, secret, decode, store) == s5;
    assert Run(s1, 4, secret, decode, store) == s5;
    assert Resolve(parts, secret, decode, store) == s5;
  }

  // ---------------------------------------------------------------------------
  // What the two failure policies promise, side by side
  // ---------------------------------------------------------------------------

  /**
   * On the same request, secret and store: wherever `CurrentUser` rejects or
   * aborts, `MaybeUser` gives `None`, and `MaybeUser` gives a user exactly when
   * `CurrentUser` extracts that same user.
   */
  lemma VariantsAgree(parts: RequestParts, secret: string,
                      decode: (string, string) -> Option<Claims>, store: UserRepository)
    ensures !CurrentUser(parts, secret, decode, store).Extracted?
            ==> MaybeUser(parts, secret, decode, store).None?
    ensures MaybeUser(parts, secret, decode, store).Some?
            <==> CurrentUser(parts, secret, decode, store).Extracted?
    ensures MaybeUser(parts, secret, decode, store).Some? ==>
            MaybeUser(parts, secret, decode, store).value
            == CurrentUser(parts, secret, decode, store).user
  {
    CurrentUserFollowsPipeline(parts, secret, decode, store);
    MaybeUserFollowsPipeline(parts, secret, decode, store);
  }

  /**
   * The four checks before the lookup do not consult the store: a request
   * `CurrentUser` rejects is rejected the same way whatever the store holds.
   */
  lemma RejectionIndependentOfStore(parts: RequestParts, secret: string,
                                    decode: (string, string) -> Option<Claims>,
                                    store: UserRepository, other: UserRepository)
    requires CurrentUser(parts, secret, decode, store).Rejected?
    ensures CurrentUser(parts, secret, decode, other) == CurrentUser(parts, secret, decode, store)
    ensures MaybeUser(parts, secret, decode, other).None?
  {
  }

  /** When every step succeeds, both extractors yield the stored user whose id is the subject. */
  lemma SubjectIsResolvedUser(parts: RequestParts, secret: string,
                              decode: (string, string) -> Option<Claims>, store: UserRepository,
                              header: string, token: string, claims: Claims, id: i64)
    requires CookieHeader(parts) == Some(header)
    requires AuthToken(header) == Some(token)
    requires decode(token, secret) == Some(claims)
    requires ParseI64(claims.sub) == Some(id)
    requires store.reachable && id in store.rows
    ensures CurrentUser(parts, secret, decode, store) == Extracted(UserOf(id, store.rows[id]))
    ensures MaybeUser(parts, secret, decode, store) == Some(UserOf(id, store.rows[id]))
  {
  }

  /**
   * A valid token whose subject the store cannot produce (a deleted user, or
   * a store that cannot answer) never resolves: `MaybeUser` gives `None` and
   * `CurrentUser` aborts.
   */
  lemma FailedLookupNeverResolves(parts: RequestParts, secret: string,
                                  decode: (string, string) -> Option<Claims>, store: UserRepository,
                                  header: string, token: string, claims: Claims, id: i64)
    requires CookieHeader(parts) == Some(header)
    requires AuthToken(header) == Some(token)
    requires decode(token, secret) == Some(claims)
    requires ParseI64(claims.sub) == Some(id)
    requires !store.reachable || id !in store.rows
    ensures CurrentUser(parts, secret, decode, store) == Panicked(Rejection(UNAUTHORIZED, LOOKUP_FAILED))
    ensures MaybeUser(parts, secret, decode, store).None?
  {
  }

  /** A request without a `Cookie` header: 401 "Missing cookies", or anonymous. */
  lemma NoCookieHeaderRequest(parts: RequestParts, secret: string,
                              decode: (string, string) -> Option<Claims>, store: UserRepository)
    requires parts.cookie.None?
    ensures CurrentUser(parts, secret, decode, store) == Rejected(Rejection(UNAUTHORIZED, MISSING_COOKIES))
    ensures MaybeUser(parts, secret, decode, store).None?
  {
  }

  // ---------------------------------------------------------------------------
  // The failed lookup: aborting as written, rejecting as intended
  // ---------------------------------------------------------------------------

  /**
   * A request on which `CurrentUser` aborts: the cookie is `auth_token=` and a
   * token, the token is valid and names user `id`, and the store is up but
   * holds no user `id` (one deleted after the token was issued). The 401
   * built for this case is never sent.
   */
  lemma DeletedUserAbortsRequest(store: UserRepository, id: i64, token: string)
    requires store.reachable && id !in store.rows
    requires ';' !in token && (token == [] || !IsWhitespace(token[|token| - 1]))
    ensures CurrentUser(RequestParts(Some(HeaderValue(Some(AUTH_COOKIE_PREFIX + token)))), "secret",
                        (t: string, secret: string) => Some(Claims(FormatInt(id), "a@b.c", 0)),
                        store)
            == Panicked(Rejection(UNAUTHORIZED, LOOKUP_FAILED))
  {
    BareCookieGivesValue(token);
    ParseFormatI64(id);
    var claims := Claims(FormatInt(id), "a@b.c", 0);
    var decode := (t: string, secret: string) => Some(claims);
    FailedLookupNeverResolves(RequestParts(Some(HeaderValue(Some(AUTH_COOKIE_PREFIX + token)))), "secret",
                              decode, store, AUTH_COOKIE_PREFIX + token, token, claims, id);
  }

  /**
   * `CurrentUser` as its error handling intends: the lookup's failure is the
   * 401 "Something went wrong" rejection rather than an abort.
   */
  function CurrentUserRejecting(parts: RequestParts, secret: string,
                                decode: (string, string) -> Option<Claims>,
                                store: UserRepository): (r: CurrentUserOutcome)
    reads store
    ensures !r.Panicked?
    ensures r.Rejected? ==> r.rejection.status == UNAUTHORIZED
    ensures r.Extracted? <==> MaybeUser(parts, secret, decode, store).Some?
    ensures r.Extracted? ==> r.user == MaybeUser(parts, secret, decode, store).value
  {
    match CookieHeader(parts)
    case None => Rejected(Rejection(UNAUTHORIZED, MISSING_COOKIES))
    case Some(header) =>
      match AuthToken(header)
      case None => Rejected(Rejection(UNAUTHORIZED, AUTH_COOKIE_NOT_FOUND))
      case Some(token) =>
        match decode(token, secret)
        case None => Rejected(Rejection(UNAUTHORIZED, INVALID_TOKEN))
        case Some(claims) =>
          match ParseI64(claims.sub)
          case None => Rejected(Rejection(UNAUTHORIZED, INVALID_USER_ID))
          case Some(id) =>
            match store.FindById(id)
            case Err(_) => Rejected(Rejection(UNAUTHORIZED, LOOKUP_FAILED))
            case Ok(user) => Extracted(user)
  }

  /**
   * The corrected extractor answers every request the way the one as written
   * does, except that the rejection it would have unwrapped is sent instead.
   */
  lemma RejectingDiffersOnlyOnLookup(parts: RequestParts, secret: string,
                                     decode: (string, string) -> Option<Claims>, store: UserRepository)
    ensures CurrentUserRejecting(parts, secret, decode, store)
            == match CurrentUser(parts, secret, decode, store)
               case Panicked(rejection) => Rejected(rejection)
               case outcome => outcome
  {
  }
}
