/** cmd/api/middleware.go: the decisions the middleware takes before a
    request reaches its handler. The chain, outermost first, is enableCORS,
    rateLimiter, authenticate, then per route requirePermission. */
module Middleware {
  import opened Common
  import opened Text
  import opened Validation
  import opened Users
  import opened Tokens
  import opened Storage
  import opened Responses
  import TokenModel
  import UserModel
  import PermissionModel

  /* ---------------------------------------------------------------------
     Response headers */

  /** The response header map: each name with its list of values. */
  type Headers = map<string, seq<Bytes>>

  /** Header.Set: the name now has exactly this one value. */
  function SetHeader(h: Headers, name: string, value: Bytes): (r: Headers)
    ensures name in r && r[name] == [value]
    ensures forall n | n in h && n != name :: n in r && r[n] == h[n]
  {
    h[name := [value]]
  }

  /** Header.Add: the value is appended to the name's values. */
  function AddHeader(h: Headers, name: string, value: Bytes): (r: Headers)
    ensures name in r && r[name] == (if name in h then h[name] else []) + [value]
    ensures forall n | n in h && n != name :: n in r && r[n] == h[n]
  {
    h[name := (if name in h then h[name] else []) + [value]]
  }

  const Vary := "Vary"
  const AllowOrigin := "Access-Control-Allow-Origin"
  const AllowMethods := "Access-Control-Allow-Methods"
  const AllowHeaders := "Access-Control-Allow-Headers"

  const OriginName := Ascii("Origin")
  const RequestMethodName := Ascii("Access-Control-Request-Method")
  const AuthorizationName := Ascii("Authorization")
  const Options := Ascii("OPTIONS")
  const AllowedMethods := Ascii("OPTIONS, PUT, PATCH, DELETE")
  const AllowedHeaders := Ascii("Authorization, Content-Type")

  /** What enableCORS does with a request: the headers it leaves on the
      response, and whether it answers a preflight itself with 200 instead
      of calling the next handler. */
  datatype CorsDecision = CorsDecision(headers: Headers, preflight: bool)

  /** The allow-headers of enableCORS for a trusted origin. */
  function CorsAllow(trusted: seq<Bytes>, origin: Bytes, verb: Bytes, requestMethod: Bytes,
                     h: Headers): (d: CorsDecision)
  {
    if origin in trusted then
      var h1 := SetHeader(h, AllowOrigin, origin);
      if verb == Options && requestMethod != [] then
        CorsDecision(SetHeader(SetHeader(h1, AllowMethods, AllowedMethods), AllowHeaders, AllowedHeaders), true)
      else CorsDecision(h1, false)
    else CorsDecision(h, false)
  }

  /** enableCORS as written: both Vary values are written with Set. */
  function EnableCORSAsWritten(trusted: seq<Bytes>, origin: Bytes, verb: Bytes, requestMethod: Bytes,
                               h: Headers): CorsDecision
  {
    var h1 := SetHeader(SetHeader(h, Vary, OriginName), Vary, RequestMethodName);
    CorsAllow(trusted, origin, verb, requestMethod, h1)
  }

  /** enableCORS with both Vary values added, as the two calls evidently
      intend: a trusted origin is echoed back; an OPTIONS request from it
      that names a method is a preflight, answered with the allowed methods
      and headers without calling the next handler. */
  function EnableCORS(trusted: seq<Bytes>, origin: Bytes, verb: Bytes, requestMethod: Bytes,
                      h: Headers): (d: CorsDecision)
    ensures d.preflight <==> origin in trusted && verb == Options && requestMethod != []
    ensures AllowOrigin in d.headers && AllowOrigin !in h ==> origin in trusted
    ensures origin in trusted ==> AllowOrigin in d.headers && d.headers[AllowOrigin] == [origin]
    ensures d.preflight ==> AllowMethods in d.headers && AllowHeaders in d.headers && d.headers[AllowMethods] == [AllowedMethods] && d.headers[AllowHeaders] == [AllowedHeaders]
    ensures Vary in d.headers && d.headers[Vary] == (if Vary in h then h[Vary] else []) + [OriginName, RequestMethodName]
  {
    var h1 := AddHeader(AddHeader(h, Vary, OriginName), Vary, RequestMethodName);
    CorsAllow(trusted, origin, verb, requestMethod, h1)
  }

  /** authenticate's header write as written: Set replaces the Vary values. */
  function AuthenticateVaryAsWritten(h: Headers): Headers
  {
    SetHeader(h, Vary, AuthorizationName)
  }

  /** authenticate's header write with Add, as evidently intended. */
  function AuthenticateVary(h: Headers): Headers
  {
    AddHeader(h, Vary, AuthorizationName)
  }

  /** As written, a response from the chain never varies on Origin: the
      second Set in enableCORS drops it, and authenticate's Set then drops
      the request-method value as well. */
  lemma VaryAsWritten(trusted: seq<Bytes>, origin: Bytes, verb: Bytes, requestMethod: Bytes)
    ensures var d := EnableCORSAsWritten(trusted, origin, verb, requestMethod, map[]);
            && d.headers[Vary] == [RequestMethodName]
            && (!d.preflight ==> AuthenticateVaryAsWritten(d.headers)[Vary] == [AuthorizationName])
            && OriginName !in d.headers[Vary]
  {
    assert OriginName != RequestMethodName;
  }

  /** With Add, the response varies on Origin, on the requested method and,
      once authenticate has run, on Authorization. */
  lemma VaryKept(trusted: seq<Bytes>, origin: Bytes, verb: Bytes, requestMethod: Bytes)
    ensures var d := EnableCORS(trusted, origin, verb, requestMethod, map[]);
            && d.headers[Vary] == [OriginName, RequestMethodName]
            && (!d.preflight ==> AuthenticateVary(d.headers)[Vary] == [OriginName, RequestMethodName, AuthorizationName])
  {
  }

  /* ---------------------------------------------------------------------
     Rate limiting */

  /** A client of the limiter: its token-bucket state and when it was last seen. */
  datatype Client<B> = Client(bucket: B, lastSeen: Time)

  const IdleLimit: int := 3 * Minute

  /** The sweep drops a client idle for more than three minutes. */
  predicate Idle<B>(c: Client<B>, now: Time)
  {
    now - c.lastSeen > IdleLimit
  }

  /** The table after a sweep at `now`: exactly the clients that are not
      idle are kept, unchanged. */
  function Swept<B>(clients: map<Bytes, Client<B>>, now: Time): (r: map<Bytes, Client<B>>)
    ensures forall ip | ip in clients :: ip in r <==> !Idle(clients[ip], now)
    ensures forall ip | ip in r :: ip in clients && r[ip] == clients[ip]
  {
    map ip | ip in clients && !Idle(clients[ip], now) :: clients[ip]
  }

  /** A client seen at `seen` survives every sweep up to three minutes later. */
  lemma RecentClientSurvives<B>(clients: map<Bytes, Client<B>>, ip: Bytes, later: Time)
    requires ip in clients && later - clients[ip].lastSeen <= IdleLimit
    ensures ip in Swept(clients, later) && Swept(clients, later)[ip] == clients[ip]
  {
  }

  /** What rateLimiter does with a request. */
  datatype LimitOutcome = Forward | Refused(response: Response)

  /** The per-IP limiter table of rateLimiter. The token bucket of
      golang.org/x/time/rate is the bucket state B: `newBucket` is a new limiter
      and `allow` its Allow method, which reports whether a token was taken
      and gives the new state. */
  class RateLimiter<B> {
    var clients: map<Bytes, Client<B>>
    const enabled: bool
    const newBucket: B

    constructor (enabled: bool, newBucket: B)
      ensures this.enabled == enabled && this.newBucket == newBucket && clients == map[]
    {
      this.enabled := enabled;
      this.newBucket := newBucket;
      clients := map[];
    }

    /** One request from `remoteIp` (None when the remote address cannot be
        split into host and port). Disabled: every request passes and the
        table is untouched. Enabled: the client is created on first sight,
        its lastSeen is set to now whether or not a token is left, and a
        request without a token is refused. */
    method Handle(remoteIp: Option<Bytes>, now: Time, allow: (B, Time) -> (bool, B))
      returns (outcome: LimitOutcome)
      modifies this`clients
      ensures !enabled ==> outcome == Forward && clients == old(clients)
      ensures enabled && remoteIp.None? ==> outcome == Refused(ServerError) && clients == old(clients)
      ensures enabled && remoteIp.Some? ==>
        var ip := remoteIp.value;
        var bucket := if ip in old(clients) then old(clients)[ip].bucket else newBucket;
        && clients == old(clients)[ip := Client(allow(bucket, now).1, now)]
        && (outcome == Forward <==> allow(bucket, now).0)
        && (outcome != Forward ==> outcome == Refused(RateLimitExceeded))
    {
      if !enabled {
        return Forward;
      }
      if remoteIp.None? {
        return Refused(ServerError);
      }
      var ip := remoteIp.value;
      if ip !in clients {
        clients := clients[ip := Client(newBucket, now)];
      }
      clients := clients[ip := clients[ip].(lastSeen := now)];
      var (ok, bucket) := allow(clients[ip].bucket, now);
      clients := clients[ip := clients[ip].(bucket := bucket)];
      if !ok {
        return Refused(RateLimitExceeded);
      }
      outcome := Forward;
    }

    /** One pass of the sweeping goroutine at time `now`. */
    method Sweep(now: Time)
      modifies this`clients
      ensures clients == Swept(old(clients), now)
    {
      var pending := clients.Keys;
      var kept := clients;
      while pending != {}
        invariant pending <= clients.Keys
        invariant kept == map ip | ip in clients && (ip in pending || !Idle(clients[ip], now)) :: clients[ip]
        decreases |pending|
      {
        var ip :| ip in pending;
        if Idle(clients[ip], now) {
          kept := kept - {ip};
        }
        pending := pending - {ip};
      }
      clients := kept;
    }
  }

  /* ---------------------------------------------------------------------
     Authentication */

  const Bearer := Ascii("Bearer")

  /** The header test of authenticate: split on single spaces, exactly two
      parts, the first exactly "Bearer". */
  function ParseBearer(header: Bytes): (r: Option<Bytes>)
    ensures r.Some? ==> header == Bearer + [Space] + r.value && Space !in r.value
  {
    var parts := Split(header, Space);
    if |parts| == 2 && parts[0] == Bearer then
      SplitTwoPieces(header, Space);
      Some(parts[1])
    else None
  }

  /** The accepted headers are exactly "Bearer", one space, and a token with
      no space in it: the scheme is case-sensitive and extra spaces fail. */
  lemma ParseBearerExact(header: Bytes, token: Bytes)
    ensures ParseBearer(header) == Some(token) <==> header == Bearer + [Space] + token && Space !in token
  {
    if header == Bearer + [Space] + token && Space !in token {
      assert Space !in Bearer;
      SplitInTwo(Bearer, token, Space);
    }
  }

  /** What authenticate does with a request. */
  datatype AuthOutcome = Continue(principal: Principal) | Stop(response: Response)

  /** authenticate. An empty header runs the request as the anonymous user;
      a malformed header or a token of the wrong length is refused without a
      lookup; otherwise the user is the owner of a live authentication-scope
      token for the plaintext, and the request is refused when there is none,
      so activation tokens never authenticate. */
  method Authenticate(db: Database, header: Bytes, now: Time, sha256: Hasher) returns (outcome: AuthOutcome)
    ensures header == [] ==> outcome == Continue(Anonymous)
    ensures header != [] && ParseBearer(header).None? ==> outcome == Stop(InvalidAuthenticationToken)
    ensures header != [] && ParseBearer(header).Some? && |ParseBearer(header).value| != PlaintextLength ==>
      outcome == Stop(InvalidAuthenticationToken)
    ensures header != [] && ParseBearer(header).Some? && |ParseBearer(header).value| == PlaintextLength ==>
      var hash := sha256(ParseBearer(header).value);
      && (outcome.Continue? <==> UserModel.HasLiveToken(db, hash, Authentication, now))
      && (outcome.Stop? ==> outcome.response == InvalidAuthenticationToken)
      && (outcome.Continue? ==>
            && outcome.principal.Authenticated?
            && exists t | t in db.tokens :: TokenModel.Live(t, hash, Authentication, now) &&
                 t.userId in db.users && db.users[t.userId] == outcome.principal.user)
  {
    if header == [] {
      return Continue(Anonymous);
    }
    var parsed := ParseBearer(header);
    if parsed.None? {
      return Stop(InvalidAuthenticationToken);
    }
    var token := parsed.value;
    ValidateTokenPlaintextValid(token);
    if !NoErrors(ValidateTokenPlaintext(map[], token)) {
      return Stop(InvalidAuthenticationToken);
    }
    var found := UserModel.GetUserForToken(db, Authentication, token, now, sha256);
    if found.Err? {
      return Stop(InvalidAuthenticationToken);
    }
    outcome := Continue(Authenticated(found.value));
  }

  /* ---------------------------------------------------------------------
     Authorisation */

  /** The result of a requirement: the request goes on, or stops with a response. */
  datatype Gate = Pass | Refuse(response: Response)

  /** requireAuthenticatedUser around `next`. */
  function RequireAuthenticatedUser(p: Principal, next: Gate): (r: Gate)
    ensures p.Anonymous? ==> r == Refuse(AuthenticationRequired)
    ensures p.Authenticated? ==> r == next
  {
    if p.IsAnonymous() then Refuse(AuthenticationRequired) else next
  }

  /** requireActivatedUser around `next`: it wraps its own check in
      requireAuthenticatedUser. */
  function RequireActivatedUser(p: Principal, next: Gate): (r: Gate)
    ensures p.Anonymous? ==> r == Refuse(AuthenticationRequired)
    ensures p.Authenticated? && !p.user.activated ==> r == Refuse(InactiveAccount)
    ensures p.Authenticated? && p.user.activated ==> r == next
  {
    RequireAuthenticatedUser(p, if !p.IsActivated() then Refuse(InactiveAccount) else next)
  }

  /** requirePermission: it wraps its own check in requireActivatedUser, so
      the permissions are consulted only for an activated user. The chain
      lets a request through exactly for an activated user holding the
      permission, and refuses in a fixed order: anonymous first, then
      inactive, whatever the permissions, and only then a missing permission. */
  function RequirePermission(p: Principal, code: string, permissions: map<int, set<string>>): (r: Gate)
    ensures r == Pass <==>
      p.Authenticated? && p.user.activated && code in PermissionModel.GetAllForUser(permissions, p.user.id)
    ensures p.Anonymous? ==> r == Refuse(AuthenticationRequired)
    ensures p.Authenticated? && !p.user.activated ==> r == Refuse(InactiveAccount)
    ensures p.Authenticated? && p.user.activated && code !in PermissionModel.GetAllForUser(permissions, p.user.id) ==>
      r == Refuse(NotPermitted)
  {
    RequireActivatedUser(p,
      if code in PermissionModel.GetAllForUser(permissions, p.Id()) then Pass else Refuse(NotPermitted))
  }

}
