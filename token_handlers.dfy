/** cmd/api/tokens.go: login, as a transition of the tokens table. */
module TokenHandlers {
  import opened Common
  import opened Validation
  import opened Users
  import opened Tokens
  import opened Storage
  import opened Responses
  import UserModel
  import TokenModel
  import Middleware
  import Text

  /** The JSON input of createAuthenticationTokenHandler. */
  datatype LoginInput = LoginInput(email: Bytes, password: Bytes)

  /** An authentication token is valid for a day. */
  const AuthenticationTTL: int := 24 * Hour

  /** The error map of the handler's validation: the email, checked twice. */
  function LoginErrors(input: LoginInput, emailRX: EmailPattern): Errors
  {
    ValidateEmail(ValidateEmail(map[], input.email, emailRX), input.email, emailRX)
  }

  /** The second check adds nothing, and the password is not checked at all:
      the input is refused exactly for a bad address. */
  lemma LoginErrorsAreEmailErrors(input: LoginInput, emailRX: EmailPattern)
    ensures LoginErrors(input, emailRX) == ValidateEmail(map[], input.email, emailRX)
    ensures NoErrors(LoginErrors(input, emailRX)) <==> EmailOk(input.email, emailRX)
  {
    ValidateEmailTwice(map[], input.email, emailRX);
  }

  /** createAuthenticationTokenHandler, with bcrypt's comparison, the clock,
      the token's random bytes and the outcome of its insert passed in. An
      unknown address and a wrong password give the same invalid-credentials
      response; a comparison error is a server error; in none of these is a
      token stored. A matching password stores one authentication token for
      that user, expiring a day later. */
  method CreateAuthenticationToken(db: Database, body: Option<LoginInput>, emailRX: EmailPattern,
                                   compare: Comparer, now: Time, randomBytes: seq<byte>, sha256: Hasher,
                                   insertFails: bool)
    returns (resp: Response, token: Option<Token>)
    requires db.Valid() && |randomBytes| == 16
    modifies db`tokens
    ensures db.Valid()
    ensures token.Some? <==> resp == Success(StatusOK)
    ensures resp != Success(StatusOK) ==> db.tokens == old(db.tokens)
    ensures body.None? ==> resp == BadRequest
    ensures body.Some? && !EmailOk(body.value.email, emailRX) ==>
      resp == FailedValidation(ValidateEmail(map[], body.value.email, emailRX))
    ensures body.Some? && EmailOk(body.value.email, emailRX) && !UserModel.EmailHeld(db.users, body.value.email) ==>
      resp == InvalidCredentials
    ensures body.Some? && EmailOk(body.value.email, emailRX) ==>
      forall id | id in db.users && db.users[id].email == body.value.email ::
        var outcome := compare(StoredHash(db.users[id].password), body.value.password);
        && (outcome == Mismatch ==> resp == InvalidCredentials)
        && (outcome == CompareFailed ==> resp == ServerError)
        && (outcome == Equal && insertFails ==> resp == ServerError)
        && (outcome == Equal && !insertFails ==>
              && token == Some(GenerateToken(id, AuthenticationTTL, Authentication, now, randomBytes, sha256))
              && db.tokens == old(db.tokens) + {Record(token.value)})
  {
    token := None;
    if body.None? {
      return BadRequest, None;
    }
    var input := body.value;
    var errors := LoginErrors(input, emailRX);
    LoginErrorsAreEmailErrors(input, emailRX);
    if !NoErrors(errors) {
      return FailedValidation(errors), None;
    }
    var found := UserModel.GetUserByEmail(db, input.email);
    if found.Err? {
      resp := if found.error == ErrNoRecord then InvalidCredentials else ServerError;
      return resp, None;
    }
    var u := found.value;
    var matched := Matches(u.password, input.password, compare);
    if matched.failed {
      return ServerError, None;
    }
    if !matched.matches {
      return InvalidCredentials, None;
    }
    var t, err := TokenModel.NewToken(db, u.id, AuthenticationTTL, Authentication, now, randomBytes, sha256, insertFails);
    if err.Some? {
      return ServerError, None;
    }
    resp, token := Success(StatusOK), Some(t);
  }

  /** The token a login returns authenticates its owner for the next day:
      its record is selected by the authentication lookup of its plaintext. */
  lemma LoginTokenAuthenticates(id: int, now: Time, randomBytes: seq<byte>, sha256: Hasher, later: Time)
    requires |randomBytes| == 16 && later < now + AuthenticationTTL
    ensures var t := GenerateToken(id, AuthenticationTTL, Authentication, now, randomBytes, sha256);
            && |t.plaintext| == PlaintextLength
            && TokenModel.Live(Record(t), sha256(t.plaintext), Authentication, later)
            && Record(t).userId == id
  {
    TokenModel.NewTokenIsLive(id, AuthenticationTTL, Authentication, now, randomBytes, sha256, later);
  }

  /** A login followed, at time later, by a request carrying the returned
      token as "Bearer <token>": the request is authenticated as the user
      until the token expires a day after the login, and refused as an
      invalid token from then on. No stored token may already share the new
      token's digest (the hash is taken to be collision-free). */
  method LoginThenAuthenticate(db: Database, input: LoginInput, emailRX: EmailPattern, compare: Comparer,
                               now: Time, randomBytes: seq<byte>, sha256: Hasher, id: int, later: Time)
    returns (resp: Response, outcome: Middleware.AuthOutcome)
    requires db.Valid() && |randomBytes| == 16 && EmailOk(input.email, emailRX)
    requires id in db.users && db.users[id].email == input.email
    requires compare(StoredHash(db.users[id].password), input.password) == Equal
    requires forall t | t in db.tokens :: t.hash != sha256(Base32.Encode(randomBytes))
    modifies db`tokens
    ensures resp == Success(StatusOK)
    ensures later < now + AuthenticationTTL ==> outcome == Middleware.Continue(Authenticated(db.users[id]))
    ensures later >= now + AuthenticationTTL ==> outcome == Middleware.Stop(InvalidAuthenticationToken)
  {
    var token;
    resp, token := CreateAuthenticationToken(db, Some(input), emailRX, compare, now, randomBytes, sha256, false);
    var t := GenerateToken(id, AuthenticationTTL, Authentication, now, randomBytes, sha256);
    assert token == Some(t);
    var plaintext := t.plaintext;
    Base32.SixteenBytes(randomBytes);
    assert Text.Space !in plaintext by {
      forall i | 0 <= i < |plaintext| ensures plaintext[i] != Text.Space {
        assert 65 <= plaintext[i] <= 90 || 50 <= plaintext[i] <= 55;
      }
    }
    var header := Middleware.Bearer + [Text.Space] + plaintext;
    Middleware.ParseBearerExact(header, plaintext);
    outcome := Middleware.Authenticate(db, header, later, sha256);
    // the new row is the only one carrying the token's digest
    assert forall r | r in db.tokens && r.hash == t.hash :: r == Record(t);
    if later < now + AuthenticationTTL {
      TokenModel.NewTokenIsLive(id, AuthenticationTTL, Authentication, now, randomBytes, sha256, later);
      assert UserModel.HasLiveToken(db, t.hash, Authentication, later) by {
        assert Record(t) in db.tokens;
      }
    } else {
      assert !UserModel.HasLiveToken(db, t.hash, Authentication, later);
    }
  }
}
