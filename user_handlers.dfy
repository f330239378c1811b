/** cmd/api/users.go: registration and activation as transitions of the
    users, permissions and tokens tables. */
module UserHandlers {
  import opened Common
  import opened Validation
  import opened Users
  import opened Tokens
  import opened Storage
  import opened Responses
  import UserModel
  import TokenModel
  import PermissionModel

  /** The JSON input of registerUserHandler. */
  datatype RegisterInput = RegisterInput(name: Bytes, email: Bytes, password: Bytes)

  /** The permission every new user is granted. */
  const MoviesRead := "movies:read"

  /** An activation token is valid for three days. */
  const ActivationTTL: int := 3 * 24 * Hour

  const DuplicateEmailMessage := "a user with email address already exists"
  const InvalidTokenMessage := "invaild or expired token"

  /** The user registerUserHandler builds before inserting it: not activated,
      every other field zero. */
  function NewUser(input: RegisterInput, password: Password): (u: User)
    ensures !u.activated && u.name == input.name && u.email == input.email && u.password == password
  {
    User(0, 0, input.name, input.email, password, false, 0)
  }

  /** The body was decoded, the password hashed, and the user passes
      validation: the handler goes on to insert it. */
  predicate Acceptable(body: Option<RegisterInput>, hashed: HashOutcome, emailRX: EmailPattern)
  {
    && body.Some? && hashed.Some?
    && var password := SetPassword(Password(None, None), body.value.password, hashed).value;
       NoErrors(ValidateUser(map[], NewUser(body.value, password), emailRX))
  }

  /** registerUserHandler, with the bcrypt result, the clock reading, the
      token's random bytes and the outcome of its insert passed in. A rejected
      body, a failed hash, invalid input or a taken address change nothing;
      otherwise the inactive user is inserted, granted "movies:read", and
      given an activation token that expires in three days. A failed token
      insert is a server error after the user and the grant were written. */
  method RegisterUser(db: Database, body: Option<RegisterInput>, hashed: HashOutcome, emailRX: EmailPattern,
                      now: Time, randomBytes: seq<byte>, sha256: Hasher, tokenInsertFails: bool)
    returns (resp: Response, user: Option<User>, token: Option<Token>)
    requires db.Valid() && |randomBytes| == 16
    modifies db`users, db`nextUserId, db`permissions, db`tokens
    ensures db.Valid()
    ensures body.None? ==> resp == BadRequest
    ensures body.Some? && hashed.None? ==> resp == ServerError
    ensures body.Some? && hashed.Some? && !Acceptable(body, hashed, emailRX) ==>
      resp == FailedValidation(ValidateUser(map[], NewUser(body.value, Password(Some(body.value.password), hashed)), emailRX))
    ensures Acceptable(body, hashed, emailRX) && UserModel.EmailHeld(old(db.users), body.value.email) ==>
      resp == FailedValidation(map["email" := DuplicateEmailMessage])
    ensures !(Acceptable(body, hashed, emailRX) && !UserModel.EmailHeld(old(db.users), body.value.email)) ==>
      && user.None? && token.None?
      && db.users == old(db.users) && db.nextUserId == old(db.nextUserId)
      && db.permissions == old(db.permissions) && db.tokens == old(db.tokens)
    ensures Acceptable(body, hashed, emailRX) && !UserModel.EmailHeld(old(db.users), body.value.email) ==>
      var id := old(db.nextUserId);
      && user.Some? && token.Some?
      && user.value == NewUser(body.value, Password(Some(body.value.password), hashed)).(id := id, createdAt := now, version := 1)
      && id !in old(db.users)
      && db.users == old(db.users)[id := UserModel.Row(user.value)]
      && db.permissions == old(db.permissions)[id := PermissionModel.GetAllForUser(old(db.permissions), id) + {MoviesRead}]
      && token.value == GenerateToken(id, ActivationTTL, Activation, now, randomBytes, sha256)
      && db.tokens == (if tokenInsertFails then old(db.tokens) else old(db.tokens) + {Record(token.value)})
      && (tokenInsertFails ==> resp == ServerError)
      && (!tokenInsertFails ==> resp == Success(StatusAccepted))
  {
    user, token := None, None;
    if body.None? {
      return BadRequest, None, None;
    }
    var input := body.value;
    var password := SetPassword(Password(None, None), input.password, hashed);
    if password.None? {
      return ServerError, None, None;
    }
    var u := NewUser(input, password.value);
    var errors := ValidateUser(map[], u, emailRX);
    if !NoErrors(errors) {
      return FailedValidation(errors), None, None;
    }
    resp, user, token := Enroll(db, u, now, randomBytes, sha256, tokenInsertFails);
  }

  /** The writes of registerUserHandler for a validated user: the insert
      (ErrDuplicateEmail becomes a failed validation under "email"), the
      "movies:read" grant, and the activation token. */
  method Enroll(db: Database, u: User, now: Time, randomBytes: seq<byte>, sha256: Hasher, tokenInsertFails: bool)
    returns (resp: Response, user: Option<User>, token: Option<Token>)
    requires db.Valid() && |randomBytes| == 16
    modifies db`users, db`nextUserId, db`permissions, db`tokens
    ensures db.Valid()
    ensures UserModel.EmailHeld(old(db.users), u.email) ==>
      && resp == FailedValidation(map["email" := DuplicateEmailMessage])
      && user.None? && token.None?
      && db.users == old(db.users) && db.nextUserId == old(db.nextUserId)
      && db.permissions == old(db.permissions) && db.tokens == old(db.tokens)
    ensures !UserModel.EmailHeld(old(db.users), u.email) ==>
      var id := old(db.nextUserId);
      && user.Some? && token.Some?
      && user.value == u.(id := id, createdAt := now, version := 1)
      && id !in old(db.users)
      && db.users == old(db.users)[id := UserModel.Row(user.value)]
      && db.permissions == old(db.permissions)[id := PermissionModel.GetAllForUser(old(db.permissions), id) + {MoviesRead}]
      && token.value == GenerateToken(id, ActivationTTL, Activation, now, randomBytes, sha256)
      && db.tokens == (if tokenInsertFails then old(db.tokens) else old(db.tokens) + {Record(token.value)})
      && (tokenInsertFails ==> resp == ServerError)
      && (!tokenInsertFails ==> resp == Success(StatusAccepted))
  {
    var inserted := UserModel.InsertUser(db, u, now);
    if inserted.Err? {
      assert WithError(map[], "email", DuplicateEmailMessage) == map["email" := DuplicateEmailMessage];
      resp := if inserted.error == ErrDuplicateEmail
              then FailedValidation(WithError(map[], "email", DuplicateEmailMessage))
              else ServerError;
      return resp, None, None;
    }
    var saved := inserted.value;
    PermissionModel.AddForUser(db, saved.id, {MoviesRead});
    var t, err := TokenModel.NewToken(db, saved.id, ActivationTTL, Activation, now, randomBytes, sha256, tokenInsertFails);
    user, token := Some(saved), Some(t);
    if err.Some? {
      return ServerError, user, token;
    }
    resp := Success(StatusAccepted);
  }

  /** A registered user starts out inactive, and the token it is mailed is
      an activation token that the activation handler will accept until it
      expires. */
  lemma RegisteredUserAwaitsActivation(input: RegisterInput, hashed: Bytes, id: int, now: Time,
                                       randomBytes: seq<byte>, sha256: Hasher, later: Time)
    requires |randomBytes| == 16 && later < now + ActivationTTL
    ensures !NewUser(input, Password(Some(input.password), Some(hashed))).activated
    ensures var t := GenerateToken(id, ActivationTTL, Activation, now, randomBytes, sha256);
            && NoErrors(ValidateTokenPlaintext(map[], t.plaintext))
            && TokenModel.Live(Record(t), sha256(t.plaintext), Activation, later)
  {
    GeneratedTokenIsValid(id, ActivationTTL, Activation, now, randomBytes, sha256);
    TokenModel.NewTokenIsLive(id, ActivationTTL, Activation, now, randomBytes, sha256, later);
  }

  /** activateUserHandler. A rejected body is a bad request; a plaintext of
      the wrong length, or one with no live activation token, a failed
      validation under "token"; nothing changes in those cases. Otherwise the
      token's owner is updated to activated through the version-checked
      update, and only then are that user's activation tokens deleted. */
  method ActivateUser(db: Database, body: Option<Bytes>, now: Time, sha256: Hasher)
    returns (resp: Response, user: Option<User>)
    requires db.Valid()
    modifies db`users, db`tokens
    ensures db.Valid()
    ensures body.None? ==> resp == BadRequest
    ensures body.Some? && |body.value| != PlaintextLength ==>
      resp == FailedValidation(ValidateTokenPlaintext(map[], body.value))
    ensures body.Some? && |body.value| == PlaintextLength &&
            !old(UserModel.HasLiveToken(db, sha256(body.value), Activation, now)) ==>
      resp == FailedValidation(map["token" := InvalidTokenMessage])
    ensures resp != Success(StatusAccepted) ==>
      user.None? && db.users == old(db.users) && db.tokens == old(db.tokens)
    ensures body.Some? && |body.value| == PlaintextLength &&
            old(UserModel.HasLiveToken(db, sha256(body.value), Activation, now)) ==>
      && resp == Success(StatusAccepted) && user.Some?
      && var id := user.value.id;
         && id in old(db.users)
         && (exists t | t in old(db.tokens) ::
               TokenModel.Live(t, sha256(body.value), Activation, now) && t.userId == id)
         && user.value == old(db.users)[id].(activated := true, version := old(db.users)[id].version + 1)
         && db.users == old(db.users)[id := user.value]
         && db.tokens == TokenModel.WithoutUserScope(old(db.tokens), id, Activation)
  {
    user := None;
    if body.None? {
      return BadRequest, None;
    }
    var plaintext := body.value;
    var errors := ValidateTokenPlaintext(map[], plaintext);
    ValidateTokenPlaintextValid(plaintext);
    if !NoErrors(errors) {
      return FailedValidation(errors), None;
    }
    var found := UserModel.GetUserForToken(db, Activation, plaintext, now, sha256);
    if found.Err? {
      assert WithError(map[], "token", InvalidTokenMessage) == map["token" := InvalidTokenMessage];
      resp := if found.error == ErrNoRecord
              then FailedValidation(WithError(map[], "token", InvalidTokenMessage))
              else ServerError;
      return resp, None;
    }
    var owner := found.value;
    assert owner.id in db.users && db.users[owner.id] == owner;
    assert !EmailTaken(db.users, owner.email, owner.id);
    var updated := UserModel.UpdateUser(db, owner.(activated := true));
    match updated {
      case Err(e) =>
        return UpdateFailure(e), None;
      case Ok(saved) =>
        assert UserModel.Row(saved) == saved;
        TokenModel.DeleteAllForUser(db, owner.id, Activation);
        resp, user := Success(StatusAccepted), Some(saved);
    }
  }
}
