/** internal/data/users.go, the values: users, their bcrypt-hashed password,
    the anonymous principal, and the validation of user input. */
module Users {
  import opened Common
  import opened Validation

  /** The password of a user: the plaintext is known only between Set and the
      end of the request that set it; only the hash is ever stored. */
  datatype Password = Password(plaintext: Option<Bytes>, hash: Option<Bytes>)

  datatype User = User(id: int, createdAt: Time, name: Bytes, email: Bytes,
                       password: Password, activated: bool, version: int)

  /** The principal a request runs as. The source marks the anonymous caller
      by pointer identity with the AnonymousUser sentinel; here it is a tag. */
  datatype Principal = Anonymous | Authenticated(user: User)
  {
    /** User.IsAnonymous. */
    predicate IsAnonymous()
    {
      Anonymous?
    }

    /** The Activated flag as seen by the middleware; the sentinel's is false. */
    predicate IsActivated()
    {
      Authenticated? && user.activated
    }

    /** The ID the middleware looks permissions up by; the sentinel's is 0. */
    function Id(): int
    {
      if Authenticated? then user.id else 0
    }
  }

  /** Any user record, even one with every field zero, is not anonymous. */
  lemma OnlySentinelIsAnonymous(p: Principal)
    ensures p.IsAnonymous() <==> p == Anonymous
    ensures !p.IsAnonymous() ==> p.Authenticated?
  {
  }

  /** What bcrypt.GenerateFromPassword produced: a hash, or None for its error. */
  type HashOutcome = Option<Bytes>

  /** password.Set: on success both the plaintext and the hash are recorded;
      on error the password is left as it was. */
  function SetPassword(p: Password, plaintext: Bytes, hashed: HashOutcome): (r: Option<Password>)
    ensures hashed.None? <==> r.None?
    ensures r.Some? ==> r.value.plaintext == Some(plaintext) && r.value.hash == hashed
  {
    if hashed.None? then None else Some(Password(Some(plaintext), hashed))
  }

  /** What bcrypt.CompareHashAndPassword reported. */
  datatype Comparison = Equal | Mismatch | CompareFailed

  type Comparer = (Bytes, Bytes) -> Comparison

  /** The result of password.Matches: whether it matched, and whether an error came with it. */
  datatype MatchOutcome = MatchOutcome(matches: bool, failed: bool)

  /** password.Matches: a mismatch is a plain false, any other comparison
      error is passed up, and a match never comes with an error. */
  function Matches(p: Password, plaintext: Bytes, compare: Comparer): (r: MatchOutcome)
    ensures !(r.matches && r.failed)
    ensures r.matches <==> compare(StoredHash(p), plaintext) == Equal
    ensures r.failed <==> compare(StoredHash(p), plaintext) == CompareFailed
  {
    match compare(StoredHash(p), plaintext)
    case Equal => MatchOutcome(true, false)
    case Mismatch => MatchOutcome(false, false)
    case CompareFailed => MatchOutcome(false, true)
  }

  /** The hash handed to bcrypt; a nil slice reads as empty. */
  function StoredHash(p: Password): Bytes
  {
    if p.hash.Some? then p.hash.value else []
  }

  /** validator.Matches(email, EmailRX), which the model does not compute. */
  type EmailPattern = Bytes -> bool

  /** ValidateEmail: present, and matching the address pattern. */
  function ValidateEmail(errors: Errors, email: Bytes, emailRX: EmailPattern): (r: Errors)
    ensures Extends(r, errors)
    ensures r.Keys == errors.Keys + (if EmailOk(email, emailRX) then {} else {"email"})
  {
    var e := Checked(errors, email != [], "email", "must be provided");
    Checked(e, emailRX(email), "email", "must be vaild email address")
  }

  predicate EmailOk(email: Bytes, emailRX: EmailPattern) { email != [] && emailRX(email) }

  /** An empty address is reported as missing; the pattern message cannot replace it. */
  lemma EmptyEmailMessage(emailRX: EmailPattern)
    ensures ValidateEmail(map[], [], emailRX) == map["email" := "must be provided"]
  {
  }

  /** Validating an address twice gives the error map of validating it once. */
  lemma ValidateEmailTwice(errors: Errors, email: Bytes, emailRX: EmailPattern)
    ensures ValidateEmail(ValidateEmail(errors, email, emailRX), email, emailRX)
         == ValidateEmail(errors, email, emailRX)
  {
  }

  const MinPasswordLength: nat := 8
  const MaxPasswordLength: nat := 72

  /** ValidatePasswordPlaintext: present, 8 to 72 bytes. */
  function ValidatePasswordPlaintext(errors: Errors, password: Bytes): (r: Errors)
    ensures Extends(r, errors)
    ensures r.Keys == errors.Keys + (if PasswordOk(password) then {} else {"password"})
  {
    var e1 := Checked(errors, password != [], "password", "must be provided");
    var e2 := Checked(e1, |password| >= MinPasswordLength, "password", "must at least 8 characters long");
    Checked(e2, |password| <= MaxPasswordLength, "password", "cannot be more than 72 characters")
  }

  predicate PasswordOk(password: Bytes) { MinPasswordLength <= |password| <= MaxPasswordLength }

  const MaxNameLength: nat := 500

  predicate NameOk(name: Bytes) { name != [] && |name| <= MaxNameLength }

  /** ValidateUser. The source panics when the hash is missing, a programming
      error; here that is excluded by the precondition. Exactly the failing
      fields are reported: the name, the email, and the password only when a
      plaintext is set. */
  function ValidateUser(errors: Errors, user: User, emailRX: EmailPattern): (r: Errors)
    requires user.password.hash.Some?
    ensures Extends(r, errors)
    ensures r.Keys ==
      errors.Keys
      + (if NameOk(user.name) then {} else {"name"})
      + (if EmailOk(user.email, emailRX) then {} else {"email"})
      + (if user.password.plaintext.Some? && !PasswordOk(user.password.plaintext.value) then {"password"} else {})
  {
    var e1 := Checked(errors, user.name != [], "name", "must be provided");
    var e2 := Checked(e1, |user.name| <= MaxNameLength, "name", "cannot be more than 500 characters");
    assert Extends(e2, errors) && e2.Keys == errors.Keys + (if NameOk(user.name) then {} else {"name"});
    var e3 := ValidateEmail(e2, user.email, emailRX);
    assert Extends(e3, errors);
    if user.password.plaintext.Some? then ValidatePasswordPlaintext(e3, user.password.plaintext.value)
    else e3
  }

  /** A fresh validator stays valid exactly when every checked field is acceptable. */
  lemma ValidateUserValid(user: User, emailRX: EmailPattern)
    requires user.password.hash.Some?
    ensures NoErrors(ValidateUser(map[], user, emailRX)) <==>
      NameOk(user.name) && EmailOk(user.email, emailRX)
      && (user.password.plaintext.Some? ==> PasswordOk(user.password.plaintext.value))
  {
    var keys := ValidateUser(map[], user, emailRX).Keys;
    if !NameOk(user.name) { assert "name" in keys; }
    if !EmailOk(user.email, emailRX) { assert "email" in keys; }
    if user.password.plaintext.Some? && !PasswordOk(user.password.plaintext.value) { assert "password" in keys; }
  }
}

/** internal/data/users.go, the UserModel: the statements on the users table. */
module UserModel {
  import opened Common
  import opened Users
  import opened Tokens
  import opened Storage
  import TokenModel

  /** The row a user is stored as: its password hash but never the plaintext. */
  function Row(u: User): (r: User)
    ensures r.password.plaintext.None? && r.password.hash == u.password.hash
    ensures r.(password := u.password) == u
  {
    u.(password := Password(None, u.password.hash))
  }

  /** Some stored user has the address. */
  predicate EmailHeld(users: map<int, User>, email: Bytes)
  {
    exists id | id in users :: users[id].email == email
  }

  /** The row of `id` exists and carries `version`: the WHERE clause of the update. */
  predicate VersionMatches(users: map<int, User>, id: int, version: int)
  {
    id in users && users[id].version == version
  }

  /** UserModel.InsertUser. A taken address is refused with ErrDuplicateEmail
      and nothing is written; otherwise the row gets the next id, the current
      time and version 1, which are also written back into the caller's user. */
  method InsertUser(db: Database, user: User, now: Time) returns (r: Result<User>)
    requires db.Valid()
    modifies db`users, db`nextUserId
    ensures db.Valid()
    ensures EmailHeld(old(db.users), user.email) ==>
      r == Err(ErrDuplicateEmail) && db.users == old(db.users) && db.nextUserId == old(db.nextUserId)
    ensures !EmailHeld(old(db.users), user.email) ==>
      && r == Ok(user.(id := old(db.nextUserId), createdAt := now, version := 1))
      && old(db.nextUserId) !in old(db.users)
      && db.users == old(db.users)[old(db.nextUserId) := Row(r.value)]
      && db.nextUserId == old(db.nextUserId) + 1
  {
    if exists id | id in db.users :: db.users[id].email == user.email {
      return Err(ErrDuplicateEmail);
    }
    var saved := user.(id := db.nextUserId, createdAt := now, version := 1);
    db.users := db.users[saved.id := Row(saved)];
    db.nextUserId := db.nextUserId + 1;
    r := Ok(saved);
  }

  /** UserModel.GetUserByEmail: the one user with the address, or ErrNoRecord. */
  method GetUserByEmail(db: Database, email: Bytes) returns (r: Result<User>)
    requires db.Valid()
    ensures r.Ok? <==> EmailHeld(db.users, email)
    ensures r.Ok? ==> r.value.id in db.users && db.users[r.value.id] == r.value && r.value.email == email
    ensures r.Err? ==> r.error == ErrNoRecord
    ensures forall id | id in db.users && db.users[id].email == email :: r == Ok(db.users[id])
  {
    r := Err(ErrNoRecord);
    if exists id | id in db.users :: db.users[id].email == email {
      var id :| id in db.users && db.users[id].email == email;
      r := Ok(db.users[id]);
    }
  }

  /** UserModel.UpadeteUser, an optimistic update. When no row has the id and
      the version the caller read, ErrEditConflict and nothing changes; when
      another user holds the new address, ErrDuplicateEmail and nothing
      changes; otherwise name, email, hash and activation are written, the
      creation time is kept, and the version goes up by one in the row and
      in the caller's user. */
  method UpdateUser(db: Database, user: User) returns (r: Result<User>)
    requires db.Valid()
    modifies db`users
    ensures db.Valid()
    ensures !VersionMatches(old(db.users), user.id, user.version) ==>
      r == Err(ErrEditConflict) && db.users == old(db.users)
    ensures VersionMatches(old(db.users), user.id, user.version) && EmailTaken(old(db.users), user.email, user.id) ==>
      r == Err(ErrDuplicateEmail) && db.users == old(db.users)
    ensures VersionMatches(old(db.users), user.id, user.version) && !EmailTaken(old(db.users), user.email, user.id) ==>
      && r == Ok(user.(version := user.version + 1))
      && db.users == old(db.users)[user.id := Row(r.value.(createdAt := old(db.users)[user.id].createdAt))]
  {
    if !(user.id in db.users && db.users[user.id].version == user.version) {
      return Err(ErrEditConflict);
    }
    if exists id | id in db.users :: id != user.id && db.users[id].email == user.email {
      return Err(ErrDuplicateEmail);
    }
    var saved := user.(version := user.version + 1);
    db.users := db.users[user.id := Row(saved.(createdAt := db.users[user.id].createdAt))];
    r := Ok(saved);
  }

  /** Some stored user owns a token row the lookup selects. */
  predicate HasLiveToken(db: Database, hash: Digest, scope: Scope, now: Time)
    reads db
  {
    exists t | t in db.tokens :: TokenModel.Live(t, hash, scope, now) && t.userId in db.users
  }

  /** Expiry is the only condition that depends on the clock: a lookup that
      finds no live token at one instant finds none at any later one. */
  lemma ExpiredStaysExpired(db: Database, hash: Digest, scope: Scope, now: Time, later: Time)
    requires now <= later && !HasLiveToken(db, hash, scope, now)
    ensures !HasLiveToken(db, hash, scope, later)
  {
  }

  /** UserModel.GetUserForToken: the owner of an unexpired token of the scope
      whose digest is the plaintext's, or ErrNoRecord when there is none. */
  method GetUserForToken(db: Database, scope: Scope, plaintext: Bytes, now: Time, sha256: Hasher)
    returns (r: Result<User>)
    ensures r.Ok? <==> HasLiveToken(db, sha256(plaintext), scope, now)
    ensures r.Ok? ==> exists t | t in db.tokens ::
      TokenModel.Live(t, sha256(plaintext), scope, now) && t.userId in db.users && db.users[t.userId] == r.value
    ensures r.Err? ==> r.error == ErrNoRecord
  {
    var hash := sha256(plaintext);
    var live := set t | t in db.tokens && TokenModel.Live(t, hash, scope, now) && t.userId in db.users;
    if live == {} {
      forall t | t in db.tokens && TokenModel.Live(t, hash, scope, now)
        ensures t.userId !in db.users
      {
        assert t.userId in db.users ==> t in live;
      }
      r := Err(ErrNoRecord);
    } else {
      var t :| t in live;
      r := Ok(db.users[t.userId]);
    }
  }
}
