/** The Postgres database behind the models, as the tables the core reads
    and writes: users by id, token records, movies by id, and the permission
    codes granted to each user. Ids come from sequences that never reuse a value. */
module Storage {
  import opened Common
  import opened Users
  import opened Tokens
  import opened Movies

  /** The errors the models report: data.ErrNoRecord, data.ErrEditConflic,
      data.ErrDuplicateEmail, and any other error from the database. */
  datatype DataError = ErrNoRecord | ErrEditConflict | ErrDuplicateEmail | ErrQuery

  datatype Result<T> = Ok(value: T) | Err(error: DataError)

  /** No two users share an email address (the unique constraint users_email_key). */
  ghost predicate UniqueEmails(users: map<int, User>)
  {
    forall a, b | a in users && b in users && a != b :: users[a].email != users[b].email
  }

  /** Some user other than `except` holds the address. */
  predicate EmailTaken(users: map<int, User>, email: Bytes, except: int)
  {
    exists id | id in users :: id != except && users[id].email == email
  }

  class Database {
    var users: map<int, User>
    var nextUserId: int
    var tokens: set<TokenRecord>
    var movies: map<int, Movie>
    var nextMovieId: int
    var permissions: map<int, set<string>>

    /** Rows sit under their own id, ids are below the next sequence value,
        emails are unique, and no plaintext password is ever stored. */
    ghost predicate Valid()
      reads this
    {
      && 1 <= nextUserId && 1 <= nextMovieId
      && (forall id | id in users :: users[id].id == id && 1 <= id < nextUserId)
      && (forall id | id in users :: users[id].password.plaintext.None?)
      && UniqueEmails(users)
      && (forall id | id in movies :: movies[id].id == id && 1 <= id < nextMovieId)
    }

    constructor ()
      ensures Valid()
      ensures users == map[] && tokens == {} && movies == map[] && permissions == map[]
    {
      users := map[];
      nextUserId := 1;
      tokens := {};
      movies := map[];
      nextMovieId := 1;
      permissions := map[];
    }
  }
}

/** The permission model the middleware and the registration handler call:
    granting codes to a user, and reading a user's codes. */
module PermissionModel {
  import opened Storage

  /** Permissions.AddForUser. */
  method AddForUser(db: Database, userId: int, codes: set<string>)
    modifies db`permissions
    ensures db.permissions == old(db.permissions)[userId := GetAllForUser(old(db.permissions), userId) + codes]
  {
    db.permissions := db.permissions[userId := GetAllForUser(db.permissions, userId) + codes];
  }

  /** The codes granted to a user; none for a user never granted any. */
  function GetAllForUser(permissions: map<int, set<string>>, userId: int): (codes: set<string>)
    ensures userId in permissions ==> codes == permissions[userId]
    ensures userId !in permissions ==> codes == {}
  {
    if userId in permissions then permissions[userId] else {}
  }
}
