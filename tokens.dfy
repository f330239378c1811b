/** internal/data/tokens.go, the values: a token is 16 random bytes written in
    unpadded base32; only its SHA-256 digest is stored, with the owner, the
    expiry and the scope. */
module Tokens {
  import opened Common
  import opened Validation
  import Base32

  datatype Scope = Activation | Authentication

  /** A SHA-256 digest. */
  type Digest = s: Bytes | |s| == 32 witness seq(32, _ => 0 as byte)

  /** sha256.Sum256, which the model does not compute: any function of this type. */
  type Hasher = Bytes -> Digest

  /** The struct returned to the caller: the plaintext is shown exactly once. */
  datatype Token = Token(plaintext: Bytes, hash: Digest, userId: int, expiry: Time, scope: Scope)

  /** A row of the tokens table: everything but the plaintext. */
  datatype TokenRecord = TokenRecord(hash: Digest, userId: int, expiry: Time, scope: Scope)

  const PlaintextLength: nat := 26

  /** The record InsertToken writes for a token. */
  function Record(t: Token): (r: TokenRecord)
    ensures r.hash == t.hash && r.userId == t.userId && r.expiry == t.expiry && r.scope == t.scope
  {
    TokenRecord(t.hash, t.userId, t.expiry, t.scope)
  }

  /** generateToken, with the clock reading and the 16 bytes from crypto/rand
      passed in. */
  function GenerateToken(userId: int, timeToLive: int, scope: Scope, now: Time,
                         randomBytes: seq<byte>, sha256: Hasher): (t: Token)
    requires |randomBytes| == 16
    ensures t.userId == userId && t.scope == scope && t.expiry == now + timeToLive
    ensures t.plaintext == Base32.Encode(randomBytes) && t.hash == sha256(t.plaintext)
    ensures |t.plaintext| == PlaintextLength
    ensures forall i | 0 <= i < |t.plaintext| :: t.plaintext[i] in Base32.Alphabet
  {
    Base32.SixteenBytes(randomBytes);
    var plaintext := Base32.Encode(randomBytes);
    Token(plaintext, sha256(plaintext), userId, now + timeToLive, scope)
  }

  /** ValidateTokenPlaintext: present, and exactly 26 bytes long. */
  function ValidateTokenPlaintext(errors: Errors, plaintext: Bytes): (r: Errors)
    ensures Extends(r, errors)
    ensures r.Keys == errors.Keys + (if |plaintext| == PlaintextLength then {} else {"token"})
  {
    var e := Checked(errors, plaintext != [], "token", "must be provided");
    Checked(e, |plaintext| == PlaintextLength, "token", "must be 26 bytes long")
  }

  /** A fresh validator stays valid exactly for 26-byte plaintexts; otherwise
      the one key "token" is reported. */
  lemma ValidateTokenPlaintextValid(plaintext: Bytes)
    ensures NoErrors(ValidateTokenPlaintext(map[], plaintext)) <==> |plaintext| == PlaintextLength
    ensures |plaintext| != PlaintextLength ==> ValidateTokenPlaintext(map[], plaintext).Keys == {"token"}
  {
  }

  /** An empty plaintext is reported as missing, not as having the wrong length. */
  lemma EmptyTokenMessage()
    ensures ValidateTokenPlaintext(map[], []) == map["token" := "must be provided"]
  {
  }

  /** Every generated plaintext passes ValidateTokenPlaintext. */
  lemma GeneratedTokenIsValid(userId: int, timeToLive: int, scope: Scope, now: Time,
                              randomBytes: seq<byte>, sha256: Hasher)
    requires |randomBytes| == 16
    ensures NoErrors(ValidateTokenPlaintext(map[], GenerateToken(userId, timeToLive, scope, now, randomBytes, sha256).plaintext))
  {
    ValidateTokenPlaintextValid(GenerateToken(userId, timeToLive, scope, now, randomBytes, sha256).plaintext);
  }
}

/** internal/data/tokens.go, the TokenModel: the statements on the tokens table. */
module TokenModel {
  import opened Common
  import opened Tokens
  import opened Storage

  /** TokenModel.InsertToken: one row is added, holding the digest, the owner,
      the expiry and the scope, never the plaintext. `fails` stands for an
      error from the database, in which case no row is added. */
  method InsertToken(db: Database, t: Token, fails: bool) returns (err: Option<DataError>)
    modifies db`tokens
    ensures err.Some? <==> fails
    ensures err.Some? ==> err.value == ErrQuery
    ensures db.tokens == if fails then old(db.tokens) else old(db.tokens) + {Record(t)}
  {
    if fails {
      return Some(ErrQuery);
    }
    db.tokens := db.tokens + {Record(t)};
    err := None;
  }

  /** TokenModel.NewToken: generate a token and insert its record. The token
      is returned even when the insert failed, together with the error. */
  method NewToken(db: Database, userId: int, timeToLive: int, scope: Scope, now: Time,
                  randomBytes: seq<byte>, sha256: Hasher, insertFails: bool)
    returns (t: Token, err: Option<DataError>)
    requires |randomBytes| == 16
    modifies db`tokens
    ensures t == GenerateToken(userId, timeToLive, scope, now, randomBytes, sha256)
    ensures err.Some? <==> insertFails
    ensures db.tokens == if insertFails then old(db.tokens) else old(db.tokens) + {Record(t)}
  {
    t := GenerateToken(userId, timeToLive, scope, now, randomBytes, sha256);
    err := InsertToken(db, t, insertFails);
  }

  /** The rows DeleteAllForUser leaves: all but the user's tokens of the scope. */
  function WithoutUserScope(tokens: set<TokenRecord>, userId: int, scope: Scope): (r: set<TokenRecord>)
    ensures r <= tokens
    ensures forall t | t in r :: !(t.userId == userId && t.scope == scope)
    ensures forall t | t in tokens && !(t.userId == userId && t.scope == scope) :: t in r
  {
    set t | t in tokens && !(t.userId == userId && t.scope == scope)
  }

  /** TokenModel.DeleteAllForUser. */
  method DeleteAllForUser(db: Database, userId: int, scope: Scope)
    modifies db`tokens
    ensures db.tokens == WithoutUserScope(old(db.tokens), userId, scope)
  {
    db.tokens := WithoutUserScope(db.tokens, userId, scope);
  }

  /** A token row that GetUserForToken's WHERE clause selects. */
  predicate Live(t: TokenRecord, hash: Digest, scope: Scope, now: Time)
  {
    t.hash == hash && t.scope == scope && t.expiry > now
  }

  /** Until it expires, the record of a freshly generated token is selected
      by its own plaintext's digest and scope. */
  lemma NewTokenIsLive(userId: int, timeToLive: int, scope: Scope, now: Time,
                       randomBytes: seq<byte>, sha256: Hasher, later: Time)
    requires |randomBytes| == 16
    requires later < now + timeToLive
    ensures var t := GenerateToken(userId, timeToLive, scope, now, randomBytes, sha256);
            Live(Record(t), sha256(t.plaintext), scope, later) && Record(t).userId == userId
  {
  }
}
