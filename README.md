# Greenlight core in Dafny

A model of the rules underneath the Greenlight movie-catalogue JSON API, with proofs about them. Greenlight is a Go service with users, activation and authentication tokens, per-user permissions and a movies table.

- **Storage.** The Postgres tables become one `Storage.Database` object:
  - users by id, each with a version;
  - a set of token records;
  - movies by id, each with a version;
  - the permission codes granted to each user.
- **Statements.** Each SQL statement is a method with `modifies` on the tables it writes.
  - An `UPDATE … WHERE id = $n AND version = $m` is a compare-and-swap that bumps the version.
  - `InsertUser` and `UpadeteUser` refuse a taken email address. This keeps the unique constraint `users_email_key`, which is part of `Database.Valid()`.
- **Parameters.** SHA-256, bcrypt, the email pattern, the Postgres full-text title match, the token-bucket `Allow`, the clock and crypto/rand are all parameters of the operations that use them.
- **Text.** A Go string is a sequence of bytes, because Go's `len` counts bytes.

The modules follow the source:

- **Validation** (`validator.dfy`) is the first-write-wins error map.
  - `Validator` is a class whose `AddError` and `CheckAdd` update its map in place.
  - `ListUnique` is a loop.
  - `WithError` and `Checked` are the same updates as functions on maps, used by the pure field validators.
- **Filters, Runtime, Tokens, Users, Movies** hold the values and pure checks of `internal/data`.
- **TokenModel, UserModel, MovieModel, PermissionModel** are the statements on the tables.
  - `MovieModel.ListMovies` evaluates `ORDER BY <column> <dir>, id ASC LIMIT … OFFSET …`.
  - It does so with `Window.OrderedPage`, a loop that repeatedly takes the first remaining row and is proved to return exactly the window of the ordered rows.
- **Base32** is unpadded base32 with the standard alphabet (section 6 of RFC 4648).
- **Decimal** is base-10 formatting and parsing as `fmt` and `strconv.ParseInt` do it.
- **Text** holds the `strings` helpers.
- **Middleware** holds:
  - the CORS decision;
  - the rate limiter's per-IP client table, as a class with a lazy-creating `Handle` and an idle `Sweep` loop;
  - Bearer header parsing and the `authenticate` decision;
  - the authenticated → activated → permission chain.
- **Helpers** holds the query-string readers.
- **MovieHandlers, UserHandlers, TokenHandlers** model the HTTP handlers as methods over the database. Each returns a `Responses.Response` tag instead of writing JSON.

## Model

| member | source | states |
|---|---|---|
| Validation.NoErrors | internal/validator/validator.go:22-24 | an error map counts as valid exactly when it is empty |
| Validation.WithError | internal/validator/validator.go:26-30 | AddError on a map: the key set grows by the key, every existing message is kept, and a new key gets the message |
| Validation.Checked | internal/validator/validator.go:32-36 | CheckAdd on a map: a true condition changes nothing; a false one adds the key (with the message if it was new) and keeps every existing message |
| Validation.WithErrorIdempotent | internal/validator/validator.go:26-30 | recording the same error twice gives the map of recording it once |
| Validation.Validator.constructor | internal/validator/validator.go:16-20 | a new validator has no errors and is valid |
| Validation.Validator.IsValid | internal/validator/validator.go:22-24 | true exactly when the error map is empty |
| Validation.Validator.AddError | internal/validator/validator.go:26-30 | the map becomes WithError of the old one: first write wins, the key set only grows, no message is replaced |
| Validation.Validator.CheckAdd | internal/validator/validator.go:32-36 | the map becomes Checked of the old one, which extends it |
| Validation.ValueInList | internal/validator/validator.go:38-40 | true exactly when the value occurs at some position of the list |
| Validation.ListUnique | internal/validator/validator.go:42-51 | the loop with its seen-set returns true exactly when no value occurs at two positions |
| Filters.ValidateFilters | internal/data/filters.go:18-26 | keeps earlier messages and adds exactly "page" (bad page or page size) and "sort" (key not in the safe list) |
| Filters.ValidateFiltersValid | internal/data/filters.go:18-26 | a fresh validator stays valid iff 1 ≤ page ≤ 10,000,000, 1 ≤ page_size ≤ 100 and the sort key is in the safe list |
| Filters.BadPageHidesPageSize | internal/data/filters.go:19-23 | with a bad page, the "page" message is the page's, so any page-size message is hidden |
| Filters.Limit | internal/data/filters.go:28-30 | LIMIT is the page size, between 1 and 100 for a valid page size |
| Filters.Offset | internal/data/filters.go:32-34 | for valid filters OFFSET is non-negative, below 10^9, and OFFSET + LIMIT = page · page_size |
| Filters.SortDirection | internal/data/filters.go:43-48 | descending exactly when the sort key starts with "-" |
| Filters.SortColumn | internal/data/filters.go:36-41 | for a key in the safe list: the key with its leading "-" removed for descending, the key itself for ascending |
| Filters.SortKeyRoundTrip | internal/data/filters.go:36-48 | column and direction together give back the sort key |
| Filters.CeilDiv | internal/data/filters.go:58 | the integer ceiling of total / size |
| Filters.NewMetadata | internal/data/filters.go:57-66 | page, page size and total are copied; the last page is the fewest pages holding all records, 0 when there are none |
| Runtime.MarshalJSON | internal/data/runtime.go:14-18 | the output is double-quoted and unquotes to the decimal value, a space and "mins" |
| Runtime.UnmarshalJSON | internal/data/runtime.go:20-38 | on any error the receiver keeps its value; the unquote error occurs exactly when the input is not an escape-free quoted string |
| Runtime.RoundTrip | internal/data/runtime.go:14-38 | every int32 survives MarshalJSON then UnmarshalJSON, whatever the receiver held |
| Runtime.UnmarshalAccepts | internal/data/runtime.go:20-38 | accepted with value n iff the unquoted text is "<a> mins" with a space-free a that ParseInt reads as n in int32 range |
| Runtime.NonIntegerIsInvalid | internal/data/runtime.go:30-33 | a first part that is not a base-10 int32 gives ErrInvalidRuntime and leaves the receiver alone |
| Runtime.WrongShapeIsInvalid | internal/data/runtime.go:25-28 | text that is not one space-free part, a space and "mins" gives ErrInvalidRuntime |
| Decimal.FormatParseRoundTrip | internal/data/runtime.go:15 | parsing the decimal text of an in-range integer gives it back |
| Decimal.ParseInt | internal/data/runtime.go:30 | a parsed value lies in the bit size's range and came from optionally signed digits |
| Decimal.ParseIntDigits | internal/data/runtime.go:30 | every non-empty run of digits, bare, after "+" or after "-", parses to its signed value exactly when that value is in range |
| Decimal.FormatInt | internal/data/runtime.go:15 | non-negative numbers are their digits with no leading zero; negative ones are "-" followed by the magnitude's digits, which start with a non-zero digit |
| Text.Split | internal/data/runtime.go:25 | one more piece than separators, no piece holds the separator, and joining the pieces gives the input back |
| Text.SplitOfJoin | cmd/api/helpers.go:129 | splitting the join of separator-free pieces gives the pieces back |
| Text.ToLower | cmd/api/helpers.go:106 | same length; A-Z become a-z and every other byte is kept |
| Text.ToLowerOfLower | cmd/api/helpers.go:106 | text without upper-case letters is left as it is |
| Text.ToLowerIdempotent | cmd/api/helpers.go:106 | lowering twice is lowering once |
| Base32.Encode | internal/data/tokens.go:41 | unpadded length ⌈8n/5⌉ and every symbol in the alphabet |
| Base32.SixteenBytes | internal/data/tokens.go:34-41 | sixteen bytes encode to exactly 26 symbols from A-Z and 2-7 |
| Base32.Decode | internal/data/tokens.go:41 | unpadded decoding: succeeds exactly when every symbol is in the alphabet and the length modulo 8 is not 1, 3 or 6; n symbols give ⌊5n/8⌋ bytes |
| Base32.DecodeEncode | internal/data/tokens.go:41 | decoding the encoding of any byte string gives it back |
| Base32.EncodeInjective | internal/data/tokens.go:41 | two byte strings with the same encoding are equal, so distinct random bytes give distinct plaintexts |
| Tokens.GenerateToken | internal/data/tokens.go:27-47 | owner and scope copied, expiry now + TTL, plaintext the base32 of the random bytes (26 symbols), hash the SHA-256 of the plaintext |
| Tokens.ValidateTokenPlaintext | internal/data/tokens.go:49-52 | keeps earlier messages and adds only "token", exactly when the plaintext is not 26 bytes long (an empty one included) |
| Tokens.ValidateTokenPlaintextValid | internal/data/tokens.go:49-52 | accepted iff exactly 26 bytes; otherwise only the key "token" is reported |
| Tokens.EmptyTokenMessage | internal/data/tokens.go:49-52 | an empty plaintext is reported as "must be provided", not as the length message |
| Tokens.GeneratedTokenIsValid | internal/data/tokens.go:41 | every generated plaintext passes ValidateTokenPlaintext |
| Tokens.Record | internal/data/tokens.go:71-81 | the stored row holds the hash, owner, expiry and scope, and never the plaintext |
| TokenModel.InsertToken | internal/data/tokens.go:71-89 | exactly one record is added, or the table is unchanged and the error returned |
| TokenModel.NewToken | internal/data/tokens.go:58-69 | the generated token is returned even when the insert fails, together with the insert's error |
| TokenModel.DeleteAllForUser | internal/data/tokens.go:91-103 | the table becomes WithoutUserScope of the old one |
| TokenModel.WithoutUserScope | internal/data/tokens.go:91-103 | a subset of the table without any token of the user and scope that keeps every other token |
| TokenModel.NewTokenIsLive | internal/data/users.go:190-200 | until it expires, a new token's record is selected by the token lookup |
| Users.OnlySentinelIsAnonymous | internal/data/users.go:16-20 | only the anonymous sentinel is anonymous; any user record, even a zero one, is not |
| Users.SetPassword | internal/data/users.go:37-46 | on a hash failure nothing is set; otherwise both the plaintext and the hash are recorded |
| Users.Matches | internal/data/users.go:48-60 | a match is (true, nil), a mismatch (false, nil), any other failure (false, err), never (true, err) |
| Users.ValidateEmail | internal/data/users.go:62-65 | keeps earlier messages and adds only the key "email", exactly when the address is empty or fails the pattern |
| Users.EmptyEmailMessage | internal/data/users.go:62-65 | an empty address keeps "must be provided"; the pattern message cannot replace it |
| Users.ValidateEmailTwice | cmd/api/tokens.go:25-26 | validating an address twice gives the map of validating it once |
| Users.ValidatePasswordPlaintext | internal/data/users.go:67-71 | keeps earlier messages and adds only the key "password", exactly when the length is outside 8-72 bytes |
| Users.ValidateUser | internal/data/users.go:73-85 | keeps earlier messages; exactly the failing fields are added; the password is checked only when a plaintext is set |
| Users.ValidateUserValid | internal/data/users.go:73-85 | a fresh validator stays valid iff name, email and (if set) password are acceptable |
| UserModel.Row | internal/data/users.go:91-102 | the stored row keeps the hash and drops the plaintext |
| UserModel.InsertUser | internal/data/users.go:91-122 | a taken address gives ErrDuplicateEmail and changes nothing; otherwise the user is stored under the next id with created_at now and version 1 |
| UserModel.GetUserByEmail | internal/data/users.go:124-154 | the one stored user with the address, or ErrNoRecord exactly when none has it |
| UserModel.UpdateUser | internal/data/users.go:156-188 | a missing id or stale version gives ErrEditConflic and no change; an address held by another user gives ErrDuplicateEmail and no change; otherwise the row is replaced with version + 1 |
| UserModel.ExpiredStaysExpired | internal/data/users.go:199 | a digest and scope with no live token at one instant have none at any later instant |
| UserModel.GetUserForToken | internal/data/users.go:190-231 | a user exactly when a record with hash SHA-256(plaintext), the scope and an expiry after now exists, and the user owns such a record; otherwise ErrNoRecord |
| Movies.ValidateMovie | internal/data/movies.go:29-43 | exactly the failing fields (title, runtime, year, genres) are added and earlier messages are kept |
| Movies.ValidateMovieValid | internal/data/movies.go:29-43 | valid iff a 1-500 byte title, a positive runtime, 1888 ≤ year ≤ the current year, and 1-5 distinct genres |
| Movies.ZeroIsMissing | internal/data/movies.go:33-37 | a zero runtime or year is reported as "must be provided", not as out of range |
| Movies.ColumnNamed | internal/data/movies.go:175 | every name in the sort columns names a column |
| Movies.PrecedesTransitive | internal/data/movies.go:175 | ORDER BY column, direction and then id is transitive |
| Movies.PrecedesTotal | internal/data/movies.go:175 | two movies with different ids are always ordered one way or the other |
| MovieModel.InsertMovie | internal/data/movies.go:49-75 | the movie is stored under the next id with created_at now and version 1, and no existing row changes |
| MovieModel.GetByID | internal/data/movies.go:77-107 | the stored movie, or ErrNoRecord exactly when the id is absent |
| MovieModel.DeleteByID | internal/data/movies.go:109-133 | only the row with the id is removed; ErrNoRecord exactly when there was none |
| MovieModel.UpdateMovie | internal/data/movies.go:135-165 | succeeds iff the row with the id has the same version; then fields are replaced and the version becomes old + 1; otherwise ErrEditConflic and no change |
| Movies.Matches | internal/data/movies.go:172-174 | with no title, year −1 and no genres every movie matches; a year other than −1 matches only movies of that year |
| MovieModel.Selected | internal/data/movies.go:171-174 | the stored movies the WHERE clause matches, and only those; with no filters, every stored movie |
| MovieModel.SelectedDistinctIds | internal/data/movies.go:171-174 | the selected rows have pairwise different ids |
| MovieModel.PrecedesStrictTotalOn | internal/data/movies.go:175 | the listing order is a strict total order on the selected rows |
| MovieModel.ListMovies | internal/data/movies.go:167-224 | an unknown sort column is a query error; otherwise the page is the LIMIT/OFFSET window of the rows matching title, year (−1 any) and genres (empty any) in the listing order, with metadata from page, page size and match count, except that a page past the last match gives total_records and last_page 0, with the page and page size still copied (the total is read from the returned rows) |
| Window.FirstExists | internal/data/movies.go:175-177 | every non-empty set has a first row under a strict total order |
| Window.OrderedPage | internal/data/movies.go:175-177 | the loop returns exactly the rows ranked offset to offset + limit − 1, in order |
| Responses.StatusCode | cmd/api/errors.go:19-52 | 2xx exactly for success, 400 for bad requests and failed validation, 409 for edit conflicts, 429 for rate limiting, 500 for server errors |
| Helpers.ReadString | cmd/api/helpers.go:100-107 | the default for an absent or empty value, otherwise the value in lower case |
| Helpers.ReadStringIdempotent | cmd/api/helpers.go:100-107 | with a lower-case default, reading back what was read gives the same text |
| Helpers.Atoi | cmd/api/helpers.go:115 | a result lies in the int64 range, and every non-empty run of digits within it is read as its value |
| Helpers.QueryInt | cmd/api/helpers.go:109-121 | the default for an absent, empty or malformed value; otherwise the int64 that Atoi reads |
| Helpers.ReadInt | cmd/api/helpers.go:109-121 | the default and no message when absent; the default and "must be integer" under the key when malformed; otherwise the integer |
| Helpers.ReadIntOfFormatted | cmd/api/helpers.go:115-120 | a value written in decimal is read back as itself with no message |
| Helpers.ReadIntAbsent | cmd/api/helpers.go:110-113 | an absent key gives the default and never a message |
| Helpers.ReadCSV | cmd/api/helpers.go:123-130 | the default when absent; otherwise one more piece than commas, joining back to the value |
| Helpers.ReadParamID | cmd/api/helpers.go:89-98 | an int64: the value ParseInt reads when the text is a base-10 int64, and −1 otherwise |
| Helpers.ReadParamIDRoundTrip | cmd/api/helpers.go:92 | every int64 written in decimal is read back as itself |
| Middleware.EnableCORS | cmd/api/middleware.go:180-200 | Access-Control-Allow-Origin only for a trusted origin; preflight iff trusted, OPTIONS and a request method; methods and headers on preflight; Vary keeps Origin and Access-Control-Request-Method |
| Middleware.VaryAsWritten | cmd/api/middleware.go:93 | as written, Vary ends up as Access-Control-Request-Method only, then Authorization only |
| Middleware.VaryKept | cmd/api/middleware.go:182-183 | with Add, Vary keeps Origin, Access-Control-Request-Method and Authorization |
| Middleware.Swept | cmd/api/middleware.go:48-52 | the sweep removes exactly the clients idle for more than 3 minutes and keeps the others unchanged |
| Middleware.RecentClientSurvives | cmd/api/middleware.go:49 | a client seen within 3 minutes survives the sweep |
| Middleware.RateLimiter.constructor | cmd/api/middleware.go:39-42 | the client table starts empty |
| Middleware.RateLimiter.Handle | cmd/api/middleware.go:57-86 | disabled: forward, table untouched; no address: server error; otherwise the entry is created if new, lastSeen set to now on every request, and forward iff the bucket allows, else rate limit exceeded |
| Middleware.RateLimiter.Sweep | cmd/api/middleware.go:48-52 | the loop leaves the table as Swept of the old one |
| Middleware.ParseBearer | cmd/api/middleware.go:102-106 | an extracted token is preceded in the header by exactly "Bearer" and one space, and holds no space |
| Middleware.ParseBearerExact | cmd/api/middleware.go:102-106 | a token is extracted iff the header is exactly "Bearer", one space, and a space-free token |
| Middleware.Authenticate | cmd/api/middleware.go:91-132 | empty header: anonymous; bad shape or wrong length: invalid token without lookup; otherwise continue iff a live authentication-scope token exists, as its owner |
| Middleware.RequireAuthenticatedUser | cmd/api/middleware.go:147-158 | the anonymous user gets authentication-required; any authenticated user goes on to the wrapped handler |
| Middleware.RequireActivatedUser | cmd/api/middleware.go:134-145 | anonymous: authentication-required; authenticated but inactive: inactive-account; activated: the wrapped handler |
| Middleware.RequirePermission | cmd/api/middleware.go:134-178 | pass iff authenticated, activated and granted; anonymous first gets authentication-required, then inactive gets inactive-account, then not-permitted |
| PermissionModel.AddForUser | cmd/api/users.go:55 | the codes are added to the user's existing codes |
| PermissionModel.GetAllForUser | cmd/api/middleware.go:165 | a user's granted codes, none for a user never granted any |
| MovieHandlers.NewMovie | cmd/api/movies.go:25-33 | placeholder id 1 and version 1, the input fields, no genres when none were sent |
| MovieHandlers.CreateMovie | cmd/api/movies.go:12-56 | bad body: bad request; invalid movie: failed validation with ValidateMovie's map and nothing stored; otherwise 201 with the movie stored under the next id |
| Responses.LookupFailure | cmd/api/movies.go:66-73 | not found exactly for ErrNoRecord, a server error otherwise |
| Responses.UpdateFailure | cmd/api/movies.go:133-140 | 409 edit conflict exactly for ErrEditConflic, a server error otherwise; activateUserHandler maps its update error the same way |
| MovieHandlers.ShowMovie | cmd/api/movies.go:58-80 | the stored movie for the parsed id, or not found |
| MovieHandlers.Merge | cmd/api/movies.go:113-124 | title if non-empty, runtime if non-zero, year if non-zero, genres whenever sent; id, created_at and version kept |
| MovieHandlers.EmptyPatchKeepsMovie | cmd/api/movies.go:113-124 | an empty patch leaves the movie as it was |
| MovieHandlers.MergeIdempotent | cmd/api/movies.go:113-124 | applying the same patch twice is the same as once |
| MovieHandlers.FullPatchReplaces | cmd/api/movies.go:113-124 | a patch with every field set gives the same movie whatever the stored fields were |
| MovieHandlers.UpdateMovieHandler | cmd/api/movies.go:82-152 | missing movie: not found before the body is read; bad body: bad request; success iff the merge is valid, storing it with version + 1; failed validation carries ValidateMovie's map; the table is unchanged on every other outcome |
| MovieHandlers.SaveMovie | cmd/api/movies.go:126-141 | invalid movie: failed validation, nothing written; a row since deleted or with another version: edit conflict, nothing written; otherwise success with version + 1 and the stored creation time kept |
| MovieHandlers.DeleteMovie | cmd/api/movies.go:154-176 | 200 iff the parsed id was stored, not found otherwise; only that row is removed |
| MovieHandlers.SafeSortKeyResolves | cmd/api/movies.go:195-201 | every key of the safe sort list names a column of the table |
| MovieHandlers.QueryFilter | cmd/api/movies.go:192-201 | page 1, page size 100 and sort "id" when absent; a sort value lower-cased; page numbers as readInt reads them; the fixed safe sort list |
| MovieHandlers.EmptyQueryDefaults | cmd/api/movies.go:189-201 | defaults: title "", year −1, genres [], page 1, page_size 100, sort "id", and they pass ValidateFilters |
| MovieHandlers.ReadListQuery | cmd/api/movies.go:186-201 | the six query values with their defaults, and "must be integer" under each of year, page and page_size that is malformed |
| MovieHandlers.ListMoviesHandler | cmd/api/movies.go:178-218 | failed validation iff a malformed integer or a bad filter, carrying the readInt messages followed by ValidateFilters' map; otherwise 200 with the window of the matching movies in the requested order and the metadata of ListMovies |
| UserHandlers.NewUser | cmd/api/users.go:25-29 | a new user is not activated and carries the input's name and email |
| UserHandlers.RegisterUser | cmd/api/users.go:12-91 | bad body, hash failure, invalid input (ValidateUser's map) and a taken address (an "email" message) change nothing; success stores the user with version 1, grants "movies:read", issues an activation token expiring in 3 days and answers 202 |
| UserHandlers.Enroll | cmd/api/users.go:42-65 | insert, then grant, then issue the token; a taken address stops before the grant |
| UserHandlers.RegisteredUserAwaitsActivation | cmd/api/users.go:25-65 | a registered user is inactive and their activation token is live for 3 days |
| UserHandlers.ActivateUser | cmd/api/users.go:93-151 | bad body: bad request; wrong length: ValidateTokenPlaintext's map; no live activation token: "token" message and no change; otherwise the owner is activated with version + 1 and only their activation tokens are deleted |
| TokenHandlers.LoginErrorsAreEmailErrors | cmd/api/tokens.go:24-30 | the double email check is one email check; only the email is validated, never the password |
| TokenHandlers.CreateAuthenticationToken | cmd/api/tokens.go:12-64 | a token exactly on 200; unknown address and wrong password both give invalid credentials; a comparison failure gives a server error; success adds one authentication token expiring in 24 hours for that user |
| TokenHandlers.LoginTokenAuthenticates | cmd/api/tokens.go:54 | for 24 hours, a login token is selected by the authentication lookup |
| TokenHandlers.LoginThenAuthenticate | cmd/api/tokens.go:12-64 | a successful login followed by a request carrying "Bearer <token>" runs as that user until 24 hours after the login, and is refused as an invalid token from then on |

## Left out

- I/O:
  - `readJSON` and `writeJSON` are left out. A request body arrives already decoded, or as `None` for any decoding error.
  - A successful write is a `Success` tag. The `serverError` after a failed write is not modelled.
- `background`, the welcome mail, the mutex, and the goroutine that sweeps every minute are left out. `Sweep` is a method taking `now`.
- `recoverPanic` and `metrics` are left out.
- `main`, the server, the routes table and its route-to-permission pairs, and the health check are left out. They contain no logic.
- The permissions file is not part of this model. The permission table is modelled from its call sites.
- Foreign code that becomes a parameter or is left out:
  - bcrypt, SHA-256 and the email pattern are parameters.
  - The full-text title match is a parameter.
  - The token bucket's float arithmetic is an abstract `allow` over per-client state.
  - The clock is a parameter.
  - crypto/rand becomes the 16 random bytes. Its failure is not modelled.
- Database errors other than the ones below are not modelled: timeouts, driver failures, the server error of `GellAllForUser`, and the non-ErrNoRecord errors of the lookups and of `DeleteAllForUser`.
  - A failed token insert is modelled.
  - `ErrNoRecord`, `ErrEditConflic` and `ErrDuplicateEmail` are modelled.
  - An unknown sort column is modelled as a query error.
- `net.SplitHostPort` is reduced to an optional address.
- MovieHandlers.UpdateMovieHandler, UserHandlers.ActivateUser: the edit-conflict response cannot occur through these handlers in the model. Requests run one at a time, so the version read is always current. The conflict only arises under concurrent requests; MovieHandlers.SaveMovie states it for a stale version.
- Runtime.UnmarshalJSON, Runtime.Unquote: only escape-free quoted input is modelled. Unquote decodes only double-quoted and back-quoted literals without escapes, and treats all other input as a syntax error. MarshalJSON never produces escapes.
- Text.ToLower lowers only ASCII letters. It does not model Unicode case mapping.
- Movies.ColumnLess: text and arrays compare byte by byte (the "C" collation). Other collations are not modelled.
- Filters.NewMetadata uses integer ceiling division in place of `math.Ceil` on a float.
- MovieModel.ListMovies requires a sort key from the safe list and a page and page size of at least 1, which the handler guarantees after `ValidateFilters`. It does not model `SortColumn`'s panic for other keys.
- Users.ValidateUser requires a hash, where the source panics on a missing one.
- Version counters are unbounded integers. The int32 overflow of `version` is not modelled.
- `time.Now().Year()` in `ValidateMovie` and `createMovie` is the `currentYear` parameter.
- The upper-year message of `ValidateMovie` reuses "must be at least 1888", and the model keeps that text.
- `ValidateFilters` records page-size failures under "page", and the model keeps the key.
- `readParamID` never returns an error, so the handlers' not-found branch for a bad id is unreachable. A bad id is looked up as −1.

## Findings

| source | as written | input that shows it | evidently intended | confidence | as-written member | corrected member |
|---|---|---|---|---|---|---|
| cmd/api/middleware.go:182-183 | `Vary` is set to "Origin" and then set again to "Access-Control-Request-Method", so the first value is lost | any request: the response varies on Access-Control-Request-Method only, so a cache may serve one origin's CORS headers to another | both Origin and Access-Control-Request-Method listed in Vary | not executed | Middleware.EnableCORSAsWritten, Middleware.VaryAsWritten | Middleware.EnableCORS, Middleware.VaryKept |
| cmd/api/middleware.go:93 | `authenticate` sets `Vary: Authorization`, replacing the CORS values recorded earlier in the chain | any non-preflight request: the final Vary is only Authorization | Authorization added to the Vary values already present | not executed | Middleware.AuthenticateVaryAsWritten, Middleware.VaryAsWritten | Middleware.AuthenticateVary, Middleware.VaryKept |
