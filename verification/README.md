# Token sessions and owner-scoped files of express-test-project, in Dafny

This project models the core of an Express service that issues JWT access
and refresh tokens and keeps per-user file records. The model covers five
parts:

- **Session handlers** (`signup`, `signin`, `refreshToken`, `logout`, `getInfo`).
  Each handler is a pure transition over an immutable `users`/`tokens`
  store. It takes the store and the request and gives the reply and the
  store afterwards.
- **Authentication gate** (`authMiddleware`). It is a read-only decision
  over the `Authorization` header, the token codec and the `tokens` table.
  The decision either admits a user id or denies with an error kind.
- **Token codec** (`generateTokens`, `verifyAccessToken`,
  `verifyRefreshToken`). Two secrets, two lifetimes and a clock in whole
  seconds. A token is its claims plus the key that signed it, and it
  travels as text. Verification is a partial inverse of issuing: it
  returns `Option` and never fails otherwise.
- **Request validation**. This covers the e-mail and phone patterns as
  explicit character-class predicates, the password length in UTF-16 code
  units, the `trim`/`notEmpty` rule chains, the refresh rule and the
  pagination rules.
- **File handlers**, on the `files` table only:
  - the `parseInt(..) || d` default and clamp of `list_size` and `page`;
  - the offset, `LIMIT`/`OFFSET` and `Math.ceil` page count;
  - the owner-filtered lookups;
  - the insert, update and delete of rows.

  Disk outcomes are boolean inputs.

Modules follow the program's structure:

| Module | File | Contents |
|---|---|---|
| `Options` | `options.dfy` | `Option` |
| `Text` | `text.dfy` | the JavaScript string builtins the code relies on: `split`, `trim`, `parseInt`, `length`, decimal text |
| `Validation` | `validation.dfy` | the request-body rules |
| `TokenCodec` | `token_codec.dfy` | the JWT codec |
| `Store` | `store.dfy` | the two tables, their queries and updates, and bcrypt as an uninterpreted key-derivation function |
| `Http` | `http.dfy` | error kinds and their status codes |
| `AuthController` | `auth_controller.dfy` | the session handlers |
| `AuthMiddleware` | `auth_middleware.dfy` | the gate |
| `Sessions` | `sessions.dfy` | the protected routes and multi-step properties |
| `FileController` | `file_controller.dfy` | the `files` table and its handlers |

Points of behaviour the model takes from the code:

- `refreshToken` answers 401 in two distinct situations: a token that does
  not verify, and a token that no live record holds. They have different
  messages, so they are `BadRefreshToken` and `RefreshTokenNotFound`.
- The `trim()` sanitiser rewrites the request body. The handlers therefore
  store the trimmed identifier and hash the trimmed password.
- `jsonwebtoken` signs at one-second resolution and adds no nonce. Two
  refresh tokens for the same user issued in the same second are the same
  text. Rotation therefore does not stop the replay of a token within the
  second it was issued in (`Sessions.ReplayWithinIssuingSecond`). After
  that second a rotated token cannot be replayed
  (`Sessions.ReplayAfterRotationFails`).
- When writing the new file fails in `updateFile`, the answer is 500 but
  the row keeps the new name, extension, MIME type and size.
- `downloadFile` sets the MIME type and the `Content-Disposition` name as headers before reading. Node's `setHeader` throws on a character outside tab, `0x20`-`0x7E` and `0x80`-`0xFF`, so a stored name such as a Cyrillic one makes the download answer 500 although the file is readable.
- A missing file in `updateFile` is answered 400 before the ownership
  lookup.
- A failed write in `uploadFile` deletes the row again. The auto-increment
  counter stays advanced.

## Model

| member | source | states |
|---|---|---|
| Text.Split | src/middleware/auth.js:14 | `split(' ')` always yields at least one piece and no piece holds the separator |
| Text.JoinSplit | src/middleware/auth.js:14 | joining the pieces of a split with the separator gives back the original text |
| Text.SplitJoin | src/middleware/auth.js:14 | splitting a join of separator-free pieces gives back the pieces |
| Text.SplitAtFirst | src/middleware/auth.js:14 | the first piece is everything before the first separator, and the rest is the split of what follows it |
| Text.TrimShape | src/utils/validation.js:27 | `trim()` keeps a contiguous middle of the text and drops only whitespace before and after it |
| Text.TrimIdempotent | src/utils/validation.js:27 | trimming an already trimmed value changes nothing |
| Text.Utf16Length | src/utils/validation.js:17 | `value.length` counts UTF-16 code units: between one and two per character, and exactly one each inside the Basic Multilingual Plane |
| Text.ParseIntOfIntString | src/controllers/fileController.js:60-61 | `parseInt` reads exactly the value of any `[-+]?[0-9]+` text |
| Text.ParseIntOfNatToString | src/controllers/fileController.js:60-61 | `parseInt` of the decimal text of a number is that number |
| Text.ParseNatToString | src/config/jwt.js:27 | the decimal text of a number reads back as that number, which is what lets a token's numbers be decoded |
| Validation.EmailDecision | src/utils/validation.js:3 | the direct e-mail check (cut at the only `@` and the last `.` after it) holds iff some `@` and `.` cut the text into a non-empty local run, a non-empty domain run and a final run of at least two letters, as the pattern reads |
| Validation.EmailDecisionSound | src/utils/validation.js:3 | a text the direct check accepts is cut by its first `@` and its last `.` as the pattern requires |
| Validation.EmailDecisionComplete | src/utils/validation.js:3 | any cut matching the pattern makes the direct check accept |
| Validation.PhoneEmailDisjoint | src/utils/validation.js:3-4 | no text is both a phone number and an e-mail address |
| Validation.PasswordLength | src/utils/validation.js:15-22 | six characters always pass and fewer than three never do; within the Basic Multilingual Plane the password passes iff it has at least six characters |
| Validation.AuthIssues | src/utils/validation.js:25-37 | no issue iff the trimmed `id` is non-empty and an e-mail or phone, and the trimmed password is non-empty and long enough; an empty field reports both the required and the format issue |
| Validation.RefreshIssues | src/utils/validation.js:40-44 | the refresh token passes iff it is non-empty |
| Validation.PaginationIssues | src/utils/validation.js:47-57 | no issue iff each field that is present is an integer of at least 1 |
| TokenCodec.Fields | src/config/jwt.js:8-18 | a token's text is four dot-free runs of digits |
| TokenCodec.Deserialize | src/config/jwt.js:27 | whatever decodes re-encodes to exactly the decoded text |
| TokenCodec.DeserializeSerialize | src/config/jwt.js:27 | every token's text decodes to that token |
| TokenCodec.SerializeInjective | src/config/jwt.js:6-21 | distinct tokens have distinct texts |
| TokenCodec.SerializeHasNoSpace | src/middleware/auth.js:14 | a token's text holds no space, so it survives being sent as `<scheme> <token>` |
| TokenCodec.GenerateTokens | src/config/jwt.js:6-21 | the access token decodes to the user id under the access secret and lifetime, and the refresh token to the user id under the refresh secret and lifetime, both issued now |
| TokenCodec.Verify | src/config/jwt.js:23-43 | acceptance returns claims whose token under that key is exactly the given text and whose expiry is still ahead; every other input yields `None` |
| TokenCodec.VerifyAccepts | src/config/jwt.js:27 | every unexpired token signed with the key is accepted with its own claims; together with `Verify` this is an if-and-only-if |
| TokenCodec.VerifyRejectsExpired | src/config/jwt.js:27 | a token is rejected once the clock reaches its expiry |
| TokenCodec.VerifyAccessToken | src/config/jwt.js:23-32 | only text signed with the access secret is accepted |
| TokenCodec.VerifyRefreshToken | src/config/jwt.js:34-43 | only text signed with the refresh secret is accepted |
| TokenCodec.GenerateThenVerify | src/config/jwt.js:6-43 | round trip: both tokens of a pair verify to the user id, issue second and expiry before they expire, and are rejected after |
| TokenCodec.RefreshTokenOfClaims | src/config/jwt.js:14-18 | the refresh token issued in a second is determined by the user id, that second and the refresh lifetime alone |
| TokenCodec.SecretsSeparateKinds | src/config/jwt.js:23-43 | with distinct secrets the refresh verifier rejects access tokens and the access verifier rejects refresh tokens |
| TokenCodec.SameSecondSameToken | src/config/jwt.js:8-18 | two tokens of the same kind for one user are the same text iff they were issued in the same second |
| Store.HashPassword | src/controllers/authController.js:32-33 | a fresh hash matches the password it was made from |
| Store.FindByIdentifier | src/controllers/authController.js:19-22 | the first user with that identifier, or `None` iff there is none |
| Store.FindById | src/controllers/authController.js:195-198 | a user with that id, or `None` iff there is none |
| Store.FindLive | src/controllers/authController.js:139-142 | the first live record of the user holding the token, or `None` iff there is none |
| Store.CountValid | src/middleware/auth.js:23-26 | the count of live records is zero iff the user has no live record |
| Store.CountValidAppend | src/middleware/auth.js:23-26 | the live count of a concatenation is the sum of the counts |
| Store.CountValidPush | src/controllers/authController.js:47-50 | appending a record adds exactly what that record contributes to the count |
| Store.CountValidUpdate | src/controllers/authController.js:153-156 | replacing one record changes the count by the difference of what the two records contribute |
| Store.RotatedAtCount | src/controllers/authController.js:153-161 | a rotation trades the switched-off record's contribution for the appended record's |
| Store.InsertToken | src/controllers/authController.js:47-50 | the new record is appended under the next id, valid by the column default, and the users are untouched; the user's live count rises by one, every other user's count stays, and the lookup of the user and token finds a live record |
| Store.AppendTokenWellFormed | src/controllers/authController.js:47-50 | appending a record of an existing user under the next id keeps the schema guarantees |
| Store.InvalidateUser | src/controllers/authController.js:177-180 | exactly the user's live records are switched off: the user's live count becomes zero and every other user's count stays |
| Store.CountValidSameCounted | src/middleware/auth.js:23-26 | two tables whose records contribute alike, position by position, give a user the same live count |
| Store.InsertUserFinds | src/controllers/authController.js:19-39 | after registering an identifier no user had, the identifier lookup finds the new user in the appended row |
| Store.InsertUserWellFormed | src/controllers/authController.js:24-39 | inserting an identifier no user has keeps the schema guarantees and names a new user id |
| Store.InsertTokenWellFormed | src/controllers/authController.js:47-50 | inserting a record for an existing user keeps the schema guarantees |
| Store.InvalidateByIdWellFormed | src/controllers/authController.js:153-156 | switching records off keeps the schema guarantees |
| Store.InvalidateUserWellFormed | src/controllers/authController.js:177-180 | logging out keeps the schema guarantees |
| Store.InvalidateThenInsert | src/controllers/authController.js:153-161 | switching off a record by its id and appending one is a rotation at that record |
| Store.InvalidateByIdOnlyRow | src/controllers/authController.js:153-156 | in a well-formed table the update by id switches off one record and leaves every other record equal |
| AuthController.Signup | src/controllers/authController.js:10-56 | invalid input gives 400 and changes nothing; a taken identifier gives 400 and changes nothing; otherwise one user with the trimmed identifier and a hash matching the trimmed password is appended, plus one live record holding the returned refresh token under a fresh user id, and the schema guarantees hold |
| AuthController.Signin | src/controllers/authController.js:69-110 | the pair is issued iff the input passes the rules and the trimmed password matches the hash of the user with the trimmed identifier; an unknown identifier and a wrong password give the same 401 and change nothing; otherwise exactly one live record for the matching user is appended, holding the returned refresh token, every existing record stays and only the token counter advances |
| AuthController.Rotate | src/controllers/authController.js:139-163 | succeeds iff a live record of the user holds the token; then exactly the first such record is switched off, one live record for the new refresh token is appended under the next id, and the users and the user counter stay; otherwise 401 and nothing changes |
| AuthController.Refresh | src/controllers/authController.js:123-163 | an empty token gives 400, a token that does not verify under the refresh secret gives 401, and either leaves the store unchanged; a verified token is rotated for the user it names |
| AuthController.Logout | src/controllers/authController.js:177-182 | every record of the caller ends up switched off, other users' records and every other column stay, the caller's live count is zero and every other user's live count is unchanged |
| AuthController.GetInfo | src/controllers/authController.js:195-205 | the identifier of the user with that id, or 404 iff there is none |
| AuthMiddleware.HeaderToken | src/middleware/auth.js:14 | the token is absent iff the header holds no space, and never holds a space |
| AuthMiddleware.HeaderTokenAfterScheme | src/middleware/auth.js:14 | whatever word precedes the first space, the text after it is the token |
| AuthMiddleware.HeaderTokenIgnoresTail | src/middleware/auth.js:14 | anything after a second space is ignored |
| AuthMiddleware.Gate | src/middleware/auth.js:8-40 | a missing or empty header, a token that fails verification, and a user with no live record each give 401; a store failure gives 500; otherwise the gate admits exactly the token's user |
| AuthMiddleware.AdmitJustified | src/middleware/auth.js:14-34 | every admission comes with a live record of the admitted user and an unexpired access token of that user in the header |
| Sessions.InfoRoute | src/routes/auth.js:14 | `/info` behind the gate answers the gate's denial, or the admitted user's identifier; the 404 cannot happen there |
| Sessions.LogoutRoute | src/routes/auth.js:15 | `/logout` behind the gate changes nothing when denied, and leaves the admitted user with no live record |
| Sessions.FreshAccessTokenAdmits | src/middleware/auth.js:14-34 | a freshly issued access token sent as `Bearer <token>` before it expires admits its user while that user has a live record |
| Sessions.SigninUser | src/controllers/authController.js:83-110 | a successful signin issues the pair of the user with that identifier and appends one record for it |
| Sessions.SigninAddsOneSession | src/controllers/authController.js:102-108 | a successful signin raises the signed-in user's live count by one and every other user's by zero |
| Sessions.SigninThenAccess | src/controllers/authController.js:102-110 | the access token a signin returns admits the signed-in user until it expires |
| Sessions.SignupThenInfo | src/controllers/authController.js:36-56 | after a signup, `/info` with the returned access token answers the trimmed identifier |
| Sessions.LogoutRevokesAccess | src/middleware/auth.js:23-31 | after logout the gate admits no request as that user, whatever the token |
| Sessions.SigninLogoutThenDenied | src/middleware/auth.js:23-31 | signin, then logout: the access token still verifies, but the gate answers "session expired" |
| Sessions.LogoutIdempotent | src/controllers/authController.js:177-182 | the handler run a second time changes nothing and still succeeds; through `GET /logout` a second request never reaches it (`Sessions.LogoutRouteTwice`) |
| Sessions.LogoutRouteTwice | src/middleware/auth.js:23-31 | a second `GET /logout` with the header that passed the gate the first time is refused 401 (session expired) and changes nothing |
| Sessions.RotateShape | src/controllers/authController.js:150-161 | a rotation appends the row for the new refresh token under the next id and switches off one live record holding the old one |
| Sessions.RotateKeepsSessionCount | src/controllers/authController.js:150-161 | a rotation leaves every user's number of live sessions unchanged |
| Sessions.SameUserRotationKeepsCount | src/controllers/authController.js:153-161 | trading a live record for a live record of the same user keeps every user's count |
| Sessions.RotatedAtLeavesNoCopy | src/controllers/authController.js:153-161 | a rotation that switches off the only live record holding a token, and appends a different token, leaves no live record holding it |
| Sessions.RefreshFailsWithoutHolder | src/controllers/authController.js:139-147 | a verified refresh token that no live record of its user holds is refused at any clock reading |
| Sessions.NewRefreshTokenDiffers | src/controllers/authController.js:150-161 | the refresh token a rotation issues differs from a presented token issued in another second |
| Sessions.ReplayAfterRotationFails | src/controllers/authController.js:139-163 | once a refresh token issued in an earlier second has been rotated, presenting it again fails, as long as only one live record held it |
| Sessions.ReplayWithinIssuingSecond | src/controllers/authController.js:150-161 | a refresh in the second the token was issued returns the same token, so presenting it again succeeds |
| Sessions.RotateFindsLiveRow | src/controllers/authController.js:139-147 | a live record holding the token makes the rotation succeed |
| FileController.Keep | src/controllers/fileController.js:70-79 | filtering keeps only rows meeting the condition and never grows the table |
| FileController.KeptFromRows | src/controllers/fileController.js:76-79 | every kept row is a row of the table |
| FileController.KeepAppend | src/controllers/fileController.js:76-79 | filtering distributes over concatenation, so table order is kept |
| FileController.KeepAll | src/controllers/fileController.js:35-38 | a table whose rows all meet the condition is kept whole |
| FileController.KeepDropsOne | src/controllers/fileController.js:35-38 | a row that fails the condition adds nothing |
| FileController.FindOwned | src/controllers/fileController.js:106-109 | the lookup finds a row with that id owned by the caller, or `None` iff there is none |
| FileController.UploadFile | src/controllers/fileController.js:11-48 | no file gives 400 and no change; a failed write gives 500 and leaves the rows as before; otherwise exactly one row for the caller is appended under a fresh id, and the reply names that id |
| FileController.Effective | src/controllers/fileController.js:60-65 | the setting is at least 1; it is the default or the parsed value, and a parsed value of at least 1 is always used |
| FileController.TotalPages | src/controllers/fileController.js:81 | zero pages iff zero items; otherwise the last page is partly or fully filled: `(pages - 1) * size < count <= pages * size` |
| FileController.CeilBounds | src/controllers/fileController.js:81 | integer ceiling division meets those bounds |
| FileController.Page | src/controllers/fileController.js:76-79 | `LIMIT size OFFSET offset` gives the rows from the offset on, at most `size` of them, and none past the end |
| FileController.ListPage | src/controllers/fileController.js:67-91 | the items are the caller's rows from `(page - 1) * size` on without `user_id`: `size` of them, fewer on the last page, none past it; the block reports the page, the size, the caller's row count, and a page count that is zero iff there are no rows and otherwise the least number of pages holding them all |
| FileController.ListFiles | src/controllers/fileController.js:60-91 | the reply is the listing of the effective page and size: the total counts only the caller's rows, the page count is its ceiling quotient by the size, and the items are the caller's rows from `(page - 1) * size` on |
| FileController.ListedAreOwned | src/controllers/fileController.js:70-79 | every listed item is the public view of a row the caller owns |
| FileController.ItemOnItsPage | src/controllers/fileController.js:67-81 | the caller's k-th row appears at position `k % size` of page `k / size + 1`, and that page is within the page count |
| FileController.PagesInRange | src/controllers/fileController.js:67-81 | a page has items iff its number is at most the page count |
| FileController.ValidatedQueryHonored | src/utils/validation.js:47-57 | a value the pagination rule accepts is used exactly as given |
| FileController.NumberQueryHonored | src/controllers/fileController.js:60-65 | the decimal text of a positive number selects exactly that number |
| FileController.GetFileInfo | src/controllers/fileController.js:106-116 | the public view of a row with that id owned by the caller, or 404 iff there is none |
| FileController.DownloadFile | src/controllers/fileController.js:124-159 | 404 iff the caller owns no row with that id; otherwise the stored file `<id><extension>` is sent under the row's name and MIME type when reading succeeds and `setHeader` accepts both; a name or MIME type it refuses, or a failed read, gives 500 from the `catch` |
| FileController.DownloadSentIff | src/controllers/fileController.js:131-153 | in a well-formed table, the download of an owned row is sent iff the file is readable and its name and MIME type are valid header values |
| FileController.DownloadMatchesInfo | src/controllers/fileController.js:106-153 | with a readable file, a download is sent iff the info request for that id finds the row with a name and MIME type `setHeader` accepts, and it carries the name, MIME type and extension the info reports |
| FileController.DispositionValid | src/controllers/fileController.js:150 | the `attachment; filename="..."` header value is valid iff the file name is |
| Http.HeaderValueConcat | src/controllers/fileController.js:149-150 | a concatenation is a header value Node accepts iff both parts are |
| FileController.UpdateFile | src/controllers/fileController.js:166-226 | no file gives 400 and no change; 404 and no change when the caller owns no row with that id; otherwise only that row's name, extension, MIME type and size change, and the reply is 200 iff the write succeeds and 500 when it fails |
| FileController.UpdateOnlyRow | src/controllers/fileController.js:201-204 | the unfiltered `UPDATE ... WHERE id` touches only the owned row and keeps its id, owner and upload date |
| FileController.DeleteFile | src/controllers/fileController.js:242-265 | 404 and no change when the caller owns no row with that id; a failed unlink gives 500 and keeps the row; otherwise exactly that row is removed and the others stay in order |
| FileController.DeleteOnlyRow | src/controllers/fileController.js:263 | in a well-formed table the delete by id removes exactly one row and keeps the rest in order |
| FileController.RemoveWellFormed | src/controllers/fileController.js:263 | removing a row keeps the ids increasing and below the counter |

## Left out

- SQL execution, the connection pool and the handlers' `catch` blocks. A store failure inside a handler (500) is not modelled. At the gate the store's availability is an input.
- The interleaving of concurrent requests, and a crash between the two statements of a rotation. Each handler is one atomic step.
- bcrypt: salting and hashing are an uninterpreted function, with the salt as an input.
- The JWT signature, base64 and the library's clock. A token is its claims and the key that signed it; expiry compares whole seconds.
- Express wiring, `src/app.js`, the upload middleware (`src/middleware/upload.js`) and the test configuration. They are framework glue; the routes are modelled only where they put a handler behind the gate.
- The file routes (`src/routes/file.js:17` puts every file handler behind the gate) are not composed with `AuthMiddleware.Gate`. Each file handler takes as a parameter the user id the gate admitted; a denied request answers the gate's failure as in `Sessions.LogoutRoute`.
- Node's header-value rule is modelled on the characters of the name and MIME type (tab, `0x20`-`0x7E`, `0x80`-`0xFF`); the rest of `res.setHeader`, `res.send` and the response stream are not.
- The localised message texts. Error kinds and status codes replace them.
- The file contents and every filesystem call (`writeFile`, `readFile`, `unlink`, `path.join`). Their outcomes are boolean inputs, and `path.extname` is a function parameter.
- The `upload_date` default. The database's clock is the input `now`.
- The string form of `req.params.id`. A file id is a number, and the stored file's name uses its decimal text.
- A query parameter given several times. Express then passes an array to `parseInt`.
- The pagination rules are declared but not attached to the file routes, and they check the body rather than the query. They are modelled on their own (`Validation.PaginationIssues`) and linked to the listing by `FileController.ValidatedQueryHonored`.
- FileController.TotalPages: `Math.ceil` over a floating-point quotient is modelled as exact integer ceiling division. This is exact for counts below 2^53.
- FileController.Effective: `parseInt` loses precision above 2^53. The model reads digits exactly.
- Identifier comparison is exact on the characters (`authController.js:20`, `:79`). MySQL's default collations compare case-insensitively and ignore trailing spaces, and the schema is not part of this model, so `Store.FindByIdentifier` may distinguish identifiers the database would treat as equal.
- Row order. A `SELECT` without `ORDER BY` is taken to return rows in insertion order. This decides which user `users[0]` is (`authController.js:90`), which record `tokens[0].id` switches off (`authController.js:155`), and which rows `LIMIT`/`OFFSET` pick (`fileController.js:77`); MySQL does not promise that order.
- AuthMiddleware.Gate: a thrown exception other than a failed count query (for example a header of another type) is not modelled.
