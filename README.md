# User registration and bearer-token authentication, modelled in Dafny

This project models the parts of the user-account service that carry
behaviour of their own:

- **The registration route** `POST /api/v1/users` (`source/src/user/userRouter.js`).
  Each of the three fields (username, email, password) is checked by a chain
  of validators. A `bail()` stops a chain once it has reported an error.
  The handler collects the errors into a `validationErrors` object and answers 400.
  When there is no error it saves the user and answers with the `user_created` message key.
- **The user table** (`source/src/user/UserService.js`).
  `save` hashes the password and inserts one row.
  `findByEmail` is the uniqueness check: it raises `been_taken` when the email is already stored.
- **The token table** (`source/src/auth/TokenService.js`).
  `createToken` stores a random 32-character token against a user id.
  `verify` resolves a token to `{ id }` and fails when no row holds it.
  `removeToken` deletes every row holding the token.
- **The authentication middleware** (`source/src/middleware/TokenAuthentication.js`).
  It drops the first seven characters of the `Authorization` header and verifies the rest.
  On success it records the identity on the request; it swallows any failure.
  It always calls `next` exactly once.

Modules, one per file:

| file | module | what it holds |
|---|---|---|
| wrappers.dfy | Wrappers | `Option`, `Outcome`, `Result` |
| query.dfy | Query | the ORM's `findOne` (first matching row) and `destroy` (delete where) over a table held as a sequence of rows |
| messages.dfy | Messages | the message keys (`blank`, `username_size`, ...) |
| user_service.dfy | UserService | request bodies, user rows, the `UserTable` class with `Save` and `FindByEmail` |
| validation.dfy | Validation | validator chains as data, the library's bail semantics, the three chains of the route, the password pattern |
| user_router.dfy | UserRouter | the `forEach` that builds `validationErrors`, the route handler, the registration test cases |
| token_service.dfy | TokenService | the `TokenTable` class with `CreateToken`, `Verify`, `RemoveToken` |
| token_authentication.dfy | TokenAuthentication | `Request` and `Next`, the header-to-token step, the middleware method |

Abstract pieces become parameters:
- the email grammar of the validation library is `isEmail: string -> bool`;
- bcrypt is `hash: string -> string`;
- the output of the random generator is the 32-character string `drawn`.

Modelling choices:
- A null or missing body field is `None`. The validators see it as `""`, as the library converts null to the empty string.
- A table is the sequence of its rows in insertion order, and `findOne` returns the first matching row.
- A JavaScript object with keys in insertion order is a list of (key, value) entries.
- User rows get an auto-increment `id`, which `createToken` reads.

Three behaviours of the code that the model keeps as they are:
- Registration inserts the row and nothing else. There is no activation token, no email dispatch and no transaction.
- `verify` on an unknown token does not return "not found". It fails reading `userId` of a null row, and the middleware swallows that failure.
- `removeToken` deletes every row holding the token, not a single row.

## Model

| member | source | states |
|---|---|---|
| Validation.UsernameRule | source/src/user/userRouter.js:8 | username verdict: null or empty gives `blank`; otherwise a length outside 4..32 gives `username_size`; otherwise no error |
| Validation.EmailRule | source/src/user/userRouter.js:9-16 | email verdict: `blank`, else `not_valid` when the grammar rejects it, else `been_taken` when a stored user has that email, else no error |
| Validation.PasswordRule | source/src/user/userRouter.js:17-25 | password verdict: `blank`, else `password_size` under 6 characters, else `password_chars` when the pattern fails, else no error |
| Validation.PasswordPatternMeaning | source/src/user/userRouter.js:24 | the anchored pattern with its three lookaheads accepts exactly the strings with an ASCII lowercase letter, an ASCII uppercase letter and a digit, and no line terminator |
| Validation.FirstFailure | source/src/user/userRouter.js:8-25 | reference reading of a chain: no message iff every validator passes; otherwise the message of the earliest failing validator |
| Validation.BailReportsFirstFailure | source/src/user/userRouter.js:8-25 | a chain with a bail after every validator reports exactly its earliest failure and nothing after it |
| Validation.ChainsBailAfterEach | source/src/user/userRouter.js:8-25 | each of the three chains has a bail between every two validators |
| Validation.ReportedIsVerdict | source/src/user/userRouter.js:8-25 | each field reports at most one message, and that message is its verdict |
| Validation.ErrorsAreVerdicts | source/src/user/userRouter.js:27 | the error array holds one error per failing field, carrying the field's verdict, in the order username, email, password |
| Validation.NoErrorsIffAllPass | source/src/user/userRouter.js:27-28 | the error array is empty exactly when all three fields pass |
| UserRouter.AssignGet | source/src/user/userRouter.js:31 | after `obj[f] = m`, `obj[f]` reads `m` and every other key keeps its value |
| UserRouter.AssignKeys | source/src/user/userRouter.js:31 | after `obj[f] = m` the keys are the old keys plus `f` |
| UserRouter.AssignAppends | source/src/user/userRouter.js:31 | a key the object lacks is added after all existing keys |
| UserRouter.AssignDistinct | source/src/user/userRouter.js:31 | assignment never makes a key appear twice |
| UserRouter.CollectLastWins | source/src/user/userRouter.js:29-32 | the built object has distinct keys; its keys are exactly the fields some error names; `obj[f]` is the message of the last error about `f` |
| UserRouter.CollectDistinct | source/src/user/userRouter.js:29-32 | when no two errors name the same field, the object lists the errors in array order |
| UserRouter.BuildValidationErrors | source/src/user/userRouter.js:29-32 | the loop builds the same object as assigning each error in turn to an empty object |
| UserRouter.CollectThree | source/src/user/userRouter.js:29-32 | at most one error per field, in field order, gives one entry per failing field in that order |
| UserRouter.ValidationErrorsExact | source/src/user/userRouter.js:27-33 | `validationErrors` holds exactly the failing fields with their verdicts, ordered username, email, password |
| UserRouter.PostUsers | source/src/user/userRouter.js:26-37 | any failure: 400 with the error object, table unchanged; no failure: the password is present, one `Stored` row is appended and the answer is 200 with `user_created` |
| UserRouter.ValidUserAccepted | source/__test__/UserRegister.spec.js:14-39 | the fixture `user1` / `user1@mail.com` / `P4ssword` with a well-formed unused email produces no errors |
| UserRouter.UsernameMessages | source/__test__/UserRegister.spec.js:110-112 | null, `usr` and 33 `a`s give the username message the test expects |
| UserRouter.EmailMessages | source/__test__/UserRegister.spec.js:113-116 | null gives `blank`; three addresses the grammar rejects give `not_valid` |
| UserRouter.PasswordMessages | source/__test__/UserRegister.spec.js:117-123 | null, `p4ssw` and the five one-class-short strings give `blank`, `password_size` and `password_chars` |
| UserRouter.TablePasswordsFailPattern | source/__test__/UserRegister.spec.js:119-123 | each of the five strings lacks a lowercase letter, an uppercase letter or a digit, so the pattern rejects it |
| UserRouter.NullUsernameAndEmail | source/__test__/UserRegister.spec.js:75-84 | null username and null email give the keys `[username, email]` |
| UserRouter.NullUsernameAndTakenEmail | source/__test__/UserRegister.spec.js:141-150 | null username and a stored email give the keys `[username, email]` with `been_taken` on email |
| UserRouter.TakenFixtureRejected | source/__test__/UserRegister.spec.js:135-139 | once the fixture's email is stored, the fixture gets exactly `{email: been_taken}` |
| UserRouter.RegisterTwice | source/__test__/UserRegister.spec.js:25-54 | from an empty table the fixture is answered 200 with `user_created` and stores one row with its username, email and hashed password; a second post gets 400 with `been_taken` |
| UserService.UserTable.Save | source/src/user/UserService.js:4-9 | with a password: appends exactly one row, the body with the password hashed and the next id, keeping earlier rows; without one: hashing fails and nothing changes; ids stay unique |
| UserService.UserTable.FindByEmail | source/src/user/UserService.js:11-16 | fails with `been_taken` exactly when some stored user has the email, otherwise passes; it changes nothing |
| UserService.StoredKeepsBody | source/src/user/UserService.js:5-6 | the saved row keeps username and email and stores `hash(password)` |
| UserService.StoredPasswordIsNotPlaintext | source/src/user/UserService.js:5-6 | when the hash has no fixed point, the stored password differs from the plaintext |
| Query.FindOne | source/src/auth/TokenService.js:17 | `findOne` gives the first row satisfying the condition, or none exactly when no row does |
| Query.DestroyWhere | source/src/auth/TokenService.js:25 | `destroy` keeps exactly the rows not satisfying the condition, and no more rows than before |
| Query.DestroyWhereConcat | source/src/auth/TokenService.js:25 | deletion keeps the surviving rows in their order (it distributes over concatenation) |
| Query.DestroyWhereNoMatch | source/src/auth/TokenService.js:25 | deleting where no row matches leaves the table unchanged |
| Query.DestroyWhereIdempotent | source/src/auth/TokenService.js:25 | deleting twice with the same condition equals deleting once |
| Query.FindOneAppended | source/src/auth/TokenService.js:5-19 | a matching row appended after non-matching rows is the one `findOne` returns |
| Query.FindOneAfterDestroy | source/src/auth/TokenService.js:17-25 | after deleting by a condition, `findOne` with that condition finds nothing |
| TokenService.TokenTable.CreateToken | source/src/auth/TokenService.js:5-11 | appends exactly one row `(token, user.id)` and returns that token, of length 32; a token not stored before then verifies to the user |
| TokenService.TokenTable.Verify | source/src/auth/TokenService.js:15-19 | succeeds exactly when some row holds the token, with `{id}` from the first such row; otherwise fails with the null dereference; reads the table only |
| TokenService.TokenTable.RemoveToken | source/src/auth/TokenService.js:22-26 | deletes every row holding the token, keeping the rest; afterwards the token no longer verifies; on an unknown token the table is unchanged |
| TokenService.TokenLifecycle | source/src/auth/TokenService.js:5-26 | a freshly issued token verifies to its user, and after removal verification fails |
| TokenAuthentication.BearerToken | source/src/middleware/TokenAuthentication.js:6 | the token is the header minus its first seven characters, whatever they are; a shorter header gives "" |
| TokenAuthentication.Authenticate | source/src/middleware/TokenAuthentication.js:4-13 | no identity without a non-empty header; an identity exactly when some token row holds the extracted token, and then it is that row's user id |
| TokenAuthentication.PrefixIsIgnored | source/src/middleware/TokenAuthentication.js:6 | any two seven-character prefixes in front of the same token authenticate alike |
| TokenAuthentication.TokenAuthentication | source/src/middleware/TokenAuthentication.js:3-15 | calls `next` exactly once; sets `authenticatedUser` to the resolved identity, or leaves it as it was when there is none; touches nothing else, so neither the token table nor any response |
| TokenAuthentication.IssuedTokenAuthenticates | source/src/middleware/TokenAuthentication.js:8-9 | `Bearer <token>` for a freshly issued token sets `authenticatedUser` to `{id}` of its user |
| TokenAuthentication.UnknownTokenPassesOn | source/src/middleware/TokenAuthentication.js:10-14 | an unknown token and a missing header both leave the request unauthenticated, and `next` runs once per request |

## Left out

- Translation (`req.t`) and the locale files: the model carries message keys, not translated text.
- The `timestamp` and `path` fields of error bodies: they depend on the clock and on the HTTP framework.
- Asynchronous sequencing: each awaited step is one sequential step. Two requests that interleave between the uniqueness check and the insert are not modelled.
- The email grammar (`isEmail`), bcrypt and the random generator are parameters with no definition here.
- Only what the model assumes of bcrypt is stated: the hash is a function of the password. Salting makes real hashes differ between calls; the model does not capture that.
- The length check counts code points (`|s|`). The validation library's own character counting, which also discounts variation selectors in some versions, is not modelled.
- Body fields are strings or absent. Numbers, arrays and other JSON values, which the library first converts to strings, are not modelled.
- The validation chains also read cookies, headers, route params and the query string. The model validates only the JSON body, so a field supplied in the query string, a cookie or a header is not modelled.
- Body fields other than username, email and password, which `save` would pass on to the ORM, are not modelled.
- The `id` assignment of the user table is an assumed auto-increment column. The User model file is not part of this model.
- The duplicate unvalidated `POST /api/v1/users` in `source/src/app.js`, server start-up and email transport: plumbing with no logic.
- Listing, login, activation, update and delete, including the 403 answers that follow an unauthenticated request: their implementations are not part of this model.
- `findOne` without an `ORDER BY` may return any matching row; the model returns the first in insertion order.
