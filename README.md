# Auth tokens, password hashing and `.env.local` loading in Dafny

This project models the core of a small Express/MongoDB user-credential service:

- **Token codec** (`src/utils/jwt.ts`). `signJwt` builds a JWS Compact Serialization token (section 7.1 of RFC 7515). The token carries JWT claims (RFC 7519), is signed with HS256 (section 3.2 of RFC 7518), and each segment is unpadded base64url (section 5 of RFC 4648). `verifyJwt` checks, in this order:
  1. the segment count;
  2. the recomputed MAC;
  3. the payload decode and parse;
  4. the `exp` claim.
- **Credential hasher** (`src/utils/password.ts`). `hashPassword` and `verifyPassword` use PBKDF2 with SHA-256 (section 5.2 of RFC 8018). The salt and key are stored as hex.
- **Authentication flow** (`src/controllers/authController.ts`). `register` and `login` run over the `users` collection. The collection is modelled as a `UserStore` object holding a map from lower-cased email to document, which plays the role of the unique index on `email`.
- **Environment loader** (`loadEnvLocal` in `src/index.ts`). This is a `KEY=VALUE` line reader that adds keys to `process.env` and never overwrites one.

The model is made of these modules:

| file | module | contents |
|---|---|---|
| `wrappers.dfy` | `Wrappers` | `Option`, `Result` |
| `text.dfy` | `Text` | the JavaScript string operations the source uses: `split`, `indexOf`, `replace(/x/g, …)`, `trim` with the JavaScript whitespace set, ASCII `toLowerCase`, `length` in UTF-16 code units |
| `codecs.dfy` | `Codecs` | standard base64 (encode padded, decode unpadded), lower-case hex encode and the lenient hex decode of `Buffer.from(s, 'hex')`, each with its round trip proved |
| `json.dfy` | `JsonValues` | JSON values, the serialiser pair, JavaScript truthiness and the conversion to a number (a number, NaN, or a thrown TypeError) |
| `jwt.dfy` | `Jwt` | the token codec |
| `password.dfy` | `Password` | the hasher |
| `auth.dfy` | `Auth` | the flow: the `UserStore` and `AuthController` classes |
| `envlocal.dfy` | `EnvLocal` | the `.env.local` loader: the `ProcessEnv` class and its loop |

The following are not computed; the model takes them as parameters:

- **Primitives.** HMAC-SHA256 (`Hmac`), PBKDF2 (`Kdf`) and `JSON.stringify`/`JSON.parse` (`JsonCodec`). The only assumptions about them are stated as predicates in the `requires` clauses that need them: `RoundTrips` (parse after stringify is the identity) and `DerivesKeyLen` (PBKDF2 returns `keylen` bytes).
- **Inputs from the outside world:**
  - the clock (`nowMs`, as `Date.now()`);
  - the random salt bytes;
  - the ObjectId that MongoDB assigns (`newId`);
  - the contents of `.env.local` (`None` when the file does not exist);
  - `process.env` (a map).

The source spreads the caller's claims after `iat`/`exp`, so a caller's `iat` or `exp` wins. The model follows this code (`Jwt.FullPayload`). A stricter design would make the computed timestamps authoritative.

## Model

| member | source | states |
|---|---|---|
| Codecs.Base64Encode | src/utils/jwt.ts:5 | `toString('base64')`: three bytes to four digits, and a last group of one or two bytes padded with `=`. Its properties are `Base64EncodeAlphabet` and `Base64RoundTrip` |
| Codecs.Base64Decode | src/utils/jwt.ts:27 | decoding yields three bytes for every four digits. The bits left over after the last whole byte are ignored |
| Codecs.Base64RoundTrip | src/utils/jwt.ts:27-31 | base64-decoding the padded encoding with its `=` removed gives back the original bytes |
| Codecs.Base64EncodeAlphabet | src/utils/jwt.ts:5 | every character of the standard base64 encoding is a base64 digit or `=` |
| Codecs.HexEncode | src/utils/password.ts:11-12 | hex text is lower-case hex digits, two per byte |
| Codecs.HexRoundTrip | src/utils/password.ts:11-19 | `Buffer.from(hex, 'hex')` of a `toString('hex')` gives back the bytes |
| Codecs.HexDecode | src/utils/password.ts:18-19 | lenient decoding yields at most one byte per two characters |
| JsonValues.ToNumber | src/utils/jwt.ts:34 | converting a JSON value to a number for `now > payload.exp` throws a TypeError exactly when the value is an object with its own `toString` member, or an array holding such an object at any depth |
| Jwt.Base64Url | src/utils/jwt.ts:3-6 | base64url output never contains `=`, `+` or `/` |
| Jwt.Base64UrlHasNoDot | src/utils/jwt.ts:3-6 | base64url output never contains the segment separator `.` |
| Jwt.Base64UrlRoundTrip | src/utils/jwt.ts:27-31 | undoing the substitution (`-` to `+`, `_` to `/`) and base64-decoding recovers the bytes |
| Jwt.FromBase64Url | src/utils/jwt.ts:27 | a segment is read back by mapping `-` to `+` and `_` to `/`, then base64-decoding. `Base64UrlRoundTrip` states that this inverts `Base64Url` |
| Jwt.SignatureMatches | src/utils/jwt.ts:25-28 | the third segment decodes to bytes equal in length and content to the HMAC recomputed over the first two segments joined by `.` |
| Jwt.Expired | src/utils/jwt.ts:34 | `payload.exp && now > payload.exp` holds: `exp` is an own member of an object, it is truthy, and it converts to a number below the current second. `ExpiryRule` states it case by case |
| Jwt.ExpiryRule | src/utils/jwt.ts:34 | no `exp`, or a falsy one, never expires. A numeric `exp` expires exactly when it is non-zero and the current second is past it, so a token is still valid at `now == exp`. An empty array is truthy, coerces to 0, and so expires at any positive time. The comparison throws, and never also expires, exactly when `exp` is an object with its own `toString` member or an array with such an element at any depth |
| Jwt.ThrowingExpiry | src/utils/jwt.ts:34-37 | an `exp` of `{toString: 0}`, or an array holding `{toString: null}`, makes the comparison throw. An object with only its own `valueOf` does not |
| Jwt.FullPayload | src/utils/jwt.ts:8-11 | the signed claims are the caller's claims plus `iat` and `exp`. Every caller claim keeps its value. Absent caller values give `iat = now` and `exp = now + expiresInSeconds` |
| Jwt.SignJwt | src/utils/jwt.ts:8-18 | the token splits at `.` into exactly three segments. They are the base64url text of the JSON header, of the JSON merged claims, and of the HMAC of the first two segments joined by `.`. They decode to the JSON header `{alg: HS256, typ: JWT}`, the JSON of the merged claims (times in whole seconds), and the HMAC of the first two segments joined by `.` |
| Jwt.VerifyJwt | src/utils/jwt.ts:20-39 | "Invalid token format" exactly when the split does not give 3 parts. "Invalid signature" exactly when there are 3 parts and the third does not decode to the recomputed MAC. After a matching MAC there are three outcomes. "Verification failed" is given when the payload does not decode, does not parse, parses to null, or has an `exp` whose comparison with the clock throws. An expired payload gives "Token expired". Any other payload gives a valid result carrying that payload. Every error is one of the four messages |
| Jwt.SignThenVerify | src/utils/jwt.ts:8-37 | verifying a signed token with the same secret returns exactly the merged claims. The exceptions are "Token expired" when those claims are expired at verification time, and "Verification failed" when their `exp` makes the comparison throw |
| Jwt.TokenLifetime | src/utils/jwt.ts:33-34 | with `exp` set by `signJwt`, the token is valid exactly when `exp` is 0 or the verification second is at most `exp`. It is still valid at `now == exp`. Otherwise the error is "Token expired" |
| Jwt.FreshTokenIsValid | src/utils/jwt.ts:8-35 | with a non-negative lifetime, a token verified in the second it was signed is valid and returns the merged claims |
| Password.HashPassword | src/utils/password.ts:7-14 | fails exactly when the password is shorter than 6 UTF-16 code units (JavaScript's `length`), with the source's message. On success: iterations are 100000; the salt is 32 lower-case hex characters decoding to the random bytes; the hash is lower-case hex decoding to the PBKDF2 key derived from the password and that salt text with 100000 rounds; that hash is 64 characters when PBKDF2 yields `KEYLEN` bytes |
| Password.VerifyPassword | src/utils/password.ts:16-22 | true exactly when the stored hash decodes to the key re-derived with the given salt and iteration count. The count defaults to 100000 |
| Password.LengthMismatchRejected | src/utils/password.ts:18-20 | a stored hash whose decoded length differs from `KEYLEN` never verifies |
| Password.HashThenVerify | src/utils/password.ts:7-21 | a password that `hashPassword` accepted verifies against the salt, hash and iterations it returned |
| Password.LengthInCodeUnits | src/utils/password.ts:8 | three characters outside the Basic Multilingual Plane (length 6 in JavaScript) are accepted. Two such characters, or five ASCII characters, are rejected |
| Password.DefaultIterations | src/utils/password.ts:16 | omitting the iteration count is the same as passing 100000 |
| Auth.JwtSecret | src/controllers/authController.ts:65 | the signing key is `JWT_SECRET` when set and non-empty, otherwise the development fallback. It is never empty |
| Auth.IdentityClaims | src/controllers/authController.ts:66 | the claims both handlers sign: `sub` is the user id and `email` is the stored email |
| Auth.AuthController.TokenFor | src/controllers/authController.ts:65-66 | the token both handlers issue: the identity claims signed with `JwtSecret` and the default seven-day lifetime |
| Auth.IssuedTokenIdentifiesUser | src/controllers/authController.ts:63-66 | a token issued by the flow verifies, at issue time, to claims with `sub` the user id, `email` the stored email, `iat` now and `exp` seven days later |
| Auth.UserStore.FindOne | src/controllers/authController.ts:46 | finds the document stored under the email, or nothing exactly when there is none |
| Auth.UserStore.InsertOne | src/controllers/authController.ts:62 | inserts exactly one document when its email is free, and changes nothing otherwise |
| Auth.AuthController.Register | src/controllers/authController.ts:33-71 | an empty email or a password shorter than 6 UTF-16 code units gives 400 with "Email and password (>=6) are required" and leaves the store unchanged. A lower-cased email already present gives 400 with "Email already registered" and leaves the store unchanged. Otherwise exactly one document is added under the lower-cased email, carrying the salt, hash and iterations of `hashPassword`, the given name and the new id. The reply is 200 with a token for that id and email and the matching user info. The store stays one document per lower-case email |
| Auth.AuthController.Login | src/controllers/authController.ts:82-108 | 400 with "Email and password are required" exactly when a field is empty. 401 exactly when the lower-cased email is unknown or the password fails against the record's own salt, hash and iterations; both cases get the identical reply. 200 carries a token for the stored id and email, and that email is the request's email lower-cased. The store is not modified (no `modifies` clause) |
| Auth.RegisterThenLogin | src/controllers/authController.ts:33-108 | registering a new email and then logging in with the same password both succeed and report the same user: the new id and the lower-cased email |
| Text.Trim | src/index.ts:62 | a trimmed string has no leading or trailing JavaScript whitespace |
| Text.TrimIsSlice | src/index.ts:62 | `trim` returns one contiguous stretch of the input. Everything before and after that stretch is whitespace. Together with `Trim`'s contract this fixes the result |
| Text.TrimKeepsText | src/index.ts:62 | trimming keeps every non-whitespace character and adds none |
| Text.IndexOf | src/index.ts:64 | -1 exactly when the character is absent; otherwise the position of its first occurrence |
| Text.Split | src/utils/jwt.ts:22 | `split` on one separator gives at least one piece, and no piece contains the separator |
| Text.Utf16Length | src/utils/password.ts:8 | JavaScript's `length` counts code units: between one and two per character, and 0 only for the empty string |
| Text.ToLowerIdempotent | src/controllers/authController.ts:46 | lower-casing a lower-cased email changes nothing. Stored emails are therefore exactly the keys a later lookup uses |
| Text.JoinSplit | src/utils/jwt.ts:22 | joining the pieces of a split with the separator gives back the string |
| EnvLocal.SplitLines | src/index.ts:61 | the file splits into one line more than it has `\n` characters, and no line contains `\n` |
| EnvLocal.SplitLinesPieces | src/index.ts:61 | each line is its piece between `\n`s, less the `\r` of a `\r\n` break. The last piece is kept as is |
| EnvLocal.ParseLine | src/index.ts:62-67 | one line: trim it, skip it when blank or a comment, split it at the first `=`, and trim both sides. `ParseLineResult` and `ParseAssignment` state its properties |
| EnvLocal.ParseLineResult | src/index.ts:62-67 | a line contributes nothing exactly when it is blank after trimming, starts with `#` after trimming, or has no `=`. A contributed key never contains `=` (a value may), and key and value are trimmed |
| EnvLocal.ParseAssignment | src/index.ts:62-67 | a `KEY=VALUE` line with trimmed parts, a key without `=` and not starting with `#` reads back as exactly that key and value |
| EnvLocal.Apply | src/index.ts:68-70 | one line's effect: the keys grow by at most the line's key, and every key present before keeps its value |
| EnvLocal.ApplyAll | src/index.ts:61-71 | the lines' effects in file order. Its properties are the three lemmas below |
| EnvLocal.EnvAfterLoad | src/index.ts:56-60 | the environment is unchanged when `MONGODB_URI` is already truthy or the file does not exist |
| EnvLocal.ApplyAllKeepsExisting | src/index.ts:68-70 | no key present before is removed or changed |
| EnvLocal.ApplyAllKeys | src/index.ts:56-72 | the keys afterwards are exactly the keys before plus the keys some line defines |
| EnvLocal.FirstOccurrenceWins | src/index.ts:68-70 | a key not present before takes the value of the first line defining it. Later lines with the same key change nothing |
| EnvLocal.ProcessEnv.LoadEnvLocal | src/index.ts:56-72 | the loop leaves `process.env` equal to `EnvAfterLoad` of the old environment and the file. The lemmas above state what that is |

## Left out

- Cryptography (HMAC-SHA256, PBKDF2, `randomBytes`) is a parameter. The model proves nothing about unforgeability, one-wayness or salt freshness, so tamper detection is only "the MAC does not match".
- Constant-time comparison (`timingSafeEqual`, `Buffer.equals`) is plain equality. Timing is not expressible here.
- `JSON.stringify`/`JSON.parse` and the UTF-8 conversion around them are one codec parameter. JSON numbers are integers, so fractional `exp` values are not modelled. Key order inside objects is not modelled.
- Jwt.FromBase64Url: Node's base64 decoder skips characters outside the alphabet and tolerates bad lengths. The model rejects such input instead. A malformed signature segment therefore always gives "Invalid signature". A malformed payload segment gives "Verification failed", as when `JSON.parse` throws.
- Jwt.Expired: numeric text is not read when `now > payload.exp` converts a value to a number. A string `exp`, or a one-element array holding a string, is treated as NaN and so never expires, although JavaScript would convert a numeric string. The other values are converted as JavaScript does. An object becomes NaN, or throws when it has its own `toString` member. An array throws when any element, at any depth, is such an object. Otherwise an array becomes the number of its text: `[]`, `[null]` and `[[]]` give 0, `[n]` gives n, a one-element array holding a boolean or an object gives NaN, and two or more elements give NaN.
- Jwt.VerifyJwt: the header segment is never decoded or checked, matching the source.
- Codecs.HexDecode: the lenient decoder stops at the first pair that is not two hex digits, as Node does. Its contract states only the length bound; the exact result is given for well-formed input (`HexRoundTrip`).
- Password.VerifyPassword: argument validation inside `pbkdf2Sync` is not modelled. A stored iteration count below 1 makes `pbkdf2Sync` throw, but the model returns a boolean.
- Auth.AuthController.Login: a stored record whose iteration count makes `pbkdf2Sync` throw rejects the handler's promise. The model answers 200 or 401 instead.
- Missing request fields (`req.body` absent, or a field undefined) are the empty string. Non-string JSON fields in a request are not modelled.
- Text.ToLower: only ASCII letters are lower-cased, not the full Unicode mapping of `toLowerCase`.
- The `createIndex` call, the race between `findOne` and `insertOne`, and an `insertOne` that throws are not modelled. `UserStore.InsertOne` refuses a duplicate as the unique index would, and `Register` only calls it after `findOne` found nothing.
- `createdAt` is the clock value passed in. The ObjectId is the `newId` argument.
- The MongoDB client (`src/db/mongo.ts`) is not part of this model. Neither is the rest of `src/index.ts`: the Express setup, Swagger options, `listen`, signal handlers, logging and `process.exit`.
- Express `Request`/`Response`, decorators and `async` are left out. A handler returns the status and body it would send.
- `loadEnvLocal` reading the file (`existsSync`/`readFileSync`) is replaced by the file contents given as an option.
- `key in process.env` on names inherited from `Object.prototype` is not modelled: `process.env` is a plain map. For the same reason a line `=value` adds the key "" to the model, while on POSIX systems Node silently fails to set an empty variable name. `EnvLocal.ApplyAllKeys` therefore holds exactly only for the plain map.
