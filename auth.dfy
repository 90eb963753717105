/**
 * The authentication flow of src/controllers/authController.ts. The
 * `users` collection is a `UserStore` object whose documents are keyed by
 * their email (the unique index on `email`); `register` and `login` are
 * methods of `AuthController` returning the status and body they send.
 * The driver-generated ObjectId, the random salt bytes and the clock are
 * arguments; HMAC, JSON and PBKDF2 are the controller's parameters.
 */
module Auth {
  import opened Wrappers
  import opened Text
  import opened Codecs
  import opened JsonValues
  import opened Jwt
  import opened Password

  /** A document of the `users` collection (`UserDoc`); `createdAt` in milliseconds. */
  datatype UserDoc = UserDoc(
    id: string,
    email: string,
    name: Option<string>,
    passwordHash: string,
    salt: string,
    iterations: int,
    createdAt: int)

  /** Request bodies; a field that is absent is the empty string. */
  datatype RegisterRequest = RegisterRequest(email: string, password: string, name: Option<string>)
  datatype LoginRequest = LoginRequest(email: string, password: string)

  /** Response bodies: `AuthSuccess` or `ErrorResponse`. */
  datatype UserInfo = UserInfo(id: string, email: string, name: Option<string>)
  datatype Body = AuthSuccess(token: string, user: UserInfo) | ErrorResponse(message: string)
  datatype Response = Response(status: int, body: Body)

  const StatusOk := 200
  const StatusBadRequest := 400
  const StatusUnauthorized := 401

  const MsgRegisterInvalid := "Email and password (>=6) are required"
  const MsgEmailTaken := "Email already registered"
  const MsgLoginInvalid := "Email and password are required"
  const MsgBadCredentials := "Invalid email or password"

  /** The one reply to a failed login, whatever the reason. */
  const InvalidCredentials := Response(StatusUnauthorized, ErrorResponse(MsgBadCredentials))

  /** Fallback signing key used when JWT_SECRET is unset or empty. */
  const DevSecret := "dev-secret-change-me"

  /** `process.env.JWT_SECRET || 'dev-secret-change-me'`. */
  function JwtSecret(env: map<string, string>): (secret: string)
    ensures secret != ""
    ensures "JWT_SECRET" in env && env["JWT_SECRET"] != "" ==> secret == env["JWT_SECRET"]
    ensures !("JWT_SECRET" in env && env["JWT_SECRET"] != "") ==> secret == DevSecret
  {
    if "JWT_SECRET" in env && env["JWT_SECRET"] != "" then env["JWT_SECRET"] else DevSecret
  }

  /** The claims both handlers sign: `{ sub: <user id>, email: <stored email> }`. */
  function IdentityClaims(id: string, email: string): map<string, Json>
  {
    map["sub" := JStr(id), "email" := JStr(email)]
  }

  /** A token minted by the flow verifies, at the time it was issued, to the user's id and email. */
  lemma IssuedTokenIdentifiesUser(id: string, email: string, secret: string, nowMs: int, hmac: Hmac, json: JsonCodec)
    requires RoundTrips(json)
    ensures var r := VerifyJwt(SignJwt(IdentityClaims(id, email), secret, DefaultExpiresInSeconds, nowMs, hmac, json),
                               secret, nowMs, hmac, json);
      && r.Valid? && r.payload.JObj?
      && Property(r.payload, "sub") == Some(JStr(id))
      && Property(r.payload, "email") == Some(JStr(email))
      && Property(r.payload, "iat") == Some(JNum(nowMs / 1000))
      && Property(r.payload, "exp") == Some(JNum(nowMs / 1000 + DefaultExpiresInSeconds))
  {
    var claims := IdentityClaims(id, email);
    assert "iat" !in claims && "exp" !in claims;
    FreshTokenIsValid(claims, secret, DefaultExpiresInSeconds, nowMs, hmac, json);
    var full := FullPayload(claims, nowMs / 1000, DefaultExpiresInSeconds);
    assert full["sub"] == JStr(id) && full["email"] == JStr(email);
  }

  /** The `users` collection: at most one document per email. */
  class UserStore {
    var docs: map<string, UserDoc>

    /** Every document sits under its own email, and that email is lower-case. */
    ghost predicate Valid()
      reads this
    {
      forall e :: e in docs ==> docs[e].email == e && ToLower(e) == e
    }

    constructor ()
      ensures Valid() && docs == map[]
    {
      docs := map[];
    }

    /** `findOne({ email })`. */
    method FindOne(email: string) returns (doc: Option<UserDoc>)
      ensures doc.Some? <==> email in docs
      ensures doc.Some? ==> doc.value == docs[email]
    {
      doc := if email in docs then Some(docs[email]) else None;
    }

    /** `insertOne(doc)`: refused by the unique index when the email is already taken. */
    method InsertOne(doc: UserDoc) returns (inserted: bool)
      modifies this
      ensures inserted <==> doc.email !in old(docs)
      ensures docs == if inserted then old(docs)[doc.email := doc] else old(docs)
    {
      inserted := doc.email !in docs;
      if inserted {
        docs := docs[doc.email := doc];
      }
    }
  }

  /** `register` accepts a non-empty email and a password of at least six UTF-16 code units. */
  predicate RegisterInputOk(req: RegisterRequest)
  {
    req.email != "" && Utf16Length(req.password) >= 6
  }

  /** Whether a login password matches a stored record, checked with the record's own salt and rounds. */
  predicate PasswordMatches(password: string, doc: UserDoc, kdf: Kdf)
  {
    VerifyPassword(password, doc.salt, doc.passwordHash, Some(doc.iterations), kdf)
  }

  class AuthController {
    const users: UserStore
    /** `process.env` as the handlers read it. */
    const env: map<string, string>
    const hmac: Hmac
    const json: JsonCodec
    const kdf: Kdf

    constructor (users: UserStore, env: map<string, string>, hmac: Hmac, json: JsonCodec, kdf: Kdf)
      ensures this.users == users && this.env == env
      ensures this.hmac == hmac && this.json == json && this.kdf == kdf
    {
      this.users := users;
      this.env := env;
      this.hmac := hmac;
      this.json := json;
      this.kdf := kdf;
    }

    /** The token both handlers issue for a user. */
    function TokenFor(id: string, email: string, nowMs: int): string
    {
      SignJwt(IdentityClaims(id, email), JwtSecret(env), DefaultExpiresInSeconds, nowMs, hmac, json)
    }

    /**
     * `POST /auth/register`. Bad input and an email already present are
     * answered with 400 and leave the store alone; otherwise exactly one
     * document is added under the lower-cased email, with the salt, hash
     * and iteration count of `hashPassword`, and the reply carries a token
     * for the new id and email.
     */
    method Register(req: RegisterRequest, randomSalt: seq<Byte>, newId: string, nowMs: int) returns (res: Response)
      requires users.Valid()
      requires |randomSalt| == SaltLen
      modifies users
      ensures users.Valid()
      ensures !RegisterInputOk(req) ==>
        res == Response(StatusBadRequest, ErrorResponse(MsgRegisterInvalid)) && users.docs == old(users.docs)
      ensures RegisterInputOk(req) && ToLower(req.email) in old(users.docs) ==>
        res == Response(StatusBadRequest, ErrorResponse(MsgEmailTaken)) && users.docs == old(users.docs)
      ensures RegisterInputOk(req) && ToLower(req.email) !in old(users.docs) ==>
        var email := ToLower(req.email);
        var h := HashPassword(req.password, randomSalt, kdf).value;
        && users.docs == old(users.docs)[email := UserDoc(newId, email, req.name, h.hash, h.salt, h.iterations, nowMs)]
        && res == Response(StatusOk, AuthSuccess(TokenFor(newId, email, nowMs), UserInfo(newId, email, req.name)))
    {
      if req.email == "" || req.password == "" || Utf16Length(req.password) < 6 {
        return Response(StatusBadRequest, ErrorResponse(MsgRegisterInvalid));
      }
      var email := ToLower(req.email);
      var existing := users.FindOne(email);
      if existing.Some? {
        return Response(StatusBadRequest, ErrorResponse(MsgEmailTaken));
      }
      var hashed := HashPassword(req.password, randomSalt, kdf);
      var h := hashed.value;
      var doc := UserDoc(newId, email, req.name, h.hash, h.salt, h.iterations, nowMs);
      var inserted := users.InsertOne(doc);
      ToLowerIdempotent(req.email);
      var userId := doc.id;
      var token := SignJwt(IdentityClaims(userId, doc.email), JwtSecret(env), DefaultExpiresInSeconds, nowMs, hmac, json);
      res := Response(StatusOk, AuthSuccess(token, UserInfo(userId, doc.email, doc.name)));
    }

    /**
     * `POST /auth/login`. Missing fields give 400. An unknown email and a
     * wrong password give the very same 401 reply. Otherwise the reply
     * carries a token for the stored id and email. The store is only read.
     */
    method Login(req: LoginRequest, nowMs: int) returns (res: Response)
      requires users.Valid()
      ensures res.status == StatusBadRequest <==> req.email == "" || req.password == ""
      ensures res.status == StatusBadRequest ==> res == Response(StatusBadRequest, ErrorResponse(MsgLoginInvalid))
      ensures res.status == StatusUnauthorized <==>
        req.email != "" && req.password != ""
        && (ToLower(req.email) !in users.docs || !PasswordMatches(req.password, users.docs[ToLower(req.email)], kdf))
      ensures res.status == StatusUnauthorized ==> res == InvalidCredentials
      ensures res.status == StatusOk ==>
        && req.email != "" && req.password != ""
        && ToLower(req.email) in users.docs
        && var doc := users.docs[ToLower(req.email)];
        && PasswordMatches(req.password, doc, kdf)
        && doc.email == ToLower(req.email)
        && res.body == AuthSuccess(TokenFor(doc.id, doc.email, nowMs), UserInfo(doc.id, doc.email, doc.name))
      ensures res.status in {StatusOk, StatusBadRequest, StatusUnauthorized}
    {
      if req.email == "" || req.password == "" {
        return Response(StatusBadRequest, ErrorResponse(MsgLoginInvalid));
      }
      var user := users.FindOne(ToLower(req.email));
      if user.None? {
        return Response(StatusUnauthorized, ErrorResponse(MsgBadCredentials));
      }
      var doc := user.value;
      var ok := VerifyPassword(req.password, doc.salt, doc.passwordHash, Some(doc.iterations), kdf);
      if !ok {
        return Response(StatusUnauthorized, ErrorResponse(MsgBadCredentials));
      }
      var token := SignJwt(IdentityClaims(doc.id, doc.email), JwtSecret(env), DefaultExpiresInSeconds, nowMs, hmac, json);
      res := Response(StatusOk, AuthSuccess(token, UserInfo(doc.id, doc.email, doc.name)));
    }
  }

  /**
   * The scenario of registering and then logging in: with the registered
   * password the login succeeds and names the id given at registration;
   * the store holds the one new document.
   */
  method RegisterThenLogin(controller: AuthController, email: string, password: string,
                           randomSalt: seq<Byte>, newId: string, nowMs: int)
    returns (registered: Response, loggedIn: Response)
    requires controller.users.Valid()
    requires |randomSalt| == SaltLen
    requires email != "" && Utf16Length(password) >= 6 && ToLower(email) !in controller.users.docs
    modifies controller.users
    ensures registered.status == StatusOk && loggedIn.status == StatusOk
    ensures registered.body.AuthSuccess? && loggedIn.body.AuthSuccess?
    ensures loggedIn.body.user == registered.body.user == UserInfo(newId, ToLower(email), None)
  {
    registered := controller.Register(RegisterRequest(email, password, None), randomSalt, newId, nowMs);
    var doc := controller.users.docs[ToLower(email)];
    HashThenVerify(password, randomSalt, controller.kdf);
    assert PasswordMatches(password, doc, controller.kdf);
    loggedIn := controller.Login(LoginRequest(email, password), nowMs);
  }
}
