/**
 The session handlers of src/controllers/authController.js as transitions
 of the database: each takes the tables and the request, and gives the
 reply and the tables afterwards. A handler is one atomic step.

 The body fields reach a handler after the validation rules ran; those rules
 trim `id` and `password` in place, so the handler works on the trimmed
 values. The clock `now` and bcrypt's salt are inputs.
 */
module AuthController {
  import opened Options
  import opened Text
  import opened Validation
  import opened TokenCodec
  import opened Store
  import opened Http

  datatype Reply =
    | Issued(status: nat, pair: TokenPair)  // 201 after signup, 200 after signin and refresh
    | Identity(identifier: string)          // 200 from /info
    | LoggedOut                             // 200 from /logout
    | Failed(failure: Failure)

  datatype Step = Step(reply: Reply, db: Db)

  /** An identifier some user row already carries. */
  predicate Registered(users: seq<UserRow>, identifier: string) {
    exists a :: 0 <= a < |users| && users[a].identifier == identifier
  }

  /** Credentials some user row accepts: its identifier and a matching password. */
  predicate Accepts(kdf: Kdf, users: seq<UserRow>, identifier: string, password: string) {
    exists a :: 0 <= a < |users| && users[a].identifier == identifier && Matches(kdf, password, users[a].hash)
  }

  // ---------------------------------------------------------------------
  // signup

  /** `signup`: registers a new identifier with the hash of its password and
      opens its first session. */
  function Signup(db: Db, cfg: Config, kdf: Kdf, salt: nat, now: nat, id: string, password: string): (s: Step)
    requires WellFormed(db)
    ensures WellFormed(s.db)
    ensures s.reply.Failed? ==> s.db == db
    ensures AuthIssues(id, password) != [] ==> s.reply == Failed(BadInput(AuthIssues(id, password)))
    ensures AuthIssues(id, password) == [] && Registered(db.users, Trim(id)) ==> s.reply == Failed(IdentifierTaken)
    ensures s.reply.Issued? <==> AuthIssues(id, password) == [] && !Registered(db.users, Trim(id))
    ensures s.reply.Failed? || s.reply.Issued?
    ensures s.reply.Issued? ==> s.db.nextUserId == db.nextUserId + 1 && s.db.nextTokenId == db.nextTokenId + 1
    ensures s.reply.Issued? ==>
      && s.reply.status == 201
      && |s.db.users| == |db.users| + 1
      && s.db.users[..|db.users|] == db.users
      && var user := s.db.users[|db.users|];
      && user.identifier == Trim(id)
      && Matches(kdf, Trim(password), user.hash)
      && !HasUser(db.users, user.id)
      && s.db.tokens == db.tokens + [TokenRow(db.nextTokenId, user.id, s.reply.pair.refresh, true)]
      && s.reply.pair == GenerateTokens(cfg, user.id, now)
  {
    var issues := AuthIssues(id, password);
    if issues != [] then Step(Failed(BadInput(issues)), db)
    else
      var identifier := Trim(id);
      if FindByIdentifier(db.users, identifier).Some? then Step(Failed(IdentifierTaken), db)
      else
        var hash := HashPassword(kdf, salt, Trim(password));
        var withUser := InsertUser(db, identifier, hash);
        InsertUserWellFormed(db, identifier, hash);
        var pair := GenerateTokens(cfg, db.nextUserId, now);
        var db' := InsertToken(withUser, db.nextUserId, pair.refresh);
        InsertTokenWellFormed(withUser, db.nextUserId, pair.refresh);
        assert db'.users[..|db.users|] == db.users;
        Step(Issued(201, pair), db')
  }

  // ---------------------------------------------------------------------
  // signin

  /** `signin`: opens one more session for the user whose identifier and
      password match; existing sessions stay as they are. An unknown
      identifier and a wrong password give the same failure. */
  function Signin(db: Db, cfg: Config, kdf: Kdf, now: nat, id: string, password: string): (s: Step)
    requires WellFormed(db)
    ensures WellFormed(s.db)
    ensures s.reply.Failed? ==> s.db == db
    ensures AuthIssues(id, password) != [] ==> s.reply == Failed(BadInput(AuthIssues(id, password)))
    ensures AuthIssues(id, password) == [] ==>
      (s.reply == Failed(BadCredentials) <==> !Accepts(kdf, db.users, Trim(id), Trim(password)))
    ensures s.reply.Issued? <==> AuthIssues(id, password) == [] && Accepts(kdf, db.users, Trim(id), Trim(password))
    ensures s.reply.Failed? || s.reply.Issued?
    ensures s.db.nextUserId == db.nextUserId
    ensures s.db.nextTokenId == db.nextTokenId + (if s.reply.Issued? then 1 else 0)
    ensures s.reply.Issued? ==>
      && s.reply.status == 200
      && s.db.users == db.users
      && exists a :: 0 <= a < |db.users|
           && db.users[a].identifier == Trim(id)
           && Matches(kdf, Trim(password), db.users[a].hash)
           && s.db.tokens == db.tokens + [TokenRow(db.nextTokenId, db.users[a].id, s.reply.pair.refresh, true)]
           && s.reply.pair == GenerateTokens(cfg, db.users[a].id, now)
  {
    var issues := AuthIssues(id, password);
    if issues != [] then Step(Failed(BadInput(issues)), db)
    else
      match FindByIdentifier(db.users, Trim(id))
      case None => Step(Failed(BadCredentials), db)
      case Some(a) =>
        var user := db.users[a];
        if !Matches(kdf, Trim(password), user.hash) then Step(Failed(BadCredentials), db)
        else
          var pair := GenerateTokens(cfg, user.id, now);
          assert HasUser(db.users, user.id);
          InsertTokenWellFormed(db, user.id, pair.refresh);
          Step(Issued(200, pair), InsertToken(db, user.id, pair.refresh))
  }

  // ---------------------------------------------------------------------
  // refresh

  /** The store half of `refreshToken`, once the token has verified as one of
      `userId`'s: the first live row holding it is switched off and a live row
      for the new refresh token is appended; without such a row, 401. */
  function Rotate(db: Db, cfg: Config, now: nat, userId: nat, token: string): (s: Step)
    requires WellFormed(db)
    ensures WellFormed(s.db)
    ensures s.reply.Failed? ==> s.db == db && s.reply.failure == RefreshTokenNotFound
    ensures s.reply.Issued? <==> exists a :: 0 <= a < |db.tokens| && IsLive(db.tokens[a], userId, token)
    ensures s.reply.Failed? || s.reply.Issued?
    ensures s.reply.Issued? ==>
      && s.reply.status == 200
      && s.reply.pair == GenerateTokens(cfg, userId, now)
      && s.db.users == db.users
      && s.db.nextUserId == db.nextUserId
      && s.db.nextTokenId == db.nextTokenId + 1
      && |s.db.tokens| == |db.tokens| + 1
      && s.db.tokens[|db.tokens|] == TokenRow(db.nextTokenId, userId, s.reply.pair.refresh, true)
      && exists k: nat :: RotatedAt(db.tokens, s.db.tokens, k)
           && IsLive(db.tokens[k], userId, token)
           && (forall a :: 0 <= a < k ==> !IsLive(db.tokens[a], userId, token))
  {
    match FindLive(db.tokens, userId, token)
    case None => Step(Failed(RefreshTokenNotFound), db)
    case Some(k) =>
      var pair := GenerateTokens(cfg, userId, now);
      var rotated := db.(tokens := InvalidateById(db.tokens, db.tokens[k].id));
      InvalidateByIdWellFormed(db, db.tokens[k].id);
      InvalidateThenInsert(db, k, userId, pair.refresh);
      assert HasUser(rotated.users, userId) by {
        assert HasUser(db.users, db.tokens[k].userId);
      }
      InsertTokenWellFormed(rotated, userId, pair.refresh);
      Step(Issued(200, pair), InsertToken(rotated, userId, pair.refresh))
  }

  /** `refreshToken`: trades a refresh token for a new pair. The token must be
      non-empty, verify under the refresh secret, and be held by a live row of
      the user it names; then `Rotate` applies. Every failure leaves the
      tables as they were. */
  function Refresh(db: Db, cfg: Config, now: nat, token: string): (s: Step)
    requires WellFormed(db)
    ensures WellFormed(s.db)
    ensures s.reply.Failed? ==> s.db == db
    ensures RefreshIssues(token) != [] ==> s.reply == Failed(BadInput(RefreshIssues(token)))
    ensures RefreshIssues(token) == [] && VerifyRefreshToken(cfg, Some(token), now).None? ==>
      s.reply == Failed(BadRefreshToken)
    ensures RefreshIssues(token) == [] && VerifyRefreshToken(cfg, Some(token), now).Some? ==>
      s == Rotate(db, cfg, now, VerifyRefreshToken(cfg, Some(token), now).value.userId, token)
  {
    var issues := RefreshIssues(token);
    if issues != [] then Step(Failed(BadInput(issues)), db)
    else
      match VerifyRefreshToken(cfg, Some(token), now)
      case None => Step(Failed(BadRefreshToken), db)
      case Some(claims) => Rotate(db, cfg, now, claims.userId, token)
  }

  // ---------------------------------------------------------------------
  // logout and getInfo

  /** `logout`: every live row of the caller is switched off; other users'
      rows and every other column stay as they are. It always succeeds. */
  function Logout(db: Db, userId: nat): (s: Step)
    requires WellFormed(db)
    ensures WellFormed(s.db)
    ensures s.reply == LoggedOut
    ensures s.db.users == db.users && s.db.nextUserId == db.nextUserId && s.db.nextTokenId == db.nextTokenId
    ensures |s.db.tokens| == |db.tokens|
    ensures forall a :: 0 <= a < |db.tokens| ==>
      && s.db.tokens[a].id == db.tokens[a].id
      && s.db.tokens[a].userId == db.tokens[a].userId
      && s.db.tokens[a].refreshToken == db.tokens[a].refreshToken
    ensures forall a :: 0 <= a < |db.tokens| && db.tokens[a].userId != userId ==> s.db.tokens[a] == db.tokens[a]
    ensures forall a :: 0 <= a < |db.tokens| && db.tokens[a].userId == userId ==> !s.db.tokens[a].isValid
    ensures CountValid(s.db.tokens, userId) == 0
    ensures forall v :: v != userId ==> CountValid(s.db.tokens, v) == CountValid(db.tokens, v)
  {
    InvalidateUserWellFormed(db, userId);
    Step(LoggedOut, db.(tokens := InvalidateUser(db.tokens, userId)))
  }

  /** `getInfo`: the identifier of the user with the given id, or 404. */
  function GetInfo(db: Db, userId: nat): (r: Reply)
    requires WellFormed(db)
    ensures r.Identity? || r == Failed(UserNotFound)
    ensures r.Identity? <==> HasUser(db.users, userId)
    ensures r.Identity? ==> exists a :: 0 <= a < |db.users| && db.users[a].id == userId && db.users[a].identifier == r.identifier
  {
    match FindById(db.users, userId)
    case None => Failed(UserNotFound)
    case Some(a) => Identity(db.users[a].identifier)
  }
}
