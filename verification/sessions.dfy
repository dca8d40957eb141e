/**
 The session protocol as a whole: the protected routes of
 src/routes/auth.js (the gate, then the handler), and properties of runs of
 several handlers — a fresh pair opens the gate, logout closes it for every
 access token of the user, rotation keeps the number of live sessions, and a
 rotated refresh token cannot be used again.
 */
module Sessions {
  import opened Options
  import opened Text
  import opened TokenCodec
  import opened Store
  import opened Http
  import opened AuthController
  import opened AuthMiddleware

  // ---------------------------------------------------------------------
  // Protected routes

  /** `GET /info`: the gate, then `getInfo` for the admitted user. Behind the
      gate the 404 cannot happen: an admitted user has a live token row, and
      every token row belongs to an existing user. */
  function InfoRoute(db: Db, cfg: Config, now: nat, header: Option<string>, storeUp: bool): (r: Reply)
    requires WellFormed(db)
    ensures Gate(db, cfg, now, header, storeUp).Deny? ==> r == Failed(Gate(db, cfg, now, header, storeUp).failure)
    ensures Gate(db, cfg, now, header, storeUp).Admit? ==>
      && r.Identity?
      && exists a :: 0 <= a < |db.users| && db.users[a].id == Gate(db, cfg, now, header, storeUp).userId
                     && db.users[a].identifier == r.identifier
  {
    match Gate(db, cfg, now, header, storeUp)
    case Deny(f) => Failed(f)
    case Admit(u) =>
      var a :| 0 <= a < |db.tokens| && db.tokens[a].userId == u && db.tokens[a].isValid;
      assert HasUser(db.users, db.tokens[a].userId);
      GetInfo(db, u)
  }

  /** `GET /logout`: the gate, then `logout` for the admitted user; a denied
      request changes nothing. */
  function LogoutRoute(db: Db, cfg: Config, now: nat, header: Option<string>, storeUp: bool): (s: Step)
    requires WellFormed(db)
    ensures WellFormed(s.db)
    ensures Gate(db, cfg, now, header, storeUp).Deny? ==>
      s == Step(Failed(Gate(db, cfg, now, header, storeUp).failure), db)
    ensures Gate(db, cfg, now, header, storeUp).Admit? ==>
      s.reply == LoggedOut && CountValid(s.db.tokens, Gate(db, cfg, now, header, storeUp).userId) == 0
  {
    match Gate(db, cfg, now, header, storeUp)
    case Deny(f) => Step(Failed(f), db)
    case Admit(u) => Logout(db, u)
  }

  /** A second `GET /logout` with the same header never reaches the handler:
      the first left the user no live row, so the gate refuses the session as
      expired and nothing changes. */
  lemma LogoutRouteTwice(db: Db, cfg: Config, now: nat, header: Option<string>, u: nat)
    requires WellFormed(db)
    requires Gate(db, cfg, now, header, true) == Admit(u)
    ensures var once := LogoutRoute(db, cfg, now, header, true);
      LogoutRoute(once.db, cfg, now, header, true) == Step(Failed(SessionExpired), once.db)
  {
    LogoutRevokesAccess(db, cfg, u, now, header, true);
  }

  // ---------------------------------------------------------------------
  // Opening and closing sessions

  /** The access token of a freshly issued pair, sent as `Bearer <token>`
      before it expires, opens the gate for the pair's user as long as that
      user has a live row. */
  lemma FreshAccessTokenAdmits(db: Db, cfg: Config, userId: nat, issued: nat, now: nat)
    requires issued <= now < issued + cfg.accessTtl
    requires CountValid(db.tokens, userId) > 0
    ensures Gate(db, cfg, now, Some(BearerHeader(GenerateTokens(cfg, userId, issued).access)), true) == Admit(userId)
  {
    var access := GenerateTokens(cfg, userId, issued).access;
    SerializeHasNoSpace(SignedToken(Claims(userId, issued, issued + cfg.accessTtl), cfg.accessSecret));
    HeaderTokenAfterScheme("Bearer", access);
    GenerateThenVerify(cfg, userId, issued, now);
  }

  /** The user a successful signin matched: the one row carrying the trimmed
      identifier, whose id the new pair and the new row carry. */
  lemma SigninUser(db: Db, cfg: Config, kdf: Kdf, issued: nat, id: string, password: string, a: nat)
    requires WellFormed(db)
    requires Signin(db, cfg, kdf, issued, id, password).reply.Issued?
    requires a < |db.users| && db.users[a].identifier == Trim(id)
    ensures var s := Signin(db, cfg, kdf, issued, id, password);
      && s.reply.pair == GenerateTokens(cfg, db.users[a].id, issued)
      && s.db.tokens == db.tokens + [TokenRow(db.nextTokenId, db.users[a].id, s.reply.pair.refresh, true)]
  {
    var s := Signin(db, cfg, kdf, issued, id, password);
    var b :| 0 <= b < |db.users| && db.users[b].identifier == Trim(id)
      && s.db.tokens == db.tokens + [TokenRow(db.nextTokenId, db.users[b].id, s.reply.pair.refresh, true)]
      && s.reply.pair == GenerateTokens(cfg, db.users[b].id, issued);
    assert a == b;
  }

  /** Signin adds exactly one live session for the signed-in user `a` and
      none for anybody else. */
  lemma SigninAddsOneSession(db: Db, cfg: Config, kdf: Kdf, issued: nat, id: string, password: string, a: nat, v: nat)
    requires WellFormed(db)
    requires Signin(db, cfg, kdf, issued, id, password).reply.Issued?
    requires a < |db.users| && db.users[a].identifier == Trim(id)
    ensures CountValid(Signin(db, cfg, kdf, issued, id, password).db.tokens, v)
         == CountValid(db.tokens, v) + (if v == db.users[a].id then 1 else 0)
  {
    var s := Signin(db, cfg, kdf, issued, id, password);
    SigninUser(db, cfg, kdf, issued, id, password, a);
    CountValidPush(db.tokens, TokenRow(db.nextTokenId, db.users[a].id, s.reply.pair.refresh, true), v);
  }

  /** After a successful signin, the new access token opens the gate for the
      signed-in user `a` until it expires. */
  lemma SigninThenAccess(db: Db, cfg: Config, kdf: Kdf, issued: nat, id: string, password: string, a: nat, now: nat)
    requires WellFormed(db)
    requires Signin(db, cfg, kdf, issued, id, password).reply.Issued?
    requires a < |db.users| && db.users[a].identifier == Trim(id)
    requires issued <= now < issued + cfg.accessTtl
    ensures var s := Signin(db, cfg, kdf, issued, id, password);
      Gate(s.db, cfg, now, Some(BearerHeader(s.reply.pair.access)), true) == Admit(db.users[a].id)
  {
    var s := Signin(db, cfg, kdf, issued, id, password);
    SigninUser(db, cfg, kdf, issued, id, password, a);
    SigninAddsOneSession(db, cfg, kdf, issued, id, password, a, db.users[a].id);
    FreshAccessTokenAdmits(s.db, cfg, db.users[a].id, issued, now);
  }

  /** Signup, then `GET /info` with the new access token before it expires:
      the answer is the identifier just registered, in its trimmed form. */
  lemma SignupThenInfo(db: Db, cfg: Config, kdf: Kdf, salt: nat, issued: nat, id: string, password: string, now: nat)
    requires WellFormed(db)
    requires Signup(db, cfg, kdf, salt, issued, id, password).reply.Issued?
    requires issued <= now < issued + cfg.accessTtl
    ensures var s := Signup(db, cfg, kdf, salt, issued, id, password);
      InfoRoute(s.db, cfg, now, Some(BearerHeader(s.reply.pair.access)), true) == Identity(Trim(id))
  {
    var s := Signup(db, cfg, kdf, salt, issued, id, password);
    var n := |db.users|;
    var user := s.db.users[n];
    CountValidPush(db.tokens, TokenRow(db.nextTokenId, user.id, s.reply.pair.refresh, true), user.id);
    FreshAccessTokenAdmits(s.db, cfg, user.id, issued, now);
    var r := InfoRoute(s.db, cfg, now, Some(BearerHeader(s.reply.pair.access)), true);
    var a :| 0 <= a < |s.db.users| && s.db.users[a].id == user.id && s.db.users[a].identifier == r.identifier;
    assert a == n;
  }

  /** Logout revokes every access token of the user at once: whatever header
      is sent afterwards, the gate no longer admits that user, even for a
      token whose signature and expiry still verify. */
  lemma LogoutRevokesAccess(db: Db, cfg: Config, userId: nat, now: nat, header: Option<string>, storeUp: bool)
    requires WellFormed(db)
    ensures Gate(Logout(db, userId).db, cfg, now, header, storeUp) != Admit(userId)
  {
  }

  /** Signin, then logout of that user: the access token from the signin
      still verifies, yet the gate answers that the session has expired. */
  lemma SigninLogoutThenDenied(db: Db, cfg: Config, kdf: Kdf, issued: nat, id: string, password: string, a: nat, now: nat)
    requires WellFormed(db)
    requires Signin(db, cfg, kdf, issued, id, password).reply.Issued?
    requires a < |db.users| && db.users[a].identifier == Trim(id)
    requires issued <= now < issued + cfg.accessTtl
    ensures var s := Signin(db, cfg, kdf, issued, id, password);
      var header := Some(BearerHeader(s.reply.pair.access));
      var out := LogoutRoute(s.db, cfg, now, header, true);
      && out == Logout(s.db, db.users[a].id)
      && VerifyAccessToken(cfg, HeaderToken(header.value), now).Some?
      && Gate(out.db, cfg, now, header, true) == Deny(SessionExpired)
  {
    SigninThenAccess(db, cfg, kdf, issued, id, password, a, now);
  }

  /** A second logout changes nothing and still succeeds. */
  lemma LogoutIdempotent(db: Db, userId: nat)
    requires WellFormed(db)
    ensures Logout(Logout(db, userId).db, userId) == Logout(db, userId)
  {
    var once := Logout(db, userId).db;
    var twice := Logout(once, userId).db;
    assert twice.tokens == once.tokens by {
      forall a | 0 <= a < |once.tokens| ensures twice.tokens[a] == once.tokens[a] {
        if once.tokens[a].userId == userId {
          assert !once.tokens[a].isValid;
        }
      }
    }
  }

  // ---------------------------------------------------------------------
  // Rotation

  /** Every successful rotation has this shape. */
  lemma RotateShape(db: Db, cfg: Config, now: nat, userId: nat, token: string)
    requires WellFormed(db)
    requires Rotate(db, cfg, now, userId, token).reply.Issued?
    ensures var s := Rotate(db, cfg, now, userId, token);
      && s.db.tokens[|db.tokens|] == TokenRow(db.nextTokenId, userId, GenerateTokens(cfg, userId, now).refresh, true)
      && exists k: nat :: RotatedAt(db.tokens, s.db.tokens, k) && IsLive(db.tokens[k], userId, token)
  {
  }

  /** A successful rotation switches one live row of the user off and one on,
      so every user keeps the number of live sessions they had. */
  lemma RotateKeepsSessionCount(db: Db, cfg: Config, now: nat, userId: nat, token: string, v: nat)
    requires WellFormed(db)
    requires Rotate(db, cfg, now, userId, token).reply.Issued?
    ensures CountValid(Rotate(db, cfg, now, userId, token).db.tokens, v) == CountValid(db.tokens, v)
  {
    var s := Rotate(db, cfg, now, userId, token);
    RotateShape(db, cfg, now, userId, token);
    var k: nat :| RotatedAt(db.tokens, s.db.tokens, k) && IsLive(db.tokens[k], userId, token);
    SameUserRotationKeepsCount(db.tokens, s.db.tokens, k, v);
  }

  /** Switching off a live row and appending a live row of the same user
      leaves every count as it was. */
  lemma SameUserRotationKeepsCount(tokens: seq<TokenRow>, tokens': seq<TokenRow>, k: nat, v: nat)
    requires RotatedAt(tokens, tokens', k)
    requires tokens[k].isValid && tokens'[|tokens|].isValid && tokens'[|tokens|].userId == tokens[k].userId
    ensures CountValid(tokens', v) == CountValid(tokens, v)
  {
    RotatedAtCount(tokens, tokens', k, v);
  }

  /** When row `k` was the only live row holding `token` and the appended row
      holds other text, no live row holds `token` after the rotation. */
  lemma RotatedAtLeavesNoCopy(tokens: seq<TokenRow>, tokens': seq<TokenRow>, k: nat, userId: nat, token: string)
    requires RotatedAt(tokens, tokens', k)
    requires forall a :: 0 <= a < |tokens| && a != k ==> !IsLive(tokens[a], userId, token)
    requires tokens'[|tokens|].refreshToken != token
    ensures forall a :: 0 <= a < |tokens'| ==> !IsLive(tokens'[a], userId, token)
  {
  }

  /** A rotated refresh token cannot be used again: once `refreshToken` has
      succeeded with claims `c`, presenting the same token fails at any later
      clock reading, provided no other live row held the same text and the
      token was not issued in the second of the rotation (see
      `ReplayWithinIssuingSecond`). */
  lemma ReplayAfterRotationFails(db: Db, cfg: Config, now: nat, later: nat, token: string, c: Claims)
    requires WellFormed(db)
    requires VerifyRefreshToken(cfg, Some(token), now) == Some(c)
    requires Refresh(db, cfg, now, token).reply.Issued?
    requires c.iat != now
    requires forall a, b :: 0 <= a < b < |db.tokens| && IsLive(db.tokens[a], c.userId, token) ==> !IsLive(db.tokens[b], c.userId, token)
    ensures Refresh(Refresh(db, cfg, now, token).db, cfg, later, token).reply.Failed?
  {
    var s := Refresh(db, cfg, now, token);
    assert s == Rotate(db, cfg, now, c.userId, token);
    var k: nat :| RotatedAt(db.tokens, s.db.tokens, k) && IsLive(db.tokens[k], c.userId, token);
    NewRefreshTokenDiffers(cfg, now, token, c);
    OnlyLiveRow(db.tokens, k, c.userId, token);
    RotatedAtLeavesNoCopy(db.tokens, s.db.tokens, k, c.userId, token);
    RefreshFailsWithoutHolder(s.db, cfg, later, token, c);
  }

  /** A refresh token issued in another second than `now` differs from the
      one a rotation at `now` issues. */
  lemma NewRefreshTokenDiffers(cfg: Config, now: nat, token: string, c: Claims)
    requires VerifyRefreshToken(cfg, Some(token), now) == Some(c)
    requires c.iat != now
    ensures GenerateTokens(cfg, c.userId, now).refresh != token
  {
    if GenerateTokens(cfg, c.userId, now).refresh == token {
      DeserializeSerialize(SignedToken(c, cfg.refreshSecret));
    }
  }

  /** When no two rows hold the same token live, the live row `k` is the only one. */
  lemma OnlyLiveRow(tokens: seq<TokenRow>, k: nat, userId: nat, token: string)
    requires k < |tokens| && IsLive(tokens[k], userId, token)
    requires forall a, b :: 0 <= a < b < |tokens| && IsLive(tokens[a], userId, token) ==> !IsLive(tokens[b], userId, token)
    ensures forall a :: 0 <= a < |tokens| && a != k ==> !IsLive(tokens[a], userId, token)
  {
    forall a | 0 <= a < |tokens| && a != k ensures !IsLive(tokens[a], userId, token) {
      if a > k {
        assert !IsLive(tokens[a], userId, token);
      }
    }
  }

  /** A refresh token of claims `c` that no live row of `c.userId` holds is
      refused, whatever the clock says. */
  lemma RefreshFailsWithoutHolder(db: Db, cfg: Config, later: nat, token: string, c: Claims)
    requires WellFormed(db)
    requires token == Serialize(SignedToken(c, cfg.refreshSecret))
    requires forall a :: 0 <= a < |db.tokens| ==> !IsLive(db.tokens[a], c.userId, token)
    ensures Refresh(db, cfg, later, token).reply.Failed?
  {
    match VerifyRefreshToken(cfg, Some(token), later)
    case None =>
    case Some(c') =>
      SerializeInjective(SignedToken(c', cfg.refreshSecret), SignedToken(c, cfg.refreshSecret));
  }

  /** The other side of the proviso: a refresh token rotated in the second it
      was issued comes back as the very same text, so the row appended by the
      rotation holds it live and the old token can be presented again with
      success. */
  lemma ReplayWithinIssuingSecond(db: Db, cfg: Config, now: nat, token: string, c: Claims)
    requires WellFormed(db)
    requires VerifyRefreshToken(cfg, Some(token), now) == Some(c)
    requires Refresh(db, cfg, now, token).reply.Issued?
    requires c.iat == now && c.exp == now + cfg.refreshTtl
    ensures Refresh(db, cfg, now, token).reply.pair.refresh == token
    ensures Refresh(Refresh(db, cfg, now, token).db, cfg, now, token).reply.Issued?
  {
    var s := Refresh(db, cfg, now, token);
    assert s == Rotate(db, cfg, now, c.userId, token);
    RotateShape(db, cfg, now, c.userId, token);
    RefreshTokenOfClaims(cfg, c);
    RotateFindsLiveRow(s.db, cfg, now, c.userId, token, |db.tokens|);
  }

  /** A live row holding the token is all a rotation needs. */
  lemma RotateFindsLiveRow(db: Db, cfg: Config, now: nat, userId: nat, token: string, k: nat)
    requires WellFormed(db)
    requires k < |db.tokens| && IsLive(db.tokens[k], userId, token)
    ensures Rotate(db, cfg, now, userId, token).reply.Issued?
  {
  }
}
