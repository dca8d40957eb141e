/**
 The authentication gate of src/middleware/auth.js: a read-only decision
 over the `Authorization` header, the access-token codec and the `tokens`
 table. It takes no database out, so it cannot change one. Whether the
 count query reaches the store is an input.
 */
module AuthMiddleware {
  import opened Options
  import opened Text
  import opened TokenCodec
  import opened Store
  import opened Http

  /** Admit binds `req.userId` and calls `next` once; Deny answers without calling it. */
  datatype Decision = Admit(userId: nat) | Deny(failure: Failure)

  /** `authHeader.split(' ')[1]`: the second space-separated piece of the
      header, absent (`undefined`) when the header holds no space. The first
      piece, the scheme, is not looked at. */
  function HeaderToken(header: string): (t: Option<string>)
    ensures t.None? <==> ' ' !in header
    ensures t.Some? ==> ' ' !in t.value
  {
    var parts := Split(header, ' ');
    if |parts| >= 2 then Some(parts[1])
    else
      assert ' ' !in Join(parts, ' ') by { JoinSplit(header, ' '); }
      JoinSplit(header, ' ');
      None
  }

  /** Whatever word precedes the first space, the text after it is the
      token: `Bearer` is not required. */
  lemma HeaderTokenAfterScheme(scheme: string, token: string)
    requires ' ' !in scheme && ' ' !in token
    ensures HeaderToken(scheme + [' '] + token) == Some(token)
  {
    SplitAtFirst(scheme, ' ', token);
    assert Split(scheme + [' '] + token, ' ')[1] == token;
  }

  /** Anything after a second space is ignored. */
  lemma HeaderTokenIgnoresTail(scheme: string, token: string, tail: string)
    requires ' ' !in scheme && ' ' !in token
    ensures HeaderToken(scheme + [' '] + token + [' '] + tail) == Some(token)
  {
    var rest := token + [' '] + tail;
    SplitAtFirst(token, ' ', tail);
    assert Split(rest, ' ')[0] == token;
    var h := scheme + [' '] + rest;
    assert scheme + [' '] + token + [' '] + tail == h;
    SplitAtFirst(scheme, ' ', rest);
    assert Split(h, ' ')[1] == Split(rest, ' ')[0];
  }

  /** The header a client sends: `Bearer <token>`. */
  function BearerHeader(token: string): string {
    "Bearer" + [' '] + token
  }

  /** `authMiddleware`. A missing or empty header, a token that does not
      verify under the access secret (or is absent), and a user without any
      live token row are each answered 401; a failing count query is
      answered 500. Only the user's having some live row is checked, not
      which session the access token came from. */
  function Gate(db: Db, cfg: Config, now: nat, header: Option<string>, storeUp: bool): (d: Decision)
    ensures header.None? || header == Some([]) ==> d == Deny(MissingToken)
    ensures header.Some? && header.value != [] ==>
      var claims := VerifyAccessToken(cfg, HeaderToken(header.value), now);
      && (claims.None? ==> d == Deny(BadAccessToken))
      && (claims.Some? && !storeUp ==> d == Deny(ServerError))
      && (claims.Some? && storeUp && CountValid(db.tokens, claims.value.userId) == 0 ==> d == Deny(SessionExpired))
      && (d.Admit? <==> claims.Some? && storeUp && CountValid(db.tokens, claims.value.userId) > 0)
      && (d.Admit? ==> d.userId == claims.value.userId)
    ensures d.Deny? ==> Status(d.failure) == (if d.failure == ServerError then 500 else 401)
  {
    match header
    case None => Deny(MissingToken)
    case Some(h) =>
      if h == [] then Deny(MissingToken)
      else
        match VerifyAccessToken(cfg, HeaderToken(h), now)
        case None => Deny(BadAccessToken)
        case Some(claims) =>
          if !storeUp then Deny(ServerError)
          else if CountValid(db.tokens, claims.userId) == 0 then Deny(SessionExpired)
          else Admit(claims.userId)
  }

  /** Every admission is explained by a live row of the admitted user and an
      unexpired access token of that user signed with the access secret,
      found in the header. */
  lemma AdmitJustified(db: Db, cfg: Config, now: nat, header: Option<string>, storeUp: bool)
    requires Gate(db, cfg, now, header, storeUp).Admit?
    ensures var u := Gate(db, cfg, now, header, storeUp).userId;
      && header.Some?
      && (exists a :: 0 <= a < |db.tokens| && db.tokens[a].userId == u && db.tokens[a].isValid)
      && (exists c: Claims :: c.userId == u && now < c.exp
            && HeaderToken(header.value) == Some(Serialize(SignedToken(c, cfg.accessSecret))))
  {
    var c := VerifyAccessToken(cfg, HeaderToken(header.value), now).value;
    assert Verify(cfg.accessSecret, HeaderToken(header.value), now) == Some(c);
  }
}
