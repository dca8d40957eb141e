/**
 The two-secret token codec of src/config/jwt.js.

 A signed token is modelled by its claims (`userId`, the issue second `iat`
 and the expiry second `exp`, as `jwt.sign` writes them) and by the key
 that signed it; the signature itself is not modelled, so the key stands for
 "signed with this secret". A token travels as text: the decimal renderings
 of its four numbers joined by dots. Decoding is canonical (it re-encodes and
 compares), the way a signature covers the exact bytes of a real token.
 Time is a clock reading in whole seconds, as the token library reads it.
 */
module TokenCodec {
  import opened Options
  import opened Text

  /** The environment settings: the two secrets and the two lifetimes in seconds. */
  datatype Config = Config(accessSecret: nat, accessTtl: nat, refreshSecret: nat, refreshTtl: nat)

  /** The payload `{ userId }` plus the `iat` and `exp` claims the library adds. */
  datatype Claims = Claims(userId: nat, iat: nat, exp: nat)

  datatype SignedToken = SignedToken(claims: Claims, key: nat)

  datatype TokenPair = TokenPair(access: string, refresh: string)

  /** The four numbers of a token, in their textual order. */
  function Fields(t: SignedToken): (fields: seq<string>)
    ensures |fields| == 4
    ensures forall k :: 0 <= k < 4 ==> AllDigits(fields[k]) && '.' !in fields[k]
  {
    var fields := [NatToString(t.claims.userId), NatToString(t.claims.iat),
                   NatToString(t.claims.exp), NatToString(t.key)];
    assert forall k :: 0 <= k < 4 ==> AllDigits(fields[k]);
    fields
  }

  /** The text of a token. */
  function Serialize(t: SignedToken): string {
    Join(Fields(t), '.')
  }

  /** Reads a token's text back; `None` for anything that is not the exact
      text of some token. */
  function Deserialize(s: string): (r: Option<SignedToken>)
    ensures r.Some? ==> Serialize(r.value) == s
  {
    var parts := Split(s, '.');
    if |parts| != 4 then None
    else
      match (ParseNat(parts[0]), ParseNat(parts[1]), ParseNat(parts[2]), ParseNat(parts[3]))
      case (Some(u), Some(i), Some(e), Some(k)) =>
        var t := SignedToken(Claims(u, i, e), k);
        if Serialize(t) == s then Some(t) else None
      case _ => None
  }

  /** Every token's text decodes to that token. */
  lemma DeserializeSerialize(t: SignedToken)
    ensures Deserialize(Serialize(t)) == Some(t)
  {
    var fields := Fields(t);
    SplitJoin(fields, '.');
    ParseNatToString(t.claims.userId);
    ParseNatToString(t.claims.iat);
    ParseNatToString(t.claims.exp);
    ParseNatToString(t.key);
  }

  /** Text and tokens correspond one to one. */
  lemma SerializeInjective(t: SignedToken, t': SignedToken)
    requires Serialize(t) == Serialize(t')
    ensures t == t'
  {
    DeserializeSerialize(t);
    DeserializeSerialize(t');
  }

  /** A token's text holds digits and dots only, so never a space. */
  lemma SerializeHasNoSpace(t: SignedToken)
    ensures ' ' !in Serialize(t)
  {
    var s := Serialize(t);
    JoinSplit(s, '.');
    SplitJoin(Fields(t), '.');
    JoinHasNoSpace(Fields(t));
  }

  lemma {:induction false} JoinHasNoSpace(parts: seq<string>)
    requires |parts| >= 1
    requires forall k :: 0 <= k < |parts| ==> ' ' !in parts[k]
    ensures ' ' !in Join(parts, '.')
    decreases |parts|
  {
    if |parts| > 1 {
      JoinHasNoSpace(parts[1..]);
      assert Join(parts, '.') == parts[0] + ['.'] + Join(parts[1..], '.');
    }
  }

  /** `jwt.sign({ userId }, secret, { expiresIn: ttl })` at clock reading `now`. */
  function Sign(userId: nat, key: nat, ttl: nat, now: nat): string {
    Serialize(SignedToken(Claims(userId, now, now + ttl), key))
  }

  /** `generateTokens(userId)`: an access token under the access secret and
      lifetime, a refresh token under the refresh secret and lifetime, both
      carrying `userId`. */
  function GenerateTokens(cfg: Config, userId: nat, now: nat): (pair: TokenPair)
    ensures Deserialize(pair.access) == Some(SignedToken(Claims(userId, now, now + cfg.accessTtl), cfg.accessSecret))
    ensures Deserialize(pair.refresh) == Some(SignedToken(Claims(userId, now, now + cfg.refreshTtl), cfg.refreshSecret))
  {
    DeserializeSerialize(SignedToken(Claims(userId, now, now + cfg.accessTtl), cfg.accessSecret));
    DeserializeSerialize(SignedToken(Claims(userId, now, now + cfg.refreshTtl), cfg.refreshSecret));
    TokenPair(Sign(userId, cfg.accessSecret, cfg.accessTtl, now),
              Sign(userId, cfg.refreshSecret, cfg.refreshTtl, now))
  }

  /** `jwt.verify(token, secret)` inside `try`/`catch`: the claims when the
      text is a token signed with `key` and the clock is still before its
      expiry; `None` (the source's `null`) for an absent token, malformed
      text, another key, or an expired token. It never fails otherwise. */
  function Verify(key: nat, token: Option<string>, now: nat): (r: Option<Claims>)
    ensures r.Some? ==> token == Some(Serialize(SignedToken(r.value, key))) && now < r.value.exp
  {
    match token
    case None => None
    case Some(text) =>
      match Deserialize(text)
      case None => None
      case Some(t) => if t.key == key && now < t.claims.exp then Some(t.claims) else None
  }

  /** Every unexpired token signed with `key` is accepted with its own claims:
      with `Verify`'s contract this makes acceptance an if-and-only-if. */
  lemma VerifyAccepts(key: nat, c: Claims, now: nat)
    requires now < c.exp
    ensures Verify(key, Some(Serialize(SignedToken(c, key))), now) == Some(c)
  {
    DeserializeSerialize(SignedToken(c, key));
  }

  /** Once the clock reaches a token's expiry it is rejected. */
  lemma VerifyRejectsExpired(key: nat, t: SignedToken, now: nat)
    requires t.claims.exp <= now
    ensures Verify(key, Some(Serialize(t)), now) == None
  {
    DeserializeSerialize(t);
  }

  /** `verifyAccessToken`: verification under the access secret only. */
  function VerifyAccessToken(cfg: Config, token: Option<string>, now: nat): (r: Option<Claims>)
    ensures r.Some? ==> token == Some(Serialize(SignedToken(r.value, cfg.accessSecret)))
  {
    Verify(cfg.accessSecret, token, now)
  }

  /** `verifyRefreshToken`: verification under the refresh secret only. */
  function VerifyRefreshToken(cfg: Config, token: Option<string>, now: nat): (r: Option<Claims>)
    ensures r.Some? ==> token == Some(Serialize(SignedToken(r.value, cfg.refreshSecret)))
  {
    Verify(cfg.refreshSecret, token, now)
  }

  /** Round trip: both tokens of a pair issued at `issued` verify, at any
      clock reading before their expiry, to claims carrying the user id. */
  lemma GenerateThenVerify(cfg: Config, userId: nat, issued: nat, now: nat)
    ensures now < issued + cfg.accessTtl ==>
      VerifyAccessToken(cfg, Some(GenerateTokens(cfg, userId, issued).access), now)
        == Some(Claims(userId, issued, issued + cfg.accessTtl))
    ensures now < issued + cfg.refreshTtl ==>
      VerifyRefreshToken(cfg, Some(GenerateTokens(cfg, userId, issued).refresh), now)
        == Some(Claims(userId, issued, issued + cfg.refreshTtl))
    ensures issued + cfg.accessTtl <= now ==>
      VerifyAccessToken(cfg, Some(GenerateTokens(cfg, userId, issued).access), now) == None
    ensures issued + cfg.refreshTtl <= now ==>
      VerifyRefreshToken(cfg, Some(GenerateTokens(cfg, userId, issued).refresh), now) == None
  {
    var access := SignedToken(Claims(userId, issued, issued + cfg.accessTtl), cfg.accessSecret);
    var refresh := SignedToken(Claims(userId, issued, issued + cfg.refreshTtl), cfg.refreshSecret);
    var pair := GenerateTokens(cfg, userId, issued);
    assert pair.access == Serialize(access) && pair.refresh == Serialize(refresh);
    if now < issued + cfg.accessTtl {
      VerifyAccepts(cfg.accessSecret, access.claims, now);
    } else {
      VerifyRejectsExpired(cfg.accessSecret, access, now);
    }
    if now < issued + cfg.refreshTtl {
      VerifyAccepts(cfg.refreshSecret, refresh.claims, now);
    } else {
      VerifyRejectsExpired(cfg.refreshSecret, refresh, now);
    }
  }

  /** The refresh token issued to `c.userId` in second `c.iat` is the text of
      the claims `c`, when `c` carries the configured lifetime. */
  lemma RefreshTokenOfClaims(cfg: Config, c: Claims)
    requires c.exp == c.iat + cfg.refreshTtl
    ensures GenerateTokens(cfg, c.userId, c.iat).refresh == Serialize(SignedToken(c, cfg.refreshSecret))
  {
  }

  /** With distinct secrets neither verifier accepts the other kind of token. */
  lemma SecretsSeparateKinds(cfg: Config, userId: nat, issued: nat, now: nat)
    requires cfg.accessSecret != cfg.refreshSecret
    ensures VerifyRefreshToken(cfg, Some(GenerateTokens(cfg, userId, issued).access), now) == None
    ensures VerifyAccessToken(cfg, Some(GenerateTokens(cfg, userId, issued).refresh), now) == None
  {
  }

  /** The library signs at whole-second resolution and adds no nonce: two
      tokens of the same kind for the same user issued in the same second are
      the same text, and tokens issued in different seconds differ. */
  lemma SameSecondSameToken(cfg: Config, userId: nat, t1: nat, t2: nat)
    ensures GenerateTokens(cfg, userId, t1).refresh == GenerateTokens(cfg, userId, t2).refresh <==> t1 == t2
    ensures GenerateTokens(cfg, userId, t1).access == GenerateTokens(cfg, userId, t2).access <==> t1 == t2
  {
    if GenerateTokens(cfg, userId, t1).refresh == GenerateTokens(cfg, userId, t2).refresh {
      SerializeInjective(SignedToken(Claims(userId, t1, t1 + cfg.refreshTtl), cfg.refreshSecret),
                         SignedToken(Claims(userId, t2, t2 + cfg.refreshTtl), cfg.refreshSecret));
    }
    if GenerateTokens(cfg, userId, t1).access == GenerateTokens(cfg, userId, t2).access {
      SerializeInjective(SignedToken(Claims(userId, t1, t1 + cfg.accessTtl), cfg.accessSecret),
                         SignedToken(Claims(userId, t2, t2 + cfg.accessTtl), cfg.accessSecret));
    }
  }
}
