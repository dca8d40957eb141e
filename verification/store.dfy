/**
 The `users` and `tokens` tables the session handlers read and write, as an
 immutable value. Rows are kept in insertion order, which is also the order
 a query without `ORDER BY` is taken to return them in; ids come from the
 tables' auto-increment counters. Password hashing stands in for bcrypt.
 */
module Store {
  import opened Options

  // ---------------------------------------------------------------------
  // Password hashing

  /** bcrypt's keyed one-way function, from a salt and a password to a digest.
      It is a parameter: the model assumes nothing about it. */
  type Kdf = (nat, string) -> nat

  /** A stored password hash: the salt it was made with and the digest. */
  datatype PasswordHash = PasswordHash(salt: nat, digest: nat)

  /** `bcrypt.hash(password, salt)`. */
  function HashPassword(kdf: Kdf, salt: nat, password: string): (h: PasswordHash)
    ensures h.salt == salt
    ensures Matches(kdf, password, h)
  {
    PasswordHash(salt, kdf(salt, password))
  }

  /** `bcrypt.compare(password, hash)`: re-hash with the stored salt and compare. */
  predicate Matches(kdf: Kdf, password: string, h: PasswordHash) {
    kdf(h.salt, password) == h.digest
  }

  // ---------------------------------------------------------------------
  // Tables

  datatype UserRow = UserRow(id: nat, identifier: string, hash: PasswordHash)

  /** A row of `tokens`; `isValid` is the `is_valid` column. */
  datatype TokenRow = TokenRow(id: nat, userId: nat, refreshToken: string, isValid: bool)

  datatype Db = Db(users: seq<UserRow>, nextUserId: nat, tokens: seq<TokenRow>, nextTokenId: nat)

  /** The `is_valid` value a row gets when an `INSERT` does not name the
      column: the handlers never set it on insert and rely on it being true. */
  const DefaultIsValid: bool := true

  /** What the schema guarantees: ids increase in insertion order and stay
      below the counter, identifiers are unique, and every token row belongs
      to an existing user. */
  ghost predicate WellFormed(db: Db) {
    && (forall a, b :: 0 <= a < b < |db.users| ==> db.users[a].id < db.users[b].id)
    && (forall a :: 0 <= a < |db.users| ==> db.users[a].id < db.nextUserId)
    && (forall a, b :: 0 <= a < b < |db.users| ==> db.users[a].identifier != db.users[b].identifier)
    && (forall a, b :: 0 <= a < b < |db.tokens| ==> db.tokens[a].id < db.tokens[b].id)
    && (forall a :: 0 <= a < |db.tokens| ==> db.tokens[a].id < db.nextTokenId)
    && (forall a :: 0 <= a < |db.tokens| ==> HasUser(db.users, db.tokens[a].userId))
  }

  /** The empty database. */
  function Empty(): (db: Db)
    ensures WellFormed(db)
    ensures db.users == [] && db.tokens == []
  {
    Db([], 1, [], 1)
  }

  predicate HasUser(users: seq<UserRow>, userId: nat) {
    exists a :: 0 <= a < |users| && users[a].id == userId
  }

  // ---------------------------------------------------------------------
  // Queries

  /** `SELECT ... FROM users WHERE identifier = ?`, first row. */
  function FindByIdentifier(users: seq<UserRow>, identifier: string): (r: Option<nat>)
    ensures r.Some? ==> r.value < |users| && users[r.value].identifier == identifier
    ensures r.Some? ==> forall a :: 0 <= a < r.value ==> users[a].identifier != identifier
    ensures r.None? <==> forall a :: 0 <= a < |users| ==> users[a].identifier != identifier
  {
    if |users| == 0 then None
    else if users[0].identifier == identifier then Some(0)
    else match FindByIdentifier(users[1..], identifier)
      case None => None
      case Some(a) => Some(a + 1)
  }

  /** `SELECT identifier FROM users WHERE id = ?`, first row. */
  function FindById(users: seq<UserRow>, userId: nat): (r: Option<nat>)
    ensures r.Some? ==> r.value < |users| && users[r.value].id == userId
    ensures r.None? <==> !HasUser(users, userId)
  {
    if |users| == 0 then None
    else if users[0].id == userId then Some(0)
    else match FindById(users[1..], userId)
      case None => assert !HasUser(users[1..], userId); None
      case Some(a) => Some(a + 1)
  }

  /** A token row that `WHERE user_id = ? AND refresh_token = ? AND is_valid = true` selects. */
  predicate IsLive(row: TokenRow, userId: nat, token: string) {
    row.userId == userId && row.refreshToken == token && row.isValid
  }

  /** The refresh lookup, first row. */
  function FindLive(tokens: seq<TokenRow>, userId: nat, token: string): (r: Option<nat>)
    ensures r.Some? ==> r.value < |tokens| && IsLive(tokens[r.value], userId, token)
    ensures r.Some? ==> forall a :: 0 <= a < r.value ==> !IsLive(tokens[a], userId, token)
    ensures r.None? <==> forall a :: 0 <= a < |tokens| ==> !IsLive(tokens[a], userId, token)
  {
    if |tokens| == 0 then None
    else if IsLive(tokens[0], userId, token) then Some(0)
    else match FindLive(tokens[1..], userId, token)
      case None => None
      case Some(a) => Some(a + 1)
  }

  /** `SELECT COUNT(*) FROM tokens WHERE user_id = ? AND is_valid = true`. */
  function CountValid(tokens: seq<TokenRow>, userId: nat): (n: nat)
    ensures n <= |tokens|
    ensures n == 0 <==> forall a :: 0 <= a < |tokens| ==> !(tokens[a].userId == userId && tokens[a].isValid)
  {
    if |tokens| == 0 then 0
    else CountValid(tokens[..|tokens| - 1], userId)
         + (if tokens[|tokens| - 1].userId == userId && tokens[|tokens| - 1].isValid then 1 else 0)
  }

  /** Counting over a concatenation adds up. */
  lemma {:induction false} CountValidAppend(xs: seq<TokenRow>, ys: seq<TokenRow>, userId: nat)
    ensures CountValid(xs + ys, userId) == CountValid(xs, userId) + CountValid(ys, userId)
    decreases |ys|
  {
    if |ys| > 0 {
      var last := ys[|ys| - 1];
      CountValidAppend(xs, ys[..|ys| - 1], userId);
      assert (xs + ys)[..|xs + ys| - 1] == xs + ys[..|ys| - 1];
      assert (xs + ys)[|xs + ys| - 1] == last;
    } else {
      assert xs + ys == xs;
    }
  }

  /** 1 when `row` is a live row of `userId`, else 0. */
  function Counted(row: TokenRow, userId: nat): nat {
    if row.userId == userId && row.isValid then 1 else 0
  }

  /** Appending one row adds what that row contributes. */
  lemma CountValidPush(tokens: seq<TokenRow>, row: TokenRow, userId: nat)
    ensures CountValid(tokens + [row], userId) == CountValid(tokens, userId) + Counted(row, userId)
  {
    assert (tokens + [row])[..|tokens|] == tokens;
  }

  /** Replacing one row changes the count by what the two rows contribute. */
  lemma CountValidUpdate(tokens: seq<TokenRow>, k: nat, row: TokenRow, userId: nat)
    requires k < |tokens|
    ensures CountValid(tokens[k := row], userId) + Counted(tokens[k], userId)
         == CountValid(tokens, userId) + Counted(row, userId)
  {
    var pre, post := tokens[..k], tokens[k + 1..];
    assert tokens == pre + [tokens[k]] + post;
    assert tokens[k := row] == pre + [row] + post;
    CountValidAppend(pre + [tokens[k]], post, userId);
    CountValidAppend(pre, [tokens[k]], userId);
    CountValidAppend(pre + [row], post, userId);
    CountValidAppend(pre, [row], userId);
    assert [tokens[k]][..0] == [];
    assert [row][..0] == [];
  }

  /** The `tokens` table after a rotation: row `k` switched off, every other
      row kept, one row appended. */
  ghost predicate RotatedAt(tokens: seq<TokenRow>, tokens': seq<TokenRow>, k: nat) {
    && k < |tokens|
    && |tokens'| == |tokens| + 1
    && tokens'[k] == tokens[k].(isValid := false)
    && forall a :: 0 <= a < |tokens| && a != k ==> tokens'[a] == tokens[a]
  }

  /** A rotation trades what row `k` contributed to a user's count for what
      the appended row contributes. */
  lemma RotatedAtCount(tokens: seq<TokenRow>, tokens': seq<TokenRow>, k: nat, userId: nat)
    requires RotatedAt(tokens, tokens', k)
    ensures CountValid(tokens', userId) + Counted(tokens[k], userId)
         == CountValid(tokens, userId) + Counted(tokens'[|tokens|], userId)
  {
    var off := tokens[k := tokens[k].(isValid := false)];
    assert tokens' == off + [tokens'[|tokens|]];
    CountValidUpdate(tokens, k, tokens[k].(isValid := false), userId);
    CountValidPush(off, tokens'[|tokens|], userId);
  }

  // ---------------------------------------------------------------------
  // Updates

  /** `INSERT INTO tokens (user_id, refresh_token) VALUES (?, ?)`: one more
      live session for `userId`, which the refresh lookup now finds, and no
      change to anyone else's sessions. */
  function InsertToken(db: Db, userId: nat, token: string): (db': Db)
    ensures db'.users == db.users && db'.nextUserId == db.nextUserId
    ensures db'.tokens == db.tokens + [TokenRow(db.nextTokenId, userId, token, DefaultIsValid)]
    ensures db'.nextTokenId == db.nextTokenId + 1
    ensures CountValid(db'.tokens, userId) == CountValid(db.tokens, userId) + 1
    ensures forall v :: v != userId ==> CountValid(db'.tokens, v) == CountValid(db.tokens, v)
    ensures FindLive(db'.tokens, userId, token).Some?
  {
    var row := TokenRow(db.nextTokenId, userId, token, DefaultIsValid);
    assert (db.tokens + [row])[..|db.tokens|] == db.tokens;
    assert IsLive((db.tokens + [row])[|db.tokens|], userId, token);
    db.(tokens := db.tokens + [row], nextTokenId := db.nextTokenId + 1)
  }

  /** `UPDATE tokens SET is_valid = false WHERE id = ?`. */
  function InvalidateById(tokens: seq<TokenRow>, id: nat): (r: seq<TokenRow>)
    ensures |r| == |tokens|
  {
    seq(|tokens|, a requires 0 <= a < |tokens| =>
      if tokens[a].id == id then tokens[a].(isValid := false) else tokens[a])
  }

  /** `UPDATE tokens SET is_valid = false WHERE user_id = ? AND is_valid = true`:
      the user is left with no live session and every other user keeps as
      many as before. */
  function InvalidateUser(tokens: seq<TokenRow>, userId: nat): (r: seq<TokenRow>)
    ensures |r| == |tokens|
    ensures forall a :: 0 <= a < |r| ==>
      r[a] == if tokens[a].userId == userId && tokens[a].isValid then tokens[a].(isValid := false) else tokens[a]
    ensures CountValid(r, userId) == 0
    ensures forall v :: v != userId ==> CountValid(r, v) == CountValid(tokens, v)
  {
    var r := seq(|tokens|, a requires 0 <= a < |tokens| =>
      if tokens[a].userId == userId && tokens[a].isValid then tokens[a].(isValid := false) else tokens[a]);
    assert forall v :: v != userId ==> CountValid(r, v) == CountValid(tokens, v) by {
      forall v | v != userId
        ensures CountValid(r, v) == CountValid(tokens, v)
      {
        CountValidSameCounted(tokens, r, v);
      }
    }
    r
  }

  /** Two tables whose rows count alike for `v`, row by row, count the same for `v`. */
  lemma {:induction false} CountValidSameCounted(xs: seq<TokenRow>, ys: seq<TokenRow>, v: nat)
    requires |xs| == |ys|
    requires forall a :: 0 <= a < |xs| ==> Counted(xs[a], v) == Counted(ys[a], v)
    ensures CountValid(xs, v) == CountValid(ys, v)
    decreases |xs|
  {
    if |xs| > 0 {
      var n := |xs| - 1;
      var xp, yp := xs[..n], ys[..n];
      forall a | 0 <= a < n ensures Counted(xp[a], v) == Counted(yp[a], v) {
        assert xp[a] == xs[a] && yp[a] == ys[a];
      }
      CountValidSameCounted(xp, yp, v);
      assert Counted(xs[n], v) == Counted(ys[n], v);
    }
  }

  // ---------------------------------------------------------------------
  // The updates keep the schema guarantees

  /** `INSERT INTO users (identifier, password_hash) VALUES (?, ?)`. */
  function InsertUser(db: Db, identifier: string, hash: PasswordHash): (db': Db)
    ensures db'.users == db.users + [UserRow(db.nextUserId, identifier, hash)]
    ensures db'.nextUserId == db.nextUserId + 1
    ensures db'.tokens == db.tokens && db'.nextTokenId == db.nextTokenId
  {
    db.(users := db.users + [UserRow(db.nextUserId, identifier, hash)], nextUserId := db.nextUserId + 1)
  }

  lemma InsertUserWellFormed(db: Db, identifier: string, hash: PasswordHash)
    requires WellFormed(db)
    requires forall a :: 0 <= a < |db.users| ==> db.users[a].identifier != identifier
    ensures WellFormed(InsertUser(db, identifier, hash))
    ensures HasUser(InsertUser(db, identifier, hash).users, db.nextUserId)
    ensures !HasUser(db.users, db.nextUserId)
  {
    var db' := InsertUser(db, identifier, hash);
    assert db'.users[|db.users|].id == db.nextUserId;
    forall a | 0 <= a < |db.tokens|
      ensures HasUser(db'.users, db.tokens[a].userId)
    {
      var b :| 0 <= b < |db.users| && db.users[b].id == db.tokens[a].userId;
      assert db'.users[b] == db.users[b];
    }
  }

  /** The identifier lookup finds a newly registered identifier in the new row. */
  lemma InsertUserFinds(db: Db, identifier: string, hash: PasswordHash)
    requires forall a :: 0 <= a < |db.users| ==> db.users[a].identifier != identifier
    ensures FindByIdentifier(InsertUser(db, identifier, hash).users, identifier) == Some(|db.users|)
  {
    var users' := InsertUser(db, identifier, hash).users;
    assert users'[|db.users|].identifier == identifier;
    assert forall a :: 0 <= a < |db.users| ==> users'[a] == db.users[a];
  }

  lemma InsertTokenWellFormed(db: Db, userId: nat, token: string)
    requires WellFormed(db)
    requires HasUser(db.users, userId)
    ensures WellFormed(InsertToken(db, userId, token))
  {
    var row := TokenRow(db.nextTokenId, userId, token, DefaultIsValid);
    AppendTokenWellFormed(db, row);
    assert InsertToken(db, userId, token) == db.(tokens := db.tokens + [row], nextTokenId := db.nextTokenId + 1);
  }

  /** Appending a row of an existing user under the token counter keeps the
      schema guarantees. */
  lemma AppendTokenWellFormed(db: Db, row: TokenRow)
    requires WellFormed(db)
    requires HasUser(db.users, row.userId) && row.id == db.nextTokenId
    ensures WellFormed(db.(tokens := db.tokens + [row], nextTokenId := db.nextTokenId + 1))
  {
    var tokens' := db.tokens + [row];
    assert forall a :: 0 <= a < |tokens'| ==> tokens'[a] == if a < |db.tokens| then db.tokens[a] else row;
  }

  lemma InvalidateByIdWellFormed(db: Db, id: nat)
    requires WellFormed(db)
    ensures WellFormed(db.(tokens := InvalidateById(db.tokens, id)))
  {
    var r := InvalidateById(db.tokens, id);
    assert forall a :: 0 <= a < |r| ==> r[a].id == db.tokens[a].id && r[a].userId == db.tokens[a].userId;
  }

  lemma InvalidateUserWellFormed(db: Db, userId: nat)
    requires WellFormed(db)
    ensures WellFormed(db.(tokens := InvalidateUser(db.tokens, userId)))
  {
    var r := InvalidateUser(db.tokens, userId);
    assert forall a :: 0 <= a < |r| ==> r[a].id == db.tokens[a].id && r[a].userId == db.tokens[a].userId;
  }

  /** Switching off row `k` by its id and then inserting a row is a rotation
      at `k`. */
  lemma InvalidateThenInsert(db: Db, k: nat, userId: nat, token: string)
    requires WellFormed(db)
    requires k < |db.tokens|
    ensures RotatedAt(db.tokens, InsertToken(db.(tokens := InvalidateById(db.tokens, db.tokens[k].id)), userId, token).tokens, k)
  {
    InvalidateByIdOnlyRow(db, k);
  }

  /** In a well-formed table, switching off the row with the id of row `k`
      switches off that row alone. */
  lemma InvalidateByIdOnlyRow(db: Db, k: nat)
    requires WellFormed(db)
    requires k < |db.tokens|
    ensures var r := InvalidateById(db.tokens, db.tokens[k].id);
      && r[k] == db.tokens[k].(isValid := false)
      && forall a :: 0 <= a < |db.tokens| && a != k ==> r[a] == db.tokens[a]
  {
    forall a | 0 <= a < |db.tokens| && a != k
      ensures db.tokens[a].id != db.tokens[k].id
    {
      if a < k {
        assert db.tokens[a].id < db.tokens[k].id;
      } else {
        assert db.tokens[k].id < db.tokens[a].id;
      }
    }
  }
}
