/** Refresh tokens: long-lived opaque tokens of which the server keeps only
    a hash, issued at login and exchanged (rotated) for a new one on every
    use.

    The refresh-token table is a sequence of rows whose `id` is the row's
    position. Storage behaves as the queries the service calls are assumed
    to: a lookup by hash finds a row that is not revoked and not yet
    expired; an insert fails when the storage fails or when a row with the
    same hash exists (a unique constraint on the hash); a revoke by id sets
    the row's revoked flag, unless the storage fails. The clock, the random
    bytes and the storage failures are an `Env` parameter; SHA-256 is the
    parameter `sha`, whose assumed laws are DigestLaws. */
module Refresh {
  import opened Common
  import Base64Url

  // -----------------------------------------------------------------------
  // Hashing at rest

  /** What the model assumes of SHA-256: digests are 32 bytes, and no two
      of the plaintexts MakeRefreshToken can produce (the encodings of 32
      random bytes) share a digest. There are exactly as many such
      plaintexts as digests, so some function meets this
      (DigestLawsSatisfiable); it idealises collision resistance on the
      strings the service hashes. */
  ghost predicate DigestLaws(sha: string -> seq<Byte>) {
    && (forall s :: |sha(s)| == 32)
    && (forall r1: Random32, r2: Random32 :: sha(Base64Url.Encode(r1)) == sha(Base64Url.Encode(r2)) ==> r1 == r2)
  }

  /** The laws are consistent: decoding the plaintext back to its 32 bytes
      is such a function. */
  lemma DigestLawsSatisfiable()
    ensures exists sha :: DigestLaws(sha)
  {
    var sha: string -> seq<Byte> := s => var d := Base64Url.Decode(s); if |d| == 32 then d else seq(32, _ => 0);
    forall r1: Random32, r2: Random32 | sha(Base64Url.Encode(r1)) == sha(Base64Url.Encode(r2))
      ensures r1 == r2
    {
      Base64Url.DecodeEncode(r1);
      Base64Url.DecodeEncode(r2);
    }
    assert DigestLaws(sha);
  }

  /** hashRefresh: the unpadded base64url text of the SHA-256 of the token. */
  function HashRefresh(sha: string -> seq<Byte>, plain: string): string {
    Base64Url.Encode(sha(plain))
  }

  /** Two tokens made by MakeRefreshToken share a stored hash exactly when
      they are the same token, which is exactly when they came from the same
      random bytes; so a lookup by hash finds only rows issued for the
      presented token. Every stored hash is 43 characters. */
  lemma {:induction false} HashRefreshInjective(sha: string -> seq<Byte>, r1: Random32, r2: Random32)
    requires DigestLaws(sha)
    ensures var a, b := MakeRefreshToken(sha, r1), MakeRefreshToken(sha, r2);
      && (a.1 == b.1 <==> a.0 == b.0)
      && (a.0 == b.0 <==> r1 == r2)
    ensures |MakeRefreshToken(sha, r1).1| == 43
  {
    var a, b := MakeRefreshToken(sha, r1), MakeRefreshToken(sha, r2);
    if a.1 == b.1 {
      Base64Url.EncodeInjective(sha(a.0), sha(b.0));
    }
    if a.0 == b.0 {
      Base64Url.EncodeInjective(r1, r2);
    }
    Base64Url.EncodeLength(sha(a.0));
  }

  /** 32 bytes from the random source. */
  type Random32 = s: seq<Byte> | |s| == 32 witness seq(32, _ => 0)

  /** MakeRefreshToken: the plaintext is the unpadded base64url text of 32
      random bytes, hence 43 URL-safe characters, and the hash is exactly
      hashRefresh of that plaintext. */
  function MakeRefreshToken(sha: string -> seq<Byte>, random: Random32): (pair: (string, string))
    ensures |pair.0| == 43
    ensures forall i :: 0 <= i < |pair.0| ==> Base64Url.IsUrlChar(pair.0[i])
    ensures pair.1 == HashRefresh(sha, pair.0)
  {
    Base64Url.EncodeLength(random);
    Base64Url.EncodeAlphabet(random);
    var plain := Base64Url.Encode(random);
    (plain, Base64Url.Encode(sha(plain)))
  }

  // -----------------------------------------------------------------------
  // The table

  datatype Row = Row(
    id: nat,
    userID: Uuid,
    tokenHash: string,
    issuedAt: Time,
    expiresAt: Time,
    userAgent: string,
    ip: string,
    revoked: bool)

  /** A row the lookup by hash may find: not revoked, not yet expired. */
  predicate Active(r: Row, now: Time) {
    !r.revoked && now < r.expiresAt
  }

  /** The table's own invariant: ids are positions, hashes are unique. */
  ghost predicate TableOk(rows: seq<Row>) {
    && (forall i :: 0 <= i < |rows| ==> rows[i].id == i)
    && (forall i, j :: 0 <= i < j < |rows| ==> rows[i].tokenHash != rows[j].tokenHash)
  }

  /** GetActiveRefreshTokenByHash: the position of the first active row with
      this hash, or None when there is none. */
  function FindActive(rows: seq<Row>, hash: string, now: Time): (r: Option<nat>)
    ensures r.Some? ==> r.value < |rows| && rows[r.value].tokenHash == hash && Active(rows[r.value], now)
    ensures r.Some? ==> forall k :: 0 <= k < r.value ==> !(rows[k].tokenHash == hash && Active(rows[k], now))
    ensures r.None? <==> forall k :: 0 <= k < |rows| ==> !(rows[k].tokenHash == hash && Active(rows[k], now))
    decreases |rows|
  {
    if rows == [] then None
    else
      var n := |rows| - 1;
      match FindActive(rows[..n], hash, now)
      case Some(i) => Some(i)
      case None => if rows[n].tokenHash == hash && Active(rows[n], now) then Some(n) else None
  }

  predicate HasHash(rows: seq<Row>, hash: string) {
    exists k :: 0 <= k < |rows| && rows[k].tokenHash == hash
  }

  /** CreateRefreshToken: appends a row, unless the storage fails or the
      hash is already taken. */
  function InsertRow(rows: seq<Row>, r: Row, fails: bool): Result<seq<Row>, Error> {
    if fails || HasHash(rows, r.tokenHash) then Err(InsertFailed) else Ok(rows + [r])
  }

  /** RevokeRefreshTokenByID: sets the revoked flag of the row with this
      id, unless the storage fails (the service ignores that error). */
  function RevokeRow(rows: seq<Row>, id: nat, fails: bool): (r: seq<Row>)
    ensures |r| == |rows|
  {
    if fails then rows
    else seq(|rows|, k requires 0 <= k < |rows| => if rows[k].id == id then rows[k].(revoked := true) else rows[k])
  }

  /** With ids as positions, revoking by id revokes that one position. */
  lemma RevokeAt(rows: seq<Row>, i: nat, fails: bool)
    requires TableOk(rows) && i < |rows|
    ensures RevokeRow(rows, i, fails) == if fails then rows else rows[i := rows[i].(revoked := true)]
  {
  }

  datatype Error = NoRows | QueryFailed | InsertFailed | InvalidRefreshToken

  /** The outside world of one call: the clock, the random source and
      whether each storage call fails. */
  datatype Env = Env(now: Time, random: Random32, lookupFails: bool, revokeFails: bool, insertFails: bool)

  // -----------------------------------------------------------------------
  // Specification of the two operations

  datatype Issued = Issued(rows: seq<Row>, result: Result<string, Error>)

  function FreshRow(rows: seq<Row>, userID: Uuid, hash: string, now: Time, ttl: Time, ua: string, ip: string): Row {
    Row(|rows|, userID, hash, now, now + ttl, ua, ip, false)
  }

  /** IssueRefreshToken on a table. */
  function Issue(rows: seq<Row>, sha: string -> seq<Byte>, ttl: Time, userID: Uuid, ua: string, ip: string, env: Env): Issued {
    var pair := MakeRefreshToken(sha, env.random);
    match InsertRow(rows, FreshRow(rows, userID, pair.1, env.now, ttl, ua, ip), env.insertFails)
    case Err(e) => Issued(rows, Err(e))
    case Ok(rows') => Issued(rows', Ok(pair.0))
  }

  datatype Rotated = Rotated(rows: seq<Row>, result: Result<(string, Uuid), Error>)

  /** True when the password changed after the token was issued. */
  predicate PasswordChangedAfter(passwordChangedAt: Option<Time>, issuedAt: Time) {
    passwordChangedAt.Some? && passwordChangedAt.value > issuedAt
  }

  /** RotateRefreshToken on a table. */
  function Rotate(rows: seq<Row>, sha: string -> seq<Byte>, ttl: Time, oldPlain: string,
                  passwordChangedAt: Option<Time>, ua: string, ip: string, env: Env): Rotated {
    if env.lookupFails then Rotated(rows, Err(QueryFailed))
    else
      match FindActive(rows, HashRefresh(sha, oldPlain), env.now)
      case None => Rotated(rows, Err(NoRows))
      case Some(i) =>
        var row := rows[i];
        var revoked := RevokeRow(rows, row.id, env.revokeFails);
        if PasswordChangedAfter(passwordChangedAt, row.issuedAt) then Rotated(revoked, Err(InvalidRefreshToken))
        else
          var pair := MakeRefreshToken(sha, env.random);
          match InsertRow(revoked, FreshRow(revoked, row.userID, pair.1, env.now, ttl, ua, ip), env.insertFails)
          case Err(e) => Rotated(revoked, Err(e))
          case Ok(rows') => Rotated(rows', Ok((pair.0, row.userID)))
  }

  // -----------------------------------------------------------------------
  // Properties

  /** IssueRefreshToken inserts exactly one row, holding the hash of the
      returned plaintext, issued now and expiring after the TTL, and keeps
      the table's invariant; on an insert failure nothing changes. */
  lemma IssueInsertsOneRow(rows: seq<Row>, sha: string -> seq<Byte>, ttl: Time, userID: Uuid, ua: string, ip: string, env: Env)
    requires TableOk(rows)
    ensures var r := Issue(rows, sha, ttl, userID, ua, ip, env);
      && TableOk(r.rows)
      && (r.result.Err? ==> r.rows == rows && r.result == Err(InsertFailed))
      && (r.result.Ok? ==>
            && |r.result.value| == 43
            && r.rows == rows + [Row(|rows|, userID, HashRefresh(sha, r.result.value), env.now, env.now + ttl, ua, ip, false)])
      && (!env.insertFails && !HasHash(rows, MakeRefreshToken(sha, env.random).1) ==> r.result.Ok?)
  {
    var r := Issue(rows, sha, ttl, userID, ua, ip, env);
    if r.result.Ok? {
      AppendKeepsTable(rows, FreshRow(rows, userID, MakeRefreshToken(sha, env.random).1, env.now, ttl, ua, ip));
    }
  }

  lemma AppendKeepsTable(rows: seq<Row>, r: Row)
    requires TableOk(rows)
    requires r.id == |rows| && !HasHash(rows, r.tokenHash)
    ensures TableOk(rows + [r])
  {
    var rows' := rows + [r];
    forall i, j | 0 <= i < j < |rows'| ensures rows'[i].tokenHash != rows'[j].tokenHash {
      if j == |rows| {
        assert rows'[i] == rows[i];
      }
    }
  }

  lemma RevokeKeepsTable(rows: seq<Row>, id: nat, fails: bool)
    requires TableOk(rows)
    ensures TableOk(RevokeRow(rows, id, fails))
    ensures |RevokeRow(rows, id, fails)| == |rows|
    ensures forall k :: 0 <= k < |rows| ==> RevokeRow(rows, id, fails)[k].tokenHash == rows[k].tokenHash
  {
  }

  /** Rotating a token with no active row (unknown, revoked or expired), or
      when the lookup fails, is an error and changes nothing. */
  lemma RotateWithoutMatch(rows: seq<Row>, sha: string -> seq<Byte>, ttl: Time, oldPlain: string,
                           passwordChangedAt: Option<Time>, ua: string, ip: string, env: Env)
    requires env.lookupFails || forall k :: 0 <= k < |rows| ==>
      !(rows[k].tokenHash == HashRefresh(sha, oldPlain) && Active(rows[k], env.now))
    ensures var r := Rotate(rows, sha, ttl, oldPlain, passwordChangedAt, ua, ip, env);
      r.rows == rows && r.result.Err? && r.result.error in {NoRows, QueryFailed}
  {
  }

  /** When the password changed after the matched token was issued, the
      call fails with "invalid refresh token", revokes that row (unless the
      revoke itself fails) and inserts nothing. */
  lemma RotateAfterPasswordChange(rows: seq<Row>, sha: string -> seq<Byte>, ttl: Time, oldPlain: string,
                                  passwordChangedAt: Option<Time>, ua: string, ip: string, env: Env, i: nat)
    requires TableOk(rows) && !env.lookupFails
    requires i < |rows| && rows[i].tokenHash == HashRefresh(sha, oldPlain) && Active(rows[i], env.now)
    requires PasswordChangedAfter(passwordChangedAt, rows[i].issuedAt)
    ensures var r := Rotate(rows, sha, ttl, oldPlain, passwordChangedAt, ua, ip, env);
      && r.result == Err(InvalidRefreshToken)
      && r.rows == (if env.revokeFails then rows else rows[i := rows[i].(revoked := true)])
  {
    MatchIsUnique(rows, HashRefresh(sha, oldPlain), env.now, i);
  }

  /** With unique hashes, the active row with a given hash is the one found. */
  lemma MatchIsUnique(rows: seq<Row>, hash: string, now: Time, i: nat)
    requires TableOk(rows)
    requires i < |rows| && rows[i].tokenHash == hash && Active(rows[i], now)
    ensures FindActive(rows, hash, now) == Some(i)
  {
    var f := FindActive(rows, hash, now);
    assert f.Some?;
    assert rows[f.value].tokenHash == rows[i].tokenHash;
  }

  /** A successful rotation consumed an active row with the presented
      token's hash: that row is now revoked, exactly one row is appended
      for the same user, issued now and expiring after the TTL, holding the
      hash of the returned plaintext, and no other row changes. */
  lemma RotateSuccess(rows: seq<Row>, sha: string -> seq<Byte>, ttl: Time, oldPlain: string,
                      passwordChangedAt: Option<Time>, ua: string, ip: string, env: Env)
    requires TableOk(rows)
    ensures var r := Rotate(rows, sha, ttl, oldPlain, passwordChangedAt, ua, ip, env);
      r.result.Ok? ==>
        exists i :: 0 <= i < |rows|
          && rows[i].tokenHash == HashRefresh(sha, oldPlain) && Active(rows[i], env.now)
          && !PasswordChangedAfter(passwordChangedAt, rows[i].issuedAt)
          && r.result.value.1 == rows[i].userID
          && |r.result.value.0| == 43
          && r.rows == (if env.revokeFails then rows else rows[i := rows[i].(revoked := true)])
                       + [Row(|rows|, rows[i].userID, HashRefresh(sha, r.result.value.0), env.now, env.now + ttl, ua, ip, false)]
  {
    var r := Rotate(rows, sha, ttl, oldPlain, passwordChangedAt, ua, ip, env);
    if r.result.Ok? {
      var i := FindActive(rows, HashRefresh(sha, oldPlain), env.now).value;
      assert rows[i].id == i;
      RevokeAt(rows, i, env.revokeFails);
      var pair := MakeRefreshToken(sha, env.random);
      assert r.result.value == (pair.0, rows[i].userID);
      assert r.rows == RevokeRow(rows, i, env.revokeFails) + [FreshRow(rows, rows[i].userID, pair.1, env.now, ttl, ua, ip)];
    }
  }

  /** Every rotation keeps the table's invariant. */
  lemma RotateKeepsTable(rows: seq<Row>, sha: string -> seq<Byte>, ttl: Time, oldPlain: string,
                         passwordChangedAt: Option<Time>, ua: string, ip: string, env: Env)
    requires TableOk(rows)
    ensures TableOk(Rotate(rows, sha, ttl, oldPlain, passwordChangedAt, ua, ip, env).rows)
  {
    if !env.lookupFails {
      var f := FindActive(rows, HashRefresh(sha, oldPlain), env.now);
      if f.Some? {
        var i := f.value;
        assert rows[i].id == i;
        var revoked := RevokeRow(rows, i, env.revokeFails);
        RevokeKeepsTable(rows, i, env.revokeFails);
        var pair := MakeRefreshToken(sha, env.random);
        var newRow := FreshRow(revoked, rows[i].userID, pair.1, env.now, ttl, ua, ip);
        if InsertRow(revoked, newRow, env.insertFails).Ok? {
          AppendKeepsTable(revoked, newRow);
        }
      }
    }
  }

  /** Single use: once a rotation has succeeded and its revoke went
      through, presenting the same plaintext again fails, at any time, with
      any password state and whatever the storage does. */
  lemma RotateIsSingleUse(rows: seq<Row>, sha: string -> seq<Byte>, ttl: Time, oldPlain: string,
                          passwordChangedAt: Option<Time>, ua: string, ip: string, env: Env,
                          passwordChangedAt2: Option<Time>, ua2: string, ip2: string, env2: Env)
    requires TableOk(rows) && !env.revokeFails
    requires Rotate(rows, sha, ttl, oldPlain, passwordChangedAt, ua, ip, env).result.Ok?
    ensures var after := Rotate(rows, sha, ttl, oldPlain, passwordChangedAt, ua, ip, env).rows;
      Rotate(after, sha, ttl, oldPlain, passwordChangedAt2, ua2, ip2, env2).result.Err?
  {
    var hash := HashRefresh(sha, oldPlain);
    var i := FindActive(rows, hash, env.now).value;
    assert rows[i].id == i;
    var revoked := RevokeRow(rows, i, false);
    var pair := MakeRefreshToken(sha, env.random);
    var after := revoked + [FreshRow(revoked, rows[i].userID, pair.1, env.now, ttl, ua, ip)];
    assert Rotate(rows, sha, ttl, oldPlain, passwordChangedAt, ua, ip, env).rows == after;
    assert revoked[i].tokenHash == hash;
    assert pair.1 != hash;
    forall k | 0 <= k < |after| ensures !(after[k].tokenHash == hash && Active(after[k], env2.now)) {
      if k < |rows| && k != i {
        assert after[k] == rows[k];
        assert rows[k].tokenHash != rows[i].tokenHash;
      }
    }
  }

  /** A freshly issued token can be rotated: presented while it is still
      unexpired, by a user whose password has not changed since, and with
      the lookup and the insert going through, the plaintext IssueRefreshToken
      returned is exchanged for a new one for the same user. */
  lemma IssueThenRotate(rows: seq<Row>, sha: string -> seq<Byte>, ttl: Time, userID: Uuid, ua: string, ip: string, env: Env,
                        passwordChangedAt: Option<Time>, ua2: string, ip2: string, env2: Env)
    requires TableOk(rows)
    requires Issue(rows, sha, ttl, userID, ua, ip, env).result.Ok?
    requires env2.now < env.now + ttl
    requires !PasswordChangedAfter(passwordChangedAt, env.now)
    requires !env2.lookupFails && !env2.insertFails
    requires !HasHash(Issue(rows, sha, ttl, userID, ua, ip, env).rows, MakeRefreshToken(sha, env2.random).1)
    ensures var issued := Issue(rows, sha, ttl, userID, ua, ip, env);
      Rotate(issued.rows, sha, ttl, issued.result.value, passwordChangedAt, ua2, ip2, env2).result
        == Ok((MakeRefreshToken(sha, env2.random).0, userID))
  {
    var issued := Issue(rows, sha, ttl, userID, ua, ip, env);
    IssueInsertsOneRow(rows, sha, ttl, userID, ua, ip, env);
    var after := issued.rows;
    var n := |rows|;
    assert after[n].tokenHash == HashRefresh(sha, issued.result.value);
    MatchIsUnique(after, HashRefresh(sha, issued.result.value), env2.now, n);
    RevokeKeepsTable(after, n, env2.revokeFails);
    var revoked := RevokeRow(after, n, env2.revokeFails);
    var newHash := MakeRefreshToken(sha, env2.random).1;
    forall k | 0 <= k < |revoked| ensures revoked[k].tokenHash != newHash {
      assert revoked[k].tokenHash == after[k].tokenHash;
    }
  }

  /** Not atomic, as written: a revoke error is ignored, so when the revoke
      fails and the insert succeeds, the presented token stays active and
      can be rotated again. */
  lemma RevokeFailureKeepsOldTokenActive(rows: seq<Row>, sha: string -> seq<Byte>, ttl: Time, oldPlain: string,
                                         passwordChangedAt: Option<Time>, ua: string, ip: string, env: Env)
    requires TableOk(rows) && env.revokeFails
    requires Rotate(rows, sha, ttl, oldPlain, passwordChangedAt, ua, ip, env).result.Ok?
    ensures var after := Rotate(rows, sha, ttl, oldPlain, passwordChangedAt, ua, ip, env).rows;
      FindActive(after, HashRefresh(sha, oldPlain), env.now).Some?
  {
    var hash := HashRefresh(sha, oldPlain);
    var i := FindActive(rows, hash, env.now).value;
    var after := Rotate(rows, sha, ttl, oldPlain, passwordChangedAt, ua, ip, env).rows;
    assert after[i] == rows[i];
  }

  /** Not atomic, as written: when the insert fails after a successful
      revoke, the call fails and the presented token is revoked all the same. */
  lemma InsertFailureAfterRevoke(rows: seq<Row>, sha: string -> seq<Byte>, ttl: Time, oldPlain: string,
                                 passwordChangedAt: Option<Time>, ua: string, ip: string, env: Env, i: nat)
    requires TableOk(rows) && !env.lookupFails && !env.revokeFails && env.insertFails
    requires i < |rows| && rows[i].tokenHash == HashRefresh(sha, oldPlain) && Active(rows[i], env.now)
    ensures var r := Rotate(rows, sha, ttl, oldPlain, passwordChangedAt, ua, ip, env);
      r.result.Err? && r.rows == rows[i := rows[i].(revoked := true)]
  {
    MatchIsUnique(rows, HashRefresh(sha, oldPlain), env.now, i);
  }

  /** Revoked rows stay revoked and unchanged under both operations, and
      rows are never removed. */
  lemma RevokedRowsStayRevoked(rows: seq<Row>, sha: string -> seq<Byte>, ttl: Time, oldPlain: string, userID: Uuid,
                               passwordChangedAt: Option<Time>, ua: string, ip: string, env: Env, k: nat)
    requires TableOk(rows) && k < |rows| && rows[k].revoked
    ensures var r := Rotate(rows, sha, ttl, oldPlain, passwordChangedAt, ua, ip, env).rows;
      k < |r| && r[k] == rows[k]
    ensures var r := Issue(rows, sha, ttl, userID, ua, ip, env).rows;
      k < |r| && r[k] == rows[k]
  {
    var f := FindActive(rows, HashRefresh(sha, oldPlain), env.now);
    if !env.lookupFails && f.Some? {
      assert rows[f.value].id == f.value;
    }
  }

  // -----------------------------------------------------------------------
  // The service

  /** RefreshService: the digest and the TTL are fixed at construction; the
      table is the state that IssueRefreshToken and RotateRefreshToken
      change. */
  class RefreshService {
    const sha: string -> seq<Byte>
    const ttl: Time
    var rows: seq<Row>

    ghost predicate Valid()
      reads this
    {
      TableOk(rows)
    }

    constructor (sha: string -> seq<Byte>, ttl: Time)
      ensures Valid() && this.sha == sha && this.ttl == ttl && rows == []
    {
      this.sha := sha;
      this.ttl := ttl;
      rows := [];
    }

    /** The lookup query: reads the table only. */
    method GetActiveRefreshTokenByHash(hash: string, now: Time, fails: bool) returns (r: Result<Row, Error>)
      requires Valid()
      ensures fails ==> r == Err(QueryFailed)
      ensures !fails ==> (r.Ok? <==> FindActive(rows, hash, now).Some?)
      ensures r.Ok? ==> r.value.id < |rows| && rows[r.value.id] == r.value
                        && r.value.tokenHash == hash && Active(r.value, now)
      ensures !fails && FindActive(rows, hash, now).None? ==> r == Err(NoRows)
    {
      if fails {
        return Err(QueryFailed);
      }
      var f := FindActive(rows, hash, now);
      if f.None? {
        return Err(NoRows);
      }
      r := Ok(rows[f.value]);
    }

    /** The insert query; the new row takes the next id. */
    method CreateRefreshToken(r: Row, fails: bool) returns (failed: bool)
      requires Valid() && r.id == |rows|
      modifies this
      ensures Valid()
      ensures failed == InsertRow(old(rows), r, fails).Err?
      ensures rows == if failed then old(rows) else old(rows) + [r]
    {
      failed := fails || HasHash(rows, r.tokenHash);
      if !failed {
        AppendKeepsTable(rows, r);
        rows := rows + [r];
      }
    }

    /** The revoke query. */
    method RevokeRefreshTokenByID(id: nat, fails: bool)
      requires Valid()
      modifies this
      ensures Valid()
      ensures rows == RevokeRow(old(rows), id, fails)
    {
      RevokeKeepsTable(rows, id, fails);
      rows := RevokeRow(rows, id, fails);
    }

    method IssueRefreshToken(userID: Uuid, ua: string, ip: string, env: Env) returns (r: Result<string, Error>)
      requires Valid()
      modifies this
      ensures Valid()
      ensures rows == Issue(old(rows), sha, ttl, userID, ua, ip, env).rows
      ensures r == Issue(old(rows), sha, ttl, userID, ua, ip, env).result
    {
      IssueInsertsOneRow(rows, sha, ttl, userID, ua, ip, env);
      var pair := MakeRefreshToken(sha, env.random);
      var plain, tokenHash := pair.0, pair.1;
      var now := env.now;
      var failed := CreateRefreshToken(Row(|rows|, userID, tokenHash, now, now + ttl, ua, ip, false), env.insertFails);
      if failed {
        return Err(InsertFailed);
      }
      return Ok(plain);
    }

    method RotateRefreshToken(oldPlain: string, passwordChangedAt: Option<Time>, ua: string, ip: string, env: Env)
      returns (r: Result<(string, Uuid), Error>)
      requires Valid()
      modifies this
      ensures Valid()
      ensures rows == Rotate(old(rows), sha, ttl, oldPlain, passwordChangedAt, ua, ip, env).rows
      ensures r == Rotate(old(rows), sha, ttl, oldPlain, passwordChangedAt, ua, ip, env).result
    {
      ghost var spec := Rotate(rows, sha, ttl, oldPlain, passwordChangedAt, ua, ip, env);
      RotateKeepsTable(rows, sha, ttl, oldPlain, passwordChangedAt, ua, ip, env);
      var hash := HashRefresh(sha, oldPlain);
      var now := env.now;
      var found := GetActiveRefreshTokenByHash(hash, now, env.lookupFails);
      if found.Err? {
        return Err(found.error);
      }
      var token := found.value;
      MatchIsUnique(rows, hash, now, token.id);
      ghost var revokedRows := RevokeRow(rows, token.id, env.revokeFails);
      if PasswordChangedAfter(passwordChangedAt, token.issuedAt) {
        RevokeRefreshTokenByID(token.id, env.revokeFails);
        assert spec == Rotated(revokedRows, Err(InvalidRefreshToken));
        return Err(InvalidRefreshToken);
      }
      RevokeRefreshTokenByID(token.id, env.revokeFails);
      var pair := MakeRefreshToken(sha, env.random);
      var newPlain, newHash := pair.0, pair.1;
      var newRow := Row(|rows|, token.userID, newHash, now, now + ttl, ua, ip, false);
      assert newRow == FreshRow(revokedRows, token.userID, pair.1, env.now, ttl, ua, ip);
      var failed := CreateRefreshToken(newRow, env.insertFails);
      if failed {
        assert spec == Rotated(revokedRows, Err(InsertFailed));
        return Err(InsertFailed);
      }
      assert spec == Rotated(revokedRows + [newRow], Ok((newPlain, token.userID)));
      return Ok((newPlain, token.userID));
    }
  }
}
