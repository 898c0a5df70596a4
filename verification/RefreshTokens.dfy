/** Refresh tokens: the token table, issuing a pair, and exchanging a token for the next. */
module RefreshTokens {
  import opened Wrappers

  const SECOND: int := 1000000000
  const REFRESH_TOKEN_TTL: int := 30 * 24 * 3600 * SECOND

  /** A digest; equal digests come from equal tokens. */
  datatype Hash = Hash(raw: string)

  /** `expiresAt` is the stored text as read back: empty and malformed texts have no time. */
  datatype Token = Token(userId: string, hash: Hash, expiresAt: Option<int>, revoked: bool)

  /** The two tables; a token's user exists, and deleting a user deletes the user's tokens. */
  datatype Tables = Tables(users: set<string>, tokens: map<Hash, Token>)

  /** Which of the calls made on the way fail; a failed call has no effect. */
  datatype Faults = Faults(signing: bool, random: bool, create: bool, lookup: bool, revokeAll: bool, user: bool,
                           revoke: bool)

  datatype Outcome = Pair(refreshToken: string) | Unauthorized | ServerError

  function ToSecond(t: int): int { t - t % SECOND }

  predicate IsExpired(t: Token, now: int) { t.expiresAt.None? || now > t.expiresAt.value }

  // ---------------------------------------------------------------------------
  // The token table.

  function Create(a: Tables, t: Token): Option<Tables> {
    if t.userId in a.users && t.hash !in a.tokens then Some(a.(tokens := a.tokens[t.hash := t])) else None
  }

  function Revoke(a: Tables, userId: string, hash: Hash): Tables {
    if hash in a.tokens && a.tokens[hash].userId == userId
    then a.(tokens := a.tokens[hash := a.tokens[hash].(revoked := true)])
    else a
  }

  function RevokedRow(t: Token, userId: string): Token {
    if t.userId == userId then t.(revoked := true) else t
  }

  function RevokeAll(a: Tables, userId: string): Tables {
    a.(tokens := map h | h in a.tokens :: RevokedRow(a.tokens[h], userId))
  }

  function DeleteUser(a: Tables, userId: string): Tables {
    Tables(a.users - {userId}, map h | h in a.tokens && a.tokens[h].userId != userId :: a.tokens[h])
  }

  // ---------------------------------------------------------------------------
  // The usecase, on values.

  function NewToken(userId: string, raw: string, now: int): Token {
    Token(userId, Hash(raw), Some(ToSecond(now + REFRESH_TOKEN_TTL)), false)
  }

  function Issue(a: Tables, userId: string, raw: string, now: int, f: Faults): (Tables, Outcome) {
    var created := Create(a, NewToken(userId, raw, now));
    if f.signing || f.random || f.create || created.None? then (a, ServerError) else (created.value, Pair(raw))
  }

  function Refresh(a: Tables, presented: string, raw: string, now: int, f: Faults): (Tables, Outcome) {
    var hash := Hash(presented);
    if presented == "" then (a, Unauthorized)
    else if f.lookup then (a, ServerError)
    else if hash !in a.tokens then (a, Unauthorized)
    else
      var t := a.tokens[hash];
      if t.revoked then (if f.revokeAll then a else RevokeAll(a, t.userId), Unauthorized)
      else if IsExpired(t, now) then (a, Unauthorized)
      else if f.user then (a, ServerError)
      else if t.userId !in a.users then (a, Unauthorized)
      else if f.revoke then (a, ServerError)
      else Issue(Revoke(a, t.userId, hash), t.userId, raw, now, f)
  }

  // ---------------------------------------------------------------------------
  // The usecase as it runs, over the two tables.

  class UserUsecase {
    var users: set<string>
    var tokens: map<Hash, Token>

    ghost function Contents(): Tables
      reads this
    {
      Tables(users, tokens)
    }

    constructor (users: set<string>)
      ensures Contents() == Tables(users, map[])
    {
      this.users, this.tokens := users, map[];
    }

    method CreateRefreshToken(t: Token, fails: bool) returns (ok: bool)
      modifies this`tokens
      ensures ok <==> !fails && t.userId in users && t.hash !in old(tokens)
      ensures tokens == if ok then old(tokens)[t.hash := t] else old(tokens)
      ensures ok == (!fails && Create(old(Contents()), t).Some?)
      ensures Contents() == if ok then Create(old(Contents()), t).value else old(Contents())
    {
      if fails || t.userId !in users || t.hash in tokens {
        return false;
      }
      tokens := tokens[t.hash := t];
      return true;
    }

    method RevokeRefreshToken(userId: string, hash: Hash, fails: bool) returns (ok: bool)
      modifies this`tokens
      ensures ok == !fails
      ensures tokens.Keys == old(tokens).Keys
      ensures forall h :: h in tokens ==>
                tokens[h] == if ok && h == hash && old(tokens)[h].userId == userId then old(tokens)[h].(revoked := true)
                             else old(tokens)[h]
      ensures Contents() == if ok then Revoke(old(Contents()), userId, hash) else old(Contents())
    {
      if fails {
        return false;
      }
      if hash in tokens && tokens[hash].userId == userId {
        tokens := tokens[hash := tokens[hash].(revoked := true)];
      }
      return true;
    }

    method RevokeAllRefreshTokens(userId: string, fails: bool) returns (ok: bool)
      modifies this`tokens
      ensures ok == !fails
      ensures tokens.Keys == old(tokens).Keys
      ensures forall h :: h in tokens ==>
                tokens[h] == if ok && old(tokens)[h].userId == userId then old(tokens)[h].(revoked := true)
                             else old(tokens)[h]
      ensures Contents() == if ok then RevokeAll(old(Contents()), userId) else old(Contents())
    {
      if fails {
        return false;
      }
      tokens := map h | h in tokens :: if tokens[h].userId == userId then tokens[h].(revoked := true) else tokens[h];
      return true;
    }

    method IssueTokenPair(userId: string, raw: string, now: int, f: Faults) returns (r: Outcome)
      modifies this`tokens
      ensures (Contents(), r) == Issue(old(Contents()), userId, raw, now, f)
    {
      if f.signing || f.random {
        return ServerError;
      }
      var token := Token(userId, Hash(raw), Some(ToSecond(now + REFRESH_TOKEN_TTL)), false);
      var ok := CreateRefreshToken(token, f.create);
      if !ok {
        return ServerError;
      }
      return Pair(raw);
    }

    method RefreshTokens(presented: string, raw: string, now: int, f: Faults) returns (r: Outcome)
      modifies this`tokens
      ensures (Contents(), r) == Refresh(old(Contents()), presented, raw, now, f)
    {
      if presented == "" {
        return Unauthorized;
      }
      if f.lookup {
        return ServerError;
      }
      if Hash(presented) !in tokens {
        return Unauthorized;
      }
      var stored := tokens[Hash(presented)];
      if stored.revoked {
        var _ := RevokeAllRefreshTokens(stored.userId, f.revokeAll);
        return Unauthorized;
      }
      if IsExpired(stored, now) {
        return Unauthorized;
      }
      if f.user {
        return ServerError;
      }
      if stored.userId !in users {
        return Unauthorized;
      }
      var ok := RevokeRefreshToken(stored.userId, Hash(presented), f.revoke);
      if !ok {
        return ServerError;
      }
      r := IssueTokenPair(stored.userId, raw, now, f);
    }
  }

  // ---------------------------------------------------------------------------
  // The in-memory store: a slice of rows changed in place.

  predicate IsTable(rows: seq<Token>) {
    forall i, j :: 0 <= i < j < |rows| ==> rows[i].hash != rows[j].hash
  }

  function AsTable(rows: seq<Token>): (m: map<Hash, Token>)
    requires IsTable(rows)
    ensures forall h :: h in m <==> exists i :: 0 <= i < |rows| && rows[i].hash == h
    ensures forall i :: 0 <= i < |rows| ==> m[rows[i].hash] == rows[i]
  {
    map i | 0 <= i < |rows| :: rows[i].hash := rows[i]
  }

  lemma RowOf(rows: seq<Token>, h: Hash) returns (j: nat)
    requires IsTable(rows) && h in AsTable(rows)
    ensures j < |rows| && rows[j].hash == h && AsTable(rows)[h] == rows[j]
  {
    j :| 0 <= j < |rows| && rows[j].hash == h;
  }

  lemma UpdatedRow(rows: seq<Token>, i: nat, t: Token)
    requires IsTable(rows) && i < |rows| && t.hash == rows[i].hash
    ensures IsTable(rows[i := t]) && AsTable(rows[i := t]) == AsTable(rows)[t.hash := t]
  {
    var after := rows[i := t];
    assert forall j :: 0 <= j < |rows| ==> after[j].hash == rows[j].hash;
    SameHashes(rows, after);
    forall h | h in AsTable(after) ensures AsTable(after)[h] == AsTable(rows)[t.hash := t][h] {
      var j := RowOf(after, h);
      assert AsTable(rows)[rows[j].hash] == rows[j];
    }
  }

  lemma SameHashes(rows: seq<Token>, after: seq<Token>)
    requires IsTable(rows) && |after| == |rows| && forall j :: 0 <= j < |rows| ==> after[j].hash == rows[j].hash
    ensures IsTable(after) && AsTable(after).Keys == AsTable(rows).Keys
  {
    forall h | h in AsTable(rows) ensures h in AsTable(after) {
      var j :| 0 <= j < |rows| && rows[j].hash == h;
      assert after[j].hash == h;
    }
  }

  lemma RowsRevoked(rows: seq<Token>, after: seq<Token>, userId: string, h: Hash)
    requires IsTable(rows) && IsTable(after) && |after| == |rows| && h in AsTable(after)
    requires forall j :: 0 <= j < |rows| ==> after[j] == RevokedRow(rows[j], userId)
    ensures h in AsTable(rows) && AsTable(after)[h] == RevokedRow(AsTable(rows)[h], userId)
  {
    var j := RowOf(after, h);
    assert AsTable(rows)[rows[j].hash] == rows[j];
  }

  lemma AllRevoked(m: map<Hash, Token>, after: map<Hash, Token>, userId: string)
    requires after.Keys == m.Keys && forall h :: h in m ==> after[h] == RevokedRow(m[h], userId)
    ensures forall users :: Tables(users, after) == RevokeAll(Tables(users, m), userId)
  {
    assert after == map h | h in m :: RevokedRow(m[h], userId);
  }

  lemma UpdatedMap(rows: seq<Token>, after: seq<Token>, userId: string)
    requires IsTable(rows) && IsTable(after) && |after| == |rows| && AsTable(after).Keys == AsTable(rows).Keys
    requires forall j :: 0 <= j < |rows| ==> after[j] == RevokedRow(rows[j], userId)
    ensures forall h :: h in AsTable(rows) ==> AsTable(after)[h] == RevokedRow(AsTable(rows)[h], userId)
  {
    forall h | h in AsTable(rows) ensures AsTable(after)[h] == RevokedRow(AsTable(rows)[h], userId) {
      RowsRevoked(rows, after, userId, h);
    }
  }

  lemma UpdatedRows(rows: seq<Token>, after: seq<Token>, userId: string)
    requires IsTable(rows) && |after| == |rows|
    requires forall j :: 0 <= j < |rows| ==> after[j] == RevokedRow(rows[j], userId)
    ensures IsTable(after)
    ensures forall users :: Tables(users, AsTable(after)) == RevokeAll(Tables(users, AsTable(rows)), userId)
  {
    SameHashes(rows, after);
    UpdatedMap(rows, after, userId);
    AllRevoked(AsTable(rows), AsTable(after), userId);
  }

  /** Row of the first match; the number of rows if there is none. */
  function Match(rows: seq<Token>, userId: string, hash: Hash): (i: nat)
    ensures i <= |rows|
    ensures i < |rows| ==> rows[i].userId == userId && rows[i].hash == hash
    ensures forall j :: 0 <= j < i ==> !(rows[j].userId == userId && rows[j].hash == hash)
  {
    if rows == [] || (rows[0].userId == userId && rows[0].hash == hash) then 0 else 1 + Match(rows[1..], userId, hash)
  }

  lemma MatchUnique(rows: seq<Token>, userId: string, hash: Hash, i: nat)
    requires i <= |rows|
    requires i < |rows| ==> rows[i].userId == userId && rows[i].hash == hash
    requires forall j :: 0 <= j < i ==> !(rows[j].userId == userId && rows[j].hash == hash)
    ensures Match(rows, userId, hash) == i
  {
  }

  function FirstRevoked(rows: seq<Token>, userId: string, hash: Hash): seq<Token> {
    var i := Match(rows, userId, hash);
    if i < |rows| then rows[i := rows[i].(revoked := true)] else rows
  }

  /** Where hashes are unique, as in the table, the first match is the row of the statement. */
  lemma FirstIsRevoke(rows: seq<Token>, userId: string, hash: Hash)
    requires IsTable(rows)
    ensures IsTable(FirstRevoked(rows, userId, hash))
    ensures forall users ::
              Tables(users, AsTable(FirstRevoked(rows, userId, hash))) ==
                    Revoke(Tables(users, AsTable(rows)), userId, hash)
  {
    var i := Match(rows, userId, hash);
    if i < |rows| {
      UpdatedRow(rows, i, rows[i].(revoked := true));
    } else if hash in AsTable(rows) {
      var j := RowOf(rows, hash);
    }
  }

  /** The loop stops at the first match and reports a missing row. */
  method RevokeInPlace(rows: array<Token>, n: nat, userId: string, hash: Hash) returns (found: bool)
    requires n <= rows.Length
    modifies rows
    ensures rows[..n] == FirstRevoked(old(rows[..n]), userId, hash) && rows[n..] == old(rows[n..])
    ensures found <==> exists i :: 0 <= i < n && old(rows[i]).userId == userId && old(rows[i]).hash == hash
    ensures IsTable(old(rows[..n])) ==>
              && IsTable(rows[..n])
              && forall users :: Tables(users, AsTable(rows[..n])) ==
                    Revoke(Tables(users, AsTable(old(rows[..n]))), userId, hash)
  {
    ghost var before := rows[..n];
    if IsTable(before) {
      FirstIsRevoke(before, userId, hash);
    }
    var i := 0;
    while i < n
      invariant i <= n && rows[..] == old(rows[..])
      invariant forall j :: 0 <= j < i ==> !(before[j].userId == userId && before[j].hash == hash)
    {
      if rows[i].userId == userId && rows[i].hash == hash {
        MatchUnique(before, userId, hash, i);
        rows[i] := rows[i].(revoked := true);
        assert rows[..n] == before[i := before[i].(revoked := true)];
        return true;
      }
      i := i + 1;
    }
    MatchUnique(before, userId, hash, n);
    assert rows[..n] == before;
    return false;
  }

  /** Every row of the user is revoked, whatever the hashes. */
  method RevokeAllInPlace(rows: array<Token>, n: nat, userId: string)
    requires n <= rows.Length
    modifies rows
    ensures forall j :: 0 <= j < n ==> rows[j] == RevokedRow(old(rows[j]), userId)
    ensures rows[n..] == old(rows[n..])
    ensures IsTable(old(rows[..n])) ==>
              && IsTable(rows[..n])
              && forall users :: Tables(users, AsTable(rows[..n])) ==
                    RevokeAll(Tables(users, AsTable(old(rows[..n]))), userId)
  {
    ghost var before := rows[..n];
    var i := 0;
    while i < n
      invariant i <= n && rows[n..] == old(rows[n..])
      invariant forall j :: 0 <= j < i ==> rows[j] == RevokedRow(before[j], userId)
      invariant forall j :: i <= j < n ==> rows[j] == before[j]
    {
      if rows[i].userId == userId && !rows[i].revoked {
        rows[i] := rows[i].(revoked := true);
      }
      i := i + 1;
    }
    if IsTable(before) {
      UpdatedRows(before, rows[..n], userId);
    }
  }
}
