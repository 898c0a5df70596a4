/** The rules of issuing and exchanging tokens, spelled out: who gets a pair, what every refusal
    means, what the table is afterwards, and how long a token lives. */
module TokenRules {
  import opened Wrappers
  import opened RefreshTokens
  import opened TokenFamilies

  /** Thirty days in nanoseconds. */
  const THIRTY_DAYS: int := 2_592_000_000_000_000

  /** A pair is issued when nothing fails, for a user who exists; its token is new, unrevoked, and
      expires thirty days later, cut to the whole second. */
  lemma IssueRule(a: Tables, userId: string, raw: string, now: int, f: Faults)
    ensures var (b, r) := Issue(a, userId, raw, now, f);
            && b.users == a.users
            && (r.Pair? <==>
                  !f.signing && !f.random && !f.create && userId in a.users && Hash(raw) !in a.tokens)
            && (!r.Pair? ==> r == ServerError && b == a)
            && (r.Pair? ==>
                  && r.refreshToken == raw && Hash(raw) in b.tokens
                  && var t := b.tokens[Hash(raw)];
                  && b.tokens == a.tokens[Hash(raw) := t]
                  && t.userId == userId && t.hash == Hash(raw) && !t.revoked && t.expiresAt.Some?
                  && t.expiresAt.value <= now + THIRTY_DAYS < t.expiresAt.value + 1_000_000_000
                  && t.expiresAt.value % 1_000_000_000 == 0)
  {
  }

  /** A presented token that may be exchanged: known, unrevoked, not past its expiry, of a user who exists. */
  predicate Exchangeable(a: Tables, presented: string, now: int) {
    && presented != "" && Hash(presented) in a.tokens
    && var t := a.tokens[Hash(presented)];
    && !t.revoked && t.expiresAt.Some? && now <= t.expiresAt.value && t.userId in a.users
  }

  predicate NoFault(f: Faults) {
    !f.signing && !f.random && !f.create && !f.lookup && !f.user && !f.revoke
  }

  /** An exchange succeeds exactly for an exchangeable token when no call on its way fails and the
      new raw token is fresh. */
  lemma ExchangeRule(a: Tables, presented: string, raw: string, now: int, f: Faults)
    ensures Refresh(a, presented, raw, now, f).1.Pair? <==>
              && Hash(raw) !in a.tokens
              && !f.signing && !f.random && !f.create && !f.lookup && !f.user && !f.revoke
              && presented != "" && Hash(presented) in a.tokens
              && var t := a.tokens[Hash(presented)];
              && !t.revoked && t.expiresAt.Some? && now <= t.expiresAt.value && t.userId in a.users
  {
  }

  /** What every other answer means. */
  lemma RefusalRule(a: Tables, presented: string, raw: string, now: int, f: Faults)
    ensures Refresh(a, presented, raw, now, f).1 == Unauthorized <==>
              || presented == ""
              || (!f.lookup &&
                  (Hash(presented) in a.tokens ==>
                     var t := a.tokens[Hash(presented)];
                     || t.revoked || t.expiresAt.None? || now > t.expiresAt.value
                     || (!f.user && t.userId !in a.users)))
    ensures Refresh(a, presented, raw, now, f).1.Pair? ==> Refresh(a, presented, raw, now, f).1.refreshToken == raw
  {
  }

  /** The table after an exchange that issued a pair, after one that only spent the token, after a
      reuse, and after any other refusal. */
  lemma TableRule(a: Tables, presented: string, raw: string, now: int, f: Faults)
    ensures var (b, r) := Refresh(a, presented, raw, now, f);
            var h := Hash(presented);
            var reuse := presented != "" && !f.lookup && h in a.tokens && a.tokens[h].revoked;
            var spent := !f.lookup && !f.user && !f.revoke && Exchangeable(a, presented, now);
            && b.users == a.users
            && b.tokens.Keys == a.tokens.Keys + (if r.Pair? then {Hash(raw)} else {})
            && (forall k :: k in a.tokens ==>
                  b.tokens[k] ==
                  if (spent && k == h) || (reuse && !f.revokeAll && a.tokens[k].userId == a.tokens[h].userId)
                  then a.tokens[k].(revoked := true) else a.tokens[k])
            && (r.Pair? ==> spent && b.tokens[Hash(raw)].userId == a.tokens[h].userId)
  {
    IssueRule(Revoke(a, if Hash(presented) in a.tokens then a.tokens[Hash(presented)].userId else "", Hash(presented)),
              if Hash(presented) in a.tokens then a.tokens[Hash(presented)].userId else "", raw, now, f);
  }

  // ---------------------------------------------------------------------------
  // Over runs: expiry.

  /** The token of this hash has been issued and, while it is stored, expires at this time. */
  ghost predicate ExpiresAt(w: World, h: Hash, e: int) {
    h in w.issued && (h in w.a.tokens ==> w.a.tokens[h].expiresAt == Some(e))
  }

  lemma ExpiryStep(w: World, c: Call, h: Hash, e: int)
    requires Inv(w) && Enabled(w, c) && ExpiresAt(w, h, e)
    ensures ExpiresAt(Step(w, c), h, e)
  {
  }

  lemma {:induction false} ExpiryStays(w: World, calls: seq<Call>, h: Hash, e: int)
    requires Inv(w) && After(w, calls).Some? && ExpiresAt(w, h, e)
    ensures ExpiresAt(After(w, calls).value, h, e)
  {
    if calls != [] {
      RunKeeps(w, calls[..|calls| - 1]);
      ExpiryStays(w, calls[..|calls| - 1], h, e);
      ExpiryStep(After(w, calls[..|calls| - 1]).value, calls[|calls| - 1], h, e);
    }
  }

  lemma IssuedExpiry(w: World, c: Call) returns (e: int)
    requires Inv(w) && Enabled(w, c) && Succeeds(w, c)
    ensures !c.DeleteAccount? && ExpiresAt(Step(w, c), Hash(c.raw), e) && e <= c.now + THIRTY_DAYS < e + 1_000_000_000
  {
    TableEffect(w, c);
    e := ToSecond(c.now + THIRTY_DAYS);
    if c.LogIn? {
      IssueRule(w.a, c.userId, c.raw, c.now, c.f);
    } else {
      var userId := w.a.tokens[Hash(c.presented)].userId;
      assert OwnersAgree(w);
      assert Placed(w, Hash(c.presented));
      IssueRule(Revoke(w.a, userId, Hash(c.presented)), userId, c.raw, c.now, c.f);
    }
  }

  /** Whatever happens in between, a token is exchanged no later than thirty days after it was issued. */
  lemma LivesThirtyDays(users: set<string>, calls: seq<Call>, issue: Call, more: seq<Call>, later: Call)
    requires After(Start(users), calls).Some?
    requires var w := After(Start(users), calls).value;
             && Enabled(w, issue) && Succeeds(w, issue) && !issue.DeleteAccount?
             && After(Step(w, issue), more).Some?
             && later.Exchange? && later.presented == issue.raw && Enabled(After(Step(w, issue), more).value, later)
             && Succeeds(After(Step(w, issue), more).value, later)
    ensures later.now <= issue.now + 2_592_000_000_000_000
  {
    RunKeeps(Start(users), calls);
    var w := After(Start(users), calls).value;
    StepKeeps(w, issue);
    var e := IssuedExpiry(w, issue);
    ExpiryStays(Step(w, issue), more, Hash(issue.raw), e);
    RunKeeps(Step(w, issue), more);
    var v := After(Step(w, issue), more).value;
    assert Hash(later.raw) !in v.a.tokens by {
      assert OwnersAgree(v);
    }
    ExchangeRule(v.a, later.presented, later.raw, later.now, later.f);
  }

  /** And a token just issued can be exchanged for nearly thirty days: at any time up to its expiry,
      if nothing fails. */
  lemma FreshTokenWorks(users: set<string>, calls: seq<Call>, issue: Call, next: Call)
    requires After(Start(users), calls).Some?
    requires var w := After(Start(users), calls).value;
             && Enabled(w, issue) && Succeeds(w, issue) && !issue.DeleteAccount? && issue.raw != ""
             && next.Exchange? && next.presented == issue.raw && Enabled(Step(w, issue), next) && NoFault(next.f)
    requires next.now <= issue.now + 2_592_000_000_000_000 - 1_000_000_000
    ensures Succeeds(Step(After(Start(users), calls).value, issue), next)
  {
    RunKeeps(Start(users), calls);
    var w := After(Start(users), calls).value;
    StepKeeps(w, issue);
    var v := Step(w, issue);
    var e := IssuedExpiry(w, issue);
    TableEffect(w, issue);
    assert Hash(next.raw) !in v.a.tokens by {
      assert OwnersAgree(v);
    }
    IssuedLive(w, issue);
    ExchangeRule(v.a, next.presented, next.raw, next.now, next.f);
  }

  lemma IssuedLive(w: World, c: Call)
    requires Inv(w) && Enabled(w, c) && Succeeds(w, c)
    ensures !c.DeleteAccount? && Live(Step(w, c), Hash(c.raw))
    ensures Step(w, c).a.tokens[Hash(c.raw)].userId in Step(w, c).a.users
  {
    TableEffect(w, c);
    if c.Exchange? {
      assert Placed(w, Hash(c.presented));
    }
  }

  // ---------------------------------------------------------------------------
  // Over runs: families and users.

  /** The logins that issued a pair. */
  function SuccessfulLogins(w: World, calls: seq<Call>): seq<string>
    requires After(w, calls).Some?
  {
    if calls == [] then []
    else
      var init, c := calls[..|calls| - 1], calls[|calls| - 1];
      SuccessfulLogins(w, init) +
      if c.LogIn? && Issue(After(w, init).value.a, c.userId, c.raw, c.now, c.f).1.Pair? then [c.userId] else []
  }

  /** There is one family for every login that issued a pair, in that order, of that user. */
  lemma {:induction false} FamiliesAreLogins(users: set<string>, calls: seq<Call>)
    requires After(Start(users), calls).Some?
    ensures var w := After(Start(users), calls).value;
            var logins := SuccessfulLogins(Start(users), calls);
            |w.families| == |logins| && forall i :: 0 <= i < |logins| ==> w.families[i].userId == logins[i]
  {
    if calls != [] {
      var init := calls[..|calls| - 1];
      FamiliesAreLogins(users, init);
      RunKeeps(Start(users), init);
    }
  }

  /** A login's token starts its family; an exchange's is the next generation of the presented one's. */
  lemma Successor(w: World, c: Call)
    requires Inv(w) && Enabled(w, c) && Succeeds(w, c)
    ensures !c.DeleteAccount? && Hash(c.raw) in Step(w, c).issued
    ensures c.LogIn? ==> Step(w, c).issued[Hash(c.raw)] == Place(|w.families|, 0)
    ensures c.Exchange? ==>
              && Hash(c.presented) in w.issued
              && var p := w.issued[Hash(c.presented)];
              Step(w, c).issued[Hash(c.raw)] == Place(p.family, p.generation + 1)
  {
    TableEffect(w, c);
    if c.Exchange? {
      assert Placed(w, Hash(c.presented));
    }
  }

  ghost predicate UsersHold(a: Tables) {
    forall h :: h in a.tokens ==> a.tokens[h].userId in a.users
  }

  lemma UsersStep(w: World, c: Call)
    requires UsersHold(w.a)
    ensures UsersHold(Step(w, c).a)
    ensures c.DeleteAccount? ==>
              && c.userId !in Step(w, c).a.users
              && forall h :: h in Step(w, c).a.tokens ==> Step(w, c).a.tokens[h].userId != c.userId
  {
  }

  /** In every run every stored token is a user's who exists; a deleted account leaves none. */
  lemma {:induction false} TokensHaveUsers(users: set<string>, calls: seq<Call>)
    requires After(Start(users), calls).Some?
    ensures var w := After(Start(users), calls).value;
            && UsersHold(w.a)
            && forall i :: 0 <= i < |calls| && calls[i].DeleteAccount? ==>
                 && calls[i].userId !in w.a.users
                 && forall h :: h in w.a.tokens ==> w.a.tokens[h].userId != calls[i].userId
  {
    if calls != [] {
      var init, c := calls[..|calls| - 1], calls[|calls| - 1];
      TokensHaveUsers(users, init);
      UsersStep(After(Start(users), init).value, c);
      NoNewUsers(After(Start(users), init).value, c);
    }
  }

  lemma NoNewUsers(w: World, c: Call)
    ensures Step(w, c).a.users <= w.a.users
  {
  }
}
