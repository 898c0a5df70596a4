/** Runs of logins, refreshes and account deletions, one call at a time, any store call failing:
    what happens to the family of tokens that each login starts. */
module TokenFamilies {
  import opened Wrappers
  import opened RefreshTokens

  datatype Call =
    | LogIn(userId: string, raw: string, now: int, f: Faults)       // credentials already checked
    | Exchange(presented: string, raw: string, now: int, f: Faults)
    | DeleteAccount(userId: string)

  /** A family is the token a login issued and all that descend from it; generations count from 0. */
  datatype Family = Family(userId: string, size: nat)
  datatype Place = Place(family: nat, generation: nat)

  /** The tables, and beside them the bookkeeping of every token ever issued. */
  datatype World = World(a: Tables, families: seq<Family>, issued: map<Hash, Place>)

  /** Raw tokens are never issued twice. */
  predicate Enabled(w: World, c: Call) { c.DeleteAccount? || Hash(c.raw) !in w.issued }

  function Result(w: World, c: Call): (Tables, Outcome) {
    match c
    case LogIn(u, raw, now, f) => Issue(w.a, u, raw, now, f)
    case Exchange(presented, raw, now, f) => Refresh(w.a, presented, raw, now, f)
    case DeleteAccount(u) => (DeleteUser(w.a, u), Unauthorized)
  }

  predicate Succeeds(w: World, c: Call) { Result(w, c).1.Pair? }

  function Step(w: World, c: Call): World {
    var (a, r) := Result(w, c);
    if !r.Pair? then w.(a := a)
    else if c.LogIn? then
      World(a, w.families + [Family(c.userId, 1)], w.issued[Hash(c.raw) := Place(|w.families|, 0)])
    else if c.Exchange? && Hash(c.presented) in w.issued && w.issued[Hash(c.presented)].family < |w.families| then
      var i := w.issued[Hash(c.presented)].family;
      var family := w.families[i];
      World(a, w.families[i := family.(size := family.size + 1)], w.issued[Hash(c.raw) := Place(i, family.size)])
    else w.(a := a)
  }

  function After(w: World, calls: seq<Call>): Option<World> {
    if calls == [] then Some(w)
    else match After(w, calls[..|calls| - 1])
      case None => None
      case Some(v) => if Enabled(v, calls[|calls| - 1]) then Some(Step(v, calls[|calls| - 1])) else None
  }

  function Start(users: set<string>): World { World(Tables(users, map[]), [], map[]) }

  // ---------------------------------------------------------------------------
  // The invariant.

  ghost predicate Placed(w: World, h: Hash) {
    h in w.issued && w.issued[h].family < |w.families| && w.issued[h].generation < w.families[w.issued[h].family].size
  }

  predicate Live(w: World, h: Hash) { h in w.a.tokens && !w.a.tokens[h].revoked }

  ghost predicate Inv(w: World) {
    AllPlaced(w) && Distinct(w) && OwnersAgree(w) && NewestOnly(w)
  }

  ghost predicate AllPlaced(w: World) { forall h :: h in w.issued ==> Placed(w, h) }

  ghost predicate Distinct(w: World) {
    forall h, k :: h in w.issued && k in w.issued && w.issued[h] == w.issued[k] ==> h == k
  }

  ghost predicate OwnersAgree(w: World) {
    forall h :: h in w.a.tokens ==>
          h in w.issued && Placed(w, h) && w.a.tokens[h].userId == w.families[w.issued[h].family].userId
  }

  /** Only the newest generation may be unrevoked. */
  ghost predicate NewestOnly(w: World) {
    forall h :: Live(w, h) ==> Placed(w, h) && w.issued[h].generation + 1 == w.families[w.issued[h].family].size
  }

  /** What a call does to the token table: a success adds its new token, an exchange kills the
      token presented, and no revoked token comes back. */
  lemma TableEffect(w: World, c: Call)
    requires forall h :: h in w.a.tokens ==> h in w.issued
    requires Enabled(w, c)
    ensures Succeeds(w, c) && c.Exchange? ==> Live(w, Hash(c.presented)) && !Live(Step(w, c), Hash(c.presented))
    ensures Succeeds(w, c) ==> !c.DeleteAccount? && Hash(c.raw) in Step(w, c).a.tokens
    ensures Succeeds(w, c) ==>
              Step(w, c).a.tokens[Hash(c.raw)].userId ==
                    if c.LogIn? then c.userId else w.a.tokens[Hash(c.presented)].userId
    ensures forall h :: h in Step(w, c).a.tokens && !(Succeeds(w, c) && h == Hash(c.raw)) ==>
              && h in w.a.tokens
              && Step(w, c).a.tokens[h].userId == w.a.tokens[h].userId
              && (w.a.tokens[h].revoked ==> Step(w, c).a.tokens[h].revoked)
  {
  }

  lemma FailureKeeps(w: World, c: Call)
    requires Inv(w) && Enabled(w, c) && !Succeeds(w, c)
    ensures Inv(Step(w, c))
  {
    TableEffect(w, c);
    var v := Step(w, c);
    assert forall h :: Live(v, h) ==> Live(w, h);
    assert forall h :: h in v.issued ==> Placed(w, h) && Placed(v, h);
  }

  /** Token tables differ by revocations and deletions, and by one new token. */
  ghost predicate Extends(a: Tables, b: Tables, issue: Hash, userId: string) {
    && (issue in b.tokens ==> b.tokens[issue].userId == userId)
    && (forall h :: h in b.tokens && h != issue ==>
          h in a.tokens && b.tokens[h].userId == a.tokens[h].userId && (a.tokens[h].revoked ==> b.tokens[h].revoked))
  }

  /** A new last token in family `i`, whose other tokens are all spent. */
  ghost predicate Issues(w: World, v: World, issue: Hash, i: nat) {
    && issue !in w.issued
    && i < |v.families| && |w.families| <= |v.families| && v.families[i].size > 0
    && (forall j :: 0 <= j < |v.families| && j != i ==> j < |w.families| && v.families[j] == w.families[j])
    && (i < |w.families| ==> v.families[i] == w.families[i].(size := w.families[i].size + 1))
    && v.issued == w.issued[issue := Place(i, v.families[i].size - 1)]
    && Extends(w.a, v.a, issue, v.families[i].userId)
    && (forall h :: h in w.issued && w.issued[h].family == i ==> !Live(v, h))
  }

  lemma IssuePlaces(w: World, v: World, issue: Hash, i: nat)
    requires Inv(w) && Issues(w, v, issue, i)
    ensures AllPlaced(v) && Distinct(v)
  {
    forall h | h in v.issued ensures Placed(v, h) {
      if h != issue {
        assert Placed(w, h);
      }
    }
    forall h, k | h in v.issued && k in v.issued && v.issued[h] == v.issued[k] ensures h == k {
      if h != issue {
        assert Placed(w, h);
      }
      if k != issue {
        assert Placed(w, k);
      }
    }
  }

  lemma OldToken(a: Tables, b: Tables, issue: Hash, userId: string, h: Hash)
    requires Extends(a, b, issue, userId) && h in b.tokens && h != issue
    ensures h in a.tokens && b.tokens[h].userId == a.tokens[h].userId && (a.tokens[h].revoked ==> b.tokens[h].revoked)
  {
  }

  lemma OldPlace(w: World, v: World, issue: Hash, i: nat, h: Hash)
    requires Issues(w, v, issue, i) && Placed(w, h) && Placed(v, h) && h != issue
    ensures v.issued[h] == w.issued[h]
    ensures v.families[v.issued[h].family].userId == w.families[w.issued[h].family].userId
    ensures v.issued[h].family != i ==> v.families[v.issued[h].family] == w.families[w.issued[h].family]
  {
  }

  lemma NewToken(w: World, v: World, issue: Hash, i: nat)
    requires Issues(w, v, issue, i)
    ensures Placed(v, issue) && v.issued[issue].generation + 1 == v.families[v.issued[issue].family].size
    ensures issue in v.a.tokens ==> v.a.tokens[issue].userId == v.families[v.issued[issue].family].userId
  {
    assert v.issued[issue] == Place(i, v.families[i].size - 1);
    assert Extends(w.a, v.a, issue, v.families[i].userId);
  }

  lemma OwnerStays(w: World, v: World, issue: Hash, i: nat, h: Hash)
    requires OwnersAgree(w) && Issues(w, v, issue, i) && AllPlaced(v) && h in v.a.tokens && h != issue
    ensures h in v.issued && Placed(v, h) && v.a.tokens[h].userId == v.families[v.issued[h].family].userId
  {
    OldToken(w.a, v.a, issue, v.families[i].userId, h);
    assert h in w.a.tokens && Placed(w, h);
    assert h in v.issued && Placed(v, h);
    OldPlace(w, v, issue, i, h);
  }

  lemma NewestStays(w: World, v: World, issue: Hash, i: nat, h: Hash)
    requires NewestOnly(w) && Issues(w, v, issue, i) && AllPlaced(v) && Live(v, h) && Live(w, h) && h != issue
    ensures Placed(v, h) && v.issued[h].generation + 1 == v.families[v.issued[h].family].size
  {
    assert Placed(w, h);
    assert h in v.issued && Placed(v, h);
    OldPlace(w, v, issue, i, h);
    assert v.issued[h].family != i;
  }

  lemma IssueTokens(w: World, v: World, issue: Hash, i: nat)
    requires Inv(w) && Issues(w, v, issue, i) && AllPlaced(v)
    ensures OwnersAgree(v) && NewestOnly(v)
  {
    forall h | h in v.a.tokens
      ensures h in v.issued && Placed(v, h) && v.a.tokens[h].userId == v.families[v.issued[h].family].userId
    {
      if h != issue {
        OwnerStays(w, v, issue, i, h);
      } else {
        NewToken(w, v, issue, i);
      }
    }
    forall h | Live(v, h) ensures Placed(v, h) && v.issued[h].generation + 1 == v.families[v.issued[h].family].size {
      if h != issue {
        OldToken(w.a, v.a, issue, v.families[i].userId, h);
        NewestStays(w, v, issue, i, h);
      } else {
        NewToken(w, v, issue, i);
      }
    }
  }

  lemma IssueKeeps(w: World, v: World, issue: Hash, i: nat)
    requires Inv(w) && Issues(w, v, issue, i)
    ensures Inv(v)
  {
    IssuePlaces(w, v, issue, i);
    IssueTokens(w, v, issue, i);
  }

  lemma LogInKeeps(w: World, c: Call)
    requires Inv(w) && Enabled(w, c) && Succeeds(w, c) && c.LogIn?
    ensures Inv(Step(w, c))
  {
    TableEffect(w, c);
    assert forall h :: h in w.issued ==> Placed(w, h);
    IssueKeeps(w, Step(w, c), Hash(c.raw), |w.families|);
  }

  lemma SpentFamily(w: World, v: World, h: Hash, spent: Hash)
    requires Inv(w) && Live(w, spent) && !Live(v, spent) && h in w.issued && (Live(v, h) ==> Live(w, h))
    requires w.issued[h].family == w.issued[spent].family
    ensures !Live(v, h)
  {
    assert Live(w, h) ==> w.issued[h] == w.issued[spent];
  }

  /** Only the family's newest token can be presented with success, so its successor is the
      family's only unrevoked token. */
  lemma ExchangeKeeps(w: World, c: Call)
    requires Inv(w) && Enabled(w, c) && Succeeds(w, c) && c.Exchange?
    ensures Inv(Step(w, c))
  {
    TableEffect(w, c);
    var v, spent := Step(w, c), Hash(c.presented);
    assert Placed(w, spent);
    var i := w.issued[spent].family;
    forall h | h in w.issued && w.issued[h].family == i ensures !Live(v, h) {
      SpentFamily(w, v, h, spent);
    }
    IssueKeeps(w, v, Hash(c.raw), i);
  }

  lemma StepKeeps(w: World, c: Call)
    requires Inv(w) && Enabled(w, c)
    ensures Inv(Step(w, c))
  {
    TableEffect(w, c);
    if !Succeeds(w, c) {
      FailureKeeps(w, c);
    } else if c.LogIn? {
      LogInKeeps(w, c);
    } else {
      ExchangeKeeps(w, c);
    }
  }

  lemma {:induction false} RunKeeps(w: World, calls: seq<Call>)
    requires Inv(w) && After(w, calls).Some?
    ensures Inv(After(w, calls).value)
  {
    if calls != [] {
      RunKeeps(w, calls[..|calls| - 1]);
      StepKeeps(After(w, calls[..|calls| - 1]).value, calls[|calls| - 1]);
    }
  }

  // ---------------------------------------------------------------------------
  // One live token to a family.

  /** In every run each family has at most one unrevoked token, and it is its newest. */
  lemma OneLivePerFamily(users: set<string>, calls: seq<Call>, h: Hash, k: Hash)
    requires After(Start(users), calls).Some?
    requires var w := After(Start(users), calls).value;
             Live(w, h) && Live(w, k) && h in w.issued && k in w.issued && w.issued[h].family == w.issued[k].family
    ensures h == k
    ensures var w := After(Start(users), calls).value;
            forall j :: j in w.issued && w.issued[j].family == w.issued[h].family ==>
              w.issued[j].generation <= w.issued[h].generation
  {
    RunKeeps(Start(users), calls);
    var w := After(Start(users), calls).value;
    assert w.issued[h] == w.issued[k];
    assert forall j :: j in w.issued ==> Placed(w, j);
  }

  ghost function LiveTokens(w: World, userId: string): set<Hash> {
    set h | h in w.a.tokens && Live(w, h) && w.a.tokens[h].userId == userId
  }

  ghost function Logins(w: World, userId: string): set<nat> {
    set i: nat | i < |w.families| && w.families[i].userId == userId
  }

  lemma {:induction false} Injection(hs: set<Hash>, place: map<Hash, Place>, families: set<nat>)
    requires forall h :: h in hs ==> h in place && place[h].family in families
    requires forall h, k :: h in hs && k in hs && place[h].family == place[k].family ==> h == k
    ensures |hs| <= |families|
    decreases hs
  {
    if hs != {} {
      var h :| h in hs;
      Injection(hs - {h}, place, families - {place[h].family});
    }
  }

  /** A user never has more unrevoked tokens than logins. */
  lemma LiveTokensBounded(users: set<string>, calls: seq<Call>, userId: string)
    requires After(Start(users), calls).Some?
    ensures var w := After(Start(users), calls).value; |LiveTokens(w, userId)| <= |Logins(w, userId)|
  {
    RunKeeps(Start(users), calls);
    var w := After(Start(users), calls).value;
    forall h | h in LiveTokens(w, userId) ensures h in w.issued && w.issued[h].family in Logins(w, userId) {
      assert Placed(w, h);
    }
    forall h, k | h in LiveTokens(w, userId) && k in LiveTokens(w, userId) && w.issued[h].family == w.issued[k].family
      ensures h == k
    {
      assert w.issued[h] == w.issued[k];
    }
    Injection(LiveTokens(w, userId), w.issued, Logins(w, userId));
  }

  // ---------------------------------------------------------------------------
  // A token is exchanged once.

  /** Issued, and revoked or deleted since. */
  ghost predicate Spent(w: World, h: Hash) { h in w.issued && !Live(w, h) }

  lemma SpentStays(w: World, c: Call, h: Hash)
    requires Inv(w) && Enabled(w, c) && Spent(w, h)
    ensures Spent(Step(w, c), h)
    ensures Succeeds(w, c) && c.Exchange? ==> Hash(c.presented) != h
  {
    TableEffect(w, c);
  }

  lemma {:induction false} SpentForever(w: World, calls: seq<Call>, h: Hash)
    requires Inv(w) && After(w, calls).Some? && Spent(w, h)
    ensures Inv(After(w, calls).value) && Spent(After(w, calls).value, h)
  {
    RunKeeps(w, calls);
    if calls != [] {
      SpentForever(w, calls[..|calls| - 1], h);
      SpentStays(After(w, calls[..|calls| - 1]).value, calls[|calls| - 1], h);
    }
  }

  /** Once a token has been exchanged, no call of any continuation exchanges it again. */
  lemma ExchangedOnce(users: set<string>, calls: seq<Call>, first: Call, more: seq<Call>, second: Call)
    requires After(Start(users), calls).Some?
    requires var w := After(Start(users), calls).value;
             && first.Exchange? && Enabled(w, first) && Succeeds(w, first)
             && After(Step(w, first), more).Some?
             && second.Exchange? && second.presented == first.presented
             && Enabled(After(Step(w, first), more).value, second)
    ensures var w := After(Start(users), calls).value; !Succeeds(After(Step(w, first), more).value, second)
  {
    RunKeeps(Start(users), calls);
    var w := After(Start(users), calls).value;
    StepKeeps(w, first);
    TableEffect(w, first);
    SpentForever(Step(w, first), more, Hash(first.presented));
    SpentStays(After(Step(w, first), more).value, second, Hash(first.presented));
  }

  // ---------------------------------------------------------------------------
  // Reuse shuts a user's families down.

  ghost predicate OwnedBy(w: World, h: Hash, userId: string)
    requires Placed(w, h)
  {
    w.families[w.issued[h].family].userId == userId
  }

  /** Every token the user holds from the first `n` logins is spent. */
  ghost predicate ShutDown(w: World, userId: string, n: nat) {
    n <= |w.families| &&
    forall h :: h in w.issued && w.issued[h].family < n && Placed(w, h) && OwnedBy(w, h, userId) ==> !Live(w, h)
  }

  lemma LaterFamily(w: World, c: Call, userId: string, n: nat)
    requires Inv(w) && Enabled(w, c) && ShutDown(w, userId, n) && Succeeds(w, c) && c.Exchange?
    ensures var h := Hash(c.presented);
            h in w.a.tokens && h in w.issued && (w.a.tokens[h].userId == userId ==> w.issued[h].family >= n)
  {
    TableEffect(w, c);
    assert Placed(w, Hash(c.presented));
  }

  lemma ShutDownStays(w: World, c: Call, userId: string, n: nat)
    requires Inv(w) && Enabled(w, c) && ShutDown(w, userId, n)
    ensures ShutDown(Step(w, c), userId, n)
  {
    TableEffect(w, c);
    if Succeeds(w, c) && c.Exchange? {
      LaterFamily(w, c, userId, n);
    }
    var v := Step(w, c);
    forall h | h in v.issued && v.issued[h].family < n && Placed(v, h) && OwnedBy(v, h, userId)
      ensures !Live(v, h)
    {
      if h in w.issued {
        assert Placed(w, h) && v.issued[h] == w.issued[h];
      }
    }
  }

  lemma {:induction false} ShutDownForever(w: World, calls: seq<Call>, userId: string, n: nat)
    requires Inv(w) && After(w, calls).Some? && ShutDown(w, userId, n)
    ensures Inv(After(w, calls).value) && ShutDown(After(w, calls).value, userId, n)
  {
    RunKeeps(w, calls);
    if calls != [] {
      ShutDownForever(w, calls[..|calls| - 1], userId, n);
      ShutDownStays(After(w, calls[..|calls| - 1]).value, calls[|calls| - 1], userId, n);
    }
  }

  /** A revoked token is presented and revoking the rest succeeds: in every continuation, any token
      of that user that is exchanged belongs to a login made after that moment. */
  lemma ReuseShutsDown(users: set<string>, calls: seq<Call>, reuse: Call, more: seq<Call>, later: Call)
    requires After(Start(users), calls).Some?
    requires var w := After(Start(users), calls).value;
             && reuse.Exchange? && reuse.presented != "" && Enabled(w, reuse)
             && !reuse.f.lookup && !reuse.f.revokeAll
             && Hash(reuse.presented) in w.a.tokens && w.a.tokens[Hash(reuse.presented)].revoked
             && After(Step(w, reuse), more).Some?
             && later.Exchange? && Enabled(After(Step(w, reuse), more).value, later)
             && Succeeds(After(Step(w, reuse), more).value, later)
    ensures var w := After(Start(users), calls).value;
            var v := After(Step(w, reuse), more).value;
            && Hash(later.presented) in v.a.tokens && Hash(later.presented) in v.issued
            && (v.a.tokens[Hash(later.presented)].userId == w.a.tokens[Hash(reuse.presented)].userId ==>
                  v.issued[Hash(later.presented)].family >= |w.families|)
  {
    RunKeeps(Start(users), calls);
    var w := After(Start(users), calls).value;
    var userId := w.a.tokens[Hash(reuse.presented)].userId;
    StepKeeps(w, reuse);
    assert ShutDown(Step(w, reuse), userId, |w.families|);
    ShutDownForever(Step(w, reuse), more, userId, |w.families|);
    var v := After(Step(w, reuse), more).value;
    TableEffect(v, later);
    LaterFamily(v, later, userId, |w.families|);
  }
}
