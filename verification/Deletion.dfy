/** Deletion requests: asking for a beer to be removed, and an administrator's decision. */
module Deletion {
  import opened Wrappers

  datatype Status = Pending | Approved | Rejected

  datatype Request = Request(
    id: string, beerId: string, userId: string, reason: string, details: string, status: Status,
    createdAt: int, reviewedBy: Option<string>, reviewedAt: Option<int>)

  datatype Report = Report(id: string, beerId: string, userId: string, open: bool)

  /** Requests and reports refer to beers and go when their beer goes. */
  datatype Tables = Tables(beers: set<string>, requests: map<string, Request>, reports: map<string, Report>)

  /** The two decisions the endpoint accepts. */
  datatype Decision = Approve | Reject

  datatype Error = AdminOnly | RequestNotFound | BeerNotDeleted | ConstraintViolation

  // ---------------------------------------------------------------------------
  // The statements.

  function Reviewed(r: Request, d: Decision, admin: string, now: int): Request {
    r.(status := if d == Approve then Approved else Rejected, reviewedBy := Some(admin), reviewedAt := Some(now))
  }

  /** INSERT: the beer must exist and the user must have no other pending request for it. */
  function Insert(t: Tables, r: Request): Result<Tables, Error> {
    if r.beerId !in t.beers || r.id in t.requests ||
       (r.status.Pending? && exists k :: k in t.requests && SamePending(t.requests[k], r))
    then Err(ConstraintViolation)
    else Ok(t.(requests := t.requests[r.id := r]))
  }

  predicate SamePending(r: Request, s: Request) {
    r.status.Pending? && s.status.Pending? && r.beerId == s.beerId && r.userId == s.userId
  }

  predicate PendingFor(r: Request, beerId: string, userId: string) {
    r.status.Pending? && r.beerId == beerId && r.userId == userId
  }

  predicate SameOpen(r: Report, s: Report) {
    r.open && s.open && r.beerId == s.beerId && r.userId == s.userId
  }

  function InsertReport(t: Tables, r: Report): Result<Tables, Error> {
    if r.beerId !in t.beers || r.id in t.reports || exists k :: k in t.reports && SameOpen(t.reports[k], r)
    then Err(ConstraintViolation)
    else Ok(t.(reports := t.reports[r.id := r]))
  }

  /** DELETE of a beer with everything that refers to it. */
  function DeleteBeer(t: Tables, beerId: string): Tables {
    Tables(t.beers - {beerId},
           map k | k in t.requests && t.requests[k].beerId != beerId :: t.requests[k],
           map k | k in t.reports && t.reports[k].beerId != beerId :: t.reports[k])
  }

  /** The first row of the requests, newest first. Between rows of one instant the database
      is free to choose. */
  predicate IsNewest(requests: map<string, Request>, id: string) {
    id in requests && forall k :: k in requests ==> requests[k].createdAt <= requests[id].createdAt
  }

  // ---------------------------------------------------------------------------
  // The decision, on values. `top` is the row the database returns first.

  function Resolve(t: Tables, id: string, d: Decision, admin: string, isAdmin: bool, now: int,
                   top: string): Result<Tables, Error>
  {
    if !isAdmin then Err(AdminOnly)
    else if id !in t.requests then Err(RequestNotFound)
    else
      var updated := t.(requests := t.requests[id := Reviewed(t.requests[id], d, admin, now)]);
      if d == Reject then Ok(updated)
      else if top != id then Err(RequestNotFound)
      else if updated.requests[id].beerId !in t.beers then Err(BeerNotDeleted)
      else Ok(DeleteBeer(updated, updated.requests[id].beerId))
  }

  /** The database's answer to a query for requests ordered newest first, limited to one row. */
  method NewestFirstLimitOne(requests: map<string, Request>) returns (rows: seq<Request>)
    requires forall k :: k in requests ==> requests[k].id == k
    ensures requests == map[] ==> rows == []
    ensures requests != map[] ==> |rows| == 1 && IsNewest(requests, rows[0].id) && requests[rows[0].id] == rows[0]
  {
    rows := [];
    if requests != map[] {
      NewestExists(requests);
      var top :| top in requests && IsNewest(requests, top);
      rows := [requests[top]];
    }
  }

  /** The request, and it alone, is now rejected by this administrator at this time. */
  predicate Rejects(t: Tables, after: Tables, id: string, admin: string, now: int)
    requires id in t.requests
  {
    && after.beers == t.beers && after.reports == t.reports && after.requests.Keys == t.requests.Keys
    && (forall k :: k in t.requests && k != id ==> after.requests[k] == t.requests[k])
    && var was, done := t.requests[id], after.requests[id];
    && done.status == Rejected && done.reviewedBy == Some(admin) && done.reviewedAt == Some(now)
    && done.id == was.id && done.beerId == was.beerId && done.userId == was.userId
    && done.reason == was.reason && done.details == was.details && done.createdAt == was.createdAt
  }

  /** The request's beer is gone with all its requests and all its reports, and nothing else is. */
  ghost predicate Removes(t: Tables, after: Tables, id: string)
    requires id in t.requests
  {
    var beer := t.requests[id].beerId;
    && beer in t.beers && after.beers == t.beers - {beer}
    && (forall k :: k in after.requests <==> k in t.requests && t.requests[k].beerId != beer)
    && (forall k :: k in after.requests ==> after.requests[k] == t.requests[k])
    && (forall k :: k in after.reports <==> k in t.reports && t.reports[k].beerId != beer)
    && (forall k :: k in after.reports ==> after.reports[k] == t.reports[k])
  }

  /** Every answer to a decision and what it leaves behind. */
  lemma DecisionRule(t: Tables, id: string, d: Decision, admin: string, isAdmin: bool, now: int, top: string)
    ensures var r := Resolve(t, id, d, admin, isAdmin, now, top);
            && (!isAdmin <==> r == Err(AdminOnly))
            && (isAdmin && d == Reject ==> (r.Ok? <==> id in t.requests))
            && (isAdmin && d == Approve ==>
                  (r.Ok? <==> id in t.requests && top == id && t.requests[id].beerId in t.beers))
            && (r == Err(RequestNotFound) <==> isAdmin && (id !in t.requests || (d == Approve && top != id)))
            && (r.Ok? && d == Reject ==> id in t.requests && Rejects(t, r.value, id, admin, now))
            && (r.Ok? && d == Approve ==> id in t.requests && Removes(t, r.value, id))
  {
  }

  // ---------------------------------------------------------------------------
  // The usecase as it runs.

  class ModerationUsecase {
    var tables: Tables

    constructor (beers: set<string>)
      ensures tables == Tables(beers, map[], map[])
    {
      tables := Tables(beers, map[], map[]);
    }

    /** The insert is refused by the foreign key, the primary key or the index of pending requests. */
    method RequestDeletion(id: string, beerId: string, userId: string, reason: string, details: string, now: int)
      returns (err: Option<Error>)
      modifies this
      ensures err.None? <==>
                && beerId in old(tables).beers && id !in old(tables).requests
                && !exists k :: k in old(tables).requests && PendingFor(old(tables).requests[k], beerId, userId)
      ensures err.Some? ==> err == Some(ConstraintViolation) && tables == old(tables)
      ensures err.None? ==>
                tables == old(tables).(requests := old(tables).requests[
                  id := Request(id, beerId, userId, reason, details, Pending, now, None, None)])
      ensures var r := Request(id, beerId, userId, reason, details, Pending, now, None, None);
              Insert(old(tables), r) == if err.Some? then Err(err.value) else Ok(tables)
    {
      var r := Request(id, beerId, userId, reason, details, Pending, now, None, None);
      assert forall k :: k in tables.requests ==>
            SamePending(tables.requests[k], r) == PendingFor(tables.requests[k], beerId, userId);
      if beerId !in tables.beers || id in tables.requests {
        return Some(ConstraintViolation);
      }
      if exists k :: k in tables.requests && PendingFor(tables.requests[k], beerId, userId) {
        return Some(ConstraintViolation);
      }
      tables := tables.(requests := tables.requests[id := r]);
      return None;
    }

    /** The whole decision in one transaction: the tables change only when it commits. */
    method ResolveDeletionRequest(id: string, d: Decision, admin: string, isAdmin: bool, now: int)
      returns (err: Option<Error>, ghost top: string)
      requires forall k :: k in tables.requests ==> tables.requests[k].id == k
      modifies this
      ensures isAdmin && d == Approve && id in old(tables).requests ==> IsNewest(old(tables).requests, top)
      ensures Resolve(old(tables), id, d, admin, isAdmin, now, top) == if err.Some? then Err(err.value) else Ok(tables)
      ensures err.Some? ==> tables == old(tables)
      ensures !isAdmin <==> err == Some(AdminOnly)
      ensures isAdmin && d == Reject ==> (err.None? <==> id in old(tables).requests)
      ensures isAdmin && d == Approve ==>
                (err.None? <==>
                   id in old(tables).requests && top == id && old(tables).requests[id].beerId in old(tables).beers)
      ensures err.None? && d == Reject ==> id in old(tables).requests && Rejects(old(tables), tables, id, admin, now)
      ensures err.None? && d == Approve ==> id in old(tables).requests && Removes(old(tables), tables, id)
    {
      forall x: string {
        DecisionRule(tables, id, d, admin, isAdmin, now, x);
      }
      top := "";
      if !isAdmin {
        return Some(AdminOnly), top;
      }
      var tx := tables;
      if id !in tx.requests {
        return Some(RequestNotFound), top;
      }
      tx := tx.(requests := tx.requests[id := Reviewed(tx.requests[id], d, admin, now)]);
      if d == Approve {
        assert id in tx.requests;
        var rows := NewestFirstLimitOne(tx.requests);
        top := rows[0].id;
        SameNewest(tables.requests, tx.requests, id, top);
        var target: Option<Request> := None;
        var i := 0;
        while i < |rows| && target.None?
          invariant i <= |rows|
          invariant target.None? ==> forall j :: 0 <= j < i ==> rows[j].id != id
          invariant target.Some? ==> target.value in rows && target.value.id == id
          decreases target.None?, |rows| - i
        {
          if rows[i].id == id {
            target := Some(rows[i]);
          } else {
            i := i + 1;
          }
        }
        if target.None? {
          return Some(RequestNotFound), top;
        }
        if target.value.beerId !in tx.beers {
          return Some(BeerNotDeleted), top;
        }
        tx := DeleteBeer(tx, target.value.beerId);
      }
      tables := tx;
      return None, top;
    }
  }

  lemma {:induction false} NewestExists(requests: map<string, Request>)
    requires requests != map[]
    ensures exists id :: id in requests && IsNewest(requests, id)
    decreases |requests|
  {
    var id :| id in requests;
    var rest := requests - {id};
    if rest == map[] {
      assert requests.Keys == {id} + rest.Keys;
      assert IsNewest(requests, id);
    } else {
      assert rest.Keys == requests.Keys - {id} && |rest.Keys| == |requests.Keys| - 1;
      NewestExists(rest);
      var n :| n in rest && IsNewest(rest, n);
      assert forall k :: k in requests ==> k == id || k in rest;
      if requests[n].createdAt <= requests[id].createdAt {
        assert IsNewest(requests, id);
      } else {
        assert IsNewest(requests, n);
      }
    }
  }

  lemma SameNewest(requests: map<string, Request>, reviewed: map<string, Request>, id: string, top: string)
    requires id in requests && reviewed.Keys == requests.Keys
    requires forall k :: k in requests ==> reviewed[k].createdAt == requests[k].createdAt
    ensures IsNewest(reviewed, top) <==> IsNewest(requests, top)
  {
  }

  // ---------------------------------------------------------------------------
  // When an approval succeeds.

  ghost predicate Integrity(t: Tables) {
    && (forall k :: k in t.requests ==> t.requests[k].id == k && t.requests[k].beerId in t.beers)
    && (forall k :: k in t.reports ==> t.reports[k].beerId in t.beers)
    && (forall k :: k in t.requests ==> !t.requests[k].status.Approved?)
    && (forall j, k :: j in t.requests && k in t.requests && j != k ==> !SamePending(t.requests[j], t.requests[k]))
    && (forall j, k :: j in t.reports && k in t.reports && j != k ==> !SameOpen(t.reports[j], t.reports[k]))
  }

  predicate Approves(t: Tables, id: string, admin: string, now: int, top: string) {
    Resolve(t, id, Approve, admin, true, now, top).Ok?
  }

  /** The approval looks its request up as the newest of all requests. So it can succeed exactly
      when no request is newer, and is sure to succeed exactly when every other one is older. */
  lemma ApprovalNeedsNewest(t: Tables, id: string, admin: string, now: int)
    requires Integrity(t) && id in t.requests
    ensures (exists top :: IsNewest(t.requests, top) && Approves(t, id, admin, now, top)) <==> IsNewest(t.requests, id)
    ensures (forall top :: IsNewest(t.requests, top) ==> Approves(t, id, admin, now, top)) <==>
            forall k :: k in t.requests && k != id ==> t.requests[k].createdAt < t.requests[id].createdAt
  {
    NewestExists(t.requests);
    forall top ensures Approves(t, id, admin, now, top) <==> top == id {
    }
    if forall top :: IsNewest(t.requests, top) ==> Approves(t, id, admin, now, top) {
      assert IsNewest(t.requests, id);
      forall k | k in t.requests && k != id ensures t.requests[k].createdAt < t.requests[id].createdAt {
        assert !Approves(t, id, admin, now, k);
        assert !IsNewest(t.requests, k);
      }
    }
  }

  /** Two pending requests: approving the older one answers "not found" and changes nothing. */
  lemma OlderRequestCannotBeApproved()
    ensures exists t, id :: Integrity(t) && id in t.requests && t.requests[id].status.Pending? &&
              forall admin, now, top :: IsNewest(t.requests, top) ==>
                Resolve(t, id, Approve, admin, true, now, top) == Err(RequestNotFound)
  {
    var older := Request("r1", "b1", "u1", "OTHER", "", Pending, 1, None, None);
    var newer := Request("r2", "b2", "u1", "OTHER", "", Pending, 2, None, None);
    var t := Tables({"b1", "b2"}, map["r1" := older, "r2" := newer], map[]);
    assert t.requests["r1"] == older && t.requests["r2"] == newer;
    assert !IsNewest(t.requests, "r1");
    assert Integrity(t) && "r1" in t.requests;
  }

  // ---------------------------------------------------------------------------
  // Runs.

  datatype Action =
    | Ask(request: Request)
    | Complain(report: Report)
    | Decide(id: string, decision: Decision, admin: string, isAdmin: bool, now: int, top: string)
    | AddBeer(beerId: string)
    | RemoveBeer(beerId: string)

  predicate Enabled(t: Tables, a: Action) {
    match a
    case Ask(r) => r.status.Pending?
    case Decide(_, _, _, _, _, top) => t.requests != map[] ==> IsNewest(t.requests, top)
    case Complain(r) => r.open
    case AddBeer(_) => true
    case RemoveBeer(_) => true
  }

  function Outcome(t: Tables, a: Action): Result<Tables, Error> {
    match a
    case Ask(r) => Insert(t, r)
    case Complain(r) => InsertReport(t, r)
    case Decide(id, d, admin, isAdmin, now, top) => Resolve(t, id, d, admin, isAdmin, now, top)
    case AddBeer(b) => Ok(t.(beers := t.beers + {b}))
    case RemoveBeer(b) => Ok(DeleteBeer(t, b))
  }

  function Committed(t: Tables, a: Action): Tables {
    var r := Outcome(t, a);
    if r.Ok? then r.value else t
  }

  function After(beers: set<string>, run: seq<Action>): Option<Tables> {
    if run == [] then Some(Tables(beers, map[], map[]))
    else match After(beers, run[..|run| - 1])
      case None => None
      case Some(t) => if Enabled(t, run[|run| - 1]) then Some(Committed(t, run[|run| - 1])) else None
  }

  lemma ResolveKeeps(t: Tables, id: string, d: Decision, admin: string, isAdmin: bool, now: int, top: string)
    requires Integrity(t) && Resolve(t, id, d, admin, isAdmin, now, top).Ok?
    ensures Integrity(Resolve(t, id, d, admin, isAdmin, now, top).value)
  {
  }

  lemma StepKeeps(t: Tables, a: Action)
    requires Integrity(t) && Enabled(t, a)
    ensures Integrity(Committed(t, a))
  {
    if a.Decide? && Outcome(t, a).Ok? {
      ResolveKeeps(t, a.id, a.decision, a.admin, a.isAdmin, a.now, a.top);
    }
  }

  /** In every run, every committed request is pending or rejected, its beer exists, and no user has
      two pending requests or two open reports for one beer. */
  lemma {:induction false} NothingHalfDone(beers: set<string>, run: seq<Action>)
    requires After(beers, run).Some?
    ensures Integrity(After(beers, run).value)
  {
    if run != [] {
      NothingHalfDone(beers, run[..|run| - 1]);
      StepKeeps(After(beers, run[..|run| - 1]).value, run[|run| - 1]);
    }
  }

  /** In every run: only an administrator decides; a rejection succeeds exactly for a request that is
      there and marks it and nothing else; a successful approval removes the beer, all its requests
      and all its reports, and nothing else; a failed decision changes nothing. */
  lemma ApprovalIsWhole(beers: set<string>, run: seq<Action>, a: Action)
    requires After(beers, run).Some? && a.Decide? && Enabled(After(beers, run).value, a)
    ensures var t := After(beers, run).value;
            var t' := Committed(t, a);
            && (Outcome(t, a).Err? ==> t' == t)
            && (!a.isAdmin ==> Outcome(t, a) == Err(AdminOnly))
            && (a.isAdmin && a.decision == Reject ==> (Outcome(t, a).Ok? <==> a.id in t.requests))
            && (a.isAdmin && a.decision == Approve ==> (Outcome(t, a).Ok? <==> a.id in t.requests && a.top == a.id))
            && (Outcome(t, a).Ok? && a.decision == Reject ==>
                  a.id in t.requests && Rejects(t, t', a.id, a.admin, a.now))
            && (Outcome(t, a).Ok? && a.decision == Approve ==> a.id in t.requests && Removes(t, t', a.id))
  {
    NothingHalfDone(beers, run);
    DecisionRule(After(beers, run).value, a.id, a.decision, a.admin, a.isAdmin, a.now, a.top);
  }

  /** What reporting a beer, asking for its deletion and removing it answer and leave behind. */
  lemma OtherRules(t: Tables, a: Action)
    requires Enabled(t, a) && !a.Decide?
    ensures a.Ask? ==>
              && (Outcome(t, a).Ok? <==>
                    a.request.beerId in t.beers && a.request.id !in t.requests &&
                    !exists k :: k in t.requests && PendingFor(t.requests[k], a.request.beerId, a.request.userId))
              && (Outcome(t, a).Ok? ==> Committed(t, a) == t.(requests := t.requests[a.request.id := a.request]))
    ensures a.Complain? ==>
              && (Outcome(t, a).Ok? <==>
                    a.report.beerId in t.beers && a.report.id !in t.reports &&
                    !exists k :: k in t.reports && t.reports[k].open && t.reports[k].beerId == a.report.beerId &&
                                 t.reports[k].userId == a.report.userId)
              && (Outcome(t, a).Ok? ==> Committed(t, a) == t.(reports := t.reports[a.report.id := a.report]))
    ensures a.RemoveBeer? ==>
              && Committed(t, a).beers == t.beers - {a.beerId}
              && (forall k :: k in Committed(t, a).requests <==> k in t.requests && t.requests[k].beerId != a.beerId)
              && (forall k :: k in Committed(t, a).reports <==> k in t.reports && t.reports[k].beerId != a.beerId)
              && (forall k :: k in Committed(t, a).requests ==> Committed(t, a).requests[k] == t.requests[k])
              && (forall k :: k in Committed(t, a).reports ==> Committed(t, a).reports[k] == t.reports[k])
    ensures a.AddBeer? ==> Committed(t, a) == t.(beers := t.beers + {a.beerId})
  {
    if a.Ask? {
      assert forall k :: k in t.requests ==>
            SamePending(t.requests[k], a.request) == PendingFor(t.requests[k], a.request.beerId, a.request.userId);
    } else if a.Complain? {
      assert forall k :: k in t.reports ==>
            SameOpen(t.reports[k], a.report) == (t.reports[k].open && t.reports[k].beerId == a.report.beerId &&
                                                 t.reports[k].userId == a.report.userId);
    }
  }
}
