/**
 Creation, replacement, comment, media and delete transactions running side by side against the beers table
 and its durable event table. Every step of the state machine is one statement of one
 transaction; the database contributes row locks, commit, rollback, the foreign key of
 the event table and its cascading delete.
 */
module Outbox {
  import opened Wrappers
  import opened Beers

  datatype Kind = BeerCreated | BeerDeleted | MediaAdded | BeerUpdated | CommentAdded | CommentDeleted | CommentLiked

  datatype Event = Event(id: string, beerId: string, kind: Kind, subject: string, timestamp: int)

  /** One call of the usecase; the event and its timestamp are made before the transaction. */
  datatype Request = Request(op: Op, eventId: string, timestamp: int, at: string)

  datatype Db = Db(beers: map<string, Beer>, log: seq<Event>)

  function EventOf(req: Request): Event
    requires !req.op.ApprovedDelete?
  {
    match req.op
    case AddComment(b, c) => Event(req.eventId, b, CommentAdded, c.id, req.timestamp)
    case DeleteComment(b, id, _) => Event(req.eventId, b, CommentDeleted, id, req.timestamp)
    case LikeComment(b, id, _, _) => Event(req.eventId, b, CommentLiked, id, req.timestamp)
    case AddMedia(b, item, _) => Event(req.eventId, b, MediaAdded, item.url, req.timestamp)
    case CreateBeer(b, beer) => Event(req.eventId, b, BeerCreated, beer.name, req.timestamp)
    case ReplaceBeer(b, beer, _) => Event(req.eventId, b, BeerUpdated, beer.name, req.timestamp)
    case CatalogDelete(b, _) => Event(req.eventId, b, BeerDeleted, "", req.timestamp)
  }

  /** The events of beers that still exist. */
  function Surviving(log: seq<Event>, beers: set<string>): seq<Event> {
    if log == [] then []
    else Surviving(log[..|log| - 1], beers) +
         (if log[|log| - 1].beerId in beers then [log[|log| - 1]] else [])
  }

  lemma {:induction false} SurvivingMembers(log: seq<Event>, beers: set<string>)
    ensures forall e :: e in Surviving(log, beers) <==> e in log && e.beerId in beers
  {
    if log != [] {
      var init, last := log[..|log| - 1], log[|log| - 1];
      SurvivingMembers(init, beers);
      assert forall e :: e in log <==> e in init || e == last;
    }
  }

  /** DELETE of a beer row: its events go with it. */
  function Cascade(db: Db, id: string): Db {
    Db(db.beers - {id}, Surviving(db.log, db.beers.Keys - {id}))
  }

  /** INSERT into the event table, whose beer must exist. */
  function InsertEvent(db: Db, e: Event): Result<Db, Error> {
    if e.beerId in db.beers then Ok(db.(log := db.log + [e])) else Err(ForeignKeyViolation)
  }

  function Refusal(op: Op, row: Beer): Option<Error> {
    match op
    case AddMedia(_, _, caller) => if CanModify(caller, row.createdBy) then None else Some(NotOwner)
    case ReplaceBeer(_, _, caller) => if CanModify(caller, row.createdBy) then None else Some(NotOwner)
    case CatalogDelete(_, caller) => if caller.isAdmin then None else Some(AdminOnly)
    case _ => None
  }

  // ---------------------------------------------------------------------------
  // The reference: one request running on its own, and requests one after another.

  function RunAlone(db: Db, req: Request): Result<Db, Error> {
    var op, id := req.op, req.op.beerId;
    if op.CreateBeer? then
      if id in db.beers then Err(BeerExists)
      else InsertEvent(db.(beers := db.beers[id := Inserted(op.beer, req.at)]), EventOf(req))
    else if id !in db.beers then Err(BeerNotFound)
    else if Refusal(op, db.beers[id]).Some? then Err(Refusal(op, db.beers[id]).value)
    else if op.ApprovedDelete? then Ok(Cascade(db, id))
    else if op.CatalogDelete? then InsertEvent(Cascade(db, id), EventOf(req))
    else
      match Edit(op, db.beers[id])
      case Err(e) => Err(e)
      case Ok(draft) =>
        InsertEvent(db.(beers := db.beers[id := Stored(db.beers[id], draft, req.at)]), EventOf(req))
  }

  datatype Commit = Commit(tid: nat, req: Request)

  function Replay(db: Db, history: seq<Commit>): Result<Db, Error> {
    if history == [] then Ok(db)
    else match Replay(db, history[..|history| - 1])
      case Err(e) => Err(e)
      case Ok(d) => RunAlone(d, history[|history| - 1].req)
  }

  // ---------------------------------------------------------------------------
  // The interleaved machine.

  datatype Phase =
    | Checking                        // authorisation read still to be done
    | Begun                           // transaction open, nothing read
    | Read(beer: Beer)                // row read and locked
    | Edited(draft: Beer)             // edited in memory
    | Wrote(row: Option<Beer>)        // row inserted, updated or deleted, not yet visible to others
    | Logged(row: Option<Beer>)       // event inserted, not yet visible to others
    | Committed
    | Failed(error: Error)            // answered with an error, rolled back
    | RolledBack                      // cancelled, or a statement or the commit failed

  datatype Tx = Tx(req: Request, phase: Phase)
  {
    predicate Active() { !phase.Committed? && !phase.Failed? && !phase.RolledBack? }
    predicate Holding() { phase.Read? || phase.Edited? || phase.Wrote? || phase.Logged? }
    function Id(): string { req.op.beerId }
  }

  /** `known` holds every id that is or ever was a row's. */
  datatype State = State(db: Db, known: set<string>, locks: map<string, nat>, txs: map<nat, Tx>, history: seq<Commit>)

  datatype Action =
    | Begin(t: nat, req: Request)
    | Check(t: nat)
    | ReadRow(t: nat)
    | EditRow(t: nat)
    | UpdateRow(t: nat)
    | ReplaceRow(t: nat)
    | InsertRow(t: nat)
    | DeleteRow(t: nat)
    | LogEvent(t: nat)
    | CommitTx(t: nat)
    | Abort(t: nat)

  /** A statement on a row waits while another transaction holds the row. */
  predicate Reachable(s: State, id: string) { id !in s.db.beers || id !in s.locks }

  predicate CanCheck(s: State, t: nat) {
    t in s.txs && s.txs[t].phase.Checking? && Reachable(s, s.txs[t].Id())
  }

  predicate CanReadRow(s: State, t: nat) {
    t in s.txs && s.txs[t].phase.Begun? && s.txs[t].req.op.ReadsRow() && Reachable(s, s.txs[t].Id())
  }

  predicate CanEditRow(s: State, t: nat) {
    t in s.txs && s.txs[t].phase.Read? && s.txs[t].req.op.ReadsRow()
  }

  predicate CanUpdateRow(s: State, t: nat) {
    t in s.txs && s.txs[t].phase.Edited?
  }

  predicate CanReplaceRow(s: State, t: nat) {
    t in s.txs && s.txs[t].phase.Begun? && s.txs[t].req.op.ReplaceBeer? && Reachable(s, s.txs[t].Id())
  }

  /** An INSERT waits for a transaction that holds the same key, row or not. */
  predicate CanInsertRow(s: State, t: nat) {
    t in s.txs && s.txs[t].phase.Begun? && s.txs[t].req.op.CreateBeer? && s.txs[t].Id() !in s.locks
  }

  predicate CanDeleteRow(s: State, t: nat) {
    t in s.txs && s.txs[t].phase.Begun? && s.txs[t].req.op.Removes() && Reachable(s, s.txs[t].Id())
  }

  predicate CanLogEvent(s: State, t: nat) {
    t in s.txs && s.txs[t].phase.Wrote? && !s.txs[t].req.op.ApprovedDelete?
  }

  predicate CanCommit(s: State, t: nat) {
    t in s.txs && if s.txs[t].req.op.ApprovedDelete? then s.txs[t].phase.Wrote? else s.txs[t].phase.Logged?
  }

  /** Ids of new beers are generated: never a row's id, nor that of another creation. */
  predicate FreshId(s: State, id: string) {
    id !in s.known && forall t :: t in s.txs && s.txs[t].req.op.CreateBeer? ==> s.txs[t].Id() != id
  }

  predicate Enabled(s: State, a: Action) {
    match a
    case Begin(t, req) => t !in s.txs && (req.op.CreateBeer? ==> FreshId(s, req.op.beerId))
    case Check(t) => CanCheck(s, t)
    case ReadRow(t) => CanReadRow(s, t)
    case EditRow(t) => CanEditRow(s, t)
    case UpdateRow(t) => CanUpdateRow(s, t)
    case ReplaceRow(t) => CanReplaceRow(s, t)
    case InsertRow(t) => CanInsertRow(s, t)
    case DeleteRow(t) => CanDeleteRow(s, t)
    case LogEvent(t) => CanLogEvent(s, t)
    case CommitTx(t) => CanCommit(s, t)
    case Abort(t) => t in s.txs && s.txs[t].Active()
  }

  function Release(locks: map<string, nat>, t: nat): map<string, nat> {
    map id | id in locks && locks[id] != t :: locks[id]
  }

  /** `tx` becomes transaction `t`, holding its row exactly in the phases that hold one. */
  function Put(s: State, t: nat, tx: Tx): State {
    s.(txs := s.txs[t := tx], locks := if tx.Holding() then s.locks[tx.Id() := t] else Release(s.locks, t))
  }

  function Next(s: State, t: nat, phase: Phase): State
    requires t in s.txs
  {
    Put(s, t, s.txs[t].(phase := phase))
  }

  /** The tables as the transaction itself sees them. */
  function OwnView(db: Db, id: string, row: Option<Beer>): Db {
    if row.Some? then db.(beers := db.beers[id := row.value]) else Cascade(db, id)
  }

  function DoCheck(s: State, t: nat): State
    requires CanCheck(s, t)
  {
    var id := s.txs[t].Id();
    if id !in s.db.beers then Next(s, t, Failed(BeerNotFound))
    else
      var refusal := Refusal(s.txs[t].req.op, s.db.beers[id]);
      if refusal.Some? then Next(s, t, Failed(refusal.value)) else Next(s, t, Begun)
  }

  function DoReadRow(s: State, t: nat): State
    requires CanReadRow(s, t)
  {
    var id := s.txs[t].Id();
    if id !in s.db.beers then Next(s, t, Failed(BeerNotFound)) else Next(s, t, Read(s.db.beers[id]))
  }

  function DoEditRow(s: State, t: nat): State
    requires CanEditRow(s, t)
  {
    var edited := Edit(s.txs[t].req.op, s.txs[t].phase.beer);
    if edited.Err? then Next(s, t, Failed(edited.error)) else Next(s, t, Edited(edited.value))
  }

  function DoUpdateRow(s: State, t: nat): State
    requires CanUpdateRow(s, t)
  {
    var tx := s.txs[t];
    if tx.Id() !in s.db.beers then Next(s, t, Failed(BeerNotFound))
    else Next(s, t, Wrote(Some(Stored(s.db.beers[tx.Id()], tx.phase.draft, tx.req.at))))
  }

  function DoReplaceRow(s: State, t: nat): State
    requires CanReplaceRow(s, t)
  {
    var tx := s.txs[t];
    if tx.Id() !in s.db.beers then Next(s, t, Failed(BeerNotFound))
    else Next(s, t, Wrote(Some(Stored(s.db.beers[tx.Id()], tx.req.op.beer, tx.req.at))))
  }

  function DoInsertRow(s: State, t: nat): State
    requires CanInsertRow(s, t)
  {
    var tx := s.txs[t];
    if tx.Id() in s.db.beers then Next(s, t, Failed(BeerExists))
    else Next(s, t, Wrote(Some(Inserted(tx.req.op.beer, tx.req.at))))
  }

  function DoDeleteRow(s: State, t: nat): State
    requires CanDeleteRow(s, t)
  {
    if s.txs[t].Id() !in s.db.beers then Next(s, t, Failed(BeerNotFound)) else Next(s, t, Wrote(None))
  }

  function DoLogEvent(s: State, t: nat): State
    requires CanLogEvent(s, t)
  {
    var tx := s.txs[t];
    var inserted := InsertEvent(OwnView(s.db, tx.Id(), tx.phase.row), EventOf(tx.req));
    if inserted.Err? then Next(s, t, Failed(inserted.error)) else Next(s, t, Logged(tx.phase.row))
  }

  function DoCommit(s: State, t: nat): State
    requires CanCommit(s, t)
  {
    var tx := s.txs[t];
    var view := OwnView(s.db, tx.Id(), tx.phase.row);
    Next(s, t, Committed).(
      known := if tx.req.op.CreateBeer? then s.known + {tx.Id()} else s.known,
      db := if tx.phase.Logged? then view.(log := view.log + [EventOf(tx.req)]) else view,
      history := s.history + [Commit(t, tx.req)])
  }

  function Perform(s: State, a: Action): State
    requires Enabled(s, a)
  {
    match a
    case Begin(t, req) => Put(s, t, Tx(req, if req.op.ChecksFirst() then Checking else Begun))
    case Check(t) => DoCheck(s, t)
    case ReadRow(t) => DoReadRow(s, t)
    case EditRow(t) => DoEditRow(s, t)
    case UpdateRow(t) => DoUpdateRow(s, t)
    case ReplaceRow(t) => DoReplaceRow(s, t)
    case InsertRow(t) => DoInsertRow(s, t)
    case DeleteRow(t) => DoDeleteRow(s, t)
    case LogEvent(t) => DoLogEvent(s, t)
    case CommitTx(t) => DoCommit(s, t)
    case Abort(t) => Next(s, t, RolledBack)
  }

  function Start(db: Db): State { State(db, db.beers.Keys, map[], map[], []) }

  /** The state after a run, if every action of it was enabled when it was taken. */
  function After(db: Db, run: seq<Action>): Option<State> {
    if run == [] then Some(Start(db))
    else match After(db, run[..|run| - 1])
      case None => None
      case Some(s) => if Enabled(s, run[|run| - 1]) then Some(Perform(s, run[|run| - 1])) else None
  }

  // ---------------------------------------------------------------------------
  // The invariant.

  /** What a transaction holds is what its request makes of the row as it is committed now. */
  ghost predicate RowCurrent(row: Beer, tx: Tx) {
    var op := tx.req.op;
    match tx.phase
    case Read(beer) => op.ReadsRow() && beer == row
    case Edited(draft) => op.ReadsRow() && Edit(op, row) == Ok(draft)
    case Wrote(None) => op.Removes()
    case Wrote(Some(r)) => op.Updates() && Edit(op, row).Ok? && r == Stored(row, Edit(op, row).value, tx.req.at)
    case Logged(None) => false
    case Logged(Some(r)) => op.Updates() && Edit(op, row).Ok? && r == Stored(row, Edit(op, row).value, tx.req.at)
    case _ => true
  }

  /** What a creation holds is the row it inserts. */
  ghost predicate InsertCurrent(tx: Tx)
    requires tx.req.op.CreateBeer?
  {
    match tx.phase
    case Wrote(row) => row == Some(Inserted(tx.req.op.beer, tx.req.at))
    case Logged(row) => row == Some(Inserted(tx.req.op.beer, tx.req.at))
    case _ => false
  }

  ghost predicate HoldsCurrent(db: Db, tx: Tx) {
    if tx.req.op.CreateBeer? then tx.Id() !in db.beers && InsertCurrent(tx)
    else tx.Id() in db.beers && RowCurrent(db.beers[tx.Id()], tx)
  }

  ghost predicate LocksAgree(s: State) {
    && (forall id :: id in s.locks ==>
          s.locks[id] in s.txs && s.txs[s.locks[id]].Holding() && s.txs[s.locks[id]].Id() == id)
    && (forall t :: t in s.txs && s.txs[t].Holding() ==> s.txs[t].Id() in s.locks && s.locks[s.txs[t].Id()] == t)
  }

  ghost predicate SnapshotsCurrent(s: State) {
    forall t :: t in s.txs && s.txs[t].Holding() ==> HoldsCurrent(s.db, s.txs[t])
  }

  /** A permission read before the transaction is still in force: owners never change. */
  ghost predicate ChecksStand(s: State) {
    forall t :: t in s.txs && s.txs[t].Active() && !s.txs[t].phase.Checking? && s.txs[t].Id() in s.db.beers
                ==> Refusal(s.txs[t].req.op, s.db.beers[s.txs[t].Id()]).None?
  }

  ghost predicate HistoryAgrees(s: State) {
    && (forall i :: 0 <= i < |s.history| ==>
          s.history[i].tid in s.txs && s.txs[s.history[i].tid] == Tx(s.history[i].req, Committed))
    && (forall i, j :: 0 <= i < j < |s.history| ==> s.history[i].tid != s.history[j].tid)
    && (forall t :: t in s.txs && s.txs[t].phase.Committed? ==> Commit(t, s.txs[t].req) in s.history)
  }

  /** The ids of the first rows and of the rows created since. */
  function Known(first: set<string>, history: seq<Commit>): set<string> {
    if history == [] then first
    else
      var op := history[|history| - 1].req.op;
      Known(first, history[..|history| - 1]) + if op.CreateBeer? then {op.beerId} else {}
  }

  /** No creation in this history reuses an id. */
  ghost predicate FreshBeers(first: set<string>, history: seq<Commit>) {
    history == [] ||
    (var init, op := history[..|history| - 1], history[|history| - 1].req.op;
     FreshBeers(first, init) && (op.CreateBeer? ==> op.beerId !in Known(first, init)))
  }

  /** An id not yet created is nobody's, and whoever has passed a permission read knows its row. */
  ghost predicate IdsAgree(s: State) {
    && s.db.beers.Keys <= s.known
    && (forall t :: t in s.txs && s.txs[t].req.op.CreateBeer? && !s.txs[t].phase.Committed? ==>
          s.txs[t].Id() !in s.known)
    && (forall t, u :: t in s.txs && u in s.txs && t != u && s.txs[t].req.op.CreateBeer? && s.txs[u].req.op.CreateBeer?
                       ==> s.txs[t].Id() != s.txs[u].Id())
    && (forall t :: t in s.txs && s.txs[t].Active() && !s.txs[t].phase.Checking? && s.txs[t].req.op.ChecksFirst()
                    ==> s.txs[t].Id() in s.known)
    && (forall t :: t in s.txs && s.txs[t].phase.Checking? ==> s.txs[t].req.op.ChecksFirst())
  }

  /** The serial order so far, its tables, and the ids it has used. */
  ghost predicate SerialSoFar(db0: Db, s: State) {
    && Replay(db0, s.history) == Ok(s.db)
    && s.known == Known(db0.beers.Keys, s.history) && FreshBeers(db0.beers.Keys, s.history)
  }

  ghost predicate Inv(db0: Db, s: State) {
    LocksAgree(s) && SnapshotsCurrent(s) && ChecksStand(s) && HistoryAgrees(s) && IdsAgree(s) && SerialSoFar(db0, s)
  }

  lemma PutLocks(s: State, t: nat, tx: Tx)
    requires LocksAgree(s)
    requires t in s.txs ==> s.txs[t].Id() == tx.Id()
    requires tx.Holding() && tx.Id() in s.locks ==> s.locks[tx.Id()] == t
    ensures LocksAgree(Put(s, t, tx))
  {
  }

  lemma PutSnapshots(s: State, t: nat, tx: Tx)
    requires SnapshotsCurrent(s)
    requires tx.Holding() ==> HoldsCurrent(s.db, tx)
    ensures SnapshotsCurrent(Put(s, t, tx))
  {
  }

  lemma PutChecks(s: State, t: nat, tx: Tx)
    requires ChecksStand(s)
    requires tx.Active() && !tx.phase.Checking? && tx.Id() in s.db.beers ==>
              Refusal(tx.req.op, s.db.beers[tx.Id()]).None?
    ensures ChecksStand(Put(s, t, tx))
  {
  }

  lemma PutHistory(s: State, t: nat, tx: Tx)
    requires HistoryAgrees(s) && !tx.phase.Committed?
    requires t in s.txs ==> s.txs[t].Active()
    ensures HistoryAgrees(Put(s, t, tx))
  {
  }

  /** A new transaction that creates a row has a fresh id; one past its permission read knows its row. */
  predicate MayPut(s: State, t: nat, tx: Tx) {
    && (t in s.txs ==> s.txs[t].req == tx.req && s.txs[t].Active())
    && (t !in s.txs && tx.req.op.CreateBeer? ==> FreshId(s, tx.Id()))
    && (tx.Active() && !tx.phase.Checking? && tx.req.op.ChecksFirst() ==> tx.Id() in s.known)
    && (tx.phase.Checking? ==> tx.req.op.ChecksFirst())
  }

  lemma PutIds(s: State, t: nat, tx: Tx)
    requires IdsAgree(s) && MayPut(s, t, tx) && !tx.phase.Committed?
    ensures IdsAgree(Put(s, t, tx))
  {
  }

  /** A step that leaves the tables alone keeps the invariant if what the transaction now
      holds is current and its permission stands. */
  lemma PutKeeps(db0: Db, s: State, t: nat, tx: Tx)
    requires Inv(db0, s) && !tx.phase.Committed? && MayPut(s, t, tx)
    requires tx.Holding() && tx.Id() in s.locks ==> s.locks[tx.Id()] == t
    requires tx.Holding() ==> HoldsCurrent(s.db, tx)
    requires tx.Active() && !tx.phase.Checking? && tx.Id() in s.db.beers ==>
              Refusal(tx.req.op, s.db.beers[tx.Id()]).None?
    ensures Inv(db0, Put(s, t, tx))
  {
    PutLocks(s, t, tx);
    PutSnapshots(s, t, tx);
    PutChecks(s, t, tx);
    PutHistory(s, t, tx);
    PutIds(s, t, tx);
  }

  /** What a commit writes is what the request would have done running alone, now. */
  lemma CommitRunsAlone(s: State, t: nat)
    requires SnapshotsCurrent(s) && ChecksStand(s) && CanCommit(s, t)
    ensures RunAlone(s.db, s.txs[t].req) == Ok(DoCommit(s, t).db)
  {
    var tx := s.txs[t];
    assert tx.Holding() && HoldsCurrent(s.db, tx);
    if !tx.req.op.CreateBeer? {
      assert Refusal(tx.req.op, s.db.beers[tx.Id()]).None?;
    }
  }

  /** A commit changes one row, and never the owner of a row that was there. */
  lemma CommitRows(s: State, t: nat)
    requires SnapshotsCurrent(s) && CanCommit(s, t)
    ensures var beers, own := DoCommit(s, t).db.beers, s.txs[t].Id();
            && (own in beers && own in s.db.beers ==> beers[own].createdBy == s.db.beers[own].createdBy)
            && (own in beers && own !in s.db.beers ==> s.txs[t].req.op.CreateBeer?)
            && (forall id :: id != own ==> (id in beers <==> id in s.db.beers))
            && (forall id :: id != own && id in beers ==> beers[id] == s.db.beers[id])
  {
    assert s.txs[t].Holding() && HoldsCurrent(s.db, s.txs[t]);
  }

  lemma ReplaySnoc(db0: Db, history: seq<Commit>, c: Commit)
    requires Replay(db0, history).Ok?
    ensures Replay(db0, history + [c]) == RunAlone(Replay(db0, history).value, c.req)
  {
    assert (history + [c])[..|history|] == history;
  }

  lemma CommitLocks(s: State, t: nat)
    requires LocksAgree(s) && CanCommit(s, t)
    ensures LocksAgree(DoCommit(s, t))
    ensures forall u :: u in DoCommit(s, t).txs && DoCommit(s, t).txs[u].Holding() ==>
              u != t && s.txs[u].Id() != s.txs[t].Id()
  {
    assert s.locks[s.txs[t].Id()] == t;
  }

  lemma CommitHistory(s: State, t: nat)
    requires HistoryAgrees(s) && CanCommit(s, t)
    ensures HistoryAgrees(DoCommit(s, t))
  {
    var s' := DoCommit(s, t);
    assert s'.history[|s.history|] == Commit(t, s.txs[t].req);
  }

  lemma CurrencyFrame(db: Db, db': Db, tx: Tx)
    requires tx.Id() in db.beers <==> tx.Id() in db'.beers
    requires tx.Id() in db.beers ==> db.beers[tx.Id()] == db'.beers[tx.Id()]
    requires HoldsCurrent(db, tx)
    ensures HoldsCurrent(db', tx)
  {
  }

  lemma CommitSnapshots(s: State, t: nat)
    requires LocksAgree(s) && SnapshotsCurrent(s) && CanCommit(s, t)
    ensures SnapshotsCurrent(DoCommit(s, t))
  {
    CommitRows(s, t);
    CommitLocks(s, t);
    var s' := DoCommit(s, t);
    forall u | u in s'.txs && s'.txs[u].Holding()
      ensures HoldsCurrent(s'.db, s'.txs[u])
    {
      CurrencyFrame(s.db, s'.db, s.txs[u]);
    }
  }

  lemma CommitIds(s: State, t: nat)
    requires IdsAgree(s) && SnapshotsCurrent(s) && CanCommit(s, t)
    ensures IdsAgree(DoCommit(s, t))
  {
    CommitRows(s, t);
    assert s.txs[t].Holding() && HoldsCurrent(s.db, s.txs[t]);
  }

  /** A new row takes nobody's permission away: whoever has passed a permission read read another id. */
  lemma CommitChecks(s: State, t: nat)
    requires IdsAgree(s) && ChecksStand(s) && SnapshotsCurrent(s) && CanCommit(s, t)
    ensures ChecksStand(DoCommit(s, t))
  {
    CommitRows(s, t);
    var s' := DoCommit(s, t);
    forall u | u in s'.txs && s'.txs[u].Active() && !s'.txs[u].phase.Checking? && s'.txs[u].Id() in s'.db.beers
      ensures Refusal(s'.txs[u].req.op, s'.db.beers[s'.txs[u].Id()]).None?
    {
      assert s'.txs[u] == s.txs[u];
      if s.txs[u].Id() == s.txs[t].Id() && s.txs[t].req.op.CreateBeer? {
        assert !s.txs[u].req.op.ChecksFirst();
      } else {
        assert s.txs[u].Id() in s.db.beers;
      }
    }
  }

  lemma FreshSnoc(first: set<string>, history: seq<Commit>, c: Commit)
    ensures Known(first, history + [c]) ==
              Known(first, history) + if c.req.op.CreateBeer? then {c.req.op.beerId} else {}
    ensures FreshBeers(first, history + [c]) <==>
              FreshBeers(first, history) && (c.req.op.CreateBeer? ==> c.req.op.beerId !in Known(first, history))
  {
    assert (history + [c])[..|history|] == history;
  }

  lemma CommitSerial(db0: Db, s: State, t: nat)
    requires SerialSoFar(db0, s) && CanCommit(s, t) && RunAlone(s.db, s.txs[t].req) == Ok(DoCommit(s, t).db)
    requires s.txs[t].req.op.CreateBeer? ==> s.txs[t].Id() !in s.known
    ensures SerialSoFar(db0, DoCommit(s, t))
  {
    ReplaySnoc(db0, s.history, Commit(t, s.txs[t].req));
    FreshSnoc(db0.beers.Keys, s.history, Commit(t, s.txs[t].req));
  }

  lemma CommitKeeps(db0: Db, s: State, t: nat)
    requires Inv(db0, s) && CanCommit(s, t)
    ensures Inv(db0, DoCommit(s, t))
  {
    CommitLocks(s, t);
    CommitSnapshots(s, t);
    CommitChecks(s, t);
    CommitHistory(s, t);
    CommitIds(s, t);
    CommitRunsAlone(s, t);
    CommitSerial(db0, s, t);
  }

  lemma BeginKeeps(db0: Db, s: State, t: nat, req: Request)
    requires Inv(db0, s) && Enabled(s, Begin(t, req))
    ensures Inv(db0, Perform(s, Begin(t, req)))
  {
    PutKeeps(db0, s, t, Tx(req, if req.op.ChecksFirst() then Checking else Begun));
  }

  lemma CheckKeeps(db0: Db, s: State, t: nat)
    requires Inv(db0, s) && CanCheck(s, t)
    ensures Inv(db0, DoCheck(s, t))
  {
    PutKeeps(db0, s, t, DoCheck(s, t).txs[t]);
  }

  lemma ReadRowKeeps(db0: Db, s: State, t: nat)
    requires Inv(db0, s) && CanReadRow(s, t)
    ensures Inv(db0, DoReadRow(s, t))
  {
    PutKeeps(db0, s, t, DoReadRow(s, t).txs[t]);
  }

  lemma EditRowKeeps(db0: Db, s: State, t: nat)
    requires Inv(db0, s) && CanEditRow(s, t)
    ensures Inv(db0, DoEditRow(s, t))
  {
    assert s.txs[t].Holding() && HoldsCurrent(s.db, s.txs[t]);
    PutKeeps(db0, s, t, DoEditRow(s, t).txs[t]);
  }

  lemma UpdateRowKeeps(db0: Db, s: State, t: nat)
    requires Inv(db0, s) && CanUpdateRow(s, t)
    ensures Inv(db0, DoUpdateRow(s, t))
  {
    assert s.txs[t].Holding() && HoldsCurrent(s.db, s.txs[t]);
    PutKeeps(db0, s, t, DoUpdateRow(s, t).txs[t]);
  }

  lemma ReplaceRowKeeps(db0: Db, s: State, t: nat)
    requires Inv(db0, s) && CanReplaceRow(s, t)
    ensures Inv(db0, DoReplaceRow(s, t))
  {
    PutKeeps(db0, s, t, DoReplaceRow(s, t).txs[t]);
  }

  lemma InsertRowKeeps(db0: Db, s: State, t: nat)
    requires Inv(db0, s) && CanInsertRow(s, t)
    ensures Inv(db0, DoInsertRow(s, t))
  {
    PutKeeps(db0, s, t, DoInsertRow(s, t).txs[t]);
  }

  lemma DeleteRowKeeps(db0: Db, s: State, t: nat)
    requires Inv(db0, s) && CanDeleteRow(s, t)
    ensures Inv(db0, DoDeleteRow(s, t))
  {
    PutKeeps(db0, s, t, DoDeleteRow(s, t).txs[t]);
  }

  lemma LogEventKeeps(db0: Db, s: State, t: nat)
    requires Inv(db0, s) && CanLogEvent(s, t)
    ensures Inv(db0, DoLogEvent(s, t))
  {
    assert s.txs[t].Holding() && HoldsCurrent(s.db, s.txs[t]);
    PutKeeps(db0, s, t, DoLogEvent(s, t).txs[t]);
  }

  lemma InvStep(db0: Db, s: State, a: Action)
    requires Inv(db0, s) && Enabled(s, a)
    ensures Inv(db0, Perform(s, a))
  {
    match a
    case Begin(t, req) => BeginKeeps(db0, s, t, req);
    case Check(t) => CheckKeeps(db0, s, t);
    case ReadRow(t) => ReadRowKeeps(db0, s, t);
    case EditRow(t) => EditRowKeeps(db0, s, t);
    case UpdateRow(t) => UpdateRowKeeps(db0, s, t);
    case ReplaceRow(t) => ReplaceRowKeeps(db0, s, t);
    case InsertRow(t) => InsertRowKeeps(db0, s, t);
    case DeleteRow(t) => DeleteRowKeeps(db0, s, t);
    case LogEvent(t) => LogEventKeeps(db0, s, t);
    case CommitTx(t) => CommitKeeps(db0, s, t);
    case Abort(t) => PutKeeps(db0, s, t, s.txs[t].(phase := RolledBack));
  }

  // ---------------------------------------------------------------------------
  // Main results.

  lemma {:induction false} RunKeeps(db0: Db, run: seq<Action>)
    requires After(db0, run).Some?
    ensures Inv(db0, After(db0, run).value)
  {
    if run != [] {
      var before := run[..|run| - 1];
      RunKeeps(db0, before);
      InvStep(db0, After(db0, before).value, run[|run| - 1]);
    }
  }

  /** Serialisability in commit order: however the steps interleave, running the committed
      requests one at a time from the first tables succeeds every time and gives the tables
      there are now; each committed transaction is in that order exactly once. */
  lemma Serialisable(db0: Db, run: seq<Action>)
    requires After(db0, run).Some?
    ensures var s := After(db0, run).value;
            && Replay(db0, s.history) == Ok(s.db)
            && (forall t :: t in s.txs && s.txs[t].phase.Committed? ==> Commit(t, s.txs[t].req) in s.history)
            && (forall c :: c in s.history ==> c.tid in s.txs && s.txs[c.tid] == Tx(c.req, Committed))
            && (forall i, j :: 0 <= i < j < |s.history| ==> s.history[i].tid != s.history[j].tid)
            && FreshBeers(db0.beers.Keys, s.history)
  {
    RunKeeps(db0, run);
  }

  lemma OnlyCommitsWrite(s: State, a: Action)
    requires Enabled(s, a) && !a.CommitTx?
    ensures Perform(s, a).db == s.db && Perform(s, a).history == s.history
  {
  }

  /** A transaction fails where its request would fail running alone. */
  lemma FailsAlone(s: State, a: Action)
    requires Enabled(s, a) && !a.Begin? && s.txs[a.t].Active()
    requires s.txs[a.t].Holding() ==> HoldsCurrent(s.db, s.txs[a.t])
    requires !s.txs[a.t].phase.Checking? && s.txs[a.t].Id() in s.db.beers ==>
               Refusal(s.txs[a.t].req.op, s.db.beers[s.txs[a.t].Id()]).None?
    requires s.txs[a.t].phase.Checking? ==> s.txs[a.t].req.op.ChecksFirst()
    ensures a.t in Perform(s, a).txs
    ensures Perform(s, a).txs[a.t].phase.Failed? ==>
              RunAlone(s.db, s.txs[a.t].req) == Err(Perform(s, a).txs[a.t].phase.error)
    ensures Perform(s, a).txs[a.t].phase.Committed? ==> a.CommitTx?
  {
  }

  /** An error a transaction answers is the error the request would get running alone at that
      moment, and only a commit changes the tables. */
  lemma FailureIsSerial(db0: Db, run: seq<Action>, a: Action)
    requires After(db0, run).Some? && Enabled(After(db0, run).value, a) && !a.Begin?
    ensures var s := After(db0, run).value;
            var s' := Perform(s, a);
            && a.t in s'.txs
            && (s'.txs[a.t].phase.Failed? ==> RunAlone(s.db, s.txs[a.t].req) == Err(s'.txs[a.t].phase.error))
            && (!a.CommitTx? ==> !s'.txs[a.t].phase.Committed? && s'.db == s.db && s'.history == s.history)
  {
    RunKeeps(db0, run);
    var s := After(db0, run).value;
    FailsAlone(s, a);
    if !a.CommitTx? {
      OnlyCommitsWrite(s, a);
    }
  }

  /** Nothing stands in the way of the transaction's next statement. */
  predicate Unhindered(s: State, u: nat)
    requires u in s.txs
  {
    s.txs[u].Holding() || if s.txs[u].req.op.CreateBeer? then s.txs[u].Id() !in s.locks else Reachable(s, s.txs[u].Id())
  }

  /** The next step of a transaction that is not waiting. */
  lemma CanGoOn(s: State, u: nat)
    requires u in s.txs && s.txs[u].Active() && Unhindered(s, u)
    requires s.txs[u].phase.Checking? ==> s.txs[u].req.op.ChecksFirst()
    requires s.txs[u].Holding() ==> HoldsCurrent(s.db, s.txs[u])
    ensures exists a: Action :: !a.Begin? && !a.Abort? && a.t == u && Enabled(s, a)
  {
    var tx := s.txs[u];
    var a :=
      if tx.phase.Checking? then Check(u)
      else if tx.phase.Begun? then
        if tx.req.op.Removes() then DeleteRow(u)
        else if tx.req.op.CreateBeer? then InsertRow(u)
        else if tx.req.op.ReplaceBeer? then ReplaceRow(u)
        else ReadRow(u)
      else if tx.phase.Read? then EditRow(u)
      else if tx.phase.Edited? then UpdateRow(u)
      else if tx.phase.Wrote? && !tx.req.op.ApprovedDelete? then LogEvent(u)
      else CommitTx(u);
    assert Enabled(s, a);
  }

  /** No deadlock: a transaction that is not finished can take a step other than giving up, or
      waits for a row whose holder can. */
  lemma Progress(db0: Db, run: seq<Action>, t: nat)
    requires After(db0, run).Some?
    requires t in After(db0, run).value.txs && After(db0, run).value.txs[t].Active()
    ensures var s := After(db0, run).value;
            exists a: Action :: !a.Begin? && !a.Abort? && Enabled(s, a) &&
              (a.t == t || (s.txs[t].Id() in s.locks && s.locks[s.txs[t].Id()] == a.t))
  {
    RunKeeps(db0, run);
    var s := After(db0, run).value;
    var id := s.txs[t].Id();
    CanGoOn(s, if Unhindered(s, t) then t else s.locks[id]);
  }
}
