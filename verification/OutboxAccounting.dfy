/** What the serial order implies about the event table and the comment lists. */
module OutboxAccounting {
  import opened Wrappers
  import opened Beers
  import opened Outbox

  // ---------------------------------------------------------------------------
  // The event table holds one event per committed request, in commit order.

  /** The events a commit leaves. */
  function EventsLeft(c: Commit): seq<Event> {
    if c.req.op.ApprovedDelete? then [] else [EventOf(c.req)]
  }

  function EventsOf(history: seq<Commit>): seq<Event> {
    if history == [] then []
    else
      var c := history[|history| - 1];
      EventsOf(history[..|history| - 1]) + EventsLeft(c)
  }

  ghost predicate ForeignKeysHold(db: Db) {
    forall e :: e in db.log ==> e.beerId in db.beers
  }

  lemma SurvivingSnoc(log: seq<Event>, e: Event, beers: set<string>)
    ensures Surviving(log + [e], beers) ==
              if e.beerId in beers then Surviving(log, beers) + [e] else Surviving(log, beers)
  {
    assert (log + [e])[..|log|] == log;
    assert Surviving(log, beers) + [] == Surviving(log, beers);
  }

  lemma SurvivingLast(log: seq<Event>, beers: set<string>)
    requires log != []
    ensures var init, last := log[..|log| - 1], log[|log| - 1];
            Surviving(log, beers) ==
            if last.beerId in beers then Surviving(init, beers) + [last] else Surviving(init, beers)
  {
    assert log == log[..|log| - 1] + [log[|log| - 1]];
    SurvivingSnoc(log[..|log| - 1], log[|log| - 1], beers);
  }

  lemma Associative(a: seq<Event>, b: seq<Event>, c: seq<Event>)
    ensures a + (b + c) == (a + b) + c
  {
  }

  lemma AppendStep(log: seq<Event>, init: seq<Event>, last: Event, beers: set<string>)
    requires Surviving(log + init, beers) == Surviving(log, beers) + Surviving(init, beers)
    ensures Surviving((log + init) + [last], beers) == Surviving(log, beers) + Surviving(init + [last], beers)
  {
    SurvivingSnoc(init, last, beers);
    SurvivingSnoc(log + init, last, beers);
    Associative(Surviving(log, beers), Surviving(init, beers), [last]);
  }

  /** What survives of two stretches of a log is what survives of each, in order. */
  lemma {:induction false} SurvivingAppend(log: seq<Event>, more: seq<Event>, beers: set<string>)
    ensures Surviving(log + more, beers) == Surviving(log, beers) + Surviving(more, beers)
  {
    if more == [] {
      assert log + more == log && Surviving(log, beers) + [] == Surviving(log, beers);
    } else {
      var init, last := more[..|more| - 1], more[|more| - 1];
      SurvivingAppend(log, init, beers);
      AppendStep(log, init, last, beers);
      assert more == init + [last] && log + more == (log + init) + [last];
    }
  }

  lemma {:induction false} SurvivingAll(log: seq<Event>, beers: set<string>)
    requires forall e :: e in log ==> e.beerId in beers
    ensures Surviving(log, beers) == log
  {
    if log != [] {
      var init, last := log[..|log| - 1], log[|log| - 1];
      assert log == init + [last];
      SurvivingAll(init, beers);
      assert last in log;
    }
  }

  lemma {:induction false} SurvivingTwice(log: seq<Event>, beers: set<string>, fewer: set<string>)
    requires fewer <= beers
    ensures Surviving(Surviving(log, beers), fewer) == Surviving(log, fewer)
  {
    if log != [] {
      var init, last := log[..|log| - 1], log[|log| - 1];
      SurvivingTwice(init, beers, fewer);
      SurvivingLast(log, beers);
      SurvivingLast(log, fewer);
      SurvivingSnoc(Surviving(init, beers), last, fewer);
    }
  }

  lemma {:induction false} SurvivingUnknown(log: seq<Event>, beers: set<string>, id: string)
    requires forall i :: 0 <= i < |log| ==> log[i].beerId != id
    ensures Surviving(log, beers + {id}) == Surviving(log, beers)
  {
    if log != [] {
      SurvivingUnknown(log[..|log| - 1], beers, id);
    }
  }

  /** One request running alone: what it does to the set of beers and to the event table. */
  lemma RunAloneLog(db: Db, req: Request)
    requires RunAlone(db, req).Ok?
    ensures !req.op.CatalogDelete?
    ensures req.op.CreateBeer? <==> req.op.beerId !in db.beers
    ensures var after := RunAlone(db, req).value;
            if req.op.ApprovedDelete?
            then after == Cascade(db, req.op.beerId)
            else after.beers.Keys == db.beers.Keys + {req.op.beerId} && after.log == db.log + [EventOf(req)]
  {
  }

  /** Rows and events are of known beers. */
  lemma {:induction false} AllKnown(db0: Db, history: seq<Commit>)
    requires Replay(db0, history).Ok?
    ensures Replay(db0, history).value.beers.Keys <= Known(db0.beers.Keys, history)
    ensures forall i :: 0 <= i < |EventsOf(history)| ==> EventsOf(history)[i].beerId in Known(db0.beers.Keys, history)
  {
    if history != [] {
      var init, c := history[..|history| - 1], history[|history| - 1];
      AllKnown(db0, init);
      RunAloneLog(Replay(db0, init).value, c.req);
    }
  }

  lemma RunAloneForeignKeys(db: Db, req: Request)
    requires ForeignKeysHold(db) && RunAlone(db, req).Ok?
    ensures ForeignKeysHold(RunAlone(db, req).value)
  {
    RunAloneLog(db, req);
    SurvivingMembers(db.log, db.beers.Keys - {req.op.beerId});
  }

  /** A new event of a beer whose events all survive, or of a beer the log does not know yet. */
  lemma AppendedLog(log: seq<Event>, beers: set<string>, e: Event)
    requires e.beerId in beers || forall i :: 0 <= i < |log| ==> log[i].beerId != e.beerId
    ensures Surviving(log, beers) + [e] == Surviving(log + [e], beers + {e.beerId})
  {
    if e.beerId in beers {
      assert beers + {e.beerId} == beers;
    } else {
      SurvivingUnknown(log, beers, e.beerId);
    }
    SurvivingSnoc(log, e, beers + {e.beerId});
  }

  /** A log kept in step with a history stays in step with one more request. */
  lemma LogStep(log: seq<Event>, c: Commit, before: Db)
    requires before.log == Surviving(log, before.beers.Keys) && RunAlone(before, c.req).Ok?
    requires c.req.op.CreateBeer? ==> forall i :: 0 <= i < |log| ==> log[i].beerId != c.req.op.beerId
    ensures RunAlone(before, c.req).value.log ==
              Surviving(log + EventsLeft(c), RunAlone(before, c.req).value.beers.Keys)
  {
    RunAloneLog(before, c.req);
    if c.req.op.ApprovedDelete? {
      assert log + EventsLeft(c) == log;
      SurvivingTwice(log, before.beers.Keys, before.beers.Keys - {c.req.op.beerId});
    } else {
      AppendedLog(log, before.beers.Keys, EventOf(c.req));
    }
  }

  lemma HistoryStep(first: seq<Event>, init: seq<Commit>, c: Commit, before: Db)
    requires before.log == Surviving(first + EventsOf(init), before.beers.Keys)
    requires ForeignKeysHold(before) && RunAlone(before, c.req).Ok?
    requires c.req.op.CreateBeer? ==>
               forall i :: 0 <= i < |first + EventsOf(init)| ==> (first + EventsOf(init))[i].beerId != c.req.op.beerId
    ensures var db := RunAlone(before, c.req).value;
            && ForeignKeysHold(db) && !c.req.op.CatalogDelete?
            && db.log == Surviving(first + EventsOf(init + [c]), db.beers.Keys)
  {
    LogStep(first + EventsOf(init), c, before);
    RunAloneForeignKeys(before, c.req);
    RunAloneLog(before, c.req);
    EventsSnoc(init, c);
    Associative(first, EventsOf(init), EventsLeft(c));
  }

  lemma EventsSnoc(init: seq<Commit>, c: Commit)
    ensures EventsOf(init + [c]) == EventsOf(init) + EventsLeft(c)
  {
    assert (init + [c])[..|init|] == init;
  }

  /** In every run the event table is the first table followed by exactly one event per
      committed request in commit order, less the events that went with an approved delete;
      a catalog delete never commits, since its own event has lost its beer. */
  lemma {:induction false} LogIsHistory(db0: Db, history: seq<Commit>)
    requires ForeignKeysHold(db0) && Replay(db0, history).Ok? && FreshBeers(db0.beers.Keys, history)
    ensures var db := Replay(db0, history).value;
            && ForeignKeysHold(db)
            && db.log == Surviving(db0.log + EventsOf(history), db.beers.Keys)
    ensures forall c :: c in history ==> !c.req.op.CatalogDelete?
  {
    if history == [] {
      assert db0.log + EventsOf(history) == db0.log;
      SurvivingAll(db0.log, db0.beers.Keys);
    } else {
      var init, c := history[..|history| - 1], history[|history| - 1];
      LogIsHistory(db0, init);
      KnownEvents(db0, init);
      HistoryStep(db0.log, init, c, Replay(db0, init).value);
      assert history == init + [c];
    }
  }

  lemma KnownEvents(db0: Db, history: seq<Commit>)
    requires ForeignKeysHold(db0) && Replay(db0, history).Ok?
    ensures var log := db0.log + EventsOf(history);
            forall i :: 0 <= i < |log| ==> log[i].beerId in Known(db0.beers.Keys, history)
  {
    AllKnown(db0, history);
    KnownGrows(db0.beers.Keys, history);
    assert forall i :: 0 <= i < |db0.log| ==> db0.log[i] in db0.log;
  }

  lemma {:induction false} KnownGrows(first: set<string>, history: seq<Commit>)
    ensures first <= Known(first, history)
  {
    if history != [] {
      KnownGrows(first, history[..|history| - 1]);
    }
  }

  // ---------------------------------------------------------------------------
  // Counting.

  predicate Concerns(e: Event, beerId: string, kind: Kind, subject: Option<string>) {
    e.beerId == beerId && e.kind == kind && (subject.None? || e.subject == subject.value)
  }

  function Count(log: seq<Event>, beerId: string, kind: Kind, subject: Option<string>): nat {
    if log == [] then 0
    else Count(log[..|log| - 1], beerId, kind, subject) +
         if Concerns(log[|log| - 1], beerId, kind, subject) then 1 else 0
  }

  lemma CountSnoc(log: seq<Event>, e: Event, beerId: string, kind: Kind, subject: Option<string>)
    ensures Count(log + [e], beerId, kind, subject) ==
            Count(log, beerId, kind, subject) + if Concerns(e, beerId, kind, subject) then 1 else 0
  {
    assert (log + [e])[..|log|] == log;
  }

  lemma {:induction false} CountSurviving(log: seq<Event>, beers: set<string>, beerId: string, kind: Kind,
      subject: Option<string>)
    requires beerId in beers
    ensures Count(Surviving(log, beers), beerId, kind, subject) == Count(log, beerId, kind, subject)
  {
    if log != [] {
      var init, last := log[..|log| - 1], log[|log| - 1];
      CountSurviving(init, beers, beerId, kind, subject);
      SurvivingLast(log, beers);
      CountSnoc(Surviving(init, beers), last, beerId, kind, subject);
    }
  }

  /** One request running alone counts for one event of its own kind, on its own beer. */
  lemma CountStep(db: Db, req: Request, beerId: string, kind: Kind, subject: Option<string>)
    requires RunAlone(db, req).Ok? && beerId in RunAlone(db, req).value.beers
    ensures Count(RunAlone(db, req).value.log, beerId, kind, subject) == Count(db.log, beerId, kind, subject) +
            if !req.op.ApprovedDelete? && Concerns(EventOf(req), beerId, kind, subject) then 1 else 0
  {
    RunAloneLog(db, req);
    if req.op.ApprovedDelete? {
      CountSurviving(db.log, db.beers.Keys - {req.op.beerId}, beerId, kind, subject);
    } else {
      CountSnoc(db.log, EventOf(req), beerId, kind, subject);
    }
  }

  /** The comment list of a beer that survives one request. */
  function CommentsAfter(op: Op, comments: seq<Comment>): seq<Comment> {
    match op
    case AddComment(_, c) => comments + [c]
    case DeleteComment(_, id, _) =>
      var i := Position(comments, id);
      if i < |comments| then comments[..i] + comments[i + 1..] else comments
    case LikeComment(_, id, userId, deviceId) =>
      var i := Position(comments, id);
      if i < |comments| then comments[i := Liked(comments[i], Liker(userId, deviceId))] else comments
    case ReplaceBeer(_, beer, _) => beer.comments
    case _ => comments
  }

  /** Whether a request that succeeded names this comment of this list with a fresh liker. */
  lemma CommentsStep(db: Db, req: Request, beerId: string)
    requires RunAlone(db, req).Ok? && beerId in RunAlone(db, req).value.beers
    requires req.op.CreateBeer? ==> req.op.beerId != beerId
    ensures beerId in db.beers
    ensures RunAlone(db, req).value.beers[beerId].comments ==
            if req.op.beerId == beerId then CommentsAfter(req.op, db.beers[beerId].comments)
            else db.beers[beerId].comments
    ensures req.op.beerId == beerId && req.op.DeleteComment? ==>
              Position(db.beers[beerId].comments, req.op.commentId) < |db.beers[beerId].comments|
    ensures req.op.beerId == beerId && req.op.LikeComment? ==>
              var i := Position(db.beers[beerId].comments, req.op.commentId);
              && i < |db.beers[beerId].comments|
              && Liker(req.op.userId, req.op.deviceId) !in db.beers[beerId].comments[i].likedBy
  {
    if req.op.ReadsRow() && req.op.beerId == beerId {
      EditFrame(req.op, db.beers[beerId], req.at);
    }
  }

  /** No request of this history replaces the whole row of this beer. */
  ghost predicate Unreplaced(history: seq<Commit>, beerId: string) {
    forall i :: 0 <= i < |history| && history[i].req.op.beerId == beerId ==> !history[i].req.op.ReplaceBeer?
  }

  /** The last request of a history that ends with a first beer alive found it alive, and did
      neither create nor replace it. */
  lemma LastKeeps(db0: Db, history: seq<Commit>, beerId: string)
    requires history != [] && Replay(db0, history).Ok? && beerId in Replay(db0, history).value.beers
    requires beerId in db0.beers && FreshBeers(db0.beers.Keys, history) && Unreplaced(history, beerId)
    ensures var init, req := history[..|history| - 1], history[|history| - 1].req;
            && Replay(db0, init).Ok? && RunAlone(Replay(db0, init).value, req) == Replay(db0, history)
            && beerId in Replay(db0, init).value.beers
            && FreshBeers(db0.beers.Keys, init) && Unreplaced(init, beerId)
            && (req.op.beerId == beerId ==> !req.op.CreateBeer? && !req.op.ReplaceBeer?)
  {
    var init, req := history[..|history| - 1], history[|history| - 1].req;
    KnownGrows(db0.beers.Keys, init);
    CommentsStep(Replay(db0, init).value, req, beerId);
  }

  // ---------------------------------------------------------------------------
  // Rows are folds of the committed operations on them.

  /** The committed operations on one beer, applied to its comment list in commit order. */
  function CommentsFolded(first: seq<Comment>, history: seq<Commit>, beerId: string): seq<Comment> {
    if history == [] then first
    else
      var earlier, op := CommentsFolded(first, history[..|history| - 1], beerId), history[|history| - 1].req.op;
      if op.beerId == beerId then CommentsAfter(op, earlier) else earlier
  }

  /** The media items committed for one beer, in commit order. */
  function MediaFolded(first: seq<MediaItem>, history: seq<Commit>, beerId: string): seq<MediaItem> {
    if history == [] then first
    else
      var earlier, op := MediaFolded(first, history[..|history| - 1], beerId), history[|history| - 1].req.op;
      if op.AddMedia? && op.beerId == beerId then earlier + [op.item] else earlier
  }

  /** No update is lost: a live row is the first row with its comment list and media list folded
      over the committed operations, and otherwise differs only in a once empty image address
      and in its update stamp. */
  lemma {:induction false} RowsAreFolds(db0: Db, history: seq<Commit>, beerId: string)
    requires Replay(db0, history).Ok? && beerId in Replay(db0, history).value.beers
    requires beerId in db0.beers && FreshBeers(db0.beers.Keys, history) && Unreplaced(history, beerId)
    ensures var first, now := db0.beers[beerId], Replay(db0, history).value.beers[beerId];
            && now == first.(comments := CommentsFolded(first.comments, history, beerId),
                             media := MediaFolded(first.media, history, beerId),
                             imageUrl := now.imageUrl, updatedAt := now.updatedAt)
            && (first.imageUrl != "" ==> now.imageUrl == first.imageUrl)
  {
    if history != [] {
      var init, req := history[..|history| - 1], history[|history| - 1].req;
      var before := Replay(db0, init).value;
      LastKeeps(db0, history, beerId);
      CommentsStep(before, req, beerId);
      RowsAreFolds(db0, init, beerId);
      if req.op.ReadsRow() && req.op.beerId == beerId {
        EditFrame(req.op, before.beers[beerId], req.at);
      }
    }
  }

  // ---------------------------------------------------------------------------
  // Conservation.

  /** How many more events of this kind the second log has for the beer. */
  function Logged(db0: Db, db: Db, beerId: string, kind: Kind): int {
    Count(db.log, beerId, kind, None) - Count(db0.log, beerId, kind, None)
  }

  /** Every live beer has its first comments, plus those the log says were added, less those
      the log says were deleted. */
  lemma {:induction false} CommentsConserved(db0: Db, history: seq<Commit>, beerId: string)
    requires Replay(db0, history).Ok? && beerId in Replay(db0, history).value.beers
    requires beerId in db0.beers && FreshBeers(db0.beers.Keys, history) && Unreplaced(history, beerId)
    ensures var db := Replay(db0, history).value;
            |db.beers[beerId].comments| + Logged(db0, db, beerId, CommentDeleted) ==
            |db0.beers[beerId].comments| + Logged(db0, db, beerId, CommentAdded)
  {
    if history != [] {
      var before, req := Replay(db0, history[..|history| - 1]).value, history[|history| - 1].req;
      LastKeeps(db0, history, beerId);
      CommentsStep(before, req, beerId);
      CommentsConserved(db0, history[..|history| - 1], beerId);
      CountStep(before, req, beerId, CommentDeleted, None);
      CountStep(before, req, beerId, CommentAdded, None);
    }
  }

  // ---------------------------------------------------------------------------
  // Likes.

  /** The comment with this id as it first appeared: in the first table or in an add. */
  function Original(first: seq<Comment>, history: seq<Commit>, beerId: string, id: string): (r: Option<Comment>)
    ensures r.Some? ==> r.value.id == id
  {
    if history == [] then
      var i := Position(first, id);
      if i < |first| then Some(first[i]) else None
    else
      var earlier := Original(first, history[..|history| - 1], beerId, id);
      var op := history[|history| - 1].req.op;
      if earlier.Some? then earlier
      else if op.AddComment? && op.beerId == beerId && op.comment.id == id then Some(op.comment)
      else None
  }

  ghost predicate DistinctIds(comments: seq<Comment>) {
    forall i, j :: 0 <= i < j < |comments| ==> comments[i].id != comments[j].id
  }

  /** No added comment reuses an id the beer has had. */
  ghost predicate FreshIds(first: seq<Comment>, history: seq<Commit>, beerId: string) {
    if history == [] then DistinctIds(first)
    else
      var op := history[|history| - 1].req.op;
      && FreshIds(first, history[..|history| - 1], beerId)
      && (op.AddComment? && op.beerId == beerId ==>
            Original(first, history[..|history| - 1], beerId, op.comment.id).None?)
  }

  /** `now` is `then` after `n` likes: its counter and its list of likers grew by `n`, the new
      likers are different from each other and from the old ones, and nothing else changed. */
  ghost predicate Grown(before: Comment, now: Comment, n: int) {
    && now == before.(likes := now.likes, likedBy := now.likedBy)
    && now.likes == before.likes + n
    && |now.likedBy| == |before.likedBy| + n
    && before.likedBy <= now.likedBy
    && (forall i, j :: 0 <= i < j < |now.likedBy| && |before.likedBy| <= j ==> now.likedBy[i] != now.likedBy[j])
  }

  function LikesLogged(db0: Db, db: Db, beerId: string, id: string): int {
    Count(db.log, beerId, CommentLiked, Some(id)) - Count(db0.log, beerId, CommentLiked, Some(id))
  }

  /** Every comment of the list is its original grown by the likes logged for its id, ids are
      distinct, and nothing is logged for an id the beer never had. */
  ghost predicate Agree(original: string -> Option<Comment>, now: seq<Comment>, likes: string -> int) {
    && DistinctIds(now)
    && (forall i :: 0 <= i < |now| ==>
          original(now[i].id).Some? && Grown(original(now[i].id).value, now[i], likes(now[i].id)))
    && (forall id :: original(id).None? ==> likes(id) == 0)
  }

  ghost predicate LikesAgree(db0: Db, history: seq<Commit>, db: Db, beerId: string)
    requires beerId in db0.beers && beerId in db.beers
  {
    Agree(id => Original(db0.beers[beerId].comments, history, beerId, id), db.beers[beerId].comments,
          id => LikesLogged(db0, db, beerId, id))
  }

  lemma LikeGrows(before: Comment, now: Comment, n: int, liker: string)
    requires Grown(before, now, n) && liker !in now.likedBy
    ensures Grown(before, Liked(now, liker), n + 1)
  {
  }

  lemma FirstIsOriginal(first: seq<Comment>, beerId: string, i: nat)
    requires DistinctIds(first) && i < |first|
    ensures Original(first, [], beerId, first[i].id) == Some(first[i])
  {
    PositionUnique(first, first[i].id, i);
  }

  lemma AgreeAdd(original: string -> Option<Comment>, original': string -> Option<Comment>, now: seq<Comment>,
                 likes: string -> int, likes': string -> int, c: Comment)
    requires Agree(original, now, likes) && original(c.id).None?
    requires forall id :: original'(id) == if id == c.id then Some(c) else original(id)
    requires forall id :: likes'(id) == likes(id)
    ensures Agree(original', now + [c], likes')
  {
    assert forall i :: 0 <= i < |now| ==> now[i].id != c.id;
    assert Grown(c, c, 0);
  }

  lemma AgreeDelete(original: string -> Option<Comment>, original': string -> Option<Comment>, now: seq<Comment>,
                    likes: string -> int, likes': string -> int, p: nat)
    requires Agree(original, now, likes) && p < |now|
    requires forall id :: original'(id) == original(id) && likes'(id) == likes(id)
    ensures Agree(original', now[..p] + now[p + 1..], likes')
  {
  }

  lemma AgreeLike(original: string -> Option<Comment>, original': string -> Option<Comment>, now: seq<Comment>,
                  likes: string -> int, likes': string -> int, p: nat, liker: string)
    requires Agree(original, now, likes) && p < |now| && liker !in now[p].likedBy
    requires forall id :: original'(id) == original(id)
    requires forall id :: likes'(id) == likes(id) + if id == now[p].id then 1 else 0
    ensures Agree(original', now[p := Liked(now[p], liker)], likes')
  {
    LikeGrows(original(now[p].id).value, now[p], likes(now[p].id), liker);
    assert forall i :: 0 <= i < |now| && i != p ==> now[i].id != now[p].id;
  }

  lemma LikesLoggedStep(db0: Db, before: Db, req: Request, beerId: string)
    requires RunAlone(before, req).Ok? && beerId in RunAlone(before, req).value.beers
    ensures forall id :: LikesLogged(db0, RunAlone(before, req).value, beerId, id) ==
              LikesLogged(db0, before, beerId, id) +
              if req.op.LikeComment? && req.op.beerId == beerId && req.op.commentId == id then 1 else 0
  {
    forall id
      ensures LikesLogged(db0, RunAlone(before, req).value, beerId, id) == LikesLogged(db0, before, beerId, id) +
              if req.op.LikeComment? && req.op.beerId == beerId && req.op.commentId == id then 1 else 0
    {
      CountStep(before, req, beerId, CommentLiked, Some(id));
    }
  }

  lemma AgreeSame(original: string -> Option<Comment>, original': string -> Option<Comment>, now: seq<Comment>,
                  likes: string -> int, likes': string -> int)
    requires Agree(original, now, likes)
    requires forall id :: original'(id) == original(id) && likes'(id) == likes(id)
    ensures Agree(original', now, likes')
  {
  }

  /** One successful request on the beer keeps its comments in agreement with their likes. */
  lemma AgreeStep(original: string -> Option<Comment>, original': string -> Option<Comment>, op: Op, was: seq<Comment>,
                  likes: string -> int, likes': string -> int)
    requires Agree(original, was, likes)
    requires !op.ReplaceBeer? && (op.AddComment? ==> original(op.comment.id).None?)
    requires forall id :: original'(id) ==
                          if op.AddComment? && id == op.comment.id then Some(op.comment) else original(id)
    requires forall id :: likes'(id) == likes(id) + if op.LikeComment? && op.commentId == id then 1 else 0
    requires op.DeleteComment? ==> Position(was, op.commentId) < |was|
    requires op.LikeComment? ==>
               Position(was, op.commentId) < |was| &&
               Liker(op.userId, op.deviceId) !in was[Position(was, op.commentId)].likedBy
    ensures Agree(original', CommentsAfter(op, was), likes')
  {
    if op.AddComment? {
      AgreeAdd(original, original', was, likes, likes', op.comment);
    } else if op.DeleteComment? {
      AgreeDelete(original, original', was, likes, likes', Position(was, op.commentId));
    } else if op.LikeComment? {
      AgreeLike(original, original', was, likes, likes', Position(was, op.commentId), Liker(op.userId, op.deviceId));
    } else {
      AgreeSame(original, original', was, likes, likes');
    }
  }

  lemma LikesStart(db0: Db, beerId: string)
    requires beerId in db0.beers && DistinctIds(db0.beers[beerId].comments)
    ensures LikesAgree(db0, [], db0, beerId)
  {
    var first := db0.beers[beerId].comments;
    forall i | 0 <= i < |first|
      ensures Original(first, [], beerId, first[i].id) == Some(first[i])
    {
      FirstIsOriginal(first, beerId, i);
    }
  }

  lemma LikesStep(db0: Db, history: seq<Commit>, before: Db, db: Db, beerId: string)
    requires history != [] && beerId in db0.beers && beerId in before.beers && beerId in db.beers
    requires RunAlone(before, history[|history| - 1].req) == Ok(db)
    requires var op := history[|history| - 1].req.op; op.beerId == beerId ==> !op.CreateBeer? && !op.ReplaceBeer?
    requires FreshIds(db0.beers[beerId].comments, history, beerId)
    requires LikesAgree(db0, history[..|history| - 1], before, beerId)
    ensures LikesAgree(db0, history, db, beerId)
  {
    var req := history[|history| - 1].req;
    CommentsStep(before, req, beerId);
    LikesLoggedStep(db0, before, req, beerId);
    var first, was := db0.beers[beerId].comments, before.beers[beerId].comments;
    var original := id => Original(first, history[..|history| - 1], beerId, id);
    var original' := id => Original(first, history, beerId, id);
    var likes, likes' := id => LikesLogged(db0, before, beerId, id), id => LikesLogged(db0, db, beerId, id);
    if req.op.beerId == beerId {
      AgreeStep(original, original', req.op, was, likes, likes');
    } else {
      AgreeSame(original, original', was, likes, likes');
    }
  }

  /** For every comment now on a live beer whose ids were never reused: its like counter and its
      list of likers have grown by exactly the number of like events logged for it. */
  lemma {:induction false} LikesConserved(db0: Db, history: seq<Commit>, beerId: string)
    requires Replay(db0, history).Ok? && beerId in Replay(db0, history).value.beers
    requires beerId in db0.beers && FreshBeers(db0.beers.Keys, history) && Unreplaced(history, beerId)
    requires FreshIds(db0.beers[beerId].comments, history, beerId)
    ensures LikesAgree(db0, history, Replay(db0, history).value, beerId)
  {
    if history == [] {
      LikesStart(db0, beerId);
    } else {
      var init, req := history[..|history| - 1], history[|history| - 1].req;
      var before := Replay(db0, init).value;
      LastKeeps(db0, history, beerId);
      LikesConserved(db0, init, beerId);
      LikesStep(db0, history, before, Replay(db0, history).value, beerId);
    }
  }

  /** A created beer is like a first one from its creation on: the rest of the history replays
      from the table it was inserted in, whose event table holds of it just that event. */
  lemma FromCreation(db0: Db, earlier: seq<Commit>, c: Commit, later: seq<Commit>)
    requires var history := earlier + [c] + later;
             ForeignKeysHold(db0) && Replay(db0, history).Ok? && FreshBeers(db0.beers.Keys, history)
    requires c.req.op.CreateBeer?
    ensures Replay(db0, earlier + [c]).Ok?
    ensures var db := Replay(db0, earlier + [c]).value;
            && c.req.op.beerId in db.beers && db.beers[c.req.op.beerId] == Inserted(c.req.op.beer, c.req.at)
            && (forall e :: e in db.log && e.beerId == c.req.op.beerId ==> e == EventOf(c.req))
            && ForeignKeysHold(db) && FreshBeers(db.beers.Keys, later)
            && Replay(db, later) == Replay(db0, earlier + [c] + later)
  {
    var first := earlier + [c];
    ReplaySplit(db0, first, later);
    FreshPrefix(db0.beers.Keys, first, later);
    LogIsHistory(db0, first);
    AllKnown(db0, first);
    FreshSuffix(db0.beers.Keys, Replay(db0, first).value.beers.Keys, first, later);
    assert first[..|earlier|] == earlier;
    FreshPrefix(db0.beers.Keys, earlier, [c]);
    LogIsHistory(db0, earlier);
    RunAloneLog(Replay(db0, earlier).value, c.req);
  }

  lemma {:induction false} ReplaySplit(db0: Db, earlier: seq<Commit>, later: seq<Commit>)
    requires Replay(db0, earlier + later).Ok?
    ensures Replay(db0, earlier).Ok? && Replay(Replay(db0, earlier).value, later) == Replay(db0, earlier + later)
  {
    if later == [] {
      assert earlier + later == earlier;
    } else {
      assert (earlier + later)[..|earlier + later| - 1] == earlier + later[..|later| - 1];
      ReplaySplit(db0, earlier, later[..|later| - 1]);
    }
  }

  lemma {:induction false} FreshPrefix(first: set<string>, earlier: seq<Commit>, later: seq<Commit>)
    requires FreshBeers(first, earlier + later)
    ensures FreshBeers(first, earlier)
  {
    if later == [] {
      assert earlier + later == earlier;
    } else {
      assert (earlier + later)[..|earlier + later| - 1] == earlier + later[..|later| - 1];
      FreshPrefix(first, earlier, later[..|later| - 1]);
    }
  }

  lemma {:induction false} FreshSuffix(first: set<string>, start: set<string>, earlier: seq<Commit>, later: seq<Commit>)
    requires FreshBeers(first, earlier + later) && start <= Known(first, earlier)
    ensures FreshBeers(start, later) && Known(start, later) <= Known(first, earlier + later)
  {
    if later == [] {
      assert earlier + later == earlier;
    } else {
      assert (earlier + later)[..|earlier + later| - 1] == earlier + later[..|later| - 1];
      FreshSuffix(first, start, earlier, later[..|later| - 1]);
    }
  }

  /** The same, for the tables any interleaved run ends with. */
  lemma InterleavedAccounting(db0: Db, run: seq<Action>, beerId: string)
    requires ForeignKeysHold(db0) && After(db0, run).Some? && beerId in After(db0, run).value.db.beers
    requires beerId in db0.beers && Unreplaced(After(db0, run).value.history, beerId)
    ensures var s := After(db0, run).value;
            && s.db.log == Surviving(db0.log + EventsOf(s.history), s.db.beers.Keys)
            && s.db.beers[beerId] == db0.beers[beerId].(
                 comments := CommentsFolded(db0.beers[beerId].comments, s.history, beerId),
                 media := MediaFolded(db0.beers[beerId].media, s.history, beerId),
                 imageUrl := s.db.beers[beerId].imageUrl, updatedAt := s.db.beers[beerId].updatedAt)
            && (db0.beers[beerId].imageUrl != "" ==> s.db.beers[beerId].imageUrl == db0.beers[beerId].imageUrl)
            && |s.db.beers[beerId].comments| + Logged(db0, s.db, beerId, CommentDeleted) ==
               |db0.beers[beerId].comments| + Logged(db0, s.db, beerId, CommentAdded)
            && (FreshIds(db0.beers[beerId].comments, s.history, beerId) ==> LikesAgree(db0, s.history, s.db, beerId))
  {
    Serialisable(db0, run);
    var s := After(db0, run).value;
    LogIsHistory(db0, s.history);
    RowsAreFolds(db0, s.history, beerId);
    CommentsConserved(db0, s.history, beerId);
    if FreshIds(db0.beers[beerId].comments, s.history, beerId) {
      LikesConserved(db0, s.history, beerId);
    }
  }
}
