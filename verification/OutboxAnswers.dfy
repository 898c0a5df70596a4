/** What each operation answers on its own and what it makes of the tables, operation by operation,
    with every permission and every written column spelled out; and what that means for histories. */
module OutboxAnswers {
  import opened Wrappers
  import opened Beers
  import opened Outbox
  import opened OutboxAccounting

  /** One row changes and one event is appended. */
  predicate Changes(db: Db, after: Db, id: string, row: Beer, e: Event) {
    after == Db(db.beers[id := row], db.log + [e])
  }

  lemma AddCommentAnswers(db: Db, req: Request)
    requires req.op.AddComment?
    ensures var op, r := req.op, RunAlone(db, req);
            && (op.beerId !in db.beers ==> r == Err(BeerNotFound))
            && (op.beerId in db.beers ==>
                  var row := db.beers[op.beerId];
                  r.Ok? && Changes(db, r.value, op.beerId,
                                   row.(comments := row.comments + [op.comment], updatedAt := req.at),
                                   Event(req.eventId, op.beerId, CommentAdded, op.comment.id, req.timestamp)))
  {
    if req.op.beerId in db.beers {
      EditFrame(req.op, db.beers[req.op.beerId], req.at);
    }
  }

  lemma DeleteCommentAnswers(db: Db, req: Request)
    requires req.op.DeleteComment?
    ensures var op, r := req.op, RunAlone(db, req);
            && (op.beerId !in db.beers ==> r == Err(BeerNotFound))
            && (op.beerId in db.beers ==>
                  var row := db.beers[op.beerId];
                  var there := exists c :: c in row.comments && c.id == op.commentId;
                  && (r == Err(CommentNotFound) <==> !there)
                  && (r == Err(AdminOnly) <==> there && !op.caller.isAdmin)
                  && (r.Ok? <==> there && op.caller.isAdmin)
                  && (r.Ok? ==>
                        exists i: nat :: IsFirst(row.comments, op.commentId, i) &&
                          Changes(db, r.value, op.beerId,
                                  row.(comments := row.comments[..i] + row.comments[i + 1..], updatedAt := req.at),
                                  Event(req.eventId, op.beerId, CommentDeleted, op.commentId, req.timestamp))))
  {
    if req.op.beerId in db.beers {
      var row := db.beers[req.op.beerId];
      FirstIsPosition(row.comments, req.op.commentId);
      if RunAlone(db, req).Ok? {
        EditFrame(req.op, row, req.at);
        assert IsFirst(row.comments, req.op.commentId, Position(row.comments, req.op.commentId));
      }
    }
  }

  lemma LikeCommentAnswers(db: Db, req: Request)
    requires req.op.LikeComment?
    ensures var op, r := req.op, RunAlone(db, req);
            var liker := if op.userId != "" then "u:" + op.userId else op.deviceId;
            && (op.beerId !in db.beers ==> r == Err(BeerNotFound))
            && (op.beerId in db.beers ==>
                  var row := db.beers[op.beerId];
                  var i := Position(row.comments, op.commentId);
                  && (r == Err(CommentNotFound) <==> i == |row.comments|)
                  && (r == Err(AlreadyLiked) <==> i < |row.comments| && liker in row.comments[i].likedBy)
                  && (r.Ok? <==> i < |row.comments| && liker !in row.comments[i].likedBy)
                  && (r.Ok? ==>
                        var c := row.comments[i];
                        var liked := c.(likes := c.likes + 1, likedBy := c.likedBy + [liker]);
                        Changes(db, r.value, op.beerId,
                                row.(comments := row.comments[i := liked], updatedAt := req.at),
                                Event(req.eventId, op.beerId, CommentLiked, op.commentId, req.timestamp))))
  {
    if req.op.beerId in db.beers && RunAlone(db, req).Ok? {
      EditFrame(req.op, db.beers[req.op.beerId], req.at);
    }
  }

  lemma AddMediaAnswers(db: Db, req: Request)
    requires req.op.AddMedia?
    ensures var op, r := req.op, RunAlone(db, req);
            && (op.beerId !in db.beers ==> r == Err(BeerNotFound))
            && (op.beerId in db.beers ==>
                  var row := db.beers[op.beerId];
                  var owner := row.createdBy;
                  var allowed := op.caller.isAdmin || (owner != "" && op.caller.userId == Some(owner));
                  && (!allowed <==> r == Err(NotOwner))
                  && (allowed <==> r.Ok?)
                  && (r.Ok? ==>
                        Changes(db, r.value, op.beerId,
                                row.(media := row.media + [op.item], updatedAt := req.at,
                                     imageUrl := if row.imageUrl == "" then op.item.url else row.imageUrl),
                                Event(req.eventId, op.beerId, MediaAdded, op.item.url, req.timestamp))))
  {
    if req.op.beerId in db.beers {
      EditFrame(req.op, db.beers[req.op.beerId], req.at);
    }
  }

  /** The row after a replacement: every written column is the new one, an empty image address and
      three columns are the old row's. */
  predicate Replaced(row: Beer, beer: Beer, now: Beer, at: string) {
    && now.name == beer.name && now.style == beer.style && now.alcohol == beer.alcohol
    && now.taste == beer.taste && now.aroma == beer.aroma && now.color == beer.color && now.body == beer.body
    && now.carbonation == beer.carbonation && now.finish == beer.finish
    && now.comments == beer.comments && now.media == beer.media
    && now.purchaseLocation == beer.purchaseLocation && now.purchaseMapUrl == beer.purchaseMapUrl
    && now.imageUrl == (if beer.imageUrl == "" then row.imageUrl else beer.imageUrl)
    && now.description == row.description && now.createdBy == row.createdBy && now.createdAt == row.createdAt
    && now.updatedAt == at
  }

  lemma ReplaceBeerAnswers(db: Db, req: Request)
    requires req.op.ReplaceBeer?
    ensures var op, r := req.op, RunAlone(db, req);
            && (op.beerId !in db.beers ==> r == Err(BeerNotFound))
            && (op.beerId in db.beers ==>
                  var row := db.beers[op.beerId];
                  var owner := row.createdBy;
                  var allowed := op.caller.isAdmin || (owner != "" && op.caller.userId == Some(owner));
                  && (!allowed <==> r == Err(NotOwner))
                  && (allowed <==> r.Ok?)
                  && (r.Ok? ==>
                        && op.beerId in r.value.beers && Replaced(row, op.beer, r.value.beers[op.beerId], req.at)
                        && Changes(db, r.value, op.beerId, r.value.beers[op.beerId],
                                   Event(req.eventId, op.beerId, BeerUpdated, op.beer.name, req.timestamp))))
  {
  }

  lemma CreateBeerAnswers(db: Db, req: Request)
    requires req.op.CreateBeer?
    ensures var op, r := req.op, RunAlone(db, req);
            && (op.beerId in db.beers <==> r == Err(BeerExists))
            && (op.beerId !in db.beers <==> r.Ok?)
            && (r.Ok? ==>
                  Changes(db, r.value, op.beerId, op.beer.(media := [], updatedAt := req.at),
                          Event(req.eventId, op.beerId, BeerCreated, op.beer.name, req.timestamp)))
  {
  }

  /** The administrator's delete never succeeds; the delete of an approval needs no caller, and takes
      the row and its events. */
  lemma DeleteAnswers(db: Db, req: Request)
    requires req.op.Removes()
    ensures var op, r := req.op, RunAlone(db, req);
            && (op.beerId !in db.beers ==> r == Err(BeerNotFound))
            && (op.beerId in db.beers && op.CatalogDelete? ==>
                  r == Err(if op.caller.isAdmin then ForeignKeyViolation else AdminOnly))
            && (op.beerId in db.beers && op.ApprovedDelete? ==>
                  && r.Ok? && r.value.beers == db.beers - {op.beerId}
                  && forall e :: e in r.value.log <==> e in db.log && e.beerId in db.beers && e.beerId != op.beerId)
  {
    SurvivingMembers(db.log, db.beers.Keys - {req.op.beerId});
  }

  // ---------------------------------------------------------------------------
  // Over histories.

  lemma {:induction false} PrefixReplays(db0: Db, history: seq<Commit>, i: nat)
    requires i < |history| && Replay(db0, history).Ok?
    ensures Replay(db0, history[..i]).Ok? && RunAlone(Replay(db0, history[..i]).value, history[i].req).Ok?
  {
    var init := history[..|history| - 1];
    if i < |init| {
      PrefixReplays(db0, init, i);
      assert init[..i] == history[..i];
    } else {
      assert history[..i] == init;
    }
  }

  /** Whoever deletes a comment is an administrator, and whoever adds media to a row or replaces it
      is one or is the nonempty creator of the row found. */
  predicate Authorised(op: Op, db: Db) {
    && (op.DeleteComment? ==> op.caller.isAdmin)
    && (op.AddMedia? || op.ReplaceBeer? ==>
          && op.beerId in db.beers
          && (op.caller.isAdmin ||
              (db.beers[op.beerId].createdBy != "" && op.caller.userId == Some(db.beers[op.beerId].createdBy))))
  }

  /** In every interleaved run every committed operation was authorised on the tables it found. */
  lemma CommitsAreAuthorised(db0: Db, run: seq<Action>, i: nat)
    requires After(db0, run).Some? && i < |After(db0, run).value.history|
    ensures var history := After(db0, run).value.history;
            && Replay(db0, history[..i]).Ok?
            && Authorised(history[i].req.op, Replay(db0, history[..i]).value)
  {
    Serialisable(db0, run);
    var history := After(db0, run).value.history;
    PrefixReplays(db0, history, i);
    var before, req := Replay(db0, history[..i]).value, history[i].req;
    if req.op.DeleteComment? {
      DeleteCommentAnswers(before, req);
    } else if req.op.AddMedia? {
      AddMediaAnswers(before, req);
    } else if req.op.ReplaceBeer? {
      ReplaceBeerAnswers(before, req);
    }
  }

  lemma ReplaceCommits(db0: Db, history: seq<Commit>, i: nat)
    requires i < |history| && Replay(db0, history).Ok? && history[i].req.op.ReplaceBeer?
    ensures Replay(db0, history[..i]).Ok? && Replay(db0, history[..i + 1]).Ok?
    ensures var before, after := Replay(db0, history[..i]).value, Replay(db0, history[..i + 1]).value;
            var op := history[i].req.op;
            && op.beerId in before.beers && op.beerId in after.beers
            && Replaced(before.beers[op.beerId], op.beer, after.beers[op.beerId], history[i].req.at)
  {
    PrefixReplays(db0, history, i);
    ReplaceBeerAnswers(Replay(db0, history[..i]).value, history[i].req);
    assert history[..i + 1] == history[..i] + [history[i]];
    ReplaySnoc(db0, history[..i], history[i]);
  }

  /** A committed replacement in any interleaved run writes the columns it is given and keeps the rest. */
  lemma ReplacementsWrite(db0: Db, run: seq<Action>, i: nat)
    requires After(db0, run).Some? && i < |After(db0, run).value.history|
    requires After(db0, run).value.history[i].req.op.ReplaceBeer?
    ensures var history := After(db0, run).value.history;
            && Replay(db0, history[..i]).Ok? && Replay(db0, history[..i + 1]).Ok?
            && var before, after := Replay(db0, history[..i]).value, Replay(db0, history[..i + 1]).value;
            var op := history[i].req.op;
            && op.beerId in before.beers && op.beerId in after.beers
            && Replaced(before.beers[op.beerId], op.beer, after.beers[op.beerId], history[i].req.at)
  {
    Serialisable(db0, run);
    ReplaceCommits(db0, After(db0, run).value.history, i);
  }
}
