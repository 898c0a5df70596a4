/** The usecase calls as the code runs them: read, edit the row in memory, write it back,
    insert the event, commit; any error abandons the working copy. */
module BeerUsecase {
  import opened Wrappers
  import opened Beers
  import opened Outbox

  class Usecase {
    var db: Db

    constructor (db: Db)
      ensures this.db == db
    {
      this.db := db;
    }

    /** The edit and the UPDATE, on the tables of an open transaction. */
    method EditAndWrite(tables: Db, op: Op, at: string) returns (r: Result<Db, Error>)
      requires op.ReadsRow()
      ensures op.beerId !in tables.beers ==> r == Err(BeerNotFound)
      ensures op.beerId in tables.beers ==>
                r == match Edit(op, tables.beers[op.beerId])
                     case Err(e) => Err(e)
                     case Ok(draft) =>
                       Ok(tables.(beers := tables.beers[op.beerId := Stored(tables.beers[op.beerId], draft, at)]))
    {
      if op.beerId !in tables.beers {
        return Err(BeerNotFound);
      }
      var draft := new Draft(tables.beers[op.beerId]);
      var err: Option<Error> := None;
      match op {
        case AddComment(_, c) => draft.AddComment(c);
        case DeleteComment(_, id, caller) => err := draft.DeleteComment(id, caller);
        case LikeComment(_, id, userId, deviceId) => err := draft.LikeComment(id, userId, deviceId);
        case AddMedia(_, item, _) => draft.AddMedia(item);
      }
      if err.Some? {
        return Err(err.value);
      }
      return Ok(tables.(beers := tables.beers[op.beerId := Stored(tables.beers[op.beerId], draft.beer, at)]));
    }

    /** One call with nothing running beside it does what the reference says, or nothing. */
    method Exec(req: Request) returns (err: Option<Error>)
      requires !req.op.ApprovedDelete?
      modifies this
      ensures RunAlone(old(db), req) == if err.Some? then Err(err.value) else Ok(db)
      ensures err.Some? ==> db == old(db)
    {
      var op, id := req.op, req.op.beerId;
      if op.ChecksFirst() {
        if id !in db.beers {
          return Some(BeerNotFound);
        }
        var refusal := Refusal(op, db.beers[id]);
        if refusal.Some? {
          return refusal;
        }
      }
      var tables := db;
      if op.CreateBeer? {
        if id in tables.beers {
          return Some(BeerExists);
        }
        tables := tables.(beers := tables.beers[id := Inserted(op.beer, req.at)]);
      } else if op.ReplaceBeer? {
        tables := tables.(beers := tables.beers[id := Stored(tables.beers[id], op.beer, req.at)]);
      } else if op.CatalogDelete? {
        tables := Cascade(tables, id);
      } else {
        var edited := EditAndWrite(tables, op, req.at);
        if edited.Err? {
          return Some(edited.error);
        }
        tables := edited.value;
      }
      var inserted := InsertEvent(tables, EventOf(req));
      if inserted.Err? {
        return Some(inserted.error);
      }
      db := inserted.value;
      return None;
    }
  }
}
