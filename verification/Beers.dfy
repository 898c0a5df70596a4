/**
 A beer row, the edits a transaction makes to the row it has read, and the
 statement that writes the edited row back.
 */
module Beers {
  import opened Wrappers

  datatype Comment = Comment(
    id: string, text: string, rating: int, likes: int, likedBy: seq<string>,
    createdBy: string, createdAt: string, purchaseLocation: Option<string>, purchaseMapUrl: Option<string>)

  datatype MediaItem = MediaItem(url: string, kind: string, size: int)

  datatype Beer = Beer(
    name: string, style: string, description: string, imageUrl: string, alcohol: Option<real>,
    taste: string, aroma: string, color: string, body: string, carbonation: string, finish: string,
    comments: seq<Comment>, createdBy: string, createdAt: string, updatedAt: string,
    media: seq<MediaItem>, purchaseLocation: Option<string>, purchaseMapUrl: Option<string>)

  datatype Caller = Caller(isAdmin: bool, userId: Option<string>)

  /** The operations that reach the beers table inside a transaction. `ReplaceBeer` writes the
      whole row it is given. `CatalogDelete` is the administrator's delete, which also records an
      event; `ApprovedDelete` is the delete a moderation approval performs, which does not. */
  datatype Op =
    | AddComment(beerId: string, comment: Comment)
    | DeleteComment(beerId: string, commentId: string, caller: Caller)
    | LikeComment(beerId: string, commentId: string, userId: string, deviceId: string)
    | AddMedia(beerId: string, item: MediaItem, caller: Caller)
    | CreateBeer(beerId: string, beer: Beer)
    | ReplaceBeer(beerId: string, beer: Beer, caller: Caller)
    | CatalogDelete(beerId: string, caller: Caller)
    | ApprovedDelete(beerId: string)
  {
    predicate Removes() { CatalogDelete? || ApprovedDelete? }

    /** Authorised against a row read before the transaction starts. */
    predicate ChecksFirst() { AddMedia? || ReplaceBeer? || CatalogDelete? }

    /** Reads the row under a lock and writes back an edited copy. */
    predicate ReadsRow() { AddComment? || DeleteComment? || LikeComment? || AddMedia? }

    predicate Updates() { ReadsRow() || ReplaceBeer? }
  }

  datatype Error =
    | BeerNotFound | BeerExists | CommentNotFound | AdminOnly | NotOwner | AlreadyLiked | ForeignKeyViolation

  predicate CanModify(caller: Caller, ownerId: string) {
    caller.isAdmin || (ownerId != "" && caller.userId == Some(ownerId))
  }

  function Liker(userId: string, deviceId: string): string {
    if userId != "" then "u:" + userId else deviceId
  }

  /** Position of the first comment with this id; the length of the list if there is none. */
  function Position(comments: seq<Comment>, id: string): (i: nat)
    ensures i <= |comments|
    ensures i < |comments| ==> comments[i].id == id
    ensures forall j :: 0 <= j < i ==> comments[j].id != id
  {
    if comments == [] || comments[0].id == id then 0 else 1 + Position(comments[1..], id)
  }

  lemma PositionUnique(comments: seq<Comment>, id: string, i: nat)
    requires i <= |comments|
    requires i < |comments| ==> comments[i].id == id
    requires forall j :: 0 <= j < i ==> comments[j].id != id
    ensures Position(comments, id) == i
  {
  }

  /** The comment the scanning loops stop at. */
  predicate IsFirst(comments: seq<Comment>, id: string, i: nat) {
    i < |comments| && comments[i].id == id && forall j :: 0 <= j < i ==> comments[j].id != id
  }

  lemma FirstIsPosition(comments: seq<Comment>, id: string)
    ensures Position(comments, id) < |comments| ==> IsFirst(comments, id, Position(comments, id))
    ensures forall i: nat :: IsFirst(comments, id, i) ==> i == Position(comments, id)
    ensures (exists c :: c in comments && c.id == id) <==> Position(comments, id) < |comments|
  {
    forall i: nat | IsFirst(comments, id, i) ensures i == Position(comments, id) {
      PositionUnique(comments, id, i);
    }
  }

  function Liked(c: Comment, liker: string): Comment {
    c.(likes := c.likes + 1, likedBy := c.likedBy + [liker])
  }

  /** What one edit makes of the row it was given, or the error it answers. */
  function Edit(op: Op, beer: Beer): Result<Beer, Error>
    requires op.Updates()
  {
    match op
    case AddComment(_, c) => Ok(beer.(comments := beer.comments + [c]))
    case DeleteComment(_, id, caller) =>
      var i := Position(beer.comments, id);
      if i == |beer.comments| then Err(CommentNotFound)
      else if !caller.isAdmin then Err(AdminOnly)
      else Ok(beer.(comments := beer.comments[..i] + beer.comments[i + 1..]))
    case LikeComment(_, id, userId, deviceId) =>
      var i := Position(beer.comments, id);
      var liker := Liker(userId, deviceId);
      if i == |beer.comments| then Err(CommentNotFound)
      else if liker in beer.comments[i].likedBy then Err(AlreadyLiked)
      else Ok(beer.(comments := beer.comments[i := Liked(beer.comments[i], liker)]))
    case AddMedia(_, item, _) =>
      Ok(beer.(media := beer.media + [item], imageUrl := if beer.imageUrl == "" then item.url else beer.imageUrl))
    case ReplaceBeer(_, draft, _) => Ok(draft)
  }

  /** The UPDATE statement over the stored row: some columns are not written, an empty image
      address keeps the stored one, and a trigger stamps the row. */
  function Stored(row: Beer, draft: Beer, now: string): Beer {
    draft.(
      description := row.description, createdBy := row.createdBy, createdAt := row.createdAt,
      imageUrl := if draft.imageUrl == "" then row.imageUrl else draft.imageUrl,
      updatedAt := now)
  }

  /** The INSERT statement: the media list and the stamp take their defaults. */
  function Inserted(beer: Beer, now: string): Beer {
    beer.(media := [], updatedAt := now)
  }

  /** A committed edit touches nothing but the comment list, or the media list and a still empty
      image address, and the update stamp. */
  lemma EditFrame(op: Op, row: Beer, now: string)
    requires op.ReadsRow() && Edit(op, row).Ok?
    ensures var after := Stored(row, Edit(op, row).value, now);
            if op.AddMedia?
            then after == row.(media := row.media + [op.item], updatedAt := now,
                               imageUrl := if row.imageUrl == "" then op.item.url else row.imageUrl)
            else after == row.(comments := after.comments, updatedAt := now)
  {
    var after := Stored(row, Edit(op, row).value, now);
    if op.AddMedia? && row.imageUrl == "" && op.item.url == "" {
      assert after.imageUrl == "";
    }
  }

  /** The row value a transaction function holds and edits in place. */
  class Draft {
    var beer: Beer

    constructor (read: Beer)
      ensures beer == read
    {
      beer := read;
    }

    method AddComment(c: Comment)
      modifies this
      ensures beer == old(beer).(comments := old(beer).comments + [c])
      ensures forall id :: Edit(Op.AddComment(id, c), old(beer)) == Ok(beer)
    {
      beer := beer.(comments := beer.comments + [c]);
    }

    method DeleteComment(commentId: string, caller: Caller) returns (err: Option<Error>)
      modifies this
      ensures err == Some(CommentNotFound) <==> !exists c :: c in old(beer).comments && c.id == commentId
      ensures err == Some(AdminOnly) <==> !caller.isAdmin && exists c :: c in old(beer).comments && c.id == commentId
      ensures err.None? <==> caller.isAdmin && exists c :: c in old(beer).comments && c.id == commentId
      ensures err.None? ==>
                exists i: nat :: IsFirst(old(beer).comments, commentId, i) &&
                  beer == old(beer).(comments := old(beer).comments[..i] + old(beer).comments[i + 1..])
      ensures forall id :: Edit(Op.DeleteComment(id, commentId, caller), old(beer)) ==
                           if err.Some? then Err(err.value) else Ok(beer)
    {
      var found := false;
      var i := 0;
      while i < |beer.comments| && !found
        invariant i <= |beer.comments| <= |old(beer).comments|
        invariant !found ==> beer == old(beer)
        invariant forall j :: 0 <= j < i ==> old(beer).comments[j].id != commentId
        invariant found ==> i < |old(beer).comments| && old(beer).comments[i].id == commentId
        invariant found ==> beer == old(beer).(comments := old(beer).comments[..i] + old(beer).comments[i + 1..])
        decreases !found, |beer.comments| - i
      {
        if beer.comments[i].id == commentId {
          beer := beer.(comments := beer.comments[..i] + beer.comments[i + 1..]);
          found := true;
        } else {
          i := i + 1;
        }
      }
      PositionUnique(old(beer).comments, commentId, i);
      FirstIsPosition(old(beer).comments, commentId);
      if !found {
        return Some(CommentNotFound);
      }
      if !caller.isAdmin {
        return Some(AdminOnly);
      }
      return None;
    }

    method LikeComment(commentId: string, userId: string, deviceId: string) returns (err: Option<Error>)
      modifies this
      ensures var liker := if userId != "" then "u:" + userId else deviceId;
              var comments := old(beer).comments;
              var i := Position(comments, commentId);
              && (err == Some(CommentNotFound) <==> i == |comments|)
              && (err == Some(AlreadyLiked) <==> i < |comments| && liker in comments[i].likedBy)
              && (err.None? <==> i < |comments| && liker !in comments[i].likedBy)
              && (err.None? ==>
                    var c := comments[i];
                    beer == old(beer).(comments := comments[
                      i := c.(likes := c.likes + 1, likedBy := c.likedBy + [liker])]))
      ensures err.Some? ==> beer == old(beer)
      ensures forall id :: Edit(Op.LikeComment(id, commentId, userId, deviceId), old(beer)) ==
                           if err.Some? then Err(err.value) else Ok(beer)
    {
      var liker := deviceId;
      if userId != "" {
        liker := "u:" + userId;
      }
      var i := 0;
      while i < |beer.comments|
        invariant i <= |beer.comments| && beer == old(beer)
        invariant forall j :: 0 <= j < i ==> beer.comments[j].id != commentId
      {
        var comment := beer.comments[i];
        if comment.id == commentId {
          PositionUnique(beer.comments, commentId, i);
          var k := 0;
          while k < |comment.likedBy|
            invariant k <= |comment.likedBy| && beer == old(beer)
            invariant forall j :: 0 <= j < k ==> comment.likedBy[j] != liker
          {
            if comment.likedBy[k] == liker {
              return Some(AlreadyLiked);
            }
            k := k + 1;
          }
          var c := beer.comments[i].(likes := beer.comments[i].likes + 1);
          beer := beer.(comments := beer.comments[i := c]);
          c := beer.comments[i].(likedBy := beer.comments[i].likedBy + [liker]);
          beer := beer.(comments := beer.comments[i := c]);
          assert beer.comments == old(beer).comments[i := Liked(old(beer).comments[i], liker)];
          return None;
        }
        i := i + 1;
      }
      PositionUnique(beer.comments, commentId, i);
      return Some(CommentNotFound);
    }

    method AddMedia(item: MediaItem)
      modifies this
      ensures beer == old(beer).(media := old(beer).media + [item], imageUrl := beer.imageUrl)
      ensures beer.imageUrl == if old(beer).imageUrl == "" then item.url else old(beer).imageUrl
      ensures forall id, caller :: Edit(Op.AddMedia(id, item, caller), old(beer)) == Ok(beer)
    {
      beer := beer.(media := beer.media + [item]);
      if beer.imageUrl == "" {
        beer := beer.(imageUrl := item.url);
      }
    }
  }
}
