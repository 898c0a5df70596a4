/**
 Page arithmetic: the slice behind a page number, the Link header that leads from page to
 page, and what a client sees that follows `rel="next"` from the first page.
 */
module Pagination {
  import opened Wrappers

  /** LIMIT and OFFSET of an ordered query. */
  function Slice<T>(rows: seq<T>, offset: nat, limit: nat): seq<T> {
    if offset >= |rows| then [] else if offset + limit >= |rows| then rows[offset..] else rows[offset..offset + limit]
  }

  // ---------------------------------------------------------------------------
  // Two stores: None is an answer that never arrives, an error of the database for a negative
  // limit or offset, or a slice of the in-memory list out of bounds.

  function SqlPage<T>(rows: seq<T>, page: int, pageSize: int): Option<seq<T>> {
    var offset := (page - 1) * pageSize;
    if pageSize >= 0 && offset >= 0 then Some(Slice(rows, offset, pageSize)) else None
  }

  /** `users` are already sorted, newest first. */
  method MemoryPage<T>(users: seq<T>, page: int, pageSize: int) returns (answer: Option<seq<T>>)
    ensures pageSize >= 0 ==> answer == SqlPage(users, page, pageSize)
    ensures pageSize < 0 ==> answer == Some([]) && SqlPage(users, page, pageSize).None?
  {
    var total := |users|;
    var start := (page - 1) * pageSize;
    if start >= total || pageSize <= 0 {
      assert pageSize == 0 ==> Slice(users, start, 0) == [];
      return Some([]);
    }
    var end := start + pageSize;
    if end > total {
      end := total;
    }
    if start < 0 {
      return None;
    }
    assert users[start..total] == users[start..];
    answer := Some(users[start..end]);
  }

  // ---------------------------------------------------------------------------
  // The Link header.

  datatype Rel = Next | Last
  datatype Link = Link(rel: Rel, page: int)

  predicate HasNext(page: int, pageSize: int, total: int) {
    total > 0 && pageSize > 0 && (if page < 1 then 1 else page) * pageSize < total
  }

  lemma Grows(a: int, b: int, size: int)
    requires size > 0 && a <= b
    ensures a * size <= b * size
  {
  }

  lemma Ceiling(total: int, size: int) returns (last: int)
    requires total > 0 && size > 0
    ensures last == (total + size - 1) / size
    ensures (last - 1) * size < total <= last * size
  {
    last := (total + size - 1) / size;
    assert last * size <= total + size - 1 < last * size + size;
  }

  /** A next link exactly while a row remains after the page; the last link names the page of the last row. */
  method SetPaginationLinks(page: int, pageSize: int, total: int) returns (links: seq<Link>)
    ensures !HasNext(page, pageSize, total) ==> links == []
    ensures HasNext(page, pageSize, total) ==>
              && |links| == 2
              && links[0] == Link(Next, (if page < 1 then 1 else page) + 1)
              && links[1].rel == Last
              && (links[1].page - 1) * pageSize < total <= links[1].page * pageSize
  {
    links := [];
    if total <= 0 || pageSize <= 0 {
      return;
    }
    var lastPage := (total + pageSize - 1) / pageSize;
    ghost var last := Ceiling(total, pageSize);
    var page := page;
    if page < 1 {
      page := 1;
    }
    if page >= lastPage {
      Grows(lastPage, page, pageSize);
      return;
    }
    Grows(page, lastPage - 1, pageSize);
    if page < lastPage {
      links := links + [Link(Next, page + 1)];
    }
    if lastPage > 1 {
      links := links + [Link(Last, lastPage)];
    }
  }

  // ---------------------------------------------------------------------------
  // Following rel="next".

  function Offset(page: nat, size: nat): (offset: nat)
    requires page >= 1
  {
    (page - 1) * size
  }

  /** The pages a client visits that starts at `page` and follows the next link while there is one. */
  function Visited(page: nat, size: nat, total: nat): (pages: seq<nat>)
    requires page >= 1 && size >= 1
    ensures |pages| >= 1 && forall i :: 0 <= i < |pages| ==> pages[i] == page + i
    decreases total - page * size
  {
    if HasNext(page, size, total) then [page] + Visited(page + 1, size, total) else [page]
  }

  /** What the client has collected from these pages. */
  function Collected<T>(rows: seq<T>, pages: seq<nat>, size: nat): seq<T>
    requires forall i :: 0 <= i < |pages| ==> pages[i] >= 1
  {
    if pages == [] then [] else Slice(rows, Offset(pages[0], size), size) + Collected(rows, pages[1..], size)
  }

  lemma NextOffset(page: nat, size: nat)
    requires page >= 1
    ensures Offset(page + 1, size) == Offset(page, size) + size && Offset(page + 1, size) == page * size
  {
  }

  lemma SliceThenRest<T>(rows: seq<T>, offset: nat, size: nat)
    requires offset <= |rows|
    ensures offset + size <= |rows| ==> rows[offset..] == Slice(rows, offset, size) + rows[offset + size..]
    ensures offset + size >= |rows| ==> rows[offset..] == Slice(rows, offset, size)
  {
  }

  lemma {:induction false} CollectedFrom<T>(rows: seq<T>, page: nat, size: nat)
    requires page >= 1 && size >= 1 && (Offset(page, size) < |rows| || (page == 1 && rows == []))
    ensures var pages := Visited(page, size, |rows|);
            && Collected(rows, pages, size) == rows[Offset(page, size)..]
            && Offset(page + |pages| - 1, size) <= |rows| <= Offset(page + |pages|, size)
            && (forall i :: 0 <= i < |pages| ==> Offset(pages[i], size) < |rows| || rows == [])
    decreases |rows| - page * size
  {
    NextOffset(page, size);
    SliceThenRest(rows, Offset(page, size), size);
    var pages := Visited(page, size, |rows|);
    if HasNext(page, size, |rows|) {
      var rest := Visited(page + 1, size, |rows|);
      CollectedFrom(rows, page + 1, size);
      assert pages == [page] + rest && pages[1..] == rest;
    } else {
      assert pages == [page] && pages[1..] == [];
      assert Collected(rows, pages[1..], size) == [];
    }
  }

  lemma SamePage(a: int, b: int, size: int, total: int)
    requires size > 0 && (a - 1) * size < total <= a * size && (b - 1) * size < total <= b * size
    ensures a == b
  {
    if a < b {
      Grows(a, b - 1, size);
    } else if b < a {
      Grows(b, a - 1, size);
    }
  }

  lemma PageHasRows<T>(rows: seq<T>, page: nat, size: nat)
    requires page >= 1 && size >= 1 && Offset(page, size) < |rows|
    ensures SqlPage(rows, page, size).Some? && SqlPage(rows, page, size).value != []
  {
    assert Slice(rows, Offset(page, size), size) != [];
  }

  /**
   Following next from page 1 ends; it visits page 1, 2, ... up to the page of the last row,
   each once and, when there are rows at all, none of them empty; and what was collected is
   the whole list in order.
   */
  lemma Traversal<T>(rows: seq<T>, size: nat)
    requires size >= 1
    ensures var pages := Visited(1, size, |rows|);
            && |pages| == (if rows == [] then 1 else (|rows| + size - 1) / size)
            && (forall i :: 0 <= i < |pages| ==> pages[i] == i + 1)
            && (forall i :: 0 <= i < |pages| && rows != [] ==>
                  SqlPage(rows, pages[i], size).Some? && SqlPage(rows, pages[i], size).value != [])
            && Collected(rows, pages, size) == rows
  {
    var pages := Visited(1, size, |rows|);
    CollectedFrom(rows, 1, size);
    if rows != [] {
      var last := Ceiling(|rows|, size);
      assert Offset(pages[|pages| - 1], size) < |rows|;
      SamePage(|pages|, last, size, |rows|);
      forall i | 0 <= i < |pages|
        ensures SqlPage(rows, pages[i], size).Some? && SqlPage(rows, pages[i], size).value != []
      {
        PageHasRows(rows, pages[i], size);
      }
    }
  }

  // ---------------------------------------------------------------------------
  // The header's text: the relations joined by commas.

  function Joined(links: seq<string>): string
    requires links != []
  {
    if |links| == 1 then links[0] else Joined(links[..|links| - 1]) + ", " + links[|links| - 1]
  }

  method JoinLinks(links: seq<string>) returns (out: string)
    requires links != []
    ensures out == Joined(links)
  {
    out := links[0];
    var i := 1;
    while i < |links|
      invariant 1 <= i <= |links|
      invariant out == Joined(links[..i])
    {
      assert links[..i + 1][..i] == links[..i];
      out := out + ", " + links[i];
      i := i + 1;
    }
    assert links[..i] == links;
  }

  lemma NotShorter(a: string, b: string, x: string, y: string)
    requires a + ", " + x == b + ", " + y && ',' !in x
    ensures |a| >= |b|
  {
    var s := a + ", " + x;
    assert s[|a| + 1] == ' ' && (forall i :: |a| + 2 <= i < |s| ==> s[i] == x[i - |a| - 2]);
    assert (b + ", " + y)[|b|] == ',';
  }

  lemma LastPart(a: string, b: string, x: string, y: string)
    requires a + ", " + x == b + ", " + y && ',' !in x && ',' !in y
    ensures a == b && x == y
  {
    NotShorter(a, b, x, y);
    NotShorter(b, a, y, x);
    var s, t := a + ", " + x, b + ", " + y;
    assert a == s[..|a|] && b == t[..|b|] && x == s[|a| + 2..] && y == t[|b| + 2..];
  }

  lemma HasComma(links: seq<string>)
    requires |links| > 1
    ensures ',' in Joined(links)
  {
    assert Joined(links)[|Joined(links[..|links| - 1])|] == ',';
  }

  /** Relations without a comma can be read back from the header. */
  lemma {:induction false} JoinedReadsBack(links: seq<string>, others: seq<string>)
    requires links != [] && others != [] && Joined(links) == Joined(others)
    requires (forall l :: l in links ==> ',' !in l) && (forall l :: l in others ==> ',' !in l)
    ensures links == others
  {
    var n, m := |links| - 1, |others| - 1;
    assert links == links[..n] + [links[n]] && others == others[..m] + [others[m]];
    if n > 0 {
      HasComma(links);
    }
    if m > 0 {
      HasComma(others);
    }
    if n > 0 && m > 0 {
      LastPart(Joined(links[..n]), Joined(others[..m]), links[n], others[m]);
      JoinedReadsBack(links[..n], others[..m]);
    }
  }
}
