/**
 The query builders: a filter becomes a list of conditions over numbered placeholders and a
 list of arguments. The database side answers a query only when the placeholders used are
 exactly those supplied.
 */
module Queries {
  import opened Wrappers
  import opened Pagination

  datatype Column = BeerId | UserId | Status | Style | Taste

  /** A row; a column without a text is null, as the alcohol content may be. */
  datatype Row = Row(id: string, texts: map<Column, string>, alcohol: Option<real>, document: string)

  datatype Value = Text(s: string) | Decimal(x: real) | Whole(n: int)

  datatype Cond =
    | Equals(column: Column, placeholder: nat)
    | AlcoholAtLeast(placeholder: nat)
    | AlcoholAtMost(placeholder: nat)
    | Matches(placeholder: nat)      // full text search
    | Similar(placeholder: nat)      // fuzzy search

  /** Full text and fuzzy matching of a document against a query text. */
  datatype Search = Search(matches: (string, string) -> bool, similar: (string, string) -> bool)

  // ---------------------------------------------------------------------------
  // The database side.

  predicate Holds(c: Cond, args: seq<Value>, row: Row, search: Search) {
    && 1 <= c.placeholder <= |args|
    && var arg := args[c.placeholder - 1];
    match c
    case Equals(column, _) => column in row.texts && arg == Text(row.texts[column])
    case AlcoholAtLeast(_) => row.alcohol.Some? && arg.Decimal? && row.alcohol.value >= arg.x
    case AlcoholAtMost(_) => row.alcohol.Some? && arg.Decimal? && row.alcohol.value <= arg.x
    case Matches(_) => arg.Text? && search.matches(row.document, arg.s)
    case Similar(_) => arg.Text? && search.similar(row.document, arg.s)
  }

  predicate AllHold(conds: seq<Cond>, args: seq<Value>, row: Row, search: Search) {
    forall c :: c in conds ==> Holds(c, args, row, search)
  }

  /** The placeholders of the conditions, and of the limit and offset when there are any. */
  function Used(conds: seq<Cond>, paging: Option<(nat, nat)>): set<nat> {
    (set c | c in conds :: c.placeholder) + if paging.Some? then {paging.value.0, paging.value.1} else {}
  }

  predicate Supplied(used: set<nat>, args: seq<Value>) {
    && (forall i :: i in used ==> 1 <= i <= |args|)
    && (forall i: nat :: 1 <= i <= |args| ==> i in used)
  }

  function Select(conds: seq<Cond>, args: seq<Value>, rows: seq<Row>, search: Search): seq<Row> {
    if rows == [] then []
    else Select(conds, args, rows[..|rows| - 1], search) +
         if AllHold(conds, args, rows[|rows| - 1], search) then [rows[|rows| - 1]] else []
  }

  function CountRows(conds: seq<Cond>, args: seq<Value>, rows: seq<Row>, search: Search): Option<nat> {
    if Supplied(Used(conds, None), args) then Some(|Select(conds, args, rows, search)|) else None
  }

  /** `rows` is the table in the order the query asks for. */
  function FetchRows(conds: seq<Cond>, paging: (nat, nat), args: seq<Value>, rows: seq<Row>,
                     search: Search): Option<seq<Row>>
  {
    if !Supplied(Used(conds, Some(paging)), args) then None
    else
      var limit, offset := args[paging.0 - 1], args[paging.1 - 1];
      if limit.Whole? && limit.n >= 0 && offset.Whole? && offset.n >= 0
      then Some(Slice(Select(conds, args, rows, search), offset.n, limit.n))
      else None
  }

  // ---------------------------------------------------------------------------
  // What the filters mean.

  /** Filter of reports and of deletion requests; an empty text is a filter not set. */
  datatype ModerationFilter = ModerationFilter(beerId: string, userId: string, status: string, limit: int, offset: int)

  predicate TextMeets(row: Row, column: Column, wanted: string) {
    wanted == "" || (column in row.texts && row.texts[column] == wanted)
  }

  predicate MeetsModeration(f: ModerationFilter, row: Row) {
    TextMeets(row, BeerId, f.beerId) && TextMeets(row, UserId, f.userId) && TextMeets(row, Status, f.status)
  }

  datatype BeerFilters = BeerFilters(
    query: string, style: string, minAlcohol: Option<real>, maxAlcohol: Option<real>, taste: string,
    page: int, pageSize: int)

  predicate AboveMin(f: BeerFilters, row: Row) {
    f.minAlcohol.Some? ==> row.alcohol.Some? && row.alcohol.value >= f.minAlcohol.value
  }

  predicate BelowMax(f: BeerFilters, row: Row) {
    f.maxAlcohol.Some? ==> row.alcohol.Some? && row.alcohol.value <= f.maxAlcohol.value
  }

  predicate MeetsBeer(f: BeerFilters, row: Row, search: Search) {
    && (f.query != "" ==> search.matches(row.document, f.query))
    && TextMeets(row, Style, f.style)
    && AboveMin(f, row)
    && BelowMax(f, row)
    && TextMeets(row, Taste, f.taste)
  }

  function ModerationMatches(f: ModerationFilter, rows: seq<Row>): seq<Row> {
    if rows == [] then []
    else ModerationMatches(f, rows[..|rows| - 1]) +
         if MeetsModeration(f, rows[|rows| - 1]) then [rows[|rows| - 1]] else []
  }

  function BeerMatches(f: BeerFilters, rows: seq<Row>, search: Search): seq<Row> {
    if rows == [] then []
    else BeerMatches(f, rows[..|rows| - 1], search) +
         if MeetsBeer(f, rows[|rows| - 1], search) then [rows[|rows| - 1]] else []
  }

  lemma {:induction false} BeersOfParts(f: BeerFilters, front: seq<Row>, back: seq<Row>, search: Search)
    ensures BeerMatches(f, front + back, search) == BeerMatches(f, front, search) + BeerMatches(f, back, search)
    decreases |back|
  {
    if back == [] {
      assert front + back == front;
    } else {
      var init := back[..|back| - 1];
      assert (front + back)[..|front + back| - 1] == front + init;
      BeersOfParts(f, front, init, search);
    }
  }

  lemma {:induction false} ModeratedOfParts(f: ModerationFilter, front: seq<Row>, back: seq<Row>)
    ensures ModerationMatches(f, front + back) == ModerationMatches(f, front) + ModerationMatches(f, back)
    decreases |back|
  {
    if back == [] {
      assert front + back == front;
    } else {
      var init := back[..|back| - 1];
      assert (front + back)[..|front + back| - 1] == front + init;
      ModeratedOfParts(f, front, init);
    }
  }

  /** What a search finds, in the order of the table: the rows, each of them or not, that meet every
      filter that is set. A row without an alcohol content meets no bound on it. */
  lemma BeersFound(f: BeerFilters, front: seq<Row>, row: Row, back: seq<Row>, search: Search)
    ensures BeerMatches(f, [], search) == []
    ensures BeerMatches(f, front + back, search) == BeerMatches(f, front, search) + BeerMatches(f, back, search)
    ensures BeerMatches(f, [row], search) ==
            if && (f.query == "" || search.matches(row.document, f.query))
               && (f.style == "" || (Style in row.texts && row.texts[Style] == f.style))
               && (f.taste == "" || (Taste in row.texts && row.texts[Taste] == f.taste))
               && (f.minAlcohol.None? || (row.alcohol.Some? && f.minAlcohol.value <= row.alcohol.value))
               && (f.maxAlcohol.None? || (row.alcohol.Some? && row.alcohol.value <= f.maxAlcohol.value))
            then [row] else []
  {
    BeersOfParts(f, front, back, search);
    assert [row][..0] == [];
  }

  /** What a moderation listing finds, in the order of the table. */
  lemma ModeratedFound(f: ModerationFilter, front: seq<Row>, row: Row, back: seq<Row>)
    ensures ModerationMatches(f, []) == []
    ensures ModerationMatches(f, front + back) == ModerationMatches(f, front) + ModerationMatches(f, back)
    ensures ModerationMatches(f, [row]) ==
            if && (f.beerId == "" || (BeerId in row.texts && row.texts[BeerId] == f.beerId))
               && (f.userId == "" || (UserId in row.texts && row.texts[UserId] == f.userId))
               && (f.status == "" || (Status in row.texts && row.texts[Status] == f.status))
            then [row] else []
  {
    ModeratedOfParts(f, front, back);
    assert [row][..0] == [];
  }

  // ---------------------------------------------------------------------------
  // Building up conditions.

  /** The conditions use exactly the placeholders of the arguments so far. */
  ghost predicate Numbered(conds: seq<Cond>, args: seq<Value>) {
    Supplied(Used(conds, None), args)
  }

  lemma AddCond(conds: seq<Cond>, args: seq<Value>, c: Cond, v: Value)
    requires Numbered(conds, args) && c.placeholder == |args| + 1
    ensures Numbered(conds + [c], args + [v])
  {
    assert Used(conds + [c], None) == Used(conds, None) + {c.placeholder} by {
      assert forall d :: d in conds + [c] <==> d in conds || d == c;
      assert c in conds + [c];
    }
  }

  /** Further arguments do not change what earlier conditions mean. */
  lemma MeaningStays(conds: seq<Cond>, args: seq<Value>, more: seq<Value>, row: Row, search: Search)
    requires Numbered(conds, args)
    ensures AllHold(conds, args + more, row, search) == AllHold(conds, args, row, search)
  {
    forall c | c in conds ensures Holds(c, args + more, row, search) == Holds(c, args, row, search) {
      assert c.placeholder in Used(conds, None);
    }
  }

  lemma AddMeaning(conds: seq<Cond>, args: seq<Value>, c: Cond, v: Value, row: Row, search: Search)
    requires Numbered(conds, args) && c.placeholder == |args| + 1
    ensures AllHold(conds + [c], args + [v], row, search) ==
            (AllHold(conds, args, row, search) && Holds(c, args + [v], row, search))
  {
    MeaningStays(conds, args, [v], row, search);
    assert forall d :: d in conds + [c] <==> d in conds || d == c;
  }

  lemma PagingSupplied(conds: seq<Cond>, args: seq<Value>, limit: Value, offset: Value)
    requires Numbered(conds, args)
    ensures Supplied(Used(conds, Some((|args| + 1, |args| + 2))), args + [limit, offset])
  {
  }

  /** The state of a builder between two filters: the texts of the page query and of the count
      query, the arguments, and the counter that numbers the next placeholder. */
  ghost predicate InStep(conds: seq<Cond>, counts: seq<Cond>, args: seq<Value>, position: nat) {
    Numbered(conds, args) && counts == conds && position == |args| + 1
  }

  /** The condition for a text filter, when it is set: in both texts, with one argument. */
  method AddText(conds: seq<Cond>, counts: seq<Cond>, args: seq<Value>, position: nat, column: Column, wanted: string,
                 ghost search: Search)
    returns (conds': seq<Cond>, counts': seq<Cond>, args': seq<Value>, position': nat)
    requires InStep(conds, counts, args, position)
    ensures InStep(conds', counts', args', position')
    ensures forall row :: AllHold(conds', args', row, search) ==
              (AllHold(conds, args, row, search) && TextMeets(row, column, wanted))
  {
    conds', counts', args', position' := conds, counts, args, position;
    if wanted != "" {
      conds' := conds' + [Equals(column, position)];
      counts' := counts' + [Equals(column, position)];
      args' := args' + [Text(wanted)];
      position' := position' + 1;
      AddedText(conds, args, column, wanted, search);
    }
  }

  lemma AddedText(conds: seq<Cond>, args: seq<Value>, column: Column, wanted: string, search: Search)
    requires Numbered(conds, args) && wanted != ""
    ensures var c := Equals(column, |args| + 1);
            && Numbered(conds + [c], args + [Text(wanted)])
            && forall row :: AllHold(conds + [c], args + [Text(wanted)], row, search) ==
                             (AllHold(conds, args, row, search) && TextMeets(row, column, wanted))
  {
    var c := Equals(column, |args| + 1);
    AddCond(conds, args, c, Text(wanted));
    forall row
      ensures AllHold(conds + [c], args + [Text(wanted)], row, search) ==
              (AllHold(conds, args, row, search) && TextMeets(row, column, wanted))
    {
      AddMeaning(conds, args, c, Text(wanted), row, search);
    }
  }

  // ---------------------------------------------------------------------------
  // Conditions that mean the filter select the rows that meet it.

  lemma {:induction false} SelectsModeration(conds: seq<Cond>, args: seq<Value>, f: ModerationFilter, rows: seq<Row>,
      search: Search)
    requires forall row :: AllHold(conds, args, row, search) == MeetsModeration(f, row)
    ensures Select(conds, args, rows, search) == ModerationMatches(f, rows)
  {
    if rows != [] {
      SelectsModeration(conds, args, f, rows[..|rows| - 1], search);
    }
  }

  lemma {:induction false} SelectsBeers(conds: seq<Cond>, args: seq<Value>, f: BeerFilters, rows: seq<Row>,
      search: Search)
    requires forall row :: AllHold(conds, args, row, search) == MeetsBeer(f, row, search)
    ensures Select(conds, args, rows, search) == BeerMatches(f, rows, search)
  {
    if rows != [] {
      SelectsBeers(conds, args, f, rows[..|rows| - 1], search);
    }
  }

  /** The limit and offset arguments at the end do not change the selection. */
  lemma {:induction false} SelectStays(conds: seq<Cond>, args: seq<Value>, more: seq<Value>, rows: seq<Row>,
      search: Search)
    requires Numbered(conds, args)
    ensures Select(conds, args + more, rows, search) == Select(conds, args, rows, search)
  {
    if rows != [] {
      SelectStays(conds, args, more, rows[..|rows| - 1], search);
      MeaningStays(conds, args, more, rows[|rows| - 1], search);
    }
  }

  /** What the page query answers, once its limit and offset are appended. */
  lemma PageIs(conds: seq<Cond>, args: seq<Value>, limit: int, offset: int, rows: seq<Row>, search: Search)
    requires Numbered(conds, args)
    ensures FetchRows(conds, (|args| + 1, |args| + 2), args + [Whole(limit), Whole(offset)], rows, search) ==
            if limit >= 0 && offset >= 0 then Some(Slice(Select(conds, args, rows, search), offset, limit)) else None
  {
    PagingSupplied(conds, args, Whole(limit), Whole(offset));
    SelectStays(conds, args, [Whole(limit), Whole(offset)], rows, search);
  }

  // ---------------------------------------------------------------------------
  // Reports and deletion requests: both listings are built in the same way.

  method ModerationPage(f: ModerationFilter, rows: seq<Row>, search: Search)
    returns (page: Option<seq<Row>>, total: Option<nat>)
    ensures total == Some(|ModerationMatches(f, rows)|)
    ensures var offset, limit := if f.offset > 0 then f.offset else 0, if f.limit <= 0 then 20 else f.limit;
            page == Some(Slice(ModerationMatches(f, rows), offset, limit))
  {
    var conds, counts, args, argPos := [], [], [], 1;
    conds, counts, args, argPos := AddText(conds, counts, args, argPos, BeerId, f.beerId, search);
    conds, counts, args, argPos := AddText(conds, counts, args, argPos, UserId, f.userId, search);
    conds, counts, args, argPos := AddText(conds, counts, args, argPos, Status, f.status, search);
    SelectsModeration(conds, args, f, rows, search);
    total := CountRows(counts, args, rows, search);
    var limit := f.limit;
    if limit <= 0 {
      limit := 20;
    }
    var offset := 0;
    if f.offset > 0 {
      offset := f.offset;
    }
    PageIs(conds, args, limit, offset, rows, search);
    args := args + [Whole(limit), Whole(offset)];
    page := FetchRows(conds, (argPos, argPos + 1), args, rows, search);
  }

  // ---------------------------------------------------------------------------
  // The beer search.

  method AddMin(conds: seq<Cond>, counts: seq<Cond>, args: seq<Value>, position: nat, f: BeerFilters,
      ghost search: Search)
    returns (conds': seq<Cond>, counts': seq<Cond>, args': seq<Value>, position': nat)
    requires InStep(conds, counts, args, position)
    ensures InStep(conds', counts', args', position')
    ensures forall row :: AllHold(conds', args', row, search) == (AllHold(conds, args, row, search) && AboveMin(f, row))
  {
    conds', counts', args', position' := conds, counts, args, position;
    if f.minAlcohol.Some? {
      ghost var c, v := AlcoholAtLeast(|args| + 1), Decimal(f.minAlcohol.value);
      conds' := conds' + [AlcoholAtLeast(position)];
      counts' := counts' + [AlcoholAtLeast(position)];
      args' := args' + [Decimal(f.minAlcohol.value)];
      position' := position' + 1;
      AddCond(conds, args, c, v);
      forall row
        ensures AllHold(conds', args', row, search) == (AllHold(conds, args, row, search) && AboveMin(f, row))
      {
        AddMeaning(conds, args, c, v, row, search);
      }
    }
  }

  method AddMax(conds: seq<Cond>, counts: seq<Cond>, args: seq<Value>, position: nat, f: BeerFilters,
      ghost search: Search)
    returns (conds': seq<Cond>, counts': seq<Cond>, args': seq<Value>, position': nat)
    requires InStep(conds, counts, args, position)
    ensures InStep(conds', counts', args', position')
    ensures forall row :: AllHold(conds', args', row, search) == (AllHold(conds, args, row, search) && BelowMax(f, row))
  {
    conds', counts', args', position' := conds, counts, args, position;
    if f.maxAlcohol.Some? {
      ghost var c, v := AlcoholAtMost(|args| + 1), Decimal(f.maxAlcohol.value);
      conds' := conds' + [AlcoholAtMost(position)];
      counts' := counts' + [AlcoholAtMost(position)];
      args' := args' + [Decimal(f.maxAlcohol.value)];
      position' := position' + 1;
      AddCond(conds, args, c, v);
      forall row
        ensures AllHold(conds', args', row, search) == (AllHold(conds, args, row, search) && BelowMax(f, row))
      {
        AddMeaning(conds, args, c, v, row, search);
      }
    }
  }

  /** The page query binds the query text first; the count query looks back one position for it. */
  method AddQuery(f: BeerFilters, ghost search: Search)
    returns (conds: seq<Cond>, counts: seq<Cond>, args: seq<Value>, position: nat)
    ensures InStep(conds, counts, args, position)
    ensures forall row :: AllHold(conds, args, row, search) == (f.query != "" ==> search.matches(row.document, f.query))
  {
    conds, counts, args, position := [], [], [], 1;
    if f.query != "" {
      conds := conds + [Matches(position)];
      args := args + [Text(f.query)];
      position := position + 1;
    }
    if f.query != "" {
      counts := counts + [Matches(position - 1)];
      assert conds == [Matches(1)] && conds[0] in conds;
    }
  }

  /** The conditions of the page query and of the count query of the main path. The last filter
      does not advance the counter, so it may lag behind the arguments by one. */
  method BuildSearch(f: BeerFilters, ghost search: Search)
    returns (conds: seq<Cond>, counts: seq<Cond>, args: seq<Value>, position: nat)
    ensures Numbered(conds, args) && counts == conds
    ensures position == if f.taste != "" then |args| else |args| + 1
    ensures forall row :: AllHold(conds, args, row, search) == MeetsBeer(f, row, search)
  {
    conds, counts, args, position := AddQuery(f, search);
    conds, counts, args, position := AddText(conds, counts, args, position, Style, f.style, search);
    conds, counts, args, position := AddMin(conds, counts, args, position, f, search);
    conds, counts, args, position := AddMax(conds, counts, args, position, f, search);
    if f.taste != "" {
      AddedText(conds, args, Taste, f.taste, search);
      conds := conds + [Equals(Taste, position)];
      counts := counts + [Equals(Taste, position)];
      args := args + [Text(f.taste)];
    }
  }

  /**
   The fuzzy fallback numbers its placeholders from 1 again without counting the query
   argument, so the last argument has no placeholder and the database never answers.
   */
  method FuzzyPage(f: BeerFilters, rows: seq<Row>, search: Search) returns (page: Option<seq<Row>>)
    ensures page.None?
  {
    var conds, args, position := [Similar(1)], [Text(f.query)], 1;
    if f.style != "" {
      conds, args, position := conds + [Equals(Style, position)], args + [Text(f.style)], position + 1;
    }
    if f.minAlcohol.Some? {
      conds, args, position := conds + [AlcoholAtLeast(position)], args + [Decimal(f.minAlcohol.value)], position + 1;
    }
    if f.maxAlcohol.Some? {
      conds, args, position := conds + [AlcoholAtMost(position)], args + [Decimal(f.maxAlcohol.value)], position + 1;
    }
    if f.taste != "" {
      conds, args, position := conds + [Equals(Taste, position)], args + [Text(f.taste)], position + 1;
    }
    args := args + [Whole(f.pageSize), Whole((f.page - 1) * f.pageSize)];
    assert |args| == position + 2 && forall c :: c in conds ==> c.placeholder <= position;
    assert |args| !in Used(conds, Some((position, position + 1)));
    page := FetchRows(conds, (position, position + 1), args, rows, search);
  }

  /** `rows` are the beers in the order of the main query, `similar` in that of the fallback. */
  method SearchBeers(f: BeerFilters, rows: seq<Row>, similar: seq<Row>, search: Search)
    returns (page: Option<seq<Row>>, total: nat, fuzzy: bool)
    ensures total == |BeerMatches(f, rows, search)|
    ensures fuzzy <==> f.query != "" && total == 0
    ensures page.Some? <==> !fuzzy && f.pageSize >= 0 && (f.page - 1) * f.pageSize >= 0
    ensures page.Some? ==> page.value == Slice(BeerMatches(f, rows, search), (f.page - 1) * f.pageSize, f.pageSize)
  {
    var conds, counts, args, position := BuildSearch(f, search);
    SelectsBeers(conds, args, f, rows, search);
    var counted := CountRows(counts, args, rows, search);
    total := counted.value;
    fuzzy := f.query != "" && total == 0;
    if fuzzy {
      page := FuzzyPage(f, similar, search);
    } else {
      position := |args| + 1;
      PageIs(conds, args, f.pageSize, (f.page - 1) * f.pageSize, rows, search);
      args := args + [Whole(f.pageSize), Whole((f.page - 1) * f.pageSize)];
      page := FetchRows(conds, (position, position + 1), args, rows, search);
    }
  }

  /** Without that reset a search by taste would number LIMIT one too low, and the count alone
      would come back: the page query would leave its last argument without a placeholder. */
  lemma LaggingCounterFails(conds: seq<Cond>, args: seq<Value>, limit: int, offset: int, rows: seq<Row>, search: Search)
    requires Numbered(conds, args) && args != []
    ensures FetchRows(conds, (|args|, |args| + 1), args + [Whole(limit), Whole(offset)], rows, search).None?
  {
    var all := args + [Whole(limit), Whole(offset)];
    assert |all| !in Used(conds, Some((|args|, |args| + 1))) by {
      assert forall c :: c in conds ==> c.placeholder in Used(conds, None);
    }
  }
}
