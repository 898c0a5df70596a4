/**
 The composite event store: the Redis cache in front of the event table, filled after a
 commit and read first.
 */
module ReadPath {
  import opened Wrappers
  import opened Beers
  import opened Outbox
  import opened OutboxAccounting
  import EventCache
  import Lexicographic

  type Cache = map<string, set<Event>>

  function Cached(cache: Cache, beerId: string): set<Event> {
    if beerId in cache then cache[beerId] else {}
  }

  /** A score bound that a zero time leaves open. */
  predicate AtLeast(e: Event, since: Option<int>) { since.None? || since.value <= e.timestamp }

  predicate Newer(e: Event, since: Option<int>) { since.None? || since.value < e.timestamp }

  ghost predicate Ascending(events: seq<Event>) {
    forall i, j :: 0 <= i < j < |events| ==> events[i].timestamp <= events[j].timestamp
  }

  lemma LeastUnique(s: set<Event>, m: Event, m': Event)
    requires EventCache.IsLeast(s, m) && EventCache.IsLeast(s, m')
    ensures m == m'
  {
    if m != m' {
      EventCache.LessTransitive(m, m', m);
      EventCache.LessIrreflexive(m);
    }
  }

  ghost predicate ScoreOrder(events: seq<Event>) {
    forall i, j :: 0 <= i < j < |events| ==> EventCache.Less(events[i], events[j])
  }

  function Least(s: set<Event>): (m: Event)
    requires s != {}
    ensures EventCache.IsLeast(s, m)
  {
    EventCache.LeastExists(s);
    assert forall m, m' :: EventCache.IsLeast(s, m) && EventCache.IsLeast(s, m') ==> m == m' by {
      forall m, m' | EventCache.IsLeast(s, m) && EventCache.IsLeast(s, m') ensures m == m' { LeastUnique(s, m, m'); }
    }
    var m :| m in s && EventCache.IsLeast(s, m);
    m
  }

  lemma LeastFirst(s: set<Event>, m: Event, rest: seq<Event>)
    requires EventCache.IsLeast(s, m) && multiset(rest) == multiset(s - {m}) && ScoreOrder(rest)
    ensures multiset([m] + rest) == multiset(s) && ScoreOrder([m] + rest)
  {
    forall i | 0 <= i < |rest| ensures EventCache.Less(m, rest[i]) {
      assert rest[i] in multiset(rest);
    }
    assert s == {m} + (s - {m});
    assert multiset(s) == multiset{m} + multiset(s - {m});
  }

  /** A sorted set in its own order, each member once. */
  function Sorted(s: set<Event>): (r: seq<Event>)
    ensures multiset(r) == multiset(s) && ScoreOrder(r)
  {
    if s == {} then []
    else
      var m := Least(s);
      var rest := Sorted(s - {m});
      LeastFirst(s, m, rest);
      [m] + rest
  }

  /** The members a range by score returns. */
  function CachedSince(cached: set<Event>, since: Option<int>): set<Event> {
    set e | e in cached && AtLeast(e, since)
  }

  /** The rows a query by beer and time returns, in the order of the table. */
  function DurableSince(log: seq<Event>, beerId: string, since: Option<int>): seq<Event> {
    if log == [] then []
    else
      var last := log[|log| - 1];
      DurableSince(log[..|log| - 1], beerId, since) + if last.beerId == beerId && Newer(last, since) then [last] else []
  }

  lemma {:induction false} DurableSinceOf(log: seq<Event>, beerId: string, since: Option<int>)
    ensures multiset(DurableSince(log, beerId, since)) <= multiset(log)
    ensures forall e :: e in DurableSince(log, beerId, since) <==> e in log && e.beerId == beerId && Newer(e, since)
  {
    if log != [] {
      var init, last := log[..|log| - 1], log[|log| - 1];
      DurableSinceOf(init, beerId, since);
      assert log == init + [last];
    }
  }

  /** By time and, at equal times, by id. */
  predicate Before(e: Event, f: Event) {
    e.timestamp < f.timestamp || (e.timestamp == f.timestamp && !Lexicographic.Less(f.id, e.id))
  }

  lemma BeforeTotal(e: Event, f: Event)
    ensures Before(e, f) || Before(f, e)
  {
    if Lexicographic.Less(f.id, e.id) && Lexicographic.Less(e.id, f.id) {
      Lexicographic.LessTransitive(e.id, f.id, e.id);
      Lexicographic.LessIrreflexive(e.id);
    }
  }

  lemma BeforeTransitive(e: Event, f: Event, g: Event)
    requires Before(e, f) && Before(f, g)
    ensures Before(e, g)
  {
    if e.timestamp == g.timestamp && Lexicographic.Less(g.id, e.id) {
      Lexicographic.LessTotal(e.id, f.id);
      if e.id != f.id {
        Lexicographic.LessTransitive(g.id, e.id, f.id);
      }
    }
  }

  ghost predicate RowOrder(events: seq<Event>) {
    forall i, j :: 0 <= i < j < |events| ==> Before(events[i], events[j])
  }

  function InsertRow(e: Event, rows: seq<Event>): (r: seq<Event>)
    ensures multiset(r) == multiset{e} + multiset(rows)
  {
    if rows == [] || Before(e, rows[0]) then [e] + rows
    else
      assert rows == [rows[0]] + rows[1..];
      [rows[0]] + InsertRow(e, rows[1..])
  }

  lemma {:induction false} InsertKeepsOrder(e: Event, rows: seq<Event>)
    requires RowOrder(rows)
    ensures RowOrder(InsertRow(e, rows))
  {
    if rows != [] && !Before(e, rows[0]) {
      var rest := InsertRow(e, rows[1..]);
      InsertKeepsOrder(e, rows[1..]);
      BeforeTotal(e, rows[0]);
      forall i | 0 <= i < |rest| ensures Before(rows[0], rest[i]) {
        assert rest[i] in multiset(rest);
        assert rest[i] == e || rest[i] in rows[1..];
      }
    } else {
      forall i | 0 <= i < |rows| ensures Before(e, rows[i]) {
        if i > 0 {
          BeforeTransitive(e, rows[0], rows[i]);
        }
      }
    }
  }

  /** ORDER BY timestamp, id. */
  function Ordered(rows: seq<Event>): (r: seq<Event>)
    ensures multiset(r) == multiset(rows)
    ensures RowOrder(r)
  {
    if rows == [] then []
    else
      assert rows == [rows[0]] + rows[1..];
      InsertKeepsOrder(rows[0], Ordered(rows[1..]));
      InsertRow(rows[0], Ordered(rows[1..]))
  }

  /** The rows are in the order of their times, and at one time in that of their ids. */
  lemma OrderedByTimeThenId(rows: seq<Event>, i: nat, j: nat)
    requires i < j < |Ordered(rows)|
    ensures var e, f := Ordered(rows)[i], Ordered(rows)[j];
            || e.timestamp < f.timestamp
            || (e.timestamp == f.timestamp && (e.id == f.id || Lexicographic.Less(e.id, f.id)))
  {
    Lexicographic.LessTotal(Ordered(rows)[i].id, Ordered(rows)[j].id);
  }

  /** What is left of a beer's members after a trim. */
  function Newest(members: set<Event>): set<Event> {
    EventCache.Top(members, EventCache.MAX_EVENTS_PER_BEER)
  }

  /** The two stores behind one interface. Each call says which of them answers. */
  class CompositeStore {
    var cache: Cache       // Redis
    var log: seq<Event>    // the event table

    constructor ()
      ensures cache == map[] && log == []
    {
      cache, log := map[], [];
    }

    /** Add, then trim to the newest thousand. */
    method PublishCache(beerId: string, e: Event, cacheUp: bool)
      modifies this
      ensures log == old(log)
      ensures cache == if cacheUp
                       then old(cache)[beerId := Newest(Cached(old(cache), beerId) + {e})]
                       else old(cache)
      ensures cacheUp ==> beerId in cache && EventCache.Newest(cache[beerId], Cached(old(cache), beerId) + {e})
    {
      if cacheUp {
        var members := Cached(cache, beerId) + {e};
        EventCache.TopIsNewest(members);
        EventCache.TrimIsTop(members, EventCache.MAX_EVENTS_PER_BEER);
        members := EventCache.ZRemRangeByRank(members, 0, -(EventCache.MAX_EVENTS_PER_BEER as int) - 1);
        cache := cache[beerId := members];
      }
    }

    /** The durable store first; only then the cache, whose failure is ignored. */
    method Publish(beerId: string, e: Event, durableUp: bool, cacheUp: bool) returns (ok: bool)
      modifies this
      ensures ok == durableUp
      ensures log == if durableUp then old(log) + [e] else old(log)
      ensures cache == if durableUp && cacheUp
                       then old(cache)[beerId := Newest(Cached(old(cache), beerId) + {e})]
                       else old(cache)
    {
      if !durableUp {
        return false;
      }
      log := log + [e];
      PublishCache(beerId, e, cacheUp);
      return true;
    }

    method ListCached(beerId: string, since: Option<int>, cacheUp: bool) returns (r: Option<seq<Event>>)
      ensures r.Some? == cacheUp
      ensures r.Some? ==>
                ScoreOrder(r.value) && multiset(r.value) == multiset(CachedSince(Cached(cache, beerId), since))
      ensures r.Some? ==>
                && Ascending(r.value)
                && (forall i, j :: 0 <= i < j < |r.value| ==> r.value[i] != r.value[j])
                && forall e :: e in r.value <==>
                     beerId in cache && e in cache[beerId] && (since.None? || since.value <= e.timestamp)
    {
      if !cacheUp {
        return None;
      }
      var raw := Sorted(CachedSince(Cached(cache, beerId), since));
      var events: seq<Event> := [];
      var i := 0;
      while i < |raw|
        invariant i <= |raw| && events == raw[..i]
      {
        events := events + [raw[i]];
        i := i + 1;
      }
      assert events == raw;
      OrdersAscend(events);
      OrderedOnce(events);
      assert forall e :: e in events <==> e in multiset(events);
      return Some(events);
    }

    /** The driver hands the JSON column of a row over as bytes, for which there is no conversion
        to the event's map of data: the first row ends the call with an error. */
    method ListDurable(beerId: string, since: Option<int>, durableUp: bool) returns (r: Option<seq<Event>>)
      ensures r == if durableUp && DurableSince(log, beerId, since) == [] then Some([]) else None
      ensures r == Some([]) <==>
                durableUp && !exists e :: e in log && e.beerId == beerId && (since.None? || since.value < e.timestamp)
      ensures r != Some([]) ==> r.None?
    {
      SomeDurable(log, beerId, since);
      if !durableUp {
        return None;
      }
      var rows := Ordered(DurableSince(log, beerId, since));
      assert |multiset(rows)| == |rows|;
      assert |multiset(DurableSince(log, beerId, since))| == |DurableSince(log, beerId, since)|;
      var events: seq<Event> := [];
      if |rows| > 0 {
        return None;
      }
      return Some(events);
    }

    /** The cache answers when it has anything to say; otherwise the event table does. */
    method ListSince(beerId: string, since: Option<int>, cacheUp: bool, durableUp: bool) returns (r: Option<seq<Event>>)
      ensures Answers(r, Cached(cache, beerId), log, beerId, since, cacheUp, durableUp)
      ensures r.Some? && since.Some? ==> forall e :: e in r.value ==> since.value <= e.timestamp
      ensures (r.Some? && r.value != []) <==>
                cacheUp && beerId in cache &&
                exists e :: e in cache[beerId] && (since.None? || since.value <= e.timestamp)
    {
      SomeSince(Cached(cache, beerId), since);
      var cached := ListCached(beerId, since, cacheUp);
      if cached.Some? && |cached.value| > 0 {
        assert cached.value[0] in multiset(cached.value);
        return cached;
      }
      if cached.Some? {
        assert multiset(cached.value) == multiset{};
        assert CachedSince(Cached(cache, beerId), since) == {} by {
          assert forall e :: e in CachedSince(Cached(cache, beerId), since) ==>
                e in multiset(CachedSince(Cached(cache, beerId), since));
        }
      }
      r := ListDurable(beerId, since, durableUp);
    }
  }

  /** What the composite store answers, in terms of the two stores' contents: from the cache each
      event once, and from the table nothing but its emptiness. */
  ghost predicate Answers(r: Option<seq<Event>>, cached: set<Event>, log: seq<Event>, beerId: string,
                          since: Option<int>, cacheUp: bool, durableUp: bool)
  {
    if cacheUp && CachedSince(cached, since) != {} then
      r.Some? && ScoreOrder(r.value) && multiset(r.value) == multiset(CachedSince(cached, since))
    else
      r == if durableUp && DurableSince(log, beerId, since) == [] then Some([]) else None
  }

  /** What it is meant to answer, and would if the JSON column were read through bytes, as the
      columns of the beers table are: from the table each row as often as it is there. */
  ghost predicate MeantToAnswer(r: Option<seq<Event>>, cached: set<Event>, log: seq<Event>, beerId: string,
                                since: Option<int>, cacheUp: bool, durableUp: bool)
  {
    if cacheUp && CachedSince(cached, since) != {} then
      r.Some? && ScoreOrder(r.value) && multiset(r.value) == multiset(CachedSince(cached, since))
    else
      r == if durableUp then Some(Ordered(DurableSince(log, beerId, since))) else None
  }

  // ---------------------------------------------------------------------------
  // The cache beside the transactions.

  /** `published` holds the transactions whose event has been sent to the cache. */
  datatype System = System(o: Outbox.State, cache: Cache, published: set<nat>)

  datatype Action =
    | Database(a: Outbox.Action)
    | CacheAdd(t: nat)              // the first command of a publish, after the commit
    | CacheTrim(beerId: string)     // the second; never sent when the cache failed in between
    | Expire(beerId: string)

  predicate Enabled(s: System, a: Action) {
    match a
    case Database(d) => Outbox.Enabled(s.o, d)
    case CacheAdd(t) => t in s.o.txs && s.o.txs[t].phase.Committed? && !s.o.txs[t].req.op.ApprovedDelete? &&
          t !in s.published
    case CacheTrim(b) => true
    case Expire(b) => true
  }

  function Perform(s: System, a: Action): System
    requires Enabled(s, a)
  {
    match a
    case Database(d) => s.(o := Outbox.Perform(s.o, d))
    case CacheAdd(t) =>
      var e := EventOf(s.o.txs[t].req);
      s.(cache := s.cache[e.beerId := Cached(s.cache, e.beerId) + {e}], published := s.published + {t})
    case CacheTrim(b) =>
      var kept := EventCache.ZRemRangeByRank(Cached(s.cache, b), 0, -(EventCache.MAX_EVENTS_PER_BEER as int) - 1);
      s.(cache := s.cache[b := kept])
    case Expire(b) => s.(cache := s.cache - {b})
  }

  function Final(db: Db, run: seq<Action>): Option<System> {
    if run == [] then Some(System(Outbox.Start(db), map[], {}))
    else match Final(db, run[..|run| - 1])
      case None => None
      case Some(s) => if Enabled(s, run[|run| - 1]) then Some(Perform(s, run[|run| - 1])) else None
  }

  ghost predicate CacheIsCommitted(s: System) {
    forall b, e :: b in s.cache && e in s.cache[b] ==> e.beerId == b && e in EventsOf(s.o.history)
  }

  lemma {:induction false} EventCommitted(history: seq<Commit>, c: Commit)
    requires c in history && !c.req.op.ApprovedDelete?
    ensures EventOf(c.req) in EventsOf(history)
  {
    if history[|history| - 1] != c {
      EventCommitted(history[..|history| - 1], c);
    }
  }

  lemma EventsMonotone(history: seq<Commit>, c: Commit)
    ensures forall e :: e in EventsOf(history) ==> e in EventsOf(history + [c])
  {
    assert (history + [c])[..|history|] == history;
  }

  /** No step of a transaction takes a committed event back. */
  lemma EventsGrow(s: Outbox.State, a: Outbox.Action)
    requires Outbox.Enabled(s, a)
    ensures forall e :: e in EventsOf(s.history) ==> e in EventsOf(Outbox.Perform(s, a).history)
  {
    if a.CommitTx? {
      EventsMonotone(s.history, Commit(a.t, s.txs[a.t].req));
    } else {
      OnlyCommitsWrite(s, a);
    }
  }

  lemma CacheStep(s: System, a: Action)
    requires HistoryAgrees(s.o) && CacheIsCommitted(s) && Enabled(s, a)
    ensures CacheIsCommitted(Perform(s, a))
  {
    match a
    case Database(d) => EventsGrow(s.o, d);
    case CacheAdd(t) => EventCommitted(s.o.history, Commit(t, s.o.txs[t].req));
    case CacheTrim(b) =>
    case Expire(b) =>
  }

  /** What the commands do to the keys: an add puts in the event of one committed request, a trim
      leaves the newest thousand, an expiry nothing; a statement of the database leaves the cache. */
  lemma CacheCommands(s: System, a: Action, beerId: string)
    requires Enabled(s, a)
    ensures var was, now := Cached(s.cache, beerId), Cached(Perform(s, a).cache, beerId);
            match a
            case Database(_) => now == was
            case CacheAdd(t) =>
              var e := EventOf(s.o.txs[t].req);
              now == if e.beerId == beerId then was + {e} else was
            case CacheTrim(b) => if b == beerId then EventCache.Newest(now, was) else now == was
            case Expire(b) => now == if b == beerId then {} else was
  {
    if a.CacheTrim? {
      EventCache.TrimIsTop(Cached(s.cache, beerId), 1000);
      EventCache.TopIsNewest(Cached(s.cache, beerId));
    }
  }

  lemma SystemStep(db0: Db, s: System, a: Action)
    requires Inv(db0, s.o) && CacheIsCommitted(s) && Enabled(s, a)
    ensures Inv(db0, Perform(s, a).o) && CacheIsCommitted(Perform(s, a))
  {
    CacheStep(s, a);
    if a.Database? {
      InvStep(db0, s.o, a.a);
    }
  }

  lemma {:induction false} SystemInv(db0: Db, run: seq<Action>)
    requires Final(db0, run).Some?
    ensures Inv(db0, Final(db0, run).value.o) && CacheIsCommitted(Final(db0, run).value)
  {
    if run != [] {
      SystemInv(db0, run[..|run| - 1]);
      SystemStep(db0, Final(db0, run[..|run| - 1]).value, run[|run| - 1]);
    }
  }

  lemma DurableIffAlive(db0: Db, s: Outbox.State, e: Event)
    requires ForeignKeysHold(db0) && Inv(db0, s) && e in EventsOf(s.history)
    ensures e in s.db.log <==> e.beerId in s.db.beers
  {
    LogIsHistory(db0, s.history);
    SurvivingMembers(db0.log + EventsOf(s.history), s.db.beers.Keys);
  }

  /** Across any mix of transactions, rollbacks, cache failures, trims and expiries: every cached
      event was committed, and it is still in the event table exactly when its beer exists. */
  lemma CacheSoundness(db0: Db, run: seq<Action>, beerId: string, e: Event)
    requires ForeignKeysHold(db0) && Final(db0, run).Some?
    requires e in Cached(Final(db0, run).value.cache, beerId)
    ensures e.beerId == beerId && e in EventsOf(Final(db0, run).value.o.history)
    ensures e in Final(db0, run).value.o.db.log <==> beerId in Final(db0, run).value.o.db.beers
  {
    SystemInv(db0, run);
    DurableIffAlive(db0, Final(db0, run).value.o, e);
  }

  lemma CachedOnce(cached: set<Event>, since: Option<int>, log: seq<Event>)
    requires forall e :: e in cached ==> e in log
    ensures multiset(CachedSince(cached, since)) <= multiset(log)
  {
  }

  lemma OrderedOnce(r: seq<Event>)
    requires ScoreOrder(r)
    ensures forall i, j :: 0 <= i < j < |r| ==> r[i] != r[j]
  {
    forall i, j | 0 <= i < j < |r| ensures r[i] != r[j] {
      EventCache.LessIrreflexive(r[i]);
    }
  }

  lemma OrdersAscend(r: seq<Event>)
    requires ScoreOrder(r) || RowOrder(r)
    ensures Ascending(r)
  {
  }

  lemma SomeSince(cached: set<Event>, since: Option<int>)
    ensures CachedSince(cached, since) != {} <==> exists e :: e in cached && AtLeast(e, since)
    ensures CachedSince(cached, since) != {} <==>
            exists e :: e in cached && (since.None? || since.value <= e.timestamp)
    ensures forall e :: e in CachedSince(cached, since) <==> e in cached && (since.None? || since.value <= e.timestamp)
  {
    if e :| e in cached && AtLeast(e, since) {
      assert e in CachedSince(cached, since);
    }
  }

  lemma SomeDurable(log: seq<Event>, beerId: string, since: Option<int>)
    ensures DurableSince(log, beerId, since) != [] <==>
            exists e :: e in log && e.beerId == beerId && (since.None? || since.value < e.timestamp)
    ensures DurableSince(log, beerId, since) != [] <==> exists e :: e in log && e.beerId == beerId && Newer(e, since)
  {
    DurableSinceOf(log, beerId, since);
    NoElement(DurableSince(log, beerId, since));
  }

  /** What a reader gets for a beer that exists: durable events of that beer only, none more often
      than the table has it, oldest first. It gets any exactly when the cache is up and has some,
      and an error exactly when it does not and the table cannot be read or has a newer event. */
  lemma ReadsAreDurable(db0: Db, run: seq<Action>, beerId: string, since: Option<int>, cacheUp: bool, durableUp: bool,
                        r: Option<seq<Event>>)
    requires ForeignKeysHold(db0) && Final(db0, run).Some?
    requires beerId in Final(db0, run).value.o.db.beers
    requires var s := Final(db0, run).value;
             Answers(r, Cached(s.cache, beerId), s.o.db.log, beerId, since, cacheUp, durableUp)
    ensures r.Some? ==> Ascending(r.value) && multiset(r.value) <= multiset(Final(db0, run).value.o.db.log)
    ensures r.Some? ==> forall e :: e in r.value ==> e.beerId == beerId && (since.None? || since.value <= e.timestamp)
    ensures (r.Some? && r.value != []) <==>
            cacheUp && exists e :: e in Cached(Final(db0, run).value.cache, beerId) &&
                                   (since.None? || since.value <= e.timestamp)
    ensures r.None? <==>
            && !(cacheUp && exists e :: e in Cached(Final(db0, run).value.cache, beerId) &&
                                        (since.None? || since.value <= e.timestamp))
            && (durableUp ==> exists e :: e in Final(db0, run).value.o.db.log && e.beerId == beerId &&
                                          (since.None? || since.value < e.timestamp))
  {
    var s := Final(db0, run).value;
    var cached, log := Cached(s.cache, beerId), s.o.db.log;
    forall e | e in cached ensures e in log && e.beerId == beerId {
      CacheSoundness(db0, run, beerId, e);
    }
    ReadsOf(r, cached, log, beerId, since, cacheUp, durableUp);
  }

  lemma FromCache(r: seq<Event>, cached: set<Event>, log: seq<Event>, beerId: string, since: Option<int>)
    requires ScoreOrder(r) && multiset(r) == multiset(CachedSince(cached, since))
    requires forall e :: e in cached ==> e in log && e.beerId == beerId
    ensures Ascending(r) && multiset(r) <= multiset(log)
    ensures forall e :: e in r ==> e.beerId == beerId && (since.None? || since.value <= e.timestamp)
    ensures CachedSince(cached, since) != {} ==> r != []
  {
    CachedOnce(cached, since, log);
    OrdersAscend(r);
    assert forall e :: e in r ==> e in multiset(r);
    if e :| e in CachedSince(cached, since) {
      assert e in multiset(r);
    }
  }

  lemma ReadsOf(r: Option<seq<Event>>, cached: set<Event>, log: seq<Event>, beerId: string, since: Option<int>,
                cacheUp: bool, durableUp: bool)
    requires Answers(r, cached, log, beerId, since, cacheUp, durableUp)
    requires forall e :: e in cached ==> e in log && e.beerId == beerId
    ensures r.Some? ==> Ascending(r.value) && multiset(r.value) <= multiset(log)
    ensures r.Some? ==> forall e :: e in r.value ==> e.beerId == beerId && (since.None? || since.value <= e.timestamp)
    ensures (r.Some? && r.value != []) <==>
            cacheUp && exists e :: e in cached && (since.None? || since.value <= e.timestamp)
    ensures r.None? <==>
            && !(cacheUp && exists e :: e in cached && (since.None? || since.value <= e.timestamp))
            && (durableUp ==> exists e :: e in log && e.beerId == beerId && (since.None? || since.value < e.timestamp))
  {
    SomeSince(cached, since);
    SomeDurable(log, beerId, since);
    if cacheUp && CachedSince(cached, since) != {} {
      FromCache(r.value, cached, log, beerId, since);
    }
  }

  /** The intent, were rows read through bytes: the same events only, and at least one whenever the
      table can be read and has a newer one. */
  lemma ReadsMeant(db0: Db, run: seq<Action>, beerId: string, since: Option<int>, cacheUp: bool, durableUp: bool,
                   r: Option<seq<Event>>)
    requires ForeignKeysHold(db0) && Final(db0, run).Some?
    requires beerId in Final(db0, run).value.o.db.beers
    requires var s := Final(db0, run).value;
             MeantToAnswer(r, Cached(s.cache, beerId), s.o.db.log, beerId, since, cacheUp, durableUp)
    ensures r.Some? ==> Ascending(r.value) && multiset(r.value) <= multiset(Final(db0, run).value.o.db.log)
    ensures r.Some? ==> forall e :: e in r.value ==> e.beerId == beerId && (since.None? || since.value <= e.timestamp)
    ensures (durableUp && exists e :: e in Final(db0, run).value.o.db.log && e.beerId == beerId &&
                                      (since.None? || since.value < e.timestamp)) ==>
              r.Some? && r.value != []
  {
    var s := Final(db0, run).value;
    var cached, log := Cached(s.cache, beerId), s.o.db.log;
    forall e | e in cached ensures e in log && e.beerId == beerId {
      CacheSoundness(db0, run, beerId, e);
    }
    if cacheUp && CachedSince(cached, since) != {} {
      FromCache(r.value, cached, log, beerId, since);
    } else if durableUp {
      FromTable(log, beerId, since);
    }
  }

  lemma FromTable(log: seq<Event>, beerId: string, since: Option<int>)
    ensures var r := Ordered(DurableSince(log, beerId, since));
            && Ascending(r) && multiset(r) <= multiset(log)
            && (forall e :: e in r ==> e.beerId == beerId && (since.None? || since.value <= e.timestamp))
            && ((exists e :: e in log && e.beerId == beerId && (since.None? || since.value < e.timestamp)) ==> r != [])
  {
    var rows := DurableSince(log, beerId, since);
    var r := Ordered(rows);
    DurableSinceOf(log, beerId, since);
    OrdersAscend(r);
    assert forall e :: e in r <==> e in multiset(r);
    assert forall e :: e in rows <==> e in multiset(rows);
  }

  lemma NoElement(rows: seq<Event>)
    ensures (forall e :: e !in rows) ==> rows == []
  {
    if rows != [] {
      assert rows[0] in rows;
    }
  }

  /** Once a beer is gone its events are gone from the table, so a reader gets either events that
      are no longer durable or nothing, depending on the cache alone. */
  lemma ReadsAfterDelete(db0: Db, run: seq<Action>, beerId: string, since: Option<int>, cacheUp: bool, durableUp: bool,
                         r: Option<seq<Event>>)
    requires ForeignKeysHold(db0) && Final(db0, run).Some?
    requires beerId !in Final(db0, run).value.o.db.beers
    requires var s := Final(db0, run).value;
             Answers(r, Cached(s.cache, beerId), s.o.db.log, beerId, since, cacheUp, durableUp)
    ensures r.Some? ==> forall e :: e in r.value ==> e !in Final(db0, run).value.o.db.log
    ensures (r.Some? && r.value != []) <==>
            cacheUp && exists e :: e in Cached(Final(db0, run).value.cache, beerId) &&
                                   (since.None? || since.value <= e.timestamp)
  {
    var s := Final(db0, run).value;
    var cached, log := Cached(s.cache, beerId), s.o.db.log;
    SystemInv(db0, run);
    LogIsHistory(db0, s.o.history);
    DurableSinceOf(log, beerId, since);
    forall e | e in cached ensures e !in log {
      CacheSoundness(db0, run, beerId, e);
    }
    assert forall e :: e in log ==> e.beerId != beerId;
    StaleReads(r, cached, log, beerId, since, cacheUp, durableUp);
  }

  lemma StaleReads(r: Option<seq<Event>>, cached: set<Event>, log: seq<Event>, beerId: string, since: Option<int>,
                   cacheUp: bool, durableUp: bool)
    requires Answers(r, cached, log, beerId, since, cacheUp, durableUp)
    requires (forall e :: e in cached ==> e !in log) && forall e :: e in log ==> e.beerId != beerId
    ensures r.Some? ==> forall e :: e in r.value ==> e !in log
    ensures (r.Some? && r.value != []) <==>
            cacheUp && exists e :: e in cached && (since.None? || since.value <= e.timestamp)
  {
    SomeSince(cached, since);
    if cacheUp && CachedSince(cached, since) != {} {
      assert forall e :: e in r.value <==> e in multiset(r.value);
      var e :| e in CachedSince(cached, since);
      assert e in multiset(r.value);
    }
  }

  // ---------------------------------------------------------------------------
  // A run that leaves a cached event behind.

  lemma Extend(db0: Db, run: seq<Action>, a: Action)
    requires Final(db0, run).Some? && Enabled(Final(db0, run).value, a)
    ensures Final(db0, run + [a]) == Some(Perform(Final(db0, run).value, a))
  {
    assert (run + [a])[..|run|] == run;
  }

  /** Transaction 0 has committed this request and nothing else is going on. */
  predicate OneCommitted(s: System, req: Request) {
    && s.o.locks == map[] && s.o.txs.Keys == {0} && s.o.txs[0] == Tx(req, Committed)
    && req.op.beerId in s.o.db.beers
  }

  /** Transaction 0 adds a comment to a row it holds, and nothing else is going on. */
  predicate OneEdited(s: System, db: Db, req: Request) {
    && s.o.db == db && s.o.txs.Keys == {0} && s.o.locks == map[req.op.beerId := 0]
    && s.o.txs[0].req == req && s.o.txs[0].phase.Edited? && s.cache == map[] && s.published == {}
  }

  lemma EditRuns(db0: Db, req: Request) returns (run: seq<Action>)
    requires req.op.AddComment? && req.op.beerId in db0.beers
    ensures Final(db0, run).Some? && OneEdited(Final(db0, run).value, db0, req)
  {
    run := [];
    Extend(db0, run, Database(Begin(0, req)));
    run := run + [Database(Begin(0, req))];
    Extend(db0, run, Database(ReadRow(0)));
    run := run + [Database(ReadRow(0))];
    Extend(db0, run, Database(EditRow(0)));
    run := run + [Database(EditRow(0))];
  }

  lemma AddRuns(db0: Db, req: Request) returns (run: seq<Action>)
    requires req.op.AddComment? && req.op.beerId in db0.beers
    ensures Final(db0, run).Some? && OneCommitted(Final(db0, run).value, req)
    ensures Final(db0, run).value.published == {} && Final(db0, run).value.cache == map[]
  {
    run := EditRuns(db0, req);
    Extend(db0, run, Database(UpdateRow(0)));
    run := run + [Database(UpdateRow(0))];
    Extend(db0, run, Database(LogEvent(0)));
    run := run + [Database(LogEvent(0))];
    Extend(db0, run, Database(CommitTx(0)));
    run := run + [Database(CommitTx(0))];
  }

  lemma DeleteRuns(db0: Db, run: seq<Action>, req: Request, del: Request) returns (longer: seq<Action>)
    requires Final(db0, run).Some? && OneCommitted(Final(db0, run).value, req)
    requires del.op == ApprovedDelete(req.op.beerId)
    ensures Final(db0, longer).Some? && Final(db0, longer).value.cache == Final(db0, run).value.cache
    ensures req.op.beerId !in Final(db0, longer).value.o.db.beers
  {
    longer := run;
    Extend(db0, longer, Database(Begin(1, del)));
    longer := longer + [Database(Begin(1, del))];
    Extend(db0, longer, Database(DeleteRow(1)));
    longer := longer + [Database(DeleteRow(1))];
    Extend(db0, longer, Database(CommitTx(1)));
    longer := longer + [Database(CommitTx(1))];
  }

  /** The stale state is reached from every table with a beer: a comment is added and its event
      cached, then a deletion of the beer is approved. A reader is answered from the cache with an
      event the table no longer has. */
  lemma StaleCacheReached(db0: Db, add: Request, del: Request)
    requires ForeignKeysHold(db0) && add.op.AddComment? && add.op.beerId in db0.beers
    requires del.op == ApprovedDelete(add.op.beerId)
    ensures exists run ::
              && Final(db0, run).Some?
              && add.op.beerId !in Final(db0, run).value.o.db.beers
              && EventOf(add) in Cached(Final(db0, run).value.cache, add.op.beerId)
              && EventOf(add) !in Final(db0, run).value.o.db.log
  {
    var run := AddRuns(db0, add);
    Extend(db0, run, CacheAdd(0));
    run := run + [CacheAdd(0)];
    run := DeleteRuns(db0, run, add, del);
    CacheSoundness(db0, run, add.op.beerId, EventOf(add));
  }

  ghost predicate AlwaysFails(s: System, beerId: string, since: Option<int>) {
    forall r | Answers(r, Cached(s.cache, beerId), s.o.db.log, beerId, since, true, true) :: r.None?
  }

  /** A read can fail with everything up: from every table with a beer, a comment is added and its
      event is not cached yet, or no more. */
  lemma DurableReadFails(db0: Db, add: Request)
    requires ForeignKeysHold(db0) && add.op.AddComment? && add.op.beerId in db0.beers
    ensures exists run ::
              && Final(db0, run).Some?
              && add.op.beerId in Final(db0, run).value.o.db.beers
              && EventOf(add) in Final(db0, run).value.o.db.log
              && AlwaysFails(Final(db0, run).value, add.op.beerId, None)
  {
    var run := AddRuns(db0, add);
    var s := Final(db0, run).value;
    SystemInv(db0, run);
    EventCommitted(s.o.history, Commit(0, add));
    DurableIffAlive(db0, s.o, EventOf(add));
    SomeDurable(s.o.db.log, add.op.beerId, None);
    assert EventOf(add) in s.o.db.log && EventOf(add).beerId == add.op.beerId && Newer(EventOf(add), None);
    assert Cached(s.cache, add.op.beerId) == {} && CachedSince({}, None) == {};
  }
}
