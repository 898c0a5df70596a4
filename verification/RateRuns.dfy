/** The limiter over whole runs, against a reference that remembers every admission. */
module RateRuns {
  import opened Wrappers
  import opened RateSpec

  datatype Client = Client(userId: Option<string>, address: string)

  /** Users and addresses never share a key, and no key is empty. */
  function ClientKey(c: Client): (key: string)
    ensures key != ""
    ensures c.userId.Some? && c.userId.value != "" <==> key[0] == 'u'
  {
    if c.userId.Some? && c.userId.value != "" then "u:" + c.userId.value else "i:" + c.address
  }

  /** A user known by its id, which takes precedence over the address. */
  predicate Known(c: Client) { c.userId.Some? && c.userId.value != "" }

  /** Equal keys come from one user, or from one address of clients without a user. */
  lemma KeysTellClientsApart(c: Client, d: Client)
    ensures ClientKey(c) == ClientKey(d) <==>
            Known(c) == Known(d) && if Known(c) then c.userId == d.userId else c.address == d.address
  {
    assert Known(c) ==> ClientKey(c)[2..] == c.userId.value;
    assert Known(d) ==> ClientKey(d)[2..] == d.userId.value;
    assert !Known(c) ==> ClientKey(c)[2..] == c.address;
    assert !Known(d) ==> ClientKey(d)[2..] == d.address;
  }

  /** One request: when it was served, the entry evicted for it, and the verdict. */
  datatype Request = Request(client: Client, now: int, victim: Option<string>, ok: bool)
  {
    function Key(): string { ClientKey(client) }
  }

  function Last(reqs: seq<Request>): Request
    requires reqs != []
  {
    reqs[|reqs| - 1]
  }

  function Init(reqs: seq<Request>): seq<Request>
    requires reqs != []
  {
    reqs[..|reqs| - 1]
  }

  function Final(l: Limiter, reqs: seq<Request>): Limiter {
    if reqs == [] then l
    else Next(Final(l, Init(reqs)), Last(reqs).Key(), Last(reqs).now, Last(reqs).victim)
  }

  /** The limiter answers request `r` as recorded, evicting what it may evict. */
  predicate Serves(l: Limiter, r: Request) {
    MayEvict(AfterCleanup(l, r.now), r.victim) && r.ok == Verdict(l, r.Key(), r.now, r.victim)
  }

  /** A run of a fresh limiter under a clock that never goes back. */
  ghost predicate IsRun(l: Limiter, reqs: seq<Request>) {
    if reqs == [] then l.limit > 0 && l.hits == map[]
    else
      && IsRun(l, Init(reqs))
      && (Init(reqs) != [] ==> Last(Init(reqs)).now <= Last(reqs).now)
      && Serves(Final(l, Init(reqs)), Last(reqs))
  }

  // ---------------------------------------------------------------------------
  // The reference.

  /** Every time a request of this key was admitted. */
  function Admissions(reqs: seq<Request>, key: string): seq<int> {
    if reqs == [] then []
    else Admissions(Init(reqs), key) + if Last(reqs).Key() == key && Last(reqs).ok then [Last(reqs).now] else []
  }

  /** Those of them the key had collected since its last eviction, when the last request is judged. */
  function Kept(reqs: seq<Request>, key: string): seq<int>
    requires reqs != []
    decreases |reqs|, 0
  {
    if Last(reqs).victim == Some(key) then [] else Since(Init(reqs), key)
  }

  function Since(reqs: seq<Request>, key: string): seq<int>
    decreases |reqs|, 1
  {
    if reqs == [] then []
    else Kept(reqs, key) + if Last(reqs).Key() == key && Last(reqs).ok then [Last(reqs).now] else []
  }

  function Evictions(reqs: seq<Request>, key: string): nat {
    if reqs == [] then 0 else Evictions(Init(reqs), key) + if Last(reqs).victim == Some(key) then 1 else 0
  }

  /** Every verdict is the reference's: room in the window for what the key has collected. */
  predicate Faithful(reqs: seq<Request>, limit: int, window: int) {
    reqs == [] ||
    (&& Faithful(Init(reqs), limit, window)
     && Last(reqs).ok == (|Recent(Kept(reqs, Last(reqs).Key()), Last(reqs).now - window)| < limit))
  }

  lemma {:induction false} NeverEvicted(reqs: seq<Request>, key: string)
    requires Evictions(reqs, key) == 0
    ensures Since(reqs, key) == Admissions(reqs, key)
    ensures reqs != [] ==> Kept(reqs, key) == Admissions(Init(reqs), key)
  {
    if reqs != [] {
      NeverEvicted(Init(reqs), key);
    }
  }

  // ---------------------------------------------------------------------------
  // Windows over lists of times.

  lemma {:induction false} RecentTwice(times: seq<int>, c: int, d: int)
    requires c <= d
    ensures Recent(Recent(times, c), d) == Recent(times, d)
  {
    if times != [] {
      var init, t := times[..|times| - 1], times[|times| - 1];
      RecentTwice(init, c, d);
      if t > c {
        RecentSnoc(Recent(init, c), t, d);
      } else {
        assert Recent(init, c) + [] == Recent(init, c);
      }
    }
  }

  lemma RecentSnoc(times: seq<int>, t: int, cutoff: int)
    ensures Recent(times + [t], cutoff) == Recent(times, cutoff) + if t > cutoff then [t] else []
  {
    assert (times + [t])[..|times|] == times;
  }

  /** How many times fall in (lo, hi]. */
  function Within(times: seq<int>, lo: int, hi: int): nat {
    if times == [] then 0
    else Within(times[..|times| - 1], lo, hi) + if lo < times[|times| - 1] <= hi then 1 else 0
  }

  lemma WithinSnoc(times: seq<int>, t: int, lo: int, hi: int)
    ensures Within(times + [t], lo, hi) == Within(times, lo, hi) + if lo < t <= hi then 1 else 0
  {
    assert (times + [t])[..|times|] == times;
  }

  lemma WithinAppend(times: seq<int>, more: seq<int>, lo: int, hi: int)
    requires |more| <= 1
    ensures Within(times + more, lo, hi) == Within(times, lo, hi) + Within(more, lo, hi)
  {
    if more == [] {
      assert times + more == times;
    } else {
      WithinSnoc(times, more[0], lo, hi);
      WithinSnoc([], more[0], lo, hi);
      assert more == [] + [more[0]];
    }
  }

  lemma {:induction false} WithinRecent(times: seq<int>, lo: int, hi: int, cutoff: int)
    requires cutoff <= lo
    ensures Within(times, lo, hi) <= |Recent(times, cutoff)|
  {
    if times != [] {
      WithinRecent(times[..|times| - 1], lo, hi, cutoff);
    }
  }

  predicate Ascending(times: seq<int>) {
    forall i, j :: 0 <= i < j < |times| ==> times[i] <= times[j]
  }

  lemma {:induction false} RecentFacts(times: seq<int>, cutoff: int)
    ensures forall t :: t in Recent(times, cutoff) ==> t in times && cutoff < t
    ensures Ascending(times) ==> Ascending(Recent(times, cutoff))
  {
    if times != [] {
      var init := times[..|times| - 1];
      RecentFacts(init, cutoff);
      assert Ascending(times) ==> Ascending(init) && forall t :: t in init ==> t <= times[|times| - 1];
      assert forall i :: 0 <= i < |Recent(init, cutoff)| ==> Recent(init, cutoff)[i] in Recent(init, cutoff);
    }
  }

  // ---------------------------------------------------------------------------
  // Refinement: compaction, cleanup and map entries are invisible.

  /** On every window a later request can ask about, a stored log and the reference agree. */
  ghost predicate SameFrom(stored: seq<int>, reference: seq<int>, start: int) {
    forall cutoff :: start <= cutoff ==> SameAt(stored, reference, cutoff)
  }

  predicate SameAt(stored: seq<int>, reference: seq<int>, cutoff: int) {
    Recent(stored, cutoff) == Recent(reference, cutoff)
  }

  lemma SameCleaned(hits: Hits, key: string, reference: seq<int>, start: int, cutoff: int)
    requires SameFrom(Stored(hits, key), reference, start) && start <= cutoff
    ensures SameFrom(Stored(Cleaned(hits, cutoff), key), reference, cutoff)
  {
    forall c | cutoff <= c ensures SameAt(Stored(Cleaned(hits, cutoff), key), reference, c) {
      assert SameAt(Stored(hits, key), reference, c);
      RecentTwice(Stored(hits, key), cutoff, c);
    }
  }

  lemma SameAfterCleanup(l: Limiter, key: string, now: int, reference: seq<int>, start: int)
    requires SameFrom(Stored(l.hits, key), reference, start) && start <= now - l.window
    ensures SameFrom(Stored(AfterCleanup(l, now).hits, key), reference, now - l.window)
  {
    if now - l.lastCleanup >= CLEANUP_INTERVAL {
      SameCleaned(l.hits, key, reference, start, now - l.window);
    }
  }

  lemma StoredAfterEviction(l: Limiter, key: string, victim: Option<string>)
    ensures Stored(AfterEviction(l, victim).hits, key) == if victim == Some(key) then [] else Stored(l.hits, key)
  {
  }

  lemma SameRoom(l: Limiter, key: string, now: int, victim: Option<string>, reference: seq<int>, start: int)
    requires SameFrom(Stored(l.hits, key), reference, start) && start <= now - l.window
    ensures SameFrom(Stored(Room(l, now, victim).hits, key),
                     if victim == Some(key) then [] else reference, now - l.window)
  {
    SameAfterCleanup(l, key, now, reference, start);
    StoredAfterEviction(AfterCleanup(l, now), key, victim);
  }

  lemma SameExtendedAt(times: seq<int>, reference: seq<int>, start: int, now: int, c: int)
    requires SameAt(times, reference, c) && start <= c
    ensures SameAt(Recent(times, start), reference, c)
    ensures SameAt(Recent(times, start) + [now], reference + [now], c)
  {
    RecentTwice(times, start, c);
    RecentSnoc(Recent(times, start), now, c);
    RecentSnoc(reference, now, c);
  }

  lemma SameExtended(times: seq<int>, reference: seq<int>, start: int, now: int, ok: bool)
    requires SameFrom(times, reference, start)
    ensures SameFrom(Recent(times, start) + if ok then [now] else [], reference + if ok then [now] else [], start)
  {
    assert Recent(times, start) + [] == Recent(times, start) && reference + [] == reference;
    var stored, longer := Recent(times, start) + if ok then [now] else [], reference + if ok then [now] else [];
    forall c | start <= c ensures SameAt(stored, longer, c) {
      SameExtendedAt(times, reference, start, now, c);
    }
  }

  lemma SameUntouched(times: seq<int>, reference: seq<int>, start: int)
    requires SameFrom(times, reference, start)
    ensures SameFrom(times, reference + [], start)
  {
    assert reference + [] == reference;
  }

  lemma SameAdmitted(l: Limiter, key: string, own: string, now: int, reference: seq<int>)
    requires SameFrom(Stored(l.hits, key), reference, now - l.window)
    ensures SameFrom(Stored(Admitted(l, own, now).hits, key),
                     reference + if own == key && Admits(l, own, now) then [now] else [], now - l.window)
  {
    if own == key {
      SameExtended(Stored(l.hits, key), reference, now - l.window, now, Admits(l, own, now));
    } else {
      SameUntouched(Stored(l.hits, key), reference, now - l.window);
    }
  }

  lemma {:induction false} Parameters(l: Limiter, reqs: seq<Request>)
    ensures Final(l, reqs).limit == l.limit && Final(l, reqs).window == l.window
  {
    if reqs != [] {
      Parameters(l, Init(reqs));
    }
  }

  lemma {:induction false} StoredAgrees(l: Limiter, reqs: seq<Request>, key: string)
    requires IsRun(l, reqs)
    ensures reqs == [] ==> Stored(Final(l, reqs).hits, key) == []
    ensures reqs != [] ==> SameFrom(Stored(Final(l, reqs).hits, key), Since(reqs, key), Last(reqs).now - l.window)
    ensures reqs != [] ==> SameFrom(Stored(Room(Final(l, Init(reqs)), Last(reqs).now, Last(reqs).victim).hits, key),
                                    Kept(reqs, key), Last(reqs).now - l.window)
  {
    if reqs != [] {
      StoredAgrees(l, Init(reqs), key);
      Parameters(l, Init(reqs));
      var before, r := Final(l, Init(reqs)), Last(reqs);
      var start := if Init(reqs) == [] then r.now - l.window else Last(Init(reqs)).now - l.window;
      SameRoom(before, key, r.now, r.victim, Since(Init(reqs), key), start);
      SameAdmitted(Room(before, r.now, r.victim), key, r.Key(), r.now, Kept(reqs, key));
    }
  }

  /** The log the verdict looks at is exactly the reference's window. */
  lemma WindowAgrees(l: Limiter, reqs: seq<Request>)
    requires IsRun(l, reqs) && reqs != []
    ensures var room := Room(Final(l, Init(reqs)), Last(reqs).now, Last(reqs).victim);
            && room.limit == l.limit && room.window == l.window
            && InWindow(room, Last(reqs).Key(), Last(reqs).now) ==
                  Recent(Kept(reqs, Last(reqs).Key()), Last(reqs).now - l.window)
            && Last(reqs).ok == Admits(room, Last(reqs).Key(), Last(reqs).now)
  {
    StoredAgrees(l, reqs, Last(reqs).Key());
    Parameters(l, Init(reqs));
    assert SameAt(Stored(Room(Final(l, Init(reqs)), Last(reqs).now, Last(reqs).victim).hits, Last(reqs).Key()),
                  Kept(reqs, Last(reqs).Key()), Last(reqs).now - l.window);
  }

  /** Refinement: wherever cleanups and evictions fall, a request is admitted exactly when the
      admissions of its key since the key's last eviction leave room in the window; for a key
      never evicted those are all its admissions ever. */
  lemma {:induction false} Refinement(l: Limiter, reqs: seq<Request>)
    requires IsRun(l, reqs)
    ensures l.limit > 0 && Faithful(reqs, l.limit, l.window)
    ensures reqs != [] && Evictions(reqs, Last(reqs).Key()) == 0 ==>
              Last(reqs).ok == (|Recent(Admissions(Init(reqs), Last(reqs).Key()), Last(reqs).now - l.window)| < l.limit)
  {
    if reqs != [] {
      Refinement(l, Init(reqs));
      WindowAgrees(l, reqs);
      if Evictions(reqs, Last(reqs).Key()) == 0 {
        NeverEvicted(reqs, Last(reqs).Key());
      }
    }
  }

  // ---------------------------------------------------------------------------
  // The window bound, at every instant.

  lemma {:induction false} SinceBound(reqs: seq<Request>, limit: int, window: int, key: string, t: int)
    requires Faithful(reqs, limit, window) && limit > 0
    ensures Within(Since(reqs, key), t - window, t) <= limit
  {
    if reqs != [] {
      SinceBound(Init(reqs), limit, window, key, t);
      var kept, now := Kept(reqs, key), Last(reqs).now;
      WithinSnoc(kept, now, t - window, t);
      assert kept + [] == kept;
      if now <= t {
        WithinRecent(kept, t - window, t, now - window);
      }
    }
  }

  /** The limit, once for the start and once for each eviction. */
  function Allowance(reqs: seq<Request>, limit: int, key: string): int {
    if reqs == [] then limit
    else Allowance(Init(reqs), limit, key) + if Last(reqs).victim == Some(key) then limit else 0
  }

  lemma {:induction false} AllowanceIs(reqs: seq<Request>, limit: int, key: string)
    ensures Allowance(reqs, limit, key) == limit * (1 + Evictions(reqs, key))
  {
    if reqs != [] {
      AllowanceIs(Init(reqs), limit, key);
    }
  }

  lemma {:induction false} Segments(reqs: seq<Request>, limit: int, window: int, key: string, t: int)
    requires Faithful(reqs, limit, window) && limit > 0
    ensures Within(Admissions(reqs, key), t - window, t) + limit
            <= Allowance(reqs, limit, key) + Within(Since(reqs, key), t - window, t)
  {
    if reqs != [] {
      Segments(Init(reqs), limit, window, key, t);
      SinceBound(Init(reqs), limit, window, key, t);
      var now, all, kept := Last(reqs).now, Admissions(Init(reqs), key), Kept(reqs, key);
      var admitted := if Last(reqs).Key() == key && Last(reqs).ok then [now] else [];
      WithinAppend(all, admitted, t - window, t);
      WithinAppend(kept, admitted, t - window, t);
    }
  }

  lemma WindowBound(reqs: seq<Request>, limit: int, window: int, key: string, t: int)
    requires Faithful(reqs, limit, window) && limit > 0
    ensures Within(Admissions(reqs, key), t - window, t) <= Allowance(reqs, limit, key)
    ensures Evictions(reqs, key) == 0 ==> Within(Admissions(reqs, key), t - window, t) <= limit
  {
    Segments(reqs, limit, window, key, t);
    SinceBound(reqs, limit, window, key, t);
    AllowanceIs(reqs, limit, key);
  }

  lemma RunsAreFaithful(l: Limiter, reqs: seq<Request>)
    ensures IsRun(l, reqs) ==> l.limit > 0 && Faithful(reqs, l.limit, l.window)
  {
    if IsRun(l, reqs) {
      Refinement(l, reqs);
    }
  }

  /** In every run and at every instant, the admissions of a key in the last window are at most
      the limit, plus once more the limit for each time the key was evicted. */
  lemma SlidingWindowBound(l: Limiter, reqs: seq<Request>, key: string, t: int)
    requires IsRun(l, reqs)
    ensures Within(Admissions(reqs, key), t - l.window, t) <= Allowance(reqs, l.limit, key)
    ensures Evictions(reqs, key) == 0 ==> Within(Admissions(reqs, key), t - l.window, t) <= l.limit
  {
    RunsAreFaithful(l, reqs);
    WindowBound(reqs, l.limit, l.window, key, t);
  }

  // ---------------------------------------------------------------------------
  // What is stored.

  ghost predicate WellStored(times: seq<int>, limit: int, now: int) {
    times != [] && |times| <= limit && Ascending(times) && forall t :: t in times ==> t <= now
  }

  ghost predicate Bounded(l: Limiter, now: int) {
    && |l.hits| <= MAX_KEYS && "" !in l.hits
    && forall k :: k in l.hits ==> WellStored(l.hits[k], l.limit, now)
  }

  lemma RecentWellStored(times: seq<int>, limit: int, was: int, now: int, cutoff: int)
    requires WellStored(times, limit, was) && was <= now && Recent(times, cutoff) != []
    ensures WellStored(Recent(times, cutoff), limit, now)
  {
    RecentFacts(times, cutoff);
  }

  lemma MapSize(m: Hits, n: Hits)
    requires m.Keys <= n.Keys
    ensures |m| <= |n|
  {
    assert n.Keys == m.Keys + (n.Keys - m.Keys);
    assert |m.Keys| == |m| && |n.Keys| == |n|;
  }

  lemma CleanedBounded(hits: Hits, limit: int, was: int, now: int, cutoff: int)
    requires was <= now && forall k :: k in hits ==> WellStored(hits[k], limit, was)
    ensures |Cleaned(hits, cutoff)| <= |hits|
    ensures forall k :: k in Cleaned(hits, cutoff) ==> k in hits && WellStored(Cleaned(hits, cutoff)[k], limit, now)
  {
    MapSize(Cleaned(hits, cutoff), hits);
    forall k | k in Cleaned(hits, cutoff) ensures WellStored(Recent(hits[k], cutoff), limit, now) {
      RecentWellStored(hits[k], limit, was, now, cutoff);
    }
  }

  lemma CleanupBounded(l: Limiter, was: int, now: int)
    requires Bounded(l, was) && was <= now
    ensures Bounded(AfterCleanup(l, now), now)
  {
    if now - l.lastCleanup >= CLEANUP_INTERVAL {
      CleanedBounded(l.hits, l.limit, was, now, now - l.window);
    }
  }

  /** At the cap exactly one entry goes, and it holds the oldest time stored anywhere. */
  lemma EvictionIsOldest(l: Limiter, now: int, victim: Option<string>)
    requires Bounded(l, now) && MayEvict(l, victim)
    ensures Bounded(AfterEviction(l, victim), now)
    ensures |AfterEviction(l, victim).hits| < MAX_KEYS
    ensures |l.hits| < MAX_KEYS ==> AfterEviction(l, victim) == l
    ensures |l.hits| == MAX_KEYS ==>
              && victim.Some? && victim.value in l.hits
              && AfterEviction(l, victim).hits == l.hits - {victim.value}
              && forall k, t :: k in l.hits && t in l.hits[k] ==> l.hits[victim.value][0] <= t
  {
    if |l.hits| == MAX_KEYS {
      assert l.hits != map[];
      var some :| some in l.hits;
      assert WellStored(l.hits[some], l.limit, now);
      var v := victim.value;
      assert (l.hits - {v}).Keys == l.hits.Keys - {v};
      assert |l.hits.Keys - {v}| == |l.hits.Keys| - 1;
      forall k, t | k in l.hits && t in l.hits[k] ensures l.hits[v][0] <= t {
        assert WellStored(l.hits[k], l.limit, now);
        var i :| 0 <= i < |l.hits[k]| && l.hits[k][i] == t;
        assert l.hits[k][0] <= l.hits[k][i];
      }
    }
  }

  lemma AdmittedBounded(l: Limiter, key: string, now: int)
    requires Bounded(l, now) && |l.hits| < MAX_KEYS && key != "" && l.limit > 0
    ensures Bounded(Admitted(l, key, now), now)
    ensures |InWindow(l, key, now)| <= l.limit
  {
    var times := InWindow(l, key, now);
    assert key in l.hits ==> WellStored(l.hits[key], l.limit, now);
    WindowWellStored(Stored(l.hits, key), l.limit, now, now - l.window);
    assert times + [] == times;
    PutSize(l.hits, key, times + if Admits(l, key, now) then [now] else []);
  }

  lemma PutSize(hits: Hits, key: string, times: seq<int>)
    ensures |hits[key := times]| <= |hits| + 1
  {
    assert hits[key := times].Keys == hits.Keys + {key};
    assert |hits.Keys + {key}| <= |hits.Keys| + 1;
  }

  lemma WindowWellStored(stored: seq<int>, limit: int, now: int, cutoff: int)
    requires stored == [] || WellStored(stored, limit, now)
    requires limit > 0
    ensures |Recent(stored, cutoff)| <= limit
    ensures Recent(stored, cutoff) != [] ==> WellStored(Recent(stored, cutoff), limit, now)
    ensures |Recent(stored, cutoff)| < limit ==> WellStored(Recent(stored, cutoff) + [now], limit, now)
  {
    RecentFacts(stored, cutoff);
    var times := Recent(stored, cutoff);
    assert forall i :: 0 <= i < |times| ==> times[i] in times;
  }

  lemma {:induction false} RunBounded(l: Limiter, reqs: seq<Request>)
    requires IsRun(l, reqs)
    ensures l.limit > 0
    ensures reqs == [] ==> Final(l, reqs).hits == map[]
    ensures reqs != [] ==>
              var r, before := Last(reqs), Final(l, Init(reqs));
              && Bounded(AfterCleanup(before, r.now), r.now)
              && Bounded(Room(before, r.now, r.victim), r.now) && |Room(before, r.now, r.victim).hits| < MAX_KEYS
              && Bounded(Final(l, reqs), r.now)
  {
    if reqs != [] {
      RunBounded(l, Init(reqs));
      Parameters(l, Init(reqs));
      var r, before := Last(reqs), Final(l, Init(reqs));
      CleanupBounded(before, if Init(reqs) == [] then r.now else Last(Init(reqs)).now, r.now);
      EvictionIsOldest(AfterCleanup(before, r.now), r.now, r.victim);
      AdmittedBounded(Room(before, r.now, r.victim), r.Key(), r.now);
    }
  }

  ghost function Total(hits: Hits): nat
    decreases |hits|
  {
    if hits == map[] then 0
    else
      var k :| k in hits;
      assert (hits - {k}).Keys == hits.Keys - {k} && |hits.Keys - {k}| == |hits.Keys| - 1;
      |hits[k]| + Total(hits - {k})
  }

  lemma OneMore(n: nat, limit: int)
    ensures (n + 1) * limit == n * limit + limit
  {
  }

  lemma {:induction false} TotalBound(hits: Hits, limit: int)
    requires limit > 0 && forall k :: k in hits ==> |hits[k]| <= limit
    ensures Total(hits) <= |hits| * limit
    decreases |hits|
  {
    if hits != map[] {
      var k :| k in hits && Total(hits) == |hits[k]| + Total(hits - {k});
      assert (hits - {k}).Keys == hits.Keys - {k} && |hits.Keys - {k}| == |hits.Keys| - 1;
      TotalBound(hits - {k}, limit);
      OneMore(|hits - {k}|, limit);
    }
  }

  lemma ScaleMonotone(m: nat, n: nat, limit: int)
    requires m <= n && limit > 0
    ensures m * limit <= n * limit
  {
  }

  lemma BoundedTotal(l: Limiter, now: int)
    requires Bounded(l, now) && l.limit > 0
    ensures Total(l.hits) <= MAX_KEYS * l.limit
  {
    forall k | k in l.hits ensures |l.hits[k]| <= l.limit {
      assert WellStored(l.hits[k], l.limit, now);
    }
    TotalBound(l.hits, l.limit);
    ScaleMonotone(|l.hits|, MAX_KEYS, l.limit);
  }

  /** After every request: at most 100000 keys, each with a nonempty ascending log no longer than
      the limit, so at most 100000 times the limit in all. */
  lemma MemoryBound(l: Limiter, reqs: seq<Request>)
    requires IsRun(l, reqs) && reqs != []
    ensures Bounded(Final(l, reqs), Last(reqs).now)
    ensures |Final(l, reqs).hits| <= 100_000 && Total(Final(l, reqs).hits) <= 100_000 * l.limit
  {
    RunBounded(l, reqs);
    Parameters(l, reqs);
    BoundedTotal(Final(l, reqs), Last(reqs).now);
  }

  lemma {:induction false} RecentMembers(times: seq<int>, cutoff: int)
    ensures forall t :: t in Recent(times, cutoff) <==> t in times && cutoff < t
  {
    if times != [] {
      var init, last := times[..|times| - 1], times[|times| - 1];
      RecentMembers(init, cutoff);
      assert times == init + [last];
    }
  }

  /** Five minutes after the last cleanup exactly the expired times go, and with them the logs
      that hold no other; before that nothing does. */
  lemma CleanupWhenDue(l: Limiter, now: int)
    ensures var cleaned := AfterCleanup(l, now);
            if now - l.lastCleanup < 300_000_000_000 then cleaned == l
            else
              && cleaned.lastCleanup == now && cleaned.limit == l.limit && cleaned.window == l.window
              && (forall k :: k in cleaned.hits <==> k in l.hits && exists t :: t in l.hits[k] && now - l.window < t)
              && (forall k, t :: k in cleaned.hits ==>
                    (t in cleaned.hits[k] <==> t in l.hits[k] && now - l.window < t))
  {
    var cutoff := now - l.window;
    forall k | k in l.hits
      ensures Recent(l.hits[k], cutoff) != [] <==> exists t :: t in l.hits[k] && cutoff < t
      ensures forall t :: t in Recent(l.hits[k], cutoff) <==> t in l.hits[k] && cutoff < t
    {
      RecentMembers(l.hits[k], cutoff);
      if Recent(l.hits[k], cutoff) != [] {
        var first := Recent(l.hits[k], cutoff)[0];
        assert first in Recent(l.hits[k], cutoff);
        assert first in l.hits[k] && cutoff < first;
      }
    }
  }

  /** A request that comes five minutes after the last cleanup leaves no expired time behind, of any key. */
  lemma NothingExpired(l: Limiter, r: Request)
    requires l.window > 0 && r.now - l.lastCleanup >= 300_000_000_000
    ensures var after := Next(l, r.Key(), r.now, r.victim);
            forall k, t :: k in after.hits && t in after.hits[k] ==> r.now - l.window < t
  {
    CleanupWhenDue(l, r.now);
    var room := Room(l, r.now, r.victim);
    RecentMembers(Stored(room.hits, r.Key()), r.now - l.window);
  }

  /** A request of this key was admitted at this time. */
  ghost predicate WasAdmitted(reqs: seq<Request>, key: string, t: int) {
    exists i :: 0 <= i < |reqs| && reqs[i].Key() == key && reqs[i].ok && reqs[i].now == t
  }

  lemma WasAdmittedEarlier(reqs: seq<Request>, key: string, t: int)
    requires reqs != [] && WasAdmitted(Init(reqs), key, t)
    ensures WasAdmitted(reqs, key, t)
  {
    var i :| 0 <= i < |Init(reqs)| && Init(reqs)[i].Key() == key && Init(reqs)[i].ok && Init(reqs)[i].now == t;
    assert reqs[i] == Init(reqs)[i];
  }

  lemma {:induction false} SinceReal(reqs: seq<Request>, key: string)
    ensures forall t :: t in Since(reqs, key) ==> WasAdmitted(reqs, key, t)
  {
    if reqs != [] {
      SinceReal(Init(reqs), key);
      var kept := Kept(reqs, key);
      forall t | t in Since(reqs, key) ensures WasAdmitted(reqs, key, t) {
        if t in kept {
          assert t in Since(Init(reqs), key);
          WasAdmittedEarlier(reqs, key, t);
        } else {
          assert t == Last(reqs).now && reqs[|reqs| - 1] == Last(reqs);
        }
      }
    }
  }

  ghost predicate RealSince(times: seq<int>, cutoff: int, reqs: seq<Request>, key: string) {
    forall t :: t in times ==> cutoff < t && WasAdmitted(reqs, key, t)
  }

  ghost predicate UpTo(times: seq<int>, now: int) {
    forall t :: t in times ==> t <= now
  }

  /** What the reference counts for a key when the last request is judged. */
  function ReferenceWindow(reqs: seq<Request>, key: string, cutoff: int): seq<int>
    requires reqs != []
  {
    Recent(Kept(reqs, key), cutoff)
  }

  lemma RecentKeptReal(reqs: seq<Request>, key: string, cutoff: int)
    requires reqs != []
    ensures RealSince(ReferenceWindow(reqs, key, cutoff), cutoff, Init(reqs), key)
  {
    RecentFacts(Kept(reqs, key), cutoff);
    SinceReal(Init(reqs), key);
  }

  lemma DenialStores(room: Limiter, key: string, now: int)
    requires Bounded(room, now) && |room.hits| < MAX_KEYS && room.limit > 0 && key != "" && !Admits(room, key, now)
    ensures var hits := Admitted(room, key, now).hits;
            key in hits && hits[key] == InWindow(room, key, now) && |hits[key]| == room.limit
    ensures UpTo(InWindow(room, key, now), now)
  {
    AdmittedBounded(room, key, now);
    assert InWindow(room, key, now) + [] == InWindow(room, key, now);
    assert WellStored(Admitted(room, key, now).hits[key], room.limit, now);
  }

  function LastJudged(l: Limiter, reqs: seq<Request>): Limiter
    requires reqs != []
  {
    Room(Final(l, Init(reqs)), Last(reqs).now, Last(reqs).victim)
  }

  /** The logs the verdict is taken on, related to what the key has collected. */
  ghost predicate Judges(room: Limiter, l: Limiter, key: string, now: int, counted: seq<int>, ok: bool) {
    && Bounded(room, now) && |room.hits| < MAX_KEYS && l.limit > 0 && key != ""
    && room.limit == l.limit && room.window == l.window
    && InWindow(room, key, now) == counted
    && ok == Admits(room, key, now)
  }

  ghost predicate LastJudges(l: Limiter, reqs: seq<Request>)
    requires reqs != []
  {
    var key, now := Last(reqs).Key(), Last(reqs).now;
    Judges(LastJudged(l, reqs), l, key, now, ReferenceWindow(reqs, key, now - l.window), Last(reqs).ok)
  }

  lemma LastRoom(l: Limiter, reqs: seq<Request>)
    requires reqs != []
    ensures IsRun(l, reqs) ==> LastJudges(l, reqs)
  {
    if IsRun(l, reqs) {
      RunBounded(l, reqs);
      WindowAgrees(l, reqs);
    }
  }

  /** As many times as the limit, all in the window up to now, all of them real. */
  ghost predicate FullWindow(stored: seq<int>, limit: int, cutoff: int, now: int, reqs: seq<Request>, key: string) {
    |stored| == limit && forall t :: t in stored ==> cutoff < t <= now && WasAdmitted(reqs, key, t)
  }

  lemma DenialJustified(l: Limiter, room: Limiter, final: Limiter, key: string, now: int, counted: seq<int>, ok: bool,
                        reqs: seq<Request>)
    requires final == Admitted(room, key, now) && !ok
    ensures Judges(room, l, key, now, counted, ok) && RealSince(counted, now - l.window, reqs, key) ==>
              && key in final.hits && final.hits[key] == counted
              && FullWindow(final.hits[key], l.limit, now - l.window, now, reqs, key)
  {
    if Judges(room, l, key, now, counted, ok) {
      DenialStores(room, key, now);
    }
  }

  lemma LastStep(l: Limiter, reqs: seq<Request>)
    requires reqs != []
    ensures Final(l, reqs) == Admitted(LastJudged(l, reqs), Last(reqs).Key(), Last(reqs).now)
  {
  }

  /** The key's stored log after the last request is what the reference counts, and is full. */
  ghost predicate FullyDenied(l: Limiter, reqs: seq<Request>)
    requires reqs != []
  {
    var key, now, hits := Last(reqs).Key(), Last(reqs).now, Final(l, reqs).hits;
    && key in hits && hits[key] == ReferenceWindow(reqs, key, now - l.window)
    && FullWindow(hits[key], l.limit, now - l.window, now, Init(reqs), key)
  }

  lemma JudgedDenial(l: Limiter, reqs: seq<Request>)
    requires reqs != [] && !Last(reqs).ok
    ensures LastJudges(l, reqs) ==> FullyDenied(l, reqs)
  {
    var key, now := Last(reqs).Key(), Last(reqs).now;
    LastStep(l, reqs);
    RecentKeptReal(reqs, key, now - l.window);
    DenialJustified(l, LastJudged(l, reqs), Final(l, reqs), key, now, ReferenceWindow(reqs, key, now - l.window),
                    Last(reqs).ok, Init(reqs));
  }

  /** A denied request, evictions or not, has exactly the limit of real admissions of its key
      stored, every one of them in the last window. */
  lemma DenialsJustified(l: Limiter, reqs: seq<Request>)
    requires IsRun(l, reqs) && reqs != [] && !Last(reqs).ok
    ensures FullyDenied(l, reqs)
  {
    LastRoom(l, reqs);
    JudgedDenial(l, reqs);
  }
}
