/**
 When an eviction can happen at all, and what it costs: below the cap the plain limit holds in
 every window; at the cap there is a run in which it does not.
 */
module RateEviction {
  import opened Wrappers
  import opened RateSpec
  import opened RateRuns

  // ---------------------------------------------------------------------------
  // Below the cap.

  function Keys(reqs: seq<Request>): set<string> {
    if reqs == [] then {} else Keys(Init(reqs)) + {Last(reqs).Key()}
  }

  lemma {:induction false} StoredKeys(l: Limiter, reqs: seq<Request>)
    requires IsRun(l, reqs)
    ensures Final(l, reqs).hits.Keys <= Keys(reqs)
  {
    if reqs != [] {
      StoredKeys(l, Init(reqs));
    }
  }

  lemma SubsetSize(s: set<string>, t: set<string>)
    requires s <= t
    ensures |s| <= |t|
  {
    assert t == s + (t - s);
  }

  lemma CleanupShrinks(l: Limiter, now: int)
    ensures AfterCleanup(l, now).hits.Keys <= l.hits.Keys
  {
  }

  lemma {:induction false} NoEvictionBelowCap(l: Limiter, reqs: seq<Request>, key: string)
    requires IsRun(l, reqs) && |Keys(reqs)| < MAX_KEYS
    ensures Evictions(reqs, key) == 0
  {
    if reqs != [] {
      SubsetSize(Keys(Init(reqs)), Keys(reqs));
      NoEvictionBelowCap(l, Init(reqs), key);
      StoredKeys(l, Init(reqs));
      var clean := AfterCleanup(Final(l, Init(reqs)), Last(reqs).now);
      CleanupShrinks(Final(l, Init(reqs)), Last(reqs).now);
      SubsetSize(clean.hits.Keys, Keys(Init(reqs)));
      assert |clean.hits| == |clean.hits.Keys|;
    }
  }

  /** With fewer clients than the cap, no window of any key ever holds more than the limit. */
  lemma PlainBoundBelowCap(l: Limiter, reqs: seq<Request>, key: string, t: int)
    requires IsRun(l, reqs) && |Keys(reqs)| < MAX_KEYS
    ensures Within(Admissions(reqs, key), t - l.window, t) <= l.limit
  {
    NoEvictionBelowCap(l, reqs, key);
    SlidingWindowBound(l, reqs, key, t);
  }

  // ---------------------------------------------------------------------------
  // At the cap: one client uses up its limit, others fill the map, and the next request evicts
  // the first client's log.

  function Repeat(t: int, n: nat): (r: seq<int>)
    ensures |r| == n && forall i :: 0 <= i < n ==> r[i] == t
  {
    if n == 0 then [] else Repeat(t, n - 1) + [t]
  }

  lemma {:induction false} RecentAll(times: seq<int>, cutoff: int)
    requires forall i :: 0 <= i < |times| ==> times[i] > cutoff
    ensures Recent(times, cutoff) == times
  {
    if times != [] {
      RecentAll(times[..|times| - 1], cutoff);
    }
  }

  lemma {:induction false} WithinAll(times: seq<int>, lo: int, hi: int)
    requires forall i :: 0 <= i < |times| ==> lo < times[i] <= hi
    ensures Within(times, lo, hi) == |times|
  {
    if times != [] {
      WithinAll(times[..|times| - 1], lo, hi);
    }
  }

  const GREEDY: Client := Client(Some("a"), "")
  const GREEDY_KEY: string := ClientKey(GREEDY)

  function Address(i: nat): (a: string)
    ensures |a| == i
  {
    if i == 0 then "" else Address(i - 1) + "x"
  }

  function Filler(i: nat): Client { Client(None, Address(i)) }

  lemma FillerKeys(i: nat)
    ensures |ClientKey(Filler(i))| == i + 2 && ClientKey(Filler(i)) != GREEDY_KEY
  {
    assert ClientKey(Filler(i))[0] == 'i' && GREEDY_KEY[0] == 'u';
  }

  predicate IsFresh(l: Limiter) {
    l.limit > 0 && l.hits == map[] && l.window > 0
  }

  /** What a run has led to: the stored logs, all of it at one instant, the clients seen, and the
      admissions of the greedy client. */
  ghost predicate Reaches(l: Limiter, reqs: seq<Request>, s: Limiter, now: int, keys: set<string>, admitted: seq<int>) {
    && IsRun(l, reqs) && Final(l, reqs) == s
    && (reqs != [] ==> Last(reqs).now == now)
    && Keys(reqs) == keys && Admissions(reqs, GREEDY_KEY) == admitted
  }

  ghost predicate CanReach(l: Limiter, s: Limiter, now: int, keys: set<string>, admitted: seq<int>) {
    exists reqs :: Reaches(l, reqs, s, now, keys, admitted)
  }

  lemma Extended(l: Limiter, reqs: seq<Request>, s: Limiter, now: int, keys: set<string>, admitted: seq<int>,
                 r: Request)
    requires Reaches(l, reqs, s, now, keys, admitted) && Serves(s, r) && r.now == now && r.ok
    ensures Reaches(l, reqs + [r], Next(s, r.Key(), now, r.victim), now, keys + {r.Key()},
                    if r.Key() == GREEDY_KEY then admitted + [now] else admitted)
  {
    assert Init(reqs + [r]) == reqs && Last(reqs + [r]) == r;
    assert admitted + [] == admitted;
  }

  lemma ReachMore(l: Limiter, s: Limiter, now: int, keys: set<string>, admitted: seq<int>, r: Request)
    requires r.now == now && r.ok
    ensures CanReach(l, s, now, keys, admitted) && Serves(s, r) ==>
              CanReach(l, Next(s, r.Key(), now, r.victim), now, keys + {r.Key()},
                       if r.Key() == GREEDY_KEY then admitted + [now] else admitted)
  {
    if CanReach(l, s, now, keys, admitted) && Serves(s, r) {
      var reqs :| Reaches(l, reqs, s, now, keys, admitted);
      Extended(l, reqs, s, now, keys, admitted, r);
    }
  }

  /** Before the next cleanup and below the cap, a request with room in its window is served and
      its log grows. */
  lemma PlainStep(l: Limiter, r: Request)
    requires 0 <= r.now - l.lastCleanup < CLEANUP_INTERVAL && |l.hits| < MAX_KEYS && r.victim.None? && r.ok
    requires |Stored(l.hits, r.Key())| < l.limit
    requires forall i :: 0 <= i < |Stored(l.hits, r.Key())| ==> Stored(l.hits, r.Key())[i] > r.now - l.window
    ensures Serves(l, r)
    ensures Next(l, r.Key(), r.now, r.victim) == l.(hits := l.hits[r.Key() := Stored(l.hits, r.Key()) + [r.now]])
  {
    RecentAll(Stored(l.hits, r.Key()), r.now - l.window);
  }

  ghost predicate HoldsGreedy(l: Limiter, s: Limiter, n: nat) {
    s == l.(hits := s.hits) && s.hits == if n == 0 then map[] else map[GREEDY_KEY := Repeat(l.lastCleanup, n)]
  }

  lemma GreedyStep(l: Limiter, s: Limiter, n: nat, r: Request)
    requires IsFresh(l) && n < l.limit && r == Request(GREEDY, l.lastCleanup, None, true)
    ensures HoldsGreedy(l, s, n) ==>
              Serves(s, r) && HoldsGreedy(l, Next(s, GREEDY_KEY, l.lastCleanup, None), n + 1)
  {
    if HoldsGreedy(l, s, n) {
      assert Stored(s.hits, GREEDY_KEY) == Repeat(l.lastCleanup, n);
      PlainStep(s, r);
    }
  }

  /** The greedy client can have been admitted `n` times, alone. */
  ghost predicate GreedyServed(l: Limiter, n: nat) {
    exists s, keys ::
      CanReach(l, s, l.lastCleanup, keys, Repeat(l.lastCleanup, n)) && HoldsGreedy(l, s, n) && keys <= {GREEDY_KEY}
  }

  lemma GreedyAgain(l: Limiter, n: nat)
    requires IsFresh(l) && n < l.limit
    ensures GreedyServed(l, n) ==> GreedyServed(l, n + 1)
  {
    if GreedyServed(l, n) {
      var r := Request(GREEDY, l.lastCleanup, None, true);
      var s, keys :| CanReach(l, s, l.lastCleanup, keys, Repeat(l.lastCleanup, n)) && HoldsGreedy(l, s, n) &&
                     keys <= {GREEDY_KEY};
      GreedyStep(l, s, n, r);
      ReachMore(l, s, l.lastCleanup, keys, Repeat(l.lastCleanup, n), r);
    }
  }

  lemma {:induction false} GreedyRuns(l: Limiter, n: nat)
    requires IsFresh(l) && n <= l.limit
    ensures GreedyServed(l, n)
  {
    if n == 0 {
      assert Reaches(l, [], l, l.lastCleanup, {}, Repeat(l.lastCleanup, 0));
      assert CanReach(l, l, l.lastCleanup, {}, Repeat(l.lastCleanup, 0));
    } else {
      GreedyRuns(l, n - 1);
      GreedyAgain(l, n - 1);
    }
  }

  /** The greedy client's log and `m` logs of other clients. */
  ghost predicate HoldsOthers(l: Limiter, s: Limiter, m: nat)
    requires l.limit > 0
  {
    && s == l.(hits := s.hits) && |s.hits| == m + 1
    && GREEDY_KEY in s.hits && s.hits[GREEDY_KEY] == Repeat(l.lastCleanup, l.limit)
    && (forall k :: k in s.hits && k != GREEDY_KEY ==> s.hits[k] == [l.lastCleanup] && |k| < m + 2)
  }

  lemma OneMoreKey(hits: Hits, k: string, times: seq<int>)
    requires k !in hits
    ensures |hits[k := times]| == |hits| + 1
  {
    assert hits[k := times].Keys == hits.Keys + {k};
    assert |hits| == |hits.Keys|;
  }

  /** One more client, one more log. */
  lemma OtherAdded(l: Limiter, s: Limiter, m: nat, r: Request)
    requires IsFresh(l) && m + 1 < MAX_KEYS && r == Request(Filler(m), l.lastCleanup, None, true)
    ensures HoldsOthers(l, s, m) ==>
              var t := Next(s, r.Key(), l.lastCleanup, None);
              Serves(s, r) && HoldsOthers(l, t, m + 1) && t.hits.Keys == s.hits.Keys + {r.Key()}
  {
    if HoldsOthers(l, s, m) {
      FillerKeys(m);
      assert r.Key() !in s.hits;
      PlainStep(s, r);
      OneMoreKey(s.hits, r.Key(), [r.now]);
    }
  }

  lemma GreedyAlone(l: Limiter, s: Limiter)
    requires IsFresh(l)
    ensures HoldsGreedy(l, s, l.limit) ==> HoldsOthers(l, s, 0) && s.hits.Keys == {GREEDY_KEY}
  {
    OneMoreKey(map[], GREEDY_KEY, Repeat(l.lastCleanup, l.limit));
  }

  /** The greedy client has used up its limit and `m` others are stored beside it. */
  ghost predicate Filled(l: Limiter, m: nat)
    requires l.limit > 0
  {
    exists s, keys ::
      CanReach(l, s, l.lastCleanup, keys, Repeat(l.lastCleanup, l.limit)) && HoldsOthers(l, s, m) && keys <= s.hits.Keys
  }

  lemma OneMoreFilled(l: Limiter, m: nat)
    requires IsFresh(l) && m + 1 < MAX_KEYS
    ensures Filled(l, m) ==> Filled(l, m + 1)
  {
    if Filled(l, m) {
      var r := Request(Filler(m), l.lastCleanup, None, true);
      var s, keys :| CanReach(l, s, l.lastCleanup, keys, Repeat(l.lastCleanup, l.limit)) && HoldsOthers(l, s, m) &&
                     keys <= s.hits.Keys;
      FillerKeys(m);
      OtherAdded(l, s, m, r);
      ReachMore(l, s, l.lastCleanup, keys, Repeat(l.lastCleanup, l.limit), r);
    }
  }

  lemma {:induction false} OthersRun(l: Limiter, m: nat)
    requires IsFresh(l) && m < MAX_KEYS
    ensures Filled(l, m)
  {
    if m == 0 {
      GreedyRuns(l, l.limit);
      var s, keys :| CanReach(l, s, l.lastCleanup, keys, Repeat(l.lastCleanup, l.limit)) &&
                     HoldsGreedy(l, s, l.limit) && keys <= {GREEDY_KEY};
      GreedyAlone(l, s);
    } else {
      OthersRun(l, m - 1);
      OneMoreFilled(l, m - 1);
    }
  }

  /** At the cap the greedy client's own next request may evict its log, one of the oldest, and is served. */
  lemma EvictsItself(l: Limiter, s: Limiter, r: Request)
    requires IsFresh(l) && r == Request(GREEDY, l.lastCleanup, Some(GREEDY_KEY), true)
    ensures HoldsOthers(l, s, MAX_KEYS - 1) ==> Serves(s, r) && |s.hits.Keys| == MAX_KEYS
  {
    if HoldsOthers(l, s, MAX_KEYS - 1) {
      assert AfterCleanup(s, r.now) == s;
      assert IsOldest(s.hits, GREEDY_KEY);
      assert Stored(Room(s, r.now, r.victim).hits, GREEDY_KEY) == [];
      assert |s.hits.Keys| == |s.hits|;
    }
  }

  /** With no more clients than the cap, one admission too many in the window that ends at `t`. */
  ghost predicate Exceeds(l: Limiter, reqs: seq<Request>, t: int) {
    IsRun(l, reqs) && |Keys(reqs)| <= MAX_KEYS && Within(Admissions(reqs, GREEDY_KEY), t - l.window, t) == l.limit + 1
  }

  lemma OneTooMany(now: int, l: Limiter)
    requires IsFresh(l)
    ensures Within(Repeat(now, l.limit) + [now], now - l.window, now) == l.limit + 1
  {
    WithinAll(Repeat(now, l.limit) + [now], now - l.window, now);
  }

  lemma ReachedExceeds(l: Limiter, s: Limiter, now: int, keys: set<string>, admitted: seq<int>)
    requires |keys| <= MAX_KEYS && Within(admitted, now - l.window, now) == l.limit + 1
    ensures CanReach(l, s, now, keys, admitted) ==> exists reqs :: Exceeds(l, reqs, now)
  {
    if CanReach(l, s, now, keys, admitted) {
      var reqs :| Reaches(l, reqs, s, now, keys, admitted);
      assert Exceeds(l, reqs, now);
    }
  }

  /** For every limit and every window, as many clients as the cap can get one admission too many
      in one window. */
  lemma LimitExceeded(l: Limiter)
    requires IsFresh(l)
    ensures exists reqs :: Exceeds(l, reqs, l.lastCleanup)
  {
    var now, r := l.lastCleanup, Request(GREEDY, l.lastCleanup, Some(GREEDY_KEY), true);
    OthersRun(l, MAX_KEYS - 1);
    var s, keys :| CanReach(l, s, l.lastCleanup, keys, Repeat(l.lastCleanup, l.limit)) &&
                   HoldsOthers(l, s, MAX_KEYS - 1) && keys <= s.hits.Keys;
    EvictsItself(l, s, r);
    ReachMore(l, s, now, keys, Repeat(now, l.limit), r);
    OneTooMany(now, l);
    SubsetSize(keys + {GREEDY_KEY}, s.hits.Keys);
    ReachedExceeds(l, Next(s, GREEDY_KEY, now, r.victim), now, keys + {GREEDY_KEY}, Repeat(now, l.limit) + [now]);
  }

  predicate WithinLimit(l: Limiter, reqs: seq<Request>, key: string, t: int) {
    Within(Admissions(reqs, key), t - l.window, t) <= l.limit
  }

  /** Every run with at most `n` clients keeps the limit in every window of every key. */
  ghost predicate Keeps(l: Limiter, n: nat) {
    forall reqs, key, t :: IsRun(l, reqs) && |Keys(reqs)| <= n ==> WithinLimit(l, reqs, key, t)
  }

  /** The cap on clients is exactly where the limit stops being kept. */
  lemma CapIsExact(l: Limiter, n: nat)
    requires IsFresh(l)
    ensures Keeps(l, n) <==> n < MAX_KEYS
  {
    if n < MAX_KEYS {
      forall reqs, key, t | IsRun(l, reqs) && |Keys(reqs)| <= n ensures WithinLimit(l, reqs, key, t) {
        PlainBoundBelowCap(l, reqs, key, t);
      }
    } else {
      LimitExceeded(l);
      var reqs :| Exceeds(l, reqs, l.lastCleanup);
      assert !WithinLimit(l, reqs, GREEDY_KEY, l.lastCleanup);
    }
  }
}
