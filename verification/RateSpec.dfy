/** What one call of the limiter does to the stored logs, on values. Times are nanoseconds. */
module RateSpec {
  import opened Wrappers

  const MAX_KEYS: nat := 100000
  const CLEANUP_INTERVAL: int := 5 * 60 * 1000000000
  const DEFAULT_LIMIT: int := 10
  const DEFAULT_WINDOW: int := 60 * 1000000000

  type Hits = map<string, seq<int>>

  /** The times after the cutoff, in order. */
  function Recent(times: seq<int>, cutoff: int): (r: seq<int>)
    ensures |r| <= |times|
  {
    if times == [] then []
    else Recent(times[..|times| - 1], cutoff) + if times[|times| - 1] > cutoff then [times[|times| - 1]] else []
  }

  function Stored(hits: Hits, key: string): seq<int> {
    if key in hits then hits[key] else []
  }

  /** Every log loses its expired times, and a log left empty is dropped. */
  function Cleaned(hits: Hits, cutoff: int): Hits {
    map k | k in hits && Recent(hits[k], cutoff) != [] :: Recent(hits[k], cutoff)
  }

  /** A cleanup that has not yet reached `keys`. */
  function PartlyCleaned(hits: Hits, keys: set<string>, cutoff: int): Hits {
    map k | k in hits && (k in keys || Recent(hits[k], cutoff) != []) ::
      if k in keys then hits[k] else Recent(hits[k], cutoff)
  }

  lemma CleanedWhole(hits: Hits, cutoff: int)
    ensures PartlyCleaned(hits, hits.Keys, cutoff) == hits
    ensures PartlyCleaned(hits, {}, cutoff) == Cleaned(hits, cutoff)
  {
  }

  function CleanedAt(hits: Hits, k: string, cutoff: int): Hits
    requires k in hits
  {
    if Recent(hits[k], cutoff) == [] then hits - {k} else hits[k := Recent(hits[k], cutoff)]
  }

  lemma CleanStep(hits: Hits, keys: set<string>, k: string, cutoff: int)
    requires k in keys && keys <= hits.Keys
    ensures CleanedAt(PartlyCleaned(hits, keys, cutoff), k, cutoff) == PartlyCleaned(hits, keys - {k}, cutoff)
  {
  }

  /** Storing the compacted log and then dropping it when it is empty is one turn of a cleanup. */
  lemma CleanedAtBy(before: Hits, k: string, cutoff: int, stored: Hits, after: Hits)
    requires k in before && stored == before[k := Recent(before[k], cutoff)]
    requires after == if |stored[k]| == 0 then stored - {k} else stored
    ensures after == CleanedAt(before, k, cutoff)
  {
  }

  /** A nonempty log whose first time no nonempty log precedes. */
  predicate IsOldest(hits: Hits, key: string) {
    && key in hits && hits[key] != []
    && forall k :: k in hits && hits[k] != [] ==> hits[key][0] <= hits[k][0]
  }

  /** Which entry an eviction removes. Ties fall as the map is walked; the empty key is spared. */
  predicate Chooses(hits: Hits, victim: Option<string>) {
    match victim
    case Some(k) => k != "" && IsOldest(hits, k)
    case None => IsOldest(hits, "") || forall k :: k in hits ==> hits[k] == []
  }

  /** Where the walk over the map stands: `keys` are still to come; `first` says no time was seen. */
  ghost predicate OldestSoFar(hits: Hits, keys: set<string>, first: bool, key: string, time: int) {
    if first then key == "" && forall k :: k in hits && k !in keys ==> hits[k] == []
    else
      && key in hits && hits[key] != [] && hits[key][0] == time
      && forall k :: k in hits && k !in keys && hits[k] != [] ==> time <= hits[k][0]
  }

  lemma WalkStep(hits: Hits, keys: set<string>, k: string, first: bool, key: string, time: int)
    requires k in hits && OldestSoFar(hits, keys, first, key, time)
    ensures hits[k] == [] ==> OldestSoFar(hits, keys - {k}, first, key, time)
    ensures hits[k] != [] ==>
              if first || hits[k][0] < time then OldestSoFar(hits, keys - {k}, false, k, hits[k][0])
              else OldestSoFar(hits, keys - {k}, first, key, time)
  {
  }

  lemma WalkEnds(hits: Hits, first: bool, key: string, time: int)
    requires OldestSoFar(hits, {}, first, key, time)
    ensures Chooses(hits, if key != "" then Some(key) else None)
  {
  }

  datatype Limiter = Limiter(limit: int, window: int, hits: Hits, lastCleanup: int)

  function AfterCleanup(l: Limiter, now: int): Limiter {
    if now - l.lastCleanup >= CLEANUP_INTERVAL
    then l.(hits := Cleaned(l.hits, now - l.window), lastCleanup := now)
    else l
  }

  predicate MayEvict(l: Limiter, victim: Option<string>) {
    if |l.hits| >= MAX_KEYS then Chooses(l.hits, victim) else victim.None?
  }

  function AfterEviction(l: Limiter, victim: Option<string>): Limiter {
    if victim.Some? then l.(hits := l.hits - {victim.value}) else l
  }

  /** The stored logs when the request's own log is looked at. */
  function Room(l: Limiter, now: int, victim: Option<string>): Limiter {
    AfterEviction(AfterCleanup(l, now), victim)
  }

  function InWindow(l: Limiter, key: string, now: int): seq<int> {
    Recent(Stored(l.hits, key), now - l.window)
  }

  function Compacted(l: Limiter, key: string, now: int): Hits {
    l.hits[key := InWindow(l, key, now)]
  }

  predicate Admits(l: Limiter, key: string, now: int) {
    |InWindow(l, key, now)| < l.limit
  }

  function Admitted(l: Limiter, key: string, now: int): Limiter {
    l.(hits := l.hits[key := InWindow(l, key, now) + if Admits(l, key, now) then [now] else []])
  }

  lemma AdmittedBy(room: Limiter, key: string, now: int, compacted: Hits, ok: bool, logs: Hits)
    requires compacted == Compacted(room, key, now)
    requires ok == (|compacted[key]| < room.limit)
    requires logs == if ok then compacted[key := compacted[key] + [now]] else compacted
    ensures ok == Admits(room, key, now) && room.(hits := logs) == Admitted(room, key, now)
  {
    assert InWindow(room, key, now) + [] == InWindow(room, key, now);
    assert logs == Admitted(room, key, now).hits;
  }

  predicate Verdict(l: Limiter, key: string, now: int, victim: Option<string>) {
    Admits(Room(l, now, victim), key, now)
  }

  function Next(l: Limiter, key: string, now: int, victim: Option<string>): Limiter {
    Admitted(Room(l, now, victim), key, now)
  }
}
