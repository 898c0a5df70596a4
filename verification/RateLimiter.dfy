/** The limiter as it runs: one growable array per key, compacted in place. */
module RateLimiter {
  import opened Wrappers
  import opened RateSpec

  /** A Go slice that starts at its array's first element. */
  datatype Slice = Slice(data: array<int>, len: nat)

  ghost predicate Holds(s: Slice, times: seq<int>)
    reads s.data
  {
    s.len <= s.data.Length && s.data[..s.len] == times
  }

  /** Keeps the times after the cutoff, writing them over the front of the same array. */
  method Compact(s: Slice, cutoff: int) returns (r: Slice)
    requires s.len <= s.data.Length
    modifies s.data
    ensures r.data == s.data && Holds(r, Recent(old(s.data[..s.len]), cutoff))
  {
    ghost var times := s.data[..s.len];
    var n, i := 0, 0;
    while i < s.len
      invariant n <= i <= s.len
      invariant s.data[..n] == Recent(times[..i], cutoff)
      invariant forall j :: i <= j < s.len ==> s.data[j] == times[j]
    {
      assert times[..i + 1][..i] == times[..i];
      var t := s.data[i];
      if t > cutoff {
        s.data[n] := t;
        n := n + 1;
      }
      i := i + 1;
    }
    assert times[..s.len] == times;
    r := Slice(s.data, n);
  }

  /** In place while the array has room, otherwise into a larger copy. */
  method Append(s: Slice, t: int) returns (r: Slice)
    requires s.len <= s.data.Length
    modifies s.data
    ensures r.data == s.data || fresh(r.data)
    ensures Holds(r, old(s.data[..s.len]) + [t])
  {
    if s.len < s.data.Length {
      s.data[s.len] := t;
      r := Slice(s.data, s.len + 1);
    } else {
      var grown := new int[2 * s.len + 1];
      for i := 0 to s.len
        invariant grown[..i] == s.data[..i]
        invariant s.data[..] == old(s.data[..])
      {
        grown[i] := s.data[i];
      }
      grown[s.len] := t;
      r := Slice(grown, s.len + 1);
    }
  }

  class RateLimiter {
    const limit: int
    const window: int
    var hits: map<string, Slice>
    var lastCleanup: int
    ghost var logs: Hits                // the stored logs as values
    ghost var arrays: set<array<int>>   // the storage in use
    ghost var owner: map<array<int>, string>   // the key an array was allocated for

    /** The arrays hold the logs; each key stores in an array of its own, so no two share storage. */
    ghost predicate Valid()
      reads this, arrays
    {
      && logs.Keys == hits.Keys
      && (forall k :: k in hits ==> hits[k].data in arrays && Holds(hits[k], logs[k]))
      && (forall k :: k in hits ==> hits[k].data in owner && owner[hits[k].data] == k)
    }

    ghost function Abstract(): Limiter
      reads this
    {
      Limiter(limit, window, logs, lastCleanup)
    }

    constructor (limit: int, window: int, now: int)
      ensures Valid() && arrays == {} && Abstract() == Limiter(limit, window, map[], now)
    {
      this.limit, this.window := limit, window;
      hits, lastCleanup := map[], now;
      logs, arrays, owner := map[], {}, map[];
    }

    /** A limit that is not positive becomes ten, such a window a minute. */
    constructor Normalised(limit: int, window: int, now: int)
      ensures Valid() && arrays == {}
      ensures Abstract() == Limiter(if limit <= 0 then 10 else limit,
                                    if window <= 0 then 60_000_000_000 else window, map[], now)
      ensures this.limit > 0 && this.window > 0
    {
      this.limit := if limit <= 0 then DEFAULT_LIMIT else limit;
      this.window := if window <= 0 then DEFAULT_WINDOW else window;
      hits, lastCleanup := map[], now;
      logs, arrays, owner := map[], {}, map[];
    }

    /** The key's log keeps its times after the cutoff, in its own array. */
    method CompactKey(k: string, cutoff: int) returns (filtered: Slice)
      requires Valid() && k in hits
      modifies this`hits, this`logs, hits[k].data
      ensures Valid() && arrays == old(arrays)
      ensures k in hits && filtered == hits[k] && filtered.len == |logs[k]|
      ensures logs == old(logs)[k := Recent(old(logs)[k], cutoff)]
    {
      filtered := Compact(hits[k], cutoff);
      hits, logs := hits[k := filtered], logs[k := Recent(logs[k], cutoff)];
    }

    method DropKey(k: string)
      requires Valid()
      modifies this`hits, this`logs
      ensures Valid() && logs == old(logs) - {k}
    {
      hits, logs := hits - {k}, logs - {k};
    }

    /** One key's turn in a cleanup. */
    method CleanKey(k: string, cutoff: int)
      requires Valid() && k in hits
      modifies this`hits, this`logs, hits[k].data
      ensures Valid() && arrays == old(arrays)
      ensures logs == CleanedAt(old(logs), k, cutoff)
    {
      ghost var before := logs;
      var filtered := CompactKey(k, cutoff);
      ghost var stored := logs;
      if filtered.len == 0 {
        DropKey(k);
      }
      CleanedAtBy(before, k, cutoff, stored, logs);
    }

    method CleanupExpired(now: int)
      requires Valid()
      modifies this`hits, this`logs, arrays
      ensures Valid() && arrays == old(arrays)
      ensures logs == Cleaned(old(logs), now - window)
    {
      var cutoff := now - window;
      ghost var before := logs;
      var keys := hits.Keys;
      CleanedWhole(before, cutoff);
      while keys != {}
        invariant Valid() && arrays == old(arrays)
        invariant keys <= before.Keys && logs == PartlyCleaned(before, keys, cutoff)
        decreases keys
      {
        var k :| k in keys;
        CleanKey(k, cutoff);
        CleanStep(before, keys, k, cutoff);
        keys := keys - {k};
      }
    }

    method FirstTime(k: string) returns (first: Option<int>)
      requires Valid() && k in hits
      ensures first == if logs[k] == [] then None else Some(logs[k][0])
    {
      var times := hits[k];
      assert logs[k] == times.data[..times.len];
      first := if times.len == 0 then None else Some(times.data[0]);
    }

    /** Removes one entry holding the oldest stored time, unless that entry has the empty key. */
    method EvictOldest() returns (ghost victim: Option<string>)
      requires Valid()
      modifies this`hits, this`logs
      ensures Valid() && Chooses(old(logs), victim)
      ensures logs == if victim.Some? then old(logs) - {victim.value} else old(logs)
    {
      var oldestKey, oldestTime, first := "", 0, true;
      ghost var before := logs;
      var keys := hits.Keys;
      while keys != {}
        invariant Valid() && logs == before && keys <= before.Keys
        invariant OldestSoFar(before, keys, first, oldestKey, oldestTime)
        decreases keys
      {
        var k :| k in keys;
        WalkStep(before, keys, k, first, oldestKey, oldestTime);
        keys := keys - {k};
        var t := FirstTime(k);
        if t.Some? {
          if first || t.value < oldestTime {
            oldestTime, oldestKey, first := t.value, k, false;
          }
        }
      }
      WalkEnds(before, first, oldestKey, oldestTime);
      victim := None;
      if oldestKey != "" {
        victim := Some(oldestKey);
        DropKey(oldestKey);
      }
    }

    /** The key's log, compacted; a key without one gets an empty log. */
    method CompactLog(key: string, now: int) returns (filtered: Slice)
      requires Valid()
      modifies this`hits, this`logs, this`arrays, this`owner, arrays
      ensures Valid() && fresh(arrays - old(arrays))
      ensures key in hits && filtered == hits[key] && filtered.len == |logs[key]|
      ensures logs == Compacted(old(Abstract()), key, now)
    {
      var cutoff := now - window;
      if key in hits {
        filtered := CompactKey(key, cutoff);
      } else {
        var none := new int[0];
        filtered := Slice(none, 0);
        hits, logs, arrays := hits[key := filtered], logs[key := []], arrays + {none};
        owner := owner[none := key];
      }
    }

    /** The verdict on a compacted log; an admission is recorded in it. */
    method Record(key: string, filtered: Slice, now: int) returns (ok: bool)
      requires Valid() && key in hits && hits[key] == filtered && filtered.len == |logs[key]|
      modifies this`hits, this`logs, this`arrays, this`owner, arrays
      ensures Valid() && fresh(arrays - old(arrays))
      ensures ok == (|old(logs)[key]| < limit)
      ensures logs == if ok then old(logs)[key := old(logs)[key] + [now]] else old(logs)
    {
      if filtered.len >= limit {
        return false;
      }
      var appended := Append(filtered, now);
      hits, logs, arrays := hits[key := appended], logs[key := logs[key] + [now]], arrays + {appended.data};
      owner := owner[appended.data := key];
      return true;
    }

    method CleanupIfDue(now: int)
      requires Valid()
      modifies this`hits, this`logs, this`lastCleanup, arrays
      ensures Valid() && arrays == old(arrays)
      ensures Abstract() == AfterCleanup(old(Abstract()), now)
    {
      if now - lastCleanup >= CLEANUP_INTERVAL {
        CleanupExpired(now);
        lastCleanup := now;
      }
    }

    method EvictAtCap() returns (ghost victim: Option<string>)
      requires Valid()
      modifies this`hits, this`logs
      ensures Valid() && MayEvict(old(Abstract()), victim)
      ensures Abstract() == AfterEviction(old(Abstract()), victim)
    {
      assert |logs.Keys| == |hits.Keys|;
      victim := None;
      if |hits| >= MAX_KEYS {
        victim := EvictOldest();
      }
    }

    method MakeRoom(now: int) returns (ghost victim: Option<string>)
      requires Valid()
      modifies this, arrays
      ensures Valid() && arrays == old(arrays)
      ensures MayEvict(AfterCleanup(old(Abstract()), now), victim)
      ensures Abstract() == Room(old(Abstract()), now, victim)
    {
      ghost var start := Abstract();
      CleanupIfDue(now);
      ghost var cleaned := Abstract();
      assert cleaned == AfterCleanup(start, now);
      victim := EvictAtCap();
      assert MayEvict(cleaned, victim);
    }

    /** The window test and the admission, on the logs as cleanup and eviction left them. */
    method Admit(key: string, now: int) returns (ok: bool)
      requires Valid()
      modifies this, arrays
      ensures Valid() && fresh(arrays - old(arrays))
      ensures ok == Admits(old(Abstract()), key, now)
      ensures Abstract() == Admitted(old(Abstract()), key, now)
    {
      ghost var room := Abstract();
      var filtered := CompactLog(key, now);
      ghost var compacted := logs;
      ok := Record(key, filtered, now);
      AdmittedBy(room, key, now, compacted, ok, logs);
    }

    /** One request: the verdict and the new logs are those of the value-level step. */
    method Allow(key: string, now: int) returns (ok: bool, ghost victim: Option<string>)
      requires Valid()
      modifies this, arrays
      ensures Valid() && fresh(arrays - old(arrays))
      ensures MayEvict(AfterCleanup(old(Abstract()), now), victim)
      ensures ok == Verdict(old(Abstract()), key, now, victim)
      ensures Abstract() == Next(old(Abstract()), key, now, victim)
    {
      ghost var start := Abstract();
      victim := MakeRoom(now);
      ghost var room := Abstract();
      assert room == Room(start, now, victim);
      ok := Admit(key, now);
      assert Abstract() == Admitted(room, key, now);
    }
  }
}
