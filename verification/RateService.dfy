/** The limiter serving one request after another: what it records is a run, so the results about
    runs are results about the arrays. */
module RateService {
  import opened Wrappers
  import opened RateSpec
  import opened RateRuns
  import RateLimiter

  datatype Call = Call(client: Client, now: int)

  ghost predicate Recorded(reqs: seq<Request>, calls: seq<Call>, verdicts: seq<bool>) {
    && |reqs| == |calls| == |verdicts|
    && forall i :: 0 <= i < |reqs| ==>
         reqs[i].client == calls[i].client && reqs[i].now == calls[i].now && reqs[i].ok == verdicts[i]
  }

  /** The limiter `l` can have come to state `s` by answering these calls in this way. */
  ghost predicate Serves(l: Limiter, s: Limiter, calls: seq<Call>, verdicts: seq<bool>) {
    exists reqs :: Explains(reqs, l, s, calls, verdicts)
  }

  ghost predicate Explains(reqs: seq<Request>, l: Limiter, s: Limiter, calls: seq<Call>, verdicts: seq<bool>) {
    IsRun(l, reqs) && Final(l, reqs) == s && Recorded(reqs, calls, verdicts)
  }

  lemma RunMore(reqs: seq<Request>, l: Limiter, r: Request)
    requires reqs != [] ==> Last(reqs).now <= r.now
    ensures IsRun(l, reqs) && RateRuns.Serves(Final(l, reqs), r) ==> IsRun(l, reqs + [r])
    ensures Final(l, reqs + [r]) == Next(Final(l, reqs), r.Key(), r.now, r.victim)
  {
    assert Init(reqs + [r]) == reqs && Last(reqs + [r]) == r;
  }

  lemma RecordedMore(reqs: seq<Request>, calls: seq<Call>, verdicts: seq<bool>, r: Request)
    ensures Recorded(reqs, calls, verdicts) ==>
              && (reqs != [] ==> calls != [] && Last(reqs).now == calls[|calls| - 1].now)
              && Recorded(reqs + [r], calls + [Call(r.client, r.now)], verdicts + [r.ok])
  {
  }

  lemma ServesMore(l: Limiter, s: Limiter, calls: seq<Call>, verdicts: seq<bool>, r: Request)
    requires calls != [] ==> calls[|calls| - 1].now <= r.now
    ensures Serves(l, s, calls, verdicts) && RateRuns.Serves(s, r) ==>
              Serves(l, Next(s, r.Key(), r.now, r.victim), calls + [Call(r.client, r.now)], verdicts + [r.ok])
  {
    if Serves(l, s, calls, verdicts) && RateRuns.Serves(s, r) {
      var reqs :| Explains(reqs, l, s, calls, verdicts);
      RecordedMore(reqs, calls, verdicts, r);
      RunMore(reqs, l, r);
      var t, more := Next(s, r.Key(), r.now, r.victim), calls + [Call(r.client, r.now)];
      assert Explains(reqs + [r], l, t, more, verdicts + [r.ok]);
    }
  }

  lemma NothingServed(l: Limiter)
    requires l.hits == map[] && l.limit > 0
    ensures Serves(l, l, [], [])
  {
    assert Explains([], l, l, [], []);
  }

  /** One call on the arrays is one more request of the run. */
  method ServeOne(limiter: RateLimiter.RateLimiter, call: Call, ghost start: Limiter, ghost calls: seq<Call>,
                  ghost verdicts: seq<bool>)
    returns (ok: bool)
    requires limiter.Valid() && Serves(start, limiter.Abstract(), calls, verdicts)
    requires calls != [] ==> calls[|calls| - 1].now <= call.now
    modifies limiter, limiter.arrays
    ensures limiter.Valid() && fresh(limiter.arrays - old(limiter.arrays))
    ensures Serves(start, limiter.Abstract(), calls + [call], verdicts + [ok])
  {
    ghost var s := limiter.Abstract();
    ghost var victim;
    ok, victim := limiter.Allow(ClientKey(call.client), call.now);
    ServesMore(start, s, calls, verdicts, Request(call.client, call.now, victim, ok));
  }

  lemma Prefixes(calls: seq<Call>, i: nat)
    requires i <= |calls|
    ensures i < |calls| ==> calls[..i + 1] == calls[..i] + [calls[i]]
    ensures calls[..|calls|] == calls
  {
  }

  /** Serves the calls of a clock that never goes back on a limiter that has stored nothing yet. */
  method Serve(limiter: RateLimiter.RateLimiter, calls: seq<Call>) returns (verdicts: seq<bool>)
    requires limiter.Valid() && limiter.logs == map[] && limiter.limit > 0
    requires forall i, j :: 0 <= i < j < |calls| ==> calls[i].now <= calls[j].now
    modifies limiter, limiter.arrays
    ensures limiter.Valid() && Serves(old(limiter.Abstract()), limiter.Abstract(), calls, verdicts)
  {
    ghost var start := limiter.Abstract();
    NothingServed(start);
    verdicts := [];
    var i := 0;
    while i < |calls|
      invariant i <= |calls| && limiter.Valid() && fresh(limiter.arrays - old(limiter.arrays))
      invariant Serves(start, limiter.Abstract(), calls[..i], verdicts)
    {
      var ok := ServeOne(limiter, calls[i], start, calls[..i], verdicts);
      Prefixes(calls, i);
      verdicts := verdicts + [ok];
      i := i + 1;
    }
    Prefixes(calls, i);
  }

  /** So every verdict the arrays give is the reference's, in every window of the run. */
  lemma ServedIsFaithful(l: Limiter, s: Limiter, calls: seq<Call>, verdicts: seq<bool>)
    requires Serves(l, s, calls, verdicts)
    ensures exists reqs :: Recorded(reqs, calls, verdicts) && Faithful(reqs, l.limit, l.window)
  {
    var reqs :| Explains(reqs, l, s, calls, verdicts);
    RunsAreFaithful(l, reqs);
  }
}
