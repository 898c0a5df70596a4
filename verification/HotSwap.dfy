/** The serverless entry point: requests racing to replace the degraded router by one with a pool. */
module HotSwap {
  import opened Wrappers

  const STATIC_PATHS: seq<string> :=
    ["/api/v1/beers/enums", "/api/v1/health", "/healthz", "/docs", "/docs/openapi.yaml", "/metrics"]

  predicate NeedsDatabase(path: string) {
    path !in STATIC_PATHS && !("/docs/" <= path) && !("/assets/" <= path)
  }

  method NeedsDB(path: string) returns (r: bool)
    ensures r == NeedsDatabase(path)
    ensures !r <==>
            || path == "/api/v1/beers/enums" || path == "/api/v1/health" || path == "/healthz"
            || path == "/docs" || path == "/docs/openapi.yaml" || path == "/metrics"
            || "/docs/" <= path || "/assets/" <= path
  {
    var i := 0;
    while i < |STATIC_PATHS|
      invariant i <= |STATIC_PATHS|
      invariant forall j :: 0 <= j < i ==> STATIC_PATHS[j] != path
    {
      if path == STATIC_PATHS[i] {
        return false;
      }
      i := i + 1;
    }
    if "/docs/" <= path || "/assets/" <= path {
      return false;
    }
    return true;
  }

  // ---------------------------------------------------------------------------
  // The machine.

  /** A router, told apart by the request that built it; the first is built without a pool. */
  datatype Router = Degraded | Full(builder: nat)

  predicate HasDB(r: Router) { r.Full? }

  datatype Answer = Served(router: Router) | Unavailable

  /** Where a request is; the comments name what it does next. */
  datatype PC =
    | Enter                       // load the slot
    | Loaded(current: Router)     // serve, refuse or go for the lock
    | Waiting                     // lock
    | Locked                      // load the slot again
    | Reloaded(current: Router)   // unlock and serve, or try to connect
    | Connecting                  // open the pool
    | Connected                   // store the full router
    | Stored                      // unlock
    | Serving                     // load the slot and serve
    | Refused                     // unlock and answer 503
    | Done(answer: Answer)
  {
    predicate Inside() { Locked? || Reloaded? || Connecting? || Connected? || Stored? || Refused? }
  }

  datatype Thread = Thread(path: string, configured: bool, pc: PC)

  datatype State = State(slot: Router, mutex: Option<nat>, threads: map<nat, Thread>, pools: nat)

  datatype Action = Arrive(t: nat, path: string, configured: bool) | Move(t: nat, reachable: bool)

  predicate Enabled(s: State, a: Action) {
    match a
    case Arrive(t, _, _) => t !in s.threads
    case Move(t, _) => t in s.threads && !s.threads[t].pc.Done? && (s.threads[t].pc.Waiting? ==> s.mutex.None?)
  }

  function Goto(s: State, t: nat, pc: PC): State
    requires t in s.threads
  {
    s.(threads := s.threads[t := s.threads[t].(pc := pc)])
  }

  /** One step of request `t`; `reachable` says whether the database can be reached now. */
  function Advance(s: State, t: nat, reachable: bool): State
    requires t in s.threads
  {
    var thread := s.threads[t];
    match thread.pc
    case Enter => Goto(s, t, Loaded(s.slot))
    case Loaded(current) =>
      if HasDB(current) || !NeedsDatabase(thread.path) then Goto(s, t, Done(Served(current)))
      else if !thread.configured then Goto(s, t, Done(Unavailable))
      else Goto(s, t, Waiting)
    case Waiting => Goto(s, t, Locked).(mutex := Some(t))
    case Locked => Goto(s, t, Reloaded(s.slot))
    case Reloaded(current) =>
      if HasDB(current) then Goto(s, t, Done(Served(current))).(mutex := None) else Goto(s, t, Connecting)
    case Connecting => if reachable then Goto(s, t, Connected).(pools := s.pools + 1) else Goto(s, t, Refused)
    case Connected => Goto(s, t, Stored).(slot := Full(t))
    case Stored => Goto(s, t, Serving).(mutex := None)
    case Serving => Goto(s, t, Done(Served(s.slot)))
    case Refused => Goto(s, t, Done(Unavailable)).(mutex := None)
    case Done(_) => s
  }

  function Perform(s: State, a: Action): State
    requires Enabled(s, a)
  {
    match a
    case Arrive(t, path, configured) => s.(threads := s.threads[t := Thread(path, configured, Enter)])
    case Move(t, reachable) => Advance(s, t, reachable)
  }

  const START: State := State(Degraded, None, map[], 0)

  function After(run: seq<Action>): Option<State> {
    if run == [] then Some(START)
    else match After(run[..|run| - 1])
      case None => None
      case Some(s) => if Enabled(s, run[|run| - 1]) then Some(Perform(s, run[|run| - 1])) else None
  }

  // ---------------------------------------------------------------------------
  // The invariant.

  /** The mutex is held exactly by the one request inside. */
  ghost predicate MutexAgrees(s: State) {
    forall t :: t in s.threads ==> (s.threads[t].pc.Inside() <==> s.mutex == Some(t))
  }

  /** At most one pool: none yet, or one about to be stored, or one stored. */
  ghost predicate OnePool(s: State) {
    && s.pools <= 1
    && (s.slot.Full? <==> s.pools == 1 && !exists t :: t in s.threads && s.threads[t].pc.Connected?)
    && (s.mutex.Some? ==> s.mutex.value in s.threads)
  }

  ghost predicate ThreadAgrees(s: State, thread: Thread) {
    match thread.pc
    case Loaded(r) => HasDB(r) ==> s.slot == r
    case Reloaded(r) => r == s.slot && NeedsDatabase(thread.path)
    case Connecting => s.slot.Degraded? && NeedsDatabase(thread.path)
    case Connected => s.pools == 1 && NeedsDatabase(thread.path)
    case Stored => s.slot.Full? && NeedsDatabase(thread.path)
    case Serving => s.slot.Full? && NeedsDatabase(thread.path)
    case Done(Served(r)) => (NeedsDatabase(thread.path) ==> HasDB(r)) && (HasDB(r) ==> s.slot == r)
    case Enter => true
    case _ => NeedsDatabase(thread.path)
  }

  ghost predicate Inv(s: State) {
    MutexAgrees(s) && OnePool(s) && forall t :: t in s.threads ==> ThreadAgrees(s, s.threads[t])
  }

  lemma OthersStay(s: State, a: Action, t: nat)
    requires Enabled(s, a) && a.t != t
    ensures t in Perform(s, a).threads <==> t in s.threads
    ensures t in s.threads ==> Perform(s, a).threads[t] == s.threads[t]
  {
  }

  lemma MutexStep(s: State, a: Action)
    requires MutexAgrees(s) && (s.mutex.Some? ==> s.mutex.value in s.threads) && Enabled(s, a)
    ensures MutexAgrees(Perform(s, a))
  {
    var s' := Perform(s, a);
    if a.Move? {
      var was, now := s.threads[a.t].pc, s'.threads[a.t].pc;
      assert was.Inside() <==> s.mutex == Some(a.t);
      assert now.Inside() <==> s'.mutex == Some(a.t);
      assert s'.mutex == s.mutex || (s.mutex.None? && s'.mutex == Some(a.t)) ||
             (s.mutex == Some(a.t) && s'.mutex.None?);
      assert forall t :: t in s.threads && t != a.t ==> s'.threads[t] == s.threads[t];
    }
  }

  lemma PoolStep(s: State, a: Action)
    requires Inv(s) && Enabled(s, a)
    ensures OnePool(Perform(s, a))
  {
    var s' := Perform(s, a);
    if a.Move? {
      assert forall t :: t in s.threads && t != a.t ==> s'.threads[t] == s.threads[t];
      assert ThreadAgrees(s, s.threads[a.t]);
      if s.threads[a.t].pc.Connecting? {
        assert s.pools == 0 by {
          if t :| t in s.threads && s.threads[t].pc.Connected? {
            assert s.mutex == Some(t) && s.mutex == Some(a.t);
          }
        }
        assert s'.threads[a.t].pc.Connected? || s'.threads[a.t].pc.Refused?;
      } else if s.threads[a.t].pc.Connected? {
        assert forall t :: t in s'.threads ==> !s'.threads[t].pc.Connected?;
      } else {
        assert forall t :: t in s.threads ==> (s'.threads[t].pc.Connected? <==> s.threads[t].pc.Connected?);
      }
    } else {
      assert forall t :: t in s.threads ==> s'.threads[t] == s.threads[t];
    }
  }

  lemma OwnThread(s: State, a: Action)
    requires Inv(s) && Enabled(s, a)
    ensures a.t in Perform(s, a).threads && ThreadAgrees(Perform(s, a), Perform(s, a).threads[a.t])
  {
    if a.Move? {
      assert ThreadAgrees(s, s.threads[a.t]);
    }
  }

  lemma OtherThread(s: State, a: Action, t: nat)
    requires Inv(s) && Enabled(s, a) && t in s.threads && t != a.t
    ensures ThreadAgrees(Perform(s, a), s.threads[t])
  {
    assert ThreadAgrees(s, s.threads[t]);
    if a.Move? && s.threads[a.t].pc.Connected? {
      assert s.mutex == Some(a.t) && s.slot.Degraded?;
    }
  }

  lemma ThreadsStep(s: State, a: Action)
    requires Inv(s) && Enabled(s, a)
    ensures forall t :: t in Perform(s, a).threads ==> ThreadAgrees(Perform(s, a), Perform(s, a).threads[t])
  {
    OwnThread(s, a);
    forall t | t in Perform(s, a).threads && t != a.t ensures ThreadAgrees(Perform(s, a), Perform(s, a).threads[t]) {
      OthersStay(s, a, t);
      OtherThread(s, a, t);
    }
  }

  lemma {:induction false} RunKeeps(run: seq<Action>)
    requires After(run).Some?
    ensures Inv(After(run).value)
  {
    if run != [] {
      RunKeeps(run[..|run| - 1]);
      var s, a := After(run[..|run| - 1]).value, run[|run| - 1];
      MutexStep(s, a);
      PoolStep(s, a);
      ThreadsStep(s, a);
    }
  }

  // ---------------------------------------------------------------------------
  // Main results.

  /** In every interleaving: at most one pool is ever opened; the mutex is free when no request is
      inside; a request that needs the database is served only by a router with a pool, any other
      is never refused, and all full routers ever served from are the one in the slot. */
  lemma HotSwapIsSafe(run: seq<Action>)
    requires After(run).Some?
    ensures var s := After(run).value;
            && s.pools <= 1
            && (s.mutex.None? <==> forall t :: t in s.threads ==> !s.threads[t].pc.Inside())
            && forall t :: t in s.threads && s.threads[t].pc.Done? ==>
                 var answer := s.threads[t].pc.answer;
                 if NeedsDatabase(s.threads[t].path)
                 then answer == Unavailable || (HasDB(answer.router) && answer.router == s.slot)
                 else answer.Served?
  {
    RunKeeps(run);
    var s := After(run).value;
    assert forall t :: t in s.threads ==> ThreadAgrees(s, s.threads[t]);
    if s.mutex.Some? {
      assert s.threads[s.mutex.value].pc.Inside();
    }
  }

  /** Once full, the slot never changes again. */
  lemma {:induction false} SlotSettles(run: seq<Action>, n: nat)
    requires n <= |run| && After(run).Some?
    ensures After(run[..n]).Some?
    ensures After(run[..n]).value.slot.Full? ==> After(run).value.slot == After(run[..n]).value.slot
  {
    if n < |run| {
      var init := run[..|run| - 1];
      SlotSettles(init, n);
      assert init[..n] == run[..n];
      RunKeeps(init);
      var s, a := After(init).value, run[|run| - 1];
      if a.Move? && s.threads[a.t].pc.Connected? {
        assert s.slot.Degraded?;
      }
    } else {
      assert run[..n] == run;
    }
  }

  /** No deadlock: while a request is unfinished, it or the request inside can move. */
  lemma SomeoneMoves(run: seq<Action>, t: nat)
    requires After(run).Some? && t in After(run).value.threads && !After(run).value.threads[t].pc.Done?
    ensures exists u :: Enabled(After(run).value, Move(u, false)) && (u == t || After(run).value.mutex == Some(u))
  {
    RunKeeps(run);
    var s := After(run).value;
    var u := if s.threads[t].pc.Waiting? && s.mutex.Some? then s.mutex.value else t;
    assert s.threads[u].pc.Inside() || u == t;
    assert Enabled(s, Move(u, false));
  }

  /** Steps left, at most. */
  function Rank(pc: PC): nat {
    match pc
    case Enter => 9
    case Loaded(_) => 8
    case Waiting => 7
    case Locked => 6
    case Reloaded(_) => 5
    case Connecting => 4
    case Connected => 3
    case Stored => 2
    case Refused => 2
    case Serving => 1
    case Done(_) => 0
  }

  lemma RankFalls(s: State, t: nat, reachable: bool)
    requires t in s.threads && !s.threads[t].pc.Done?
    ensures t in Advance(s, t, reachable).threads &&
              Rank(Advance(s, t, reachable).threads[t].pc) < Rank(s.threads[t].pc)
  {
  }

  function Moves(run: seq<Action>, t: nat): nat {
    if run == [] then 0
    else Moves(run[..|run| - 1], t) + if run[|run| - 1].Move? && run[|run| - 1].t == t then 1 else 0
  }

  /** And no run goes on forever: no request takes more than nine steps. */
  lemma {:induction false} NineSteps(run: seq<Action>, t: nat)
    requires After(run).Some?
    ensures t !in After(run).value.threads ==> Moves(run, t) == 0
    ensures t in After(run).value.threads ==> Moves(run, t) + Rank(After(run).value.threads[t].pc) <= 9
  {
    if run != [] {
      var init, a := run[..|run| - 1], run[|run| - 1];
      NineSteps(init, t);
      if a.t != t {
        OthersStay(After(init).value, a, t);
      } else if a.Move? {
        RankFalls(After(init).value, t, a.reachable);
      }
    }
  }

  // ---------------------------------------------------------------------------
  // Who is answered 503.

  /** While the database is never reachable no pool is counted and the slot stays degraded. */
  lemma {:induction false} NothingWithoutDatabase(run: seq<Action>)
    requires After(run).Some?
    requires forall i :: 0 <= i < |run| && run[i].Move? ==> !run[i].reachable
    ensures var s := After(run).value;
            && s.pools == 0 && s.slot.Degraded?
            && forall t :: t in s.threads ==>
                 !s.threads[t].pc.Connected? && !s.threads[t].pc.Stored? && !s.threads[t].pc.Serving?
  {
    if run != [] {
      var a := run[|run| - 1];
      NothingWithoutDatabase(run[..|run| - 1]);
      var s := After(run[..|run| - 1]).value;
      forall t | t in s.threads && t != a.t ensures Perform(s, a).threads[t] == s.threads[t] {
        OthersStay(s, a, t);
      }
    }
  }

  predicate Refusing(pc: PC) { pc.Refused? || pc == Done(Unavailable) }

  /** With the database always reachable and configured nobody is refused. */
  lemma {:induction false} NobodyRefused(run: seq<Action>)
    requires After(run).Some?
    requires forall i :: 0 <= i < |run| ==> if run[i].Move? then run[i].reachable else run[i].configured
    ensures forall t :: t in After(run).value.threads ==>
              After(run).value.threads[t].configured && !Refusing(After(run).value.threads[t].pc)
  {
    if run != [] {
      var a := run[|run| - 1];
      NobodyRefused(run[..|run| - 1]);
      var s := After(run[..|run| - 1]).value;
      forall t | t in s.threads && t != a.t ensures Perform(s, a).threads[t] == s.threads[t] {
        OthersStay(s, a, t);
      }
    }
  }

  /** The request itself tried to open the pool while the database was not reachable. */
  predicate CouldNotConnect(run: seq<Action>, t: nat) {
    run != [] &&
    var init, a := run[..|run| - 1], run[|run| - 1];
    || CouldNotConnect(init, t)
    || (a == Move(t, false) && After(init).Some? && t in After(init).value.threads &&
        After(init).value.threads[t].pc.Connecting?)
  }

  lemma RefusedStep(s: State, a: Action, t: nat)
    requires Enabled(s, a) && t in s.threads && s.threads[t].configured
    ensures t in Perform(s, a).threads && Perform(s, a).threads[t].configured
    ensures Refusing(Perform(s, a).threads[t].pc) <==>
              Refusing(s.threads[t].pc) || (a == Move(t, false) && s.threads[t].pc.Connecting?)
  {
    if a.t != t {
      OthersStay(s, a, t);
    }
  }

  /** A configured request is answered 503 exactly when it could not open the pool itself. */
  lemma {:induction false} RefusedExactly(run: seq<Action>, t: nat)
    requires After(run).Some?
    ensures t !in After(run).value.threads ==> !CouldNotConnect(run, t)
    ensures t in After(run).value.threads && After(run).value.threads[t].configured ==>
              (Refusing(After(run).value.threads[t].pc) <==> CouldNotConnect(run, t))
  {
    if run != [] {
      var init, a := run[..|run| - 1], run[|run| - 1];
      RefusedExactly(init, t);
      var s := After(init).value;
      if t in s.threads {
        if s.threads[t].configured {
          RefusedStep(s, a, t);
        } else if a.t != t {
          OthersStay(s, a, t);
        }
      } else if a.t != t {
        OthersStay(s, a, t);
      }
    }
  }

  /** A request that loads a full slot is served by that router and by nothing else. */
  lemma {:induction false} FullLoadServed(run: seq<Action>, n: nat, t: nat, r: Router)
    requires n <= |run| && After(run).Some? && HasDB(r)
    requires After(run[..n]).Some? && t in After(run[..n]).value.threads
    requires After(run[..n]).value.threads[t].pc == Loaded(r)
    ensures t in After(run).value.threads
    ensures After(run).value.threads[t].pc == Loaded(r) || After(run).value.threads[t].pc == Done(Served(r))
  {
    if n < |run| {
      var init, a := run[..|run| - 1], run[|run| - 1];
      assert init[..n] == run[..n];
      FullLoadServed(init, n, t, r);
      if a.t != t {
        OthersStay(After(init).value, a, t);
      }
    } else {
      assert run[..n] == run;
    }
  }

  /** Without a configured database a request never goes for the lock: one that needs the database
      is served by a full router or refused, any other is served. */
  lemma {:induction false} UnconfiguredStaysOut(run: seq<Action>, t: nat)
    requires After(run).Some? && t in After(run).value.threads && !After(run).value.threads[t].configured
    ensures var thread := After(run).value.threads[t];
            && (thread.pc.Enter? || thread.pc.Loaded? || thread.pc.Done?)
            && (thread.pc.Done? && NeedsDatabase(thread.path) ==>
                  (thread.pc.answer == Unavailable || (thread.pc.answer.Served? && HasDB(thread.pc.answer.router))))
            && (thread.pc.Done? && !NeedsDatabase(thread.path) ==> thread.pc.answer.Served?)
  {
    var init, a := run[..|run| - 1], run[|run| - 1];
    var s := After(init).value;
    if t in s.threads {
      if a.t != t {
        OthersStay(s, a, t);
      }
      UnconfiguredStaysOut(init, t);
    } else if a.t != t {
      OthersStay(s, a, t);
    }
  }
}
