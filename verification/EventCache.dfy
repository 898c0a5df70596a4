/**
 The Redis side of the event store: one sorted set per beer, filled and trimmed by
 publishers whose commands interleave, and lost as a whole when its key expires.
 */
module EventCache {
  import opened Wrappers
  import opened Outbox
  import Lexicographic

  const MAX_EVENTS_PER_BEER: nat := 1000

  // ---------------------------------------------------------------------------
  // The order of members: by score, and within one score by the bytes of the payload,
  // whose fields come in the order kind, id, beer, data.

  /** Alphabetical rank of the kind's text. */
  function KindRank(k: Kind): nat {
    match k
    case BeerCreated => 0
    case BeerDeleted => 1
    case MediaAdded => 2
    case BeerUpdated => 3
    case CommentAdded => 4
    case CommentDeleted => 5
    case CommentLiked => 6
  }

  /** The kind as the payload spells it. */
  function KindText(k: Kind): string {
    match k
    case BeerCreated => "beer.created"
    case BeerUpdated => "beer.updated"
    case BeerDeleted => "beer.deleted"
    case CommentAdded => "comment.added"
    case CommentDeleted => "comment.deleted"
    case CommentLiked => "comment.liked"
    case MediaAdded => "beer.media.added"
  }

  /** The place at which the text of this kind first differs from that of the next. */
  function DiffersAt(k: Kind): nat {
    match k
    case BeerUpdated => 0
    case CommentAdded => 8
    case CommentDeleted => 8
    case _ => 5
  }

  lemma NextKind(k: Kind, l: Kind)
    requires KindRank(l) == KindRank(k) + 1
    ensures Lexicographic.Less(KindText(k), KindText(l))
  {
    Lexicographic.LessAtFirstDifference(KindText(k), KindText(l), DiffersAt(k));
  }

  function KindOf(rank: nat): (k: Kind)
    requires rank < 7
    ensures KindRank(k) == rank
  {
    [BeerCreated, BeerDeleted, MediaAdded, BeerUpdated, CommentAdded, CommentDeleted, CommentLiked][rank]
  }

  lemma {:induction false} KindsAscend(k: Kind, l: Kind)
    requires KindRank(k) < KindRank(l)
    ensures Lexicographic.Less(KindText(k), KindText(l))
    decreases KindRank(l)
  {
    var m := KindOf(KindRank(l) - 1);
    NextKind(m, l);
    if m != k {
      KindsAscend(k, m);
      Lexicographic.LessTransitive(KindText(k), KindText(m), KindText(l));
    }
  }

  /** The ranks are the byte order of the texts. */
  lemma KindOrder(k: Kind, l: Kind)
    ensures KindRank(k) < KindRank(l) <==> Lexicographic.Less(KindText(k), KindText(l))
  {
    if KindRank(k) < KindRank(l) {
      KindsAscend(k, l);
    } else if Lexicographic.Less(KindText(k), KindText(l)) {
      if k != l {
        KindsAscend(l, k);
        Lexicographic.LessTransitive(KindText(k), KindText(l), KindText(k));
      }
      Lexicographic.LessIrreflexive(KindText(k));
    }
  }

  predicate Less(e: Event, f: Event) {
    if e.timestamp != f.timestamp then e.timestamp < f.timestamp
    else if e.kind != f.kind then KindRank(e.kind) < KindRank(f.kind)
    else if e.id != f.id then Lexicographic.Less(e.id, f.id)
    else if e.beerId != f.beerId then Lexicographic.Less(e.beerId, f.beerId)
    else Lexicographic.Less(e.subject, f.subject)
  }

  lemma LessTransitive(e: Event, f: Event, g: Event)
    requires Less(e, f) && Less(f, g)
    ensures Less(e, g)
  {
    if e.timestamp == f.timestamp == g.timestamp && e.kind == f.kind == g.kind {
      if e.id == g.id {
        if e.id != f.id {
          Lexicographic.LessTransitive(e.id, f.id, g.id);
          Lexicographic.LessIrreflexive(e.id);
        } else if e.beerId == g.beerId {
          if e.beerId != f.beerId {
            Lexicographic.LessTransitive(e.beerId, f.beerId, g.beerId);
            Lexicographic.LessIrreflexive(e.beerId);
          } else {
            Lexicographic.LessTransitive(e.subject, f.subject, g.subject);
          }
        } else if e.beerId != f.beerId && f.beerId != g.beerId {
          Lexicographic.LessTransitive(e.beerId, f.beerId, g.beerId);
        }
      } else if e.id != f.id && f.id != g.id {
        Lexicographic.LessTransitive(e.id, f.id, g.id);
      }
    }
  }

  lemma LessIrreflexive(e: Event)
    ensures !Less(e, e)
  {
    Lexicographic.LessIrreflexive(e.subject);
  }

  /** A later event is greater, whatever its payload; within one instant the payloads decide. */
  lemma LaterIsGreater(e: Event, f: Event)
    ensures e.timestamp < f.timestamp ==> Less(e, f)
    ensures e.timestamp == f.timestamp && e.kind != f.kind ==>
              (Less(e, f) <==> Lexicographic.Less(KindText(e.kind), KindText(f.kind)))
    ensures e.timestamp == f.timestamp && e.kind == f.kind && e.id != f.id ==>
              (Less(e, f) <==> Lexicographic.Less(e.id, f.id))
  {
    KindOrder(e.kind, f.kind);
  }

  lemma LessTotal(e: Event, f: Event)
    ensures Less(e, f) || e == f || Less(f, e)
  {
    Lexicographic.LessTotal(e.id, f.id);
    Lexicographic.LessTotal(e.beerId, f.beerId);
    Lexicographic.LessTotal(e.subject, f.subject);
  }

  // ---------------------------------------------------------------------------
  // Sorted sets.

  function Below(s: set<Event>, e: Event): set<Event> { set x | x in s && Less(x, e) }

  function Above(s: set<Event>, e: Event): set<Event> { set x | x in s && Less(e, x) }

  /** ZREMRANGEBYRANK: ranks count from the least score; a negative stop counts from the end. */
  function ZRemRangeByRank(s: set<Event>, start: nat, stop: int): set<Event> {
    var last := if stop < 0 then |s| + stop else stop;
    set e | e in s && !(start <= |Below(s, e)| <= last)
  }

  /** The reference: the events with fewer than `n` greater ones. */
  function Top(s: set<Event>, n: nat): set<Event> { set e | e in s && |Above(s, e)| < n }

  lemma RanksAddUp(s: set<Event>, e: Event)
    requires e in s
    ensures |Below(s, e)| + |Above(s, e)| == |s| - 1
  {
    forall x | x in s ensures x in Below(s, e) || x == e || x in Above(s, e) {
      LessTotal(x, e);
    }
    LessIrreflexive(e);
    forall x | x in Below(s, e) ensures x !in Above(s, e) {
      if Less(e, x) {
        LessTransitive(x, e, x);
        LessIrreflexive(x);
      }
    }
    assert s == Below(s, e) + Above(s, e) + {e};
  }

  /** The trim command keeps exactly the greatest events. */
  lemma TrimIsTop(s: set<Event>, n: nat)
    ensures ZRemRangeByRank(s, 0, -(n as int) - 1) == Top(s, n)
  {
    forall e | e in s ensures e in ZRemRangeByRank(s, 0, -(n as int) - 1) <==> e in Top(s, n) {
      RanksAddUp(s, e);
    }
  }

  predicate IsLeast(s: set<Event>, m: Event) {
    m in s && forall x :: x in s ==> x == m || Less(m, x)
  }

  lemma {:induction false} LeastExists(s: set<Event>)
    requires s != {}
    ensures exists m :: IsLeast(s, m)
  {
    var x :| x in s;
    if s == {x} {
      assert IsLeast(s, x);
    } else {
      LeastExists(s - {x});
      var m :| IsLeast(s - {x}, m);
      LessTotal(x, m);
      if Less(x, m) {
        forall y | y in s ensures y == x || Less(x, y) {
          if y != x && y != m {
            LessTransitive(x, m, y);
          }
        }
        assert IsLeast(s, x);
      } else {
        assert IsLeast(s, m);
      }
    }
  }

  lemma AboveWithoutLeast(s: set<Event>, m: Event, e: Event)
    requires IsLeast(s, m) && e in s - {m}
    ensures Above(s, e) == Above(s - {m}, e)
  {
    if Less(e, m) {
      LessTransitive(e, m, e);
      LessIrreflexive(e);
    }
  }

  lemma {:induction false} TopSize(s: set<Event>, n: nat)
    ensures |Top(s, n)| == if |s| <= n then |s| else n
    decreases |s|
  {
    if s == {} {
      assert Top(s, n) == {};
    } else {
      LeastExists(s);
      var m :| IsLeast(s, m);
      var rest := s - {m};
      TopSize(rest, n);
      LessIrreflexive(m);
      assert Above(s, m) == rest;
      forall e | e in rest ensures Above(s, e) == Above(rest, e) {
        AboveWithoutLeast(s, m, e);
      }
      assert Top(s, n) == Top(rest, n) + if |rest| < n then {m} else {};
    }
  }

  lemma SizeMonotone(s: set<Event>, t: set<Event>)
    requires s <= t
    ensures |s| <= |t|
  {
    assert t == s + (t - s);
  }

  lemma TopOfSubset(s: set<Event>, t: set<Event>, n: nat)
    requires s <= t
    ensures forall e :: e in Top(t, n) && e in s ==> e in Top(s, n)
  {
    forall e | e in Top(t, n) && e in s ensures e in Top(s, n) {
      SizeMonotone(Above(s, e), Above(t, e));
    }
  }

  /** An event outside the top `n` has the whole top above it. */
  lemma TopIsAbove(s: set<Event>, n: nat, e: Event)
    requires e in s && e !in Top(s, n)
    ensures Top(s, n) <= Above(s, e)
  {
    forall x | x in Top(s, n) ensures Less(e, x) {
      LessTotal(e, x);
      if Less(x, e) {
        forall y | y in Above(s, e) ensures y in Above(s, x) {
          LessTransitive(x, e, y);
        }
        SizeMonotone(Above(s, e), Above(s, x));
      }
    }
  }

  /** Trimming any set between the top of `all` and `all` gives the top of `all`. */
  lemma TopBetween(s: set<Event>, all: set<Event>, n: nat)
    requires Top(all, n) <= s <= all
    ensures Top(s, n) == Top(all, n)
  {
    TopOfSubset(s, all, n);
    forall e | e in Top(s, n) ensures e in Top(all, n) {
      if e !in Top(all, n) {
        TopIsAbove(all, n, e);
        assert Top(all, n) <= Above(s, e);
        SizeMonotone(Top(all, n), Above(s, e));
        TopSize(all, n);
        SizeMonotone(Above(all, e), all);
      }
    }
  }

  // ---------------------------------------------------------------------------
  // The publishers of one beer.

  /** `added` holds what was added since the key came into being; `busy` the publishers whose
      add is not yet followed by their trim. */
  datatype Key = Key(members: set<Event>, added: set<Event>, busy: set<nat>)

  datatype Command = Add(publisher: nat, event: Event) | Trim(publisher: nat) | Expire

  predicate Enabled(k: Key, c: Command) {
    match c
    case Add(p, _) => p !in k.busy
    case Trim(p) => p in k.busy
    case Expire => true
  }

  function Perform(k: Key, c: Command): Key
    requires Enabled(k, c)
  {
    match c
    case Add(p, e) => Key(k.members + {e}, k.added + {e}, k.busy + {p})
    case Trim(p) => Key(ZRemRangeByRank(k.members, 0, -(MAX_EVENTS_PER_BEER as int) - 1), k.added, k.busy - {p})
    case Expire => Key({}, {}, k.busy)
  }

  function After(run: seq<Command>): Option<Key> {
    if run == [] then Some(Key({}, {}, {}))
    else match After(run[..|run| - 1])
      case None => None
      case Some(k) => if Enabled(k, run[|run| - 1]) then Some(Perform(k, run[|run| - 1])) else None
  }

  ghost predicate Streaming(k: Key) {
    var n := MAX_EVENTS_PER_BEER;
    && Top(k.added, n) <= k.members <= k.added
    && (k.busy == {} ==> k.members == Top(k.added, n))
    && |k.members| <= n + |k.busy|
  }

  lemma StreamingStep(k: Key, c: Command)
    requires Streaming(k) && Enabled(k, c)
    ensures Streaming(Perform(k, c))
    ensures c.Trim? ==> Perform(k, c).members == Top(k.added, MAX_EVENTS_PER_BEER)
  {
    var n := MAX_EVENTS_PER_BEER;
    match c
    case Add(p, e) =>
      TopOfSubset(k.added, k.added + {e}, n);
    case Trim(p) =>
      TrimIsTop(k.members, n);
      TopBetween(k.members, k.added, n);
      TopSize(k.added, n);
    case Expire =>
  }

  /** All of the events, or 1000 of them with none left out that is later than one that is kept. */
  ghost predicate Newest(members: set<Event>, added: set<Event>) {
    && members <= added && |members| == (if |added| <= 1000 then |added| else 1000)
    && forall e, f :: e in members && f in added && f !in members ==> f.timestamp <= e.timestamp && Less(f, e)
  }

  lemma TopIsNewest(added: set<Event>)
    ensures Newest(Top(added, 1000), added)
  {
    TopSize(added, 1000);
    forall f | f in added && f !in Top(added, 1000) ensures Top(added, 1000) <= Above(added, f) {
      TopIsAbove(added, 1000, f);
    }
  }

  /** In every interleaving of publishers, between expiries of the key: the cached set holds the
      1000 greatest events added, never more than one extra for each half done publish, and is
      exactly those events when no publish is half done or the last command was a trim. */
  lemma {:induction false} StreamingIsBatch(run: seq<Command>)
    requires After(run).Some?
    ensures Streaming(After(run).value)
    ensures run != [] && run[|run| - 1].Trim? ==>
              After(run).value.members == Top(After(run).value.added, 1000)
    ensures var k := After(run).value;
            && k.members <= k.added && |k.members| <= 1000 + |k.busy|
            && (k.busy == {} ==> Newest(k.members, k.added))
  {
    if run != [] {
      StreamingIsBatch(run[..|run| - 1]);
      StreamingStep(After(run[..|run| - 1]).value, run[|run| - 1]);
    }
    TopIsNewest(After(run).value.added);
  }
}
