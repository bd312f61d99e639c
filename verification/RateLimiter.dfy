/** The in-memory rate limiter: expiring counters, one per key and time bucket, that stand for the
    whole log of hits. Times are clock ticks; a window is a number of ticks. */
module RateLimiter {
  import opened Basics

  /** The counter key combines the caller's key with the number of the current bucket. */
  datatype Key = Key(name: string, bucket: nat)

  datatype Counter = Counter(used: nat, expires: int)

  datatype Decision = Decision(allowed: bool, limit: nat, used: nat, remaining: nat, retryAfter: int)

  type Counters = map<Key, Counter>

  /** Each caller's key comes with one window and one limit, both at least 1. */
  datatype Policy = Policy(window: string -> nat, limit: string -> nat)

  ghost predicate Sound(p: Policy) {
    forall name :: p.window(name) >= 1 && p.limit(name) >= 1
  }

  const MAX_TRACKED := 50000
  const MAX_EVICTED := 10000

  function BucketOf(t: nat, w: nat): nat
    requires w >= 1
  {
    t / w
  }

  /** The first instant after a bucket. */
  function BucketEnd(b: nat, w: nat): nat {
    (b + 1) * w
  }

  lemma BucketBounds(t: nat, w: nat)
    requires w >= 1
    ensures BucketEnd(BucketOf(t, w), w) - w <= t < BucketEnd(BucketOf(t, w), w)
  {
    assert (t / w + 1) * w == (t / w) * w + w;
  }

  lemma LaterBucket(b: nat, t: nat, w: nat)
    requires w >= 1 && t >= BucketEnd(b, w)
    ensures BucketOf(t, w) > b
  {
    BucketBounds(t, w);
    if BucketOf(t, w) <= b {
      EndsOrdered(BucketOf(t, w), b, w);
    }
  }

  lemma EndsOrdered(a: nat, b: nat, w: nat)
    requires a <= b
    ensures BucketEnd(a, w) <= BucketEnd(b, w)
  {
  }

  lemma NextEnd(b: nat, w: nat)
    ensures BucketEnd(b + 1, w) == BucketEnd(b, w) + w
  {
  }

  function KeyOf(p: Policy, name: string, now: nat): Key
    requires p.window(name) >= 1
  {
    Key(name, BucketOf(now, p.window(name)))
  }

  predicate Stale(c: Counter, now: int) {
    c.expires <= now
  }

  /** One hit on a key's counter, once the given entries have been cleaned up. */
  function Bump(counters: Counters, key: Key, window: nat, now: nat): Counter {
    if key in counters && !Stale(counters[key], now) then Counter(counters[key].used + 1, counters[key].expires)
    else Counter(1, now + window)
  }

  function Hit(p: Policy, counters: Counters, evicted: set<Key>, name: string, now: nat): (Counters, Decision)
    requires p.window(name) >= 1
  {
    var key := KeyOf(p, name, now);
    var c := Bump(counters - evicted, key, p.window(name), now);
    ((counters - evicted)[key := c],
     Decision(c.used <= p.limit(name), p.limit(name), c.used, Max(0, p.limit(name) - c.used), Max(1, c.expires - now)))
  }

  // ----- the log -----

  datatype Event = Event(name: string, at: nat)

  function Hits(p: Policy, log: seq<Event>, key: Key): nat
    requires forall e :: e in log ==> p.window(e.name) >= 1
  {
    if log == [] then 0
    else
      var e := log[|log| - 1];
      Hits(p, log[..|log| - 1], key) + if KeyOf(p, e.name, e.at) == key then 1 else 0
  }

  /** The bucket of the key has not ended. */
  predicate Running(p: Policy, key: Key, now: nat) {
    now < BucketEnd(key.bucket, p.window(key.name))
  }

  /** While a bucket runs, its counter is exact and does not expire. */
  ghost predicate Exact(p: Policy, counters: Counters, log: seq<Event>, now: nat)
    requires Sound(p)
  {
    forall key :: Running(p, key, now) ==>
      if key in counters
      then counters[key].used == Hits(p, log, key) && counters[key].expires >= BucketEnd(key.bucket, p.window(key.name))
      else Hits(p, log, key) == 0
  }

  /** The clean-up only removes expired entries. */
  ghost predicate OnlyStale(counters: Counters, evicted: set<Key>, now: nat) {
    forall key :: key in evicted && key in counters ==> Stale(counters[key], now)
  }

  lemma HitIsExact(p: Policy, counters: Counters, log: seq<Event>, before: nat, evicted: set<Key>, name: string,
                   now: nat)
    requires Sound(p) && before <= now && Exact(p, counters, log, before) && OnlyStale(counters, evicted, now)
    ensures var (after, d) := Hit(p, counters, evicted, name, now);
            && Exact(p, after, log + [Event(name, now)], now)
            && d.used == Hits(p, log + [Event(name, now)], KeyOf(p, name, now))
            && now + d.retryAfter >= BucketEnd(KeyOf(p, name, now).bucket, p.window(name))
  {
    var key := KeyOf(p, name, now);
    var w := p.window(name);
    var more := log + [Event(name, now)];
    assert more[..|log|] == log;
    BucketBounds(now, w);
    hide BucketOf, BucketEnd;
    assert Running(p, key, now) && Running(p, key, before);
    var after := Hit(p, counters, evicted, name, now).0;
    forall k | Running(p, k, now)
      ensures if k in after
              then after[k].used == Hits(p, more, k) && after[k].expires >= BucketEnd(k.bucket, p.window(k.name))
              else Hits(p, more, k) == 0
    {
      assert Running(p, k, before);
      assert k in counters ==> !Stale(counters[k], now);
    }
  }

  /** The time of the first hit of a key. */
  function FirstAt(p: Policy, log: seq<Event>, key: Key): Option<nat>
    requires forall e :: e in log ==> p.window(e.name) >= 1
  {
    if log == [] then None
    else
      var e := log[|log| - 1];
      var first := FirstAt(p, log[..|log| - 1], key);
      if first.Some? then first else if KeyOf(p, e.name, e.at) == key then Some(e.at) else None
  }

  lemma {:induction false} FirstAtCounted(p: Policy, log: seq<Event>, key: Key)
    requires Sound(p)
    ensures FirstAt(p, log, key).None? <==> Hits(p, log, key) == 0
  {
    if log != [] {
      FirstAtCounted(p, log[..|log| - 1], key);
    }
  }

  /** While a bucket runs, its counter expires one window after the bucket's first hit. */
  ghost predicate Dated(p: Policy, counters: Counters, log: seq<Event>, now: nat)
    requires Sound(p)
  {
    forall key :: Running(p, key, now) && key in counters ==>
      FirstAt(p, log, key).Some? && counters[key].expires == FirstAt(p, log, key).value + p.window(key.name)
  }

  lemma HitIsDated(p: Policy, counters: Counters, log: seq<Event>, before: nat, evicted: set<Key>, name: string,
                   now: nat)
    requires Sound(p) && before <= now && Exact(p, counters, log, before) && OnlyStale(counters, evicted, now)
    requires Dated(p, counters, log, before)
    ensures var (after, d) := Hit(p, counters, evicted, name, now);
            var first := FirstAt(p, log + [Event(name, now)], KeyOf(p, name, now));
            && Dated(p, after, log + [Event(name, now)], now)
            && first.Some? && d.retryAfter == Max(1, first.value + p.window(name) - now)
            && d.limit == p.limit(name) && d.remaining == if d.used <= d.limit then d.limit - d.used else 0
  {
    var key := KeyOf(p, name, now);
    var more := log + [Event(name, now)];
    assert more[..|log|] == log;
    BucketBounds(now, p.window(name));
    FirstAtCounted(p, log, key);
    hide BucketOf, BucketEnd;
    assert Running(p, key, now) && Running(p, key, before);
    var after := Hit(p, counters, evicted, name, now).0;
    forall k | Running(p, k, now) && k in after
      ensures FirstAt(p, more, k).Some? && after[k].expires == FirstAt(p, more, k).value + p.window(k.name)
    {
      assert Running(p, k, before);
      assert k in counters ==> !Stale(counters[k], now);
    }
  }

  lemma {:induction false} RunIsDated(p: Policy, visits: seq<Visit>, now: nat)
    requires Sound(p) && Orderly(p, visits) && (visits != [] ==> visits[|visits| - 1].at <= now)
    ensures Dated(p, Run(p, visits), LogOf(visits), now)
  {
    hide Hit, Dated, Exact;
    if visits == [] {
      NothingDated(p, now);
    } else {
      var n := |visits| - 1;
      var v := visits[n];
      OrderlyPrefix(p, visits);
      RunIsExact(p, visits[..n], v.at);
      RunIsDated(p, visits[..n], v.at);
      HitIsDated(p, Run(p, visits[..n]), LogOf(visits[..n]), v.at, v.evicted, v.name, v.at);
      DatedLater(p, Run(p, visits), LogOf(visits), v.at, now);
    }
  }

  lemma NothingDated(p: Policy, now: nat)
    requires Sound(p)
    ensures Dated(p, map[], [], now)
  {
  }

  lemma DatedLater(p: Policy, counters: Counters, log: seq<Event>, before: nat, now: nat)
    requires Sound(p) && before <= now && Dated(p, counters, log, before)
    ensures Dated(p, counters, log, now)
  {
    forall k | Running(p, k, now)
      ensures Running(p, k, before)
    {
    }
  }

  /** What a caller is told besides the count: its limit, what is left of it, and to wait until one
      window after the first hit of the bucket. */
  lemma AnswerIsExact(p: Policy, visits: seq<Visit>)
    requires Sound(p) && Orderly(p, visits) && visits != []
    ensures var v := visits[|visits| - 1];
            var d := LastDecision(p, visits);
            var first := FirstAt(p, LogOf(visits), KeyOf(p, v.name, v.at));
            && d.limit == p.limit(v.name) && d.remaining == (if d.used <= d.limit then d.limit - d.used else 0)
            && first.Some? && d.retryAfter == Max(1, first.value + p.window(v.name) - v.at)
  {
    hide *;
    var n := |visits| - 1;
    var v := visits[n];
    BeforeLast(p, visits);
    LastVisit(p, visits);
    AnswerFrom(p, Run(p, visits[..n]), LogOf(visits[..n]), v, LogOf(visits), LastDecision(p, visits));
  }

  lemma AnswerFrom(p: Policy, counters: Counters, log: seq<Event>, v: Visit, more: seq<Event>, d: Decision)
    requires Sound(p) && Exact(p, counters, log, v.at) && Dated(p, counters, log, v.at)
    requires OnlyStale(counters, v.evicted, v.at) && more == log + [Event(v.name, v.at)]
    requires p.window(v.name) >= 1 && d == Hit(p, counters, v.evicted, v.name, v.at).1
    ensures var first := FirstAt(p, more, KeyOf(p, v.name, v.at));
            && d.limit == p.limit(v.name) && d.remaining == (if d.used <= d.limit then d.limit - d.used else 0)
            && first.Some? && d.retryAfter == Max(1, first.value + p.window(v.name) - v.at)
  {
    hide Exact, Dated, OnlyStale, Hit, FirstAt, KeyOf;
    HitIsDated(p, counters, log, v.at, v.evicted, v.name, v.at);
  }

  lemma BeforeLast(p: Policy, visits: seq<Visit>)
    requires Sound(p) && Orderly(p, visits) && visits != []
    ensures var n := |visits| - 1;
            var v := visits[n];
            && (forall u :: u in visits[..n] ==> p.window(u.name) >= 1)
            && (forall e :: e in LogOf(visits[..n]) ==> p.window(e.name) >= 1)
            && Exact(p, Run(p, visits[..n]), LogOf(visits[..n]), v.at)
            && Dated(p, Run(p, visits[..n]), LogOf(visits[..n]), v.at)
            && OnlyStale(Run(p, visits[..n]), v.evicted, v.at)
  {
    var n := |visits| - 1;
    var v := visits[n];
    OrderlyPrefix(p, visits);
    RunIsExact(p, visits[..n], v.at);
    RunIsDated(p, visits[..n], v.at);
    hide Exact, Dated, Hit;
  }

  datatype Visit = Visit(name: string, at: nat, evicted: set<Key>)

  function Run(p: Policy, visits: seq<Visit>): Counters
    requires forall v :: v in visits ==> p.window(v.name) >= 1
  {
    if visits == [] then map[]
    else
      var v := visits[|visits| - 1];
      Hit(p, Run(p, visits[..|visits| - 1]), v.evicted, v.name, v.at).0
  }

  function LogOf(visits: seq<Visit>): seq<Event> {
    if visits == [] then []
    else LogOf(visits[..|visits| - 1]) + [Event(visits[|visits| - 1].name, visits[|visits| - 1].at)]
  }

  /** The clock does not run backwards and clean-ups remove only what has expired. */
  ghost predicate Orderly(p: Policy, visits: seq<Visit>)
    requires Sound(p)
  {
    && (forall i, j :: 0 <= i < j < |visits| ==> visits[i].at <= visits[j].at)
    && (forall i :: 0 <= i < |visits| ==> OnlyStale(Run(p, visits[..i]), visits[i].evicted, visits[i].at))
  }

  lemma OrderlyPrefix(p: Policy, visits: seq<Visit>)
    requires Sound(p) && visits != [] && Orderly(p, visits)
    ensures Orderly(p, visits[..|visits| - 1])
    ensures OnlyStale(Run(p, visits[..|visits| - 1]), visits[|visits| - 1].evicted, visits[|visits| - 1].at)
  {
    var n := |visits| - 1;
    forall i | 0 <= i < n
      ensures OnlyStale(Run(p, visits[..n][..i]), visits[..n][i].evicted, visits[..n][i].at)
    {
      assert visits[..n][..i] == visits[..i];
    }
  }

  lemma {:induction false} RunIsExact(p: Policy, visits: seq<Visit>, now: nat)
    requires Sound(p) && Orderly(p, visits)
    requires visits != [] ==> visits[|visits| - 1].at <= now
    ensures Exact(p, Run(p, visits), LogOf(visits), now)
  {
    if visits != [] {
      var n := |visits| - 1;
      var v := visits[n];
      OrderlyPrefix(p, visits);
      RunIsExact(p, visits[..n], v.at);
      HitIsExact(p, Run(p, visits[..n]), LogOf(visits[..n]), v.at, v.evicted, v.name, v.at);
      ExactLater(p, Run(p, visits), LogOf(visits), v.at, now);
    }
  }

  lemma ExactLater(p: Policy, counters: Counters, log: seq<Event>, before: nat, now: nat)
    requires Sound(p) && before <= now && Exact(p, counters, log, before)
    ensures Exact(p, counters, log, now)
  {
    forall k | Running(p, k, now)
      ensures Running(p, k, before)
    {
    }
  }

  /** What the last of the visits was told. */
  function LastDecision(p: Policy, visits: seq<Visit>): Decision
    requires visits != [] && forall v :: v in visits ==> p.window(v.name) >= 1
  {
    var v := visits[|visits| - 1];
    Hit(p, Run(p, visits[..|visits| - 1]), v.evicted, v.name, v.at).1
  }

  lemma LastVisit(p: Policy, visits: seq<Visit>)
    requires Sound(p) && visits != []
    ensures var n := |visits| - 1;
            var v := visits[n];
            && p.window(v.name) >= 1
            && KeyOf(p, v.name, v.at) == Key(v.name, BucketOf(v.at, p.window(v.name)))
            && LogOf(visits) == LogOf(visits[..n]) + [Event(v.name, v.at)]
            && LastDecision(p, visits) == Hit(p, Run(p, visits[..n]), v.evicted, v.name, v.at).1
            && LastDecision(p, visits).retryAfter >= 1
            && (LastDecision(p, visits).allowed <==> LastDecision(p, visits).used <= p.limit(v.name))
  {
  }

  /** However many entries expire or are cleaned up, the count reported to a caller is the exact
      number of hits of its key in the current bucket; and waiting as long as it is told brings the
      caller into a later bucket. */
  lemma CountIsExact(p: Policy, visits: seq<Visit>)
    requires Sound(p) && Orderly(p, visits) && visits != []
    ensures var v := visits[|visits| - 1];
            var d := LastDecision(p, visits);
            && d.used == Hits(p, LogOf(visits), KeyOf(p, v.name, v.at))
            && (d.allowed <==> Hits(p, LogOf(visits), KeyOf(p, v.name, v.at)) <= p.limit(v.name))
            && d.retryAfter >= 1
            && BucketOf(v.at + d.retryAfter, p.window(v.name)) > BucketOf(v.at, p.window(v.name))
  {
    var n := |visits| - 1;
    var v := visits[n];
    var before, log := Run(p, visits[..n]), LogOf(visits[..n]);
    OrderlyPrefix(p, visits);
    RunIsExact(p, visits[..n], v.at);
    LastVisit(p, visits);
    hide *;
    HitIsExact(p, before, log, v.at, v.evicted, v.name, v.at);
    LaterBucket(BucketOf(v.at, p.window(v.name)), v.at + LastDecision(p, visits).retryAfter, p.window(v.name));
  }

  // ----- how many hits are let through -----

  predicate Allowed(p: Policy, log: seq<Event>)
    requires log != [] && forall e :: e in log ==> p.window(e.name) >= 1
  {
    var e := log[|log| - 1];
    Hits(p, log, KeyOf(p, e.name, e.at)) <= p.limit(e.name)
  }

  /** The allowed hits of one key and bucket. */
  function AllowedIn(p: Policy, log: seq<Event>, key: Key): nat
    requires forall e :: e in log ==> p.window(e.name) >= 1
  {
    if log == [] then 0
    else
      var e := log[|log| - 1];
      AllowedIn(p, log[..|log| - 1], key) + if KeyOf(p, e.name, e.at) == key && Allowed(p, log) then 1 else 0
  }

  /** Of the hits of a bucket, the first ones up to the limit are let through. */
  lemma {:induction false} BucketLetsThrough(p: Policy, log: seq<Event>, key: Key)
    requires Sound(p)
    ensures AllowedIn(p, log, key) == Min(Hits(p, log, key), p.limit(key.name))
  {
    if log != [] {
      BucketLetsThrough(p, log[..|log| - 1], key);
    }
  }

  /** The allowed hits of one name between two instants, both included. */
  function AllowedBetween(p: Policy, log: seq<Event>, name: string, from: nat, to: nat): nat
    requires forall e :: e in log ==> p.window(e.name) >= 1
  {
    if log == [] then 0
    else
      var e := log[|log| - 1];
      AllowedBetween(p, log[..|log| - 1], name, from, to)
      + if e.name == name && from <= e.at <= to && Allowed(p, log) then 1 else 0
  }

  lemma {:induction false} IntervalWithinBuckets(p: Policy, log: seq<Event>, name: string, from: nat)
    requires Sound(p)
    ensures var b := BucketOf(from, p.window(name));
            AllowedBetween(p, log, name, from, from + p.window(name))
            <= AllowedIn(p, log, Key(name, b)) + AllowedIn(p, log, Key(name, b + 1))
  {
    if log != [] {
      var e := log[|log| - 1];
      IntervalWithinBuckets(p, log[..|log| - 1], name, from);
      if e.name == name && from <= e.at <= from + p.window(name) {
        TwoBuckets(from, e.at, p.window(name));
      }
    }
  }

  lemma TwoBuckets(s: nat, t: nat, w: nat)
    requires w >= 1 && s <= t <= s + w
    ensures BucketOf(t, w) == BucketOf(s, w) || BucketOf(t, w) == BucketOf(s, w) + 1
  {
    hide BucketOf, BucketEnd;
    var a, b := BucketOf(s, w), BucketOf(t, w);
    BucketBounds(s, w);
    BucketBounds(t, w);
    if b < a {
      EndsOrdered(b + 1, a, w);
      NextEnd(b, w);
    } else if b > a + 1 {
      NextEnd(a, w);
      NextEnd(a + 1, w);
      EndsOrdered(a + 2, b, w);
    }
  }

  /** In any interval one window long at most twice the limit is let through. */
  lemma AtMostTwiceTheLimit(p: Policy, log: seq<Event>, name: string, from: nat)
    requires Sound(p)
    ensures AllowedBetween(p, log, name, from, from + p.window(name)) <= 2 * p.limit(name)
  {
    var b := BucketOf(from, p.window(name));
    IntervalWithinBuckets(p, log, name, from);
    BucketLetsThrough(p, log, Key(name, b));
    BucketLetsThrough(p, log, Key(name, b + 1));
  }

  // ----- the table, updated in place -----

  class LocalLimiter {
    var counters: Counters

    constructor ()
      ensures counters == map[]
    {
      counters := map[];
    }

    /** Opportunistic clean-up: only when the table is large, and only so many entries at a time. */
    method CleanUp(now: nat) returns (evicted: set<Key>)
      modifies this
      ensures counters == old(counters) - evicted && evicted <= old(counters).Keys
      ensures OnlyStale(old(counters), evicted, now)
      ensures forall k :: k in evicted ==> old(counters)[k].expires <= now
      ensures |old(counters)| <= 50000 ==> evicted == {}
      ensures |old(counters)| > 50000 ==>
                |evicted| == Min(10000, |set k | k in old(counters) && old(counters)[k].expires <= now|)
    {
      evicted := {};
      if |counters| > MAX_TRACKED {
        assert (set k | k in counters && Stale(counters[k], now))
            == set k | k in counters && counters[k].expires <= now;
        hide Stale;
        var stale := set k | k in counters && Stale(counters[k], now);
        ghost var all := stale;
        while stale != {} && |evicted| < MAX_EVICTED
          invariant counters == old(counters) - evicted
          invariant evicted <= all && stale == all - evicted
          invariant |evicted| <= MAX_EVICTED
          decreases |stale|
        {
          var k :| k in stale;
          counters := counters - {k};
          evicted := evicted + {k};
          stale := stale - {k};
        }
        assert stale == {} ==> evicted == all;
        SubsetSize(evicted, all);
      } else {
        assert counters - {} == counters;
      }
    }

    method LocalRateLimitHit(p: Policy, name: string, now: nat) returns (d: Decision, evicted: set<Key>)
      requires p.window(name) >= 1
      modifies this
      ensures (counters, d) == Hit(p, old(counters), evicted, name, now)
      ensures OnlyStale(old(counters), evicted, now)
    {
      evicted := CleanUp(now);
      var key := KeyOf(p, name, now);
      var used, expires := 0, now + p.window(name);
      if key in counters {
        used, expires := counters[key].used, counters[key].expires;
      }
      if expires <= now {
        used, expires := 0, now + p.window(name);
      }
      used := used + 1;
      counters := counters[key := Counter(used, expires)];
      d := Decision(used <= p.limit(name), p.limit(name), used, Max(0, p.limit(name) - used), Max(1, expires - now));
    }
  }
}
