/** The single-flight gate in front of the per-request SQL synchronisation: a pruned table of recent
    successes and a set of keys in progress stand for the whole history of begins and finishes. */
module SyncGate {
  import opened Basics

  /** The key of a user's synchronisation. */
  type Key = nat

  datatype Event = Begin(key: Key, at: int) | Finish(key: Key, at: int, success: bool)

  datatype Gate = Gate(cache: map<Key, int>, inProgress: set<Key>)

  // ----- the gate -----

  function Prune(cache: map<Key, int>, ttl: int, now: int): map<Key, int> {
    map k | k in cache && !(cache[k] < now - ttl) :: cache[k]
  }

  function BeginSync(g: Gate, ttl: int, key: Key, now: int): (Gate, bool) {
    var cache := Prune(g.cache, ttl, now);
    if key in cache && now - cache[key] < ttl then (Gate(cache, g.inProgress), false)
    else if key in g.inProgress then (Gate(cache, g.inProgress), false)
    else (Gate(cache, g.inProgress + {key}), true)
  }

  function FinishSync(g: Gate, ttl: int, key: Key, success: bool, now: int): Gate {
    Gate(Prune(if success then g.cache[key := now] else g.cache, ttl, now), g.inProgress - {key})
  }

  function Apply(g: Gate, ttl: int, e: Event): Gate {
    match e
    case Begin(key, at) => BeginSync(g, ttl, key, at).0
    case Finish(key, at, success) => FinishSync(g, ttl, key, success, at)
  }

  function Run(ttl: int, h: seq<Event>): Gate {
    if h == [] then Gate(map[], {}) else Apply(Run(ttl, h[..|h| - 1]), ttl, h[|h| - 1])
  }

  // ----- the reference: what the whole history says -----

  function LastSuccess(h: seq<Event>, key: Key): Option<int> {
    if h == [] then None
    else
      var e := h[|h| - 1];
      if e.Finish? && e.key == key && e.success then Some(e.at) else LastSuccess(h[..|h| - 1], key)
  }

  /** A granted begin without a later finish. */
  predicate InFlight(ttl: int, h: seq<Event>, key: Key)
    decreases |h|, 0
  {
    h != [] &&
    var e, before := h[|h| - 1], h[..|h| - 1];
    if e.key != key then InFlight(ttl, before, key)
    else e.Begin? && (InFlight(ttl, before, key) || Granted(ttl, before, key, e.at))
  }

  /** Nobody is synchronising the key, and its last success is at least the time to live ago. */
  predicate Granted(ttl: int, h: seq<Event>, key: Key, at: int)
    decreases |h|, 1
  {
    !InFlight(ttl, h, key) && (LastSuccess(h, key).Some? ==> at - LastSuccess(h, key).value >= ttl)
  }

  ghost predicate Ordered(h: seq<Event>) {
    forall i, j :: 0 <= i < j < |h| ==> h[i].at <= h[j].at
  }

  ghost predicate NotAfter(h: seq<Event>, now: int) {
    forall e :: e in h ==> e.at <= now
  }

  ghost predicate Mirrors(ttl: int, h: seq<Event>, g: Gate, now: int) {
    && (forall k :: k in g.inProgress <==> InFlight(ttl, h, k))
    && (forall k :: k in g.cache ==> LastSuccess(h, k) == Some(g.cache[k]))
    && (forall k :: k !in g.cache && LastSuccess(h, k).Some? ==> now - LastSuccess(h, k).value > ttl)
    && (h != [] ==> forall k :: k in g.cache ==> h[|h| - 1].at - g.cache[k] <= ttl)
  }

  lemma BeginMirrors(ttl: int, h: seq<Event>, g: Gate, before: int, key: Key, now: int)
    requires ttl > 0 && before <= now && Mirrors(ttl, h, g, before)
    ensures BeginSync(g, ttl, key, now).1 <==> Granted(ttl, h, key, now)
    ensures Mirrors(ttl, h + [Begin(key, now)], BeginSync(g, ttl, key, now).0, now)
  {
    var after := h + [Begin(key, now)];
    assert after[..|h|] == h;
    forall k
      ensures LastSuccess(after, k) == LastSuccess(h, k)
    {
    }
  }

  lemma FinishMirrors(ttl: int, h: seq<Event>, g: Gate, before: int, key: Key, success: bool, now: int)
    requires ttl > 0 && before <= now && Mirrors(ttl, h, g, before)
    ensures Mirrors(ttl, h + [Finish(key, now, success)], FinishSync(g, ttl, key, success, now), now)
  {
    var after := h + [Finish(key, now, success)];
    assert after[..|h|] == h;
    forall k
      ensures LastSuccess(after, k) == if k == key && success then Some(now) else LastSuccess(h, k)
    {
    }
  }

  lemma {:induction false} RunMirrors(ttl: int, h: seq<Event>, now: int)
    requires ttl > 0 && Ordered(h) && NotAfter(h, now)
    ensures Mirrors(ttl, h, Run(ttl, h), now)
  {
    if h != [] {
      var n := |h| - 1;
      var e := h[n];
      assert NotAfter(h[..n], e.at) by {
        forall d | d in h[..n]
          ensures d.at <= e.at
        {
          var i :| 0 <= i < n && h[i] == d;
        }
      }
      RunMirrors(ttl, h[..n], e.at);
      var g := Run(ttl, h[..n]);
      assert h == h[..n] + [e];
      match e
      case Begin(key, at) => BeginMirrors(ttl, h[..n], g, at, key, at);
      case Finish(key, at, success) => FinishMirrors(ttl, h[..n], g, at, key, success, at);
    }
  }

  /** The pruned gate answers exactly as the whole history would. */
  lemma GateIsExact(ttl: int, h: seq<Event>, key: Key, now: int)
    requires ttl > 0 && Ordered(h) && NotAfter(h, now)
    ensures BeginSync(Run(ttl, h), ttl, key, now).1 <==> Granted(ttl, h, key, now)
  {
    RunMirrors(ttl, h, now);
    BeginMirrors(ttl, h, Run(ttl, h), now, key, now);
  }

  /** What the pruned table holds after an operation: exactly the last successes that are no older than
      the time to live. */
  lemma CacheIsExact(ttl: int, h: seq<Event>, key: Key)
    requires ttl > 0 && h != [] && Ordered(h)
    ensures var cache, last := Run(ttl, h).cache, LastSuccess(h, key);
            && (key in cache <==> last.Some? && h[|h| - 1].at - last.value <= ttl)
            && (key in cache ==> last == Some(cache[key]))
  {
    RunMirrors(ttl, h, h[|h| - 1].at);
  }

  predicate GrantedAt(ttl: int, h: seq<Event>, i: nat)
    requires i < |h|
  {
    h[i].Begin? && BeginSync(Run(ttl, h[..i]), ttl, h[i].key, h[i].at).1
  }

  lemma {:induction false} FlightLasts(ttl: int, h: seq<Event>, i: nat, j: nat)
    requires ttl > 0 && i < j <= |h| && h[i].Begin? && Granted(ttl, h[..i], h[i].key, h[i].at)
    requires forall k :: i < k < j ==> !(h[k].Finish? && h[k].key == h[i].key)
    ensures InFlight(ttl, h[..j], h[i].key)
    decreases j - i
  {
    assert h[..j][..j - 1] == h[..j - 1];
    if i + 1 < j {
      FlightLasts(ttl, h, i, j - 1);
    }
  }

  lemma {:induction false} SuccessRemembered(h: seq<Event>, k: nat, j: nat)
    requires k < j <= |h| && Ordered(h) && h[k].Finish? && h[k].success
    ensures LastSuccess(h[..j], h[k].key).Some? && LastSuccess(h[..j], h[k].key).value >= h[k].at
    decreases j - k
  {
    assert h[..j][..j - 1] == h[..j - 1];
    if k + 1 < j {
      SuccessRemembered(h, k, j - 1);
    }
  }

  /** Between two granted synchronisations of one key there is a finish, and each success keeps the
      gate shut for the whole time to live. */
  lemma SingleFlight(ttl: int, h: seq<Event>, i: nat, j: nat)
    requires ttl > 0 && Ordered(h) && i < j < |h|
    requires GrantedAt(ttl, h, i) && GrantedAt(ttl, h, j) && h[i].key == h[j].key
    ensures exists k :: i < k < j && h[k].Finish? && h[k].key == h[i].key
    ensures forall k :: 0 <= k < j && h[k].Finish? && h[k].success && h[k].key == h[j].key ==> h[j].at - h[k].at >= ttl
  {
    forall m | m == i || m == j
      ensures Granted(ttl, h[..m], h[m].key, h[m].at)
    {
      assert NotAfter(h[..m], h[m].at);
      GateIsExact(ttl, h[..m], h[m].key, h[m].at);
    }
    if forall k :: i < k < j ==> !(h[k].Finish? && h[k].key == h[i].key) {
      FlightLasts(ttl, h, i, j);
    }
    forall k | 0 <= k < j && h[k].Finish? && h[k].success && h[k].key == h[j].key
      ensures h[j].at - h[k].at >= ttl
    {
      SuccessRemembered(h, k, j);
    }
  }

  // ----- the module state, updated in place -----

  class SqlRequestSync {
    const ttl: int
    var cache: map<Key, int>
    var inProgress: set<Key>

    ghost function State(): Gate
      reads this
    {
      Gate(cache, inProgress)
    }

    /** The configured time to live is clamped between half a minute and an hour. */
    constructor (configured: int)
      ensures State() == Run(ttl, []) && 30 <= ttl <= 3600
      ensures ttl == if configured < 30 then 30 else if configured > 3600 then 3600 else configured
    {
      ttl := Max(30, Min(3600, configured));
      cache, inProgress := map[], {};
    }

    method PruneCache(now: int)
      modifies this`cache
      ensures cache == Prune(old(cache), ttl, now)
    {
      if cache == map[] {
        return;
      }
      var cutoff := now - ttl;
      var stale := set k | k in cache && cache[k] < cutoff;
      cache := cache - stale;
    }

    method BeginRequest(key: Key, now: int) returns (granted: bool)
      modifies this
      ensures (State(), granted) == BeginSync(old(State()), ttl, key, now)
    {
      PruneCache(now);
      if key in cache && now - cache[key] < ttl {
        return false;
      }
      if key in inProgress {
        return false;
      }
      inProgress := inProgress + {key};
      granted := true;
    }

    method FinishRequest(key: Key, success: bool, now: int)
      modifies this
      ensures State() == FinishSync(old(State()), ttl, key, success, now)
    {
      inProgress := inProgress - {key};
      if success {
        cache := cache[key := now];
      }
      PruneCache(now);
    }
  }
}
