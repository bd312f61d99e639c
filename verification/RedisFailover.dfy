/** Automatic failover over a ring of Redis instances: probing, the periodic health check and the
    bounded retry loop of one call. */
module RedisFailover {
  import opened Basics

  /** An error message, and whether it reads as an exhausted quota. */
  datatype Fault = Fault(text: string, quota: bool)

  datatype Reply = Up | Down(fault: Fault)

  type Value = int

  datatype Outcome = Done(value: Value) | RedisError(fault: Fault) | OtherError(fault: Fault)

  /** How one instance answers during a call: to the creation of a client, to a ping, and to the
      caller's operation. */
  datatype Health = Health(create: Reply, ping: Reply, operation: Outcome)

  datatype Instance = Instance(connected: bool, error: Option<string>, quotaExceeded: bool, failures: nat,
                               lastSuccess: int)

  /** The instances in their configured order, and the one in use. */
  datatype Pool = Pool(instances: seq<Instance>, active: nat)

  /** How one call ends: with the operation's result, or with the error it raises. */
  datatype Result = Returned(value: Value) | Raised(fault: Fault) | NoInstance

  ghost predicate Usable(p: Pool, w: seq<Health>) {
    && |w| == |p.instances| > 0
    && p.active < |p.instances|
    && forall i :: 0 <= i < |w| ==> (w[i].create.Up? ==> w[i].ping.Up?)  // creating a client pings it
  }

  // ----- bookkeeping of one instance -----

  function MarkFailed(i: Instance, f: Fault): Instance {
    i.(failures := i.failures + 1, error := Some(f.text), quotaExceeded := i.quotaExceeded || f.quota)
  }

  function MarkCreateFailed(i: Instance, f: Fault): Instance {
    i.(error := Some(f.text), quotaExceeded := i.quotaExceeded || f.quota)
  }

  function MarkSuccess(i: Instance, now: int): Instance {
    i.(failures := 0, error := None, quotaExceeded := false, lastSuccess := now)
  }

  /** Nothing is held against the instance any more. */
  predicate Cleared(i: Instance) {
    i.failures == 0 && i.error == None && !i.quotaExceeded
  }

  /** Reconnects if needed, then pings. */
  function Probe(i: Instance, h: Health, now: int): (Instance, bool) {
    if !i.connected && h.create.Down? then (MarkCreateFailed(i, h.create.fault), false)
    else
      var live := i.(connected := true);
      match h.ping
      case Up => (MarkSuccess(live, now), true)
      case Down(f) => (MarkFailed(live, f), false)
  }

  /** An instance other than the active one can be brought into use. */
  predicate Reachable(p: Pool, w: seq<Health>, i: nat)
    requires |w| == |p.instances| && i < |w|
  {
    w[i].ping.Up? && (p.instances[i].connected || w[i].create.Up?)
  }

  // ----- positions on the ring -----

  function Wrap(a: nat, n: nat): nat
    requires n > 0 && a < 2 * n
  {
    if a < n then a else a - n
  }

  lemma WrapIsRemainder(a: nat, n: nat)
    requires n > 0 && a < 2 * n
    ensures a % n == Wrap(a, n) < n
  {
    if a >= n {
      assert a % n == (a - n) % n;
    }
  }

  /** How many steps forward lead from a to b. */
  function Distance(a: nat, b: nat, n: nat): nat
    requires a < n && b < n
  {
    if a <= b then b - a else b + n - a
  }

  // ----- failover -----

  /** Tries the positions at the offsets k, k + 1, ... from the active instance. */
  function FailoverFrom(p: Pool, w: seq<Health>, k: nat, now: int): (Pool, bool)
    requires Usable(p, w) && 1 <= k
    decreases |w| - k
  {
    if k >= |w| then (p, false)
    else
      var next := Wrap(p.active + k, |w|);
      var (probed, ok) := Probe(p.instances[next], w[next], now);
      var q := p.(instances := p.instances[next := probed]);
      if ok then (q.(active := next), true) else FailoverFrom(q, w, k + 1, now)
  }

  function Failover(p: Pool, w: seq<Health>, now: int): (Pool, bool)
    requires Usable(p, w)
  {
    FailoverFrom(p, w, 1, now)
  }

  /** Probing changes neither the number of instances, nor which of them can be reached, nor the
      records of those it does not touch; no client is lost. */
  ghost predicate SameRing(p: Pool, q: Pool, w: seq<Health>) {
    && |q.instances| == |p.instances| == |w|
    && (forall i :: 0 <= i < |w| ==> (Reachable(p, w, i) <==> Reachable(q, w, i)))
    && (forall i :: 0 <= i < |w| && p.instances[i].connected ==> q.instances[i].connected)
  }

  /** Nothing can be reached at distances k up to m ahead of the active instance. */
  ghost predicate NoneReachable(p: Pool, w: seq<Health>, k: nat, m: nat)
    requires Usable(p, w)
  {
    forall i :: 0 <= i < |w| && k <= Distance(p.active, i, |w|) < m ==> !Reachable(p, w, i)
  }

  /** Failover settles on the nearest reachable instance ahead, and fails only if there is none. */
  lemma {:induction false} FailoverFinds(p: Pool, w: seq<Health>, k: nat, now: int)
    requires Usable(p, w) && 1 <= k <= |w|
    ensures var (q, ok) := FailoverFrom(p, w, k, now);
            && SameRing(p, q, w) && Usable(q, w) && q.instances[p.active] == p.instances[p.active]
            && (ok ==> k <= Distance(p.active, q.active, |w|) && Reachable(p, w, q.active)
                       && q.instances[q.active].connected
                       && NoneReachable(p, w, k, Distance(p.active, q.active, |w|)))
            && (!ok ==> q.active == p.active && NoneReachable(p, w, k, |w|))
    decreases |w| - k
  {
    if k < |w| {
      var next := Wrap(p.active + k, |w|);
      var (probed, ok) := Probe(p.instances[next], w[next], now);
      var q := p.(instances := p.instances[next := probed]);
      if !ok {
        FailoverFinds(q, w, k + 1, now);
        NoneReachableThere(p, q, w, k);
        var (r, found) := FailoverFrom(q, w, k + 1, now);
        assert Reachable(p, w, r.active) <==> Reachable(q, w, r.active);
      }
    }
  }

  lemma NoneReachableThere(p: Pool, q: Pool, w: seq<Health>, k: nat)
    requires Usable(p, w) && Usable(q, w) && SameRing(p, q, w) && p.active == q.active && 1 <= k < |w|
    requires !Reachable(p, w, Wrap(p.active + k, |w|))
    ensures forall m :: NoneReachable(q, w, k + 1, m) ==> NoneReachable(p, w, k, m)
  {
  }

  // ----- one call -----

  /** The retry loop with this many attempts left. */
  function Attempts(p: Pool, w: seq<Health>, left: nat, now: int): (Pool, Result)
    requires Usable(p, w) && 1 <= left
    decreases left
  {
    var a := p.active;
    if !p.instances[a].connected then
      if left > 1 then (FailoverUsable(p, w, now); Attempts(Failover(p, w, now).0, w, left - 1, now))
      else (p, NoInstance)
    else match w[a].operation
      case Done(v) => (p.(instances := p.instances[a := MarkSuccess(p.instances[a], now)]), Returned(v))
      case OtherError(f) => (p, Raised(f))
      case RedisError(f) =>
        var failed := p.(instances := p.instances[a := MarkFailed(p.instances[a], f)]);
        if left == 1 then (failed, Raised(f)) else
        FailoverUsable(failed, w, now);
        var (q, ok) := Failover(failed, w, now);
        if ok then Attempts(q, w, left - 1, now) else (q, Raised(f))
  }

  lemma FailoverUsable(p: Pool, w: seq<Health>, now: int)
    requires Usable(p, w)
    ensures Usable(Failover(p, w, now).0, w)
  {
    FailoverFinds(p, w, 1, now);
  }

  lemma {:induction false} AttemptsUsable(p: Pool, w: seq<Health>, left: nat, now: int)
    requires Usable(p, w) && 1 <= left
    ensures Usable(Attempts(p, w, left, now).0, w)
    decreases left
  {
    hide Usable;
    var tried := Tried(p, w);
    TriedKeepsRing(p, w);
    if left > 1 {
      FailoverUsable(tried, w, now);
      AttemptsUsable(Failover(tried, w, now).0, w, left - 1, now);
    }
    SuccessUsable(p, w, now);
  }

  lemma SuccessUsable(p: Pool, w: seq<Health>, now: int)
    requires Usable(p, w)
    ensures p.active < |p.instances| == |w|
    ensures Usable(p.(instances := p.instances[p.active := MarkSuccess(p.instances[p.active], now)]), w)
  {
  }

  /** The pool from which an attempt that does not end the call fails over. */
  function Tried(p: Pool, w: seq<Health>): Pool
    requires Usable(p, w)
  {
    var a := p.active;
    if p.instances[a].connected && w[a].operation.RedisError?
    then p.(instances := p.instances[a := MarkFailed(p.instances[a], w[a].operation.fault)]) else p
  }

  lemma TriedKeepsRing(p: Pool, w: seq<Health>)
    requires Usable(p, w)
    ensures Usable(Tried(p, w), w) && SameRing(p, Tried(p, w), w) && Tried(p, w).active == p.active
  {
  }

  /** The instance is in reach of a call: it is the active one and connected, or another one that
      can be brought into use. */
  predicate InReach(p: Pool, w: seq<Health>, g: nat)
    requires |w| == |p.instances| && g < |w|
  {
    if g == p.active then p.instances[g].connected else Reachable(p, w, g)
  }

  /** In reach, and its operation ends the call: with a result, or with an error that is not
      Redis's own. */
  predicate Decisive(p: Pool, w: seq<Health>, g: nat)
    requires |w| == |p.instances| && g < |w|
  {
    InReach(p, w, g) && !w[g].operation.RedisError?
  }

  ghost predicate FirstDecisive(p: Pool, w: seq<Health>, g: nat)
    requires Usable(p, w)
  {
    && g < |w| && Decisive(p, w, g)
    && forall i :: 0 <= i < |w| && Distance(p.active, i, |w|) < Distance(p.active, g, |w|) ==> !Decisive(p, w, i)
  }

  function Ending(o: Outcome): Result {
    match o
    case Done(v) => Returned(v)
    case RedisError(f) => Raised(f)
    case OtherError(f) => Raised(f)
  }

  /** Failing over never passes the first decisive instance, and comes nearer to it. */
  lemma FailoverApproaches(p: Pool, w: seq<Health>, now: int, g: nat)
    requires Usable(p, w) && FirstDecisive(p, w, g) && g != p.active
    ensures var (q, ok) := Failover(Tried(p, w), w, now);
            && ok && Usable(q, w) && FirstDecisive(q, w, g)
            && Distance(q.active, g, |w|) < Distance(p.active, g, |w|)
  {
    hide Probe;
    var tried := Tried(p, w);
    TriedKeepsRing(p, w);
    FailoverFinds(tried, w, 1, now);
    var (q, ok) := Failover(tried, w, now);
    assert Reachable(tried, w, g);
    if ok {
      forall i | 0 <= i < |w| && Distance(q.active, i, |w|) < Distance(q.active, g, |w|)
        ensures !Decisive(q, w, i)
      {
        assert !Decisive(p, w, i);
        assert i != p.active;
        assert Reachable(q, w, i) <==> Reachable(p, w, i);
      }
    }
  }

  /** The instances a search tries on its way to g. */
  ghost function Between(p: Pool, w: seq<Health>, g: nat): set<nat>
    requires Usable(p, w) && g < |w|
  {
    set i: nat | i < |w| && i != p.active && Reachable(p, w, i)
      && Distance(p.active, i, |w|) < Distance(p.active, g, |w|)
  }

  /** How many failovers lead from the active instance to g. */
  ghost function Hops(p: Pool, w: seq<Health>, g: nat): nat
    requires Usable(p, w) && g < |w|
  {
    if g == p.active then 0 else |Between(p, w, g)| + 1
  }

  lemma FailoverIsOneHop(p: Pool, w: seq<Health>, now: int, g: nat)
    requires Usable(p, w) && FirstDecisive(p, w, g) && g != p.active
    ensures var q := Failover(Tried(p, w), w, now).0;
            Usable(q, w) && FirstDecisive(q, w, g) && Hops(q, w, g) == Hops(p, w, g) - 1
  {
    FailoverApproaches(p, w, now, g);
    var tried := Tried(p, w);
    TriedKeepsRing(p, w);
    FailoverFinds(tried, w, 1, now);
    var q := Failover(tried, w, now).0;
    hide Probe, Failover, FailoverFrom;
    BetweenShrinks(p, q, w, g);
  }

  /** Once the nearest reachable instance is active, it alone is no longer on the way. */
  lemma BetweenShrinks(p: Pool, q: Pool, w: seq<Health>, g: nat)
    requires Usable(p, w) && Usable(q, w) && g < |w| && g != p.active && q.active != p.active
    requires forall i :: 0 <= i < |w| ==> (Reachable(p, w, i) <==> Reachable(q, w, i))
    requires Reachable(p, w, q.active) && NoneReachable(p, w, 1, Distance(p.active, q.active, |w|))
    requires Distance(p.active, q.active, |w|) <= Distance(p.active, g, |w|)
    ensures Hops(q, w, g) == Hops(p, w, g) - 1
  {
    if q.active == g {
      assert Between(p, w, g) == {};
    } else {
      Apart(p.active, q.active, g, |w|);
      assert Between(p, w, g) == Between(q, w, g) + {q.active} by {
        forall i: nat
          ensures i in Between(p, w, g) <==> i in Between(q, w, g) || i == q.active
        {
          if i < |w| {
            AheadOf(p.active, q.active, g, i, |w|);
          }
        }
      }
    }
  }

  lemma Apart(a: nat, b: nat, g: nat, n: nat)
    requires a < n && b < n && g < n && b != g
    ensures Distance(a, b, n) != Distance(a, g, n)
  {
  }

  /** From a, what lies before g lies up to b or, seen from b, before g. */
  lemma AheadOf(a: nat, b: nat, g: nat, i: nat, n: nat)
    requires a < n && b < n && g < n && i < n
    requires 1 <= Distance(a, b, n) < Distance(a, g, n)
    ensures i != b && Distance(b, i, n) < Distance(b, g, n)
            <==> Distance(a, b, n) < Distance(a, i, n) < Distance(a, g, n)
    ensures i != a <==> 1 <= Distance(a, i, n)
    ensures Distance(a, i, n) == Distance(a, b, n) <==> i == b
  {
  }

  /** The search is exact: the call ends with the outcome of the first decisive instance, leaving it
      active, exactly when there are attempts enough for the failovers that lead to it. */
  lemma {:induction false} SearchIsExact(p: Pool, w: seq<Health>, left: nat, now: int, g: nat)
    requires Usable(p, w) && FirstDecisive(p, w, g) && 1 <= left
    ensures var (q, r) := Attempts(p, w, left, now);
            if Hops(p, w, g) < left then
              && r == Ending(w[g].operation) && q.active == g < |q.instances|
              && (r.Returned? ==> Cleared(q.instances[g]))
            else !r.Returned?
    decreases left
  {
    if g != p.active {
      assert !Decisive(p, w, p.active);
      FailoverApproaches(p, w, now, g);
      FailoverIsOneHop(p, w, now, g);
      hide Hops, FirstDecisive, Failover;
      if left > 1 {
        SearchIsExact(Failover(Tried(p, w), w, now).0, w, left - 1, now, g);
      }
    } else {
      assert Hops(p, w, g) == 0;
    }
  }

  /** The instances nearer than a distance are no more than that. */
  lemma {:induction false} NearAreFew(p: Pool, w: seq<Health>, k: nat)
    requires Usable(p, w) && 1 <= k <= |w|
    ensures |(set i: nat | i < |w| && i != p.active && Reachable(p, w, i) && Distance(p.active, i, |w|) < k)| <= k - 1
    decreases k
  {
    var near := set i: nat | i < |w| && i != p.active && Reachable(p, w, i) && Distance(p.active, i, |w|) < k;
    if k == 1 {
      assert near == {};
    } else {
      NearAreFew(p, w, k - 1);
      var nearer := set i: nat | i < |w| && i != p.active && Reachable(p, w, i) && Distance(p.active, i, |w|) < k - 1;
      assert near <= nearer + {Wrap(p.active + k - 1, |w|)};
      SubsetSize(near, nearer + {Wrap(p.active + k - 1, |w|)});
    }
  }

  lemma HopsWithinDistance(p: Pool, w: seq<Health>, g: nat)
    requires Usable(p, w) && g < |w|
    ensures Hops(p, w, g) <= Distance(p.active, g, |w|) < |w|
  {
    if g != p.active {
      NearAreFew(p, w, Distance(p.active, g, |w|));
    }
  }

  /** The measure is cyclic distance: attempts beyond it always suffice. */
  lemma DistanceSuffices(p: Pool, w: seq<Health>, left: nat, now: int, g: nat)
    requires Usable(p, w) && FirstDecisive(p, w, g)
    requires Distance(p.active, g, |w|) < left
    ensures var (q, r) := Attempts(p, w, left, now);
            r == Ending(w[g].operation) && q.active == g < |q.instances|
            && (r.Returned? ==> Cleared(q.instances[g]))
  {
    HopsWithinDistance(p, w, g);
    SearchIsExact(p, w, left, now, g);
  }

  /** No instance can end the call well: neither the ones in reach nor the active one reconnected. */
  ghost predicate AllFail(p: Pool, w: seq<Health>)
    requires Usable(p, w)
  {
    forall i :: 0 <= i < |w| && (InReach(p, w, i) || Reachable(p, w, i)) ==> w[i].operation.RedisError?
  }

  lemma {:induction false} SearchFails(p: Pool, w: seq<Health>, left: nat, now: int)
    requires Usable(p, w) && AllFail(p, w) && 1 <= left
    ensures !Attempts(p, w, left, now).1.Returned?
    decreases left
  {
    hide Probe;
    var tried := Tried(p, w);
    TriedKeepsRing(p, w);
    FailoverFinds(tried, w, 1, now);
    if left > 1 {
      var (q, ok) := Failover(tried, w, now);
      if ok || !p.instances[p.active].connected {
        SearchFails(q, w, left - 1, now);
      }
    }
  }

  // ----- the periodic health check -----

  const CHECK_INTERVAL := 60

  function HealthCheckFrom(p: Pool, w: seq<Health>, i: nat, now: int): Pool
    requires Usable(p, w)
    decreases |w| - i
  {
    if i >= |w| then p
    else if i == p.active || (p.instances[i].connected && p.instances[i].failures == 0) then
      HealthCheckFrom(p, w, i + 1, now)
    else
      var (probed, ok) := Probe(p.instances[i], w[i], now);
      var q := Pool(p.instances[i := probed], if ok && i == 0 then 0 else p.active);
      HealthCheckFrom(q, w, i + 1, now)
  }

  function CheckIfDue(p: Pool, w: seq<Health>, lastCheck: int, now: int): Pool
    requires Usable(p, w)
  {
    if now - lastCheck < CHECK_INTERVAL then p else HealthCheckFrom(p, w, 0, now)
  }

  /** The first instance is not in use, is known to be down, and answers again. */
  predicate SwitchesBack(p: Pool, w: seq<Health>)
    requires Usable(p, w)
  {
    p.active != 0 && (!p.instances[0].connected || p.instances[0].failures > 0) && Reachable(p, w, 0)
  }

  /** A health check may switch back to the first instance, exactly when that was down and answers
      again; the active instance itself is never probed. */
  lemma {:induction false} HealthCheckEffect(p: Pool, w: seq<Health>, i: nat, now: int)
    requires Usable(p, w) && i <= |w|
    ensures var q := HealthCheckFrom(p, w, i, now);
            && SameRing(p, q, w) && Usable(q, w)
            && (q.active == p.active ==> q.instances[p.active] == p.instances[p.active])
            && (q.active != p.active ==> q.active == 0 && q.instances[0].connected)
            && (q.active != p.active <==> i == 0 && SwitchesBack(p, w))
    decreases |w| - i
  {
    if i < |w| {
      if i == p.active || (p.instances[i].connected && p.instances[i].failures == 0) {
        HealthCheckEffect(p, w, i + 1, now);
      } else {
        var (probed, ok) := Probe(p.instances[i], w[i], now);
        var q := Pool(p.instances[i := probed], if ok && i == 0 then 0 else p.active);
        HealthCheckEffect(q, w, i + 1, now);
      }
    }
  }

  /** A whole call: the health check if one is due, then as many attempts as there are instances. */
  function Execute(p: Pool, w: seq<Health>, lastCheck: int, now: int): (Pool, Result)
    requires Usable(p, w)
  {
    CheckUsable(p, w, lastCheck, now);
    Attempts(CheckIfDue(p, w, lastCheck, now), w, |w|, now)
  }

  lemma CheckUsable(p: Pool, w: seq<Health>, lastCheck: int, now: int)
    requires Usable(p, w)
    ensures Usable(CheckIfDue(p, w, lastCheck, now), w)
  {
    HealthCheckEffect(p, w, 0, now);
  }

  /** If there is a decisive instance there is a first one. */
  lemma {:induction false} FirstDecisiveExists(p: Pool, w: seq<Health>, g: nat)
    requires Usable(p, w) && g < |w| && Decisive(p, w, g)
    ensures exists f: nat :: FirstDecisive(p, w, f)
    decreases Distance(p.active, g, |w|)
  {
    if !FirstDecisive(p, w, g) {
      var i :| 0 <= i < |w| && Distance(p.active, i, |w|) < Distance(p.active, g, |w|) && Decisive(p, w, i);
      FirstDecisiveExists(p, w, i);
    }
  }

  ghost predicate NoForeignErrors(w: seq<Health>) {
    forall i :: 0 <= i < |w| ==> !w[i].operation.OtherError?
  }

  /** The instance would serve the call: another one that can be brought into use, or the active
      one with a live connection. */
  predicate CanServe(p: Pool, w: seq<Health>, g: nat)
    requires |w| == |p.instances| && g < |w|
  {
    w[g].operation.Done? && (if g == p.active then p.instances[g].connected && w[g].ping.Up? else Reachable(p, w, g))
  }

  /** Completeness: within as many attempts as there are instances, a call returns a result as soon
      as any instance can serve it, whether or not the health check moves the active index first. */
  lemma CallSucceeds(p: Pool, w: seq<Health>, lastCheck: int, now: int, g: nat)
    requires Usable(p, w) && NoForeignErrors(w) && g < |w| && CanServe(p, w, g)
    ensures var (q, r) := Execute(p, w, lastCheck, now);
            r.Returned? && q.active < |w| == |q.instances| && w[q.active].operation == Done(r.value)
            && q.instances[q.active].failures == 0
  {
    var checked := CheckIfDue(p, w, lastCheck, now);
    HealthCheckEffect(p, w, 0, now);
    assert Reachable(p, w, g) <==> Reachable(checked, w, g);
    assert Decisive(checked, w, g);
    FirstDecisiveExists(checked, w, g);
    var f: nat :| FirstDecisive(checked, w, f);
    DistanceSuffices(checked, w, |w|, now, f);
    AttemptsUsable(checked, w, |w|, now);
  }

  // ----- when a call returns, exactly -----

  /** The instances besides the active one that can be brought into use. */
  ghost function Others(p: Pool, w: seq<Health>): set<nat>
    requires Usable(p, w)
  {
    set i: nat | i < |w| && i != p.active && Reachable(p, w, i)
  }

  lemma OthersMember(p: Pool, w: seq<Health>, i: nat)
    requires Usable(p, w) && i < |w|
    ensures i in Others(p, w) <==> i != p.active && Reachable(p, w, i)
  {
  }

  /** An active instance without a connection is only tried after all the others: it takes one other
      instance to fail over to, and one attempt to be left when all of them have failed. */
  ghost predicate LastResort(p: Pool, w: seq<Health>, g: nat)
    requires Usable(p, w)
  {
    && g == p.active && !p.instances[g].connected && Reachable(p, w, g) && !w[g].operation.RedisError?
    && (forall i :: 0 <= i < |w| ==> !Decisive(p, w, i))
    && 1 <= |Others(p, w)| <= |w| - 2
  }

  /** The instance whose outcome is the outcome of the call. */
  ghost predicate Settles(p: Pool, w: seq<Health>, g: nat)
    requires Usable(p, w)
  {
    FirstDecisive(p, w, g) || LastResort(p, w, g)
  }

  /** From a connected instance the loop never ends for want of an instance. */
  lemma {:induction false} ConnectedFindsSome(p: Pool, w: seq<Health>, left: nat, now: int)
    requires Usable(p, w) && 1 <= left && p.instances[p.active].connected
    ensures Attempts(p, w, left, now).1 != NoInstance
    decreases left
  {
    hide Probe;
    var tried := Tried(p, w);
    TriedKeepsRing(p, w);
    FailoverFinds(tried, w, 1, now);
    var (q, ok) := Failover(tried, w, now);
    hide Usable, FailoverFrom;
    if left > 1 && ok {
      ConnectedFindsSome(q, w, left - 1, now);
    }
  }

  /** Without a connection and without another instance to turn to, the active one stays down. */
  lemma {:induction false} NobodyElse(p: Pool, w: seq<Health>, left: nat, now: int)
    requires Usable(p, w) && 1 <= left && !p.instances[p.active].connected && Others(p, w) == {}
    ensures Attempts(p, w, left, now).1 == NoInstance
    decreases left
  {
    hide Probe;
    if left > 1 {
      FailoverFinds(p, w, 1, now);
      var (q, ok) := Failover(p, w, now);
      OthersMember(p, w, q.active);
      assert Others(q, w) == {};
      NobodyElse(q, w, left - 1, now);
    }
  }

  lemma OthersAre(p: Pool, w: seq<Health>, q: Pool)
    requires Usable(p, w) && Usable(q, w) && q.active != p.active
    requires forall i :: 0 <= i < |w| ==> (Reachable(p, w, i) <==> Reachable(q, w, i))
    requires Reachable(p, w, q.active) && NoneReachable(p, w, 1, Distance(p.active, q.active, |w|))
    ensures Hops(q, w, p.active) == |Others(p, w)|
  {
    var a, b, n := p.active, q.active, |w|;
    forall i: nat
      ensures i in Others(p, w) <==> i in Between(q, w, a) || i == b
    {
      if i < n {
        RoundTo(a, b, i, n);
      }
    }
    assert Others(p, w) == Between(q, w, a) + {b};
  }

  /** Seen from b, what lies before a is what lies beyond b seen from a. */
  lemma RoundTo(a: nat, b: nat, i: nat, n: nat)
    requires a < n && b < n && i < n && a != b
    ensures i != b && Distance(b, i, n) < Distance(b, a, n) <==> i != a && Distance(a, b, n) < Distance(a, i, n)
    ensures i != a <==> 1 <= Distance(a, i, n)
    ensures Distance(a, i, n) == Distance(a, b, n) <==> i == b
  {
  }

  /** The first attempt from a disconnected active instance: the nearest other one becomes active,
      and the one left behind can be reached like any other. */
  lemma LeaveDisconnected(p: Pool, w: seq<Health>, now: int)
    requires Usable(p, w) && !p.instances[p.active].connected && Others(p, w) != {}
    ensures var (q, ok) := Failover(p, w, now);
            && ok && Usable(q, w) && q.active != p.active && q.instances[q.active].connected
            && (forall i :: 0 <= i < |w| ==> (Reachable(p, w, i) <==> Reachable(q, w, i)))
            && q.active in Others(p, w) && Hops(q, w, p.active) == |Others(p, w)|
  {
    hide Probe;
    FailoverFinds(p, w, 1, now);
    var (q, ok) := Failover(p, w, now);
    var other: nat :| other in Others(p, w);
    OthersAre(p, w, q);
  }

  /** If no instance settles the call, the loop does not return. */
  lemma UnsettledFails(p: Pool, w: seq<Health>, now: int)
    requires Usable(p, w) && forall g: nat :: g < |w| ==> !Settles(p, w, g)
    ensures !Attempts(p, w, |w|, now).1.Returned?
  {
    hide Failover;
    var a := p.active;
    NoneDecisive(p, w);
    assert !Settles(p, w, a);
    if p.instances[a].connected || !Reachable(p, w, a) || w[a].operation.RedisError? {
      AllOthersFail(p, w);
      SearchFails(p, w, |w|, now);
    } else if Others(p, w) == {} {
      NobodyElse(p, w, |w|, now);
    } else {
      LeaveDisconnected(p, w, now);
      var q := Failover(p, w, now).0;
      LeftBehindIsFirst(p, q, w);
      if |w| > 1 {
        SearchIsExact(q, w, |w| - 1, now, a);
      }
    }
  }

  lemma AllOthersFail(p: Pool, w: seq<Health>)
    requires Usable(p, w) && forall i :: 0 <= i < |w| ==> !Decisive(p, w, i)
    requires p.instances[p.active].connected || !Reachable(p, w, p.active) || w[p.active].operation.RedisError?
    ensures AllFail(p, w)
  {
    forall i | 0 <= i < |w| && (InReach(p, w, i) || Reachable(p, w, i))
      ensures w[i].operation.RedisError?
    {
      assert !Decisive(p, w, i);
    }
  }

  lemma NoneDecisive(p: Pool, w: seq<Health>)
    requires Usable(p, w) && forall g: nat :: g < |w| ==> !Settles(p, w, g)
    ensures forall i :: 0 <= i < |w| ==> !Decisive(p, w, i)
  {
    forall i | 0 <= i < |w|
      ensures !Decisive(p, w, i)
    {
      DecisiveSettles(p, w, i);
    }
  }

  lemma DecisiveSettles(p: Pool, w: seq<Health>, i: nat)
    requires Usable(p, w) && i < |w|
    ensures Decisive(p, w, i) ==> exists g: nat :: g < |w| && Settles(p, w, g)
  {
    if Decisive(p, w, i) {
      FirstDecisiveExists(p, w, i);
      var g: nat :| FirstDecisive(p, w, g);
      assert Settles(p, w, g);
    }
  }

  lemma LeftBehindIsFirst(p: Pool, q: Pool, w: seq<Health>)
    requires Usable(p, w) && Usable(q, w) && q.active != p.active && q.active in Others(p, w)
    requires Reachable(p, w, p.active) && !w[p.active].operation.RedisError?
    requires forall i :: 0 <= i < |w| ==> (Reachable(p, w, i) <==> Reachable(q, w, i))
    requires forall i :: 0 <= i < |w| ==> !Decisive(p, w, i)
    ensures FirstDecisive(q, w, p.active)
  {
    var a, b, n := p.active, q.active, |w|;
    assert Decisive(q, w, a);
    forall i | 0 <= i < n && Distance(b, i, n) < Distance(b, a, n)
      ensures !Decisive(q, w, i)
    {
      assert !Decisive(p, w, i);
      assert i != a;
    }
  }

  /** The retry loop, from any pool, with as many attempts as instances. */
  lemma SettledEnds(p: Pool, w: seq<Health>, now: int, g: nat)
    requires Usable(p, w) && Settles(p, w, g)
    ensures g < |w| && Attempts(p, w, |w|, now).1 == Ending(w[g].operation)
  {
    if FirstDecisive(p, w, g) {
      DistanceSuffices(p, w, |w|, now, g);
    } else {
      hide Failover, FirstDecisive;
      assert Others(p, w) != {};
      LeaveDisconnected(p, w, now);
      var q := Failover(p, w, now).0;
      LeftBehindIsFirst(p, q, w);
      SearchIsExact(q, w, |w| - 1, now, g);
    }
  }

  lemma NoInstanceExactly(p: Pool, w: seq<Health>, now: int)
    requires Usable(p, w)
    ensures Attempts(p, w, |w|, now).1 == NoInstance <==> !p.instances[p.active].connected && Others(p, w) == {}
  {
    hide Failover;
    if p.instances[p.active].connected {
      ConnectedFindsSome(p, w, |w|, now);
    } else if Others(p, w) == {} {
      NobodyElse(p, w, |w|, now);
    } else {
      LeaveDisconnected(p, w, now);
      var other: nat :| other in Others(p, w);
      assert |w| > 1;
      ConnectedFindsSome(Failover(p, w, now).0, w, |w| - 1, now);
    }
  }

  // ----- what is recorded about each instance -----

  /** One probe, said without naming its steps. An instance that answers is connected and cleared; one
      that answers a new client but not a ping counts a failure; one that gives no client keeps its
      failures. The last error is kept, and a quota error is remembered until the next success. */
  lemma ProbeExactly(i: Instance, h: Health, now: int)
    ensures var (after, ok) := Probe(i, h, now);
            var reached := i.connected || h.create.Up?;
            && (ok <==> reached && h.ping.Up?)
            && (ok ==> after == Instance(true, None, false, 0, now))
            && (reached && h.ping.Down? ==>
                  after == Instance(true, Some(h.ping.fault.text),
                                    i.quotaExceeded || h.ping.fault.quota, i.failures + 1, i.lastSuccess))
            && (!reached ==>
                  after == Instance(false, Some(h.create.fault.text),
                                    i.quotaExceeded || h.create.fault.quota, i.failures, i.lastSuccess))
  {
  }

  /** Row by row, failover probes the instances ahead one by one up to the one it settles on, and leaves
      the others alone; the records of the active one it leaves behind stay. */
  lemma {:induction false} FailoverRowByRow(p: Pool, w: seq<Health>, k: nat, now: int, i: nat)
    requires Usable(p, w) && 1 <= k <= |w| && i < |w|
    ensures var (q, ok) := FailoverFrom(p, w, k, now);
            && |q.instances| == |w| && q.active < |w|
            && var d := Distance(p.active, i, |w|);
               var probed := k <= d && (ok ==> d <= Distance(p.active, q.active, |w|));
               q.instances[i] == if probed then Probe(p.instances[i], w[i], now).0 else p.instances[i]
    decreases |w| - k
  {
    FailoverFinds(p, w, k, now);
    if k < |w| {
      var next := Wrap(p.active + k, |w|);
      PlaceAhead(p.active, k, |w|);
      hide Probe, Wrap, Distance;
      var (probed, ok) := Probe(p.instances[next], w[next], now);
      var q := p.(instances := p.instances[next := probed]);
      if !ok {
        ProbeUsable(p, w, next, now);
        FailoverFinds(q, w, k + 1, now);
        FailoverRowByRow(q, w, k + 1, now, i);
      }
    }
  }

  lemma PlaceAhead(a: nat, k: nat, n: nat)
    requires a < n && k < n
    ensures Wrap(a + k, n) < n
    ensures forall i :: 0 <= i < n ==> (Distance(a, i, n) == k <==> i == Wrap(a + k, n)) && Distance(a, i, n) < n
  {
  }

  lemma ProbeUsable(p: Pool, w: seq<Health>, i: nat, now: int)
    requires Usable(p, w) && i < |w|
    ensures Usable(p.(instances := p.instances[i := Probe(p.instances[i], w[i], now).0]), w)
  {
  }

  /** Row by row, a health check probes exactly the disconnected and the failing instances besides the
      active one; the first instance is judged before any switch, the others after it. */
  lemma {:induction false} HealthCheckRowByRow(p: Pool, w: seq<Health>, from: nat, now: int, i: nat)
    requires Usable(p, w) && from <= |w| && i < |w|
    ensures var q := HealthCheckFrom(p, w, from, now);
            var active := if i == 0 then p.active else q.active;
            && |q.instances| == |w|
            && q.instances[i] == if from <= i && i != active
                                    && (!p.instances[i].connected || p.instances[i].failures > 0)
                                 then Probe(p.instances[i], w[i], now).0 else p.instances[i]
    decreases |w| - from
  {
    HealthCheckEffect(p, w, from, now);
    if from < |w| {
      if from == p.active || (p.instances[from].connected && p.instances[from].failures == 0) {
        HealthCheckRowByRow(p, w, from + 1, now, i);
        HealthCheckEffect(p, w, from + 1, now);
      } else {
        var (probed, ok) := Probe(p.instances[from], w[from], now);
        var q := Pool(p.instances[from := probed], if ok && from == 0 then 0 else p.active);
        HealthCheckRowByRow(q, w, from + 1, now, i);
        HealthCheckEffect(q, w, from + 1, now);
      }
    }
  }

  /** The check of a call probes nothing until a minute after the last one, and then exactly the
      disconnected and the failing instances besides the active one. */
  lemma CheckRowByRow(p: Pool, w: seq<Health>, lastCheck: int, now: int, i: nat)
    requires Usable(p, w) && i < |w|
    ensures var q := CheckIfDue(p, w, lastCheck, now);
            var active := if i == 0 then p.active else q.active;
            && |q.instances| == |w| && (now < lastCheck + 60 ==> q.active == p.active)
            && q.instances[i] == if now >= lastCheck + 60 && i != active
                                    && (!p.instances[i].connected || p.instances[i].failures > 0)
                                 then Probe(p.instances[i], w[i], now).0 else p.instances[i]
  {
    HealthCheckRowByRow(p, w, 0, now, i);
  }

  /** The operation itself: a success clears the active instance, a Redis error adds one failure to it
      and is remembered, any other error leaves no trace; the others are not touched by it. */
  lemma AttemptMarks(p: Pool, w: seq<Health>, now: int)
    requires Usable(p, w) && p.instances[p.active].connected
    ensures var i, op := p.instances[p.active], w[p.active].operation;
            var (q, r) := Attempts(p, w, 1, now);
            && q.active == p.active && |q.instances| == |w|
            && (forall j :: 0 <= j < |w| && j != p.active ==> q.instances[j] == p.instances[j])
            && r == Ending(op)
            && (op.Done? ==> q.instances[p.active] == Instance(true, None, false, 0, now))
            && (op.OtherError? ==> q == p)
            && (op.RedisError? ==>
                  q.instances[p.active]
                  == Instance(true, Some(op.fault.text), i.quotaExceeded || op.fault.quota, i.failures + 1,
                              i.lastSuccess))
  {
  }

  /** The pool the retry loop starts from, as far as it matters: the health check, when due, may have
      switched back to the first instance. */
  function Entry(p: Pool, w: seq<Health>, lastCheck: int, now: int): Pool
    requires Usable(p, w)
  {
    if now - lastCheck >= CHECK_INTERVAL && SwitchesBack(p, w)
    then Pool(p.instances[0 := p.instances[0].(connected := true)], 0) else p
  }

  /** What the outcome of a call depends on. */
  ghost predicate Alike(p: Pool, q: Pool, w: seq<Health>) {
    && Usable(p, w) && Usable(q, w) && p.active == q.active
    && p.instances[p.active].connected == q.instances[p.active].connected
    && forall i :: 0 <= i < |w| ==> (Reachable(p, w, i) <==> Reachable(q, w, i))
  }

  lemma EntryIsAlike(p: Pool, w: seq<Health>, lastCheck: int, now: int)
    requires Usable(p, w)
    ensures Alike(CheckIfDue(p, w, lastCheck, now), Entry(p, w, lastCheck, now), w)
  {
    HealthCheckEffect(p, w, 0, now);
  }

  lemma AlikeDecisive(p: Pool, q: Pool, w: seq<Health>)
    requires Alike(p, q, w)
    ensures forall i :: 0 <= i < |w| ==> (Decisive(p, w, i) <==> Decisive(q, w, i))
    ensures Others(p, w) == Others(q, w)
  {
  }

  lemma AlikeSettles(p: Pool, q: Pool, w: seq<Health>, g: nat)
    requires Alike(p, q, w)
    ensures Settles(p, w, g) <==> Settles(q, w, g)
  {
    AlikeDecisive(p, q, w);
    hide Decisive, Others;
  }

  /** A whole call is exact, from any pool and whether or not a health check is due: it returns
      exactly when the instance that settles it has a result, its outcome is that instance's, and it
      ends for want of an instance exactly when the active one has no connection and no other one can
      be brought into use. */
  lemma CallIsExact(p: Pool, w: seq<Health>, lastCheck: int, now: int)
    requires Usable(p, w)
    ensures var e := Entry(p, w, lastCheck, now);
            var r := Execute(p, w, lastCheck, now).1;
            && Usable(e, w)
            && (forall g: nat :: Settles(e, w, g) ==> r == Ending(w[g].operation))
            && (r.Returned? <==> exists g: nat :: Settles(e, w, g) && w[g].operation.Done?)
            && (r == NoInstance <==> !e.instances[e.active].connected && Others(e, w) == {})
  {
    hide Settles, Alike;
    var e, c := Entry(p, w, lastCheck, now), CheckIfDue(p, w, lastCheck, now);
    EntryIsAlike(p, w, lastCheck, now);
    forall g: nat
      ensures Settles(e, w, g) <==> Settles(c, w, g)
    {
      AlikeSettles(c, e, w, g);
    }
    hide Entry, CheckIfDue;
    NoInstanceExactly(c, w, now);
    forall g: nat | Settles(c, w, g)
      ensures g < |w| && Attempts(c, w, |w|, now).1 == Ending(w[g].operation)
    {
      SettledEnds(c, w, now, g);
    }
    if forall g: nat :: g < |w| ==> !Settles(c, w, g) {
      UnsettledFails(c, w, now);
    }
  }

  /** An active instance without a connection stays down, however healthy it is and whatever number
      of instances there are, when no other one can be brought into use. */
  lemma DisconnectedStaysDown(p: Pool, w: seq<Health>, lastCheck: int, now: int)
    requires Usable(p, w) && !p.instances[p.active].connected && Others(p, w) == {}
    ensures Execute(p, w, lastCheck, now).1 == NoInstance
  {
    CallIsExact(p, w, lastCheck, now);
    OthersMember(p, w, 0);
  }

  /** In particular a lone instance is never reconnected: neither the health check nor failover
      touches the active instance. */
  lemma LoneInstanceStaysDown(p: Pool, w: seq<Health>, lastCheck: int, now: int)
    requires Usable(p, w) && |w| == 1 && !p.instances[0].connected
    ensures Execute(p, w, lastCheck, now) == (p, NoInstance)
  {
    assert HealthCheckFrom(p, w, 1, now) == p;
  }

  const DOWN := Instance(false, None, false, 0, 0)

  function Answering(o: Outcome): Health {
    Health(Up, Up, o)
  }

  /** Of three instances that all answer, a disconnected healthy active one serves the call when one
      of the others is unreachable, and does not when both are there and raise. */
  lemma BusyOthersHideAHealthyOne(f: Fault, now: int)
    ensures var p := Pool([DOWN, DOWN, DOWN], 0);
            var raises, serves := Answering(RedisError(f)), Answering(Done(7));
            && Execute(p, [serves, raises, Health(Down(f), Up, RedisError(f))], now, now).1 == Returned(7)
            && Execute(p, [serves, raises, raises], now, now).1.Raised?
  {
    var p := Pool([DOWN, DOWN, DOWN], 0);
    var raises, serves := Answering(RedisError(f)), Answering(Done(7));
    var one, both := [serves, raises, Health(Down(f), Up, RedisError(f))], [serves, raises, raises];
    OthersOfThree(p, one, both);
    CallIsExact(p, one, now, now);
    CallIsExact(p, both, now, now);
    hide Execute, Others;
    assert LastResort(p, one, 0);
    assert Settles(p, one, 0);
  }

  lemma OthersOfThree(p: Pool, one: seq<Health>, both: seq<Health>)
    requires Usable(p, one) && Usable(p, both) && |one| == |both| == 3 && p.active == 0
    requires Reachable(p, one, 1) && !Reachable(p, one, 2) && Reachable(p, both, 1) && Reachable(p, both, 2)
    ensures Others(p, one) == {1} && Others(p, both) == {1, 2}
  {
  }

  // ----- the manager, updated in place -----

  class DualRedisManager {
    var instances: seq<Instance>
    var active: nat
    var lastHealthCheck: int

    ghost function State(): Pool
      reads this
    {
      Pool(instances, active)
    }

    constructor (instances: seq<Instance>, active: nat)
      ensures State() == Pool(instances, active) && lastHealthCheck == 0
    {
      this.instances := instances;
      this.active := active;
      lastHealthCheck := 0;
    }

    method TryFailover(w: seq<Health>, now: int) returns (switched: bool)
      requires Usable(State(), w)
      modifies this`instances, this`active
      ensures (State(), switched) == Failover(old(State()), w, now)
      ensures Usable(State(), w)
    {
      FailoverUsable(State(), w, now);
      if |instances| <= 1 {
        return false;
      }
      for i := 0 to |instances|
        invariant active == old(active) && |instances| == |w|
        invariant Usable(State(), w)
        invariant FailoverFrom(State(), w, i + 1, now) == Failover(old(State()), w, now)
      {
        WrapIsRemainder(active + i + 1, |instances|);
        var next := (active + i + 1) % |instances|;
        if next != active {
          var (probed, ok) := Probe(instances[next], w[next], now);
          instances := instances[next := probed];
          if ok {
            active := next;
            return true;
          }
        }
      }
      switched := false;
    }

    method PeriodicHealthCheck(w: seq<Health>, now: int)
      requires Usable(State(), w)
      modifies this
      ensures State() == CheckIfDue(old(State()), w, old(lastHealthCheck), now) && Usable(State(), w)
      ensures lastHealthCheck == if now - old(lastHealthCheck) < 60 then old(lastHealthCheck) else now
    {
      CheckUsable(State(), w, lastHealthCheck, now);
      if now - lastHealthCheck < CHECK_INTERVAL {
        return;
      }
      lastHealthCheck := now;
      for i := 0 to |instances|
        invariant |instances| == |w| && lastHealthCheck == now
        invariant Usable(State(), w)
        invariant HealthCheckFrom(State(), w, i, now) == HealthCheckFrom(old(State()), w, 0, now)
      {
        if i != active && (!instances[i].connected || instances[i].failures > 0) {
          var (probed, ok) := Probe(instances[i], w[i], now);
          instances := instances[i := probed];
          if ok && i == 0 && active != 0 {
            active := 0;
          }
        }
      }
    }

    method GetActiveClient(w: seq<Health>, now: int) returns (connected: bool)
      requires Usable(State(), w)
      modifies this
      ensures State() == CheckIfDue(old(State()), w, old(lastHealthCheck), now) && Usable(State(), w)
      ensures lastHealthCheck == if now - old(lastHealthCheck) < 60 then old(lastHealthCheck) else now
      ensures connected == instances[active].connected
    {
      PeriodicHealthCheck(w, now);
      connected := instances[active].connected;
    }

    /** One clock reading serves the whole call, so at most the first attempt runs a health check. */
    method ExecuteWithFailover(w: seq<Health>, now: int) returns (r: Result)
      requires instances == [] || Usable(State(), w)
      modifies this
      ensures if old(instances) == [] then r == NoInstance && State() == old(State())
              else (State(), r) == Execute(old(State()), w, old(lastHealthCheck), now)
    {
      if instances == [] {
        if now - lastHealthCheck >= CHECK_INTERVAL {
          lastHealthCheck := now;
        }
        return NoInstance;
      }
      hide Usable, FailoverFrom, HealthCheckFrom;
      ghost var checked := CheckIfDue(State(), w, lastHealthCheck, now);
      CheckUsable(State(), w, lastHealthCheck, now);
      var attempts := |instances|;
      var attempt := 0;
      r := NoInstance;
      while attempt < attempts
        invariant 0 <= attempt <= attempts == |w|
        invariant Usable(State(), w)
        invariant attempt == 0 ==> State() == old(State()) && lastHealthCheck == old(lastHealthCheck)
        invariant attempt > 0 ==> now - lastHealthCheck < CHECK_INTERVAL
        invariant 0 < attempt < attempts ==>
          Attempts(State(), w, attempts - attempt, now) == Execute(old(State()), w, old(lastHealthCheck), now)
        invariant attempt < attempts
      {
        var connected := GetActiveClient(w, now);
        assert Attempts(State(), w, attempts - attempt, now) == Execute(old(State()), w, old(lastHealthCheck), now);
        if !connected {
          if attempt < attempts - 1 {
            var _ := TryFailover(w, now);
            attempt := attempt + 1;
            continue;
          }
          return NoInstance;
        }
        match w[active].operation {
          case Done(v) =>
            instances := instances[active := MarkSuccess(instances[active], now)];
            return Returned(v);
          case OtherError(f) =>
            return Raised(f);
          case RedisError(f) =>
            TriedKeepsRing(State(), w);
            instances := instances[active := MarkFailed(instances[active], f)];
            if attempt < attempts - 1 {
              var switched := TryFailover(w, now);
              if switched {
                attempt := attempt + 1;
                continue;
              }
            }
            return Raised(f);
        }
      }
    }
  }
}
