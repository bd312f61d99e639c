/** The realtime hub: a duplicate filter that forgets by age and by number, and the fan-out of
    events to bounded queues that drop their oldest entry. Times are seconds. */
module RealtimeHub {
  import opened Basics

  type EventId = string

  /** An entry of the ordered dictionary of recent event ids. */
  datatype Mark = Mark(id: EventId, at: int)

  // ----- the duplicate filter -----

  predicate Holds(cache: seq<Mark>, id: EventId) {
    exists m :: m in cache && m.id == id
  }

  function Without(cache: seq<Mark>, id: EventId): seq<Mark> {
    if cache == [] then []
    else
      var n := |cache| - 1;
      Without(cache[..n], id) + (if cache[n].id == id then [] else [cache[n]])
  }

  /** Drops entries from the front as long as they are too old. */
  function DropExpired(cache: seq<Mark>, ttl: int, now: int): seq<Mark> {
    if cache != [] && now - cache[0].at > ttl then DropExpired(cache[1..], ttl, now) else cache
  }

  function Track(cache: seq<Mark>, ttl: int, cap: int, id: EventId, now: int): (seq<Mark>, bool) {
    if ttl <= 0 || cap <= 0 then (cache, false)
    else
      var kept := DropExpired(cache, ttl, now);
      var moved := Without(kept, id) + [Mark(id, now)];
      (if |moved| > cap then moved[1..] else moved, Holds(kept, id))
  }

  function RunTrack(ttl: int, cap: int, h: seq<Mark>): seq<Mark> {
    if h == [] then [] else Track(RunTrack(ttl, cap, h[..|h| - 1]), ttl, cap, h[|h| - 1].id, h[|h| - 1].at).0
  }

  // ----- the reference: the whole tracking history -----

  /** When the id was last tracked. */
  function LastAt(h: seq<Mark>, id: EventId): Option<int> {
    if h == [] then None
    else if h[|h| - 1].id == id then Some(h[|h| - 1].at) else LastAt(h[..|h| - 1], id)
  }

  /** The other ids tracked since then. */
  function Since(h: seq<Mark>, id: EventId): set<EventId> {
    if h == [] || h[|h| - 1].id == id then {} else Since(h[..|h| - 1], id) + {h[|h| - 1].id}
  }

  predicate RecentlySeen(h: seq<Mark>, ttl: int, cap: int, id: EventId, now: int) {
    LastAt(h, id).Some? && now - LastAt(h, id).value <= ttl && |Since(h, id)| < cap
  }

  ghost predicate TimeSorted(s: seq<Mark>) {
    forall i, j :: 0 <= i < j < |s| ==> s[i].at <= s[j].at
  }

  ghost predicate NotAfter(s: seq<Mark>, now: int) {
    forall i :: 0 <= i < |s| ==> s[i].at <= now
  }

  ghost predicate DistinctIds(s: seq<Mark>) {
    forall i, j :: 0 <= i < j < |s| ==> s[i].id != s[j].id
  }

  // ----- every id once, in the order of its last tracking -----

  function Recency(h: seq<Mark>): seq<Mark> {
    if h == [] then [] else Without(Recency(h[..|h| - 1]), h[|h| - 1].id) + [h[|h| - 1]]
  }

  lemma {:induction false} WithoutAbsent(s: seq<Mark>, id: EventId)
    requires forall i :: 0 <= i < |s| ==> s[i].id != id
    ensures Without(s, id) == s
  {
    if s != [] {
      WithoutAbsent(s[..|s| - 1], id);
    }
  }

  lemma {:induction false} WithoutAt(s: seq<Mark>, p: nat)
    requires p < |s| && DistinctIds(s)
    ensures Without(s, s[p].id) == s[..p] + s[p + 1..]
  {
    var n := |s| - 1;
    if p == n {
      WithoutAbsent(s[..n], s[p].id);
    } else {
      WithoutAt(s[..n], p);
      assert s[..n][..p] == s[..p];
      assert s[..n][p + 1..] + [s[n]] == s[p + 1..];
    }
  }

  /** The sequence without the element at p, if there is one. */
  ghost function Gap(s: seq<Mark>, p: nat): seq<Mark> {
    if p < |s| then s[..p] + s[p + 1..] else s
  }

  /** Taking an id out leaves a sequence as it was or closes one gap. */
  lemma WithoutCases(s: seq<Mark>, id: EventId) returns (p: nat)
    requires DistinctIds(s)
    ensures p <= |s|
    ensures p == |s| <==> forall i :: 0 <= i < |s| ==> s[i].id != id
    ensures p < |s| ==> s[p].id == id
    ensures Without(s, id) == Gap(s, p)
  {
    if i :| 0 <= i < |s| && s[i].id == id {
      p := i;
      WithoutAt(s, p);
    } else {
      p := |s|;
      WithoutAbsent(s, id);
    }
  }

  lemma MovedOrdered(s: seq<Mark>, e: Mark)
    requires DistinctIds(s) && TimeSorted(s) && NotAfter(s, e.at)
    ensures var moved := Without(s, e.id) + [e]; DistinctIds(moved) && TimeSorted(moved) && NotAfter(moved, e.at)
  {
    var p := WithoutCases(s, e.id);
    hide Without, Gap;
  }

  lemma {:induction false} RecencyOrdered(h: seq<Mark>, now: int)
    requires TimeSorted(h) && NotAfter(h, now)
    ensures DistinctIds(Recency(h)) && TimeSorted(Recency(h)) && NotAfter(Recency(h), now)
  {
    hide DistinctIds;
    if h != [] {
      var n := |h| - 1;
      HistoryPrefix(h, now);
      RecencyOrdered(h[..n], h[n].at);
      MovedOrdered(Recency(h[..n]), h[n]);
    } else {
      NoneDistinct();
    }
  }

  lemma NoneDistinct()
    ensures DistinctIds([])
  {
  }

  // ----- the filter keeps the newest part of that order -----

  /** The cache is the tail of the recency order, holds only fresh entries, and leaves out a fresh
      one only when it is full. */
  ghost predicate IsTail(cache: seq<Mark>, order: seq<Mark>, ttl: int, cap: int, now: int) {
    && |cache| <= |order| && |cache| <= cap
    && cache == order[|order| - |cache|..]
    && (forall i :: 0 <= i < |cache| ==> now - cache[i].at <= ttl)
    && (|cache| < cap ==> forall i :: 0 <= i < |order| - |cache| ==> now - order[i].at > ttl)
  }

  lemma {:induction false} DropExpiredKeepsTail(cache: seq<Mark>, ttl: int, now: int)
    requires TimeSorted(cache)
    ensures var kept := DropExpired(cache, ttl, now);
            && |kept| <= |cache| && kept == cache[|cache| - |kept|..]
            && (forall i :: 0 <= i < |kept| ==> now - kept[i].at <= ttl)
            && (forall i :: 0 <= i < |cache| - |kept| ==> now - cache[i].at > ttl)
    decreases |cache|
  {
    if cache != [] && now - cache[0].at > ttl {
      DropExpiredKeepsTail(cache[1..], ttl, now);
    }
  }

  lemma PrunedIsTail(cache: seq<Mark>, order: seq<Mark>, ttl: int, cap: int, before: int, now: int)
    requires before <= now && TimeSorted(order) && IsTail(cache, order, ttl, cap, before)
    ensures IsTail(DropExpired(cache, ttl, now), order, ttl, cap, now)
  {
    var kept := DropExpired(cache, ttl, now);
    DropExpiredKeepsTail(cache, ttl, now);
    if |kept| < cap {
      var off := |order| - |cache|;
      forall i | 0 <= i < |order| - |kept|
        ensures now - order[i].at > ttl
      {
        if i >= off {
          assert order[i] == cache[i - off];
        } else if |kept| < |cache| {
          assert order[off] == cache[0];
        }
      }
    }
  }

  lemma InsertedIsTail(kept: seq<Mark>, order: seq<Mark>, ttl: int, cap: int, id: EventId, now: int)
    requires ttl > 0 && cap > 0 && DistinctIds(order) && IsTail(kept, order, ttl, cap, now)
    ensures var moved := Without(kept, id) + [Mark(id, now)];
            var after := if |moved| > cap then moved[1..] else moved;
            IsTail(after, Without(order, id) + [Mark(id, now)], ttl, cap, now)
  {
    hide IsTail, Gap, Without;
    var off := TailOffset(kept, order, ttl, cap, now);
    var p := WithoutCases(order, id);
    var q := WithoutCases(kept, id);
    if q < |kept| {
      assert order[off + q].id == id;
      TailMoves(kept, order, ttl, cap, id, now, off, q);
    } else {
      assert p < off || p == |order| by {
        assert p < |order| && p >= off ==> kept[p - off].id == id;
      }
      TailGrows(kept, order, ttl, cap, id, now, off, p);
    }
  }

  lemma TailOffset(kept: seq<Mark>, order: seq<Mark>, ttl: int, cap: int, now: int) returns (off: nat)
    requires DistinctIds(order) && IsTail(kept, order, ttl, cap, now)
    ensures off + |kept| == |order| && DistinctIds(kept)
    ensures forall i :: 0 <= i < |kept| ==> kept[i] == order[off + i]
  {
    off := |order| - |kept|;
  }

  /** The id is among the kept entries: it moves to the end. */
  lemma TailMoves(kept: seq<Mark>, order: seq<Mark>, ttl: int, cap: int, id: EventId, now: int, off: nat, q: nat)
    requires ttl > 0 && off + |kept| == |order| && q < |kept| && IsTail(kept, order, ttl, cap, now)
    ensures var moved := Gap(kept, q) + [Mark(id, now)];
            |moved| <= cap && IsTail(moved, Gap(order, off + q) + [Mark(id, now)], ttl, cap, now)
  {
    GapTail(kept, order, off, q);
    hide Gap;
    var e := Mark(id, now);
    var moved, longer := Gap(kept, q) + [e], Gap(order, off + q) + [e];
    assert longer[off..] == Gap(order, off + q)[off..] + [e];
  }

  lemma GapTail(kept: seq<Mark>, order: seq<Mark>, off: nat, q: nat)
    requires off + |kept| == |order| && q < |kept| && kept == order[off..]
    ensures Gap(order, off + q)[off..] == Gap(kept, q)
  {
    assert order[..off + q][off..] == kept[..q];
    assert order[off + q + 1..] == kept[q + 1..];
  }

  /** The id is not among them: it is added, and the oldest entry makes room if need be. */
  lemma TailGrows(kept: seq<Mark>, order: seq<Mark>, ttl: int, cap: int, id: EventId, now: int, off: nat, p: nat)
    requires ttl > 0 && cap > 0 && off + |kept| == |order| && (p < off || p == |order|)
             && IsTail(kept, order, ttl, cap, now)
    ensures var moved := Gap(kept, |kept|) + [Mark(id, now)];
            IsTail(if |moved| > cap then moved[1..] else moved, Gap(order, p) + [Mark(id, now)], ttl, cap, now)
  {
  }

  lemma TailHolds(kept: seq<Mark>, order: seq<Mark>, ttl: int, cap: int, now: int, p: nat)
    requires cap > 0 && DistinctIds(order) && IsTail(kept, order, ttl, cap, now) && p < |order|
    ensures Holds(kept, order[p].id) <==> |order| - p <= cap && now - order[p].at <= ttl
  {
    var off := |order| - |kept|;
    assert forall i :: 0 <= i < |kept| ==> kept[i] == order[off + i];
    if p >= off {
      assert kept[p - off] == order[p];
    }
  }

  lemma {:induction false} RunTrackIsTail(ttl: int, cap: int, h: seq<Mark>, now: int)
    requires ttl > 0 && cap > 0 && TimeSorted(h)
    requires h != [] ==> now == h[|h| - 1].at
    ensures IsTail(RunTrack(ttl, cap, h), Recency(h), ttl, cap, now)
  {
    if h == [] {
      NoneIsTail(ttl, cap, now);
    } else {
      hide IsTail, TimeSorted, DistinctIds, NotAfter, DropExpired, Without, Holds;
      var n := |h| - 1;
      var before := if n == 0 then now else h[n - 1].at;
      HistoryPrefix(h, now);
      RunTrackIsTail(ttl, cap, h[..n], before);
      RecencyOrdered(h[..n], before);
      var cache := RunTrack(ttl, cap, h[..n]);
      PrunedIsTail(cache, Recency(h[..n]), ttl, cap, before, now);
      InsertedIsTail(DropExpired(cache, ttl, now), Recency(h[..n]), ttl, cap, h[n].id, now);
    }
  }

  lemma NoneIsTail(ttl: int, cap: int, now: int)
    requires cap > 0
    ensures IsTail([], [], ttl, cap, now)
  {
  }

  lemma HistoryPrefix(h: seq<Mark>, now: int)
    requires h != [] && TimeSorted(h)
    ensures TimeSorted(h[..|h| - 1]) && NotAfter(h[..|h| - 1], h[|h| - 1].at)
    ensures |h| > 1 ==> h[|h| - 2].at <= h[|h| - 1].at && NotAfter(h[..|h| - 1], h[|h| - 2].at)
  {
  }

  // ----- positions in the recency order, read from the history -----

  ghost function Ids(s: seq<Mark>): set<EventId> {
    set m | m in s :: m.id
  }

  lemma {:induction false} IdsSize(s: seq<Mark>)
    requires DistinctIds(s)
    ensures |Ids(s)| == |s|
  {
    if s != [] {
      var n := |s| - 1;
      IdsSize(s[..n]);
      assert s == s[..n] + [s[n]];
      IdsAppend(s[..n], s[n]);
      assert s[n].id !in Ids(s[..n]);
    }
  }

  lemma IdsAppend(s: seq<Mark>, m: Mark)
    ensures Ids(s + [m]) == Ids(s) + {m.id}
  {
    assert m in s + [m];
    forall id | id in Ids(s)
      ensures id in Ids(s + [m])
    {
      var e :| e in s && e.id == id;
      assert e in s + [m];
    }
  }

  lemma IdsConcat(s: seq<Mark>, t: seq<Mark>)
    ensures Ids(s + t) == Ids(s) + Ids(t)
  {
    forall id | id in Ids(s) + Ids(t)
      ensures id in Ids(s + t)
    {
      var e :| (e in s || e in t) && e.id == id;
      assert e in s + t;
    }
  }

  lemma OneMore(h: seq<Mark>, id: EventId)
    requires h != []
    ensures var n := |h| - 1;
            var e := h[n];
            && Recency(h) == Without(Recency(h[..n]), e.id) + [e]
            && LastAt(h, id) == (if e.id == id then Some(e.at) else LastAt(h[..n], id))
            && Since(h, id) == (if e.id == id then {} else Since(h[..n], id) + {e.id})
  {
  }

  lemma NothingYet(id: EventId)
    ensures Recency([]) == [] && LastAt([], id) == None && Ids([]) == {}
  {
  }

  /** The place of an id in the recency order: what follows it are the ids tracked since. */
  lemma {:induction false} PlaceInOrder(h: seq<Mark>, id: EventId, now: int) returns (p: nat)
    requires TimeSorted(h) && NotAfter(h, now)
    ensures p <= |Recency(h)|
    ensures LastAt(h, id).None? <==> p == |Recency(h)|
    ensures p == |Recency(h)| ==> forall i :: 0 <= i < |Recency(h)| ==> Recency(h)[i].id != id
    ensures p < |Recency(h)| ==>
              Recency(h)[p] == Mark(id, LastAt(h, id).value) && Ids(Recency(h)[p + 1..]) == Since(h, id)
  {
    hide *;
    NothingYet(id);
    if h == [] {
      return 0;
    }
    var n := |h| - 1;
    var e := h[n];
    HistoryPrefix(h, now);
    RecencyOrdered(h[..n], e.at);
    OneMore(h, id);
    var order := Recency(h[..n]);
    if e.id == id {
      p := |Recency(h)| - 1;
      assert Recency(h)[p + 1..] == [];
      return;
    }
    var q := WithoutCases(order, e.id);
    var r := PlaceInOrder(h[..n], id, e.at);
    PlaceMoves(order, q, r, e);
    assert Recency(h) == Gap(order, q) + [e];
    p := if r == |order| then |Recency(h)| else if q < r then r - 1 else r;
  }

  /** Tracking another id keeps the place, up to the gap it closes. */
  lemma PlaceMoves(order: seq<Mark>, q: nat, r: nat, e: Mark)
    requires DistinctIds(order) && q <= |order| && r <= |order|
    requires q < |order| ==> order[q].id == e.id
    requires q == |order| ==> forall i :: 0 <= i < |order| ==> order[i].id != e.id
    requires r < |order| ==> r != q
    ensures var moved := Gap(order, q) + [e];
            var p := if q < r then r - 1 else r;
            && (forall i :: 0 <= i < |moved| - 1 ==> moved[i] in order)
            && (r < |order| ==>
                  p < |moved| && moved[p] == order[r] && Ids(moved[p + 1..]) == Ids(order[r + 1..]) + {e.id})
  {
    GapWithin(order, q);
    hide Gap, Ids, DistinctIds;
    if r < |order| {
      PlaceAfterGap(order, q, r, e);
    }
  }

  lemma PlaceAfterGap(order: seq<Mark>, q: nat, r: nat, e: Mark)
    requires DistinctIds(order) && q <= |order| && r < |order| && r != q
    requires q < |order| ==> order[q].id == e.id
    ensures var moved := Gap(order, q) + [e];
            var p := if q < r then r - 1 else r;
            p < |moved| && moved[p] == order[r] && Ids(moved[p + 1..]) == Ids(order[r + 1..]) + {e.id}
  {
    GapIds(order, q, r, e);
    hide *;
    IdsAfterAppend(Gap(order, q), if q < r then r - 1 else r, e);
  }

  lemma GapIds(order: seq<Mark>, q: nat, r: nat, e: Mark)
    requires DistinctIds(order) && q <= |order| && r < |order| && r != q
    requires q < |order| ==> order[q].id == e.id
    ensures var p := if q < r then r - 1 else r;
            && p < |Gap(order, q)| && Gap(order, q)[p] == order[r]
            && Ids(Gap(order, q)[p + 1..]) + {e.id} == Ids(order[r + 1..]) + {e.id}
  {
    hide Gap, WithoutOne, DistinctIds, Ids;
    GapSuffix(order, q, r);
    RestLoses(order, q, r, e);
  }

  lemma IdsAfterAppend(s: seq<Mark>, p: nat, e: Mark)
    requires p < |s|
    ensures p < |s + [e]| && (s + [e])[p] == s[p] && Ids((s + [e])[p + 1..]) == Ids(s[p + 1..]) + {e.id}
  {
    hide Ids;
    IdsAppend(s[p + 1..], e);
    TailOfAppend(s, e, p + 1);
  }

  lemma TailOfAppend<T>(s: seq<T>, e: T, k: nat)
    requires k <= |s|
    ensures (s + [e])[k..] == s[k..] + [e]
  {
  }

  lemma GapWithin(s: seq<Mark>, q: nat)
    requires q <= |s|
    ensures forall i :: 0 <= i < |Gap(s, q)| ==> Gap(s, q)[i] in s
  {
  }

  lemma GapSuffix(s: seq<Mark>, q: nat, r: nat)
    requires r < |s| && q <= |s| && q != r
    ensures var p := if q < r then r - 1 else r;
            p < |Gap(s, q)| && Gap(s, q)[p] == s[r] && Gap(s, q)[p + 1..] == WithoutOne(s[r + 1..], q, r)
  {
    if q < r {
      assert (s[..q] + s[q + 1..])[r..] == s[r + 1..];
    } else if q < |s| {
      GapAfter(s, q, r);
    }
  }

  lemma GapAfter(s: seq<Mark>, q: nat, r: nat)
    requires r < q < |s|
    ensures (s[..q] + s[q + 1..])[r + 1..] == s[r + 1..][..q - r - 1] + s[r + 1..][q - r..]
  {
    assert s[r + 1..][q - r..] == s[q + 1..];
    assert s[r + 1..][..q - r - 1] == s[..q][r + 1..];
  }

  /** What follows position r once position q is taken out. */
  ghost function WithoutOne(rest: seq<Mark>, q: nat, r: nat): seq<Mark> {
    if r < q < r + 1 + |rest| then rest[..q - r - 1] + rest[q - r..] else rest
  }

  lemma RestLoses(order: seq<Mark>, q: nat, r: nat, e: Mark)
    requires r < |order| && q <= |order| && q != r && DistinctIds(order)
    requires q < |order| ==> order[q].id == e.id
    ensures Ids(WithoutOne(order[r + 1..], q, r)) + {e.id} == Ids(order[r + 1..]) + {e.id}
  {
    var rest := order[r + 1..];
    if r < q < |order| {
      var k := q - r - 1;
      assert rest == rest[..k] + [rest[k]] + rest[k + 1..];
      IdsConcat(rest[..k] + [rest[k]], rest[k + 1..]);
      IdsAppend(rest[..k], rest[k]);
      IdsConcat(rest[..k], rest[k + 1..]);
    }
  }

  /** The filter agrees with the whole history: an id counts as seen exactly when its last tracking
      is at most the time to live ago and fewer than cap other ids were tracked since. */
  lemma FilterIsExact(ttl: int, cap: int, h: seq<Mark>, id: EventId, now: int)
    requires TimeSorted(h) && NotAfter(h, now)
    ensures Track(RunTrack(ttl, cap, h), ttl, cap, id, now).1
            <==> ttl > 0 && cap > 0 && RecentlySeen(h, ttl, cap, id, now)
  {
    hide *;
    TrackAnswers(RunTrack(ttl, cap, h), ttl, cap, id, now);
    if ttl > 0 && cap > 0 {
      HoldsWhenRecent(ttl, cap, h, id, now);
    }
  }

  lemma TrackAnswers(cache: seq<Mark>, ttl: int, cap: int, id: EventId, now: int)
    ensures Track(cache, ttl, cap, id, now).1 <==> ttl > 0 && cap > 0 && Holds(DropExpired(cache, ttl, now), id)
  {
  }

  lemma KeptIsTail(ttl: int, cap: int, h: seq<Mark>, now: int)
    requires ttl > 0 && cap > 0 && TimeSorted(h) && NotAfter(h, now)
    ensures IsTail(DropExpired(RunTrack(ttl, cap, h), ttl, now), Recency(h), ttl, cap, now)
  {
    var last := if h == [] then now else h[|h| - 1].at;
    hide IsTail, DropExpired, RunTrack, Recency, TimeSorted;
    RunTrackIsTail(ttl, cap, h, last);
    RecencyOrdered(h, now);
    PrunedIsTail(RunTrack(ttl, cap, h), Recency(h), ttl, cap, last, now);
  }

  lemma HoldsWhenRecent(ttl: int, cap: int, h: seq<Mark>, id: EventId, now: int)
    requires ttl > 0 && cap > 0 && TimeSorted(h) && NotAfter(h, now)
    ensures Holds(DropExpired(RunTrack(ttl, cap, h), ttl, now), id) <==> RecentlySeen(h, ttl, cap, id, now)
  {
    var kept, order := DropExpired(RunTrack(ttl, cap, h), ttl, now), Recency(h);
    hide *;
    KeptIsTail(ttl, cap, h, now);
    RecencyOrdered(h, now);
    var p := PlaceInOrder(h, id, now);
    if p < |order| {
      TailHolds(kept, order, ttl, cap, now, p);
      DistinctSuffix(order, p + 1);
      assert |Since(h, id)| == |order| - p - 1;
    } else {
      TailHoldsNot(kept, order, ttl, cap, id, now);
    }
    RecentlySeenIs(h, ttl, cap, id, now);
  }

  lemma RecentlySeenIs(h: seq<Mark>, ttl: int, cap: int, id: EventId, now: int)
    ensures RecentlySeen(h, ttl, cap, id, now)
            <==> LastAt(h, id).Some? && now - LastAt(h, id).value <= ttl && |Since(h, id)| < cap
  {
  }

  lemma DistinctSuffix(s: seq<Mark>, k: nat)
    requires k <= |s| && DistinctIds(s)
    ensures |Ids(s[k..])| == |s| - k
  {
    IdsSize(s[k..]);
  }

  lemma TailHoldsNot(kept: seq<Mark>, order: seq<Mark>, ttl: int, cap: int, id: EventId, now: int)
    requires IsTail(kept, order, ttl, cap, now)
    requires forall i :: 0 <= i < |order| ==> order[i].id != id
    ensures !Holds(kept, id)
  {
    assert forall m :: m in kept ==> m in order;
  }

  /** The cache stays sorted by time, without repeated ids and within its cap. */
  lemma FilterStaysSmall(ttl: int, cap: int, h: seq<Mark>)
    requires ttl > 0 && cap > 0 && TimeSorted(h)
    ensures |RunTrack(ttl, cap, h)| <= cap
    ensures TimeSorted(RunTrack(ttl, cap, h)) && DistinctIds(RunTrack(ttl, cap, h))
  {
    var last := if h == [] then 0 else h[|h| - 1].at;
    RunTrackIsTail(ttl, cap, h, last);
    RecencyOrdered(h, last);
  }

  // ----- fan-out -----

  /** An event of a kind such as "attendance.recovery.updated". Kinds, scopes and topics are kept
      trimmed and in lower case; no scopes or topics at all stand for missing ones. */
  datatype Event = Event(id: EventId, origin: string, kind: string, scopes: set<string>, topics: set<string>,
                         body: string)

  datatype Subscriber = Subscriber(queue: seq<Event>, capacity: nat, scopes: set<string>, topics: set<string>)

  const ALL_SCOPES := "scope:all"
  const ALL_TOPICS := "*"

  const AREAS: set<string> :=
    {"attendance", "messages", "rms", "admin", "auth", "system", "food", "remedial", "identity", "identity_shield"}

  function ScopesOr(scopes: set<string>): set<string> {
    if scopes - {""} == {} then {ALL_SCOPES} else scopes - {""}
  }

  function TopicsOr(topics: set<string>): set<string> {
    if topics - {""} == {} then {ALL_TOPICS} else topics - {""}
  }

  /** What stands before the first dot. */
  function Head(kind: string): string {
    if kind == "" || kind[0] == '.' then "" else [kind[0]] + Head(kind[1..])
  }

  lemma {:induction false} HeadIs(kind: string)
    ensures '.' !in Head(kind) && |Head(kind)| <= |kind| && kind[..|Head(kind)|] == Head(kind)
    ensures |Head(kind)| < |kind| ==> kind[|Head(kind)|] == '.'
  {
    if kind != "" && kind[0] != '.' {
      HeadIs(kind[1..]);
      assert kind == [kind[0]] + kind[1..];
    }
  }

  lemma {:induction false} HeadUpTo(area: string, rest: string)
    requires '.' !in area && (rest == "" || rest[0] == '.')
    ensures Head(area + rest) == area
  {
    if area == "" {
      assert area + rest == rest;
    } else {
      assert (area + rest)[1..] == area[1..] + rest;
      HeadUpTo(area[1..], rest);
    }
  }

  /** The topic of an event that names none: the area its kind begins with, or else system. */
  function InferTopic(kind: string): string {
    if Head(kind) in AREAS then Head(kind) else "system"
  }

  function EventScopes(e: Event): set<string> {
    ScopesOr(if e.scopes == {} then {ALL_SCOPES} else e.scopes)
  }

  function EventTopics(e: Event): set<string> {
    TopicsOr(if e.topics == {} then {InferTopic(e.kind)} else e.topics)
  }

  /** An event without topics goes to those who follow its area or everything, and to nobody else. */
  lemma UntopicedGoesToItsArea(e: Event, mine: set<string>)
    requires e.topics == {}
    ensures EventTopics(e) == {InferTopic(e.kind)}
    ensures TopicMatch(mine, EventTopics(e)) <==> ALL_TOPICS in mine || InferTopic(e.kind) in mine
  {
    hide Head;
    var topic := InferTopic(e.kind);
    assert {topic} - {""} == {topic};
    assert EventTopics(e) == {topic};
    if topic in mine {
      assert topic in mine * {topic};
    }
  }

  /** The inferred topic is an area exactly if the kind is that area's name or goes on from it with a
      dot, and otherwise system. */
  lemma AreaOfKind(kind: string, area: string)
    requires area in {"attendance", "messages", "rms", "admin", "auth", "food", "remedial", "identity",
                      "identity_shield"}
    ensures InferTopic(kind) == area
            <==> kind == area || (|kind| > |area| && kind[..|area|] == area && kind[|area|] == '.')
    ensures InferTopic(kind) == "system" || InferTopic(kind) in AREAS
  {
    assert area in AREAS && area != "system";
    HeadIs(kind);
    HasNoDot(area);
    if kind == area || (|kind| > |area| && kind[..|area|] == area && kind[|area|] == '.') {
      HeadUpTo(area, kind[|area|..]);
      assert kind == area + kind[|area|..];
    }
    hide Head;
  }

  lemma HasNoDot(area: string)
    requires area in AREAS
    ensures '.' !in area
  {
  }

  predicate ScopeMatch(mine: set<string>, theirs: set<string>) {
    ALL_SCOPES in theirs || ALL_SCOPES in mine || mine * theirs != {}
  }

  predicate TopicMatch(mine: set<string>, theirs: set<string>) {
    ALL_TOPICS in mine || ALL_TOPICS in theirs || mine * theirs != {}
  }

  predicate Wants(s: Subscriber, e: Event) {
    ScopeMatch(s.scopes, EventScopes(e)) && TopicMatch(s.topics, EventTopics(e))
  }

  /** A full queue drops its oldest entry to make room. */
  function Push(queue: seq<Event>, capacity: nat, e: Event): seq<Event> {
    (if |queue| >= capacity && queue != [] then queue[1..] else queue) + [e]
  }

  function Offer(s: Subscriber, e: Event): Subscriber {
    if Wants(s, e) then s.(queue := Push(s.queue, s.capacity, e)) else s
  }

  function FanOut(subscribers: map<nat, Subscriber>, e: Event): map<nat, Subscriber> {
    map k | k in subscribers :: Offer(subscribers[k], e)
  }

  /** Who may see an event: the scopes must meet and the topics must meet, where an event for all scopes
      (or without any) and a subscriber to all meet everyone, and likewise for topics. */
  lemma WantsExactly(s: Subscriber, e: Event)
    ensures Wants(s, e)
            <==> && ("scope:all" in s.scopes || (exists t :: t in s.scopes && t in EventScopes(e))
                     || "scope:all" in EventScopes(e))
                 && ("*" in s.topics || (exists t :: t in s.topics && t in EventTopics(e)) || "*" in EventTopics(e))
  {
    assert s.scopes * EventScopes(e) != {} <==> exists t :: t in s.scopes && t in EventScopes(e) by {
      if t :| t in s.scopes && t in EventScopes(e) {
        assert t in s.scopes * EventScopes(e);
      }
    }
    assert s.topics * EventTopics(e) != {} <==> exists t :: t in s.topics && t in EventTopics(e) by {
      if t :| t in s.topics && t in EventTopics(e) {
        assert t in s.topics * EventTopics(e);
      }
    }
    hide EventScopes, EventTopics;
  }

  /** Blank scopes and topics do not count; an event or subscriber left with none is for all. */
  lemma BlanksDoNotCount(e: Event, values: set<string>)
    ensures forall t :: t in ScopesOr(values) <==>
              (t in values && t != "") || (t == "scope:all" && forall u :: u in values ==> u == "")
    ensures forall t :: t in TopicsOr(values) <==>
              (t in values && t != "") || (t == "*" && forall u :: u in values ==> u == "")
    ensures e.scopes == {} ==> EventScopes(e) == {"scope:all"}
    ensures e.scopes != {} ==> EventScopes(e) == ScopesOr(e.scopes)
    ensures e.topics != {} ==> EventTopics(e) == TopicsOr(e.topics)
  {
    BlanksOnly(values);
  }

  lemma BlanksOnly(values: set<string>)
    ensures values - {""} == {} <==> forall u :: u in values ==> u == ""
  {
    if u :| u in values && u != "" {
      assert u in values - {""};
    }
  }

  /** One publication, subscriber by subscriber: those who may see it get it last, and only a full queue
      loses its oldest entry; the others keep their queues. */
  lemma FanOutRowByRow(subscribers: map<nat, Subscriber>, e: Event, k: nat)
    requires k in subscribers && 0 < subscribers[k].capacity
    ensures var after, q := FanOut(subscribers, e), subscribers[k].queue;
            && after.Keys == subscribers.Keys && after[k] == subscribers[k].(queue := after[k].queue)
            && after[k].queue == if !Wants(subscribers[k], e) then q
                                 else if |q| < subscribers[k].capacity then q + [e]
                                 else q[1..] + [e]
  {
    hide Wants;
  }

  /** One subscriber's life: events published to the hub, and events it takes from its queue. */
  datatype Action = Publish(event: Event) | Take

  function Live(s: Subscriber, actions: seq<Action>): Subscriber {
    if actions == [] then s
    else
      var before := Live(s, actions[..|actions| - 1]);
      match actions[|actions| - 1]
      case Publish(e) => Offer(before, e)
      case Take => if before.queue == [] then before else before.(queue := before.queue[1..])
  }

  /** Every event published so far that the subscriber wants, in order. */
  function Wanted(s: Subscriber, actions: seq<Action>): seq<Event> {
    if actions == [] then []
    else
      Wanted(s, actions[..|actions| - 1])
      + match actions[|actions| - 1] {
        case Publish(e) => if Wants(s, e) then [e] else []
        case Take => []
      }
  }

  function Takes(actions: seq<Action>): nat {
    if actions == [] then 0 else Takes(actions[..|actions| - 1]) + if actions[|actions| - 1].Take? then 1 else 0
  }

  /** The queue is always the newest part of the wanted events, in order and without repetition,
      within its capacity; and nothing is lost while the subscriber keeps up. */
  lemma {:induction false} QueueIsNewestPart(s: Subscriber, actions: seq<Action>)
    requires s.queue == [] && s.capacity > 0
    ensures var after := Live(s, actions);
            var wanted := Wanted(s, actions);
            && after == s.(queue := after.queue)
            && |after.queue| <= |wanted| && |after.queue| <= s.capacity
            && after.queue == wanted[|wanted| - |after.queue|..]
            && |after.queue| >= Min(s.capacity, |wanted|) - Takes(actions)
  {
    if actions != [] {
      QueueIsNewestPart(s, actions[..|actions| - 1]);
    }
  }

  // ----- runs of the hub's inputs -----

  /** The hub's identity and its filter's settings. */
  datatype Filter = Filter(instance: string, ttl: int, cap: int)

  /** An event published here, or one that comes from a backend. */
  datatype Input = Published(event: Event, at: int) | Received(event: Event, at: int)

  predicate Switched(f: Filter) {
    f.ttl > 0 && f.cap > 0
  }

  /** Whether the filter takes note of the input's id. */
  predicate Tracks(f: Filter, m: Input) {
    Switched(f) && m.event.id != "" && (m.Received? ==> m.event.origin != f.instance)
  }

  function Noted(f: Filter, h: seq<Mark>, m: Input): seq<Mark> {
    if Tracks(f, m) then h + [Mark(m.event.id, m.at)] else h
  }

  function History(f: Filter, inputs: seq<Input>): seq<Mark> {
    if inputs == [] then [] else Noted(f, History(f, inputs[..|inputs| - 1]), inputs[|inputs| - 1])
  }

  /** A published event always goes out; one from a backend unless it is the hub's own or known. */
  predicate Delivers(f: Filter, h: seq<Mark>, m: Input) {
    m.Received? ==>
      && m.event.origin != f.instance
      && !(m.event.id != "" && Switched(f) && RecentlySeen(h, f.ttl, f.cap, m.event.id, m.at))
  }

  /** An event without an id is not noted and, from elsewhere, always delivered; the hub's own events are
      neither noted nor delivered when they come back, whatever was seen before. */
  lemma UnnamedAndOwnEvents(f: Filter, h: seq<Mark>, e: Event, at: int)
    ensures e.id == "" && e.origin != f.instance ==> Delivers(f, h, Received(e, at))
    ensures e.id == "" || e.origin == f.instance ==> Noted(f, h, Received(e, at)) == h
    ensures e.origin == f.instance ==> !Delivers(f, h, Received(e, at))
    ensures e.id == "" ==> Noted(f, h, Published(e, at)) == h
    ensures Delivers(f, h, Published(e, at))
  {
  }

  ghost predicate InTime(inputs: seq<Input>) {
    forall i, j :: 0 <= i < j < |inputs| ==> inputs[i].at <= inputs[j].at
  }

  /** The other ids the filter took note of between two inputs. */
  ghost function OthersBetween(f: Filter, inputs: seq<Input>, i: nat, j: nat): set<EventId>
    requires i < j <= |inputs|
  {
    set k | i < k < j && Tracks(f, inputs[k]) && inputs[k].event.id != inputs[i].event.id :: inputs[k].event.id
  }

  lemma NextInput(f: Filter, inputs: seq<Input>, j: nat)
    requires j < |inputs|
    ensures History(f, inputs[..j + 1]) == Noted(f, History(f, inputs[..j]), inputs[j])
  {
    assert inputs[..j + 1][..j] == inputs[..j];
  }

  lemma LatestMark(h: seq<Mark>, m: Mark, id: EventId)
    ensures LastAt(h + [m], id) == if m.id == id then Some(m.at) else LastAt(h, id)
    ensures Since(h + [m], id) == if m.id == id then {} else Since(h, id) + {m.id}
  {
    assert (h + [m])[..|h|] == h;
  }

  lemma OthersGrow(f: Filter, inputs: seq<Input>, i: nat, j: nat)
    requires i < j < |inputs|
    ensures OthersBetween(f, inputs, i, j) <= OthersBetween(f, inputs, i, j + 1)
    ensures Tracks(f, inputs[j]) && inputs[j].event.id != inputs[i].event.id ==>
              inputs[j].event.id in OthersBetween(f, inputs, i, j + 1)
  {
  }

  /** What the history knows of an input once noted. */
  lemma {:induction false} StillKnown(f: Filter, inputs: seq<Input>, i: nat, j: nat)
    requires InTime(inputs) && i < j <= |inputs| && Tracks(f, inputs[i])
    ensures var h, id := History(f, inputs[..j]), inputs[i].event.id;
            LastAt(h, id).Some? && LastAt(h, id).value >= inputs[i].at && Since(h, id) <= OthersBetween(f, inputs, i, j)
  {
    hide LastAt, Since, Tracks, History, OthersBetween;
    var id := inputs[i].event.id;
    var before := History(f, inputs[..j - 1]);
    NextInput(f, inputs, j - 1);
    LatestMark(before, Mark(inputs[j - 1].event.id, inputs[j - 1].at), id);
    if j - 1 > i {
      StillKnown(f, inputs, i, j - 1);
      OthersGrow(f, inputs, i, j - 1);
    }
  }

  /** In every run, an event id that was published here or delivered from a backend is delivered again
      from a backend only when it is forgotten: more than the time to live later, or after at least cap
      other ids. */
  lemma DeliveredAgainOnlyWhenForgotten(f: Filter, inputs: seq<Input>, i: nat, j: nat)
    requires InTime(inputs) && i < j < |inputs| && Switched(f)
    requires inputs[i].event.id == inputs[j].event.id != "" && inputs[j].Received?
    requires Delivers(f, History(f, inputs[..i]), inputs[i]) && Delivers(f, History(f, inputs[..j]), inputs[j])
    ensures inputs[j].at - inputs[i].at > f.ttl || |OthersBetween(f, inputs, i, j)| >= f.cap
  {
    StillKnown(f, inputs, i, j);
    hide LastAt, Since, OthersBetween, History;
    SubsetSize(Since(History(f, inputs[..j]), inputs[i].event.id), OthersBetween(f, inputs, i, j));
  }

  // ----- the hub, updated in place -----

  class RealtimeEventHub {
    const instance: string
    const ttl: int
    const cap: int
    var dedupe: seq<Mark>
    var subscribers: map<nat, Subscriber>
    var nextSubscriber: nat
    ghost var history: seq<Mark>

    /** The settings are non-negative; zero switches the filter off. */
    ghost predicate Valid()
      reads this
    {
      && (forall k :: k in subscribers ==> k < nextSubscriber && subscribers[k].capacity >= 10)
      && (ttl > 0 && cap > 0 ==> dedupe == RunTrack(ttl, cap, history) && TimeSorted(history))
    }

    constructor (instance: string, ttl: int, cap: int)
      ensures Valid() && subscribers == map[] && history == []
      ensures this.instance == instance && this.ttl == Max(0, ttl) && this.cap == Max(0, cap)
    {
      this.instance := instance;
      this.ttl := Max(0, ttl);
      this.cap := Max(0, cap);
      dedupe, subscribers, nextSubscriber, history := [], map[], 0, [];
    }

    /** The answer is what the whole tracking history says. */
    method TrackRecentEvent(id: EventId, now: int) returns (seen: bool)
      requires Valid() && NotAfter(history, now)
      modifies this`dedupe, this`history
      ensures Valid()
      ensures history == if ttl > 0 && cap > 0 then old(history) + [Mark(id, now)] else old(history)
      ensures seen <==> ttl > 0 && cap > 0 && RecentlySeen(old(history), ttl, cap, id, now)
    {
      hide RecentlySeen, TimeSorted, NotAfter, Without, Holds;
      if ttl <= 0 || cap <= 0 {
        return false;
      }
      FilterIsExact(ttl, cap, history, id, now);
      HistoryGrows(history, id, now);
      ghost var before := dedupe;
      while dedupe != []
        invariant DropExpired(dedupe, ttl, now) == DropExpired(before, ttl, now)
        invariant history == old(history)
        decreases |dedupe|
      {
        if now - dedupe[0].at <= ttl {
          break;
        }
        dedupe := dedupe[1..];
      }
      assert dedupe == DropExpired(before, ttl, now);
      seen := Holds(dedupe, id);
      dedupe := Without(dedupe, id) + [Mark(id, now)];
      if |dedupe| > cap {
        dedupe := dedupe[1..];
      }
      history := history + [Mark(id, now)];
      assert history[..|history| - 1] == old(history);
    }

    method PublishLocal(e: Event)
      requires Valid()
      modifies this`subscribers
      ensures Valid() && subscribers == FanOut(old(subscribers), e)
    {
      hide Wants;
      var pending := subscribers.Keys;
      while pending != {}
        invariant pending <= subscribers.Keys == old(subscribers).Keys
        invariant forall k :: k in pending ==> subscribers[k] == old(subscribers)[k]
        invariant forall k :: k in subscribers && k !in pending ==> subscribers[k] == Offer(old(subscribers)[k], e)
      {
        var k :| k in pending;
        var s := subscribers[k];
        if Wants(s, e) {
          var queue := s.queue;
          if |queue| >= s.capacity && queue != [] {
            queue := queue[1..];
          }
          subscribers := subscribers[k := s.(queue := queue + [e])];
        }
        pending := pending - {k};
      }
    }

    method Subscribe(scopes: set<string>, topics: set<string>, queueSize: int) returns (key: nat)
      requires Valid()
      modifies this`subscribers, this`nextSubscriber
      ensures Valid() && key !in old(subscribers)
      ensures var newcomer := Subscriber([], Max(10, queueSize), ScopesOr(scopes), TopicsOr(topics));
              subscribers == old(subscribers)[key := newcomer]
    {
      key := nextSubscriber;
      nextSubscriber := nextSubscriber + 1;
      subscribers := subscribers[key := Subscriber([], Max(10, queueSize), ScopesOr(scopes), TopicsOr(topics))];
    }

    /** Takes note of the event's id, and sends the event out whatever the filter knows. */
    method Publish(e: Event, now: int)
      requires Valid() && NotAfter(history, now)
      modifies this
      ensures Valid() && subscribers == FanOut(old(subscribers), e)
      ensures history == Noted(Filter(instance, ttl, cap), old(history), Published(e, now))
    {
      if e.id != "" {
        var _ := TrackRecentEvent(e.id, now);
      }
      PublishLocal(e);
    }

    /** An event that came back from this instance, or that another backend brought already, is not
        delivered a second time. */
    method OnBackendMessage(e: Event, now: int)
      requires Valid() && NotAfter(history, now)
      modifies this
      ensures Valid()
      ensures var f := Filter(instance, ttl, cap);
              && subscribers == (if Delivers(f, old(history), Received(e, now)) then FanOut(old(subscribers), e)
                                 else old(subscribers))
              && history == Noted(f, old(history), Received(e, now))
    {
      if e.origin == instance {
        return;
      }
      if e.id != "" {
        var seen := TrackRecentEvent(e.id, now);
        if seen {
          return;
        }
      }
      PublishLocal(e);
    }
  }

  lemma HistoryGrows(h: seq<Mark>, id: EventId, now: int)
    requires TimeSorted(h) && NotAfter(h, now)
    ensures TimeSorted(h + [Mark(id, now)])
  {
  }
}
