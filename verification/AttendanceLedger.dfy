/** The event-sourced attendance ledger: events are only ever added, and the table of records is
    derived from them. The id of an event is its position. Texts are kept trimmed. */
module AttendanceLedger {
  import opened Basics

  datatype Status = Present | Absent

  /** One student in one course on one day. */
  datatype Key = Key(day: nat, course: nat, student: nat)

  /** A caller's event key, or one drawn at random (drawn keys never repeat). */
  datatype Token = Given(text: string) | Drawn(number: nat)

  datatype Event = Event(token: Token, key: Key, status: Status, source: string, actorFaculty: Option<nat>,
                         createdAt: int)

  datatype Record = Record(status: Status, source: string, markedBy: nat, createdAt: int, updatedAt: int,
                           fromEvent: nat)

  /** The rows the attribution of a record consults: the faculty of each course, and the first faculty. */
  datatype Directory = Directory(courseFaculty: map<nat, nat>, firstFaculty: Option<nat>)

  datatype Ledger = Ledger(events: seq<Event>, records: map<Key, Record>)

  const DEFAULT_SOURCE := "attendance-event"

  // ----- lookups -----

  function FindToken(events: seq<Event>, token: Token): (r: Option<nat>)
    ensures r.Some? ==> r.value < |events| && events[r.value].token == token
  {
    if events == [] then None
    else
      var r := FindToken(events[..|events| - 1], token);
      if r.Some? then r else if events[|events| - 1].token == token then Some(|events| - 1) else None
  }

  /** The greatest event of a key by creation time, then by id. */
  function Latest(events: seq<Event>, key: Key): (r: Option<nat>)
    ensures r.Some? ==> r.value < |events| && events[r.value].key == key
  {
    if events == [] then None
    else
      var n := |events| - 1;
      var best := Latest(events[..n], key);
      if events[n].key == key && (best.None? || events[best.value].createdAt <= events[n].createdAt)
      then Some(n) else best
  }

  function First(events: seq<Event>, key: Key): (r: Option<nat>)
    ensures r.Some? ==> r.value < |events| && events[r.value].key == key
  {
    if events == [] then None
    else
      var r := First(events[..|events| - 1], key);
      if r.Some? then r else if events[|events| - 1].key == key then Some(|events| - 1) else None
  }

  lemma {:induction false} FindTokenFinds(events: seq<Event>, token: Token)
    ensures FindToken(events, token).None? ==> forall i :: 0 <= i < |events| ==> events[i].token != token
  {
    if events != [] {
      FindTokenFinds(events[..|events| - 1], token);
    }
  }

  predicate NoLaterThan(events: seq<Event>, i: nat, j: nat)
    requires i < |events| && j < |events|
  {
    events[i].createdAt < events[j].createdAt || (events[i].createdAt == events[j].createdAt && i <= j)
  }

  /** The latest event is the greatest of its key by creation time and id. */
  lemma {:induction false} LatestIsGreatest(events: seq<Event>, key: Key)
    ensures var r := Latest(events, key);
            && (r.Some? ==> forall i :: 0 <= i < |events| && events[i].key == key ==> NoLaterThan(events, i, r.value))
            && (r.None? ==> forall i :: 0 <= i < |events| ==> events[i].key != key)
  {
    if events != [] {
      var n := |events| - 1;
      LatestIsGreatest(events[..n], key);
      forall i | 0 <= i < |events| && events[i].key == key && Latest(events, key).Some?
        ensures NoLaterThan(events, i, Latest(events, key).value)
      {
        if i < n && Latest(events[..n], key).Some? {
          assert NoLaterThan(events[..n], i, Latest(events[..n], key).value);
        }
      }
    }
  }

  lemma {:induction false} FirstIsLeast(events: seq<Event>, key: Key)
    ensures var r := First(events, key);
            forall i :: 0 <= i < (if r.Some? then r.value else |events|) ==> events[i].key != key
  {
    if events != [] {
      FirstIsLeast(events[..|events| - 1], key);
    }
  }

  /** Who marked the record: the event's faculty, the course's, the existing record's, or the first one. */
  function Attribution(dir: Directory, e: Event, existing: Option<Record>): Option<nat> {
    if e.actorFaculty.Some? then e.actorFaculty
    else if e.key.course in dir.courseFaculty then Some(dir.courseFaculty[e.key.course])
    else if existing.Some? then Some(existing.value.markedBy)
    else dir.firstFaculty
  }

  // ----- the operations -----

  function Append(l: Ledger, token: Token, key: Key, status: Status, source: string, actor: Option<nat>,
                  now: int): Ledger {
    if FindToken(l.events, token).Some? then l
    else
      var named := if source == "" then DEFAULT_SOURCE else source;
      l.(events := l.events + [Event(token, key, status, named, actor, now)])
  }

  function Existing(l: Ledger, key: Key): Option<Record> {
    if key in l.records then Some(l.records[key]) else None
  }

  function Derived(e: Event, id: nat, existing: Option<Record>, marker: nat, now: int): Record {
    Record(e.status, e.source, marker, if existing.Some? then existing.value.createdAt else e.createdAt, now, id)
  }

  /** Fails only when nobody can be named as the marking faculty. */
  function Recompute(l: Ledger, dir: Directory, key: Key, now: int): Option<Ledger> {
    match Latest(l.events, key)
    case None => Some(l.(records := l.records - {key}))
    case Some(i) =>
      var marker := Attribution(dir, l.events[i], Existing(l, key));
      if marker.None? then None
      else Some(l.(records := l.records[key := Derived(l.events[i], i, Existing(l, key), marker.value, now)]))
  }

  /** What a recomputation does: its key's record reflects the events, and nothing else changes. */
  lemma RecomputeEffect(l: Ledger, dir: Directory, key: Key, now: int)
    ensures var r := Recompute(l, dir, key, now);
            r.Some? ==> && r.value.events == l.events
                        && (key in r.value.records <==> Latest(l.events, key).Some?)
                        && (key in r.value.records ==> Reflects(l.events, key, r.value.records[key]))
                        && (key in r.value.records ==>
                              r.value.records[key].createdAt
                              == if key in l.records then l.records[key].createdAt
                                else l.events[Latest(l.events, key).value].createdAt)
                        && (forall k :: k != key ==> (k in r.value.records <==> k in l.records))
                        && (forall k :: k != key && k in l.records ==> r.value.records[k] == l.records[k])
  {
    hide Latest;
  }

  datatype Entry = Entry(token: Token, key: Key, status: Status, source: string, actor: Option<nat>, dir: Directory,
                         now: int, later: int)

  /** Append and recompute in one transaction: a failure leaves the ledger as it was. */
  function Post(l: Ledger, e: Entry): Ledger {
    var r := Recompute(Append(l, e.token, e.key, e.status, e.source, e.actor, e.now), e.dir, e.key, e.later);
    if r.Some? then r.value else l
  }

  function Run(entries: seq<Entry>): Ledger {
    if entries == [] then Ledger([], map[]) else Post(Run(entries[..|entries| - 1]), entries[|entries| - 1])
  }

  // ----- the table is a view of the events -----

  /** The record carries what the greatest event of its key says. */
  predicate Reflects(events: seq<Event>, key: Key, r: Record) {
    var i := Latest(events, key);
    i.Some? && r.status == events[i.value].status && r.source == events[i.value].source && r.fromEvent == i.value
  }

  ghost predicate Faithful(l: Ledger) {
    && (forall k :: k in l.records <==> Latest(l.events, k).Some?)
    && (forall k :: k in l.records ==> Reflects(l.events, k, l.records[k]))
  }

  /** A record keeps the creation time of the first event of its key. */
  ghost predicate DatedByFirst(l: Ledger) {
    forall k :: k in l.records && First(l.events, k).Some? ==>
      l.records[k].createdAt == l.events[First(l.events, k).value].createdAt
  }

  ghost predicate UniqueTokens(events: seq<Event>) {
    forall i, j :: 0 <= i < j < |events| ==> events[i].token != events[j].token
  }

  ghost predicate Inv(l: Ledger) {
    Faithful(l) && DatedByFirst(l) && UniqueTokens(l.events)
  }

  lemma AppendOther(events: seq<Event>, e: Event, key: Key)
    requires e.key != key
    ensures Latest(events + [e], key) == Latest(events, key) && First(events + [e], key) == First(events, key)
  {
    assert (events + [e])[..|events|] == events;
  }

  lemma AppendSame(events: seq<Event>, e: Event)
    ensures Latest(events + [e], e.key).Some? && First(events + [e], e.key).Some?
    ensures First(events + [e], e.key) == if First(events, e.key).Some? then First(events, e.key) else Some(|events|)
    ensures First(events, e.key).None? ==> Latest(events + [e], e.key) == Some(|events|)
  {
    assert (events + [e])[..|events|] == events;
  }

  /** What an append leaves: the same events, and at most one more, of the given key. */
  ghost predicate Grown(a: seq<Event>, b: seq<Event>, key: Key) {
    && |a| <= |b| && (forall i :: 0 <= i < |a| ==> b[i] == a[i])
    && (forall k :: k != key ==> Latest(b, k) == Latest(a, k) && First(b, k) == First(a, k))
    && (First(a, key).Some? ==> First(b, key) == First(a, key))
    && (First(a, key).None? && First(b, key).Some? ==> Latest(b, key) == First(b, key))
  }

  lemma AppendGrows(l: Ledger, e: Entry)
    ensures Grown(l.events, Append(l, e.token, e.key, e.status, e.source, e.actor, e.now).events, e.key)
  {
    var appended := Append(l, e.token, e.key, e.status, e.source, e.actor, e.now);
    if appended != l {
      var added := appended.events[|l.events|];
      assert appended.events == l.events + [added];
      forall k | k != e.key
        ensures Latest(appended.events, k) == Latest(l.events, k) && First(appended.events, k) == First(l.events, k)
      {
        AppendOther(l.events, added, k);
      }
      AppendSame(l.events, added);
    }
  }

  lemma PostInv(l: Ledger, e: Entry)
    requires Inv(l)
    ensures Inv(Post(l, e))
  {
    hide First, Latest, FindToken, Recompute, Append, Faithful, DatedByFirst, Grown;
    var appended := Append(l, e.token, e.key, e.status, e.source, e.actor, e.now);
    var after := Post(l, e);
    AppendGrows(l, e);
    AppendKeepsRecords(l, e);
    TokensStayUnique(l, e);
    RecomputeEffect(appended, e.dir, e.key, e.later);
    if after != l {
      GrownFaithful(l, appended, after, e.key);
      GrownDated(l, appended, after, e.key);
    }
  }

  ghost predicate OnlyKeyChanged(before: Ledger, after: Ledger, key: Key) {
    && (forall k :: k != key ==> (k in after.records <==> k in before.records))
    && (forall k :: k != key && k in before.records ==> after.records[k] == before.records[k])
  }

  lemma GrownFaithful(l: Ledger, appended: Ledger, after: Ledger, key: Key)
    requires Faithful(l) && Grown(l.events, appended.events, key) && after.events == appended.events
    requires OnlyKeyChanged(l, after, key)
    requires key in after.records <==> Latest(appended.events, key).Some?
    requires key in after.records ==> Reflects(appended.events, key, after.records[key])
    ensures Faithful(after)
  {
    hide First, Latest;
  }

  lemma GrownDated(l: Ledger, appended: Ledger, after: Ledger, key: Key)
    requires Faithful(l) && DatedByFirst(l) && Grown(l.events, appended.events, key) && after.events == appended.events
    requires OnlyKeyChanged(l, after, key)
    requires key in after.records ==>
               Latest(appended.events, key).Some?
               && after.records[key].createdAt
                  == if key in l.records then l.records[key].createdAt
                    else appended.events[Latest(appended.events, key).value].createdAt
    ensures DatedByFirst(after)
  {
    hide First, Latest;
    SameKeys(l.events, key);
  }

  lemma AppendKeepsRecords(l: Ledger, e: Entry)
    ensures Append(l, e.token, e.key, e.status, e.source, e.actor, e.now).records == l.records
  {
  }

  lemma SameKeys(events: seq<Event>, key: Key)
    ensures First(events, key).None? <==> Latest(events, key).None?
  {
    FirstIsLeast(events, key);
    LatestIsGreatest(events, key);
  }

  lemma TokensStayUnique(l: Ledger, e: Entry)
    requires UniqueTokens(l.events)
    ensures UniqueTokens(Append(l, e.token, e.key, e.status, e.source, e.actor, e.now).events)
  {
    FindTokenFinds(l.events, e.token);
  }

  /** After any run of append-and-recompute, whatever the clock does, a record exists exactly for the
      keys with events and reflects their greatest event. */
  lemma {:induction false} RunInv(entries: seq<Entry>)
    ensures Inv(Run(entries))
  {
    hide Post, Faithful, DatedByFirst;
    if entries == [] {
      EmptyInv();
    } else {
      RunInv(entries[..|entries| - 1]);
      PostInv(Run(entries[..|entries| - 1]), entries[|entries| - 1]);
    }
  }

  /** The same for one key, in terms of the events alone. */
  lemma RecordIsGreatestEvent(entries: seq<Entry>, key: Key)
    ensures var l := Run(entries);
            && (key in l.records <==> exists i :: 0 <= i < |l.events| && l.events[i].key == key)
            && (key in l.records ==>
                  var j := l.records[key].fromEvent;
                  && j < |l.events| && l.events[j].key == key
                  && l.records[key].status == l.events[j].status && l.records[key].source == l.events[j].source
                  && forall i :: 0 <= i < |l.events| && l.events[i].key == key ==> NoLaterThan(l.events, i, j))
  {
    hide Run, Latest;
    RunInv(entries);
    LatestIsGreatest(Run(entries).events, key);
  }

  lemma EmptyInv()
    ensures Inv(Ledger([], map[]))
  {
  }

  /** The values of a record that a repetition or a rebuild must not change. */
  ghost predicate SameValues(a: map<Key, Record>, b: map<Key, Record>) {
    && a.Keys == b.Keys
    && forall k :: k in a ==>
         a[k].status == b[k].status && a[k].source == b[k].source && a[k].fromEvent == b[k].fromEvent
  }

  /** Posting under an event key that was used before changes no event and no value of any record,
      whatever the other arguments are. */
  lemma RepeatedKeyChangesNothing(l: Ledger, e: Entry)
    requires Inv(l) && FindToken(l.events, e.token).Some?
    ensures Post(l, e).events == l.events && SameValues(Post(l, e).records, l.records)
  {
    hide Latest, First, FindToken, Recompute;
    RecomputeEffect(l, e.dir, e.key, e.later);
  }

  /** A failed attribution leaves no trace, and it fails exactly when the event, the course, the
      existing record and the faculty table name nobody. */
  lemma PostFailsWhenNobodyMarks(l: Ledger, e: Entry)
    requires Inv(l)
    ensures var appended := Append(l, e.token, e.key, e.status, e.source, e.actor, e.now);
            var i := Latest(appended.events, e.key);
            Recompute(appended, e.dir, e.key, e.later).None?
            <==> i.Some? && appended.events[i.value].actorFaculty.None? && e.key.course !in e.dir.courseFaculty
                 && e.key !in l.records && e.dir.firstFaculty.None?
  {
    hide Latest, First, FindToken;
  }

  // ----- what is posted is what is stored -----

  /** The event says what the entry said. */
  predicate Stores(x: Event, e: Entry) {
    && x.token == e.token && x.key == e.key && x.status == e.status && x.actorFaculty == e.actor && x.createdAt == e.now
    && x.source == if e.source == "" then "attendance-event" else e.source
  }

  lemma {:induction false} TokenKnown(events: seq<Event>, token: Token)
    ensures FindToken(events, token).Some? <==> exists i :: 0 <= i < |events| && events[i].token == token
  {
    FindTokenFinds(events, token);
  }

  /** A post either leaves the ledger as it was or, under a token of its own, adds exactly one event that
      says what the entry said; under a known token it adds none. */
  lemma PostStoresTheEntry(l: Ledger, e: Entry)
    ensures var after := Post(l, e);
            if exists i :: 0 <= i < |l.events| && l.events[i].token == e.token then after.events == l.events
            else
              || after == l
              || (&& |after.events| == |l.events| + 1 && after.events[..|l.events|] == l.events
                  && Stores(after.events[|l.events|], e))
  {
    TokenKnown(l.events, e.token);
    hide FindToken, Latest, Attribution;
  }

  lemma {:induction false} LatestAppended(events: seq<Event>, x: Event)
    requires forall i :: 0 <= i < |events| && events[i].key == x.key ==> events[i].createdAt <= x.createdAt
    ensures Latest(events + [x], x.key) == Some(|events|)
  {
    assert (events + [x])[..|events|] == events;
  }

  /** Somebody can be named as the marking faculty of the entry's own event. */
  predicate NamesMarker(l: Ledger, e: Entry) {
    e.actor.Some? || e.key.course in e.dir.courseFaculty || e.key in l.records || e.dir.firstFaculty.Some?
  }

  /** A new entry, no earlier than the key's events, decides the key's record: status and source as
      posted, the marker in the order actor, course, earlier marker, first faculty, the creation time of
      the earlier record if there is one. All other records stay. */
  lemma PostDecidesTheRecord(l: Ledger, e: Entry)
    requires forall i :: 0 <= i < |l.events| ==> l.events[i].token != e.token
    requires forall i :: 0 <= i < |l.events| && l.events[i].key == e.key ==> l.events[i].createdAt <= e.now
    requires NamesMarker(l, e)
    ensures var after := Post(l, e);
            && |after.events| == |l.events| + 1 && Stores(after.events[|l.events|], e)
            && after.records.Keys == l.records.Keys + {e.key}
            && (forall k :: k in l.records && k != e.key ==> after.records[k] == l.records[k])
            && var r := after.records[e.key];
               && r.status == e.status && r.source == (if e.source == "" then "attendance-event" else e.source)
               && r.fromEvent == |l.events| && r.updatedAt == e.later
               && r.createdAt == (if e.key in l.records then l.records[e.key].createdAt else e.now)
               && (e.actor.Some? ==> r.markedBy == e.actor.value)
               && (e.actor.None? && e.key.course in e.dir.courseFaculty ==>
                     r.markedBy == e.dir.courseFaculty[e.key.course])
               && (e.actor.None? && e.key.course !in e.dir.courseFaculty && e.key in l.records ==>
                     r.markedBy == l.records[e.key].markedBy)
               && (e.actor.None? && e.key.course !in e.dir.courseFaculty && e.key !in l.records ==>
                     e.dir.firstFaculty == Some(r.markedBy))
  {
    TokenKnown(l.events, e.token);
    var appended := Append(l, e.token, e.key, e.status, e.source, e.actor, e.now);
    LatestAppended(l.events, appended.events[|l.events|]);
    hide FindToken, Latest;
  }

  predicate Takes(l: Ledger, e: Entry) {
    FindToken(l.events, e.token).None?
    && Recompute(Append(l, e.token, e.key, e.status, e.source, e.actor, e.now), e.dir, e.key, e.later).Some?
  }

  /** The entries of a run that were taken, in order: those with a token of their own for which
      somebody could be named. */
  function Taken(entries: seq<Entry>): seq<Entry> {
    if entries == [] then []
    else
      var n := |entries| - 1;
      Taken(entries[..n]) + if Takes(Run(entries[..n]), entries[n]) then [entries[n]] else []
  }

  lemma TakenStep(l: Ledger, e: Entry)
    ensures if Takes(l, e) then |Post(l, e).events| == |l.events| + 1 && Post(l, e).events[..|l.events|] == l.events
                                && Stores(Post(l, e).events[|l.events|], e)
            else Post(l, e).events == l.events
  {
    hide FindToken, Latest, Attribution;
  }

  /** The log of a run is its taken entries, one event each, in order. */
  lemma {:induction false} LogIsWhatWasTaken(entries: seq<Entry>)
    ensures |Run(entries).events| == |Taken(entries)|
    ensures forall i :: 0 <= i < |Taken(entries)| ==> Stores(Run(entries).events[i], Taken(entries)[i])
  {
    hide Post, Takes, Stores;
    if entries != [] {
      var n := |entries| - 1;
      LogIsWhatWasTaken(entries[..n]);
      var l := Run(entries[..n]);
      TakenStep(l, entries[n]);
      forall i | 0 <= i < |Taken(entries[..n])|
        ensures Stores(Run(entries).events[i], Taken(entries)[i])
      {
        assert Run(entries).events[i] == Run(entries).events[..|l.events|][i];
      }
    }
  }

  /** An entry for which the faculty table names somebody is never lost: its token was taken. */
  lemma {:induction false} NoneIsLost(entries: seq<Entry>, k: nat)
    requires k < |entries| && entries[k].dir.firstFaculty.Some?
    ensures exists j :: 0 <= j < |Taken(entries)| && Taken(entries)[j].token == entries[k].token
    decreases |entries|
  {
    var n := |entries| - 1;
    if k < n {
      NoneIsLost(entries[..n], k);
      var j :| 0 <= j < |Taken(entries[..n])| && Taken(entries[..n])[j].token == entries[k].token;
      assert Taken(entries)[j] == Taken(entries[..n])[j];
    } else {
      var l := Run(entries[..n]);
      hide Run, Latest, FindToken;
      if FindToken(l.events, entries[k].token).Some? {
        LogIsWhatWasTaken(entries[..n]);
        var i := FindToken(l.events, entries[k].token).value;
        assert Stores(l.events[i], Taken(entries[..n])[i]);
        assert Taken(entries)[i] == Taken(entries[..n])[i];
      } else {
        assert Takes(l, entries[n]);
        assert Taken(entries)[|Taken(entries)| - 1] == entries[n];
      }
    }
  }

  /** After any run a key's record carries the status and the source of the taken entry of that key that
      is last by time and then by position. */
  lemma RecordSaysTheLastEntry(entries: seq<Entry>, key: Key)
    ensures var l, taken := Run(entries), Taken(entries);
            && (key in l.records <==> exists i :: 0 <= i < |taken| && taken[i].key == key)
            && (key in l.records ==>
                  var j := l.records[key].fromEvent;
                  && j < |taken| && taken[j].key == key
                  && l.records[key].status == taken[j].status
                  && l.records[key].source == (if taken[j].source == "" then "attendance-event" else taken[j].source)
                  && forall i :: 0 <= i < |taken| && taken[i].key == key ==>
                                   taken[i].now < taken[j].now || (taken[i].now == taken[j].now && i <= j))
  {
    hide Run, Taken;
    RecordIsGreatestEvent(entries, key);
    LogIsWhatWasTaken(entries);
    var l, taken := Run(entries), Taken(entries);
    assert forall i :: 0 <= i < |taken| ==> l.events[i].key == taken[i].key && l.events[i].createdAt == taken[i].now;
  }

  // ----- rebuilding -----

  /** Rebuilds the records of a set of keys, in the order given. */
  function Rebuild(l: Ledger, dir: Directory, keys: seq<Key>, now: int): Option<Ledger> {
    if keys == [] then Some(l)
    else
      match Rebuild(l, dir, keys[..|keys| - 1], now)
      case None => None
      case Some(m) => Recompute(m, dir, keys[|keys| - 1], now)
  }

  lemma {:induction false} RebuildEffect(l: Ledger, dir: Directory, keys: seq<Key>, now: int)
    ensures var r := Rebuild(l, dir, keys, now);
            r.Some? ==> && r.value.events == l.events
                        && (forall k :: k in keys ==> (k in r.value.records <==> Latest(l.events, k).Some?))
                        && (forall k :: k in keys && k in r.value.records ==> Reflects(l.events, k, r.value.records[k]))
                        && (forall k :: k !in keys ==> (k in r.value.records <==> k in l.records))
                        && (forall k :: k !in keys && k in l.records ==> r.value.records[k] == l.records[k])
  {
    hide Latest, Recompute, Reflects;
    if keys != [] {
      var n := |keys| - 1;
      RebuildEffect(l, dir, keys[..n], now);
      assert keys == keys[..n] + [keys[n]];
      var before := Rebuild(l, dir, keys[..n], now);
      if before.Some? {
        RecomputeEffect(before.value, dir, keys[n], now);
      }
    }
  }

  /** Neither the key's greatest event, nor its course, nor the faculty table names anybody. */
  ghost predicate Unattributable(events: seq<Event>, dir: Directory, key: Key) {
    var i := Latest(events, key);
    i.Some? && events[i.value].actorFaculty.None? && key.course !in dir.courseFaculty && dir.firstFaculty.None?
  }

  /** A rebuild fails exactly when one of its keys cannot be attributed and has no record yet. */
  lemma {:induction false} RebuildFailsExactly(l: Ledger, dir: Directory, keys: seq<Key>, now: int)
    ensures Rebuild(l, dir, keys, now).None?
            <==> exists k :: k in keys && Unattributable(l.events, dir, k) && k !in l.records
  {
    hide Latest, Unattributable;
    if keys != [] {
      var n := |keys| - 1;
      RebuildFailsExactly(l, dir, keys[..n], now);
      assert keys == keys[..n] + [keys[n]];
      assert forall k :: k in keys <==> k in keys[..n] || k == keys[n];
      RebuildEffect(l, dir, keys[..n], now);
      var before := Rebuild(l, dir, keys[..n], now);
      hide Rebuild;
      RebuildUnfolds(l, dir, keys, now);
      if before.Some? {
        RecomputeFailsExactly(before.value, dir, keys[n], now);
        SameEvents(l, before.value, dir, keys[n]);
      }
    }
  }

  lemma RebuildUnfolds(l: Ledger, dir: Directory, keys: seq<Key>, now: int)
    requires keys != []
    ensures Rebuild(l, dir, keys, now)
            == match Rebuild(l, dir, keys[..|keys| - 1], now)
               case None => None
               case Some(m) => Recompute(m, dir, keys[|keys| - 1], now)
  {
  }

  lemma RecomputeFailsExactly(l: Ledger, dir: Directory, key: Key, now: int)
    ensures Recompute(l, dir, key, now).None? <==> Unattributable(l.events, dir, key) && key !in l.records
  {
    hide Latest;
  }

  lemma SameEvents(l: Ledger, m: Ledger, dir: Directory, key: Key)
    requires l.events == m.events
    ensures Unattributable(l.events, dir, key) <==> Unattributable(m.events, dir, key)
    ensures Unattributable(l.events, dir, key) ==> Latest(l.events, key).Some?
  {
  }

  /** An unlimited rebuild of all keys with events, from an empty table, gives the same values, and it
      fails exactly when some key cannot be attributed. */
  lemma RebuildFromNothing(l: Ledger, dir: Directory, keys: seq<Key>, now: int)
    requires Inv(l)
    requires forall k :: k in keys <==> Latest(l.events, k).Some?
    ensures var r := Rebuild(l.(records := map[]), dir, keys, now);
            && (r.None? <==> exists k :: Unattributable(l.events, dir, k))
            && (r.Some? ==> SameValues(r.value.records, l.records))
  {
    hide Latest, Rebuild;
    RebuildFailsExactly(l.(records := map[]), dir, keys, now);
    RebuildEffect(l.(records := map[]), dir, keys, now);
    forall k
      ensures Unattributable(l.events, dir, k) ==> k in keys
    {
      SameEvents(l, l, dir, k);
    }
  }

  /** A rebuild in place, of any part of the table, never fails and changes no value either. */
  lemma RebuildInPlace(l: Ledger, dir: Directory, keys: seq<Key>, now: int)
    requires Inv(l)
    ensures Rebuild(l, dir, keys, now).Some? && SameValues(Rebuild(l, dir, keys, now).value.records, l.records)
  {
    hide Latest, Rebuild;
    RebuildFailsExactly(l, dir, keys, now);
    forall k
      ensures Unattributable(l.events, dir, k) ==> k in l.records
    {
      SameEvents(l, l, dir, k);
    }
    RebuildEffect(l, dir, keys, now);
  }

  lemma {:induction false} RebuildDates(l: Ledger, dir: Directory, keys: seq<Key>, now: int, key: Key)
    requires key in keys && Rebuild(l.(records := map[]), dir, keys, now).Some?
    requires Latest(l.events, key).Some?
    ensures var r := Rebuild(l.(records := map[]), dir, keys, now).value;
            && r.events == l.events && key in r.records
            && r.records[key].createdAt == l.events[Latest(l.events, key).value].createdAt
  {
    hide Latest, Recompute, Reflects;
    var empty := l.(records := map[]);
    var n := |keys| - 1;
    assert keys == keys[..n] + [keys[n]];
    var before := Rebuild(empty, dir, keys[..n], now);
    RebuildEffect(empty, dir, keys[..n], now);
    RecomputeEffect(before.value, dir, keys[n], now);
    if key in keys[..n] {
      RebuildDates(l, dir, keys[..n], now, key);
    }
  }

  /** The creation time survives a rebuild exactly when the first event of the key was created when
      the greatest one was. */
  lemma RebuildKeepsCreationTimeWhen(l: Ledger, dir: Directory, keys: seq<Key>, now: int, key: Key)
    requires Inv(l) && key in l.records
    requires key in keys && forall k :: k in keys ==> !Unattributable(l.events, dir, k)
    ensures Rebuild(l.(records := map[]), dir, keys, now).Some?
    ensures var r := Rebuild(l.(records := map[]), dir, keys, now).value;
            key in r.records && First(l.events, key).Some?
            && (r.records[key].createdAt == l.records[key].createdAt
                <==> l.events[First(l.events, key).value].createdAt == l.events[Latest(l.events, key).value].createdAt)
  {
    RebuildFailsExactly(l.(records := map[]), dir, keys, now);
    hide Unattributable;
    RebuildDates(l, dir, keys, now, key);
    SameKeys(l.events, key);
  }

  /** It can happen: after an event at time 1 and one at time 2, the record says 1 and the rebuilt one 2. */
  lemma CreationTimeLostExample(key: Key, marker: nat)
    ensures var dir := Directory(map[], Some(marker));
            var entries := [Entry(Drawn(0), key, Absent, "s", None, dir, 1, 1),
                            Entry(Drawn(1), key, Present, "s", None, dir, 2, 2)];
            var l := Run(entries);
            && key in l.records && l.records[key].createdAt == 1
            && var r := Rebuild(l.(records := map[]), dir, [key], 3);
               r.Some? && key in r.value.records && r.value.records[key].createdAt == 2
  {
    var dir := Directory(map[], Some(marker));
    var one, two := Entry(Drawn(0), key, Absent, "s", None, dir, 1, 1),
      Entry(Drawn(1), key, Present, "s", None, dir, 2, 2);
    var a, b := Event(Drawn(0), key, Absent, "s", None, 1), Event(Drawn(1), key, Present, "s", None, 2);
    var first := Ledger([a], map[key := Record(Absent, "s", marker, 1, 1, 0)]);
    var second := Ledger([a, b], map[key := Record(Present, "s", marker, 1, 2, 1)]);
    TwoEvents(key, a, b);
    assert [one, two][..1] == [one] && [one][..0] == [];
    assert Run([]) == Ledger([], map[]);
    assert Run([one]) == Post(Run([]), one) == first;
    assert Run([one, two]) == Post(first, two) == second;
    assert [key][..0] == [];
    assert Rebuild(second.(records := map[]), dir, [key], 3) == Recompute(second.(records := map[]), dir, key, 3);
  }

  lemma TwoEvents(key: Key, a: Event, b: Event)
    requires a.key == key && b.key == key && a.createdAt <= b.createdAt && a.token != b.token
    ensures Latest([a], key) == Some(0) && Latest([a, b], key) == Some(1)
    ensures FindToken([], a.token) == None && FindToken([a], b.token) == None
    ensures [] + [a] == [a] && [a] + [b] == [a, b]
  {
    assert [a][..0] == [] && [a, b][..1] == [a];
  }

  // ----- the tables, updated in place -----

  predicate Before(a: Key, b: Key) {
    a.day < b.day || (a.day == b.day && (a.course < b.course || (a.course == b.course && a.student < b.student)))
  }

  /** The filters of a scoped recomputation. */
  datatype Scope = Scope(student: Option<nat>, course: Option<nat>, from: Option<nat>, to: Option<nat>)

  predicate InScope(s: Scope, k: Key) {
    && (s.student.Some? ==> k.student == s.student.value)
    && (s.course.Some? ==> k.course == s.course.value)
    && (s.from.Some? ==> s.from.value <= k.day)
    && (s.to.Some? ==> k.day <= s.to.value)
  }

  function ScopedKeys(events: seq<Event>, s: Scope): set<Key> {
    set e | e in events && InScope(s, e.key) :: e.key
  }

  lemma {:induction false} LeastKeyExists(keys: set<Key>)
    requires keys != {}
    ensures exists k :: k in keys && forall m :: m in keys && m != k ==> Before(k, m)
    decreases |keys|
  {
    var e :| e in keys;
    var rest := keys - {e};
    if rest == {} {
      assert forall m :: m in keys ==> m == e || m in rest;
    } else {
      LeastKeyExists(rest);
      var l :| l in rest && forall m :: m in rest && m != l ==> Before(l, m);
      var least := if Before(e, l) then e else l;
      assert least in keys;
      forall m | m in keys && m != least
        ensures Before(least, m)
      {
        assert m == e || m in rest;
      }
    }
  }

  const EVERYTHING := Scope(None, None, None, None)

  /** The keys a scoped recomputation lists: the first ones of the scope by day, course and student. */
  ghost predicate FirstKeys(events: seq<Event>, scope: Scope, limit: int, keys: seq<Key>) {
    && |keys| == Min(Max(1, limit), |ScopedKeys(events, scope)|)
    && (forall k :: k in keys ==> k in ScopedKeys(events, scope))
    && (forall i, j :: 0 <= i < j < |keys| ==> Before(keys[i], keys[j]))
    && forall k, m :: k in keys && m in ScopedKeys(events, scope) && m !in keys ==> Before(k, m)
  }

  function KeySet(keys: seq<Key>): set<Key> {
    set k | k in keys
  }

  lemma {:induction false} OrderedKeysSize(keys: seq<Key>)
    requires forall i, j :: 0 <= i < j < |keys| ==> Before(keys[i], keys[j])
    ensures |KeySet(keys)| == |keys|
  {
    if keys != [] {
      var n := |keys| - 1;
      OrderedKeysSize(keys[..n]);
      assert keys == keys[..n] + [keys[n]];
      assert KeySet(keys) == KeySet(keys[..n]) + {keys[n]};
    }
  }

  lemma SameSize<T>(a: set<T>, b: set<T>)
    requires a <= b && |a| == |b|
    ensures a == b
  {
    assert |b - a| == |b| - |a|;
  }

  /** Exactly the keys that have an event and pass each filter given are in the scope. */
  lemma ScopeExactly(events: seq<Event>, student: Option<nat>, course: Option<nat>, from: Option<nat>, to: Option<nat>,
                     k: Key)
    ensures k in ScopedKeys(events, Scope(student, course, from, to))
            <==> (exists i :: 0 <= i < |events| && events[i].key == k)
                 && (student == None || student == Some(k.student)) && (course == None || course == Some(k.course))
                 && !(from.Some? && k.day < from.value) && !(to.Some? && to.value < k.day)
  {
  }

  /** A listing goes by day, then by course, then by student. A key of the scope is left out only from a full
      listing, and then comes after all that is listed. */
  lemma ListedInOrder(events: seq<Event>, scope: Scope, limit: int, keys: seq<Key>)
    requires FirstKeys(events, scope, limit, keys)
    ensures forall i, j :: 0 <= i < j < |keys| ==>
              && keys[i].day <= keys[j].day
              && (keys[i].day == keys[j].day ==> keys[i].course <= keys[j].course)
              && (keys[i].day == keys[j].day && keys[i].course == keys[j].course ==> keys[i].student < keys[j].student)
    ensures forall k, m :: k in keys && m in ScopedKeys(events, scope) && m !in keys ==>
              && |keys| == Max(1, limit) && k.day <= m.day
              && (k.day == m.day ==> k.course <= m.course)
              && (k.day == m.day && k.course == m.course ==> k.student < m.student)
    ensures |keys| < limit ==> forall m :: m in ScopedKeys(events, scope) ==> m in keys
  {
    OrderedKeysSize(keys);
    var all := ScopedKeys(events, scope);
    assert KeySet(keys) <= all;
    if |keys| == |all| {
      SameSize(KeySet(keys), all);
    }
    assert forall k :: k in KeySet(keys) <==> k in keys;
  }

  lemma AllKeysListed(events: seq<Event>, limit: int, keys: seq<Key>)
    requires FirstKeys(events, EVERYTHING, limit, keys) && limit >= |ScopedKeys(events, EVERYTHING)|
    ensures forall k :: k in keys <==> Latest(events, k).Some?
  {
    var all := ScopedKeys(events, EVERYTHING);
    OrderedKeysSize(keys);
    assert KeySet(keys) <= all;
    SameSize(KeySet(keys), all);
    forall k
      ensures k in all <==> Latest(events, k).Some?
    {
      LatestIsGreatest(events, k);
      if Latest(events, k).Some? {
        assert events[Latest(events, k).value] in events;
      }
    }
    assert forall k :: k in KeySet(keys) <==> k in keys;
  }

  /** The scoped recomputation, unrestricted and with a limit that reaches all keys, on an emptied
      table: it gives every record its values back, or fails exactly when some key cannot be attributed. */
  lemma ScopeRestoresTheTable(l: Ledger, dir: Directory, limit: int, keys: seq<Key>, now: int)
    requires Inv(l) && limit >= |ScopedKeys(l.events, EVERYTHING)| && FirstKeys(l.events, EVERYTHING, limit, keys)
    ensures var r := Rebuild(l.(records := map[]), dir, keys, now);
            && (r.None? <==> exists k :: Unattributable(l.events, dir, k))
            && (r.Some? ==> SameValues(r.value.records, l.records))
  {
    hide Inv, ScopedKeys, FirstKeys, Rebuild, Latest, Unattributable, SameValues;
    AllKeysListed(l.events, limit, keys);
    RebuildFromNothing(l, dir, keys, now);
  }

  lemma {:induction false} RebuildStops(l: Ledger, dir: Directory, keys: seq<Key>, now: int, k: nat)
    requires k <= |keys| && Rebuild(l, dir, keys[..k], now).None?
    ensures Rebuild(l, dir, keys, now).None?
    decreases |keys|
  {
    hide Recompute;
    if k == |keys| {
      assert keys[..k] == keys;
    } else {
      assert keys[..|keys| - 1][..k] == keys[..k];
      RebuildStops(l, dir, keys[..|keys| - 1], now, k);
    }
  }

  class LedgerTables {
    var events: seq<Event>
    var records: map<Key, Record>

    ghost function State(): Ledger
      reads this
    {
      Ledger(events, records)
    }

    constructor ()
      ensures State() == Ledger([], map[])
    {
      events, records := [], map[];
    }

    method AppendAttendanceEvent(token: Token, key: Key, status: Status, source: string, actor: Option<nat>, now: int)
      returns (id: nat)
      modifies this`events
      ensures State() == Append(old(State()), token, key, status, source, actor, now)
      ensures id < |events| && events[id].token == token
    {
      var existing := FindToken(events, token);
      if existing.Some? {
        return existing.value;
      }
      id := |events|;
      events := events + [Event(token, key, status, if source == "" then DEFAULT_SOURCE else source, actor, now)];
    }

    method FindLatest(key: Key) returns (best: Option<nat>)
      ensures best == Latest(events, key)
    {
      best := None;
      for i := 0 to |events|
        invariant best == Latest(events[..i], key)
      {
        assert events[..i + 1][..i] == events[..i];
        if events[i].key == key && (best.None? || events[best.value].createdAt <= events[i].createdAt) {
          best := Some(i);
        }
      }
      assert events[..|events|] == events;
    }

    method RecomputeAttendanceRecord(dir: Directory, key: Key, now: int) returns (ok: bool)
      modifies this`records
      ensures match Recompute(old(State()), dir, key, now)
              case None => !ok && State() == old(State())
              case Some(l) => ok && State() == l
    {
      var latest := FindLatest(key);
      if latest.None? {
        records := records - {key};
        return true;
      }
      var e := events[latest.value];
      var existing := if key in records then Some(records[key]) else None;
      var marker := Attribution(dir, e, existing);
      if marker.None? {
        return false;
      }
      if existing.None? {
        records := records[key := Record(e.status, e.source, marker.value, e.createdAt, now, latest.value)];
      } else {
        records := records[key := existing.value.(status := e.status, source := e.source, markedBy := marker.value,
                                                 updatedAt := now, fromEvent := latest.value)];
      }
      ok := true;
    }

    method AppendEventAndRecompute(e: Entry) returns (ok: bool)
      modifies this
      ensures State() == Post(old(State()), e)
    {
      ghost var before := State();
      var savedEvents := events;
      var _ := AppendAttendanceEvent(e.token, e.key, e.status, e.source, e.actor, e.now);
      ok := RecomputeAttendanceRecord(e.dir, e.key, e.later);
      if !ok {
        events := savedEvents;  // the transaction is rolled back
      }
    }

    /** The query: the distinct keys of the scope in order, up to the limit. */
    method ListKeys(scope: Scope, limit: int) returns (keys: seq<Key>)
      ensures FirstKeys(events, scope, limit, keys)
    {
      hide ScopedKeys, Before;
      var batch := Max(1, limit);
      var remaining := ScopedKeys(events, scope);
      ghost var all := remaining;
      keys := [];
      while remaining != {} && |keys| < batch
        invariant |keys| <= batch && |remaining| + |keys| == |all|
        invariant remaining <= all && forall k :: k in all <==> k in remaining || k in keys
        invariant forall k, m :: k in keys && m in remaining ==> Before(k, m)
        invariant forall i, j :: 0 <= i < j < |keys| ==> Before(keys[i], keys[j])
        decreases |remaining|
      {
        LeastKeyExists(remaining);
        var key :| key in remaining && forall m :: m in remaining && m != key ==> Before(key, m);
        keys := keys + [key];
        remaining := remaining - {key};
      }
    }

    /** Recomputes the listed keys in order, and stops at the first one nobody can be named for. */
    method RecomputeAttendanceScope(dir: Directory, scope: Scope, limit: int, now: int)
      returns (ok: bool, recomputed: nat, keys: seq<Key>)
      modifies this`records
      ensures FirstKeys(events, scope, limit, keys) && recomputed <= |keys|
      ensures Rebuild(old(State()), dir, keys[..recomputed], now) == Some(State())
      ensures if ok then recomputed == |keys| && Rebuild(old(State()), dir, keys, now) == Some(State())
              else recomputed < |keys| && Rebuild(old(State()), dir, keys, now).None?
    {
      hide Latest, Recompute, FirstKeys, Rebuild;
      keys := ListKeys(scope, limit);
      recomputed := 0;
      NoneRebuilt(State(), dir, keys, now);
      while recomputed < |keys|
        invariant recomputed <= |keys| && events == old(events)
        invariant Rebuild(old(State()), dir, keys[..recomputed], now) == Some(State())
      {
        NextRebuilt(old(State()), dir, keys, now, recomputed);
        var one := RecomputeAttendanceRecord(dir, keys[recomputed], now);
        if !one {
          RebuildStops(old(State()), dir, keys, now, recomputed + 1);
          return false, recomputed, keys;
        }
        recomputed := recomputed + 1;
      }
      assert keys[..recomputed] == keys;
      ok := true;
    }
  }

  lemma NoneRebuilt(l: Ledger, dir: Directory, keys: seq<Key>, now: int)
    ensures Rebuild(l, dir, keys[..0], now) == Some(l)
  {
  }

  lemma NextRebuilt(l: Ledger, dir: Directory, keys: seq<Key>, now: int, k: nat)
    requires k < |keys| && Rebuild(l, dir, keys[..k], now).Some?
    ensures Rebuild(l, dir, keys[..k + 1], now) == Recompute(Rebuild(l, dir, keys[..k], now).value, dir, keys[k], now)
  {
    assert keys[..k + 1][..k] == keys[..k];
  }
}
