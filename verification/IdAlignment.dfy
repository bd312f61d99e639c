/** Moving profile documents to the ids of their SQL rows, together with every reference to them.
    E-mails are kept normalised; ids are positive and 0 stands for a missing id. */
module IdAlignment {
  import opened Basics

  datatype Kind = StudentProfile | FacultyProfile

  datatype Profile = Profile(email: string, id: nat)

  /** An auth document with the profile id it carries. */
  datatype AuthRow = AuthRow(email: string, id: nat, profileId: nat)

  /** One profile collection, the scalar and the array fields that refer to it anywhere else, and the
      auth documents. */
  datatype Store = Store(profiles: seq<Profile>, refs: seq<nat>, arrays: seq<seq<nat>>, auth: seq<AuthRow>)

  datatype Outcome = Ok(store: Store) | Conflict

  // ----- lookups -----

  function FindEmail(profiles: seq<Profile>, email: string): (r: Option<nat>)
    ensures r.Some? ==> r.value < |profiles| && profiles[r.value].email == email
    ensures r.None? ==> forall i :: 0 <= i < |profiles| ==> profiles[i].email != email
  {
    if profiles == [] then None
    else
      var r := FindEmail(profiles[1..], email);
      if profiles[0].email == email then Some(0) else if r.Some? then Some(r.value + 1) else None
  }

  function FindId(profiles: seq<Profile>, id: nat): (r: Option<nat>)
    ensures r.Some? ==> r.value < |profiles| && profiles[r.value].id == id
    ensures r.None? ==> forall i :: 0 <= i < |profiles| ==> profiles[i].id != id
  {
    if profiles == [] then None
    else
      var r := FindId(profiles[1..], id);
      if profiles[0].id == id then Some(0) else if r.Some? then Some(r.value + 1) else None
  }

  // ----- one alignment -----

  function Renamed(v: nat, oldId: nat, newId: nat): nat {
    if v == oldId then newId else v
  }

  function RenamedAll(s: seq<nat>, oldId: nat, newId: nat): seq<nat> {
    seq(|s|, i requires 0 <= i < |s| => Renamed(s[i], oldId, newId))
  }

  function RenamedAuth(r: AuthRow, oldId: nat, newId: nat): AuthRow {
    r.(profileId := Renamed(r.profileId, oldId, newId))
  }

  /** Array fields exist for students only. */
  function MigrateReferences(kind: Kind, s: Store, oldId: nat, newId: nat): Store {
    if oldId == 0 || newId == 0 || oldId == newId then s
    else
      Store(s.profiles, RenamedAll(s.refs, oldId, newId),
            if kind == StudentProfile
            then seq(|s.arrays|, i requires 0 <= i < |s.arrays| => RenamedAll(s.arrays[i], oldId, newId))
            else s.arrays,
            seq(|s.auth|, i requires 0 <= i < |s.auth| => RenamedAuth(s.auth[i], oldId, newId)))
  }

  function PointAt(r: AuthRow, email: string, target: nat): AuthRow {
    if r.email == email then r.(profileId := target) else r
  }

  function PointAuth(auth: seq<AuthRow>, email: string, target: nat): seq<AuthRow> {
    seq(|auth|, i requires 0 <= i < |auth| => PointAt(auth[i], email, target))
  }

  /** Brings the profile found for the e-mail to the target id, references first. */
  function AlignProfile(kind: Kind, s: Store, email: string, target: nat): Outcome {
    var byEmail := FindEmail(s.profiles, email);
    var found := if byEmail.Some? then byEmail else FindId(s.profiles, target);
    if found.None? || s.profiles[found.value].id == target then Ok(s)
    else
      var current := s.profiles[found.value].id;
      var holder := FindId(s.profiles, target);
      if holder.Some? && s.profiles[holder.value].email != email then Conflict
      else
        var moved := MigrateReferences(kind, s, current, target);
        var row := FindId(s.profiles, current).value;
        Ok(moved.(profiles := if holder.Some? then s.profiles[..row] + s.profiles[row + 1..]
                              else s.profiles[row := s.profiles[row].(id := target)]))
  }

  /** One SQL row of the sweep, without a user document at hand. */
  function Align(kind: Kind, s: Store, email: string, target: nat): Outcome {
    match AlignProfile(kind, s, email, target)
    case Conflict => Conflict
    case Ok(t) => Ok(t.(auth := PointAuth(t.auth, email, target)))
  }

  /** The sweep over all SQL rows; the first conflict ends it. */
  function Sweep(kind: Kind, s: Store, sql: seq<Profile>): Outcome {
    if sql == [] then Ok(s)
    else
      match Sweep(kind, s, sql[..|sql| - 1])
      case Conflict => Conflict
      case Ok(t) => Align(kind, t, sql[|sql| - 1].email, sql[|sql| - 1].id)
  }

  // ----- what the collections guarantee -----

  ghost predicate UniqueIds(profiles: seq<Profile>) {
    forall i, j :: 0 <= i < j < |profiles| ==> profiles[i].id != profiles[j].id
  }

  ghost predicate UniqueEmails(profiles: seq<Profile>) {
    forall i, j :: 0 <= i < j < |profiles| ==> profiles[i].email != profiles[j].email
  }

  ghost predicate Proper(profiles: seq<Profile>) {
    UniqueIds(profiles) && UniqueEmails(profiles) && forall i :: 0 <= i < |profiles| ==> profiles[i].id > 0
  }

  /** Whose profile an id names. */
  function Owner(profiles: seq<Profile>, id: nat): Option<string> {
    var i := FindId(profiles, id);
    if i.Some? then Some(profiles[i.value].email) else None
  }

  /** The id of an e-mail's profile. */
  function IdOf(profiles: seq<Profile>, email: string): Option<nat> {
    var i := FindEmail(profiles, email);
    if i.Some? then Some(profiles[i.value].id) else None
  }

  lemma OwnerIs(profiles: seq<Profile>, i: nat)
    requires UniqueIds(profiles) && i < |profiles|
    ensures FindId(profiles, profiles[i].id) == Some(i)
    ensures Owner(profiles, profiles[i].id) == Some(profiles[i].email)
  {
  }

  // ----- one alignment keeps every reference on its profile -----

  /** Either nothing moves, or the e-mail's own profile moves to an id nobody holds. The branch that
      deletes a document is never taken while e-mails are unique. */
  lemma AlignMoves(kind: Kind, s: Store, email: string, target: nat)
    requires Proper(s.profiles) && target > 0
    ensures var at := FindEmail(s.profiles, email);
            match AlignProfile(kind, s, email, target)
            case Conflict => at.Some? && Owner(s.profiles, target).Some? && s.profiles[at.value].id != target
            case Ok(t) =>
              if at.None? || s.profiles[at.value].id == target then t == s
              else Owner(s.profiles, target).None?
                   && t == MigrateReferences(kind, s, s.profiles[at.value].id, target).(
                             profiles := s.profiles[at.value := Profile(email, target)])
  {
    var at := FindEmail(s.profiles, email);
    if at.Some? {
      OwnerIs(s.profiles, at.value);
      var holder := FindId(s.profiles, target);
      if holder.Some? && s.profiles[at.value].id != target {
        assert s.profiles[holder.value].email != email;
      }
    }
  }

  lemma MovedProfiles(profiles: seq<Profile>, at: nat, target: nat)
    requires Proper(profiles) && at < |profiles| && target > 0 && Owner(profiles, target).None?
    ensures Proper(profiles[at := Profile(profiles[at].email, target)])
  {
  }

  /** Renaming an id together with the profile that holds it changes nobody's owner, except for
      values equal to the new id, which named nobody before. */
  lemma OwnerFollows(profiles: seq<Profile>, at: nat, target: nat, v: nat)
    requires Proper(profiles) && at < |profiles| && target > 0 && Owner(profiles, target).None?
    ensures var moved := profiles[at := Profile(profiles[at].email, target)];
            && (v != target ==> Owner(moved, Renamed(v, profiles[at].id, target)) == Owner(profiles, v))
            && Owner(moved, target) == Some(profiles[at].email)
  {
    var moved := profiles[at := Profile(profiles[at].email, target)];
    MovedProfiles(profiles, at, target);
    OwnerIs(moved, at);
    OwnerIs(profiles, at);
    if v != target && v != profiles[at].id {
      var i, j := FindId(profiles, v), FindId(moved, v);
      if i.Some? {
        assert moved[i.value] == profiles[i.value];
        OwnerIs(moved, i.value);
      }
    }
  }

  /** The reference names the same person's profile before and after; a missing one stays missing. */
  ghost predicate SameOwner(before: seq<Profile>, v: nat, after: seq<Profile>, w: nat) {
    Owner(after, w) == Owner(before, v) && (w == 0 <==> v == 0)
  }

  /** No reference names the id that is about to be given out, unless somebody holds it already. */
  ghost predicate NoDanglingUse(kind: Kind, s: Store, target: nat) {
    Owner(s.profiles, target).None? ==>
      && (forall i :: 0 <= i < |s.refs| ==> s.refs[i] != target)
      && (kind == StudentProfile ==>
            forall i, j :: 0 <= i < |s.arrays| && 0 <= j < |s.arrays[i]| ==> s.arrays[i][j] != target)
  }

  ghost predicate RefsFollow(kind: Kind, s: Store, t: Store) {
    && |t.refs| == |s.refs| && |t.arrays| == |s.arrays|
    && (forall i :: 0 <= i < |s.refs| ==> SameOwner(s.profiles, s.refs[i], t.profiles, t.refs[i]))
    && (kind == StudentProfile ==>
          forall i :: 0 <= i < |s.arrays| ==>
            && |t.arrays[i]| == |s.arrays[i]|
            && forall j :: 0 <= j < |s.arrays[i]| ==> SameOwner(s.profiles, s.arrays[i][j], t.profiles, t.arrays[i][j]))
  }

  ghost predicate SameEmails(a: seq<Profile>, b: seq<Profile>) {
    |a| == |b| && forall i :: 0 <= i < |a| ==> a[i].email == b[i].email
  }

  lemma FollowItself(kind: Kind, s: Store)
    ensures RefsFollow(kind, s, s)
  {
  }

  /** On normal return the e-mail's profile has its SQL id, ids and e-mails stay unique, and no other
      profile changes. */
  lemma AlignShape(kind: Kind, s: Store, email: string, target: nat)
    requires Proper(s.profiles) && target > 0
    ensures var r := Align(kind, s, email, target);
            r.Ok? ==>
              && Proper(r.store.profiles) && SameEmails(s.profiles, r.store.profiles)
              && (IdOf(s.profiles, email).Some? ==> IdOf(r.store.profiles, email) == Some(target))
              && (forall i :: 0 <= i < |s.profiles| && s.profiles[i].email != email ==>
                  r.store.profiles[i] == s.profiles[i])
              && |r.store.auth| == |s.auth|
              && forall i :: 0 <= i < |s.auth| ==> r.store.auth[i].email == s.auth[i].email
  {
    AlignMoves(kind, s, email, target);
    var at := FindEmail(s.profiles, email);
    var r := Align(kind, s, email, target);
    if r.Ok? && at.Some? && s.profiles[at.value].id != target {
      MovedProfiles(s.profiles, at.value, target);
    }
  }

  /** Moreover every reference still names the same person, and the auth document of the e-mail is
      pointed at the SQL id. */
  lemma AlignIsFaithful(kind: Kind, s: Store, email: string, target: nat)
    requires Proper(s.profiles) && target > 0 && NoDanglingUse(kind, s, target)
    ensures var r := Align(kind, s, email, target);
            r.Ok? ==>
              && RefsFollow(kind, s, r.store)
              && |r.store.auth| == |s.auth|
              && (forall i :: 0 <= i < |s.auth| && s.auth[i].email == email ==> r.store.auth[i].profileId == target)
              && (forall i :: 0 <= i < |s.auth| && s.auth[i].email != email && s.auth[i].profileId != target ==>
                                SameOwner(s.profiles, s.auth[i].profileId, r.store.profiles, r.store.auth[i].profileId))
  {
    AlignMoves(kind, s, email, target);
    var at := FindEmail(s.profiles, email);
    var r := Align(kind, s, email, target);
    if r.Ok? && at.Some? && s.profiles[at.value].id != target {
      MoveFollows(kind, s, at.value, target);
    } else {
      FollowItself(kind, s);
    }
  }

  /** The references keep naming the same people exactly when no move takes place or no reference names
      the id given out. */
  lemma FollowsExactly(kind: Kind, s: Store, email: string, target: nat)
    requires Proper(s.profiles) && target > 0
    ensures var r := Align(kind, s, email, target);
            var moves := IdOf(s.profiles, email).Some? && IdOf(s.profiles, email) != Some(target);
            r.Ok? ==> (RefsFollow(kind, s, r.store) <==> !moves || NoDanglingUse(kind, s, target))
  {
    AlignMoves(kind, s, email, target);
    var at := FindEmail(s.profiles, email);
    var r := Align(kind, s, email, target);
    if r.Ok? && at.Some? && s.profiles[at.value].id != target {
      if NoDanglingUse(kind, s, target) {
        MoveFollows(kind, s, at.value, target);
      } else {
        OwnerFollows(s.profiles, at.value, target, target);
        DanglingIsAdopted(kind, s, r.store, target);
      }
    } else {
      FollowItself(kind, s);
    }
  }

  /** A reference that named nobody comes to name whoever is given the id. */
  lemma DanglingIsAdopted(kind: Kind, s: Store, t: Store, target: nat)
    requires !NoDanglingUse(kind, s, target) && Owner(t.profiles, target).Some?
    requires |t.refs| == |s.refs| && |t.arrays| == |s.arrays|
    requires forall i :: 0 <= i < |s.refs| && s.refs[i] == target ==> t.refs[i] == target
    requires kind == StudentProfile ==> forall i :: 0 <= i < |s.arrays| ==> |t.arrays[i]| == |s.arrays[i]|
    requires kind == StudentProfile ==>
               forall i, j :: 0 <= i < |s.arrays| && 0 <= j < |s.arrays[i]| && s.arrays[i][j] == target ==>
                                t.arrays[i][j] == target
    ensures !RefsFollow(kind, s, t)
  {
    if i :| 0 <= i < |s.refs| && s.refs[i] == target {
      assert !SameOwner(s.profiles, s.refs[i], t.profiles, t.refs[i]);
    } else {
      var i, j :| 0 <= i < |s.arrays| && 0 <= j < |s.arrays[i]| && s.arrays[i][j] == target;
      assert !SameOwner(s.profiles, s.arrays[i][j], t.profiles, t.arrays[i][j]);
    }
  }

  lemma MoveFollows(kind: Kind, s: Store, at: nat, target: nat)
    requires Proper(s.profiles) && target > 0 && NoDanglingUse(kind, s, target)
    requires at < |s.profiles| && s.profiles[at].id != target && Owner(s.profiles, target).None?
    ensures var t := MigrateReferences(kind, s, s.profiles[at].id, target).(
                       profiles := s.profiles[at := Profile(s.profiles[at].email, target)]);
            && RefsFollow(kind, s, t)
            && |t.auth| == |s.auth|
            && (forall i :: 0 <= i < |s.auth| && s.auth[i].profileId != target ==>
                              SameOwner(s.profiles, s.auth[i].profileId, t.profiles, t.auth[i].profileId))
  {
    forall v: nat | v != target
      ensures SameOwner(s.profiles, v, s.profiles[at := Profile(s.profiles[at].email, target)],
                        Renamed(v, s.profiles[at].id, target))
    {
      OwnerFollows(s.profiles, at, target, v);
    }
  }

  // ----- the sweep -----

  ghost predicate ProperSql(sql: seq<Profile>) {
    Proper(sql) && forall j :: 0 <= j < |sql| ==> sql[j].email != ""
  }

  /** Every reference is missing or names somebody. */
  ghost predicate Resolved(kind: Kind, s: Store) {
    && (forall i :: 0 <= i < |s.refs| ==> s.refs[i] == 0 || Owner(s.profiles, s.refs[i]).Some?)
    && (kind == StudentProfile ==>
          forall i, j :: 0 <= i < |s.arrays| && 0 <= j < |s.arrays[i]| ==>
            s.arrays[i][j] == 0 || Owner(s.profiles, s.arrays[i][j]).Some?)
  }

  lemma ResolvedIsSafe(kind: Kind, s: Store, target: nat)
    requires Resolved(kind, s) && target > 0
    ensures NoDanglingUse(kind, s, target)
  {
  }

  lemma FollowedStaysResolved(kind: Kind, s: Store, t: Store)
    requires Resolved(kind, s) && RefsFollow(kind, s, t)
    ensures Resolved(kind, t)
  {
    forall i, j | kind == StudentProfile && 0 <= i < |t.arrays| && 0 <= j < |t.arrays[i]|
      ensures t.arrays[i][j] == 0 || Owner(t.profiles, t.arrays[i][j]).Some?
    {
      assert SameOwner(s.profiles, s.arrays[i][j], t.profiles, t.arrays[i][j]);
    }
    forall i | 0 <= i < |t.refs|
      ensures t.refs[i] == 0 || Owner(t.profiles, t.refs[i]).Some?
    {
      assert SameOwner(s.profiles, s.refs[i], t.profiles, t.refs[i]);
    }
  }

  lemma FollowTransitive(kind: Kind, s: Store, t: Store, u: Store)
    requires RefsFollow(kind, s, t) && RefsFollow(kind, t, u)
    ensures RefsFollow(kind, s, u)
  {
    forall i | 0 <= i < |s.refs|
      ensures SameOwner(s.profiles, s.refs[i], u.profiles, u.refs[i])
    {
      assert SameOwner(t.profiles, t.refs[i], u.profiles, u.refs[i]);
    }
    if kind == StudentProfile {
      forall i, j | 0 <= i < |s.arrays| && 0 <= j < |s.arrays[i]|
        ensures SameOwner(s.profiles, s.arrays[i][j], u.profiles, u.arrays[i][j])
      {
        assert SameOwner(s.profiles, s.arrays[i][j], t.profiles, t.arrays[i][j]);
        assert SameOwner(t.profiles, t.arrays[i][j], u.profiles, u.arrays[i][j]);
      }
    }
  }

  /** Every SQL row has been dealt with: its profile, if there is one, carries its id. */
  ghost predicate Aligned(profiles: seq<Profile>, sql: seq<Profile>) {
    forall j :: 0 <= j < |sql| && IdOf(profiles, sql[j].email).Some? ==> IdOf(profiles, sql[j].email) == Some(sql[j].id)
  }

  ghost predicate InSql(sql: seq<Profile>, email: string) {
    exists j :: 0 <= j < |sql| && sql[j].email == email
  }

  ghost predicate OthersKept(before: seq<Profile>, after: seq<Profile>, sql: seq<Profile>) {
    SameEmails(before, after)
    && forall i :: 0 <= i < |before| && !InSql(sql, before[i].email) ==> after[i] == before[i]
  }

  lemma SqlPrefix(sql: seq<Profile>, n: nat)
    requires ProperSql(sql) && n < |sql|
    ensures ProperSql(sql[..n]) && !InSql(sql[..n], sql[n].email)
    ensures forall e :: InSql(sql, e) && n == |sql| - 1 ==> InSql(sql[..n], e) || e == sql[n].email
    ensures forall e :: InSql(sql[..n], e) ==> InSql(sql, e)
  {
    forall e | InSql(sql[..n], e)
      ensures InSql(sql, e)
    {
      var j :| 0 <= j < n && sql[..n][j].email == e;
      assert sql[j].email == e;
    }
    forall e | InSql(sql, e) && n == |sql| - 1
      ensures InSql(sql[..n], e) || e == sql[n].email
    {
      var j :| 0 <= j < |sql| && sql[j].email == e;
      assert j < n ==> sql[..n][j].email == e;
    }
  }

  /** The sweep on the profiles: earlier alignments survive later ones. */
  lemma {:induction false} SweepAligns(kind: Kind, s: Store, sql: seq<Profile>)
    requires Proper(s.profiles) && ProperSql(sql)
    ensures var r := Sweep(kind, s, sql);
            r.Ok? ==> Proper(r.store.profiles) && OthersKept(s.profiles, r.store.profiles, sql)
                      && Aligned(r.store.profiles, sql) && |r.store.auth| == |s.auth|
                      && forall i :: 0 <= i < |s.auth| ==> r.store.auth[i].email == s.auth[i].email
    decreases |sql|
  {
    if sql != [] {
      var n := |sql| - 1;
      SqlPrefix(sql, n);
      SweepAligns(kind, s, sql[..n]);
      var before := Sweep(kind, s, sql[..n]);
      if before.Ok? {
        StepAligns(kind, s.profiles, before.store, sql);
      }
    }
  }

  lemma StepAligns(kind: Kind, start: seq<Profile>, s: Store, sql: seq<Profile>)
    requires sql != [] && ProperSql(sql) && Proper(s.profiles)
    requires OthersKept(start, s.profiles, sql[..|sql| - 1]) && Aligned(s.profiles, sql[..|sql| - 1])
    ensures var r := Align(kind, s, sql[|sql| - 1].email, sql[|sql| - 1].id);
            r.Ok? ==>
              && Proper(r.store.profiles) && OthersKept(start, r.store.profiles, sql) && Aligned(r.store.profiles, sql)
              && |r.store.auth| == |s.auth|
              && forall i :: 0 <= i < |s.auth| ==> r.store.auth[i].email == s.auth[i].email
  {
    var n := |sql| - 1;
    AlignShape(kind, s, sql[n].email, sql[n].id);
    var r := Align(kind, s, sql[n].email, sql[n].id);
    hide Align, Proper;
    if r.Ok? {
      StepKeepsOthers(start, s.profiles, r.store.profiles, sql);
      StepKeepsAligned(s.profiles, r.store.profiles, sql);
    }
  }

  lemma StepKeepsOthers(start: seq<Profile>, before: seq<Profile>, after: seq<Profile>, sql: seq<Profile>)
    requires sql != [] && ProperSql(sql) && OthersKept(start, before, sql[..|sql| - 1]) && SameEmails(before, after)
    requires forall i :: 0 <= i < |before| && before[i].email != sql[|sql| - 1].email ==> after[i] == before[i]
    ensures OthersKept(start, after, sql)
  {
    var n := |sql| - 1;
    SqlPrefix(sql, n);
    forall i | 0 <= i < |start| && !InSql(sql, start[i].email)
      ensures after[i] == start[i]
    {
      assert sql[n].email != start[i].email;
      assert !InSql(sql[..n], start[i].email);
    }
  }

  lemma StepKeepsAligned(before: seq<Profile>, after: seq<Profile>, sql: seq<Profile>)
    requires sql != [] && ProperSql(sql) && Proper(before) && Proper(after) && Aligned(before, sql[..|sql| - 1])
             && SameEmails(before, after)
    requires forall i :: 0 <= i < |before| && before[i].email != sql[|sql| - 1].email ==> after[i] == before[i]
    requires IdOf(before, sql[|sql| - 1].email).Some? ==> IdOf(after, sql[|sql| - 1].email) == Some(sql[|sql| - 1].id)
    ensures Aligned(after, sql)
  {
    var n := |sql| - 1;
    forall j | 0 <= j < |sql| && IdOf(after, sql[j].email).Some?
      ensures IdOf(after, sql[j].email) == Some(sql[j].id)
    {
      if j < n {
        assert sql[..n][j] == sql[j];
        assert sql[j].email != sql[n].email;
      }
    }
  }

  /** At the start, the id of row j is held by somebody who is not the row's own person and whom no
      earlier row moves away: a person outside the SQL rows, or one of a later row. */
  ghost predicate Blocked(profiles: seq<Profile>, sql: seq<Profile>, j: nat)
    requires j < |sql|
  {
    && IdOf(profiles, sql[j].email).Some? && IdOf(profiles, sql[j].email) != Some(sql[j].id)
    && Owner(profiles, sql[j].id).Some? && !InSql(sql[..j], Owner(profiles, sql[j].id).value)
  }

  /** A sweep ends in a conflict exactly when some row is blocked at the start. */
  lemma {:induction false} SweepConflictsExactly(kind: Kind, s: Store, sql: seq<Profile>)
    requires Proper(s.profiles) && ProperSql(sql)
    ensures Sweep(kind, s, sql).Conflict? <==> exists j: nat :: j < |sql| && Blocked(s.profiles, sql, j)
    decreases |sql|
  {
    hide Blocked, Align, Proper;
    if sql != [] {
      var n := |sql| - 1;
      SqlPrefix(sql, n);
      SweepConflictsExactly(kind, s, sql[..n]);
      forall j: nat | j < n
        ensures Blocked(s.profiles, sql[..n], j) <==> Blocked(s.profiles, sql, j)
      {
        BlockedInPrefix(s.profiles, sql, n, j);
      }
      var before := Sweep(kind, s, sql[..n]);
      if before.Ok? {
        SweepAligns(kind, s, sql[..n]);
        LastConflicts(kind, s.profiles, before.store, sql);
      }
    }
  }

  lemma BlockedInPrefix(profiles: seq<Profile>, sql: seq<Profile>, n: nat, j: nat)
    requires j < n <= |sql|
    ensures Blocked(profiles, sql[..n], j) <==> Blocked(profiles, sql, j)
  {
    assert sql[..n][..j] == sql[..j];
  }

  /** The last row conflicts exactly when it was blocked at the start. */
  lemma LastConflicts(kind: Kind, start: seq<Profile>, s: Store, sql: seq<Profile>)
    requires sql != [] && ProperSql(sql) && Proper(start) && Proper(s.profiles)
    requires OthersKept(start, s.profiles, sql[..|sql| - 1]) && Aligned(s.profiles, sql[..|sql| - 1])
    ensures Align(kind, s, sql[|sql| - 1].email, sql[|sql| - 1].id).Conflict? <==> Blocked(start, sql, |sql| - 1)
  {
    var n := |sql| - 1;
    AlignMoves(kind, s, sql[n].email, sql[n].id);
    LastUntouched(start, s.profiles, sql);
    HeldStill(start, s.profiles, sql);
  }

  /** After the earlier rows, the last row's id is held exactly if it was held at the start by somebody
      none of them names: everybody they name holds an id of their own. */
  lemma HeldStill(start: seq<Profile>, now: seq<Profile>, sql: seq<Profile>)
    requires sql != [] && ProperSql(sql) && Proper(start) && Proper(now)
    requires OthersKept(start, now, sql[..|sql| - 1]) && Aligned(now, sql[..|sql| - 1])
    ensures var n := |sql| - 1;
            Owner(now, sql[n].id).Some?
            <==> Owner(start, sql[n].id).Some? && !InSql(sql[..n], Owner(start, sql[n].id).value)
  {
    var n := |sql| - 1;
    var id := sql[n].id;
    forall i | 0 <= i < |now| && now[i].id == id
      ensures !InSql(sql[..n], now[i].email)
    {
      NamedHasOwnId(now, sql, i);
    }
    var i, k := FindId(start, id), FindId(now, id);
    if i.Some? && !InSql(sql[..n], start[i.value].email) {
      assert now[i.value] == start[i.value];
    }
    if k.Some? {
      assert start[k.value] == now[k.value];
      OwnerIs(start, k.value);
    }
  }

  lemma NamedHasOwnId(now: seq<Profile>, sql: seq<Profile>, i: nat)
    requires sql != [] && ProperSql(sql) && Proper(now) && Aligned(now, sql[..|sql| - 1])
    requires i < |now| && now[i].id == sql[|sql| - 1].id
    ensures !InSql(sql[..|sql| - 1], now[i].email)
  {
    var n := |sql| - 1;
    forall j | 0 <= j < n
      ensures sql[..n][j].email != now[i].email
    {
      assert sql[..n][j] == sql[j] && sql[j].id != sql[n].id;
      assert IdOf(now, now[i].email) == Some(now[i].id);
    }
  }

  /** On normal return of the sweep, every reference still names the same person. */
  lemma {:induction false} SweepFollows(kind: Kind, s: Store, sql: seq<Profile>)
    requires Proper(s.profiles) && ProperSql(sql) && Resolved(kind, s)
    ensures var r := Sweep(kind, s, sql);
            r.Ok? ==> RefsFollow(kind, s, r.store) && Resolved(kind, r.store)
    decreases |sql|
  {
    FollowItself(kind, s);
    if sql != [] {
      var n := |sql| - 1;
      SqlPrefix(sql, n);
      SweepFollows(kind, s, sql[..n]);
      SweepAligns(kind, s, sql[..n]);
      var before := Sweep(kind, s, sql[..n]);
      if before.Ok? {
        ResolvedIsSafe(kind, before.store, sql[n].id);
        AlignIsFaithful(kind, before.store, sql[n].email, sql[n].id);
        var r := Sweep(kind, s, sql);
        if r.Ok? {
          FollowTransitive(kind, s, before.store, r.store);
          FollowedStaysResolved(kind, s, r.store);
        }
      }
    }
  }

  // ----- auth documents under the sweep -----

  /** The id of row j is, at the start, held by the profile of a later row. */
  ghost predicate HeldByLater(profiles: seq<Profile>, sql: seq<Profile>, j: nat)
    requires j < |sql|
  {
    exists m :: j < m < |sql| && IdOf(profiles, sql[m].email) == Some(sql[j].id)
  }

  /** What one step does to the auth document of an earlier row. */
  lemma AuthStep(kind: Kind, s: Store, email: string, target: nat, i: nat)
    requires Proper(s.profiles) && target > 0 && i < |s.auth| && s.auth[i].email != email
    ensures var r := Align(kind, s, email, target);
            r.Ok? ==> |r.store.auth| == |s.auth|
                      && r.store.auth[i] == if IdOf(s.profiles, email) == Some(s.auth[i].profileId)
                                            then s.auth[i].(profileId := target) else s.auth[i]
  {
    AlignMoves(kind, s, email, target);
  }

  /** The id is that of a row after j whose profile carries it. */
  ghost predicate Landed(profiles: seq<Profile>, sql: seq<Profile>, j: nat, id: nat) {
    exists m :: j < m < |sql| && IdOf(profiles, sql[m].email) == Some(sql[m].id) && id == sql[m].id
  }

  /** The auth document of row j ends on the id of row j, unless that id was held by the profile of
      a later row: then it is dragged along to the later row's id. */
  lemma {:induction false} SweptAuth(kind: Kind, s: Store, sql: seq<Profile>, j: nat, i: nat)
    requires Proper(s.profiles) && ProperSql(sql) && j < |sql| && i < |s.auth| && s.auth[i].email == sql[j].email
    ensures var r := Sweep(kind, s, sql);
            r.Ok? ==> i < |r.store.auth| && r.store.auth[i].email == sql[j].email
                      && (!HeldByLater(s.profiles, sql, j) ==> r.store.auth[i].profileId == sql[j].id)
                      && (HeldByLater(s.profiles, sql, j) ==>
                            Landed(r.store.profiles, sql, j, r.store.auth[i].profileId))
    decreases |sql|
  {
    var n := |sql| - 1;
    SqlPrefix(sql, n);
    SweepAligns(kind, s, sql[..n]);
    SweepAligns(kind, s, sql);
    var before := Sweep(kind, s, sql[..n]);
    var r := Sweep(kind, s, sql);
    if r.Ok? {
      if j == n {
        assert !HeldByLater(s.profiles, sql, j);
        LastPointed(kind, before.store, sql[n].email, sql[n].id, i);
      } else {
        hide Align, HeldByLater, Landed, OthersKept, Aligned, Proper;
        RowsDiffer(sql, j);
        SweptAuth(kind, s, sql[..n], j, i);
        AuthStep(kind, before.store, sql[n].email, sql[n].id, i);
        AlignShape(kind, before.store, sql[n].email, sql[n].id);
        SweptAuthStep(s, before.store, r.store, sql, j, i);
      }
    }
  }

  /** In the entangled case the auth document ends on the id of the very row whose profile held the id. */
  lemma {:induction false} SweptAuthOnHolder(kind: Kind, s: Store, sql: seq<Profile>, j: nat, m: nat, i: nat)
    requires Proper(s.profiles) && ProperSql(sql) && j < m < |sql| && i < |s.auth| && s.auth[i].email == sql[j].email
    requires IdOf(s.profiles, sql[m].email) == Some(sql[j].id)
    ensures var r := Sweep(kind, s, sql);
            r.Ok? ==>
              i < |r.store.auth| && r.store.auth[i].email == sql[j].email && r.store.auth[i].profileId == sql[m].id
    decreases |sql|
  {
    var n := |sql| - 1;
    SqlPrefix(sql, n);
    SweepAligns(kind, s, sql[..n]);
    var before := Sweep(kind, s, sql[..n]);
    if Sweep(kind, s, sql).Ok? {
      RowsDiffer(sql, j);
      SweepKeepsAuth(kind, s, sql[..n], i);
      AuthStep(kind, before.store, sql[n].email, sql[n].id, i);
      hide Align, Proper;
      if m == n {
        HeldOnlyThere(s.profiles, sql, j);
        SweptAuth(kind, s, sql[..n], j, i);
        LastUntouched(s.profiles, before.store.profiles, sql);
      } else {
        RowsDiffer(sql, m);
        SweptAuthOnHolder(kind, s, sql[..n], j, m, i);
        HolderApart(s.profiles, before.store.profiles, sql, m);
      }
    }
  }

  lemma SweepKeepsAuth(kind: Kind, s: Store, sql: seq<Profile>, i: nat)
    requires Proper(s.profiles) && ProperSql(sql) && i < |s.auth|
    ensures var r := Sweep(kind, s, sql);
            r.Ok? ==> i < |r.store.auth| && r.store.auth[i].email == s.auth[i].email && Proper(r.store.profiles)
  {
    SweepAligns(kind, s, sql);
  }

  lemma HeldOnlyThere(profiles: seq<Profile>, sql: seq<Profile>, j: nat)
    requires Proper(profiles) && ProperSql(sql) && j < |sql| - 1
    requires IdOf(profiles, sql[|sql| - 1].email) == Some(sql[j].id)
    ensures !HeldByLater(profiles, sql[..|sql| - 1], j)
  {
    var n := |sql| - 1;
    forall m | j < m < n
      ensures IdOf(profiles, sql[..n][m].email) != Some(sql[..n][j].id)
    {
      assert sql[..n][m].email == sql[m].email != sql[n].email;
      TwoHolders(profiles, sql[m].email, sql[n].email);
    }
  }

  lemma HolderApart(start: seq<Profile>, before: seq<Profile>, sql: seq<Profile>, m: nat)
    requires ProperSql(sql) && m < |sql| - 1 && Proper(before)
    requires OthersKept(start, before, sql[..|sql| - 1]) && Aligned(before, sql[..|sql| - 1])
    requires IdOf(start, sql[m].email).Some?
    ensures IdOf(before, sql[|sql| - 1].email) != Some(sql[m].id)
  {
    var n := |sql| - 1;
    assert sql[..n][m] == sql[m] && sql[m].email != sql[n].email;
    StillThere(start, before, sql[..n], sql[m].email);
    assert IdOf(before, sql[m].email) == Some(sql[m].id);
    TwoHolders(before, sql[n].email, sql[m].email);
  }

  lemma StillThere(start: seq<Profile>, now: seq<Profile>, sql: seq<Profile>, email: string)
    requires OthersKept(start, now, sql)
    ensures IdOf(start, email).Some? <==> IdOf(now, email).Some?
  {
    var i, k := FindEmail(start, email), FindEmail(now, email);
    if i.Some? {
      assert now[i.value].email == email;
    }
    if k.Some? {
      assert start[k.value].email == email;
    }
  }

  /** The auth document of somebody outside the SQL rows keeps naming the same person's profile. */
  lemma {:induction false} SweptOutsider(kind: Kind, s: Store, sql: seq<Profile>, i: nat)
    requires Proper(s.profiles) && ProperSql(sql) && i < |s.auth| && !InSql(sql, s.auth[i].email)
    requires s.auth[i].profileId == 0 || Owner(s.profiles, s.auth[i].profileId).Some?
    ensures var r := Sweep(kind, s, sql);
            r.Ok? ==> i < |r.store.auth| && r.store.auth[i].email == s.auth[i].email
                      && SameOwner(s.profiles, s.auth[i].profileId, r.store.profiles, r.store.auth[i].profileId)
    decreases |sql|
  {
    if sql != [] {
      var n := |sql| - 1;
      SqlPrefix(sql, n);
      forall j | 0 <= j < n
        ensures sql[..n][j].email != s.auth[i].email
      {
        assert sql[..n][j] == sql[j];
      }
      SweptOutsider(kind, s, sql[..n], i);
      SweepKeepsAuth(kind, s, sql[..n], i);
      SweepKeepsAuth(kind, s, sql, i);
      var before := Sweep(kind, s, sql[..n]);
      assert sql[n].email != s.auth[i].email && sql[n].id > 0;
      if Sweep(kind, s, sql).Ok? {
        OutsiderStep(kind, before.store, sql[n].email, sql[n].id, i);
      }
    }
  }

  lemma OutsiderStep(kind: Kind, s: Store, email: string, target: nat, i: nat)
    requires Proper(s.profiles) && target > 0 && i < |s.auth| && s.auth[i].email != email
    requires s.auth[i].profileId == 0 || Owner(s.profiles, s.auth[i].profileId).Some?
    ensures var r := Align(kind, s, email, target);
            r.Ok? ==> i < |r.store.auth|
                      && SameOwner(s.profiles, s.auth[i].profileId, r.store.profiles, r.store.auth[i].profileId)
  {
    AlignMoves(kind, s, email, target);
    var at := FindEmail(s.profiles, email);
    if Align(kind, s, email, target).Ok? && at.Some? && s.profiles[at.value].id != target {
      OwnerFollows(s.profiles, at.value, target, s.auth[i].profileId);
    }
  }

  lemma RowsDiffer(sql: seq<Profile>, j: nat)
    requires ProperSql(sql) && j < |sql| - 1
    ensures sql[j].email != sql[|sql| - 1].email && sql[|sql| - 1].id > 0 && sql[..|sql| - 1][j] == sql[j]
  {
  }

  lemma LastPointed(kind: Kind, s: Store, email: string, target: nat, i: nat)
    requires Proper(s.profiles) && target > 0 && i < |s.auth| && s.auth[i].email == email
    ensures var r := Align(kind, s, email, target);
            r.Ok? ==> i < |r.store.auth| && r.store.auth[i].profileId == target
  {
    AlignMoves(kind, s, email, target);
  }

  lemma SweptAuthStep(s: Store, before: Store, after: Store, sql: seq<Profile>, j: nat, i: nat)
    requires Proper(s.profiles) && ProperSql(sql) && j < |sql| - 1
    requires Proper(before.profiles) && OthersKept(s.profiles, before.profiles, sql[..|sql| - 1])
    requires Proper(after.profiles) && SameEmails(before.profiles, after.profiles) && Aligned(after.profiles, sql)
    requires i < |before.auth| == |after.auth|
    requires after.auth[i].profileId == if IdOf(before.profiles, sql[|sql| - 1].email) == Some(before.auth[i].profileId)
                                        then sql[|sql| - 1].id else before.auth[i].profileId
    requires !HeldByLater(s.profiles, sql[..|sql| - 1], j) ==> before.auth[i].profileId == sql[j].id
    requires HeldByLater(s.profiles, sql[..|sql| - 1], j) ==>
             Landed(before.profiles, sql[..|sql| - 1], j, before.auth[i].profileId)
    ensures !HeldByLater(s.profiles, sql, j) ==> after.auth[i].profileId == sql[j].id
    ensures HeldByLater(s.profiles, sql, j) ==> Landed(after.profiles, sql, j, after.auth[i].profileId)
  {
    hide Proper, OthersKept, HeldByLater, Landed;
    var n := |sql| - 1;
    LastUntouched(s.profiles, before.profiles, sql);
    HeldSplit(s.profiles, sql, j);
    if HeldByLater(s.profiles, sql[..n], j) {
      LandedStays(before.profiles, after.profiles, sql, j, before.auth[i].profileId);
    } else if IdOf(s.profiles, sql[n].email) == Some(sql[j].id) {
      LandsLast(before.profiles, after.profiles, sql, j);
    }
  }

  lemma LandsLast(before: seq<Profile>, after: seq<Profile>, sql: seq<Profile>, j: nat)
    requires j < |sql| - 1 && Proper(before) && SameEmails(before, after) && Aligned(after, sql)
    requires IdOf(before, sql[|sql| - 1].email).Some?
    ensures Landed(after, sql, j, sql[|sql| - 1].id)
  {
    assert IdOf(after, sql[|sql| - 1].email) == Some(sql[|sql| - 1].id);
  }

  lemma LandedStays(before: seq<Profile>, after: seq<Profile>, sql: seq<Profile>, j: nat, id: nat)
    requires j < |sql| - 1 && ProperSql(sql) && Proper(before) && SameEmails(before, after) && Aligned(after, sql)
    requires Landed(before, sql[..|sql| - 1], j, id)
    ensures IdOf(before, sql[|sql| - 1].email) != Some(id)
    ensures Landed(after, sql, j, id)
  {
    var n := |sql| - 1;
    var m :| j < m < n && IdOf(before, sql[..n][m].email) == Some(sql[..n][m].id) && id == sql[..n][m].id;
    assert sql[..n][m] == sql[m];
    assert sql[m].email != sql[n].email;
    TwoHolders(before, sql[n].email, sql[m].email);
    assert IdOf(after, sql[m].email) == Some(sql[m].id);
  }

  lemma HeldSplit(profiles: seq<Profile>, sql: seq<Profile>, j: nat)
    requires j < |sql| - 1
    ensures HeldByLater(profiles, sql, j)
            <==> HeldByLater(profiles, sql[..|sql| - 1], j) || IdOf(profiles, sql[|sql| - 1].email) == Some(sql[j].id)
  {
    hide IdOf;
    var n := |sql| - 1;
    if HeldByLater(profiles, sql, j) {
      var m :| j < m < |sql| && IdOf(profiles, sql[m].email) == Some(sql[j].id);
      assert m < n ==> sql[..n][m] == sql[m];
    }
    if HeldByLater(profiles, sql[..n], j) {
      var m :| j < m < n && IdOf(profiles, sql[..n][m].email) == Some(sql[..n][j].id);
      assert sql[..n][m] == sql[m];
      assert IdOf(profiles, sql[m].email) == Some(sql[j].id);
    }
  }

  lemma LastUntouched(start: seq<Profile>, now: seq<Profile>, sql: seq<Profile>)
    requires sql != [] && ProperSql(sql) && Proper(start) && OthersKept(start, now, sql[..|sql| - 1])
    ensures IdOf(now, sql[|sql| - 1].email) == IdOf(start, sql[|sql| - 1].email)
  {
    var n := |sql| - 1;
    SqlPrefix(sql, n);
  }

  lemma TwoHolders(profiles: seq<Profile>, a: string, b: string)
    requires Proper(profiles) && a != b && IdOf(profiles, b).Some?
    ensures IdOf(profiles, a) != IdOf(profiles, b)
  {
  }

  /** Nothing is left to do: profiles and auth documents agree with the SQL rows. */
  ghost predicate Settled(s: Store, sql: seq<Profile>) {
    && Aligned(s.profiles, sql)
    && forall i, j :: 0 <= i < |s.auth| && 0 <= j < |sql| && s.auth[i].email == sql[j].email ==>
      s.auth[i].profileId == sql[j].id
  }

  lemma AlignedStays(kind: Kind, s: Store, sql: seq<Profile>, j: nat)
    requires Proper(s.profiles) && ProperSql(sql) && Aligned(s.profiles, sql) && j < |sql|
    ensures AlignProfile(kind, s, sql[j].email, sql[j].id) == Ok(s)
  {
  }

  lemma {:induction false} SweepAgain(kind: Kind, s: Store, sql: seq<Profile>, k: nat)
    requires Proper(s.profiles) && ProperSql(sql) && Aligned(s.profiles, sql) && k <= |sql|
    ensures var r := Sweep(kind, s, sql[..k]);
            r.Ok? && r.store.profiles == s.profiles && r.store.refs == s.refs && r.store.arrays == s.arrays
            && (Settled(s, sql) ==> r.store == s)
  {
    if k > 0 {
      assert sql[..k][..k - 1] == sql[..k - 1];
      SweepAgain(kind, s, sql, k - 1);
      var before := Sweep(kind, s, sql[..k - 1]).store;
      AlignedStays(kind, before, sql, k - 1);
      if Settled(s, sql) {
        assert PointAuth(s.auth, sql[k - 1].email, sql[k - 1].id) == s.auth;
      }
    }
  }

  /** Some auth document belongs to a row whose id the profile of a later row holds at the start. */
  ghost predicate Entangled(s: Store, sql: seq<Profile>) {
    exists i, j :: 0 <= i < |s.auth| && 0 <= j < |sql| && s.auth[i].email == sql[j].email
      && HeldByLater(s.profiles, sql, j)
  }

  /** The sweep ends with nothing left to do, and running it again changes nothing, exactly when no
      auth document is entangled; profiles and references never change the second time. */
  lemma SweepIsIdempotent(kind: Kind, s: Store, sql: seq<Profile>)
    requires Proper(s.profiles) && ProperSql(sql) && forall j: nat :: j < |sql| ==> !Blocked(s.profiles, sql, j)
    ensures Sweep(kind, s, sql).Ok?
    ensures var t := Sweep(kind, s, sql).store;
            var again := Sweep(kind, t, sql);
            && again.Ok? && again.store.profiles == t.profiles && again.store.refs == t.refs
              && again.store.arrays == t.arrays
            && (Settled(t, sql) <==> !Entangled(s, sql))
            && (again == Ok(t) <==> !Entangled(s, sql))
  {
    SweepConflictsExactly(kind, s, sql);
    hide Blocked;
    var t := Sweep(kind, s, sql).store;
    SweepAligns(kind, s, sql);
    SweepAgain(kind, t, sql, |sql|);
    assert sql[..|sql|] == sql;
    if Entangled(s, sql) {
      var i, j :| 0 <= i < |s.auth| && 0 <= j < |sql| && s.auth[i].email == sql[j].email
        && HeldByLater(s.profiles, sql, j);
      SweptAuth(kind, s, sql, j, i);
      assert t.auth[i].profileId != sql[j].id;
      NotHeldWhenAligned(t.profiles, sql, j);
      SweptAuth(kind, t, sql, j, i);
    } else {
      forall i, j | 0 <= i < |t.auth| && 0 <= j < |sql| && t.auth[i].email == sql[j].email
        ensures t.auth[i].profileId == sql[j].id
      {
        SweptAuth(kind, s, sql, j, i);
      }
    }
  }

  lemma NotHeldWhenAligned(profiles: seq<Profile>, sql: seq<Profile>, j: nat)
    requires ProperSql(sql) && Aligned(profiles, sql) && j < |sql|
    ensures !HeldByLater(profiles, sql, j)
  {
  }

  /** It can happen: two people whose ids are exchanged block each other, in either order. */
  lemma ExchangedIdsConflict(kind: Kind, a: string, b: string, i: nat, k: nat)
    requires a != b && a != "" && b != "" && i != k && i > 0 && k > 0
    ensures var s := Store([Profile(a, k), Profile(b, i)], [], [], []);
            && Sweep(kind, s, [Profile(a, i), Profile(b, k)]) == Conflict
            && Sweep(kind, s, [Profile(b, k), Profile(a, i)]) == Conflict
  {
    var s := Store([Profile(a, k), Profile(b, i)], [], [], []);
    OwnerIs(s.profiles, 0);
    OwnerIs(s.profiles, 1);
    assert IdOf(s.profiles, a) == Some(k) && IdOf(s.profiles, b) == Some(i);
    SweepConflictsExactly(kind, s, [Profile(a, i), Profile(b, k)]);
    SweepConflictsExactly(kind, s, [Profile(b, k), Profile(a, i)]);
    assert Blocked(s.profiles, [Profile(a, i), Profile(b, k)], 0);
    assert Blocked(s.profiles, [Profile(b, k), Profile(a, i)], 0);
  }

  /** It can happen: the first SQL student has no profile yet, and the second one's profile still
      holds the first one's id. */
  lemma EntangledExample()
    ensures var s := Store([Profile("b", 1)], [], [], [AuthRow("a", 7, 0)]);
            var sql := [Profile("a", 1), Profile("b", 2)];
            Sweep(StudentProfile, s, sql) == Ok(Store([Profile("b", 2)], [], [], [AuthRow("a", 7, 2)]))
  {
    var s := Store([Profile("b", 1)], [], [], [AuthRow("a", 7, 0)]);
    var t := Store([Profile("b", 1)], [], [], [AuthRow("a", 7, 1)]);
    var sql := [Profile("a", 1), Profile("b", 2)];
    assert sql[..1] == [Profile("a", 1)] && sql[..1][..0] == [];
    FirstStep(s, t);
    assert Sweep(StudentProfile, s, sql[..1][..0]) == Ok(s);
    assert Sweep(StudentProfile, s, sql[..1]) == Align(StudentProfile, s, "a", 1) == Ok(t);
    SecondStep(t);
  }

  lemma FirstStep(s: Store, t: Store)
    requires s == Store([Profile("b", 1)], [], [], [AuthRow("a", 7, 0)]) && t == s.(auth := [AuthRow("a", 7, 1)])
    ensures Align(StudentProfile, s, "a", 1) == Ok(t)
  {
    assert FindEmail(s.profiles, "a") == None && FindId(s.profiles, 1) == Some(0);
    assert PointAuth(s.auth, "a", 1) == t.auth;
  }

  lemma SecondStep(t: Store)
    requires t == Store([Profile("b", 1)], [], [], [AuthRow("a", 7, 1)])
    ensures Align(StudentProfile, t, "b", 2) == Ok(Store([Profile("b", 2)], [], [], [AuthRow("a", 7, 2)]))
  {
    assert FindEmail(t.profiles, "b") == Some(0) && FindId(t.profiles, 1) == Some(0) && FindId(t.profiles, 2) == None;
    var moved := MigrateReferences(StudentProfile, t, 1, 2);
    assert moved == t.(auth := [AuthRow("a", 7, 2)]);
    assert PointAuth(moved.auth, "b", 2) == moved.auth;
    assert t.profiles[0 := Profile("b", 2)] == [Profile("b", 2)];
  }

  // ----- auth documents themselves -----

  /** The same move for auth documents: the user document at hand names the old id, and only the
      collections keyed by user id are rewritten. */
  function AlignAuthUser(rows: seq<Profile>, refs: seq<nat>, doc: Profile, target: nat)
    : Option<(seq<Profile>, seq<nat>)>
  {
    if doc.id == target && target > 0 then Some((rows, refs))
    else
      var holder := FindId(rows, target);
      if holder.Some? && rows[holder.value].email != doc.email then None
      else
        var row := FindEmail(rows, doc.email);
        Some((if row.Some? then rows[row.value := Profile(doc.email, target)] else rows,
              if doc.id != 0 && doc.id != target then RenamedAll(refs, doc.id, target) else refs))
  }

  /** With a user document that is up to date, the auth document takes its SQL id, ids stay unique,
      and sessions, codes, deliveries and revocations stay with their user. */
  lemma AuthAlignIsFaithful(rows: seq<Profile>, refs: seq<nat>, at: nat, target: nat)
    requires Proper(rows) && at < |rows| && target > 0
    requires Owner(rows, target).None? ==> forall i :: 0 <= i < |refs| ==> refs[i] != target
    ensures match AlignAuthUser(rows, refs, rows[at], target)
            case None => Owner(rows, target).Some? && Owner(rows, target) != Some(rows[at].email)
            case Some((moved, after)) =>
              && moved == rows[at := Profile(rows[at].email, target)] && Proper(moved)
              && |after| == |refs| && forall i :: 0 <= i < |refs| ==> SameOwner(rows, refs[i], moved, after[i])
  {
    if rows[at].id != target {
      OwnerIs(rows, at);
      var holder := FindId(rows, target);
      if holder.None? {
        MovedProfiles(rows, at, target);
        forall v: nat | v != target
          ensures SameOwner(rows, v, rows[at := Profile(rows[at].email, target)], Renamed(v, rows[at].id, target))
        {
          OwnerFollows(rows, at, target, v);
        }
      } else {
        assert rows[holder.value].email != rows[at].email;
      }
    }
  }

  // ----- the collections, updated in place -----

  class MongoStore {
    const kind: Kind
    var profiles: seq<Profile>
    var refs: seq<nat>
    var arrays: seq<seq<nat>>
    var auth: seq<AuthRow>

    ghost function State(): Store
      reads this
    {
      Store(profiles, refs, arrays, auth)
    }

    constructor (kind: Kind, s: Store)
      ensures this.kind == kind && State() == s
    {
      this.kind := kind;
      profiles, refs, arrays, auth := s.profiles, s.refs, s.arrays, s.auth;
    }

    method MigrateProfileIdReferences(oldId: nat, newId: nat)
      modifies this
      ensures State() == MigrateReferences(kind, old(State()), oldId, newId)
    {
      if oldId == 0 || newId == 0 || oldId == newId {
        return;
      }
      for i := 0 to |refs|
        invariant |refs| == |old(refs)|
        invariant forall k :: 0 <= k < |refs| ==>
          refs[k] == if k < i then Renamed(old(refs)[k], oldId, newId) else old(refs)[k]
        invariant profiles == old(profiles) && arrays == old(arrays) && auth == old(auth)
      {
        if refs[i] == oldId {
          refs := refs[i := newId];
        }
      }
      assert refs == RenamedAll(old(refs), oldId, newId);
      for i := 0 to |auth|
        invariant |auth| == |old(auth)|
        invariant forall k :: 0 <= k < |auth| ==>
          auth[k] == if k < i then RenamedAuth(old(auth)[k], oldId, newId) else old(auth)[k]
        invariant profiles == old(profiles) && arrays == old(arrays) && refs == RenamedAll(old(refs), oldId, newId)
      {
        if auth[i].profileId == oldId {
          auth := auth[i := auth[i].(profileId := newId)];
        }
      }
      if kind == StudentProfile {
        for i := 0 to |arrays|
          invariant |arrays| == |old(arrays)|
          invariant forall k :: 0 <= k < |arrays| ==>
            arrays[k] == if k < i then RenamedAll(old(arrays)[k], oldId, newId) else old(arrays)[k]
          invariant profiles == old(profiles) && refs == RenamedAll(old(refs), oldId, newId)
          invariant auth == MigrateReferences(kind, old(State()), oldId, newId).auth
        {
          arrays := arrays[i := RenamedAll(arrays[i], oldId, newId)];
        }
      }
    }

    method AlignProfileId(email: string, target: nat) returns (ok: bool)
      modifies this
      ensures match Align(kind, old(State()), email, target)
              case Conflict => !ok && State() == old(State())
              case Ok(t) => ok && State() == t
    {
      var found := FindEmail(profiles, email);
      if found.None? {
        found := FindId(profiles, target);
      }
      if found.Some? && profiles[found.value].id != target {
        var current := profiles[found.value].id;
        var holder := FindId(profiles, target);
        if holder.Some? && profiles[holder.value].email != email {
          return false;
        }
        var row := FindId(profiles, current);
        MigrateProfileIdReferences(current, target);
        if holder.Some? {
          profiles := profiles[..row.value] + profiles[row.value + 1..];
        } else {
          profiles := profiles[row.value := profiles[row.value].(id := target)];
        }
      }
      assert AlignProfile(kind, old(State()), email, target) == Ok(State());
      PointAuthRows(email, target);
      ok := true;
    }

    /** Points the auth rows with the e-mail at the profile. */
    method PointAuthRows(email: string, target: nat)
      modifies this`auth
      ensures auth == PointAuth(old(auth), email, target)
    {
      for i := 0 to |auth|
        invariant |auth| == |old(auth)|
        invariant forall k :: 0 <= k < |auth| ==>
          auth[k] == if k < i then PointAt(old(auth)[k], email, target) else old(auth)[k]
      {
        if auth[i].email == email {
          auth := auth[i := auth[i].(profileId := target)];
        }
      }
    }

    /** The sweep over the SQL rows; rows without an e-mail are passed over. A conflict ends it, with
        the rows before the conflicting one aligned. */
    method SyncSnapshot(sql: seq<Profile>) returns (ok: bool, done: nat)
      modifies this
      ensures done <= |Mailed(sql)| && Sweep(kind, old(State()), Mailed(sql)[..done]) == Ok(State())
      ensures if ok then done == |Mailed(sql)|
              else done < |Mailed(sql)| && Sweep(kind, old(State()), Mailed(sql)[..done + 1]) == Conflict
    {
      hide Sweep, Align, Mailed;
      done := 0;
      NothingSwept(kind, State(), sql);
      for j := 0 to |sql|
        invariant done == |Mailed(sql[..j])| <= |Mailed(sql)|
        invariant Mailed(sql[..j]) == Mailed(sql)[..done]
        invariant Sweep(kind, old(State()), Mailed(sql)[..done]) == Ok(State())
      {
        MailedPrefix(sql, j);
        if sql[j].email != "" {
          SweepNext(kind, old(State()), Mailed(sql), done);
          var aligned := AlignProfileId(sql[j].email, sql[j].id);
          if !aligned {
            return false, done;
          }
          done := done + 1;
        }
      }
      assert sql[..|sql|] == sql;
      ok := true;
    }
  }

  lemma NothingSwept(kind: Kind, s: Store, sql: seq<Profile>)
    ensures Mailed(sql[..0]) == [] && Sweep(kind, s, Mailed(sql)[..0]) == Ok(s)
  {
  }

  lemma SweepNext(kind: Kind, s: Store, sql: seq<Profile>, k: nat)
    requires k < |sql|
    ensures Sweep(kind, s, sql[..k + 1])
            == match Sweep(kind, s, sql[..k])
               case Conflict => Conflict
               case Ok(t) => Align(kind, t, sql[k].email, sql[k].id)
  {
    assert sql[..k + 1][..k] == sql[..k];
  }

  /** The rows that have an e-mail. */
  function Mailed(sql: seq<Profile>): seq<Profile> {
    if sql == [] then []
    else
      var n := |sql| - 1;
      Mailed(sql[..n]) + if sql[n].email != "" then [sql[n]] else []
  }

  lemma {:induction false} MailedPrefix(sql: seq<Profile>, j: nat)
    requires j < |sql|
    ensures Mailed(sql[..j + 1]) == Mailed(sql[..j]) + if sql[j].email != "" then [sql[j]] else []
    ensures Mailed(sql[..j + 1]) <= Mailed(sql)
    decreases |sql|
  {
    assert sql[..j + 1][..j] == sql[..j];
    var n := |sql| - 1;
    if j < n {
      MailedPrefix(sql[..n], j);
      assert sql[..n][..j + 1] == sql[..j + 1];
    } else {
      assert sql[..j + 1] == sql;
    }
  }

  lemma {:induction false} MailedIsMailed(sql: seq<Profile>)
    ensures forall p :: p in Mailed(sql) <==> p in sql && p.email != ""
  {
    if sql != [] {
      var n := |sql| - 1;
      MailedIsMailed(sql[..n]);
      assert sql == sql[..n] + [sql[n]];
    }
  }

  /** A sweep that ends normally has reached every SQL row with an e-mail: the profile of that e-mail,
      if there is one, carries the row's id. */
  lemma SweepReachesEveryRow(kind: Kind, s: Store, sql: seq<Profile>, p: Profile)
    requires Proper(s.profiles) && Proper(Mailed(sql)) && p in sql && p.email != ""
    ensures var r := Sweep(kind, s, Mailed(sql));
            r.Ok? && IdOf(r.store.profiles, p.email).Some? ==> IdOf(r.store.profiles, p.email) == Some(p.id)
  {
    MailedIsMailed(sql);
    hide Proper;
    var mailed := Mailed(sql);
    forall j | 0 <= j < |mailed|
      ensures mailed[j].email != ""
    {
      assert mailed[j] in mailed;
    }
    SweepAligns(kind, s, mailed);
    var j :| 0 <= j < |mailed| && mailed[j] == p;
  }
}
