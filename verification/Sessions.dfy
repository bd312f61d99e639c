/** Session tokens: creation, refresh rotation with replay detection, revocation and the checks of
    an authenticated request. Random values are ideal (a counter never yields the same value twice),
    a stored hash stands for its token, and a signed access token verifies exactly when it was
    issued. Times are seconds. */
module Sessions {
  import opened Basics

  type Sid = nat
  type Jti = nat

  /** What a client presents for a refresh: some text without a session id, or a session id with a
      secret. */
  datatype RefreshToken = Malformed | Refresh(sid: Sid, secret: nat)

  datatype AccessToken = Access(jti: Jti, sid: Sid, user: nat, expires: int)

  datatype Session = Session(user: nat, current: RefreshToken, previous: Option<RefreshToken>,
                             refreshExpires: int, lastAccess: Jti, revoked: bool)

  /** The state of the account behind a session, as the user document shows it. */
  datatype Account = Missing | Inactive | PasswordExpired | Good

  /** The two collections, the random source and the tokens signed so far; the clock and the refresh
      tokens accepted so far are kept as history. */
  datatype World = World(sessions: map<Sid, Session>, revocations: map<Jti, int>, issued: set<AccessToken>,
                         drawn: nat, clock: int, spent: set<RefreshToken>)

  /** Lifetimes, in seconds: 5 to 30 minutes and 1 to 60 days. */
  datatype Lifetimes = Lifetimes(access: int, refresh: int)

  ghost predicate Clamped(c: Lifetimes) {
    300 <= c.access <= 1800 && 86400 <= c.refresh <= 5184000
  }

  datatype Reply =
    | Tokens(sid: Sid, refresh: RefreshToken, access: AccessToken)
    | Welcome
    | Denied
    | ReplayDetected
    | Done

  predicate SessionActive(s: Session, now: int) {
    !s.revoked && s.refreshExpires >= now
  }

  function RevokeSession(w: World, sid: Sid): World {
    if sid in w.sessions then w.(sessions := w.sessions[sid := w.sessions[sid].(revoked := true)]) else w
  }

  /** The first row for an id stays. */
  function RevokeAccess(w: World, jti: Jti, expires: int): World {
    if jti in w.revocations then w else w.(revocations := w.revocations[jti := expires])
  }

  function RevokeAll(w: World, user: nat, except: Option<Sid>): World {
    w.(sessions := map sid | sid in w.sessions ::
      if w.sessions[sid].user == user && except != Some(sid) then w.sessions[sid].(revoked := true)
         else w.sessions[sid])
  }

  function Create(c: Lifetimes, w: World, user: nat): (World, Reply) {
    var sid := w.drawn;
    var refresh := Refresh(sid, w.drawn + 1);
    var access := Access(w.drawn + 2, sid, user, w.clock + c.access);
    (w.(sessions := w.sessions[sid := Session(user, refresh, None, w.clock + c.refresh, access.jti, false)],
        issued := w.issued + {access},
        drawn := w.drawn + 3),
     Tokens(sid, refresh, access))
  }

  function Accept(c: Lifetimes, w: World, token: RefreshToken): (World, Reply)
    requires token.Refresh? && token.sid in w.sessions
  {
    var s := w.sessions[token.sid];
    var refresh := Refresh(token.sid, w.drawn);
    var access := Access(w.drawn + 1, token.sid, s.user, w.clock + c.access);
    var revoked := RevokeAccess(w, s.lastAccess, w.clock + c.access);
    (revoked.(sessions := w.sessions[token.sid := s.(current := refresh, previous := Some(s.current),
                                                     refreshExpires := w.clock + c.refresh, lastAccess := access.jti)],
              issued := w.issued + {access},
              drawn := w.drawn + 2,
              spent := w.spent + {token}),
     Tokens(token.sid, refresh, access))
  }

  function Rotate(c: Lifetimes, w: World, token: RefreshToken, account: Account): (World, Reply) {
    if token.Malformed? || token.sid !in w.sessions then (w, Denied) else
    var s := w.sessions[token.sid];
    if !SessionActive(s, w.clock) then (w, Denied)
    else if token != s.current then
      if s.previous == Some(token) then (RevokeSession(w, token.sid), ReplayDetected) else (w, Denied)
    else if account != Good then (RevokeSession(w, token.sid), Denied)
    else Accept(c, w, token)
  }

  /** Signature, lifetime, revocation table, session and last access id, in that order. */
  predicate TokenStands(w: World, a: AccessToken) {
    && a in w.issued && w.clock < a.expires
    && a.jti !in w.revocations
    && a.sid in w.sessions && w.sessions[a.sid].user == a.user && SessionActive(w.sessions[a.sid], w.clock)
    && w.sessions[a.sid].lastAccess == a.jti
  }

  function Authenticate(w: World, a: AccessToken, account: Account): (World, Reply) {
    if !TokenStands(w, a) || account == Missing || account == Inactive then (w, Denied)
    else if account == PasswordExpired then (RevokeSession(w, a.sid), Denied)
    else (w, Welcome)
  }

  function Logout(w: World, a: AccessToken): World {
    if a in w.issued && w.clock < a.expires then RevokeAccess(RevokeSession(w, a.sid), a.jti, a.expires) else w
  }

  /** The expiry indexes of the two collections may drop a row once its time has come. */
  function DropRevocation(w: World, jti: Jti): World {
    if jti in w.revocations && w.revocations[jti] <= w.clock then w.(revocations := w.revocations - {jti}) else w
  }

  function DropSession(w: World, sid: Sid): World {
    if sid in w.sessions && w.sessions[sid].refreshExpires <= w.clock then w.(sessions := w.sessions - {sid}) else w
  }

  datatype Event =
    | CreateEvent(user: nat)
    | RotateEvent(token: RefreshToken, account: Account)
    | AuthenticateEvent(access: AccessToken, account: Account)
    | LogoutEvent(access: AccessToken)
    | RevokeEvent(sid: Sid)
    | RevokeAllEvent(user: nat, except: Option<Sid>)
    | DropRevocationEvent(jti: Jti)
    | DropSessionEvent(sid: Sid)
    | Wait(seconds: nat)

  function Step(c: Lifetimes, w: World, e: Event): (World, Reply) {
    match e
    case CreateEvent(user) => Create(c, w, user)
    case RotateEvent(token, account) => Rotate(c, w, token, account)
    case AuthenticateEvent(a, account) => Authenticate(w, a, account)
    case LogoutEvent(a) => (Logout(w, a), Done)
    case RevokeEvent(sid) => (RevokeSession(w, sid), Done)
    case RevokeAllEvent(user, except) => (RevokeAll(w, user, except), Done)
    case DropRevocationEvent(jti) => (DropRevocation(w, jti), Done)
    case DropSessionEvent(sid) => (DropSession(w, sid), Done)
    case Wait(s) => (w.(clock := w.clock + s), Done)
  }

  function Run(c: Lifetimes, w: World, events: seq<Event>): World {
    if events == [] then w else Step(c, Run(c, w, events[..|events| - 1]), events[|events| - 1]).0
  }

  const EMPTY: World := World(map[], map[], {}, 0, 0, {})

  // ----- the invariant -----

  /** Every random value in use was drawn before. */
  ghost predicate Drawn(w: World) {
    && (forall sid :: sid in w.sessions ==> sid < w.drawn && w.sessions[sid].lastAccess < w.drawn
                                            && w.sessions[sid].current.Refresh?
                                              && w.sessions[sid].current.secret < w.drawn
                                            && w.sessions[sid].current.sid == sid)
    && (forall t :: t in w.spent ==> t.Refresh? && t.secret < w.drawn)
    && (forall a :: a in w.issued ==> a.jti < w.drawn && a.sid < w.drawn)
    && (forall jti :: jti in w.revocations ==> jti < w.drawn)
  }

  /** The current refresh token was never accepted; the previous one was. */
  ghost predicate Spending(w: World) {
    forall sid :: sid in w.sessions ==>
      w.sessions[sid].current !in w.spent
      && (w.sessions[sid].previous.Some? ==> w.sessions[sid].previous.value in w.spent)
  }

  /** Access ids are unique, name their session and expire within one lifetime from now. */
  ghost predicate Signed(c: Lifetimes, w: World) {
    && (forall a, b :: a in w.issued && b in w.issued && a.jti == b.jti ==> a == b)
    && (forall a :: a in w.issued ==> a.expires <= w.clock + c.access)
  }

  /** A superseded access id is in the revocation table until at least its own expiry. */
  predicate Covered(w: World, a: AccessToken) {
    w.clock >= a.expires || (a.jti in w.revocations && w.revocations[a.jti] >= a.expires)
  }

  ghost predicate SupersededIsCovered(w: World) {
    forall a :: a in w.issued && a.sid in w.sessions && w.sessions[a.sid].lastAccess != a.jti ==> Covered(w, a)
  }

  ghost predicate RevocationsLastLongEnough(w: World) {
    forall a :: a in w.issued && a.jti in w.revocations ==> w.revocations[a.jti] >= a.expires
  }

  ghost predicate Inv(c: Lifetimes, w: World) {
    && Drawn(w) && Spending(w) && Signed(c, w) && SupersededIsCovered(w) && RevocationsLastLongEnough(w)
  }

  lemma EmptyInv(c: Lifetimes)
    ensures Inv(c, EMPTY)
  {
  }

  lemma CreateInv(c: Lifetimes, w: World, user: nat)
    requires Clamped(c) && Inv(c, w)
    ensures Inv(c, Create(c, w, user).0)
  {
  }

  lemma AcceptInv(c: Lifetimes, w: World, token: RefreshToken)
    requires Clamped(c) && Inv(c, w)
    requires token.Refresh? && token.sid in w.sessions && w.sessions[token.sid].current == token
    ensures Inv(c, Accept(c, w, token).0)
  {
    var after := Accept(c, w, token).0;
    assert Drawn(after);
    assert Spending(after);
    assert Signed(c, after);
    AcceptCovers(c, w, token);
  }

  lemma AcceptCovers(c: Lifetimes, w: World, token: RefreshToken)
    requires Clamped(c) && Inv(c, w)
    requires token.Refresh? && token.sid in w.sessions && w.sessions[token.sid].current == token
    ensures SupersededIsCovered(Accept(c, w, token).0) && RevocationsLastLongEnough(Accept(c, w, token).0)
  {
    var after := Accept(c, w, token).0;
    forall a | a in after.issued && a.sid in after.sessions && after.sessions[a.sid].lastAccess != a.jti
      ensures Covered(after, a)
    {
      assert a in w.issued;
      if w.sessions[a.sid].lastAccess != a.jti {
        assert Covered(w, a);
      }
    }
  }

  lemma RevokeSessionInv(c: Lifetimes, w: World, sid: Sid)
    requires Inv(c, w)
    ensures Inv(c, RevokeSession(w, sid))
  {
    var after := RevokeSession(w, sid);
    assert forall a :: Covered(after, a) == Covered(w, a);
  }

  lemma StepInv(c: Lifetimes, w: World, e: Event)
    requires Clamped(c) && Inv(c, w)
    ensures Inv(c, Step(c, w, e).0)
  {
    hide Inv;
    match e
    case CreateEvent(user) => CreateInv(c, w, user);
    case RotateEvent(token, account) =>
      if token.Refresh? {
        RevokeSessionInv(c, w, token.sid);
        if token.sid in w.sessions && w.sessions[token.sid].current == token {
          AcceptInv(c, w, token);
        }
      }
    case AuthenticateEvent(a, account) => RevokeSessionInv(c, w, a.sid);
    case LogoutEvent(a) => LogoutInv(c, w, a);
    case RevokeEvent(sid) => RevokeSessionInv(c, w, sid);
    case RevokeAllEvent(user, except) => RevokeAllInv(c, w, user, except);
    case DropRevocationEvent(jti) => DropRevocationInv(c, w, jti);
    case DropSessionEvent(sid) => DropSessionInv(c, w, sid);
    case Wait(s) => WaitInv(c, w, s);
  }

  lemma LogoutInv(c: Lifetimes, w: World, a: AccessToken)
    requires Inv(c, w)
    ensures Inv(c, Logout(w, a))
  {
    hide Inv;
    if a in w.issued {
      RevokeSessionInv(c, w, a.sid);
      RevokeAccessInv(c, RevokeSession(w, a.sid), a);
    }
  }

  lemma RevokeAccessInv(c: Lifetimes, w: World, a: AccessToken)
    requires Inv(c, w) && a in w.issued
    ensures Inv(c, RevokeAccess(w, a.jti, a.expires))
  {
    var after := RevokeAccess(w, a.jti, a.expires);
    assert forall b :: Covered(w, b) ==> Covered(after, b);
  }

  lemma RevokeAllInv(c: Lifetimes, w: World, user: nat, except: Option<Sid>)
    requires Inv(c, w)
    ensures Inv(c, RevokeAll(w, user, except))
  {
    var after := RevokeAll(w, user, except);
    assert forall a :: Covered(after, a) == Covered(w, a);
  }

  lemma DropRevocationInv(c: Lifetimes, w: World, jti: Jti)
    requires Inv(c, w)
    ensures Inv(c, DropRevocation(w, jti))
  {
    var after := DropRevocation(w, jti);
    assert forall a :: a in w.issued && Covered(w, a) ==> Covered(after, a);
  }

  lemma DropSessionInv(c: Lifetimes, w: World, sid: Sid)
    requires Inv(c, w)
    ensures Inv(c, DropSession(w, sid))
  {
    var after := DropSession(w, sid);
    assert forall a :: Covered(after, a) == Covered(w, a);
  }

  lemma WaitInv(c: Lifetimes, w: World, s: nat)
    requires Inv(c, w)
    ensures Inv(c, w.(clock := w.clock + s))
  {
    var after := w.(clock := w.clock + s);
    assert forall a :: Covered(w, a) ==> Covered(after, a);
  }

  lemma {:induction false} RunInv(c: Lifetimes, w: World, events: seq<Event>)
    requires Clamped(c) && Inv(c, w)
    ensures Inv(c, Run(c, w, events))
  {
    hide Inv, Step;
    if events != [] {
      var n := |events| - 1;
      RunInv(c, w, events[..n]);
      StepInv(c, Run(c, w, events[..n]), events[n]);
    }
  }

  // ----- refresh tokens over whole runs -----

  function ReplyAt(c: Lifetimes, w: World, events: seq<Event>, k: nat): Reply
    requires k < |events|
  {
    Step(c, Run(c, w, events[..k]), events[k]).1
  }

  lemma SpentGrows(c: Lifetimes, w: World, e: Event)
    ensures w.spent <= Step(c, w, e).0.spent
    ensures e.RotateEvent? && Step(c, w, e).1.Tokens? ==> e.token in Step(c, w, e).0.spent
  {
  }

  lemma {:induction false} RunSpentGrows(c: Lifetimes, w: World, events: seq<Event>, i: nat, j: nat)
    requires i <= j <= |events|
    ensures Run(c, w, events[..i]).spent <= Run(c, w, events[..j]).spent
    decreases j - i
  {
    hide Step;
    if i < j {
      RunSpentGrows(c, w, events, i, j - 1);
      assert events[..j][..j - 1] == events[..j - 1];
      SpentGrows(c, Run(c, w, events[..j - 1]), events[j - 1]);
    }
  }

  /** In every run, each refresh token is accepted by at most one rotation. */
  lemma AcceptedAtMostOnce(c: Lifetimes, w: World, events: seq<Event>, i: nat, j: nat)
    requires Clamped(c) && Inv(c, w) && i < j < |events|
    requires events[i].RotateEvent? && events[j].RotateEvent? && events[i].token == events[j].token
    requires ReplyAt(c, w, events, i).Tokens?
    ensures !ReplyAt(c, w, events, j).Tokens?
  {
    hide Step;
    var before, later := Run(c, w, events[..i]), Run(c, w, events[..j]);
    assert events[..i + 1][..i] == events[..i];
    SpentGrows(c, before, events[i]);
    RunSpentGrows(c, w, events, i + 1, j);
    RunInv(c, w, events[..j]);
    SpentIsRefused(c, later, events[j]);
  }

  lemma SpentIsRefused(c: Lifetimes, w: World, e: Event)
    requires Inv(c, w) && e.RotateEvent? && e.token in w.spent
    ensures !Step(c, w, e).1.Tokens?
  {
  }

  /** What a rotation answers, token class by token class, and what it leaves behind. */
  lemma RotateOutcome(c: Lifetimes, w: World, token: RefreshToken, account: Account)
    requires Clamped(c) && Inv(c, w) && token.Refresh? && token.sid in w.sessions
    ensures var s := w.sessions[token.sid];
            var (after, reply) := Rotate(c, w, token, account);
            && (reply.Tokens? <==> SessionActive(s, w.clock) && token == s.current && account == Good)
            && (reply == ReplayDetected <==> SessionActive(s, w.clock) && s.previous == Some(token))
            && (token != s.current && s.previous != Some(token) ==> after == w)
            && (SessionActive(s, w.clock) && token == s.current && account != Good ==>
                  reply == Denied && Dead(after, token.sid))
            && (reply.Tokens? ==>
                && reply.sid == token.sid && after.sessions[token.sid].current == reply.refresh
                && after.sessions[token.sid].previous == Some(token)
                && reply.refresh !in w.spent && TokenStands(after, reply.access)
                && (forall a :: a in w.issued && a.sid == token.sid ==> !TokenStands(after, a)))
            && (forall sid :: sid in w.sessions && sid != token.sid ==>
                  sid in after.sessions && after.sessions[sid] == w.sessions[sid])
  {
  }

  // ----- revoked for good -----

  /** The session id was given out and its session is gone or revoked. */
  predicate Dead(w: World, sid: Sid) {
    sid < w.drawn && (sid in w.sessions ==> w.sessions[sid].revoked)
  }

  lemma DeadStays(c: Lifetimes, w: World, e: Event, sid: Sid)
    requires Dead(w, sid)
    ensures Dead(Step(c, w, e).0, sid)
  {
  }

  lemma {:induction false} DeadForGood(c: Lifetimes, w: World, events: seq<Event>, sid: Sid)
    requires Dead(w, sid)
    ensures Dead(Run(c, w, events), sid)
  {
    hide Step, Dead;
    if events != [] {
      DeadForGood(c, w, events[..|events| - 1], sid);
      DeadStays(c, Run(c, w, events[..|events| - 1]), events[|events| - 1], sid);
    }
  }

  lemma DeadAcceptsNothing(c: Lifetimes, w: World, token: RefreshToken, a: AccessToken, account: Account)
    requires token.Refresh? && Dead(w, token.sid) && a.sid == token.sid
    ensures Rotate(c, w, token, account) == (w, Denied)
    ensures Authenticate(w, a, account) == (w, Denied)
  {
  }

  /** Replaying the immediately previous refresh token of an active session revokes the session for
      good: whatever happens next, no refresh token and no access token of it is accepted again. */
  lemma ReplayRevokesForGood(c: Lifetimes, w: World, token: RefreshToken, account: Account, events: seq<Event>,
                             other: RefreshToken, a: AccessToken, later: Account)
    requires Clamped(c) && Inv(c, w)
    requires token.Refresh? && token.sid in w.sessions && SessionActive(w.sessions[token.sid], w.clock)
    requires w.sessions[token.sid].previous == Some(token)
    requires other.Refresh? && other.sid == token.sid && a.sid == token.sid
    ensures var (after, reply) := Rotate(c, w, token, account);
            var end := Run(c, after, events);
            && reply == ReplayDetected
            && Rotate(c, end, other, later) == (end, Denied) && Authenticate(end, a, later) == (end, Denied)
  {
    hide Run;
    var after := Rotate(c, w, token, account).0;
    DeadForGood(c, after, events, token.sid);
    DeadAcceptsNothing(c, Run(c, after, events), other, a, later);
  }

  /** Logging out with a standing access token ends its session for good too. */
  lemma LogoutForGood(c: Lifetimes, w: World, a: AccessToken, events: seq<Event>, other: RefreshToken, b: AccessToken,
                      later: Account)
    requires Clamped(c) && Inv(c, w) && TokenStands(w, a)
    requires other.Refresh? && other.sid == a.sid && b.sid == a.sid
    ensures var end := Run(c, Logout(w, a), events);
            Rotate(c, end, other, later) == (end, Denied) && Authenticate(end, b, later) == (end, Denied)
  {
    hide Run;
    DeadForGood(c, Logout(w, a), events, a.sid);
    DeadAcceptsNothing(c, Run(c, Logout(w, a), events), other, b, later);
  }

  // ----- access tokens over whole runs -----

  /** An issued access token that can never stand again: its session is dead or has moved on. */
  predicate Superseded(w: World, a: AccessToken) {
    && a.jti < w.drawn && a.sid < w.drawn
    && (a.sid in w.sessions ==> w.sessions[a.sid].revoked || w.sessions[a.sid].lastAccess != a.jti)
  }

  lemma SupersededStays(c: Lifetimes, w: World, e: Event, a: AccessToken)
    requires Superseded(w, a)
    ensures Superseded(Step(c, w, e).0, a)
  {
  }

  /** Once a session has moved on to another access id, or is revoked or gone, the earlier access
      token is refused for ever. */
  lemma {:induction false} SupersededForGood(c: Lifetimes, w: World, events: seq<Event>, a: AccessToken,
                                             account: Account)
    requires Clamped(c) && Inv(c, w) && a in w.issued && Superseded(w, a)
    ensures var end := Run(c, w, events);
            && Superseded(end, a) && a in end.issued
            && Authenticate(end, a, account) == (end, Denied)
  {
    hide Step;
    if events != [] {
      var n := |events| - 1;
      SupersededForGood(c, w, events[..n], a, account);
      SupersededStays(c, Run(c, w, events[..n]), events[n], a);
      IssuedStays(c, Run(c, w, events[..n]), events[n]);
    }
  }

  lemma CoveredStays(c: Lifetimes, w: World, e: Event, a: AccessToken)
    requires Inv(c, w) && a in w.issued && Covered(w, a)
    ensures Covered(Step(c, w, e).0, a)
  {
  }

  /** An access id the session has moved on from is in the revocation table until its own expiry, at
      every later point of the run, whatever becomes of the session. */
  lemma {:induction false} CoveredForGood(c: Lifetimes, w: World, events: seq<Event>, a: AccessToken)
    requires Clamped(c) && Inv(c, w) && a in w.issued
    requires a.sid in w.sessions && w.sessions[a.sid].lastAccess != a.jti
    ensures Covered(Run(c, w, events), a) && a in Run(c, w, events).issued
  {
    hide Step;
    if events == [] {
      assert SupersededIsCovered(w);
    } else {
      var n := |events| - 1;
      CoveredForGood(c, w, events[..n], a);
      RunInv(c, w, events[..n]);
      hide Inv, Covered;
      CoveredStays(c, Run(c, w, events[..n]), events[n], a);
      IssuedStays(c, Run(c, w, events[..n]), events[n]);
    }
  }

  lemma IssuedStays(c: Lifetimes, w: World, e: Event)
    ensures w.issued <= Step(c, w, e).0.issued
  {
  }

  /** At any moment at most one access token of a session stands. */
  lemma OneAccessTokenStands(c: Lifetimes, w: World, a: AccessToken, b: AccessToken)
    requires Inv(c, w) && TokenStands(w, a) && TokenStands(w, b) && a.sid == b.sid
    ensures a == b
  {
  }

  // ----- what the tokens are good for -----

  function Later(w: World, seconds: nat): World {
    w.(clock := w.clock + seconds)
  }

  /** The pair serves its session: for so many seconds from now on the access token is accepted exactly
      within its lifetime, and the refresh token is exchanged exactly within its own, for the same user. */
  ghost predicate Serves(c: Lifetimes, w: World, reply: Reply, user: nat)
    requires reply.Tokens?
  {
    && reply.access.sid == reply.sid && reply.access.user == user
    && reply.refresh.Refresh? && reply.refresh.sid == reply.sid
    && (forall s: nat :: TokenStands(Later(w, s), reply.access) <==> s < c.access)
    && (forall s: nat :: Authenticate(Later(w, s), reply.access, Good).1 == Welcome <==> s < c.access)
    && (forall s: nat :: Rotate(c, Later(w, s), reply.refresh, Good).1.Tokens? <==> s <= c.refresh)
  }

  /** A login opens a session of its own, with tokens that serve it, and touches no other. */
  lemma LoginGrants(c: Lifetimes, w: World, user: nat)
    requires Clamped(c) && Inv(c, w)
    ensures var (after, reply) := Create(c, w, user);
            && reply.Tokens? && reply.sid !in w.sessions && Serves(c, after, reply, user)
            && after.sessions.Keys == w.sessions.Keys + {reply.sid} && after.revocations == w.revocations
            && after.clock == w.clock && (forall sid :: sid in w.sessions ==> after.sessions[sid] == w.sessions[sid])
  {
  }

  /** A successful rotation hands out tokens that serve the session for as long again, from now on. */
  lemma RotationGrants(c: Lifetimes, w: World, token: RefreshToken)
    requires Clamped(c) && Inv(c, w) && token.Refresh? && token.sid in w.sessions
    requires SessionActive(w.sessions[token.sid], w.clock) && token == w.sessions[token.sid].current
    ensures var (after, reply) := Rotate(c, w, token, Good);
            && reply.Tokens? && reply.sid == token.sid && Serves(c, after, reply, w.sessions[token.sid].user)
            && after.clock == w.clock
  {
  }

  /** A request is welcome exactly with a standing token of a good account; the only thing a request
      changes is that it revokes the session of an expired password. */
  lemma RequestExactly(w: World, a: AccessToken, account: Account)
    ensures var (after, reply) := Authenticate(w, a, account);
            && (reply == Welcome || reply == Denied) && (reply == Welcome <==> TokenStands(w, a) && account == Good)
            && (reply == Denied <==>
                || a !in w.issued || a.expires <= w.clock || a.jti in w.revocations || a.sid !in w.sessions
                || w.sessions[a.sid].user != a.user || w.sessions[a.sid].revoked
                || w.sessions[a.sid].refreshExpires < w.clock || w.sessions[a.sid].lastAccess != a.jti
                || account != Good)
            && (!(TokenStands(w, a) && account == PasswordExpired) ==> after == w)
            && (TokenStands(w, a) && account == PasswordExpired ==>
                  after == w.(sessions := w.sessions[a.sid := w.sessions[a.sid].(revoked := true)]))
  {
  }

  /** Ending all sessions of a user ends each of them but the excepted one, and no other user's. */
  lemma RevokeAllExactly(w: World, user: nat, except: Option<Sid>, sid: Sid)
    requires sid in w.sessions
    ensures var after := RevokeAll(w, user, except);
            && after.sessions.Keys == w.sessions.Keys && after == w.(sessions := after.sessions)
            && (w.sessions[sid].user == user && except != Some(sid) ==>
                  after.sessions[sid] == w.sessions[sid].(revoked := true))
            && (w.sessions[sid].user != user || except == Some(sid) ==> after.sessions[sid] == w.sessions[sid])
  {
  }

  /** Logging out with an unexpired token of this issuer revokes its session and records its id at least
      until it expires; any other token changes nothing, and no other session is touched. */
  lemma LogoutExactly(c: Lifetimes, w: World, a: AccessToken)
    requires Inv(c, w)
    ensures var after := Logout(w, a);
            if a in w.issued && w.clock < a.expires then
              && after.sessions.Keys == w.sessions.Keys
              && (forall sid :: sid in w.sessions ==>
                    after.sessions[sid] == if sid == a.sid then w.sessions[sid].(revoked := true) else w.sessions[sid])
              && after.revocations.Keys == w.revocations.Keys + {a.jti} && after.revocations[a.jti] >= a.expires
              && (forall jti :: jti in w.revocations ==> after.revocations[jti] == w.revocations[jti])
            else after == w
  {
  }

  /** The expiry index of the revocation table never revives a token. */
  lemma DroppedRevocationRevivesNothing(c: Lifetimes, w: World, jti: Jti, a: AccessToken)
    requires Inv(c, w)
    ensures TokenStands(DropRevocation(w, jti), a) <==> TokenStands(w, a)
  {
  }

  /** Nor does the one of the session table take anything away, once the refresh time is over. */
  lemma DroppedSessionWasOver(c: Lifetimes, w: World, sid: Sid, a: AccessToken, token: RefreshToken, account: Account)
    requires sid in w.sessions && w.sessions[sid].refreshExpires < w.clock
    ensures TokenStands(DropSession(w, sid), a) <==> TokenStands(w, a)
    ensures token.Refresh? && token.sid == sid ==>
              Rotate(c, w, token, account) == (w, Denied)
              && Rotate(c, DropSession(w, sid), token, account) == (DropSession(w, sid), Denied)
  {
  }

  // ----- the collections, updated in place -----

  class AuthStore {
    const lifetimes: Lifetimes
    var sessions: map<Sid, Session>
    var revocations: map<Jti, int>
    var drawn: nat
    var clock: int
    ghost var issued: set<AccessToken>
    ghost var spent: set<RefreshToken>

    ghost function State(): World
      reads this
    {
      World(sessions, revocations, issued, drawn, clock, spent)
    }

    constructor (lifetimes: Lifetimes)
      ensures State() == EMPTY && this.lifetimes == lifetimes
    {
      this.lifetimes := lifetimes;
      sessions, revocations, drawn, clock := map[], map[], 0, 0;
      issued, spent := {}, {};
    }

    method Draw() returns (value: nat)
      modifies this`drawn
      ensures value == old(drawn) && drawn == old(drawn) + 1
    {
      value := drawn;
      drawn := drawn + 1;
    }

    method CreateAccessToken(user: nat, sid: Sid) returns (a: AccessToken)
      modifies this`drawn, this`issued
      ensures a == Access(old(drawn), sid, user, clock + lifetimes.access)
      ensures drawn == old(drawn) + 1 && issued == old(issued) + {a}
    {
      var jti := Draw();
      a := Access(jti, sid, user, clock + lifetimes.access);
      issued := issued + {a};
    }

    method CreateSessionTokens(user: nat) returns (reply: Reply)
      modifies this
      ensures (State(), reply) == Create(lifetimes, old(State()), user)
    {
      var sid := Draw();
      var secret := Draw();
      var refresh := Refresh(sid, secret);
      var access := CreateAccessToken(user, sid);
      sessions := sessions[sid := Session(user, refresh, None, clock + lifetimes.refresh, access.jti, false)];
      reply := Tokens(sid, refresh, access);
    }

    method Revoke(sid: Sid)
      modifies this`sessions
      ensures State() == RevokeSession(old(State()), sid)
    {
      if sid in sessions {
        sessions := sessions[sid := sessions[sid].(revoked := true)];
      }
    }

    method RevokeAccessToken(jti: Jti, expires: int)
      modifies this`revocations
      ensures State() == RevokeAccess(old(State()), jti, expires)
    {
      if jti !in revocations {
        revocations := revocations[jti := expires];
      }
    }

    method RotateSessionTokens(token: RefreshToken, account: Account) returns (reply: Reply)
      modifies this
      ensures (State(), reply) == Rotate(lifetimes, old(State()), token, account)
    {
      if token.Malformed? {
        return Denied;
      }
      var sid := token.sid;
      if sid !in sessions {
        return Denied;
      }
      var session := sessions[sid];
      if !SessionActive(session, clock) {
        return Denied;
      }
      if token == session.current {
      } else if session.previous == Some(token) {
        Revoke(sid);
        return ReplayDetected;
      } else {
        return Denied;
      }
      if account != Good {
        Revoke(sid);
        return Denied;
      }
      var secret := Draw();
      var refresh := Refresh(sid, secret);
      RevokeAccessToken(session.lastAccess, clock + lifetimes.access);
      var access := CreateAccessToken(session.user, sid);
      sessions := sessions[sid := session.(previous := Some(session.current), current := refresh,
                                           refreshExpires := clock + lifetimes.refresh, lastAccess := access.jti)];
      spent := spent + {token};
      reply := Tokens(sid, refresh, access);
    }

    /** The signature check is a ghost question about the tokens issued so far. */
    method GetCurrentUser(a: AccessToken, genuine: bool, account: Account) returns (reply: Reply)
      requires genuine <==> a in issued
      modifies this`sessions
      ensures (State(), reply) == Authenticate(old(State()), a, account)
    {
      if !genuine || clock >= a.expires {
        return Denied;
      }
      if a.jti in revocations {
        return Denied;
      }
      if a.sid !in sessions || sessions[a.sid].user != a.user || !SessionActive(sessions[a.sid], clock) {
        return Denied;
      }
      if sessions[a.sid].lastAccess != a.jti {
        return Denied;
      }
      if account == Missing || account == Inactive {
        return Denied;
      }
      if account == PasswordExpired {
        Revoke(a.sid);
        return Denied;
      }
      reply := Welcome;
    }

    method RevokeAllUserSessions(user: nat, except: Option<Sid>) returns (count: nat)
      modifies this`sessions
      ensures State() == RevokeAll(old(State()), user, except)
      ensures count == |set sid | sid in sessions && sessions[sid] != old(sessions)[sid]|
    {
      var matching := set sid | sid in sessions && sessions[sid].user == user && except != Some(sid)
        && !sessions[sid].revoked;
      count := |matching|;
      sessions := map sid | sid in sessions :: if sid in matching then sessions[sid].(revoked := true)
        else sessions[sid];
      assert matching == set sid | sid in sessions && sessions[sid] != old(sessions)[sid];
    }
  }
}
