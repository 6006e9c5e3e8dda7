/**
 Refresh sessions: every accepted refresh token is replaced by a new one, an older one revokes
 its session, and a login deletes dead sessions. A token is what is signed: admin, session and
 the second of issue; the hash that is stored stands for the token.
 */
module Sessions {

  import opened Basics

  datatype Token = Token(sub: string, sid: string, iat: int)

  datatype Session = Session(adminUserId: string, token: Token, expiresAt: int, revokedAt: Option<int>)

  datatype Issue = Issue(token: Token, at: int)

  /** The session rows, and the history that they only partly record. */
  datatype World = World(sessions: map<string, Session>, issued: seq<Issue>, revoked: set<string>)

  datatype Request =
    | Login(adminUserId: string, sid: string, now: int)
    | Refresh(token: Token, now: int, active: bool)
    | Logout(token: Token, now: int)

  datatype Answer = Issued(token: Token) | Rejected | Forbidden | LoggedOut

  // ----- tokens -----

  predicate WasIssued(issued: seq<Issue>, t: Token) {
    exists i :: 0 <= i < |issued| && issued[i].token == t
  }

  /** The signature and the expiry inside the token, in whole seconds. */
  predicate Verifies(issued: seq<Issue>, t: Token, now: int, ttlSeconds: nat) {
    WasIssued(issued, t) && now / 1000 < t.iat + ttlSeconds
  }

  function Last(issued: seq<Issue>, sid: string): Option<Issue> {
    if issued == [] then None
    else if issued[|issued| - 1].token.sid == sid then Some(issued[|issued| - 1])
    else Last(issued[..|issued| - 1], sid)
  }

  function NewToken(adminUserId: string, sid: string, now: int): Token {
    Token(adminUserId, sid, now / 1000)
  }

  // ----- requests on the rows -----

  predicate Dead(s: Session, now: int) {
    s.expiresAt < now || s.revokedAt.Some?
  }

  function Kept(sessions: map<string, Session>, now: int): map<string, Session> {
    map sid | sid in sessions && !Dead(sessions[sid], now) :: sessions[sid]
  }

  /** Sessions that are neither revoked nor past their end stay, as they are, and no others. */
  lemma KeptExactly(sessions: map<string, Session>, now: int, sid: string)
    ensures sid in Kept(sessions, now) <==>
      sid in sessions && sessions[sid].revokedAt.None? && sessions[sid].expiresAt >= now
    ensures sid in Kept(sessions, now) ==> Kept(sessions, now)[sid] == sessions[sid]
  {
  }

  function AfterIssue(w: World, adminUserId: string, sid: string, now: int, ttlSeconds: nat): World {
    var token := NewToken(adminUserId, sid, now);
    w.(sessions := w.sessions[sid := Session(adminUserId, token, now + ttlSeconds * 1000, None)],
       issued := w.issued + [Issue(token, now)])
  }

  function Revoke(w: World, sid: string, now: int): World {
    w.(sessions := if sid in w.sessions then w.sessions[sid := w.sessions[sid].(revokedAt := Some(now))] else w.sessions,
       revoked := w.revoked + {sid})
  }

  function Next(ttlSeconds: nat, cleanup: bool, w: World, r: Request): (World, Answer) {
    match r
    case Login(adminUserId, sid, now) =>
      var left := if cleanup then w.(sessions := Kept(w.sessions, now)) else w;
      (AfterIssue(left, adminUserId, sid, now, ttlSeconds), Issued(NewToken(adminUserId, sid, now)))
    case Refresh(t, now, active) =>
      if !Verifies(w.issued, t, now, ttlSeconds) then (w, Rejected)
      else if t.sid !in w.sessions then (w, Rejected)
      else
        var s := w.sessions[t.sid];
        if s.revokedAt.Some? || s.expiresAt <= now then (w, Rejected)
        else if s.token != t then (Revoke(w, t.sid, now), Rejected)
        else if !active then (w, Forbidden)
        else (AfterIssue(w, s.adminUserId, t.sid, now, ttlSeconds), Issued(NewToken(s.adminUserId, t.sid, now)))
    case Logout(t, now) =>
      (if Verifies(w.issued, t, now, ttlSeconds) then Revoke(w, t.sid, now) else w, LoggedOut)
  }

  // ----- the same by history alone: no rows, no clean-up -----

  datatype History = History(issued: seq<Issue>, revoked: set<string>)

  function HistoryOf(w: World): History {
    History(w.issued, w.revoked)
  }

  function Decide(ttlSeconds: nat, h: History, r: Request): (History, Answer) {
    match r
    case Login(adminUserId, sid, now) =>
      var token := NewToken(adminUserId, sid, now);
      (h.(issued := h.issued + [Issue(token, now)]), Issued(token))
    case Refresh(t, now, active) =>
      var last := Last(h.issued, t.sid);
      if !Verifies(h.issued, t, now, ttlSeconds) || last.None? || t.sid in h.revoked || last.value.at + ttlSeconds * 1000 <= now
      then (h, Rejected)
      else if last.value.token != t then (h.(revoked := h.revoked + {t.sid}), Rejected)
      else if !active then (h, Forbidden)
      else
        var token := NewToken(t.sub, t.sid, now);
        (h.(issued := h.issued + [Issue(token, now)]), Issued(token))
    case Logout(t, now) =>
      (if Verifies(h.issued, t, now, ttlSeconds) then h.(revoked := h.revoked + {t.sid}) else h, LoggedOut)
  }

  // ----- what the rows know about the history -----

  predicate Matches(s: Session, issue: Issue, revoked: bool, ttlSeconds: nat) {
    && s.token == issue.token && s.adminUserId == issue.token.sub
    && s.expiresAt == issue.at + ttlSeconds * 1000
    && (s.revokedAt.Some? <==> revoked)
  }

  /** A row mirrors the last issue of its session; a session without a row is dead for good. */
  ghost predicate Mirrors(w: World, sid: string, clock: int, ttlSeconds: nat) {
    var last := Last(w.issued, sid);
    if sid in w.sessions then last.Some? && Matches(w.sessions[sid], last.value, sid in w.revoked, ttlSeconds)
    else last.Some? ==> sid in w.revoked || last.value.at + ttlSeconds * 1000 < clock
  }

  ghost predicate Valid(w: World, clock: int, ttlSeconds: nat) {
    forall sid :: Mirrors(w, sid, clock, ttlSeconds)
  }

  /** A login draws a session id that was never used. */
  ghost predicate Allowed(issued: seq<Issue>, clock: int, r: Request) {
    clock <= r.now && (r.Login? ==> Last(issued, r.sid).None?)
  }

  lemma LastNext(issued: seq<Issue>, issue: Issue, sid: string)
    ensures Last(issued + [issue], sid) == if issue.token.sid == sid then Some(issue) else Last(issued, sid)
  {
    assert (issued + [issue])[..|issued|] == issued;
  }

  lemma {:induction false} LastIsOfSession(issued: seq<Issue>, sid: string)
    ensures Last(issued, sid).Some? ==> Last(issued, sid).value.token.sid == sid && WasIssued(issued, Last(issued, sid).value.token)
  {
    if issued != [] {
      var n := |issued| - 1;
      LastIsOfSession(issued[..n], sid);
      if issued[n].token.sid != sid && Last(issued[..n], sid).Some? {
        var i :| 0 <= i < n && issued[..n][i].token == Last(issued[..n], sid).value.token;
        assert issued[i].token == issued[..n][i].token;
      } else {
        assert issued[n].token == issued[n].token;
      }
    }
  }

  lemma IssueKeepsValid(w: World, adminUserId: string, sid: string, now: int, ttlSeconds: nat)
    requires Valid(w, now, ttlSeconds) && sid !in w.revoked
    ensures Valid(AfterIssue(w, adminUserId, sid, now, ttlSeconds), now, ttlSeconds)
  {
    var after := AfterIssue(w, adminUserId, sid, now, ttlSeconds);
    var issue := Issue(NewToken(adminUserId, sid, now), now);
    forall x ensures Mirrors(after, x, now, ttlSeconds) {
      LastNext(w.issued, issue, x);
      assert Mirrors(w, x, now, ttlSeconds);
    }
  }

  lemma RevokeKeepsValid(w: World, sid: string, now: int, ttlSeconds: nat)
    requires Valid(w, now, ttlSeconds)
    ensures Valid(Revoke(w, sid, now), now, ttlSeconds)
  {
    forall x ensures Mirrors(Revoke(w, sid, now), x, now, ttlSeconds) {
      assert Mirrors(w, x, now, ttlSeconds);
    }
  }

  lemma LaterValid(w: World, clock: int, now: int, ttlSeconds: nat)
    requires Valid(w, clock, ttlSeconds) && clock <= now
    ensures Valid(w, now, ttlSeconds)
  {
    forall x ensures Mirrors(w, x, now, ttlSeconds) {
      assert Mirrors(w, x, clock, ttlSeconds);
    }
  }

  lemma CleanupKeepsValid(w: World, now: int, ttlSeconds: nat)
    requires Valid(w, now, ttlSeconds)
    ensures Valid(w.(sessions := Kept(w.sessions, now)), now, ttlSeconds)
  {
    forall x ensures Mirrors(w.(sessions := Kept(w.sessions, now)), x, now, ttlSeconds) {
      assert Mirrors(w, x, now, ttlSeconds);
    }
  }

  /** No session id is revoked before it is used. */
  ghost predicate RevokedWereUsed(w: World) {
    forall sid :: sid in w.revoked ==> Last(w.issued, sid).Some?
  }

  /** With or without the clean-up, the rows decide what the history decides. */
  lemma NextDecides(w: World, clock: int, ttlSeconds: nat, cleanup: bool, r: Request)
    requires Valid(w, clock, ttlSeconds) && RevokedWereUsed(w) && Allowed(w.issued, clock, r)
    ensures var (after, answer) := Next(ttlSeconds, cleanup, w, r);
      && (HistoryOf(after), answer) == Decide(ttlSeconds, HistoryOf(w), r)
      && Valid(after, r.now, ttlSeconds)
  {
    LaterValid(w, clock, r.now, ttlSeconds);
    match r
    case Login(adminUserId, sid, now) =>
      CleanupKeepsValid(w, now, ttlSeconds);
      IssueKeepsValid(if cleanup then w.(sessions := Kept(w.sessions, now)) else w, adminUserId, sid, now, ttlSeconds);
    case Refresh(t, now, active) =>
      assert Mirrors(w, t.sid, now, ttlSeconds);
      RevokeKeepsValid(w, t.sid, now, ttlSeconds);
      if t.sid !in w.revoked && t.sid in w.sessions {
        IssueKeepsValid(w, w.sessions[t.sid].adminUserId, t.sid, now, ttlSeconds);
      }
    case Logout(t, now) => RevokeKeepsValid(w, t.sid, now, ttlSeconds);
  }

  // ----- runs of requests -----

  lemma {:induction false} IssuedHasLast(issued: seq<Issue>, t: Token)
    requires WasIssued(issued, t)
    ensures Last(issued, t.sid).Some?
  {
    var n := |issued| - 1;
    if issued[n].token.sid != t.sid {
      var i :| 0 <= i < |issued| && issued[i].token == t;
      assert issued[..n][i].token == t;
      IssuedHasLast(issued[..n], t);
    }
  }

  lemma RevokedStayUsed(w: World, ttlSeconds: nat, cleanup: bool, r: Request)
    requires RevokedWereUsed(w)
    ensures RevokedWereUsed(Next(ttlSeconds, cleanup, w, r).0)
  {
    var after := Next(ttlSeconds, cleanup, w, r).0;
    forall sid | sid in after.revoked ensures Last(after.issued, sid).Some? {
      if after.issued != w.issued {
        LastNext(w.issued, after.issued[|w.issued|], sid);
      } else if sid !in w.revoked {
        IssuedHasLast(w.issued, r.token);
      }
    }
  }

  function Answers(ttlSeconds: nat, cleanup: bool, w: World, rs: seq<Request>): seq<Answer>
    decreases |rs|
  {
    if rs == [] then []
    else
      var (after, answer) := Next(ttlSeconds, cleanup, w, rs[0]);
      [answer] + Answers(ttlSeconds, cleanup, after, rs[1..])
  }

  function Decisions(ttlSeconds: nat, h: History, rs: seq<Request>): seq<Answer>
    decreases |rs|
  {
    if rs == [] then []
    else
      var (after, answer) := Decide(ttlSeconds, h, rs[0]);
      [answer] + Decisions(ttlSeconds, after, rs[1..])
  }

  ghost predicate AllAllowed(ttlSeconds: nat, h: History, clock: int, rs: seq<Request>)
    decreases |rs|
  {
    rs == [] || (Allowed(h.issued, clock, rs[0]) && AllAllowed(ttlSeconds, Decide(ttlSeconds, h, rs[0]).0, rs[0].now, rs[1..]))
  }

  lemma {:induction false} AnswersDecide(w: World, clock: int, ttlSeconds: nat, cleanup: bool, rs: seq<Request>)
    requires Valid(w, clock, ttlSeconds) && RevokedWereUsed(w) && AllAllowed(ttlSeconds, HistoryOf(w), clock, rs)
    ensures Answers(ttlSeconds, cleanup, w, rs) == Decisions(ttlSeconds, HistoryOf(w), rs)
    decreases |rs|
  {
    if rs != [] {
      NextDecides(w, clock, ttlSeconds, cleanup, rs[0]);
      RevokedStayUsed(w, ttlSeconds, cleanup, rs[0]);
      AnswersDecide(Next(ttlSeconds, cleanup, w, rs[0]).0, rs[0].now, ttlSeconds, cleanup, rs[1..]);
    }
  }

  /** Deleting dead sessions at every login changes no answer, ever. */
  lemma CleanupChangesNoAnswer(w: World, clock: int, ttlSeconds: nat, rs: seq<Request>)
    requires Valid(w, clock, ttlSeconds) && RevokedWereUsed(w) && AllAllowed(ttlSeconds, HistoryOf(w), clock, rs)
    ensures Answers(ttlSeconds, true, w, rs) == Answers(ttlSeconds, false, w, rs)
  {
    AnswersDecide(w, clock, ttlSeconds, true, rs);
    AnswersDecide(w, clock, ttlSeconds, false, rs);
  }

  // ----- which token is accepted -----

  ghost predicate Stamped(issued: seq<Issue>) {
    forall i :: 0 <= i < |issued| ==> issued[i].token.iat == issued[i].at / 1000
  }

  lemma {:induction false} LastStamped(issued: seq<Issue>, sid: string)
    requires Stamped(issued)
    ensures Last(issued, sid).Some? ==> Last(issued, sid).value.token.iat == Last(issued, sid).value.at / 1000
  {
    if issued != [] {
      LastStamped(issued[..|issued| - 1], sid);
    }
  }

  lemma StampedStays(ttlSeconds: nat, h: History, r: Request)
    requires Stamped(h.issued)
    ensures Stamped(Decide(ttlSeconds, h, r).0.issued)
  {
  }

  /** A token that is still good in whole seconds is still good in milliseconds. */
  lemma SecondsSuffice(at: int, now: int, ttlSeconds: nat)
    requires now / 1000 < at / 1000 + ttlSeconds
    ensures now < at + ttlSeconds * 1000
  {
  }

  /** For an active admin a token is accepted exactly when it is the last one issued for its session, the session was not
      revoked, and the token has not expired. */
  lemma AcceptedExactly(ttlSeconds: nat, h: History, t: Token, now: int)
    requires Stamped(h.issued)
    ensures Decide(ttlSeconds, h, Refresh(t, now, true)).1.Issued? <==>
      (Last(h.issued, t.sid).Some? && Last(h.issued, t.sid).value.token == t && t.sid !in h.revoked && now / 1000 < t.iat + ttlSeconds)
  {
    LastIsOfSession(h.issued, t.sid);
    LastStamped(h.issued, t.sid);
    if Last(h.issued, t.sid).Some? && Last(h.issued, t.sid).value.token == t && now / 1000 < t.iat + ttlSeconds {
      SecondsSuffice(Last(h.issued, t.sid).value.at, now, ttlSeconds);
    }
  }

  /** The state after a run of requests, and the time of the last one. */
  function After(ttlSeconds: nat, cleanup: bool, w: World, rs: seq<Request>): World
    decreases |rs|
  {
    if rs == [] then w else After(ttlSeconds, cleanup, Next(ttlSeconds, cleanup, w, rs[0]).0, rs[1..])
  }

  function Clock(clock: int, rs: seq<Request>): int {
    if rs == [] then clock else rs[|rs| - 1].now
  }

  ghost predicate Sound(w: World, clock: int, ttlSeconds: nat) {
    Valid(w, clock, ttlSeconds) && RevokedWereUsed(w) && Stamped(w.issued)
  }

  lemma {:induction false} RunStaysSound(w: World, clock: int, ttlSeconds: nat, cleanup: bool, rs: seq<Request>)
    requires Sound(w, clock, ttlSeconds) && AllAllowed(ttlSeconds, HistoryOf(w), clock, rs)
    ensures Sound(After(ttlSeconds, cleanup, w, rs), Clock(clock, rs), ttlSeconds)
    decreases |rs|
  {
    if rs != [] {
      NextDecides(w, clock, ttlSeconds, cleanup, rs[0]);
      RevokedStayUsed(w, ttlSeconds, cleanup, rs[0]);
      StampedStays(ttlSeconds, HistoryOf(w), rs[0]);
      var next := Next(ttlSeconds, cleanup, w, rs[0]).0;
      RunStaysSound(next, rs[0].now, ttlSeconds, cleanup, rs[1..]);
      assert Clock(rs[0].now, rs[1..]) == Clock(clock, rs);
    }
  }

  const EMPTY := World(map[], [], {})

  /** After every run of requests from the empty table, with or without the clean-up, the rows accept an active admin's
      token exactly when it is the last one ever issued for its session, nothing ever revoked the session, and the
      token has not expired. */
  lemma AcceptedOverRunsExactly(ttlSeconds: nat, cleanup: bool, clock: int, rs: seq<Request>, t: Token, now: int)
    requires AllAllowed(ttlSeconds, HistoryOf(EMPTY), clock, rs) && Clock(clock, rs) <= now
    ensures
      var w := After(ttlSeconds, cleanup, EMPTY, rs);
      Next(ttlSeconds, cleanup, w, Refresh(t, now, true)).1.Issued? <==>
        && Last(w.issued, t.sid).Some? && Last(w.issued, t.sid).value.token == t
        && t.sid !in w.revoked && now / 1000 < t.iat + ttlSeconds
  {
    var w := After(ttlSeconds, cleanup, EMPTY, rs);
    RunStaysSound(EMPTY, clock, ttlSeconds, cleanup, rs);
    NextDecides(w, Clock(clock, rs), ttlSeconds, cleanup, Refresh(t, now, true));
    AcceptedExactly(ttlSeconds, HistoryOf(w), t, now);
  }

  /** An older token than the last one of a live session revokes the session, unless it has itself expired: then it is only
      turned away. */
  lemma StaleTokenRevokesExactly(ttlSeconds: nat, h: History, t: Token, now: int, active: bool)
    requires WasIssued(h.issued, t) && t.sid !in h.revoked
    requires Last(h.issued, t.sid).Some? && Last(h.issued, t.sid).value.token != t
    requires now < Last(h.issued, t.sid).value.at + ttlSeconds * 1000
    ensures Decide(ttlSeconds, h, Refresh(t, now, active)).1 == Rejected
    ensures t.sid in Decide(ttlSeconds, h, Refresh(t, now, active)).0.revoked <==> now / 1000 < t.iat + ttlSeconds
  {
  }

  /** A revoked session never comes back, whatever is requested afterwards. */
  lemma {:induction false} RevokedForGood(ttlSeconds: nat, h: History, sid: string, rs: seq<Request>)
    requires sid in h.revoked
    ensures |Decisions(ttlSeconds, h, rs)| == |rs|
    ensures forall i :: 0 <= i < |rs| && rs[i].Refresh? && rs[i].token.sid == sid ==> Decisions(ttlSeconds, h, rs)[i] == Rejected
    decreases |rs|
  {
    if rs != [] {
      var (after, answer) := Decide(ttlSeconds, h, rs[0]);
      RevokedForGood(ttlSeconds, after, sid, rs[1..]);
      forall i | 0 < i < |rs| && rs[i].Refresh? && rs[i].token.sid == sid ensures Decisions(ttlSeconds, h, rs)[i] == Rejected {
        assert rs[i] == rs[1..][i - 1];
      }
    }
  }

  /** Two refreshes within one second return the same token: the one presented is then not an older, different one. */
  lemma SameSecondSameToken(ttlSeconds: nat, h: History, t: Token, now: int)
    requires Stamped(h.issued) && Decide(ttlSeconds, h, Refresh(t, now, true)).1.Issued?
    ensures Decide(ttlSeconds, h, Refresh(t, now, true)).1 == Issued(t) <==> now / 1000 == t.iat
  {
  }

  // ----- the service -----

  class AuthService {
    const ttlSeconds: nat
    var sessions: map<string, Session>
    var signed: seq<Issue>
    ghost var revoked: set<string>

    constructor (ttlSeconds: nat)
      ensures this.ttlSeconds == ttlSeconds && State() == World(map[], [], {})
    {
      this.ttlSeconds := ttlSeconds;
      sessions := map[];
      signed := [];
      revoked := {};
    }

    ghost function State(): World
      reads this
    {
      World(sessions, signed, revoked)
    }

    method LogIn(adminUserId: string, sid: string, now: int) returns (answer: Answer)
      modifies this
      ensures (State(), answer) == Next(ttlSeconds, true, old(State()), Login(adminUserId, sid, now))
    {
      DeleteDeadSessions(now);
      answer := IssueSession(adminUserId, sid, now);
    }

    method DeleteDeadSessions(now: int)
      modifies this`sessions
      ensures sessions == Kept(old(sessions), now)
    {
      ghost var all := sessions;
      var left := sessions.Keys;
      var kept := sessions;
      while left != {}
        invariant left <= all.Keys
        invariant forall sid :: sid in kept <==> sid in all && (sid in left || !Dead(all[sid], now))
        invariant forall sid :: sid in kept ==> kept[sid] == all[sid]
      {
        var sid :| sid in left;
        left := left - {sid};
        if Dead(kept[sid], now) {
          kept := kept - {sid};
        }
      }
      sessions := kept;
    }

    method RefreshSession(t: Token, now: int, active: bool) returns (answer: Answer)
      modifies this
      ensures (State(), answer) == Next(ttlSeconds, true, old(State()), Refresh(t, now, active))
    {
      if !Verifies(signed, t, now, ttlSeconds) || t.sid !in sessions {
        return Rejected;
      }
      var session := sessions[t.sid];
      if session.revokedAt.Some? || session.expiresAt <= now {
        return Rejected;
      }
      if session.token != t {
        sessions := sessions[t.sid := session.(revokedAt := Some(now))];
        revoked := revoked + {t.sid};
        return Rejected;
      }
      if !active {
        return Forbidden;
      }
      answer := IssueSession(session.adminUserId, t.sid, now);
    }

    method LogOut(t: Token, now: int) returns (answer: Answer)
      modifies this
      ensures (State(), answer) == Next(ttlSeconds, true, old(State()), Logout(t, now))
    {
      if Verifies(signed, t, now, ttlSeconds) {
        if t.sid in sessions {
          sessions := sessions[t.sid := sessions[t.sid].(revokedAt := Some(now))];
        }
        revoked := revoked + {t.sid};
      }
      return LoggedOut;
    }

    method IssueSession(adminUserId: string, sid: string, now: int) returns (answer: Answer)
      modifies this`sessions, this`signed
      ensures State() == AfterIssue(old(State()), adminUserId, sid, now, ttlSeconds)
      ensures answer == Issued(NewToken(adminUserId, sid, now))
    {
      var token := NewToken(adminUserId, sid, now);
      sessions := sessions[sid := Session(adminUserId, token, now + ttlSeconds * 1000, None)];
      signed := signed + [Issue(token, now)];
      return Issued(token);
    }
  }
}
