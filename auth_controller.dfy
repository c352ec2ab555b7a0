/** The session registry of the authentication controller and its weekday
    helpers. The registry maps a session token to the session it opened; the
    clock is a parameter (`now`, milliseconds since the epoch, or `today`,
    the weekday index 0 = Sunday). */
module AuthController {
  import opened Outcomes
  import opened JsStrings
  import PostItModel

  /** What the registry remembers about a login. */
  datatype Session = Session(username: string, expiresAt: int)

  /** The expiry every session is given: `2147483647 * 1000` milliseconds
      after the epoch. */
  const FarFutureExpiry: int := 2147483647 * 1000

  /** The session `createSession` stores for a username. */
  function NewSession(username: string): (s: Session)
    ensures s.username == username && s.expiresAt == FarFutureExpiry
  {
    Session(username, FarFutureExpiry)
  }

  /** `isExpired` as written: its body evaluates a comparison and drops it,
      so the call yields `undefined`, which is falsy. (Even with a `return`,
      the stored expiry is a date string, which compares with a `Date` as
      `NaN`, so the answer would still be false.) The registry below uses
      this check. */
  function IsExpiredAsWritten(s: Session, now: int): (expired: bool)
    ensures !expired
  {
    false
  }

  /** `isExpired` as intended: the session's expiry lies in the past. */
  function IsExpired(s: Session, now: int): bool
  {
    s.expiresAt < now
  }

  /** The cookie that carries the session token. */
  const SessionCookie: string := "sessionId"

  /** The part of a request the registry reads: its parsed cookies, absent
      when the request carries none. */
  datatype Request = Request(cookies: Option<map<string, string>>)

  /** The token a request presents: none without cookies, without a
      `sessionId` cookie, or when that cookie is empty (falsy). */
  function SessionIdOf(req: Request): (id: Option<string>)
    ensures id.Some? <==> req.cookies.Some? && SessionCookie in req.cookies.value
                          && req.cookies.value[SessionCookie] != ""
    ensures id.Some? ==> id.value == req.cookies.value[SessionCookie] && id.value != ""
  {
    if req.cookies.None? then None
    else if SessionCookie !in req.cookies.value then None
    else if req.cookies.value[SessionCookie] == "" then None
    else Some(req.cookies.value[SessionCookie])
  }

  /** A request carrying exactly the given token. */
  function RequestWith(token: string): (req: Request)
    ensures token != "" ==> SessionIdOf(req) == Some(token)
  {
    Request(Some(map[SessionCookie := token]))
  }

  /** What `authenticateUser` returns on success. */
  datatype Authenticated = Authenticated(sessionId: string, userSession: Session)

  /** The answer of `authenticateUser` as written: the presented token with
      its session when the token is registered. The expiry test never fires,
      so the time plays no part. */
  function Authenticate(sessions: map<string, Session>, req: Request, now: int): (r: Option<Authenticated>)
    ensures r.Some? <==> SessionIdOf(req).Some? && SessionIdOf(req).value in sessions
    ensures r.Some? ==> SessionIdOf(req) == Some(r.value.sessionId)
                        && r.value.sessionId in sessions
                        && r.value.userSession == sessions[r.value.sessionId]
  {
    match SessionIdOf(req)
    case None => None
    case Some(id) =>
      if id !in sessions || IsExpiredAsWritten(sessions[id], now) then None
      else Some(Authenticated(id, sessions[id]))
  }

  /** The registry after `authenticateUser` as written: the deletion of an
      expired session is never reached, so nothing changes. */
  function AfterAuthenticate(sessions: map<string, Session>, req: Request, now: int): (r: map<string, Session>)
    ensures r == sessions
  {
    match SessionIdOf(req)
    case None => sessions
    case Some(id) =>
      if id in sessions && IsExpiredAsWritten(sessions[id], now) then sessions - {id} else sessions
  }

  /** The reply of `logout`. */
  datatype LogoutReply = Unauthorized401 | RedirectHome

  /** The registry after `logout`: the authenticated session is removed; an
      unauthenticated request changes only what `authenticateUser` did. */
  function AfterLogout(sessions: map<string, Session>, req: Request, now: int): (r: map<string, Session>)
    ensures forall k :: k in r ==> k in sessions && r[k] == sessions[k]
    ensures forall k :: k in sessions && SessionIdOf(req) != Some(k) ==> k in r
    ensures Authenticate(sessions, req, now).Some? ==>
              r.Keys == sessions.Keys - {Authenticate(sessions, req, now).value.sessionId}
    ensures Authenticate(sessions, req, now).None? ==> r == AfterAuthenticate(sessions, req, now)
  {
    match Authenticate(sessions, req, now)
    case None => AfterAuthenticate(sessions, req, now)
    case Some(a) => sessions - {a.sessionId}
  }

  /** The answer `authenticateUser` was meant to give: a registered token
      whose session has not expired. */
  function AuthenticateIntended(sessions: map<string, Session>, req: Request, now: int): (r: Option<Authenticated>)
    ensures r.Some? <==> SessionIdOf(req).Some? && SessionIdOf(req).value in sessions
                         && !IsExpired(sessions[SessionIdOf(req).value], now)
    ensures r.Some? ==> r == Authenticate(sessions, req, now)
  {
    match SessionIdOf(req)
    case None => None
    case Some(id) =>
      if id !in sessions || IsExpired(sessions[id], now) then None
      else Some(Authenticated(id, sessions[id]))
  }

  /** The registry `authenticateUser` was meant to leave: an expired session
      presented by the request is dropped; nothing else changes. */
  function AfterAuthenticateIntended(sessions: map<string, Session>, req: Request, now: int): (r: map<string, Session>)
    ensures forall k :: k in r ==> k in sessions && r[k] == sessions[k]
    ensures forall k :: k in sessions && SessionIdOf(req) != Some(k) ==> k in r
    ensures AuthenticateIntended(sessions, req, now).Some? ==> r == sessions
  {
    match SessionIdOf(req)
    case None => sessions
    case Some(id) =>
      if id in sessions && IsExpired(sessions[id], now) then sessions - {id} else sessions
  }

  /** As written, a registered token authenticates at every time, even past
      its session's expiry, and authentication never removes a session. */
  lemma {:induction false} RegisteredAlwaysAuthenticates(sessions: map<string, Session>, token: string, now: int)
    requires token != "" && token in sessions
    ensures Authenticate(sessions, RequestWith(token), now) == Some(Authenticated(token, sessions[token]))
    ensures AfterAuthenticate(sessions, RequestWith(token), now) == sessions
  {
    assert SessionIdOf(RequestWith(token)) == Some(token);
  }

  /** As written, a session past its expiry is still accepted and kept. */
  lemma ExpiredSessionKeptAsWritten(sessions: map<string, Session>, token: string, now: int)
    requires token != "" && token in sessions
    requires sessions[token].expiresAt < now
    ensures IsExpired(sessions[token], now)
    ensures Authenticate(sessions, RequestWith(token), now) == Some(Authenticated(token, sessions[token]))
    ensures token in AfterAuthenticate(sessions, RequestWith(token), now)
  {
    RegisteredAlwaysAuthenticates(sessions, token, now);
  }

  /** With a working expiry check, an expired token is refused and exactly
      its session is dropped. */
  lemma ExpiredSessionRejected(sessions: map<string, Session>, token: string, now: int)
    requires token != "" && token in sessions
    requires sessions[token].expiresAt < now
    ensures AuthenticateIntended(sessions, RequestWith(token), now).None?
    ensures AfterAuthenticateIntended(sessions, RequestWith(token), now) == sessions - {token}
  {
    assert SessionIdOf(RequestWith(token)) == Some(token);
  }

  /** A session just created authenticates its token, at every time. */
  lemma CreateThenAuthenticate(sessions: map<string, Session>, username: string, token: string, now: int)
    requires token != ""
    ensures Authenticate(sessions[token := NewSession(username)], RequestWith(token), now)
            == Some(Authenticated(token, NewSession(username)))
  {
  }

  /** After logout the token no longer authenticates, at any later time. */
  lemma LogoutRevokes(sessions: map<string, Session>, req: Request, now: int, later: int)
    requires Authenticate(sessions, req, now).Some?
    ensures Authenticate(AfterLogout(sessions, req, now), req, later).None?
  {
  }

  /** Logging in with a fresh token and logging out with it gives back the
      registry as it was. */
  lemma {:induction false} CreateThenLogoutRestores(sessions: map<string, Session>, username: string, token: string, now: int)
    requires token != "" && token !in sessions
    ensures AfterLogout(sessions[token := NewSession(username)], RequestWith(token), now) == sessions
  {
    var created := sessions[token := NewSession(username)];
    CreateThenAuthenticate(sessions, username, token, now);
    var after := AfterLogout(created, RequestWith(token), now);
    assert after == created - {token};
    assert after.Keys == sessions.Keys;
  }

  /** The registry as a whole: every session carries the fixed expiry. */
  ghost predicate AllFarFuture(sessions: map<string, Session>)
  {
    forall k :: k in sessions ==> sessions[k].expiresAt == FarFutureExpiry
  }

  /** On a registry of sessions made by `createSession` the written and the
      intended checks agree until the fixed expiry: the missing `return`
      makes no difference before then. */
  lemma IntendedAgreesBeforeFarFuture(sessions: map<string, Session>, req: Request, now: int)
    requires AllFarFuture(sessions)
    requires now <= FarFutureExpiry
    ensures AuthenticateIntended(sessions, req, now) == Authenticate(sessions, req, now)
    ensures AfterAuthenticateIntended(sessions, req, now) == AfterAuthenticate(sessions, req, now)
  {
  }

  /** The module-level `sessions` object of the controller. */
  class SessionRegistry {
    var sessions: map<string, Session>

    ghost predicate Valid()
      reads this
    {
      AllFarFuture(sessions)
    }

    constructor ()
      ensures Valid() && sessions == map[]
    {
      sessions := map[];
    }

    /** `createSession`: stores a session for the username under the token
        the UUID generator supplied and returns that token. The generator is
        a parameter; what is required of it is that the token is non-empty
        and not yet in use. */
    method CreateSession(username: string, token: string) returns (sessionId: string)
      requires Valid()
      requires token != "" && token !in sessions
      modifies this
      ensures Valid()
      ensures sessionId == token && sessionId !in old(sessions)
      ensures sessions == old(sessions)[sessionId := NewSession(username)]
      ensures sessions.Keys == old(sessions).Keys + {sessionId}
    {
      sessionId := token;
      var thisSession := Session(username, FarFutureExpiry);
      sessions := sessions[sessionId := thisSession];
    }

    /** `authenticateUser`: reads the session token from the cookies and
        returns it with its session, or nothing. The deletion of an expired
        session is guarded by the written `isExpired`, so it never runs. */
    method AuthenticateUser(req: Request, now: int) returns (r: Option<Authenticated>)
      requires Valid()
      modifies this
      ensures Valid()
      ensures r == Authenticate(old(sessions), req, now)
      ensures sessions == AfterAuthenticate(old(sessions), req, now)
    {
      if req.cookies.None? {
        return None;
      }
      var cookies := req.cookies.value;
      if SessionCookie !in cookies || cookies[SessionCookie] == "" {
        return None;
      }
      var sessionId := cookies[SessionCookie];
      if sessionId !in sessions {
        return None;
      }
      var userSession := sessions[sessionId];
      if IsExpiredAsWritten(userSession, now) {
        // The source deletes the session and answers nothing here; the
        // written check never lets control reach this branch.
        assert false;
      }
      r := Some(Authenticated(sessionId, userSession));
    }

    /** The registry part of `logout`: an unauthenticated request is answered
        401; otherwise its session is deleted and the user is sent home. */
    method Logout(req: Request, now: int) returns (reply: LogoutReply)
      requires Valid()
      modifies this
      ensures Valid()
      ensures reply == RedirectHome <==> Authenticate(old(sessions), req, now).Some?
      ensures sessions == AfterLogout(old(sessions), req, now)
    {
      var authenticatedSession := AuthenticateUser(req, now);
      if authenticatedSession.None? {
        return Unauthorized401;
      }
      sessions := sessions - {authenticatedSession.value.sessionId};
      reply := RedirectHome;
    }
  }

  /** The controller's day table, indexed by `Date.getDay()`. */
  const Weekdays: seq<string> := ["Sunday", "Monday", "Tuesday", "Wednesday", "Thursday", "Friday", "Saturday"]

  /** A value of `Date.getDay()`. */
  type DayIndex = d: int | 0 <= d < 7

  lemma LowerOf(s: string, t: string)
    requires |s| == |t|
    requires forall j :: 0 <= j < |s| ==> LowerChar(s[j]) == t[j]
    ensures Lower(s) == t
  {
  }

  /** Lower-casing the controller's table gives the model's day names. */
  lemma WeekdaysLowered()
    ensures forall i :: 0 <= i < 7 ==> Lower(Weekdays[i]) == PostItModel.LowerWeekdays[i]
  {
    forall i | 0 <= i < 7
      ensures Lower(Weekdays[i]) == PostItModel.LowerWeekdays[i]
    {
      LowerOf(Weekdays[i], PostItModel.LowerWeekdays[i]);
    }
  }

  /** `getDayOfWeek`, with the weekday index passed in. */
  function DayOfWeek(today: DayIndex): (name: string)
    ensures name in Weekdays
    ensures Lower(name) == PostItModel.LowerWeekdays[today]
  {
    WeekdaysLowered();
    Weekdays[today]
  }

  /** `setDashboardToCurrentDay`: whether a day is today, ignoring case. */
  function SetDashboardToCurrentDay(day: string, today: DayIndex): (shown: bool)
    ensures shown <==> Lower(day) == PostItModel.LowerWeekdays[today]
  {
    Lower(day) == Lower(DayOfWeek(today))
  }

  /** Of the seven tabs of the dashboard exactly today's is shown. */
  lemma DashboardShowsOnlyToday(i: DayIndex, today: DayIndex)
    ensures SetDashboardToCurrentDay(Weekdays[i], today) <==> i == today
  {
    WeekdaysLowered();
    assert Lower(Weekdays[i]) == PostItModel.LowerWeekdays[i];
    WeekdayNamesDistinct();
  }

  /** No two of the model's day names are equal. */
  lemma WeekdayNamesDistinct()
    ensures forall i, j :: 0 <= i < j < 7 ==> PostItModel.LowerWeekdays[i] != PostItModel.LowerWeekdays[j]
  {
  }

  /** The comparison ignores the case of the day it is given. */
  lemma DashboardIgnoresCase(day: string, today: DayIndex)
    ensures SetDashboardToCurrentDay(Lower(day), today) == SetDashboardToCurrentDay(day, today)
  {
    LowerIdempotent(day);
  }

  /** Every entry of the capitalised table, lower-cased, passes the model's
      weekday check. */
  lemma WeekdayNamesAreValid()
    ensures forall i :: 0 <= i < 7 ==> PostItModel.ValidWeekDay(Text(Lower(Weekdays[i])))
  {
    WeekdaysLowered();
  }

  /** `buildDashboard`: the day is lower-cased and the user's open post-its
      for it are looked up. A day of the controller's table always yields
      the listing. */
  method BuildDashboard(day: string, userId: nat, postIts: PostItModel.PostItTable) returns (r: Result<seq<PostItModel.PostIt>>)
    ensures PostItModel.ValidWeekDay(Text(Lower(day))) ==> r == Ok(PostItModel.OpenOnDay(postIts.rows, Lower(day), userId))
    ensures !PostItModel.ValidWeekDay(Text(Lower(day))) ==> r == Err(PostItException)
    ensures day in Weekdays ==> r == Ok(PostItModel.OpenOnDay(postIts.rows, Lower(day), userId))
  {
    WeekdayNamesAreValid();
    var lowered := Lower(day);
    r := postIts.FindByWeekdayAndUserId(Text(lowered), userId);
  }
}
