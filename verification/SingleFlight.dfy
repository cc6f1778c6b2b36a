/** The HTTP client's token refresh. Any number of requests are in flight; when their token
    expires they all come back 401; the first to be handled starts a refresh and the rest wait
    for the same one; then each is sent once more. The server gives out a new refresh cookie at
    every use and treats an old one as a breach.

    A state holds the module's variables, every request and refresh ever made, and the server.
    Events are what the network, the server and the event loop may do next; an event that is
    not possible leaves the state alone, so a run is any sequence of events. */
module SingleFlight {
  import opened Basics

  /** `Waiting` and `BootWaiting` name the promise that is awaited. */
  datatype Phase =
    | InFlight(retried: bool)
    | Handling(status: nat, retried: bool)
    | Waiting(promise: nat)
    | Settled(ok: bool)

  datatype Request = Request(refreshable: bool, sends: nat, phase: Phase)

  datatype Boot = BootWaiting(promise: nat) | BootDone(ok: bool)

  /** A call to the refresh endpoint: sent with the cookie of the moment, answered by the
      server, arrived at the client, and settled once its `finally` has cleared the shared
      variable. `minted` is the new cookie and token, absent when the refresh failed. */
  datatype Refresh =
    | Sent(cookie: nat)
    | Answered(minted: Option<nat>)
    | Arrived(minted: Option<nat>)
    | Resolved(minted: Option<nat>)

  /** `strays` are the refreshes the client has given up before they reached the server, with
      the cookie they carry: they may still arrive. */
  datatype State = State(
    accessToken: Option<nat>,
    refreshPromise: Option<nat>,
    requests: seq<Request>,
    boots: seq<Boot>,
    refreshes: seq<Refresh>,
    sessionEnds: nat,
    cookie: nat,
    strays: map<nat, nat>,
    serverCookie: nat,
    breached: bool)

  const UNAUTHORISED: nat := 401

  datatype Event =
    | Send(refreshable: bool)
    | Bootstrap
    | Succeed(id: nat)
    | Fail(id: nat, status: nat)
    | Inspect(id: nat)
    | ServerHandles(refresh: nat, accept: bool)
    | StrayArrives(refresh: nat, accept: bool)
    | Deliver(refresh: nat)
    | Lose(refresh: nat, cookieKept: bool)
    | RunFinally(refresh: nat)
    | Wake(id: nat)
    | WakeBoot(id: nat)

  predicate IsResolved(s: State, promise: nat) {
    promise < |s.refreshes| && s.refreshes[promise].Resolved?
  }

  predicate Enabled(s: State, e: Event) {
    match e
    case Send(_) => true
    case Bootstrap => true
    case Succeed(id) => id < |s.requests| && s.requests[id].phase.InFlight?
    case Fail(id, _) => id < |s.requests| && s.requests[id].phase.InFlight?
    case Inspect(id) => id < |s.requests| && s.requests[id].phase.Handling?
    case ServerHandles(r, _) => r < |s.refreshes| && s.refreshes[r].Sent?
    case Deliver(r) => r < |s.refreshes| && s.refreshes[r].Answered?
    case StrayArrives(r, _) => r in s.strays
    case Lose(r, cookieKept) =>
      r < |s.refreshes| &&
      (|| (s.refreshes[r].Sent? && !cookieKept)
       || (s.refreshes[r].Answered? && (cookieKept ==> s.refreshes[r].minted.Some?)))
    case RunFinally(r) => r < |s.refreshes| && s.refreshes[r].Arrived?
    case Wake(id) =>
      id < |s.requests| && s.requests[id].phase.Waiting? && IsResolved(s, s.requests[id].phase.promise)
    case WakeBoot(id) =>
      id < |s.boots| && s.boots[id].BootWaiting? && IsResolved(s, s.boots[id].promise)
  }

  function SetRequest(s: State, id: nat, req: Request): State
    requires id < |s.requests|
  {
    s.(requests := s.requests[id := req])
  }

  function SetPhase(s: State, id: nat, phase: Phase): State
    requires id < |s.requests|
  {
    SetRequest(s, id, s.requests[id].(phase := phase))
  }

  function SetRefresh(s: State, r: nat, next: Refresh): State
    requires r < |s.refreshes|
  {
    s.(refreshes := s.refreshes[r := next])
  }

  /** `refreshPromise ??= refreshAccessToken().finally(...)`: the promise to wait for, and the
      state in which it exists. */
  function JoinOrStart(s: State): (State, nat) {
    match s.refreshPromise
    case Some(promise) => (s, promise)
    case None =>
      (s.(refreshes := s.refreshes + [Sent(s.cookie)], refreshPromise := Some(|s.refreshes|)),
       |s.refreshes|)
  }

  function EndSession(s: State): State {
    s.(accessToken := None, sessionEnds := s.sessionEnds + 1)
  }

  /** The response interceptor, from the point where the error body has been read. */
  function Intercept(s: State, id: nat): State
    requires id < |s.requests| && s.requests[id].phase.Handling?
  {
    var req := s.requests[id];
    var status, retried := req.phase.status, req.phase.retried;
    if status == UNAUTHORISED && !retried && req.refreshable then
      var (joined, promise) := JoinOrStart(s);
      SetPhase(joined, id, Waiting(promise))
    else if status == UNAUTHORISED && retried then
      SetPhase(EndSession(s), id, Settled(false))
    else
      SetPhase(s, id, Settled(false))
  }

  /** The server is shown a cookie: an old one is a breach, the current one is rotated. */
  function Arrive(s: State, cookie: nat, accept: bool): (State, Option<nat>) {
    if cookie != s.serverCookie then (s.(breached := true), None)
    else if s.breached || !accept then (s, None)
    else (s.(serverCookie := s.serverCookie + 1), Some(s.serverCookie + 1))
  }

  /** The client gives a refresh up, for its timeout or a broken connection. A request that has
      not reached the server yet may still do so. Of an answer on its way back the browser may
      have kept the cookie, although the page never gets the rest of it. */
  function GiveUp(s: State, r: nat, cookieKept: bool): State
    requires Enabled(s, Lose(r, cookieKept))
  {
    var lost := SetRefresh(s, r, Arrived(None));
    if s.refreshes[r].Sent? then lost.(strays := s.strays[r := s.refreshes[r].cookie])
    else if cookieKept then lost.(cookie := s.refreshes[r].minted.value)
    else lost
  }

  function Next(s: State, e: Event): State {
    if !Enabled(s, e) then s else
    match e
    case Send(refreshable) => s.(requests := s.requests + [Request(refreshable, 1, InFlight(false))])
    case Bootstrap =>
      var (joined, promise) := JoinOrStart(s);
      joined.(boots := joined.boots + [BootWaiting(promise)])
    case Succeed(id) => SetPhase(s, id, Settled(true))
    case Fail(id, status) => SetPhase(s, id, Handling(status, s.requests[id].phase.retried))
    case Inspect(id) => Intercept(s, id)
    case ServerHandles(r, accept) =>
      var (t, minted) := Arrive(s, s.refreshes[r].cookie, accept);
      SetRefresh(t, r, Answered(minted))
    case StrayArrives(r, accept) => Arrive(s, s.strays[r], accept).0.(strays := s.strays - {r})
    case Deliver(r) =>
      var minted := s.refreshes[r].minted;
      var arrived := SetRefresh(s, r, Arrived(minted));
      if minted.Some? then arrived.(cookie := minted.value, accessToken := minted) else arrived
    case Lose(r, cookieKept) => GiveUp(s, r, cookieKept)
    case RunFinally(r) => SetRefresh(s, r, Resolved(s.refreshes[r].minted)).(refreshPromise := None)
    case Wake(id) =>
      var req := s.requests[id];
      if s.refreshes[req.phase.promise].minted.Some? then
        SetRequest(s, id, req.(sends := req.sends + 1, phase := InFlight(true)))
      else SetPhase(EndSession(s), id, Settled(false))
    case WakeBoot(id) =>
      var ok := s.refreshes[s.boots[id].promise].minted.Some?;
      var done := s.(boots := s.boots[id := BootDone(ok)]);
      if ok then done else done.(accessToken := None)
  }

  function Run(s: State, es: seq<Event>): State {
    if es == [] then s else Next(Run(s, es[..|es| - 1]), es[|es| - 1])
  }

  /** A freshly loaded page whose cookie, whatever its number, is the server's current one. */
  predicate Initial(s: State) {
    && s.refreshPromise == None && s.requests == [] && s.boots == [] && s.refreshes == []
    && s.sessionEnds == 0 && s.cookie == s.serverCookie && s.strays == map[] && !s.breached
  }

  // ---------------------------------------------------------------------------
  // Single flight
  // ---------------------------------------------------------------------------

  predicate Outstanding(s: State, r: nat) {
    r < |s.refreshes| && !s.refreshes[r].Resolved?
  }

  /** The shared variable names exactly the refresh that is not yet resolved, and everybody who
      waits waits for a refresh that exists. */
  ghost predicate Shared(s: State) {
    && (s.refreshPromise.Some? ==> Outstanding(s, s.refreshPromise.value))
    && (forall r: nat | Outstanding(s, r) :: s.refreshPromise == Some(r))
    && (forall i | 0 <= i < |s.requests| && s.requests[i].phase.Waiting? ::
          s.requests[i].phase.promise < |s.refreshes|)
    && (forall i | 0 <= i < |s.boots| && s.boots[i].BootWaiting? :: s.boots[i].promise < |s.refreshes|)
  }

  lemma JoinOrStartKeepsShared(s: State)
    requires Shared(s)
    ensures var (joined, promise) := JoinOrStart(s);
            && Shared(joined) && promise < |joined.refreshes|
            && joined.requests == s.requests && joined.boots == s.boots
  {
    if s.refreshPromise.None? {
      var (joined, promise) := JoinOrStart(s);
      forall r: nat | Outstanding(joined, r) ensures joined.refreshPromise == Some(r) {
        assert r < |s.refreshes| ==> Outstanding(s, r);
      }
    }
  }

  lemma SetRefreshKeepsShared(s: State, r: nat, next: Refresh)
    requires Shared(s) && Outstanding(s, r) && !next.Resolved?
    ensures Shared(SetRefresh(s, r, next))
  {
    var t := SetRefresh(s, r, next);
    forall q: nat | Outstanding(t, q) ensures t.refreshPromise == Some(q) {
      assert Outstanding(s, q);
    }
  }

  lemma SetRequestKeepsShared(s: State, id: nat, req: Request)
    requires Shared(s) && id < |s.requests|
    requires req.phase.Waiting? ==> req.phase.promise < |s.refreshes|
    ensures Shared(SetRequest(s, id, req))
  {
    var t := SetRequest(s, id, req);
    assert forall r: nat :: Outstanding(t, r) <==> Outstanding(s, r);
  }

  lemma EndSessionKeepsShared(s: State)
    requires Shared(s)
    ensures Shared(EndSession(s))
  {
    assert forall r: nat :: Outstanding(EndSession(s), r) <==> Outstanding(s, r);
  }

  lemma FinallyKeepsShared(s: State, r: nat)
    requires Shared(s) && r < |s.refreshes| && s.refreshes[r].Arrived?
    ensures Shared(Next(s, RunFinally(r)))
  {
    var t := Next(s, RunFinally(r));
    assert Outstanding(s, r);
    forall q: nat | Outstanding(t, q) ensures t.refreshPromise == Some(q) {
      assert Outstanding(s, q);
    }
  }

  lemma RefreshStepKeepsShared(s: State, e: Event)
    requires Shared(s) && Enabled(s, e)
    requires e.ServerHandles? || e.Deliver? || e.Lose?
    ensures Shared(Next(s, e))
  {
    var t := Next(s, e);
    assert Outstanding(s, e.refresh);
    SetRefreshKeepsShared(s, e.refresh, t.refreshes[e.refresh]);
    var u := SetRefresh(s, e.refresh, t.refreshes[e.refresh]);
    assert forall r: nat :: Outstanding(t, r) <==> Outstanding(u, r);
  }

  /** Refreshes, their promise and who waits for them are all that matters. */
  lemma SameRefreshesShared(s: State, t: State)
    requires Shared(s) && t.refreshes == s.refreshes && t.refreshPromise == s.refreshPromise
    requires forall i | 0 <= i < |t.requests| && t.requests[i].phase.Waiting? ::
               t.requests[i].phase.promise < |t.refreshes|
    requires forall i | 0 <= i < |t.boots| && t.boots[i].BootWaiting? :: t.boots[i].promise < |t.refreshes|
    ensures Shared(t)
  {
    assert forall r: nat :: Outstanding(t, r) <==> Outstanding(s, r);
  }

  lemma RequestStepKeepsShared(s: State, e: Event)
    requires Shared(s) && Enabled(s, e) && (e.Succeed? || e.Fail? || e.Wake?)
    ensures Shared(Next(s, e))
  {
    SameRefreshesShared(s, Next(s, e));
  }

  lemma NextKeepsShared(s: State, e: Event)
    requires Shared(s)
    ensures Shared(Next(s, e))
  {
    if Enabled(s, e) {
      match e
      case Bootstrap =>
        JoinOrStartKeepsShared(s);
        SameRefreshesShared(JoinOrStart(s).0, Next(s, e));
      case Inspect(id) => InterceptKeepsShared(s, id);
      case RunFinally(r) => FinallyKeepsShared(s, r);
      case Succeed(_) => RequestStepKeepsShared(s, e);
      case Fail(_, _) => RequestStepKeepsShared(s, e);
      case Wake(_) => RequestStepKeepsShared(s, e);
      case Send(_) => SameRefreshesShared(s, Next(s, e));
      case WakeBoot(_) => SameRefreshesShared(s, Next(s, e));
      case StrayArrives(_, _) => SameRefreshesShared(s, Next(s, e));
      case _ => RefreshStepKeepsShared(s, e);
    }
  }

  lemma InterceptKeepsShared(s: State, id: nat)
    requires Shared(s) && id < |s.requests| && s.requests[id].phase.Handling?
    ensures Shared(Intercept(s, id))
  {
    JoinOrStartKeepsShared(s);
    EndSessionKeepsShared(s);
    var joined := JoinOrStart(s).0;
    var t := Intercept(s, id);
    SetRequestKeepsShared(joined, id, t.requests[id].(phase := Waiting(JoinOrStart(s).1)));
    SetRequestKeepsShared(EndSession(s), id, t.requests[id].(phase := Settled(false)));
    SetRequestKeepsShared(s, id, t.requests[id].(phase := Settled(false)));
  }

  lemma {:induction false} RunKeepsShared(s: State, es: seq<Event>)
    requires Shared(s)
    ensures Shared(Run(s, es))
    decreases |es|
  {
    if es != [] {
      RunKeepsShared(s, es[..|es| - 1]);
      NextKeepsShared(Run(s, es[..|es| - 1]), es[|es| - 1]);
    }
  }

  /** In every reachable state at most one refresh is outstanding, and all who wait for a
      refresh that has not resolved wait for that one. */
  lemma AtMostOneRefresh(s: State, es: seq<Event>)
    requires Initial(s)
    ensures var t := Run(s, es);
            && (forall q: nat, r: nat | Outstanding(t, q) && Outstanding(t, r) :: q == r)
            && (forall i | 0 <= i < |t.requests| && t.requests[i].phase.Waiting? ::
                  var p := t.requests[i].phase.promise;
                  t.refreshPromise == Some(p) || IsResolved(t, p))
            && (forall i | 0 <= i < |t.boots| && t.boots[i].BootWaiting? ::
                  var p := t.boots[i].promise;
                  t.refreshPromise == Some(p) || IsResolved(t, p))
  {
    RunKeepsShared(s, es);
    var t := Run(s, es);
    forall p: nat | p < |t.refreshes| && !IsResolved(t, p) ensures t.refreshPromise == Some(p) {
      assert Outstanding(t, p);
    }
  }
}
