/** What an expired access token leads to: a refresh, and then the same request once more. */
module RequestRetry {
  import opened Basics
  import opened SingleFlight
  import opened RequestLifecycle

  // ---------------------------------------------------------------------------
  // One handler at a time
  // ---------------------------------------------------------------------------

  /** A new request is sent once, and remembers whether its path may refresh. */
  lemma NewRequestIsSent(s: State, refreshable: bool)
    ensures Next(s, Send(refreshable)).requests == s.requests + [Request(refreshable, 1, InFlight(false))]
  {
  }

  /** The answer to a request is the answer to its last send: a success settles it as one, and a
      failure is looked at with its status and with whether it was a retry. */
  lemma AnswerIsTaken(s: State, id: nat, status: nat)
    requires id < |s.requests| && s.requests[id].phase.InFlight?
    ensures Next(s, Succeed(id)) == SetPhase(s, id, Settled(true))
    ensures Next(s, Fail(id, status)) == SetPhase(s, id, Handling(status, s.requests[id].phase.retried))
  {
  }

  /** A first 401 on a request that may refresh. */
  predicate FirstRejection(s: State, id: nat) {
    id < |s.requests| && s.requests[id].refreshable && s.requests[id].phase == Handling(UNAUTHORISED, false)
  }

  /** It waits for the shared refresh: the one that is running, or a new one with the client's
      cookie if there is none. Nothing is sent twice yet and no session ends. */
  lemma FirstRejectionWaits(s: State, id: nat)
    requires FirstRejection(s, id)
    ensures var t := Next(s, Inspect(id));
            && t.refreshPromise.Some? && t.requests[id] == s.requests[id].(phase := Waiting(t.refreshPromise.value))
            && t.sessionEnds == s.sessionEnds && t.accessToken == s.accessToken
            && (s.refreshPromise.Some? ==> t.refreshPromise == s.refreshPromise && t.refreshes == s.refreshes)
            && (s.refreshPromise.None? ==>
                  t.refreshPromise == Some(|s.refreshes|) && t.refreshes == s.refreshes + [Sent(s.cookie)])
  {
  }

  /** Any other failure is handed on as it is: another status, or a 401 on a path that never
      refreshes. The session goes on. */
  lemma OtherFailureIsHandedOn(s: State, id: nat)
    requires Enabled(s, Inspect(id)) && !FirstRejection(s, id)
    requires s.requests[id].phase != Handling(UNAUTHORISED, true)
    ensures Next(s, Inspect(id)) == SetPhase(s, id, Settled(false))
  {
  }

  /** A 401 on a retried request ends the session and drops the token. */
  lemma SecondRejectionEndsSession(s: State, id: nat)
    requires id < |s.requests| && s.requests[id].phase == Handling(UNAUTHORISED, true)
    ensures var t := Next(s, Inspect(id));
            t.requests[id].phase == Settled(false) && t.sessionEnds == s.sessionEnds + 1 && t.accessToken == None
  {
  }

  /** A refresh that is delivered gives the page its token and cookie before anyone is woken. */
  lemma DeliveredTokenIsStored(s: State, r: nat, token: nat)
    requires r < |s.refreshes| && s.refreshes[r] == Answered(Some(token))
    ensures var t := Next(Next(s, Deliver(r)), RunFinally(r));
            && t.accessToken == Some(token) && t.cookie == token
            && t.refreshPromise == None && t.refreshes[r] == Resolved(Some(token))
            && t.requests == s.requests
  {
  }

  /** Whoever waited for it is sent once more. */
  lemma WokenRequestIsSentAgain(s: State, id: nat, r: nat, token: nat)
    requires id < |s.requests| && s.requests[id].phase == Waiting(r)
    requires r < |s.refreshes| && s.refreshes[r] == Resolved(Some(token))
    ensures var t := Next(s, Wake(id));
            && t.requests[id] == s.requests[id].(sends := s.requests[id].sends + 1, phase := InFlight(true))
            && t.sessionEnds == s.sessionEnds && t.accessToken == s.accessToken
  {
  }

  /** Whoever waited for a refresh that failed ends the session. */
  lemma FailedRefreshEndsSession(s: State, id: nat, r: nat)
    requires id < |s.requests| && s.requests[id].phase == Waiting(r)
    requires r < |s.refreshes| && s.refreshes[r] == Resolved(None)
    ensures var t := Next(s, Wake(id));
            t.requests[id].phase == Settled(false) && t.sessionEnds == s.sessionEnds + 1 && t.accessToken == None
  {
  }

  /** A restore reports whether its refresh succeeded; a failed one drops the token, and neither
      ends the session. */
  lemma RestoreReports(s: State, id: nat, r: nat)
    requires id < |s.boots| && s.boots[id] == BootWaiting(r) && IsResolved(s, r)
    ensures var t, ok := Next(s, WakeBoot(id)), s.refreshes[r].minted.Some?;
            && t.boots[id] == BootDone(ok) && t.sessionEnds == s.sessionEnds
            && t.accessToken == if ok then s.accessToken else None
  {
  }

  // ---------------------------------------------------------------------------
  // Over whole runs
  // ---------------------------------------------------------------------------

  predicate HasFailed(s: State, r: nat) {
    r < |s.refreshes| && s.refreshes[r] == Resolved(None)
  }

  predicate SentTwice(s: State, id: nat) {
    id < |s.requests| && s.requests[id].sends >= 2
  }

  /** The request waits for refresh `r`, has been sent again, or `r` has failed. */
  predicate OnItsWay(s: State, id: nat, r: nat) {
    || (id < |s.requests| && s.requests[id].phase == Waiting(r) && s.requests[id].sends >= 1)
    || SentTwice(s, id) || HasFailed(s, r)
  }

  lemma FailureStays(s: State, e: Event, r: nat)
    requires HasFailed(s, r)
    ensures HasFailed(Next(s, e), r)
  {
  }

  lemma SendsStay(s: State, e: Event, id: nat)
    requires SentTwice(s, id)
    ensures SentTwice(Next(s, e), id)
  {
  }

  lemma WaitingMovesOn(s: State, e: Event, id: nat, r: nat)
    requires id < |s.requests| && s.requests[id].phase == Waiting(r) && s.requests[id].sends >= 1
    ensures OnItsWay(Next(s, e), id, r)
  {
    if e == Wake(id) && Enabled(s, e) {
      assert IsResolved(s, r);
    }
  }

  lemma NextKeepsOnItsWay(s: State, e: Event, id: nat, r: nat)
    requires OnItsWay(s, id, r)
    ensures OnItsWay(Next(s, e), id, r)
  {
    if SentTwice(s, id) {
      SendsStay(s, e, id);
    } else if HasFailed(s, r) {
      FailureStays(s, e, r);
    } else {
      WaitingMovesOn(s, e, id, r);
    }
  }

  lemma {:induction false} RunKeepsOnItsWay(s: State, es: seq<Event>, id: nat, r: nat)
    requires OnItsWay(s, id, r)
    ensures OnItsWay(Run(s, es), id, r)
    decreases |es|
  {
    if es != [] {
      RunKeepsOnItsWay(s, es[..|es| - 1], id, r);
      NextKeepsOnItsWay(Run(s, es[..|es| - 1]), es[|es| - 1], id, r);
    }
  }

  /** The promise of the client: whatever happens in between, by the time everything has settled a
      request that came back 401 once has been sent a second time, unless the refresh it waited
      for failed. */
  lemma RejectedOnceIsRetried(s: State, es: seq<Event>, id: nat)
    requires Shared(s) && SendsOk(s) && FirstRejection(s, id)
    ensures var r := Next(s, Inspect(id)).refreshPromise.value;
            var t := Run(Next(s, Inspect(id)), es);
            Quiescent(t) ==> SentTwice(t, id) || HasFailed(t, r)
  {
    FirstRejectionWaits(s, id);
    var n := Next(s, Inspect(id));
    var r := n.refreshPromise.value;
    assert SendsMatchPhase(s.requests[id]);
    RunKeepsOnItsWay(n, es, id, r);
    NextKeepsShared(s, Inspect(id));
    RunKeepsShared(n, es);
    if Quiescent(Run(n, es)) {
      QuiescentMeansSettled(Run(n, es));
    }
  }

  /** In particular from a fresh page on. */
  lemma ReachableRejectedIsRetried(s: State, before: seq<Event>, es: seq<Event>, id: nat)
    requires Initial(s) && FirstRejection(Run(s, before), id)
    ensures var n := Next(Run(s, before), Inspect(id));
            Quiescent(Run(n, es)) ==> SentTwice(Run(n, es), id) || HasFailed(Run(n, es), n.refreshPromise.value)
  {
    RunKeepsShared(s, before);
    SentAtMostTwice(s, before);
    RejectedOnceIsRetried(Run(s, before), es, id);
  }

  // ---------------------------------------------------------------------------
  // When the session does end
  // ---------------------------------------------------------------------------

  /** The session is bound to end: a retried request has come back 401, or a request waits for a
      refresh that has failed; or it has ended. */
  predicate Doomed(s: State, id: nat) {
    || s.sessionEnds > 0
    || (id < |s.requests| && s.requests[id].phase == Handling(UNAUTHORISED, true))
    || (id < |s.requests| && s.requests[id].phase.Waiting? && Failing(s, s.requests[id].phase.promise))
  }

  predicate Failing(s: State, r: nat) {
    r < |s.refreshes| && (s.refreshes[r] == Arrived(None) || s.refreshes[r] == Resolved(None))
  }

  lemma FailingStays(s: State, e: Event, r: nat)
    requires Failing(s, r)
    ensures Failing(Next(s, e), r)
  {
  }

  lemma EndsStay(s: State, e: Event)
    ensures s.sessionEnds <= Next(s, e).sessionEnds
  {
  }

  lemma RejectedStaysDoomed(s: State, e: Event, id: nat)
    requires id < |s.requests| && s.requests[id].phase == Handling(UNAUTHORISED, true)
    ensures Doomed(Next(s, e), id)
  {
  }

  lemma WaiterStaysDoomed(s: State, e: Event, id: nat)
    requires id < |s.requests| && s.requests[id].phase.Waiting? && Failing(s, s.requests[id].phase.promise)
    ensures Doomed(Next(s, e), id)
  {
    FailingStays(s, e, s.requests[id].phase.promise);
  }

  lemma NextKeepsDoomed(s: State, e: Event, id: nat)
    requires Doomed(s, id)
    ensures Doomed(Next(s, e), id)
  {
    EndsStay(s, e);
    if s.sessionEnds == 0 {
      if s.requests[id].phase.Waiting? {
        WaiterStaysDoomed(s, e, id);
      } else {
        RejectedStaysDoomed(s, e, id);
      }
    }
  }

  lemma {:induction false} RunKeepsDoomed(s: State, es: seq<Event>, id: nat)
    requires Doomed(s, id)
    ensures Doomed(Run(s, es), id)
    decreases |es|
  {
    if es != [] {
      RunKeepsDoomed(s, es[..|es| - 1], id);
      NextKeepsDoomed(Run(s, es[..|es| - 1]), es[|es| - 1], id);
    }
  }

  /** The other half of ending for cause: once a retried request has come back 401, or a request
      waits for a refresh that failed, the session has ended by the time everything has settled. */
  lemma CauseEndsSession(s: State, es: seq<Event>, id: nat)
    requires Shared(s) && Doomed(s, id)
    ensures Quiescent(Run(s, es)) ==> Run(s, es).sessionEnds > 0
  {
    RunKeepsDoomed(s, es, id);
    RunKeepsShared(s, es);
    if Quiescent(Run(s, es)) {
      QuiescentMeansSettled(Run(s, es));
    }
  }
}
