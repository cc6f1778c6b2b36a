/** What becomes of a request: how often it is sent, that it ends, and when the session does. */
module RequestLifecycle {
  import opened Basics
  import opened SingleFlight

  // ---------------------------------------------------------------------------
  // At most two sends
  // ---------------------------------------------------------------------------

  predicate SendsMatchPhase(req: Request) {
    match req.phase
    case InFlight(retried) => req.sends == if retried then 2 else 1
    case Handling(_, retried) => req.sends == if retried then 2 else 1
    case Waiting(_) => req.sends == 1 && req.refreshable
    case Settled(_) => 1 <= req.sends <= 2
  }

  ghost predicate SendsOk(s: State) {
    forall i | 0 <= i < |s.requests| :: SendsMatchPhase(s.requests[i])
  }

  lemma SetRequestKeepsSendsOk(s: State, id: nat, req: Request)
    requires SendsOk(s) && id < |s.requests| && SendsMatchPhase(req)
    ensures SendsOk(SetRequest(s, id, req))
  {
  }

  lemma NextKeepsSendsOk(s: State, e: Event)
    requires SendsOk(s)
    ensures SendsOk(Next(s, e))
  {
    if Enabled(s, e) && (e.Succeed? || e.Fail? || e.Wake? || e.Inspect?) {
      assert SendsMatchPhase(s.requests[e.id]);
      SetRequestKeepsSendsOk(s, e.id, Next(s, e).requests[e.id]);
    }
  }

  /** No request is ever sent a third time. */
  lemma {:induction false} SentAtMostTwice(s: State, es: seq<Event>)
    requires Initial(s)
    ensures SendsOk(Run(s, es))
    ensures forall i | 0 <= i < |Run(s, es).requests| :: 1 <= Run(s, es).requests[i].sends <= 2
    decreases |es|
  {
    if es != [] {
      SentAtMostTwice(s, es[..|es| - 1]);
      NextKeepsSendsOk(Run(s, es[..|es| - 1]), es[|es| - 1]);
    }
    assert forall i | 0 <= i < |Run(s, es).requests| :: SendsMatchPhase(Run(s, es).requests[i]);
  }

  // ---------------------------------------------------------------------------
  // Termination
  // ---------------------------------------------------------------------------

  /** Steps a request may still take, counting the refresh it may have to start. */
  function Weight(req: Request): nat {
    match req.phase
    case InFlight(retried) => if retried then 2 else 8
    case Handling(_, retried) => if retried then 1 else 7
    case Waiting(_) => 3
    case Settled(_) => 0
  }

  function RefreshWeight(r: Refresh): nat {
    match r
    case Sent(_) => 3
    case Answered(_) => 2
    case Arrived(_) => 1
    case Resolved(_) => 0
  }

  function BootWeight(b: Boot): nat {
    if b.BootWaiting? then 1 else 0
  }

  function Sum(weights: seq<nat>): nat {
    if weights == [] then 0 else Sum(weights[..|weights| - 1]) + weights[|weights| - 1]
  }

  lemma {:induction false} SumUpdate(w: seq<nat>, i: nat, x: nat)
    requires i < |w|
    ensures Sum(w[i := x]) + w[i] == Sum(w) + x
    decreases |w|
  {
    var n := |w| - 1;
    if i == n {
      assert w[i := x][..n] == w[..n];
    } else {
      assert w[i := x][..n] == w[..n][i := x];
      SumUpdate(w[..n], i, x);
    }
  }

  lemma SumAppend(w: seq<nat>, x: nat)
    ensures Sum(w + [x]) == Sum(w) + x
  {
    assert (w + [x])[..|w|] == w;
  }

  lemma {:induction false} SumAtLeast(w: seq<nat>, i: nat)
    requires i < |w|
    ensures w[i] <= Sum(w)
    decreases |w|
  {
    if i < |w| - 1 {
      SumAtLeast(w[..|w| - 1], i);
    }
  }

  function Weights(reqs: seq<Request>): seq<nat> {
    seq(|reqs|, i requires 0 <= i < |reqs| => Weight(reqs[i]))
  }

  function RefreshWeights(refreshes: seq<Refresh>): seq<nat> {
    seq(|refreshes|, i requires 0 <= i < |refreshes| => RefreshWeight(refreshes[i]))
  }

  function BootWeights(boots: seq<Boot>): seq<nat> {
    seq(|boots|, i requires 0 <= i < |boots| => BootWeight(boots[i]))
  }

  /** Everything still to happen to the requests, refreshes, strays and restores that exist. */
  function Work(s: State): nat {
    Sum(Weights(s.requests)) + Sum(RefreshWeights(s.refreshes)) + Sum(BootWeights(s.boots)) + |s.strays|
  }

  lemma RequestWork(reqs: seq<Request>, id: nat, req: Request)
    requires id < |reqs|
    ensures Sum(Weights(reqs[id := req])) + Weight(reqs[id]) == Sum(Weights(reqs)) + Weight(req)
  {
    assert Weights(reqs[id := req]) == Weights(reqs)[id := Weight(req)];
    SumUpdate(Weights(reqs), id, Weight(req));
  }

  lemma RefreshWork(refreshes: seq<Refresh>, r: nat, next: Refresh)
    requires r < |refreshes|
    ensures Sum(RefreshWeights(refreshes[r := next])) + RefreshWeight(refreshes[r])
         == Sum(RefreshWeights(refreshes)) + RefreshWeight(next)
  {
    assert RefreshWeights(refreshes[r := next]) == RefreshWeights(refreshes)[r := RefreshWeight(next)];
    SumUpdate(RefreshWeights(refreshes), r, RefreshWeight(next));
  }

  lemma BootWork(boots: seq<Boot>, id: nat, boot: Boot)
    requires id < |boots|
    ensures Sum(BootWeights(boots[id := boot])) + BootWeight(boots[id]) == Sum(BootWeights(boots)) + BootWeight(boot)
  {
    assert BootWeights(boots[id := boot]) == BootWeights(boots)[id := BootWeight(boot)];
    SumUpdate(BootWeights(boots), id, BootWeight(boot));
  }

  lemma StartWork(s: State)
    ensures Work(JoinOrStart(s).0) <= Work(s) + 3
    ensures JoinOrStart(s).0.requests == s.requests && JoinOrStart(s).0.boots == s.boots
  {
    if s.refreshPromise.None? {
      assert RefreshWeights(s.refreshes + [Sent(s.cookie)]) == RefreshWeights(s.refreshes) + [3];
      SumAppend(RefreshWeights(s.refreshes), 3);
    }
  }

  /** Events that are not the start of something new. */
  predicate Internal(e: Event) {
    !e.Send? && !e.Bootstrap?
  }

  lemma RequestStepProgress(s: State, e: Event)
    requires Enabled(s, e) && (e.Succeed? || e.Fail? || e.Wake?)
    ensures Work(Next(s, e)) < Work(s)
  {
    RequestWork(s.requests, e.id, Next(s, e).requests[e.id]);
  }

  /** A first 401 joins the running refresh or starts one, and then waits. */
  lemma WaitProgress(s: State, id: nat)
    requires id < |s.requests| && Weight(s.requests[id]) == 7
    ensures var (joined, promise) := JoinOrStart(s);
            Work(SetPhase(joined, id, Waiting(promise))) < Work(s)
  {
    StartWork(s);
    var (joined, promise) := JoinOrStart(s);
    RequestWork(joined.requests, id, joined.requests[id].(phase := Waiting(promise)));
  }

  lemma SettleProgress(s: State, id: nat)
    requires id < |s.requests| && Weight(s.requests[id]) >= 1
    ensures Work(SetPhase(s, id, Settled(false))) < Work(s)
    ensures Work(SetPhase(EndSession(s), id, Settled(false))) < Work(s)
  {
    RequestWork(s.requests, id, s.requests[id].(phase := Settled(false)));
  }

  lemma InspectProgress(s: State, id: nat)
    requires Enabled(s, Inspect(id))
    ensures Work(Intercept(s, id)) < Work(s)
  {
    var phase := s.requests[id].phase;
    if phase.status == UNAUTHORISED && !phase.retried && s.requests[id].refreshable {
      WaitProgress(s, id);
    } else {
      SettleProgress(s, id);
    }
  }

  lemma RefreshStepProgress(s: State, e: Event)
    requires Enabled(s, e) && (e.ServerHandles? || e.Deliver? || e.RunFinally?)
    ensures Work(Next(s, e)) < Work(s)
  {
    RefreshWork(s.refreshes, e.refresh, Next(s, e).refreshes[e.refresh]);
  }

  /** Giving up frees the client at once, even if the request stays on its way. */
  lemma GiveUpProgress(s: State, r: nat, cookieKept: bool)
    requires Enabled(s, Lose(r, cookieKept))
    ensures Work(GiveUp(s, r, cookieKept)) < Work(s)
  {
    RefreshWork(s.refreshes, r, Arrived(None));
    if s.refreshes[r].Sent? {
      assert |s.strays[r := s.refreshes[r].cookie]| <= |s.strays| + 1;
    }
  }

  lemma StrayProgress(s: State, r: nat, accept: bool)
    requires r in s.strays
    ensures Work(Next(s, StrayArrives(r, accept))) < Work(s)
  {
    assert |s.strays - {r}| == |s.strays| - 1;
  }

  /** Every answer of the network or the server and every turn of the event loop brings the end
      nearer; only a new request or a new session restore adds work. */
  lemma EveryStepMakesProgress(s: State, e: Event)
    requires Enabled(s, e) && Internal(e)
    ensures Work(Next(s, e)) < Work(s)
  {
    match e
    case Inspect(id) => InspectProgress(s, id);
    case Succeed(_) => RequestStepProgress(s, e);
    case Fail(_, _) => RequestStepProgress(s, e);
    case Wake(_) => RequestStepProgress(s, e);
    case WakeBoot(id) => BootWork(s.boots, id, Next(s, e).boots[id]);
    case Lose(r, cookieKept) => GiveUpProgress(s, r, cookieKept);
    case StrayArrives(r, accept) => StrayProgress(s, r, accept);
    case _ => RefreshStepProgress(s, e);
  }

  ghost predicate AllEnabled(s: State, es: seq<Event>) {
    forall i | 0 <= i < |es| :: Internal(es[i]) && Enabled(Run(s, es[..i]), es[i])
  }

  /** So whatever the interleaving, no more than `Work(s)` steps can follow a state. */
  lemma {:induction false} BusyRunIsBounded(s: State, es: seq<Event>)
    requires AllEnabled(s, es)
    ensures |es| + Work(Run(s, es)) <= Work(s)
    decreases |es|
  {
    if es != [] {
      var init := es[..|es| - 1];
      assert forall i | 0 <= i < |init| :: init[..i] == es[..i] && init[i] == es[i];
      BusyRunIsBounded(s, init);
      assert Internal(es[|es| - 1]) && Enabled(Run(s, es[..|es| - 1]), es[|es| - 1]);
      EveryStepMakesProgress(Run(s, init), es[|es| - 1]);
    }
  }

  /** Nothing more can happen, except that a stray may still reach the server. */
  ghost predicate Quiescent(s: State) {
    forall e: Event | Internal(e) && !e.StrayArrives? :: !Enabled(s, e)
  }

  /** And a reachable state in which nothing more can happen is one in which every request has
      its answer, every restore is done and no refresh is left behind. */
  lemma QuiescentMeansSettled(s: State)
    requires Shared(s) && Quiescent(s)
    ensures forall i | 0 <= i < |s.requests| :: s.requests[i].phase.Settled?
    ensures forall i | 0 <= i < |s.boots| :: s.boots[i].BootDone?
    ensures s.refreshPromise == None
  {
    forall r: nat | r < |s.refreshes| ensures s.refreshes[r].Resolved? {
      assert !Enabled(s, Lose(r, false)) && !Enabled(s, RunFinally(r));
    }
    forall i: nat | i < |s.requests| ensures s.requests[i].phase.Settled? {
      assert !Enabled(s, Succeed(i)) && !Enabled(s, Inspect(i)) && !Enabled(s, Wake(i));
    }
    forall i: nat | i < |s.boots| ensures s.boots[i].BootDone? {
      assert !Enabled(s, WakeBoot(i));
    }
  }

  // ---------------------------------------------------------------------------
  // When the session ends
  // ---------------------------------------------------------------------------

  /** A refresh comes back as a failure, or is lost. */
  predicate RefreshFails(s: State, e: Event) {
    Enabled(s, e) && (e.Lose? || (e.Deliver? && s.refreshes[e.refresh].minted.None?))
  }

  /** A request that was already retried comes back 401. */
  predicate RetriedIsRejected(s: State, e: Event) {
    Enabled(s, e) && e.Fail? && e.status == UNAUTHORISED && s.requests[e.id].phase.retried
  }

  predicate Cause(s: State, e: Event) {
    RefreshFails(s, e) || RetriedIsRejected(s, e)
  }

  ghost predicate CauseSeen(s: State, es: seq<Event>) {
    exists i :: 0 <= i < |es| && Cause(Run(s, es[..i]), es[i])
  }

  /** Nothing that could end the session is pending, and it has not ended. */
  ghost predicate Untroubled(s: State) {
    && s.sessionEnds == 0
    && (forall r | 0 <= r < |s.refreshes| ::
          s.refreshes[r].Arrived? || s.refreshes[r].Resolved? ==> s.refreshes[r].minted.Some?)
    && (forall i | 0 <= i < |s.requests| ::
          s.requests[i].phase.Handling? && s.requests[i].phase.status == UNAUTHORISED
          ==> !s.requests[i].phase.retried)
  }

  lemma RefreshStepKeepsUntroubled(s: State, e: Event)
    requires Untroubled(s) && !Cause(s, e) && Enabled(s, e)
    requires e.ServerHandles? || e.Deliver? || e.RunFinally? || e.StrayArrives?
    ensures Untroubled(Next(s, e))
  {
  }

  lemma RequestStepKeepsUntroubled(s: State, e: Event)
    requires Untroubled(s) && !Cause(s, e) && Enabled(s, e) && (e.Succeed? || e.Fail? || e.Wake?)
    ensures Untroubled(Next(s, e))
  {
  }

  lemma JoinKeepsUntroubled(s: State)
    requires Untroubled(s)
    ensures Untroubled(JoinOrStart(s).0)
  {
  }

  lemma NextKeepsUntroubled(s: State, e: Event)
    requires Untroubled(s) && !Cause(s, e)
    ensures Untroubled(Next(s, e))
  {
    if Enabled(s, e) {
      match e
      case Succeed(_) => RequestStepKeepsUntroubled(s, e);
      case Fail(_, _) => RequestStepKeepsUntroubled(s, e);
      case Wake(_) => RequestStepKeepsUntroubled(s, e);
      case Bootstrap => JoinKeepsUntroubled(s);
      case Inspect(_) => JoinKeepsUntroubled(s);
      case Send(_) =>
      case WakeBoot(_) =>
      case _ => RefreshStepKeepsUntroubled(s, e);
    }
  }

  /** The session ends only for a reason: if the expiry callback has run, then some refresh
      failed or some request that had already been retried was rejected as unauthorised. A
      retry that fails in any other way, or any number of first-time 401s, never ends it. */
  lemma {:induction false} SessionEndsOnlyForCause(s: State, es: seq<Event>)
    requires Initial(s)
    ensures Untroubled(Run(s, es)) || CauseSeen(s, es)
    ensures Run(s, es).sessionEnds > 0 ==> CauseSeen(s, es)
    decreases |es|
  {
    if es != [] {
      var n := |es| - 1;
      var init := es[..n];
      SessionEndsOnlyForCause(s, init);
      if CauseSeen(s, init) {
        var i :| 0 <= i < |init| && Cause(Run(s, init[..i]), init[i]);
        assert init[..i] == es[..i] && init[i] == es[i];
      } else if !Cause(Run(s, init), es[n]) {
        NextKeepsUntroubled(Run(s, init), es[n]);
      }
    }
  }
}
