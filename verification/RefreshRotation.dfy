/** Why one refresh at a time matters, and where it is not enough: the server rotates its cookie
    at each use and takes an old one for stolen. */
module RefreshRotation {
  import opened Basics
  import opened SingleFlight

  // ---------------------------------------------------------------------------
  // What can happen to a rotation
  // ---------------------------------------------------------------------------

  /** A rotation's answer is lost on its way back, cookie and all. */
  predicate LosesRotation(s: State, e: Event) {
    && e.Lose? && Enabled(s, e) && !e.cookieKept
    && s.refreshes[e.refresh].Answered? && s.refreshes[e.refresh].minted.Some?
  }

  /** The server rotates for a refresh that the client has given up. */
  predicate StrayRotates(s: State, e: Event) {
    && e.StrayArrives? && Enabled(s, e) && e.accept
    && s.strays[e.refresh] == s.serverCookie && !s.breached
  }

  /** A rotation whose new cookie the client never gets. */
  predicate Unreceived(s: State, e: Event) {
    LosesRotation(s, e) || StrayRotates(s, e)
  }

  /** A refresh reaches the server, whether or not anybody still waits for it. */
  predicate ReachesServer(s: State, e: Event) {
    (e.ServerHandles? || e.StrayArrives?) && Enabled(s, e)
  }

  /** A refresh that was given up arrives with a cookie that has been rotated. */
  predicate OldStray(s: State, e: Event) {
    e.StrayArrives? && Enabled(s, e) && s.strays[e.refresh] < s.serverCookie
  }

  // ---------------------------------------------------------------------------
  // Level with the server
  // ---------------------------------------------------------------------------

  ghost predicate StraysUpTo(strays: map<nat, nat>, cookie: nat) {
    forall r | r in strays :: strays[r] <= cookie
  }

  /** Where the refresh that is under way stands against the two cookies. */
  predicate Abreast(r: Refresh, cookie: nat, serverCookie: nat) {
    match r
    case Sent(c) => c == cookie == serverCookie
    case Answered(Some(n)) => n == serverCookie == cookie + 1
    case Answered(None) => cookie == serverCookie
    case Arrived(_) => cookie == serverCookie
    case Resolved(_) => false
  }

  /** The client's cookie is the server's, but for a rotation that is on its way back. */
  ghost predicate InSync(s: State) {
    && !s.breached
    && StraysUpTo(s.strays, s.cookie)
    && match s.refreshPromise
       case None => s.cookie == s.serverCookie
       case Some(r) => r < |s.refreshes| && Abreast(s.refreshes[r], s.cookie, s.serverCookie)
  }

  lemma RefreshStepKeepsInSync(s: State, e: Event)
    requires Shared(s) && InSync(s) && Enabled(s, e) && (e.ServerHandles? || e.Deliver? || e.RunFinally?)
    ensures InSync(Next(s, e))
  {
    assert Outstanding(s, e.refresh);
  }

  lemma GiveUpKeepsInSync(s: State, e: Event)
    requires Shared(s) && InSync(s) && Enabled(s, e) && e.Lose? && !LosesRotation(s, e)
    ensures InSync(Next(s, e))
  {
    assert Outstanding(s, e.refresh);
    var t := Next(s, e);
    forall r | r in t.strays ensures t.strays[r] <= t.cookie {
      if r in s.strays {
        assert s.strays[r] <= s.cookie;
      }
    }
  }

  lemma StrayKeepsInSync(s: State, e: Event)
    requires InSync(s) && Enabled(s, e) && e.StrayArrives? && !StrayRotates(s, e) && !OldStray(s, e)
    ensures InSync(Next(s, e))
  {
    assert s.strays[e.refresh] <= s.cookie;
  }

  lemma NextKeepsInSync(s: State, e: Event)
    requires Shared(s) && InSync(s) && !Unreceived(s, e) && !OldStray(s, e)
    ensures InSync(Next(s, e))
  {
    if Enabled(s, e) {
      match e
      case ServerHandles(_, _) => RefreshStepKeepsInSync(s, e);
      case Deliver(_) => RefreshStepKeepsInSync(s, e);
      case RunFinally(_) => RefreshStepKeepsInSync(s, e);
      case Lose(_, _) => GiveUpKeepsInSync(s, e);
      case StrayArrives(_, _) => StrayKeepsInSync(s, e);
      case _ =>
    }
  }

  lemma OldStrayIsFoundOut(s: State, e: Event)
    requires OldStray(s, e)
    ensures Next(s, e).breached
  {
  }

  // ---------------------------------------------------------------------------
  // Behind the server
  // ---------------------------------------------------------------------------

  predicate Stale(r: Refresh, serverCookie: nat) {
    && (r.Sent? ==> r.cookie < serverCookie)
    && (r.Answered? ==> r.minted == None)
  }

  /** The client has fallen behind the server and the server does not know it yet. */
  ghost predicate Behind(s: State) {
    && !s.breached
    && s.cookie < s.serverCookie
    && StraysUpTo(s.strays, s.serverCookie - 1)
    && forall r | 0 <= r < |s.refreshes| :: Stale(s.refreshes[r], s.serverCookie)
  }

  lemma OthersAreSettled(s: State, r: nat)
    requires Shared(s) && r < |s.refreshes| && s.refreshPromise != Some(r)
    ensures s.refreshes[r].Resolved?
  {
    assert Outstanding(s, r) ==> s.refreshPromise == Some(r);
  }

  lemma LossLeavesBehind(s: State, e: Event)
    requires Shared(s) && InSync(s) && LosesRotation(s, e)
    ensures Behind(Next(s, e))
  {
    assert Outstanding(s, e.refresh);
    var t := Next(s, e);
    forall r | 0 <= r < |t.refreshes| ensures Stale(t.refreshes[r], t.serverCookie) {
      if r != e.refresh {
        OthersAreSettled(s, r);
      }
    }
  }

  lemma StrayRotationLeavesBehind(s: State, e: Event)
    requires Shared(s) && InSync(s) && StrayRotates(s, e)
    ensures Behind(Next(s, e))
  {
    var t := Next(s, e);
    assert s.strays[e.refresh] <= s.cookie;
    forall r | 0 <= r < |t.refreshes| ensures Stale(t.refreshes[r], t.serverCookie) {
      if s.refreshPromise != Some(r) {
        OthersAreSettled(s, r);
      }
    }
  }

  lemma JoinKeepsBehind(s: State)
    requires Behind(s)
    ensures Behind(JoinOrStart(s).0)
  {
    var t := JoinOrStart(s).0;
    forall r | 0 <= r < |t.refreshes| ensures Stale(t.refreshes[r], t.serverCookie) {
      if r < |s.refreshes| {
        assert Stale(s.refreshes[r], s.serverCookie);
      }
    }
  }

  lemma RefreshStepKeepsBehind(s: State, e: Event)
    requires Behind(s) && Enabled(s, e) && (e.Deliver? || e.Lose? || e.RunFinally?)
    ensures Behind(Next(s, e))
  {
    var t := Next(s, e);
    assert Stale(s.refreshes[e.refresh], s.serverCookie);
    forall r | 0 <= r < |t.refreshes| ensures Stale(t.refreshes[r], t.serverCookie) {
      assert Stale(s.refreshes[r], s.serverCookie);
    }
    forall r | r in t.strays ensures t.strays[r] <= t.serverCookie - 1 {
      if r in s.strays {
        assert s.strays[r] <= s.serverCookie - 1;
      }
    }
  }

  /** Nothing short of reaching the server mends it or brings it to light. */
  lemma NextKeepsBehind(s: State, e: Event)
    requires Behind(s) && !ReachesServer(s, e)
    ensures Behind(Next(s, e))
  {
    if Enabled(s, e) {
      match e
      case Deliver(_) => RefreshStepKeepsBehind(s, e);
      case RunFinally(_) => RefreshStepKeepsBehind(s, e);
      case Lose(_, _) => RefreshStepKeepsBehind(s, e);
      case Bootstrap => JoinKeepsBehind(s);
      case Inspect(_) => JoinKeepsBehind(s);
      case _ =>
    }
  }

  lemma BehindIsFoundOut(s: State, e: Event)
    requires Behind(s) && ReachesServer(s, e)
    ensures Next(s, e).breached
  {
    if e.ServerHandles? {
      assert Stale(s.refreshes[e.refresh], s.serverCookie);
    } else {
      assert s.strays[e.refresh] <= s.serverCookie - 1;
    }
  }

  lemma BreachIsForGood(s: State, e: Event)
    requires s.breached
    ensures Next(s, e).breached
  {
  }

  // ---------------------------------------------------------------------------
  // Positions in a run
  // ---------------------------------------------------------------------------

  ghost predicate UnreceivedAt(s: State, es: seq<Event>, i: nat) {
    i < |es| && Unreceived(Run(s, es[..i]), es[i])
  }

  ghost predicate ReachAt(s: State, es: seq<Event>, j: nat) {
    j < |es| && ReachesServer(Run(s, es[..j]), es[j])
  }

  /** The client gives up refresh `r` before it has reached the server. */
  ghost predicate GivenUpAt(s: State, es: seq<Event>, i: nat, r: nat) {
    && i < |es| && es[i].Lose? && es[i].refresh == r
    && Enabled(Run(s, es[..i]), es[i]) && Run(s, es[..i]).refreshes[r].Sent?
  }

  ghost predicate RotatesAt(s: State, es: seq<Event>, k: nat) {
    k < |es| && Run(s, es[..k]).serverCookie < Run(s, es[..k + 1]).serverCookie
  }

  ghost predicate StrayAt(s: State, es: seq<Event>, j: nat, r: nat) {
    j < |es| && es[j].StrayArrives? && es[j].refresh == r && Enabled(Run(s, es[..j]), es[j])
  }

  ghost predicate AnyUnreceived(s: State, es: seq<Event>) {
    exists i: nat :: UnreceivedAt(s, es, i)
  }

  /** A refresh reaches the server after a rotation whose cookie the client never gets. */
  ghost predicate ReachedAfterUnreceived(s: State, es: seq<Event>) {
    exists i: nat, j: nat :: i < j && UnreceivedAt(s, es, i) && ReachAt(s, es, j)
  }

  ghost predicate OvertakenBetween(s: State, es: seq<Event>, r: nat, i: nat, k: nat, j: nat) {
    i < k < j && GivenUpAt(s, es, i, r) && RotatesAt(s, es, k) && StrayAt(s, es, j, r)
  }

  /** A refresh that was given up reaches the server after a rotation made since. */
  ghost predicate OvertakenStray(s: State, es: seq<Event>) {
    exists r: nat, i: nat, k: nat, j: nat :: OvertakenBetween(s, es, r, i, k, j)
  }

  lemma PrefixEvents(s: State, es: seq<Event>, i: nat, r: nat)
    requires es != [] && i < |es| - 1
    ensures UnreceivedAt(s, es[..|es| - 1], i) <==> UnreceivedAt(s, es, i)
    ensures ReachAt(s, es[..|es| - 1], i) <==> ReachAt(s, es, i)
    ensures GivenUpAt(s, es[..|es| - 1], i, r) <==> GivenUpAt(s, es, i, r)
    ensures StrayAt(s, es[..|es| - 1], i, r) <==> StrayAt(s, es, i, r)
    ensures RotatesAt(s, es[..|es| - 1], i) <==> RotatesAt(s, es, i)
  {
    assert es[..|es| - 1][..i] == es[..i];
    assert es[..|es| - 1][..i + 1] == es[..i + 1];
  }

  lemma UnreceivedGrows(s: State, es: seq<Event>)
    requires es != []
    ensures AnyUnreceived(s, es) <==> AnyUnreceived(s, es[..|es| - 1]) || UnreceivedAt(s, es, |es| - 1)
  {
    var init := es[..|es| - 1];
    if i: nat :| UnreceivedAt(s, es, i) {
      if i < |es| - 1 {
        PrefixEvents(s, es, i, 0);
      }
    }
    if i: nat :| UnreceivedAt(s, init, i) {
      PrefixEvents(s, es, i, 0);
    }
  }

  lemma ReachedIsOldOrNew(s: State, es: seq<Event>)
    requires es != [] && ReachedAfterUnreceived(s, es)
    ensures var init := es[..|es| - 1];
            ReachedAfterUnreceived(s, init) || (AnyUnreceived(s, init) && ReachAt(s, es, |es| - 1))
  {
    var i: nat, j: nat :| i < j && UnreceivedAt(s, es, i) && ReachAt(s, es, j);
    PrefixEvents(s, es, i, 0);
    if j < |es| - 1 {
      PrefixEvents(s, es, j, 0);
    }
  }

  lemma ReachedStays(s: State, es: seq<Event>)
    requires es != [] && ReachedAfterUnreceived(s, es[..|es| - 1])
    ensures ReachedAfterUnreceived(s, es)
  {
    var init := es[..|es| - 1];
    var i: nat, j: nat :| i < j && UnreceivedAt(s, init, i) && ReachAt(s, init, j);
    PrefixEvents(s, es, i, 0);
    PrefixEvents(s, es, j, 0);
  }

  lemma ReachedNow(s: State, es: seq<Event>)
    requires es != [] && AnyUnreceived(s, es[..|es| - 1]) && ReachAt(s, es, |es| - 1)
    ensures ReachedAfterUnreceived(s, es)
  {
    var init := es[..|es| - 1];
    var i: nat :| UnreceivedAt(s, init, i);
    PrefixEvents(s, es, i, 0);
  }

  lemma OvertakenStays(s: State, es: seq<Event>)
    requires es != [] && OvertakenStray(s, es[..|es| - 1])
    ensures OvertakenStray(s, es)
  {
    var init := es[..|es| - 1];
    var r: nat, i: nat, k: nat, j: nat :| OvertakenBetween(s, init, r, i, k, j);
    PrefixEvents(s, es, i, r);
    PrefixEvents(s, es, k, r);
    PrefixEvents(s, es, j, r);
    assert OvertakenBetween(s, es, r, i, k, j);
  }

  /** An overtaken stray is one of the run so far, or the last event brings one in. */
  lemma OvertakenIsOldOrNew(s: State, es: seq<Event>) returns (r: nat, i: nat, k: nat)
    requires es != [] && OvertakenStray(s, es)
    ensures OvertakenStray(s, es[..|es| - 1]) || OvertakenBetween(s, es, r, i, k, |es| - 1)
  {
    var init := es[..|es| - 1];
    var j: nat;
    r, i, k, j :| OvertakenBetween(s, es, r, i, k, j);
    if j < |es| - 1 {
      PrefixEvents(s, es, i, r);
      PrefixEvents(s, es, k, r);
      PrefixEvents(s, es, j, r);
      assert OvertakenBetween(s, init, r, i, k, j);
    }
  }

  // ---------------------------------------------------------------------------
  // The server's cookie over a run
  // ---------------------------------------------------------------------------

  lemma CookieStep(s: State, e: Event)
    ensures s.serverCookie <= Next(s, e).serverCookie
    ensures s.serverCookie < Next(s, e).serverCookie ==> ReachesServer(s, e)
  {
  }

  lemma RunStep(s: State, es: seq<Event>, k: nat)
    requires k < |es|
    ensures Run(s, es[..k + 1]) == Next(Run(s, es[..k]), es[k])
  {
    assert es[..k + 1][..k] == es[..k];
  }

  /** The server's cookie before each event and after the last. */
  function Cookies(s: State, es: seq<Event>): (cookies: seq<nat>)
    ensures |cookies| == |es| + 1
    ensures forall i | 0 <= i <= |es| :: cookies[i] == Run(s, es[..i]).serverCookie
  {
    seq(|es| + 1, i requires 0 <= i <= |es| => Run(s, es[..i]).serverCookie)
  }

  ghost predicate Rising(xs: seq<nat>) {
    forall i | 0 <= i < |xs| - 1 :: xs[i] <= xs[i + 1]
  }

  lemma CookiesRise(s: State, es: seq<Event>)
    ensures Rising(Cookies(s, es))
  {
    var xs := Cookies(s, es);
    forall i | 0 <= i < |xs| - 1 ensures xs[i] <= xs[i + 1] {
      RunStep(s, es, i);
      CookieStep(Run(s, es[..i]), es[i]);
    }
  }

  lemma {:induction false} RisingIsOrdered(xs: seq<nat>, a: nat, b: nat)
    requires Rising(xs) && a <= b < |xs|
    ensures xs[a] <= xs[b]
    decreases b
  {
    if a < b {
      RisingIsOrdered(xs, a, b - 1);
      assert xs[b - 1] <= xs[b - 1 + 1];
    }
  }

  lemma {:induction false} RisesSomewhere(xs: seq<nat>, a: nat, b: nat) returns (k: nat)
    requires a <= b < |xs| && xs[a] < xs[b]
    ensures a <= k < b && xs[k] < xs[k + 1]
    decreases b
  {
    if xs[a] < xs[b - 1] {
      k := RisesSomewhere(xs, a, b - 1);
    } else {
      k := b - 1;
    }
  }

  /** If the cookie has changed, it was rotated somewhere. */
  lemma RotatedBetween(s: State, es: seq<Event>, a: nat, b: nat) returns (k: nat)
    requires a <= b <= |es| && Run(s, es[..a]).serverCookie < Run(s, es[..b]).serverCookie
    ensures a <= k < b && RotatesAt(s, es, k)
  {
    k := RisesSomewhere(Cookies(s, es), a, b);
  }

  lemma GivingUpRotatesNothing(s: State, es: seq<Event>, i: nat, r: nat)
    requires GivenUpAt(s, es, i, r)
    ensures !RotatesAt(s, es, i)
  {
    RunStep(s, es, i);
    CookieStep(Run(s, es[..i]), es[i]);
  }

  // ---------------------------------------------------------------------------
  // A refresh is given up once
  // ---------------------------------------------------------------------------

  predicate NotSent(s: State, r: nat) {
    r < |s.refreshes| && !s.refreshes[r].Sent?
  }

  lemma NotSentStays(s: State, e: Event, r: nat)
    requires NotSent(s, r)
    ensures NotSent(Next(s, e), r)
  {
  }

  lemma {:induction false} NeverSentAgain(s: State, es: seq<Event>, i: nat, r: nat)
    requires GivenUpAt(s, es, i, r)
    ensures NotSent(Run(s, es), r)
    decreases |es|
  {
    var n := |es| - 1;
    if i < n {
      PrefixEvents(s, es, i, r);
      NeverSentAgain(s, es[..n], i, r);
      NotSentStays(Run(s, es[..n]), es[n], r);
    } else {
      GivenUpIsNotSent(Run(s, es[..n]), es[n]);
    }
  }

  lemma GivenUpIsNotSent(s: State, e: Event)
    requires e.Lose? && Enabled(s, e)
    ensures NotSent(Next(s, e), e.refresh)
  {
  }

  /** A stray carries the cookie that was the server's when it was given up. */
  ghost predicate Dated(s: State, es: seq<Event>, r: nat, cookie: nat) {
    && (exists i: nat :: GivenUpAt(s, es, i, r))
    && (forall i: nat | GivenUpAt(s, es, i, r) :: Run(s, es[..i]).serverCookie == cookie)
  }

  ghost predicate StraysDated(s: State, es: seq<Event>) {
    forall r | r in Run(s, es).strays :: Dated(s, es, r, Run(s, es).strays[r])
  }

  lemma OldStrayStaysDated(s: State, es: seq<Event>, r: nat, cookie: nat)
    requires es != [] && Dated(s, es[..|es| - 1], r, cookie) && !GivenUpAt(s, es, |es| - 1, r)
    ensures Dated(s, es, r, cookie)
  {
    var init := es[..|es| - 1];
    var i: nat :| GivenUpAt(s, init, i, r);
    PrefixEvents(s, es, i, r);
    forall i: nat | GivenUpAt(s, es, i, r) ensures Run(s, es[..i]).serverCookie == cookie {
      PrefixEvents(s, es, i, r);
      assert init[..i] == es[..i];
    }
  }

  lemma NewStrayIsDated(s: State, es: seq<Event>, r: nat)
    requires es != [] && GivenUpAt(s, es, |es| - 1, r)
    ensures Dated(s, es, r, Run(s, es[..|es| - 1]).serverCookie)
  {
    var n := |es| - 1;
    forall i: nat | GivenUpAt(s, es, i, r) ensures i == n {
      if i < n {
        PrefixEvents(s, es, i, r);
        NeverSentAgain(s, es[..n], i, r);
      }
    }
  }

  /** Strays come from giving up, and only from that. */
  lemma StraysOfStep(s: State, e: Event, r: nat)
    requires r in Next(s, e).strays
    ensures
      || (r in s.strays && s.strays[r] == Next(s, e).strays[r])
      || (e.Lose? && e.refresh == r && Enabled(s, e) && s.refreshes[r].Sent?)
    ensures e.Lose? && e.refresh == r && Enabled(s, e) && s.refreshes[r].Sent? ==>
              Next(s, e).strays[r] == s.refreshes[r].cookie
  {
  }

  lemma StraysStayDated(s: State, es: seq<Event>)
    requires es != [] && StraysDated(s, es[..|es| - 1])
    requires Shared(Run(s, es[..|es| - 1])) && InSync(Run(s, es[..|es| - 1]))
    ensures StraysDated(s, es)
  {
    var n := |es| - 1;
    var t := Run(s, es[..n]);
    forall r | r in Run(s, es).strays ensures Dated(s, es, r, Run(s, es).strays[r]) {
      StraysOfStep(t, es[n], r);
      if GivenUpAt(s, es, n, r) {
        assert Outstanding(t, r);
        NewStrayIsDated(s, es, r);
      } else {
        OldStrayStaysDated(s, es, r, t.strays[r]);
      }
    }
  }

  /** Among dated strays, the one that carries an old cookie has been overtaken. */
  lemma OldMeansOvertaken(s: State, es: seq<Event>)
    requires es != [] && StraysDated(s, es[..|es| - 1]) && OldStray(Run(s, es[..|es| - 1]), es[|es| - 1])
    ensures OvertakenStray(s, es)
  {
    var n := |es| - 1;
    var init, r := es[..n], es[n].refresh;
    assert Dated(s, init, r, Run(s, init).strays[r]);
    var i: nat :| GivenUpAt(s, init, i, r);
    PrefixEvents(s, es, i, r);
    assert init[..i] == es[..i];
    var k := RotatedBetween(s, es, i, n);
    GivingUpRotatesNothing(s, es, i, r);
    assert OvertakenBetween(s, es, r, i, k, n);
  }

  lemma OvertakenMeansOld(s: State, es: seq<Event>, r: nat, i: nat, k: nat)
    requires es != [] && StraysDated(s, es[..|es| - 1]) && OvertakenBetween(s, es, r, i, k, |es| - 1)
    ensures OldStray(Run(s, es[..|es| - 1]), es[|es| - 1])
  {
    var n := |es| - 1;
    DateOfStray(s, es, r, i);
    RotationRaises(s, es, i, k, n);
  }

  lemma RotationRaises(s: State, es: seq<Event>, i: nat, k: nat, n: nat)
    requires i <= k < n <= |es| && RotatesAt(s, es, k)
    ensures Run(s, es[..i]).serverCookie < Run(s, es[..n]).serverCookie
  {
    var xs := Cookies(s, es);
    CookiesRise(s, es);
    assert xs[k] < xs[k + 1];
    RisingIsOrdered(xs, i, k);
    RisingIsOrdered(xs, k + 1, n);
  }

  lemma DateOfStray(s: State, es: seq<Event>, r: nat, i: nat)
    requires es != [] && StraysDated(s, es[..|es| - 1]) && r in Run(s, es[..|es| - 1]).strays
    requires i < |es| - 1 && GivenUpAt(s, es, i, r)
    ensures Run(s, es[..|es| - 1]).strays[r] == Run(s, es[..i]).serverCookie
  {
    var init := es[..|es| - 1];
    assert Dated(s, init, r, Run(s, init).strays[r]);
    PrefixEvents(s, es, i, r);
    assert init[..i] == es[..i];
  }

  // ---------------------------------------------------------------------------
  // Exactly when
  // ---------------------------------------------------------------------------

  ghost predicate Suspect(s: State, es: seq<Event>) {
    ReachedAfterUnreceived(s, es) || OvertakenStray(s, es)
  }

  /** Where a run stands: found out, behind the server, or level with it. */
  ghost predicate Standing(s: State, es: seq<Event>) {
    if Suspect(s, es) then Run(s, es).breached
    else if AnyUnreceived(s, es) then Behind(Run(s, es))
    else InSync(Run(s, es)) && StraysDated(s, es)
  }

  lemma StandingIfSuspect(s: State, es: seq<Event>)
    requires es != [] && Suspect(s, es[..|es| - 1]) && Run(s, es[..|es| - 1]).breached
    ensures Standing(s, es)
  {
    if ReachedAfterUnreceived(s, es[..|es| - 1]) {
      ReachedStays(s, es);
    } else {
      OvertakenStays(s, es);
    }
    BreachIsForGood(Run(s, es[..|es| - 1]), es[|es| - 1]);
  }

  lemma StandingIfBehind(s: State, es: seq<Event>)
    requires es != [] && !Suspect(s, es[..|es| - 1]) && AnyUnreceived(s, es[..|es| - 1])
    requires Behind(Run(s, es[..|es| - 1]))
    ensures Standing(s, es)
  {
    var n := |es| - 1;
    var t := Run(s, es[..n]);
    UnreceivedGrows(s, es);
    if ReachesServer(t, es[n]) {
      ReachedNow(s, es);
      BehindIsFoundOut(t, es[n]);
    } else {
      NextKeepsBehind(t, es[n]);
      if ReachedAfterUnreceived(s, es) {
        ReachedIsOldOrNew(s, es);
      }
      if OvertakenStray(s, es) {
        var r, i, k := OvertakenIsOldOrNew(s, es);
      }
    }
  }

  lemma StandingIfLevel(s: State, es: seq<Event>)
    requires es != [] && !Suspect(s, es[..|es| - 1]) && !AnyUnreceived(s, es[..|es| - 1])
    requires Shared(Run(s, es[..|es| - 1])) && InSync(Run(s, es[..|es| - 1])) && StraysDated(s, es[..|es| - 1])
    ensures Standing(s, es)
  {
    var n := |es| - 1;
    var t, e := Run(s, es[..n]), es[n];
    UnreceivedGrows(s, es);
    if ReachedAfterUnreceived(s, es) {
      ReachedIsOldOrNew(s, es);
    }
    if OldStray(t, e) {
      OldMeansOvertaken(s, es);
      OldStrayIsFoundOut(t, e);
    } else {
      if OvertakenStray(s, es) {
        var r, i, k := OvertakenIsOldOrNew(s, es);
        OvertakenMeansOld(s, es, r, i, k);
      }
      LevelStep(s, es);
    }
  }

  lemma LevelStep(s: State, es: seq<Event>)
    requires es != [] && !OldStray(Run(s, es[..|es| - 1]), es[|es| - 1])
    requires Shared(Run(s, es[..|es| - 1])) && InSync(Run(s, es[..|es| - 1])) && StraysDated(s, es[..|es| - 1])
    ensures if UnreceivedAt(s, es, |es| - 1) then Behind(Run(s, es)) else InSync(Run(s, es)) && StraysDated(s, es)
  {
    var t, e := Run(s, es[..|es| - 1]), es[|es| - 1];
    if LosesRotation(t, e) {
      LossLeavesBehind(t, e);
    } else if StrayRotates(t, e) {
      StrayRotationLeavesBehind(t, e);
    } else {
      NextKeepsInSync(t, e);
      StraysStayDated(s, es);
    }
  }

  lemma {:induction false} StandingOfRun(s: State, es: seq<Event>)
    requires Initial(s)
    ensures Standing(s, es)
    decreases |es|
  {
    if es != [] {
      var init := es[..|es| - 1];
      StandingOfRun(s, init);
      RunKeepsShared(s, init);
      if Suspect(s, init) {
        StandingIfSuspect(s, es);
      } else if AnyUnreceived(s, init) {
        StandingIfBehind(s, es);
      } else {
        StandingIfLevel(s, es);
      }
    }
  }

  /** Over every run from a fresh page, the server sees a cookie it has rotated exactly when some
      rotation's cookie never gets to the client, lost on its way back or made for a refresh the
      client had given up, and any refresh reaches the server after that; or when a refresh that
      was given up reaches the server after a rotation made since. */
  lemma BreachIff(s: State, es: seq<Event>)
    requires Initial(s)
    ensures Run(s, es).breached <==> ReachedAfterUnreceived(s, es) || OvertakenStray(s, es)
  {
    StandingOfRun(s, es);
  }

  /** Every rotation gets back to the client, and nothing the client has given up arrives. */
  ghost predicate EveryAnswerReceived(s: State, es: seq<Event>) {
    forall i: nat | i < |es| ::
      !LosesRotation(Run(s, es[..i]), es[i]) && !(es[i].StrayArrives? && ReachAt(s, es, i))
  }

  /** So if every refresh that reaches the server is answered to a client that still waits for
      it, no interleaving of any number of requests and session restores makes the server see a
      cookie it has already rotated. */
  lemma ServerNeverSeesOldCookie(s: State, es: seq<Event>)
    requires Initial(s) && EveryAnswerReceived(s, es)
    ensures !Run(s, es).breached
  {
    BreachIff(s, es);
    forall i: nat ensures !UnreceivedAt(s, es, i) {
      assert i < |es| && es[i].StrayArrives? ==> !ReachAt(s, es, i);
    }
    forall r: nat, i: nat, k: nat, j: nat ensures !OvertakenBetween(s, es, r, i, k, j) {
      assert j < |es| && es[j].StrayArrives? ==> !ReachAt(s, es, j);
    }
  }

  // ---------------------------------------------------------------------------
  // Both ways happen
  // ---------------------------------------------------------------------------

  /** From every state with a rotation on its way back: its answer is lost, and the next session
      restore reaches the server. */
  lemma LostRotationIsTakenForBreach(s: State, r: nat, accept: bool)
    requires Shared(s) && InSync(s) && LosesRotation(s, Lose(r, false))
    ensures Run(s, [Lose(r, false), RunFinally(r), Bootstrap, ServerHandles(|s.refreshes|, accept)]).breached
  {
    assert Outstanding(s, r);
    var a := Next(s, Lose(r, false));
    LossLeavesBehind(s, Lose(r, false));
    var b := Next(a, RunFinally(r));
    NextKeepsBehind(a, RunFinally(r));
    var c := Next(b, Bootstrap);
    NextKeepsBehind(b, Bootstrap);
    BehindIsFoundOut(c, ServerHandles(|s.refreshes|, accept));
    FourSteps(s, Lose(r, false), RunFinally(r), Bootstrap, ServerHandles(|s.refreshes|, accept));
  }

  lemma FourSteps(s: State, e1: Event, e2: Event, e3: Event, e4: Event)
    ensures Run(s, [e1, e2, e3, e4]) == Next(Next(Next(Next(s, e1), e2), e3), e4)
  {
    var es := [e1, e2, e3, e4];
    assert es[..3] == [e1, e2, e3] && es[..3][..2] == [e1, e2];
    assert es[..3][..2][..1] == [e1] && es[..3][..2][..1][..0] == [];
    assert Run(s, [e1]) == Next(s, e1);
    assert Run(s, [e1, e2]) == Next(Next(s, e1), e2);
    assert Run(s, [e1, e2, e3]) == Next(Next(Next(s, e1), e2), e3);
  }

  /** A refresh is given up on its way to the server, and the shared variable is cleared. */
  lemma GivenUpAndCleared(s: State, r: nat)
    requires Shared(s) && InSync(s) && r < |s.refreshes| && s.refreshes[r].Sent?
    ensures var t := Next(Next(s, Lose(r, false)), RunFinally(r));
            && r in t.strays && t.strays[r] == t.cookie == t.serverCookie && !t.breached
            && t.refreshPromise == None && |t.refreshes| == |s.refreshes|
  {
    assert Outstanding(s, r);
  }

  /** The next restore is rotated and delivered. */
  lemma RestoreRotates(s: State)
    requires s.refreshPromise == None && s.cookie == s.serverCookie && !s.breached
    ensures var n := |s.refreshes|;
            var t := Next(Next(Next(s, Bootstrap), ServerHandles(n, true)), Deliver(n));
            t.serverCookie == s.serverCookie + 1 && t.strays == s.strays
  {
    var n := |s.refreshes|;
    var a := Next(s, Bootstrap);
    assert a.refreshes[n] == Sent(s.cookie);
    var b := Next(a, ServerHandles(n, true));
    assert b.refreshes[n] == Answered(Some(s.serverCookie + 1));
  }

  /** From every level state with a refresh on its way to the server: the client gives it up, the
      next restore is rotated and delivered, and then the first refresh arrives. No rotation's
      answer was lost. */
  lemma OvertakenStrayIsTakenForBreach(s: State, r: nat, accept: bool)
    requires Shared(s) && InSync(s) && r < |s.refreshes| && s.refreshes[r].Sent?
    ensures var n := |s.refreshes|;
            var t := Run(s, [Lose(r, false), RunFinally(r), Bootstrap, ServerHandles(n, true)]);
            Next(Next(t, Deliver(n)), StrayArrives(r, accept)).breached
  {
    var n := |s.refreshes|;
    FourSteps(s, Lose(r, false), RunFinally(r), Bootstrap, ServerHandles(n, true));
    GivenUpAndCleared(s, r);
    var b := Next(Next(s, Lose(r, false)), RunFinally(r));
    RestoreRotates(b);
    OldStrayIsFoundOut(Next(Next(Next(b, Bootstrap), ServerHandles(n, true)), Deliver(n)), StrayArrives(r, accept));
  }
}
