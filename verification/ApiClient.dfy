/** The module as it runs: variables shared by every handler and changed in place, one handler
    at a time. Each method is the code between two awaits, and each is proved to take the
    step that SingleFlight describes. */
module ApiClient {
  import opened Basics
  import opened SingleFlight

  class Client {
    var accessToken: Option<nat>
    var refreshPromise: Option<nat>
    var requests: seq<Request>
    var boots: seq<Boot>
    var refreshes: seq<Refresh>
    var sessionEnds: nat
    var cookie: nat
    ghost var strays: map<nat, nat>
    ghost var serverCookie: nat
    ghost var breached: bool

    ghost function Snapshot(): State
      reads this
    {
      State(accessToken, refreshPromise, requests, boots, refreshes, sessionEnds,
            cookie, strays, serverCookie, breached)
    }

    constructor (cookie: nat)
      ensures Initial(Snapshot())
    {
      accessToken, refreshPromise := None, None;
      requests, boots, refreshes, sessionEnds := [], [], [], 0;
      this.cookie, strays, serverCookie, breached := cookie, map[], cookie, false;
    }

    /** `refreshPromise ??= refreshAccessToken().finally(...)` */
    method SharedRefresh() returns (promise: nat)
      modifies this`refreshPromise, this`refreshes
      ensures (Snapshot(), promise) == JoinOrStart(old(Snapshot()))
    {
      if refreshPromise.None? {
        refreshes := refreshes + [Sent(cookie)];
        refreshPromise := Some(|refreshes| - 1);
      }
      promise := refreshPromise.value;
    }

    method Request(refreshable: bool)
      modifies this`requests
      ensures Snapshot() == Next(old(Snapshot()), Send(refreshable))
    {
      requests := requests + [SingleFlight.Request(refreshable, 1, InFlight(false))];
    }

    /** The rejection handler of the response interceptor, after the body has been read. */
    method HandleError(id: nat)
      requires Enabled(Snapshot(), Inspect(id))
      modifies this
      ensures Snapshot() == Next(old(Snapshot()), Inspect(id))
    {
      var req := requests[id];
      var status, retried := req.phase.status, req.phase.retried;
      var shouldAttemptRefresh := status == UNAUTHORISED && !retried && req.refreshable;
      if !shouldAttemptRefresh {
        if status == UNAUTHORISED && retried {
          accessToken := None;
          sessionEnds := sessionEnds + 1;
        }
        requests := requests[id := req.(phase := Settled(false))];
        return;
      }
      var promise := SharedRefresh();
      requests := requests[id := req.(phase := Waiting(promise))];
    }

    /** After `await refreshPromise` in the interceptor: send once more, or end the session. The
        second send is returned and not awaited, so its own failure never lands here. */
    method ResumeRequest(id: nat)
      requires Enabled(Snapshot(), Wake(id))
      modifies this
      ensures Snapshot() == Next(old(Snapshot()), Wake(id))
    {
      var req := requests[id];
      if refreshes[req.phase.promise].minted.Some? {
        requests := requests[id := req.(sends := req.sends + 1, phase := InFlight(true))];
      } else {
        accessToken := None;
        sessionEnds := sessionEnds + 1;
        requests := requests[id := req.(phase := Settled(false))];
      }
    }

    /** `refreshAccessToken` after its own await: the new token is stored before the promise
        is settled. */
    method RefreshArrives(r: nat)
      requires Enabled(Snapshot(), Deliver(r))
      modifies this
      ensures Snapshot() == Next(old(Snapshot()), Deliver(r))
    {
      var minted := refreshes[r].minted;
      if minted.Some? {
        cookie := minted.value;
        accessToken := minted;
      }
      refreshes := refreshes[r := Arrived(minted)];
    }

    /** The await in `refreshAccessToken` fails: fifteen seconds have passed, or the connection
        broke. The browser may already have taken the cookie from the answer's headers. */
    method RefreshGivenUp(r: nat, cookieKept: bool)
      requires Enabled(Snapshot(), Lose(r, cookieKept))
      modifies this
      ensures Snapshot() == Next(old(Snapshot()), Lose(r, cookieKept))
    {
      if refreshes[r].Sent? {
        strays := strays[r := refreshes[r].cookie];
      } else if cookieKept {
        cookie := refreshes[r].minted.value;
      }
      refreshes := refreshes[r := Arrived(None)];
    }

    /** The `finally` callback: it runs before anybody who awaits the promise is resumed. */
    method ClearShared(r: nat)
      requires Enabled(Snapshot(), RunFinally(r))
      modifies this`refreshPromise, this`refreshes
      ensures Snapshot() == Next(old(Snapshot()), RunFinally(r))
    {
      refreshPromise := None;
      refreshes := refreshes[r := Resolved(refreshes[r].minted)];
    }

    method BootstrapSession()
      modifies this
      ensures Snapshot() == Next(old(Snapshot()), Bootstrap)
    {
      var promise := SharedRefresh();
      boots := boots + [BootWaiting(promise)];
    }

    /** A failed restore clears the token but is not a session expiry. */
    method ResumeBootstrap(id: nat) returns (ok: bool)
      requires Enabled(Snapshot(), WakeBoot(id))
      modifies this
      ensures Snapshot() == Next(old(Snapshot()), WakeBoot(id))
      ensures boots[id] == BootDone(ok) && sessionEnds == old(sessionEnds)
    {
      ok := refreshes[boots[id].promise].minted.Some?;
      if !ok {
        accessToken := None;
      }
      boots := boots[id := BootDone(ok)];
    }
  }
}
