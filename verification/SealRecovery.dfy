/** When sealing can go on and when it cannot. A row that is given up after its request left
    may turn out to be on the ledger. The postings it held go back to the backlog, and the
    replacement takes the same number; whether that ends well depends on whether it covers the
    very same postings. */
module SealRecovery {
  import L = LedgerSpec
  import opened SealOutbox
  import opened SealOnce

  /** How many seals are confirmed. */
  function Sealed(w: World): nat { SeqOf(Base(w.db.rows)) }

  /** How many postings the next batch takes. */
  function NextCount(c: Config, w: World): nat {
    var m := Covered(Base(w.db.rows));
    if |w.db.posts| <= m then 0
    else if |w.db.posts| <= m + c.limit then |w.db.posts| - m
    else c.limit
  }

  /** The ledger holds a seal that no row is confirmed for, over fewer postings than any batch
      will take from now on, and no open row covers just those postings. */
  ghost predicate Stuck(c: Config, w: World) {
    && |w.chain| == Sealed(w) + 1
    && w.chain[Sealed(w)].req.count < NextCount(c, w)
    && forall i: nat | OpenAt(w.db, i) :: w.db.rows[i].count != w.chain[Sealed(w)].req.count
  }

  lemma NoOpenMeansTop(c: Config, t: Table)
    requires Good(c, t) && !ExistsOpen(t.rows)
    ensures Top(t.rows) == Base(t.rows)
  {
    var n := |t.rows|;
    if n > 0 {
      assert t.rows[n - 1] in t.rows;
    }
  }

  /** A seal is opened over the next postings in line. */
  lemma CreateOpens(c: Config, w: World)
    requires Inv(c, w) && !ExistsOpen(w.db.rows) && NextCount(c, w) > 0
    ensures var z := Next(c, w, Create);
            && Inv(c, z) && z.chain == w.chain && z.sent == w.sent && z.db.posts == w.db.posts
            && Base(z.db.rows) == Base(w.db.rows)
            && |z.db.rows| == |w.db.rows| + 1 && OpenAt(z.db, |w.db.rows|)
            && Covered(Base(w.db.rows)) + NextCount(c, w) <= |w.db.posts|
            && z.db.rows[|w.db.rows|] == Draft(c, w.db.posts, Base(w.db.rows), Covered(Base(w.db.rows)) + NextCount(c, w))
  {
    CreateKeeps(c, w);
    CreateRow(c, w);
    BaseBelowOpen(w.db.rows, Next(c, w, Create).db.rows);
  }

  lemma CreateRow(c: Config, w: World)
    requires Inv(c, w) && !ExistsOpen(w.db.rows) && NextCount(c, w) > 0
    ensures var m, n := Covered(Base(w.db.rows)), NextCount(c, w);
            m + n <= |w.db.posts| && CreateSeal(c, w.db).posts == w.db.posts
            && CreateSeal(c, w.db).rows == w.db.rows + [Draft(c, w.db.posts, Base(w.db.rows), m + n)]
  {
    NoOpenMeansTop(c, w.db);
    CreateIsDraft(c, w.db);
  }

  lemma BaseBelowOpen(rows: seq<Row>, more: seq<Row>)
    requires !ExistsOpen(rows) && |more| == |rows| + 1 && rows == more[..|rows|] && IsOpen(more[|rows|])
    ensures Base(more) == Base(rows)
  {
    assert rows != [] ==> rows[|rows| - 1] in rows;
  }

  lemma CreateChangesNothing(c: Config, w: World)
    requires Inv(c, w) && (ExistsOpen(w.db.rows) || NextCount(c, w) == 0)
    ensures Next(c, w, Create) == w
  {
    CreateIsDraft(c, w.db);
    if !ExistsOpen(w.db.rows) {
      NoOpenMeansTop(c, w.db);
    }
  }

  lemma FailLeavesNoneOpen(c: Config, w: World, i: nat)
    requires Inv(c, w) && OpenAt(w.db, i)
    ensures !ExistsOpen(Fail(w.db, i).rows)
    ensures forall j: nat :: !OpenAt(Fail(w.db, i), j)
  {
    OpenIsLast(c, w.db, i);
    var rows := Fail(w.db, i).rows;
    forall j: nat | j < |rows| ensures !IsOpen(rows[j]) {
      assert RowOk(c, w.db.posts, w.db.rows, j);
    }
  }

  // ---------------------------------------------------------------------------
  // Stuck is for good
  // ---------------------------------------------------------------------------

  /** Nothing about a stuck outbox has been gained by `z`. */
  ghost predicate NoBetter(c: Config, w: World, z: World) {
    Stuck(c, z) && z.chain == w.chain && Sealed(z) == Sealed(w)
  }

  /** In a stuck outbox, a reading of the ledger that holds the open row's number is up to date,
      and fails the row. */
  lemma StuckResolve(c: Config, w: World, i: nat, view: seq<L.Seal>)
    requires Inv(c, w) && NoCollision(c, w.db.posts) && Stuck(c, w) && OpenAt(w.db, i) && view <= w.chain
    ensures w.db.rows[i].seqNo == |w.chain|
    ensures Resolve(w.db, i, view) == Fail(w.db, i)
  {
    OpenIsLast(c, w.db, i);
    NumberOfRow(c, w.db.posts, w.db.rows, i);
    RootDecides(c, w, i);
  }

  lemma StuckFail(c: Config, w: World, i: nat)
    requires Inv(c, w) && Stuck(c, w) && OpenAt(w.db, i)
    ensures NoBetter(c, w, w.(db := Fail(w.db, i)))
  {
    FailKeeps(c, w, i);
    FailLeavesNoneOpen(c, w, i);
  }

  /** Nor does trying again, or waiting. */
  lemma StuckMark(c: Config, w: World, i: nat, r: Row, sent: set<L.Request>)
    requires Inv(c, w) && Stuck(c, w) && OpenAt(w.db, i) && IsOpen(r) && Content(r) == Content(w.db.rows[i])
    ensures NoBetter(c, w, World(w.db.(rows := w.db.rows[i := r]), w.chain, sent))
  {
    OpenIsLast(c, w.db, i);
    var t := w.db.(rows := w.db.rows[i := r]);
    assert t.rows[..i] == w.db.rows[..i];
    assert Content(r).count == r.count;
    forall j: nat | OpenAt(t, j) ensures t.rows[j].count != w.chain[Sealed(w)].req.count {
      assert OpenAt(w.db, j);
    }
  }

  lemma StuckStep(c: Config, w: World, step: Step)
    requires Inv(c, w) && NoCollision(c, w.db.posts) && Stuck(c, w) && Possible(w, step) && Sole(w, step)
    ensures NoBetter(c, w, Next(c, w, step))
  {
    match step
    case Post(_) =>
      var z := Next(c, w, step);
      assert forall i: nat | OpenAt(z.db, i) :: OpenAt(w.db, i);
    case Create => StuckCreate(c, w);
    case SubmitRow(i, ready, reachable, seen) => StuckSubmit(c, w, i, ready, reachable, seen);
    case Hear(i, outcome, seen) => StuckHear(c, w, i, outcome, seen);
    case ReconcileRow(i, seen) =>
      StuckResolve(c, w, i, Seen(w, seen));
      StuckFail(c, w, i);
    case Land(q, _) =>
      if L.Extends(w.chain, q) {
        LandsInLine(c, w, q);
        assert false;
      }
  }

  lemma StuckCreate(c: Config, w: World)
    requires Inv(c, w) && Stuck(c, w)
    ensures NoBetter(c, w, Next(c, w, Create))
  {
    if ExistsOpen(w.db.rows) {
      CreateChangesNothing(c, w);
    } else {
      CreateOpens(c, w);
      var n := |w.db.rows|;
      var z := Next(c, w, Create);
      forall i: nat | OpenAt(z.db, i) ensures z.db.rows[i].count != w.chain[Sealed(w)].req.count {
        OpenIsLast(c, z.db, i);
      }
    }
  }

  lemma StuckSubmit(c: Config, w: World, i: nat, ready: bool, reachable: bool, seen: nat)
    requires Inv(c, w) && NoCollision(c, w.db.posts) && Stuck(c, w) && OpenAt(w.db, i)
    ensures NoBetter(c, w, Next(c, w, SubmitRow(i, ready, reachable, seen)))
  {
    var r, z := w.db.rows[i], Next(c, w, SubmitRow(i, ready, reachable, seen));
    match EffectOf(r, Seen(w, seen), ready, reachable)
    case Nothing => assert z == w;
    case Failing =>
      assert z == w.(db := Fail(w.db, i));
      StuckFail(c, w, i);
    case Resolving =>
      StuckResolve(c, w, i, Seen(w, seen));
      assert z == w.(db := Fail(w.db, i));
      StuckFail(c, w, i);
    case Sending => StuckMark(c, w, i, Tried(r), z.sent);
  }

  lemma StuckNeverLanded(c: Config, w: World, i: nat)
    requires Inv(c, w) && NoCollision(c, w.db.posts) && Stuck(c, w) && OpenAt(w.db, i)
    ensures !OnLedger(w.db.rows[i], w.chain)
  {
    StuckResolve(c, w, i, w.chain);
  }

  lemma StuckHear(c: Config, w: World, i: nat, outcome: Outcome, seen: nat)
    requires Inv(c, w) && NoCollision(c, w.db.posts) && Stuck(c, w) && Possible(w, Hear(i, outcome, seen))
    ensures NoBetter(c, w, Next(c, w, Hear(i, outcome, seen)))
  {
    var r := w.db.rows[i];
    match outcome
    case Landed => StuckNeverLanded(c, w, i);
    case Unknown => StuckMark(c, w, i, r.(status := Submitted), w.sent);
    case Rejected(outOfOrder) =>
      if outOfOrder {
        StuckResolve(c, w, i, Seen(w, seen));
        StuckFail(c, w, i);
      } else if r.attempts >= MAX_ATTEMPTS {
        StuckFail(c, w, i);
      } else {
        StuckMark(c, w, i, r.(status := Pending), w.sent);
      }
  }

  /** Once stuck, the ledger takes no further seal of this organisation and no further row is
      confirmed, whatever is posted, prepared, submitted or reconciled. */
  lemma {:induction false} StuckForever(c: Config, w: World, steps: seq<Step>, z: World)
    requires Inv(c, w) && Stuck(c, w) && SoleRun(c, w, steps, z) && NoCollision(c, z.db.posts)
    ensures Stuck(c, z) && z.chain == w.chain && Sealed(z) == Sealed(w)
    decreases |steps|
  {
    if steps != [] {
      var n := Next(c, w, steps[0]);
      NextKeepsSized(c, w, steps[0]);
      PostsGrow(c, n, steps[1..], z);
      NoCollisionInPrefix(c, w.db.posts, z.db.posts);
      NextKeeps(c, w, steps[0]);
      StuckStep(c, w, steps[0]);
      StuckForever(c, n, steps[1..], z);
    }
  }

  // ---------------------------------------------------------------------------
  // Otherwise sealing can go on
  // ---------------------------------------------------------------------------

  lemma Cons(c: Config, w: World, step: Step, steps: seq<Step>, z: World)
    requires Sized(w.db) && Possible(w, step) && Sole(w, step)
    requires Sized(Next(c, w, step).db) && SoleRun(c, Next(c, w, step), steps, z)
    ensures SoleRun(c, w, [step] + steps, z)
  {
    assert ([step] + steps)[0] == step && ([step] + steps)[1..] == steps;
  }

  /** The ledger is read and acted upon at once. */
  function AskAndSubmit(w: World, i: nat): Step {
    SubmitRow(i, true, true, |w.chain|)
  }

  lemma SeenNow(w: World)
    ensures Seen(w, |w.chain|) == w.chain
  {
  }

  /** The ledger already holds the open row's seal: asking it confirms the row. */
  lemma ConfirmAhead(c: Config, w: World, i: nat) returns (steps: seq<Step>, z: World)
    requires Inv(c, w) && NoCollision(c, w.db.posts) && OpenAt(w.db, i)
    requires |w.chain| == Sealed(w) + 1 && w.chain[Sealed(w)].req.count == w.db.rows[i].count
    ensures SoleRun(c, w, steps, z) && z.db.posts == w.db.posts && Sealed(z) == Sealed(w) + 1
  {
    OpenIsLast(c, w.db, i);
    NumberOfRow(c, w.db.posts, w.db.rows, i);
    RootDecides(c, w, i);
    ConfirmKeeps(c, w, i);
    SeenNow(w);
    var step := AskAndSubmit(w, i);
    z := Next(c, w, step);
    assert z.db == Mark(w.db, i, Confirmed);
    steps := [step] + [];
    Cons(c, w, step, [], z);
  }

  /** When it is the open row's turn, it is sent. */
  lemma TurnIsSent(c: Config, w: World, i: nat)
    requires Inv(c, w) && OpenAt(w.db, i) && |w.chain| == Sealed(w) && Carries(w.db.rows[i])
    ensures var r := w.db.rows[i];
            && L.Extends(w.chain, RequestOf(r))
            && Next(c, w, AskAndSubmit(w, i))
               == World(w.db.(rows := w.db.rows[i := Tried(r)]), w.chain, w.sent + {RequestOf(r)})
  {
    OpenIsLast(c, w.db, i);
    NumberOfRow(c, w.db.posts, w.db.rows, i);
    TurnIsAccepted(c, w, i);
    SeenNow(w);
  }

  /** The open row is sent and lands: the ledger takes it. */
  lemma SendAndLand(c: Config, w: World, i: nat)
    requires Inv(c, w) && OpenAt(w.db, i) && |w.chain| == Sealed(w) && Carries(w.db.rows[i])
    ensures var r := w.db.rows[i];
            var v := Next(c, w, AskAndSubmit(w, i));
            var u := Next(c, v, Land(RequestOf(r), 0));
            && RequestOf(r) in v.sent && Inv(c, u) && u.db == v.db && u.db.posts == w.db.posts
            && OpenAt(u.db, i) && u.db.rows[i] == Tried(r) && Base(u.db.rows) == Base(w.db.rows)
            && u.chain == w.chain + [L.Seal(RequestOf(r), 0)]
  {
    TurnIsSent(c, w, i);
    SendKeeps(c, w, i);
    var r := w.db.rows[i];
    Lands(c, World(w.db.(rows := w.db.rows[i := Tried(r)]), w.chain, w.sent + {RequestOf(r)}), RequestOf(r));
  }

  lemma Lands(c: Config, v: World, q: L.Request)
    requires Inv(c, v) && q in v.sent && L.Extends(v.chain, q)
    ensures Next(c, v, Land(q, 0)) == v.(chain := v.chain + [L.Seal(q, 0)])
    ensures Inv(c, v.(chain := v.chain + [L.Seal(q, 0)]))
  {
    LandKeeps(c, v, q, 0);
  }

  /** The ledger waits for the open row: sending it, letting it land and asking confirms it. */
  lemma SendAndConfirm(c: Config, w: World, i: nat) returns (steps: seq<Step>, z: World)
    requires Inv(c, w) && NoCollision(c, w.db.posts) && OpenAt(w.db, i)
    requires |w.chain| == Sealed(w) && Carries(w.db.rows[i])
    ensures SoleRun(c, w, steps, z) && z.db.posts == w.db.posts && Sealed(z) == Sealed(w) + 1
  {
    SendAndLand(c, w, i);
    var send, land := AskAndSubmit(w, i), Land(RequestOf(w.db.rows[i]), 0);
    var v := Next(c, w, send);
    steps, z := ConfirmAhead(c, Next(c, v, land), i);
    Cons(c, v, land, steps, z);
    Cons(c, w, send, [land] + steps, z);
    steps := [send] + ([land] + steps);
  }

  /** A seal the ledger is ahead by covers no more postings than the next batch takes. */
  lemma AheadCount(c: Config, w: World)
    requires Inv(c, w) && |w.chain| == Sealed(w) + 1
    ensures w.chain[Sealed(w)].req.count <= NextCount(c, w)
  {
    var j := RowOfSeal(c, w, Sealed(w));
    NumberOfRow(c, w.db.posts, w.db.rows, j);
    ContentOf(c, w.db.posts, Base(w.db.rows), w.db.rows[j]);
  }

  lemma CreateAndConfirm(c: Config, w: World) returns (steps: seq<Step>, z: World)
    requires Inv(c, w) && NoCollision(c, w.db.posts) && !ExistsOpen(w.db.rows) && NextCount(c, w) > 0
    requires |w.chain| == Sealed(w) + 1 && w.chain[Sealed(w)].req.count == NextCount(c, w)
    ensures SoleRun(c, w, steps, z) && z.db.posts == w.db.posts && Sealed(z) == Sealed(w) + 1
  {
    CreateOpens(c, w);
    steps, z := ConfirmAhead(c, Next(c, w, Create), |w.db.rows|);
    Cons(c, w, Create, steps, z);
    steps := [Create] + steps;
  }

  /** The open row differs from the seal on the ledger: it fails, and its replacement fits. */
  lemma ReplaceAndConfirm(c: Config, w: World, i: nat) returns (steps: seq<Step>, z: World)
    requires Inv(c, w) && NoCollision(c, w.db.posts) && OpenAt(w.db, i) && NextCount(c, w) > 0
    requires |w.chain| == Sealed(w) + 1 && w.chain[Sealed(w)].req.count == NextCount(c, w) != w.db.rows[i].count
    ensures SoleRun(c, w, steps, z) && z.db.posts == w.db.posts && Sealed(z) == Sealed(w) + 1
  {
    OpenIsLast(c, w.db, i);
    NumberOfRow(c, w.db.posts, w.db.rows, i);
    RootDecides(c, w, i);
    FailKeeps(c, w, i);
    FailLeavesNoneOpen(c, w, i);
    SeenNow(w);
    var step := AskAndSubmit(w, i);
    var v := Next(c, w, step);
    assert v == World(Fail(w.db, i), w.chain, w.sent);
    steps, z := CreateAndConfirm(c, v);
    Cons(c, w, step, steps, z);
    steps := [step] + steps;
  }

  /** There is a posting to seal, and the row that would carry it fits the contract's types and
      does not hash to the sentinel. */
  ghost predicate SomethingToSeal(c: Config, w: World) {
    && NextCount(c, w) > 0
    && var m := Covered(Base(w.db.rows));
    && m + NextCount(c, w) <= |w.db.posts|
    && Carries(Draft(c, w.db.posts, Base(w.db.rows), m + NextCount(c, w)))
    && forall i: nat | OpenAt(w.db, i) :: Carries(w.db.rows[i])
  }

  predicate Carries(r: Row) {
    Sendable(r) && r.root != L.GENESIS
  }

  lemma GoesOn(c: Config, w: World) returns (steps: seq<Step>, z: World)
    requires Inv(c, w) && NoCollision(c, w.db.posts) && SomethingToSeal(c, w) && !Stuck(c, w)
    ensures SoleRun(c, w, steps, z) && z.db.posts == w.db.posts && Sealed(z) == Sealed(w) + 1
  {
    if i: nat :| OpenAt(w.db, i) {
      OpenIsLast(c, w.db, i);
      if |w.chain| == Sealed(w) {
        steps, z := SendAndConfirm(c, w, i);
      } else if w.chain[Sealed(w)].req.count == w.db.rows[i].count {
        steps, z := ConfirmAhead(c, w, i);
      } else {
        AheadCount(c, w);
        assert forall j: nat | OpenAt(w.db, j) :: j == i by {
          forall j: nat | OpenAt(w.db, j) ensures j == i { OpenIsLast(c, w.db, j); }
        }
        steps, z := ReplaceAndConfirm(c, w, i);
      }
    } else {
      NoneOpen(w.db);
      if |w.chain| == Sealed(w) {
        CreateOpens(c, w);
        var v := Next(c, w, Create);
        steps, z := SendAndConfirm(c, v, |w.db.rows|);
        Cons(c, w, Create, steps, z);
        steps := [Create] + steps;
      } else {
        AheadCount(c, w);
        steps, z := CreateAndConfirm(c, w);
      }
    }
  }

  lemma NoneOpen(t: Table)
    requires forall i: nat :: !OpenAt(t, i)
    ensures !ExistsOpen(t.rows)
  {
    if r :| r in t.rows && IsOpen(r) {
      var i: nat :| i < |t.rows| && t.rows[i] == r;
      assert OpenAt(t, i);
    }
  }

  /** Some continuation confirms another seal. */
  ghost predicate CanGoOn(c: Config, w: World)
    requires Sized(w.db)
  {
    exists steps, z :: SoleRun(c, w, steps, z) && NoCollision(c, z.db.posts) && Sealed(z) > Sealed(w)
  }

  /** Sealing can go on exactly when the outbox is not stuck. */
  lemma GoesOnUnlessStuck(c: Config, w: World)
    requires Inv(c, w) && NoCollision(c, w.db.posts) && SomethingToSeal(c, w)
    ensures CanGoOn(c, w) <==> !Stuck(c, w)
  {
    if !Stuck(c, w) {
      var steps, z := GoesOn(c, w);
      assert NoCollision(c, z.db.posts);
    }
    if CanGoOn(c, w) && Stuck(c, w) {
      var steps, z :| SoleRun(c, w, steps, z) && NoCollision(c, z.db.posts) && Sealed(z) > Sealed(w);
      StuckForever(c, w, steps, z);
      assert false;
    }
  }

  /** In every reachable state with something to seal. */
  lemma ReachableGoesOnUnlessStuck(c: Config, steps: seq<Step>, w: World)
    requires SoleRun(c, START, steps, w) && NoCollision(c, w.db.posts)
    requires Sized(w.db) && SomethingToSeal(c, w)
    ensures CanGoOn(c, w) <==> !Stuck(c, w)
  {
    StartIsFine(c);
    RunKeeps(c, START, steps, w);
    GoesOnUnlessStuck(c, w);
  }
}
