/** How an outbox gets stuck: only by giving a row up after its request has left. */
module SealGivingUp {
  import opened Basics
  import opened Bytes
  import L = LedgerSpec
  import Merkle
  import opened SealOutbox
  import opened SealOnce
  import opened SealRecovery

  // ---------------------------------------------------------------------------
  // Never giving up on what was sent
  // ---------------------------------------------------------------------------

  /** The step fails a row that was sent, without asking the ledger: sealing was switched off,
      or the attempts are used up. */
  predicate GivesUp(w: World, step: Step) {
    match step
    case SubmitRow(i, ready, _, _) => OpenAt(w.db, i) && !ready && w.db.rows[i].attempts > 0
    case Hear(i, outcome, _) =>
      OpenAt(w.db, i) && outcome == Rejected(false) && w.db.rows[i].attempts >= MAX_ATTEMPTS
    case _ => false
  }

  /** No failed row was ever sent. */
  ghost predicate Loyal(rows: seq<Row>) {
    forall i: nat | i < |rows| && rows[i].status.Failed? :: rows[i].attempts == 0
  }

  /** With loyal rows, a seal the ledger is ahead by is that of the open row. */
  lemma AheadIsOpenRow(c: Config, w: World) returns (i: nat)
    requires Inv(c, w) && Loyal(w.db.rows) && |w.chain| == Sealed(w) + 1
    ensures OpenAt(w.db, i) && OnLedger(w.db.rows[i], w.chain) && i == |w.db.rows| - 1
    ensures w.db.rows[i].count == w.chain[Sealed(w)].req.count
  {
    var rows := w.db.rows;
    i := RowOfSeal(c, w, Sealed(w));
    assert RowOk(c, w.db.posts, rows, i);
    if !IsOpen(rows[i]) {
      ConfirmedIsBelowBase(c, w.db, i);
      assert false;
    }
    OpenIsLast(c, w.db, i);
  }

  lemma ConfirmedIsBelowBase(c: Config, t: Table, i: nat)
    requires Good(c, t) && i < |t.rows| && t.rows[i].status.Confirmed?
    ensures t.rows[i].seqNo <= SeqOf(Base(t.rows))
  {
    var n := |t.rows| - 1;
    if IsOpen(t.rows[n]) {
      RowsOkPrefix(c, t.posts, t.rows, n);
      LiveIsBelowTop(c, t.posts, t.rows[..n], i);
    } else {
      LiveIsBelowTop(c, t.posts, t.rows, i);
    }
  }

  /** Asking the ledger never fails a row that may be on it. */
  lemma ResolveConfirms(c: Config, w: World, i: nat)
    requires Inv(c, w) && Loyal(w.db.rows) && OpenAt(w.db, i)
    requires |w.chain| == w.db.rows[i].seqNo
    ensures Resolve(w.db, i, w.chain) == Mark(w.db, i, Confirmed)
  {
    OpenIsLast(c, w.db, i);
    NumberOfRow(c, w.db.posts, w.db.rows, i);
    var j := AheadIsOpenRow(c, w);
  }

  lemma LoyalStep(c: Config, w: World, step: Step)
    requires Inv(c, w) && Loyal(w.db.rows) && Possible(w, step) && !GivesUp(w, step)
    ensures Loyal(Next(c, w, step).db.rows)
  {
    match step
    case Post(_) =>
    case Create => CreateIsDraft(c, w.db);
    case SubmitRow(i, ready, reachable, seen) => LoyalSubmit(c, w, i, ready, reachable, seen);
    case Hear(i, outcome, seen) => LoyalHear(c, w, i, outcome, seen);
    case ReconcileRow(i, seen) => LoyalRowStep(c, w, i, Seen(w, seen));
    case Land(_, _) =>
  }

  lemma LoyalSubmit(c: Config, w: World, i: nat, ready: bool, reachable: bool, seen: nat)
    requires Inv(c, w) && Loyal(w.db.rows) && OpenAt(w.db, i) && !GivesUp(w, SubmitRow(i, ready, reachable, seen))
    ensures Loyal(Submit(w.db, i, Seen(w, seen), ready, reachable).0.rows)
  {
    LoyalRowStep(c, w, i, Seen(w, seen));
  }

  lemma LoyalHear(c: Config, w: World, i: nat, outcome: Outcome, seen: nat)
    requires Inv(c, w) && Loyal(w.db.rows) && Possible(w, Hear(i, outcome, seen)) && !GivesUp(w, Hear(i, outcome, seen))
    ensures Loyal(ApplyOutcome(w.db, i, Seen(w, seen), outcome).rows)
  {
    if outcome == Rejected(true) {
      LoyalRowStep(c, w, i, Seen(w, seen));
      assert ApplyOutcome(w.db, i, Seen(w, seen), outcome) == Mark(w.db, i, Confirmed);
    }
  }

  /** A reading of the ledger that holds an open row's number confirms the row; one that is just
      short of it ends in the root the row links to. */
  lemma LoyalRowStep(c: Config, w: World, i: nat, view: seq<L.Seal>)
    requires Inv(c, w) && Loyal(w.db.rows) && OpenAt(w.db, i) && view <= w.chain
    ensures w.db.rows[i].seqNo <= |view| ==> Resolve(w.db, i, view) == Mark(w.db, i, Confirmed)
    ensures w.db.rows[i].seqNo == |view| + 1 ==> L.HeadRoot(view) == w.db.rows[i].prev
  {
    OpenIsLast(c, w.db, i);
    NumberOfRow(c, w.db.posts, w.db.rows, i);
    if w.db.rows[i].seqNo <= |view| {
      assert view == w.chain;
      ResolveConfirms(c, w, i);
    } else if w.db.rows[i].seqNo == |view| + 1 {
      SeenHead(c, w, i, view);
    }
  }

  ghost predicate PatientRun(c: Config, w: World, steps: seq<Step>, z: World)
    requires Sized(w.db)
    decreases |steps|
  {
    if steps == [] then z == w
    else
      NextKeepsSized(c, w, steps[0]);
      && Possible(w, steps[0]) && Sole(w, steps[0]) && !GivesUp(w, steps[0])
      && PatientRun(c, Next(c, w, steps[0]), steps[1..], z)
  }

  lemma {:induction false} PatientIsSole(c: Config, w: World, steps: seq<Step>, z: World)
    requires Sized(w.db) && PatientRun(c, w, steps, z)
    ensures SoleRun(c, w, steps, z)
    decreases |steps|
  {
    if steps != [] {
      NextKeepsSized(c, w, steps[0]);
      PatientIsSole(c, Next(c, w, steps[0]), steps[1..], z);
    }
  }

  lemma {:induction false} PatientRunIsLoyal(c: Config, w: World, steps: seq<Step>, z: World)
    requires Inv(c, w) && Loyal(w.db.rows) && PatientRun(c, w, steps, z) && NoCollision(c, z.db.posts)
    ensures Inv(c, z) && Loyal(z.db.rows)
    decreases |steps|
  {
    if steps != [] {
      var n := Next(c, w, steps[0]);
      NextKeepsSized(c, w, steps[0]);
      PatientIsSole(c, n, steps[1..], z);
      PostsGrow(c, n, steps[1..], z);
      NoCollisionInPrefix(c, w.db.posts, z.db.posts);
      NextKeeps(c, w, steps[0]);
      LoyalStep(c, w, steps[0]);
      PatientRunIsLoyal(c, n, steps[1..], z);
    }
  }

  /** Seal number `k` on the ledger belongs to a row that has not failed. */
  ghost predicate HasLiveRow(w: World, k: nat) {
    exists r :: r in w.db.rows && IsLive(r) && r.seqNo == k && OnLedger(r, w.chain)
  }

  /** As long as no row is given up after it was sent, the outbox is never stuck, and every seal
      on the ledger belongs to a row that is confirmed or about to be. */
  lemma PatientNeverSticks(c: Config, steps: seq<Step>, z: World)
    requires PatientRun(c, START, steps, z) && NoCollision(c, z.db.posts)
    ensures !Stuck(c, z)
    ensures forall k: nat | 1 <= k <= |z.chain| :: HasLiveRow(z, k)
  {
    StartIsFine(c);
    PatientRunIsLoyal(c, START, steps, z);
    if |z.chain| == Sealed(z) + 1 {
      var i := AheadIsOpenRow(c, z);
    }
    forall k: nat | 1 <= k <= |z.chain| ensures HasLiveRow(z, k) {
      var j := RowOfSeal(c, z, k - 1);
      assert z.db.rows[j] in z.db.rows;
    }
  }

  // ---------------------------------------------------------------------------
  // Giving up
  // ---------------------------------------------------------------------------

  /** The first posting is sealed and its request has left. */
  function SentFirst(c: Config, a: Posting): World
    requires Carries(Draft(c, [a], None, 1))
  {
    var r := Draft(c, [a], None, 1);
    World(Table([a], [Placed(0, 0)], [Tried(r)]), [], {RequestOf(r)})
  }

  lemma ReachSentFirst(c: Config, a: Posting, steps: seq<Step>, z: World)
    requires c.limit >= 1 && Carries(Draft(c, [a], None, 1))
    requires SoleRun(c, SentFirst(c, a), steps, z)
    ensures SoleRun(c, START, [Post(a)] + ([Create] + ([SubmitRow(0, true, true, 0)] + steps)), z)
  {
    var w1 := Next(c, START, Post(a));
    assert w1 == World(Table([a], [Loose], []), [], {});
    FirstSeal(c, a);
    var w2 := Next(c, w1, Create);
    var send := SubmitRow(0, true, true, 0);
    assert Next(c, w2, send) == SentFirst(c, a);
    Cons(c, w2, send, steps, z);
    Cons(c, w1, Create, [send] + steps, z);
    Cons(c, START, Post(a), [Create] + ([send] + steps), z);
  }

  /** It lands, sealing is switched off before the ledger is asked, and `b` is posted. */
  function Stranded(c: Config, a: Posting, b: Posting, at: U64): World
    requires Carries(Draft(c, [a], None, 1))
  {
    var r := Draft(c, [a], None, 1);
    World(Table([a, b], [Loose, Loose], [Tried(r).(status := Failed)]), [L.Seal(RequestOf(r), at)], {RequestOf(r)})
  }

  lemma ReachStranded(c: Config, a: Posting, b: Posting, at: U64) returns (steps: seq<Step>)
    requires Carries(Draft(c, [a], None, 1))
    ensures SoleRun(c, SentFirst(c, a), steps, Stranded(c, a, b, at))
  {
    var w := SentFirst(c, a);
    var land := Land(RequestOf(w.db.rows[0]), at);
    var off := SubmitRow(0, false, true, 0);
    var v := Next(c, w, land);
    assert v.chain == [L.Seal(RequestOf(w.db.rows[0]), at)];
    var u := Next(c, v, off);
    assert u.db.places == [Loose];
    var z := Next(c, u, Post(b));
    assert z == Stranded(c, a, b, at);
    Cons(c, u, Post(b), [], z);
    Cons(c, v, off, [Post(b)] + [], z);
    Cons(c, w, land, [off] + ([Post(b)] + []), z);
    steps := [land] + ([off] + ([Post(b)] + []));
  }

  /** One posting is sealed and lands, the worker is not told, sealing is switched off before the
      ledger is asked again, and another entry is posted: the outbox is stuck. */
  lemma SwitchingOffCanStick(c: Config, a: Posting, b: Posting, at: U64) returns (steps: seq<Step>, z: World)
    requires c.limit >= 2
    requires Carries(Draft(c, [a], None, 1))
    ensures SoleRun(c, START, steps, z) && Stuck(c, z)
    ensures |z.chain| == 1 && Sealed(z) == 0
  {
    z := Stranded(c, a, b, at);
    steps := ReachStranded(c, a, b, at);
    ReachSentFirst(c, a, steps, z);
    steps := [Post(a)] + ([Create] + ([SubmitRow(0, true, true, 0)] + steps));
    assert Top(z.db.rows[..0]) == None;
  }

  lemma FirstSeal(c: Config, a: Posting)
    requires c.limit >= 1
    ensures CreateSeal(c, Table([a], [Loose], [])) == Table([a], [Placed(0, 0)], [Draft(c, [a], None, 1)])
  {
    var t := Table([a], [Loose], []);
    assert Unsealed([Loose]) == [0] by {
      assert [Loose][..0] == [];
    }
    assert Pick([a], [0]) == [a] == [a][0..1];
    assert Assign([Loose], [0], 0) == [Placed(0, 0)] by {
      assert [0][..0] == [];
    }
  }

  // ---------------------------------------------------------------------------
  // The roots are those of the hash tree
  // ---------------------------------------------------------------------------

  function Raw(digests: seq<Digest>): seq<Bytes> {
    seq(|digests|, i requires 0 <= i < |digests| => digests[i].bytes)
  }

  function TreeConfig(sha: Merkle.Hash, limit: nat): Config {
    Config((digests: seq<Digest>) => if digests == [] then L.GENESIS else Digest(Merkle.Mth(sha, Raw(digests))), limit)
  }

  /** Each posting carries the leaf hash of its canonical entry. */
  ghost predicate Hashes(sha: Merkle.Hash, entries: seq<Bytes>, posts: seq<Posting>) {
    |entries| == |posts| && forall i | 0 <= i < |posts| :: posts[i].digest.bytes == sha(Merkle.LeafPreimage(entries[i]))
  }

  lemma BatchRootIsTreeRoot(sha: Merkle.Hash, limit: nat, entries: seq<Bytes>, posts: seq<Posting>, m: nat, e: nat)
    requires Hashes(sha, entries, posts) && m < e <= |posts|
    ensures BatchRoot(TreeConfig(sha, limit), posts, m, e) == Digest(Merkle.Mth(sha, Merkle.LeafHashes(sha, entries[m..e])))
  {
    assert Raw(Digests(posts[m..e])) == Merkle.LeafHashes(sha, entries[m..e]);
  }

  /** Two batches of an organisation with the same root hand over a collision of the hash. */
  lemma RootsCollideOnlyWithTheHash(sha: Merkle.Hash, limit: nat, entries: seq<Bytes>, posts: seq<Posting>)
    returns (x: Bytes, y: Bytes)
    requires Merkle.IsDigestHash(sha) && Hashes(sha, entries, posts)
    ensures NoCollision(TreeConfig(sha, limit), posts) || Merkle.Collides(sha, x, y)
  {
    x, y := [], [];
    var c := TreeConfig(sha, limit);
    if !NoCollision(c, posts) {
      var m: nat, a: nat, b: nat :| m < a <= |posts| && m < b <= |posts| && a != b
                                    && BatchRoot(c, posts, m, a) == BatchRoot(c, posts, m, b);
      BatchRootIsTreeRoot(sha, limit, entries, posts, m, a);
      BatchRootIsTreeRoot(sha, limit, entries, posts, m, b);
      x, y := Merkle.RootCommitsToBatch(sha, entries[m..a], entries[m..b]);
    }
  }

  /** With the hash tree, and nothing assumed of the hash: after any run the ledger's seals cover
      the postings once each and in order and every confirmed row is among them, or a collision
      is handed over. */
  lemma LedgerTilesOrCollides(sha: Merkle.Hash, limit: nat, entries: seq<Bytes>, steps: seq<Step>, z: World)
    returns (x: Bytes, y: Bytes)
    requires Merkle.IsDigestHash(sha) && SoleRun(TreeConfig(sha, limit), START, steps, z)
    requires Hashes(sha, entries, z.db.posts)
    ensures Merkle.Collides(sha, x, y)
            || (&& L.TotalCount(z.chain) <= |z.db.posts|
                && Tiled(TreeConfig(sha, limit), z.db.posts, z.chain)
                && forall r | r in z.db.rows && r.status.Confirmed? :: OnLedger(r, z.chain))
  {
    var c := TreeConfig(sha, limit);
    x, y := RootsCollideOnlyWithTheHash(sha, limit, entries, z.db.posts);
    if NoCollision(c, z.db.posts) {
      LedgerTilesPostings(c, steps, z);
    }
  }
}
