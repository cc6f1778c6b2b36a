/** The outbox against a ledger that only this worker writes to. Its requests may be lost,
    duplicated, delayed and overtaken; a row may be given up while its request is still on its
    way. Through all of that the seals on the ledger cover the postings once each, in order. */
module SealOnce {
  import opened Basics
  import opened Bytes
  import L = LedgerSpec
  import opened Sums
  import opened SealOutbox

  /** The root over the postings after the first `m`, up to and including number `e`. */
  function BatchRoot(c: Config, posts: seq<Posting>, m: nat, e: nat): Digest
    requires m <= e <= |posts|
  {
    c.root(Digests(posts[m..e]))
  }

  /** No two batches that start at the same posting have the same root. */
  ghost predicate NoCollision(c: Config, posts: seq<Posting>) {
    forall m: nat, a: nat, b: nat | m < a <= |posts| && m < b <= |posts| ::
      BatchRoot(c, posts, m, a) == BatchRoot(c, posts, m, b) ==> a == b
  }

  lemma BatchRootOfPrefix(c: Config, posts: seq<Posting>, more: seq<Posting>, m: nat, e: nat)
    requires posts <= more && m <= e <= |posts|
    ensures BatchRoot(c, posts, m, e) == BatchRoot(c, more, m, e)
  {
    assert posts[m..e] == more[m..e];
  }

  lemma NoCollisionInPrefix(c: Config, posts: seq<Posting>, more: seq<Posting>)
    requires posts <= more && NoCollision(c, more)
    ensures NoCollision(c, posts)
  {
    forall m: nat, a: nat, b: nat | m < a <= |posts| && m < b <= |posts| && BatchRoot(c, posts, m, a) == BatchRoot(c, posts, m, b)
      ensures a == b
    {
      BatchRootOfPrefix(c, posts, more, m, a);
      BatchRootOfPrefix(c, posts, more, m, b);
    }
  }

  // ---------------------------------------------------------------------------
  // Rows and their numbers
  // ---------------------------------------------------------------------------

  /** The newest confirmed row. */
  function Base(rows: seq<Row>): Option<Row> {
    if rows != [] && IsOpen(rows[|rows| - 1]) then Top(rows[..|rows| - 1]) else Top(rows)
  }

  lemma {:induction false} TopGrows(c: Config, posts: seq<Posting>, rows: seq<Row>, j: nat, n: nat)
    requires RowsOk(c, posts, rows) && j <= n <= |rows|
    ensures SeqOf(Top(rows[..j])) <= SeqOf(Top(rows[..n]))
    ensures SeqOf(Top(rows[..j])) == SeqOf(Top(rows[..n])) ==> Top(rows[..j]) == Top(rows[..n])
    decreases n
  {
    if j < n {
      TopGrows(c, posts, rows, j, n - 1);
      assert RowOk(c, posts, rows, n - 1);
      assert rows[..n][..n - 1] == rows[..n - 1];
    }
  }

  /** No row, failed ones included, is numbered past the one after the newest confirmed row;
      and those with that number all continue the newest confirmed row. */
  lemma NumberOfRow(c: Config, posts: seq<Posting>, rows: seq<Row>, j: nat)
    requires RowsOk(c, posts, rows) && j < |rows|
    ensures Continues(c, posts, Top(rows[..j]), rows[j])
    ensures 1 <= rows[j].seqNo <= SeqOf(Base(rows)) + 1
    ensures rows[j].seqNo == SeqOf(Base(rows)) + 1 ==> Top(rows[..j]) == Base(rows)
  {
    assert RowOk(c, posts, rows, j);
    var n := if IsOpen(rows[|rows| - 1]) then |rows| - 1 else |rows|;
    assert rows[..|rows|] == rows;
    TopGrows(c, posts, rows, j, n);
  }

  lemma {:induction false} TopIsSome(rows: seq<Row>)
    requires forall i: nat | i < |rows| :: !IsOpen(rows[i])
    ensures Top(rows).Some? ==> Top(rows).value in rows && Top(rows).value.status.Confirmed?
  {
    if rows != [] {
      TopIsSome(rows[..|rows| - 1]);
    }
  }

  lemma BaseIsConfirmed(c: Config, posts: seq<Posting>, rows: seq<Row>)
    requires RowsOk(c, posts, rows)
    ensures Base(rows).Some? ==> Base(rows).value in rows && Base(rows).value.status.Confirmed?
  {
    forall i: nat | i < |rows| - 1 ensures !IsOpen(rows[i]) {
      assert RowOk(c, posts, rows, i);
    }
    if rows != [] && IsOpen(rows[|rows| - 1]) {
      TopIsSome(rows[..|rows| - 1]);
    } else {
      TopIsSome(rows);
    }
  }

  // ---------------------------------------------------------------------------
  // The invariant
  // ---------------------------------------------------------------------------

  /** `q` was sent for row `i`. */
  predicate SentFor(rows: seq<Row>, i: nat, q: L.Request) {
    i < |rows| && rows[i].attempts > 0 && Sendable(rows[i]) && RequestOf(rows[i]) == q
  }

  ghost predicate Accounted(rows: seq<Row>, q: L.Request) {
    exists i: nat :: SentFor(rows, i, q)
  }

  ghost predicate SentIsAccounted(rows: seq<Row>, sent: set<L.Request>) {
    forall q | q in sent :: Accounted(rows, q)
  }

  ghost predicate ChainWasSent(w: World) {
    forall k: nat | k < |w.chain| :: w.chain[k].req in w.sent
  }

  predicate OnLedger(r: Row, chain: seq<L.Seal>) {
    1 <= r.seqNo <= |chain| && Sendable(r) && chain[r.seqNo - 1].req == RequestOf(r)
  }

  ghost predicate ConfirmedIsOnLedger(rows: seq<Row>, chain: seq<L.Seal>) {
    forall i: nat | i < |rows| && rows[i].status.Confirmed? :: OnLedger(rows[i], chain)
  }

  function DebitOf(): Posting -> int {
    (p: Posting) => p.debit
  }

  /** What `q` says is true of the next `q.count` postings after the first `m`: it carries the root
      over them and the sum of their debits, and its window runs from the second in which the
      first was posted to the second in which the last was, pushed forward where the clock went
      back or the previous window ended later. */
  ghost predicate Says(c: Config, posts: seq<Posting>, m: nat, prevTo: nat, q: L.Request) {
    var e := m + q.count;
    && m < e <= |posts|
    && q.root == BatchRoot(c, posts, m, e)
    && q.debits == SumOf(DebitOf(), posts[m..e])
    && q.from == Max(posts[m].at / 1_000_000, prevTo)
    && q.to == Max(posts[e - 1].at / 1_000_000, q.from)
  }

  /** Seal number k+1 speaks of the postings that follow those of the seals before it. */
  ghost predicate Covers(c: Config, posts: seq<Posting>, chain: seq<L.Seal>, k: nat)
    requires k < |chain|
  {
    Says(c, posts, L.TotalCount(chain[..k]), L.HeadTo(chain[..k]), chain[k].req)
  }

  ghost predicate Tiled(c: Config, posts: seq<Posting>, chain: seq<L.Seal>) {
    forall k: nat | k < |chain| :: Covers(c, posts, chain, k)
  }

  /** The ledger is level with the confirmed rows or one seal ahead of them. */
  ghost predicate Level(rows: seq<Row>, chain: seq<L.Seal>) {
    && SeqOf(Base(rows)) <= |chain| <= SeqOf(Base(rows)) + 1
    && L.TotalCount(chain[..SeqOf(Base(rows))]) == Covered(Base(rows))
  }

  ghost predicate Inv(c: Config, w: World) {
    && Good(c, w.db)
    && SentIsAccounted(w.db.rows, w.sent)
    && ChainWasSent(w)
    && ConfirmedIsOnLedger(w.db.rows, w.chain)
    && L.Linked(w.chain)
    && Tiled(c, w.db.posts, w.chain)
    && Level(w.db.rows, w.chain)
  }

  lemma StartIsFine(c: Config)
    ensures Inv(c, START)
  {
  }

  // ---------------------------------------------------------------------------
  // Steps
  // ---------------------------------------------------------------------------

  /** Only requests that this worker sent arrive at the ledger. */
  predicate Sole(w: World, step: Step) {
    step.Land? ==> step.req in w.sent
  }

  lemma PostKeeps(c: Config, w: World, p: Posting)
    requires Inv(c, w)
    ensures Inv(c, Next(c, w, Post(p)))
  {
    PostKeepsGood(c, w.db, p);
    StillTiled(c, w.db.posts, w.db.posts + [p], w.chain);
  }

  lemma StillTiled(c: Config, posts: seq<Posting>, more: seq<Posting>, chain: seq<L.Seal>)
    requires Tiled(c, posts, chain) && posts <= more
    ensures Tiled(c, more, chain)
  {
    forall k: nat | k < |chain| ensures Covers(c, more, chain, k) {
      assert Covers(c, posts, chain, k);
      StillSays(c, posts, more, L.TotalCount(chain[..k]), L.HeadTo(chain[..k]), chain[k].req);
    }
  }

  lemma StillSays(c: Config, posts: seq<Posting>, more: seq<Posting>, m: nat, prevTo: nat, q: L.Request)
    requires Says(c, posts, m, prevTo, q) && posts <= more
    ensures Says(c, more, m, prevTo, q)
  {
    BatchRootOfPrefix(c, posts, more, m, m + q.count);
    assert posts[m..m + q.count] == more[m..m + q.count];
  }

  /** Rows that only gain attempts or change status account for what was sent for them. */
  lemma StillAccounted(rows: seq<Row>, more: seq<Row>, sent: set<L.Request>)
    requires SentIsAccounted(rows, sent) && |rows| <= |more|
    requires forall i: nat | i < |rows| :: Content(more[i]) == Content(rows[i]) && more[i].attempts >= rows[i].attempts
    ensures SentIsAccounted(more, sent)
  {
    forall q | q in sent ensures Accounted(more, q) {
      assert Accounted(rows, q);
      var i: nat :| SentFor(rows, i, q);
      assert Content(more[i]) == Content(rows[i]);
      SameContentSameRequest(rows[i], more[i]);
      assert SentFor(more, i, q);
    }
  }

  lemma SameContentSameRequest(r: Row, s: Row)
    requires Content(r) == Content(s)
    ensures Sendable(r) == Sendable(s)
    ensures Sendable(r) ==> RequestOf(r) == RequestOf(s)
  {
    assert r.(status := s.status, attempts := s.attempts) == s;
  }

  lemma CreateKeeps(c: Config, w: World)
    requires Inv(c, w)
    ensures Inv(c, Next(c, w, Create))
  {
    var t := w.db;
    var z := CreateSeal(c, t);
    CreateKeepsGood(c, t);
    CreateIsDraft(c, t);
    if z != t {
      var n := |t.rows|;
      assert z.rows[..n] == t.rows;
      assert n > 0 ==> t.rows[n - 1] in t.rows;
      assert Base(z.rows) == Base(t.rows);
      StillAccounted(t.rows, z.rows, w.sent);
      assert ConfirmedIsOnLedger(z.rows, w.chain);
    }
  }

  /** What the row steps have in common: the newest row is open and changes, but keeps its
      content, and the newest confirmed row stays what it was. */
  lemma OpenRowMoves(c: Config, w: World, t: Table, i: nat)
    requires Inv(c, w) && OpenAt(w.db, i) && Good(c, t)
    requires t.posts == w.db.posts && |t.rows| == |w.db.rows|
    requires t.rows == w.db.rows[i := t.rows[i]]
    requires Content(t.rows[i]) == Content(w.db.rows[i]) && t.rows[i].attempts >= w.db.rows[i].attempts
    requires !t.rows[i].status.Confirmed?
    ensures Base(t.rows) == Base(w.db.rows)
    ensures Inv(c, w.(db := t))
  {
    OpenIsLast(c, w.db, i);
    assert t.rows[..i] == w.db.rows[..i];
    StillAccounted(w.db.rows, t.rows, w.sent);
  }

  lemma ConfirmKeeps(c: Config, w: World, i: nat)
    requires Inv(c, w) && OpenAt(w.db, i) && OnLedger(w.db.rows[i], w.chain)
    ensures Inv(c, w.(db := Mark(w.db, i, Confirmed)))
    ensures SeqOf(Base(Mark(w.db, i, Confirmed).rows)) == SeqOf(Base(w.db.rows)) + 1
  {
    var t := Mark(w.db, i, Confirmed);
    RowStepKeepsGood(c, w.db, i, w.chain);
    StillAccounted(w.db.rows, t.rows, w.sent);
    ConfirmedRowsOnLedger(w.db.rows, i, w.chain);
    LevelAfterConfirming(c, w, i);
  }

  lemma ConfirmedRowsOnLedger(rows: seq<Row>, i: nat, chain: seq<L.Seal>)
    requires i < |rows| && ConfirmedIsOnLedger(rows, chain) && OnLedger(rows[i], chain)
    ensures ConfirmedIsOnLedger(rows[i := rows[i].(status := Confirmed)], chain)
  {
    SameContentSameRequest(rows[i], rows[i].(status := Confirmed));
  }

  lemma LevelAfterConfirming(c: Config, w: World, i: nat)
    requires Inv(c, w) && OpenAt(w.db, i) && OnLedger(w.db.rows[i], w.chain)
    ensures Level(Mark(w.db, i, Confirmed).rows, w.chain)
    ensures SeqOf(Base(Mark(w.db, i, Confirmed).rows)) == SeqOf(Base(w.db.rows)) + 1
  {
    OpenRowIsNext(c, w.db, i);
    TotalOfNext(w.chain, SeqOf(Base(w.db.rows)));
  }

  /** The open row continues the newest confirmed one, and is the newest once it is confirmed. */
  lemma OpenRowIsNext(c: Config, t: Table, i: nat)
    requires Good(c, t) && OpenAt(t, i)
    ensures var r := t.rows[i];
            && Base(Mark(t, i, Confirmed).rows) == Some(r.(status := Confirmed))
            && r.seqNo == SeqOf(Base(t.rows)) + 1 && r.last == Covered(Base(t.rows)) + r.count
  {
    OpenIsLast(c, t, i);
    NumberOfRow(c, t.posts, t.rows, i);
    ContentOf(c, t.posts, Base(t.rows), t.rows[i]);
  }

  lemma TotalOfNext(chain: seq<L.Seal>, k: nat)
    requires k < |chain|
    ensures L.TotalCount(chain[..k + 1]) == L.TotalCount(chain[..k]) + chain[k].req.count
  {
    assert chain[..k + 1][..k] == chain[..k];
  }

  /** At one number, equal roots mean equal requests. */
  lemma RootDecides(c: Config, w: World, i: nat)
    requires Inv(c, w) && NoCollision(c, w.db.posts) && OpenAt(w.db, i)
    requires w.db.rows[i].seqNo <= |w.chain|
    ensures 1 <= w.db.rows[i].seqNo && w.db.rows[i].seqNo == |w.chain|
    ensures w.chain[w.db.rows[i].seqNo - 1].req.root == w.db.rows[i].root
        <==> w.chain[w.db.rows[i].seqNo - 1].req.count == w.db.rows[i].count
    ensures w.chain[w.db.rows[i].seqNo - 1].req.root == w.db.rows[i].root ==> OnLedger(w.db.rows[i], w.chain)
  {
    var rows, posts := w.db.rows, w.db.posts;
    OpenIsLast(c, w.db, i);
    NumberOfRow(c, posts, rows, i);
    var r := rows[i];
    var j := RowOfSeal(c, w, r.seqNo - 1);
    NumberOfRow(c, posts, rows, j);
    SameStartSameRow(c, posts, Base(rows), rows[j], r);
  }

  /** The row a seal on the ledger was sent for. */
  lemma RowOfSeal(c: Config, w: World, k: nat) returns (j: nat)
    requires Inv(c, w) && k < |w.chain|
    ensures SentFor(w.db.rows, j, w.chain[k].req)
    ensures w.db.rows[j].seqNo == k + 1
  {
    assert w.chain[k].req in w.sent;
    assert Accounted(w.db.rows, w.chain[k].req);
    j :| SentFor(w.db.rows, j, w.chain[k].req);
    assert L.Extends(w.chain[..k], w.chain[k].req);
  }

  lemma SameStartSameRow(c: Config, posts: seq<Posting>, top: Option<Row>, r: Row, s: Row)
    requires Continues(c, posts, top, r) && Continues(c, posts, top, s) && NoCollision(c, posts)
    ensures r.root == s.root <==> r.count == s.count
    ensures r.root == s.root ==> Content(r) == Content(s)
    ensures r.root == s.root && Sendable(r) ==> Sendable(s) && RequestOf(r) == RequestOf(s)
  {
    var m := Covered(top);
    ContentOf(c, posts, top, r);
    ContentOf(c, posts, top, s);
    assert BatchRoot(c, posts, m, r.last) == BatchRoot(c, posts, m, s.last) ==> r.last == s.last;
    if r.last == s.last {
      SameContentSameRequest(r, s);
    }
  }

  lemma ContentOf(c: Config, posts: seq<Posting>, top: Option<Row>, r: Row)
    requires Continues(c, posts, top, r)
    ensures r.root == BatchRoot(c, posts, Covered(top), r.last)
    ensures r.count == r.last - Covered(top)
    ensures Content(r) == Draft(c, posts, top, r.last)
  {
    assert Content(r).root == r.root && Content(r).count == r.count;
  }

  /** Whenever the ledger was read: it only grows, so what it held it still holds. */
  lemma ResolveKeeps(c: Config, w: World, i: nat, view: seq<L.Seal>)
    requires Inv(c, w) && NoCollision(c, w.db.posts) && OpenAt(w.db, i) && view <= w.chain
    ensures Inv(c, w.(db := Resolve(w.db, i, view)))
  {
    var t := Resolve(w.db, i, view);
    if t == Fail(w.db, i) {
      FailKeeps(c, w, i);
    } else {
      RootDecides(c, w, i);
      ConfirmKeeps(c, w, i);
    }
  }

  lemma FailKeeps(c: Config, w: World, i: nat)
    requires Inv(c, w) && OpenAt(w.db, i)
    ensures Inv(c, w.(db := Fail(w.db, i))) && Base(Fail(w.db, i).rows) == Base(w.db.rows)
  {
    FailKeepsGood(c, w.db, i);
    OpenRowMoves(c, w, Fail(w.db, i), i);
  }

  lemma MarkOpenKeeps(c: Config, w: World, i: nat, status: Status)
    requires Inv(c, w) && OpenAt(w.db, i) && (status.Pending? || status.Submitted?)
    ensures Inv(c, w.(db := Mark(w.db, i, status))) && Base(Mark(w.db, i, status).rows) == Base(w.db.rows)
  {
    RowStepKeepsGood(c, w.db, i, w.chain);
    OpenRowMoves(c, w, Mark(w.db, i, status), i);
  }

  lemma SendKeeps(c: Config, w: World, i: nat)
    requires Inv(c, w) && OpenAt(w.db, i)
    ensures var r := w.db.rows[i];
            var t := w.db.(rows := w.db.rows[i := Tried(r)]);
            && Base(t.rows) == Base(w.db.rows)
            && Inv(c, w.(db := t))
            && (Sendable(r) ==> Inv(c, World(t, w.chain, w.sent + {RequestOf(r)})))
  {
    var r := w.db.rows[i];
    var t := w.db.(rows := w.db.rows[i := Tried(r)]);
    RowStepKeepsGood(c, w.db, i, w.chain);
    OpenRowMoves(c, w, t, i);
    if Sendable(r) {
      assert SentFor(t.rows, i, RequestOf(r));
      var z := World(t, w.chain, w.sent + {RequestOf(r)});
      forall q | q in z.sent ensures Accounted(t.rows, q) {
        if q != RequestOf(r) {
          assert q in w.sent;
        }
      }
      assert SentIsAccounted(t.rows, z.sent);
      assert ChainWasSent(z);
    }
  }

  lemma SubmitKeeps(c: Config, w: World, i: nat, ready: bool, reachable: bool, seen: nat)
    requires Inv(c, w) && NoCollision(c, w.db.posts) && OpenAt(w.db, i)
    ensures Inv(c, Next(c, w, SubmitRow(i, ready, reachable, seen)))
  {
    var z := Next(c, w, SubmitRow(i, ready, reachable, seen));
    match EffectOf(w.db.rows[i], Seen(w, seen), ready, reachable)
    case Nothing => assert z == w;
    case Failing =>
      assert z == w.(db := Fail(w.db, i));
      FailKeeps(c, w, i);
    case Resolving =>
      assert z == w.(db := Resolve(w.db, i, Seen(w, seen)));
      ResolveKeeps(c, w, i, Seen(w, seen));
    case Sending => SendKeeps(c, w, i);
  }

  lemma HearKeeps(c: Config, w: World, i: nat, outcome: Outcome, seen: nat)
    requires Inv(c, w) && NoCollision(c, w.db.posts) && Possible(w, Hear(i, outcome, seen))
    ensures Inv(c, Next(c, w, Hear(i, outcome, seen)))
  {
    match outcome
    case Landed => ConfirmKeeps(c, w, i);
    case Unknown => MarkOpenKeeps(c, w, i, Submitted);
    case Rejected(outOfOrder) =>
      if outOfOrder {
        ResolveKeeps(c, w, i, Seen(w, seen));
      } else {
        FailKeeps(c, w, i);
        MarkOpenKeeps(c, w, i, Pending);
      }
  }

  /** What the contract takes is the next seal, over the next postings in line. */
  lemma LandsInLine(c: Config, w: World, q: L.Request)
    requires Inv(c, w) && q in w.sent && L.Extends(w.chain, q)
    ensures |w.chain| == SeqOf(Base(w.db.rows))
    ensures L.TotalCount(w.chain) == Covered(Base(w.db.rows))
    ensures Says(c, w.db.posts, L.TotalCount(w.chain), L.HeadTo(w.chain), q)
  {
    var j := RowOfRequest(c, w, q);
    assert w.chain[..|w.chain|] == w.chain;
    HeadOfLedger(c, w);
    RowSays(c, w.db.posts, Base(w.db.rows), w.db.rows[j]);
  }

  lemma {:induction false} DebitsIsSum(batch: seq<Posting>)
    ensures Debits(batch) == SumOf(DebitOf(), batch)
    decreases |batch|
  {
    if batch != [] {
      DebitsIsSum(batch[..|batch| - 1]);
    }
  }

  lemma MaxMicros(a: nat, b: nat)
    ensures Max(a, b) / MICROS == Max(a / MICROS, b / MICROS)
  {
    if a >= b {
      Micros(b, a);
    } else {
      Micros(a, b);
    }
  }

  /** What is sent for a row is true of its postings. */
  lemma RowSays(c: Config, posts: seq<Posting>, top: Option<Row>, r: Row)
    requires Continues(c, posts, top, r) && Sendable(r)
    ensures Says(c, posts, Covered(top), if top.Some? then top.value.to / MICROS else 0, RequestOf(r))
  {
    var m, prevTo := Covered(top), if top.Some? then top.value.to else 0;
    var batch, d := posts[m..r.last], Draft(c, posts, top, r.last);
    ContentOf(c, posts, top, r);
    assert r.debits == d.debits && r.from == d.from && r.to == d.to;
    DebitsIsSum(batch);
    assert batch[0] == posts[m] && batch[|batch| - 1] == posts[r.last - 1];
    MaxMicros(posts[m].at, prevTo);
    MaxMicros(posts[r.last - 1].at, r.from);
  }

  /** A request the contract would take was sent for a row that continues the newest confirmed. */
  lemma RowOfRequest(c: Config, w: World, q: L.Request) returns (j: nat)
    requires Inv(c, w) && q in w.sent && L.Extends(w.chain, q)
    ensures SentFor(w.db.rows, j, q) && Continues(c, w.db.posts, Base(w.db.rows), w.db.rows[j])
    ensures |w.chain| == SeqOf(Base(w.db.rows))
  {
    assert Accounted(w.db.rows, q);
    j :| SentFor(w.db.rows, j, q);
    NumberOfRow(c, w.db.posts, w.db.rows, j);
  }

  lemma TilingGrows(c: Config, posts: seq<Posting>, chain: seq<L.Seal>, s: L.Seal)
    requires Tiled(c, posts, chain) && Says(c, posts, L.TotalCount(chain), L.HeadTo(chain), s.req)
    ensures Tiled(c, posts, chain + [s])
  {
    var longer := chain + [s];
    assert longer[..|chain|] == chain;
    forall h: nat | h < |longer| ensures Covers(c, posts, longer, h) {
      if h < |chain| {
        assert Covers(c, posts, chain, h);
        assert longer[..h] == chain[..h];
      }
    }
  }

  lemma StillOnLedger(rows: seq<Row>, chain: seq<L.Seal>, s: L.Seal)
    requires ConfirmedIsOnLedger(rows, chain)
    ensures ConfirmedIsOnLedger(rows, chain + [s])
  {
    forall i: nat | i < |rows| && rows[i].status.Confirmed? ensures OnLedger(rows[i], chain + [s]) {
      assert OnLedger(rows[i], chain);
    }
  }

  lemma LandKeeps(c: Config, w: World, q: L.Request, at: U64)
    requires Inv(c, w) && q in w.sent
    ensures Inv(c, Next(c, w, Land(q, at)))
  {
    if L.Extends(w.chain, q) {
      var s := L.Seal(q, at);
      LandsInLine(c, w, q);
      L.AppendKeepsLinked(w.chain, s);
      TilingGrows(c, w.db.posts, w.chain, s);
      StillOnLedger(w.db.rows, w.chain, s);
      LevelAfterLanding(w.db.rows, w.chain, s);
      assert ChainWasSent(Next(c, w, Land(q, at)));
    }
  }

  lemma LevelAfterLanding(rows: seq<Row>, chain: seq<L.Seal>, s: L.Seal)
    requires Level(rows, chain) && |chain| == SeqOf(Base(rows))
    ensures Level(rows, chain + [s])
  {
    assert (chain + [s])[..|chain|] == chain[..|chain|];
  }

  lemma NextKeeps(c: Config, w: World, step: Step)
    requires Inv(c, w) && NoCollision(c, w.db.posts) && Possible(w, step) && Sole(w, step)
    ensures Inv(c, Next(c, w, step))
  {
    match step
    case Post(p) => PostKeeps(c, w, p);
    case Create => CreateKeeps(c, w);
    case SubmitRow(i, ready, reachable, seen) => SubmitKeeps(c, w, i, ready, reachable, seen);
    case Hear(i, outcome, seen) => HearKeeps(c, w, i, outcome, seen);
    case ReconcileRow(i, seen) => ResolveKeeps(c, w, i, Seen(w, seen));
    case Land(q, at) => LandKeeps(c, w, q, at);
  }

  ghost predicate SoleRun(c: Config, w: World, steps: seq<Step>, z: World)
    requires Sized(w.db)
    decreases |steps|
  {
    if steps == [] then z == w
    else
      NextKeepsSized(c, w, steps[0]);
      && Possible(w, steps[0]) && Sole(w, steps[0])
      && SoleRun(c, Next(c, w, steps[0]), steps[1..], z)
  }

  lemma {:induction false} PostsGrow(c: Config, w: World, steps: seq<Step>, z: World)
    requires Sized(w.db) && SoleRun(c, w, steps, z)
    ensures w.db.posts <= z.db.posts && Sized(z.db)
    decreases |steps|
  {
    if steps != [] {
      NextKeepsSized(c, w, steps[0]);
      PostsGrow(c, Next(c, w, steps[0]), steps[1..], z);
    }
  }

  lemma {:induction false} RunKeeps(c: Config, w: World, steps: seq<Step>, z: World)
    requires Inv(c, w) && SoleRun(c, w, steps, z) && NoCollision(c, z.db.posts)
    ensures Inv(c, z)
    decreases |steps|
  {
    if steps != [] {
      var n := Next(c, w, steps[0]);
      NextKeepsSized(c, w, steps[0]);
      PostsGrow(c, n, steps[1..], z);
      NoCollisionInPrefix(c, w.db.posts, z.db.posts);
      NextKeeps(c, w, steps[0]);
      RunKeeps(c, n, steps[1..], z);
    }
  }

  // ---------------------------------------------------------------------------
  // What it comes to
  // ---------------------------------------------------------------------------

  /** Every reachable state. The ledger's seals cover the postings once each and in order: seal
      k+1 holds the root over exactly the `count` postings that follow those of the seals before
      it. No posting is sealed twice and none is passed over, whatever was lost, repeated,
      delayed or given up on the way. */
  lemma LedgerTilesPostings(c: Config, steps: seq<Step>, z: World)
    requires SoleRun(c, START, steps, z) && NoCollision(c, z.db.posts)
    ensures L.TotalCount(z.chain) <= |z.db.posts|
    ensures Tiled(c, z.db.posts, z.chain)
    ensures forall r | r in z.db.rows && r.status.Confirmed? :: OnLedger(r, z.chain)
  {
    StartIsFine(c);
    RunKeeps(c, START, steps, z);
    var n := |z.chain|;
    if n > 0 {
      assert Covers(c, z.db.posts, z.chain, n - 1);
    }
  }

  /** When it is a row's turn, the contract takes it: the number, the link and the window the
      worker prepared are the ones the contract asks for, however the posting clock moved. The
      branch that finds a diverged ledger is never taken. */
  lemma TurnIsAccepted(c: Config, w: World, i: nat)
    requires Inv(c, w) && OpenAt(w.db, i)
    requires w.db.rows[i].seqNo == |w.chain| + 1
    ensures L.HeadRoot(w.chain) == w.db.rows[i].prev
    ensures Sendable(w.db.rows[i]) && w.db.rows[i].root != L.GENESIS ==> L.Extends(w.chain, RequestOf(w.db.rows[i]))
  {
    var rows, posts := w.db.rows, w.db.posts;
    var r := rows[i];
    OpenIsLast(c, w.db, i);
    NumberOfRow(c, posts, rows, i);
    ContentOf(c, posts, Base(rows), r);
    var d := Draft(c, posts, Base(rows), r.last);
    assert r.prev == d.prev && r.from == d.from && r.to == d.to;
    HeadOfLedger(c, w);
    Micros(r.from, r.to);
    if Base(rows).Some? {
      Micros(Base(rows).value.to, r.from);
    }
  }

  /** The same for an earlier reading: if it was the row's turn then, the reading ended in the
      root the row links to. */
  lemma SeenHead(c: Config, w: World, i: nat, view: seq<L.Seal>)
    requires Inv(c, w) && OpenAt(w.db, i) && view <= w.chain && |view| + 1 == w.db.rows[i].seqNo
    ensures L.HeadRoot(view) == w.db.rows[i].prev
  {
    OpenLinksToBase(c, w.db, i);
    BaseOnLedger(c, w);
  }

  lemma OpenLinksToBase(c: Config, t: Table, i: nat)
    requires Good(c, t) && OpenAt(t, i)
    ensures t.rows[i].seqNo == SeqOf(Base(t.rows)) + 1
    ensures t.rows[i].prev == if Base(t.rows).Some? then Base(t.rows).value.root else L.GENESIS
  {
    OpenIsLast(c, t, i);
    NumberOfRow(c, t.posts, t.rows, i);
    ContentOf(c, t.posts, Base(t.rows), t.rows[i]);
    assert t.rows[i].prev == Draft(c, t.posts, Base(t.rows), t.rows[i].last).prev;
  }

  lemma BaseOnLedger(c: Config, w: World)
    requires Inv(c, w)
    ensures Base(w.db.rows).Some? ==> OnLedger(Base(w.db.rows).value, w.chain)
  {
    var rows := w.db.rows;
    BaseIsConfirmed(c, w.db.posts, rows);
    if Base(rows).Some? {
      var j: nat :| j < |rows| && rows[j] == Base(rows).value;
    }
  }

  lemma Micros(a: nat, b: nat)
    requires a <= b
    ensures a / MICROS <= b / MICROS
  {
  }

  /** Level with the confirmed rows, the ledger ends in the newest of them. */
  lemma HeadOfLedger(c: Config, w: World)
    requires Inv(c, w) && |w.chain| == SeqOf(Base(w.db.rows))
    ensures Base(w.db.rows).None? ==> w.chain == []
    ensures Base(w.db.rows).Some? ==>
              && w.chain != []
              && L.HeadRoot(w.chain) == Base(w.db.rows).value.root
              && L.HeadTo(w.chain) == Base(w.db.rows).value.to / MICROS
  {
    var rows := w.db.rows;
    BaseIsConfirmed(c, w.db.posts, rows);
    if Base(rows).Some? {
      var i: nat :| i < |rows| && rows[i] == Base(rows).value;
      assert OnLedger(rows[i], w.chain);
    }
  }
}
