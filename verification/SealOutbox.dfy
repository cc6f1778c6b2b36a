/** The outbox of seals of one organisation: postings waiting to be sealed, the table of seal
    rows, and what the worker does to both in the light of what the ledger says. */
module SealOutbox {
  import opened Basics
  import opened Bytes
  import opened LedgerSpec

  const MAX_ATTEMPTS: nat := 5
  const MICROS: nat := 1_000_000

  /** The hash tree over a batch, and the largest batch. */
  datatype Config = Config(root: seq<Digest> -> Digest, limit: nat)

  /** A posted entry: its leaf hash, when it was posted in microseconds, and its debit in
      minor units. Its sequence number is its place in the list, from 1. */
  datatype Posting = Posting(digest: Digest, at: nat, debit: int)

  /** Which seal row holds a posting, and where in that row's tree. */
  datatype Place = Loose | Placed(row: nat, index: nat)

  datatype Status = Pending | Submitted | Confirmed | Failed

  datatype Row = Row(seqNo: nat, root: Digest, prev: Digest, count: nat, debits: int,
                     first: nat, last: nat, from: nat, to: nat, status: Status, attempts: nat)

  datatype Table = Table(posts: seq<Posting>, places: seq<Place>, rows: seq<Row>)

  predicate IsOpen(r: Row) { r.status.Pending? || r.status.Submitted? }
  predicate IsLive(r: Row) { !r.status.Failed? }

  // ---------------------------------------------------------------------------
  // Queries
  // ---------------------------------------------------------------------------

  predicate ExistsOpen(rows: seq<Row>) {
    exists r | r in rows :: IsOpen(r)
  }

  /** The confirmed row with the highest number. */
  function LatestConfirmed(rows: seq<Row>): Option<Row> {
    if rows == [] then None
    else
      var rest, r := LatestConfirmed(rows[..|rows| - 1]), rows[|rows| - 1];
      if r.status.Confirmed? && (rest.None? || r.seqNo > rest.value.seqNo) then Some(r) else rest
  }

  /** The highest number that does not belong to a failed row. */
  function HighestLive(rows: seq<Row>): nat {
    if rows == [] then 0
    else
      var rest, r := HighestLive(rows[..|rows| - 1]), rows[|rows| - 1];
      if IsLive(r) && r.seqNo > rest then r.seqNo else rest
  }

  predicate Within(at: seq<nat>, n: nat) {
    forall i | 0 <= i < |at| :: at[i] < n
  }

  /** Positions of the postings no seal holds, in posting order. */
  function Unsealed(places: seq<Place>): (free: seq<nat>)
    ensures Within(free, |places|)
  {
    if places == [] then []
    else
      var n := |places| - 1;
      Unsealed(places[..n]) + (if places[n].Loose? then [n] else [])
  }

  function Take(s: seq<nat>, limit: nat): (t: seq<nat>)
    ensures t <= s
  {
    if |s| <= limit then s else s[..limit]
  }

  // ---------------------------------------------------------------------------
  // Preparing a seal
  // ---------------------------------------------------------------------------

  function Digests(batch: seq<Posting>): seq<Digest> {
    seq(|batch|, i requires 0 <= i < |batch| => batch[i].digest)
  }

  function Debits(batch: seq<Posting>): int {
    if batch == [] then 0 else Debits(batch[..|batch| - 1]) + batch[|batch| - 1].debit
  }

  /** The batch's window, pushed forward so that it starts no earlier than the previous one
      ended and does not end before it starts, whatever the clock did. */
  function Window(batch: seq<Posting>, previous: Option<Row>): (w: (nat, nat))
    requires batch != []
    ensures w.0 == Max(batch[0].at, if previous.Some? then previous.value.to else 0)
    ensures w.1 == Max(batch[|batch| - 1].at, w.0)
  {
    var start, end := batch[0].at, batch[|batch| - 1].at;
    var from := if previous.Some? && start < previous.value.to then previous.value.to else start;
    (from, if end < from then from else end)
  }

  function Prepare(c: Config, batch: seq<Posting>, first: nat, last: nat, seqNo: nat, previous: Option<Row>): Row
    requires batch != []
  {
    var (from, to) := Window(batch, previous);
    Row(seqNo, c.root(Digests(batch)), if previous.Some? then previous.value.root else GENESIS,
        |batch|, Debits(batch), first, last, from, to, Pending, 0)
  }

  function Pick(posts: seq<Posting>, at: seq<nat>): (batch: seq<Posting>)
    requires Within(at, |posts|)
    ensures |batch| == |at|
  {
    seq(|at|, i requires 0 <= i < |at| => posts[at[i]])
  }

  /** Stamps the postings at the positions `at` with their row and their place in its tree. */
  function Assign(places: seq<Place>, at: seq<nat>, row: nat): (r: seq<Place>)
    requires Within(at, |places|)
    ensures |r| == |places|
  {
    if at == [] then places
    else
      var k := |at| - 1;
      Assign(places, at[..k], row)[at[k] := Placed(row, k)]
  }

  function Release(places: seq<Place>, row: nat): (r: seq<Place>)
    ensures |r| == |places|
  {
    seq(|places|, p requires 0 <= p < |places| =>
      if places[p].Placed? && places[p].row == row then Loose else places[p])
  }

  /** Every posting has its place: the two columns of the leaf table. */
  predicate Sized(t: Table) {
    |t.places| == |t.posts|
  }

  function CreateSeal(c: Config, t: Table): Table
    requires Sized(t)
  {
    var batch := Take(Unsealed(t.places), c.limit);
    if ExistsOpen(t.rows) || batch == [] then t
    else
      var row := Prepare(c, Pick(t.posts, batch), batch[0] + 1, batch[|batch| - 1] + 1,
                         HighestLive(t.rows) + 1, LatestConfirmed(t.rows));
      Table(t.posts, Assign(t.places, batch, |t.rows|), t.rows + [row])
  }

  // ---------------------------------------------------------------------------
  // Getting it onto the ledger
  // ---------------------------------------------------------------------------

  function Fail(t: Table, i: nat): Table
    requires i < |t.rows|
  {
    Table(t.posts, Release(t.places, i), t.rows[i := t.rows[i].(status := Failed)])
  }

  function Mark(t: Table, i: nat, status: Status): Table
    requires i < |t.rows|
  {
    t.(rows := t.rows[i := t.rows[i].(status := status)])
  }

  /** What the ledger holds at the row's number decides the row. */
  function Resolve(t: Table, i: nat, chain: seq<Seal>): Table
    requires i < |t.rows|
  {
    var r := t.rows[i];
    if !(1 <= r.seqNo <= |chain|) then Fail(t, i)
    else if chain[r.seqNo - 1].req.root != r.root then Fail(t, i)
    else Mark(t, i, Confirmed)
  }

  /** The widths of the contract's arguments; a row that does not fit them cannot be sent. */
  predicate Sendable(r: Row) {
    && r.seqNo <= U32_MAX && r.count <= U32_MAX
    && -I128_MAX - 1 <= r.debits <= I128_MAX
    && r.from / MICROS <= U64_MAX && r.to / MICROS <= U64_MAX
  }

  function RequestOf(r: Row): Request
    requires Sendable(r)
  {
    Request(r.seqNo, r.root, r.prev, r.count, r.debits, r.from / MICROS, r.to / MICROS)
  }

  function Tried(r: Row): Row { r.(status := Submitted, attempts := r.attempts + 1) }

  /** The four things a submission can do. */
  datatype Effect = Nothing | Failing | Resolving | Sending

  /** The ledger is asked first; only when it is this row's turn is anything sent. */
  function EffectOf(r: Row, view: seq<Seal>, ready: bool, reachable: bool): Effect {
    if !ready then Failing
    else if !reachable then Nothing
    else if |view| >= r.seqNo then Resolving
    else if |view| < r.seqNo - 1 then Nothing
    else if HeadRoot(view) != r.prev then Failing
    else Sending
  }

  function Submit(t: Table, i: nat, view: seq<Seal>, ready: bool, reachable: bool): (Table, Option<Request>)
    requires i < |t.rows|
  {
    var r := t.rows[i];
    match EffectOf(r, view, ready, reachable)
    case Nothing => (t, None)
    case Failing => (Fail(t, i), None)
    case Resolving => (Resolve(t, i, view), None)
    case Sending => (t.(rows := t.rows[i := Tried(r)]), if Sendable(r) then Some(RequestOf(r)) else None)
  }

  /** What became of a submission, as far as the worker was told. */
  datatype Outcome = Landed | Unknown | Rejected(outOfOrder: bool)

  function ApplyOutcome(t: Table, i: nat, chain: seq<Seal>, outcome: Outcome): Table
    requires i < |t.rows|
  {
    match outcome
    case Landed => Mark(t, i, Confirmed)
    case Unknown => Mark(t, i, Submitted)
    case Rejected(outOfOrder) =>
      if outOfOrder then Resolve(t, i, chain)
      else if t.rows[i].attempts >= MAX_ATTEMPTS then Fail(t, i)
      else Mark(t, i, Pending)
  }

  /** A seal leaves exactly when sealing is on, the ledger answered, it is the row's turn, the link
      is the one the ledger ends in and the row fits the contract; and the attempt is counted. */
  lemma SentExactlyInTurn(t: Table, i: nat, view: seq<Seal>, ready: bool, reachable: bool)
    requires i < |t.rows|
    ensures var r, (z, out) := t.rows[i], Submit(t, i, view, ready, reachable);
            && (out.Some? <==> ready && reachable && |view| + 1 == r.seqNo && HeadRoot(view) == r.prev && Sendable(r))
            && (out.Some? ==> z.rows[i].status.Submitted? && z.rows[i].attempts == r.attempts + 1
                              && out.value.seqNo == |view| + 1 && out.value.prev == HeadRoot(view))
  {
  }

  /** With sealing switched off the row fails unasked. Not reaching the ledger, or reaching it too
      early, changes nothing; a ledger that has gone another way fails the row, and one that holds
      the row's number already decides it by the root. */
  lemma WaitsOrFails(t: Table, i: nat, view: seq<Seal>, reachable: bool)
    requires i < |t.rows| && t.rows[i].seqNo >= 1
    ensures Submit(t, i, view, false, reachable).0.rows[i].status.Failed?
    ensures var r, z := t.rows[i], Submit(t, i, view, true, true).0;
            r.seqNo <= |view| ==>
              if view[r.seqNo - 1].req.root == r.root then z.rows[i].status.Confirmed? && z.places == t.places
              else z.rows[i].status.Failed?
    ensures Submit(t, i, view, true, false) == (t, None)
    ensures |view| + 1 < t.rows[i].seqNo ==> Submit(t, i, view, true, true) == (t, None)
    ensures |view| + 1 == t.rows[i].seqNo && HeadRoot(view) != t.rows[i].prev ==>
              Submit(t, i, view, true, true).0.rows[i].status.Failed?
  {
  }

  /** The fifth rejected attempt parks a row and gives its postings back; an earlier one leaves it
      waiting with its postings. What is unknown stays submitted. */
  lemma FifthRejectionParks(t: Table, i: nat, view: seq<Seal>)
    requires i < |t.rows|
    ensures var z := ApplyOutcome(t, i, view, Rejected(false));
            if t.rows[i].attempts >= 5
            then z.rows[i].status.Failed? && forall p | 0 <= p < |z.places| && z.places[p].Placed? :: z.places[p].row != i
            else z.rows[i].status.Pending? && z.places == t.places
    ensures ApplyOutcome(t, i, view, Unknown).rows[i].status.Submitted?
    ensures ApplyOutcome(t, i, view, Landed).rows[i].status.Confirmed?
  {
  }

  function Reconcile(t: Table, i: nat, chain: seq<Seal>): Table
    requires i < |t.rows|
  {
    if |chain| >= t.rows[i].seqNo then Resolve(t, i, chain) else t
  }

  /** Reconciling follows the ledger: a row whose number the ledger holds is confirmed if the root
      is its own and failed if it is not, and any other row is left alone. */
  lemma ReconcileFollowsLedger(t: Table, i: nat, chain: seq<Seal>)
    requires i < |t.rows| && t.rows[i].seqNo >= 1
    ensures var r, z := t.rows[i], Reconcile(t, i, chain);
            && (r.seqNo > |chain| ==> z == t)
            && (r.seqNo <= |chain| && chain[r.seqNo - 1].req.root == r.root ==> z.rows[i].status.Confirmed? && z.places == t.places)
            && (r.seqNo <= |chain| && chain[r.seqNo - 1].req.root != r.root ==> z.rows[i].status.Failed?)
  {
  }

  // ---------------------------------------------------------------------------
  // Runs
  // ---------------------------------------------------------------------------

  /** The tables, what the ledger holds for the organisation, and every request that ever left. */
  datatype World = World(db: Table, chain: seq<Seal>, sent: set<Request>)

  const START: World := World(Table([], [], []), [], {})

  /** Where the worker acts on what the ledger said, `seen` is how many seals the ledger held when
      it was read, which may be a while ago. */
  datatype Step =
    | Post(posting: Posting)
    | Create
    | SubmitRow(row: nat, ready: bool, reachable: bool, seen: nat)
    | Hear(row: nat, outcome: Outcome, seen: nat)
    | ReconcileRow(row: nat, seen: nat)
    | Land(req: Request, at: U64)

  predicate OpenAt(t: Table, i: nat) {
    i < |t.rows| && IsOpen(t.rows[i])
  }

  /** An earlier reading of the ledger, or the current one. */
  function Seen(w: World, seen: nat): (view: seq<Seal>)
    ensures view <= w.chain
  {
    if seen <= |w.chain| then w.chain[..seen] else w.chain
  }

  function Next(c: Config, w: World, step: Step): World
    requires Sized(w.db)
  {
    match step
    case Post(p) => w.(db := w.db.(posts := w.db.posts + [p], places := w.db.places + [Loose]))
    case Create => w.(db := CreateSeal(c, w.db))
    case SubmitRow(i, ready, reachable, seen) =>
      if !OpenAt(w.db, i) then w
      else
        var (t, out) := Submit(w.db, i, Seen(w, seen), ready, reachable);
        World(t, w.chain, if out.Some? then w.sent + {out.value} else w.sent)
    case Hear(i, outcome, seen) =>
      if !OpenAt(w.db, i) then w else w.(db := ApplyOutcome(w.db, i, Seen(w, seen), outcome))
    case ReconcileRow(i, seen) =>
      if !OpenAt(w.db, i) then w else w.(db := Reconcile(w.db, i, Seen(w, seen)))
    case Land(req, at) =>
      if Extends(w.chain, req) then w.(chain := w.chain + [Seal(req, at)]) else w
  }

  /** What the worker is told is true: a submission that landed is on the ledger, and one refused
      for its number finds that number taken when the ledger is read again. Rows that are
      spoken of are open. Anything at all may land at any time, between a reading and what the
      worker does about it too. */
  predicate Possible(w: World, step: Step) {
    match step
    case Hear(i, outcome, seen) =>
      && OpenAt(w.db, i)
      && var r := w.db.rows[i];
      && (outcome.Landed? ==> 1 <= r.seqNo <= |w.chain| && Sendable(r) && w.chain[r.seqNo - 1].req == RequestOf(r))
      && (outcome == Rejected(true) ==> r.seqNo <= |Seen(w, seen)|)
    case SubmitRow(i, _, _, _) => OpenAt(w.db, i)
    case ReconcileRow(i, _) => OpenAt(w.db, i)
    case _ => true
  }

  lemma NextKeepsSized(c: Config, w: World, step: Step)
    requires Sized(w.db)
    ensures Sized(Next(c, w, step).db)
    ensures w.db.posts <= Next(c, w, step).db.posts
  {
  }

  ghost predicate Run(c: Config, w: World, steps: seq<Step>, z: World)
    requires Sized(w.db)
    decreases |steps|
  {
    if steps == [] then z == w
    else
      NextKeepsSized(c, w, steps[0]);
      Possible(w, steps[0]) && Run(c, Next(c, w, steps[0]), steps[1..], z)
  }

  // ---------------------------------------------------------------------------
  // What the tables keep, whatever lands on the ledger
  // ---------------------------------------------------------------------------

  /** The newest row that has not failed. */
  function Top(rows: seq<Row>): Option<Row> {
    if rows == [] then None
    else if IsLive(rows[|rows| - 1]) then Some(rows[|rows| - 1])
    else Top(rows[..|rows| - 1])
  }

  /** How many postings the rows up to `top` cover, and how many rows that is. */
  function Covered(top: Option<Row>): nat { if top.None? then 0 else top.value.last }
  function SeqOf(top: Option<Row>): nat { if top.None? then 0 else top.value.seqNo }

  /** The row that continues `top` and covers the postings up to number `last`. */
  function Draft(c: Config, posts: seq<Posting>, top: Option<Row>, last: nat): Row
    requires Covered(top) < last <= |posts|
  {
    Prepare(c, posts[Covered(top)..last], Covered(top) + 1, last, SeqOf(top) + 1, top)
  }

  function Content(r: Row): Row { r.(status := Pending, attempts := 0) }

  /** `r` has the content of the row that continues `top`. */
  ghost predicate Continues(c: Config, posts: seq<Posting>, top: Option<Row>, r: Row) {
    && Covered(top) < r.last <= |posts|
    && r.last <= Covered(top) + c.limit
    && Content(r) == Draft(c, posts, top, r.last)
  }

  /** Each row, failed or not, continues the newest live row before it, and only the newest
      row may be open. */
  ghost predicate RowOk(c: Config, posts: seq<Posting>, rows: seq<Row>, i: nat)
    requires i < |rows|
  {
    && Continues(c, posts, Top(rows[..i]), rows[i])
    && (i < |rows| - 1 ==> !IsOpen(rows[i]))
  }

  ghost predicate RowsOk(c: Config, posts: seq<Posting>, rows: seq<Row>) {
    forall i: nat | i < |rows| :: RowOk(c, posts, rows, i)
  }

  /** A posting is loose exactly past the live rows, and otherwise in the row that covers it. */
  ghost predicate PlaceOk(rows: seq<Row>, p: nat, place: Place) {
    match place
    case Loose => p >= Covered(Top(rows))
    case Placed(i, k) =>
      && p < Covered(Top(rows))
      && i < |rows| && IsLive(rows[i])
      && p + 1 == rows[i].first + k && p < rows[i].last
  }

  ghost predicate PlacesOk(rows: seq<Row>, places: seq<Place>) {
    forall p: nat | p < |places| :: PlaceOk(rows, p, places[p])
  }

  ghost predicate Good(c: Config, t: Table) {
    Sized(t) && RowsOk(c, t.posts, t.rows) && PlacesOk(t.rows, t.places)
  }

  lemma RowsOkPrefix(c: Config, posts: seq<Posting>, rows: seq<Row>, n: nat)
    requires RowsOk(c, posts, rows) && n <= |rows|
    ensures RowsOk(c, posts, rows[..n])
  {
    forall i: nat | i < n ensures RowOk(c, posts, rows[..n], i) {
      assert RowOk(c, posts, rows, i);
      assert rows[..n][..i] == rows[..i];
    }
  }

  /** Numbers and ranges only move up. */
  lemma {:induction false} LiveIsBelowTop(c: Config, posts: seq<Posting>, rows: seq<Row>, i: nat)
    requires RowsOk(c, posts, rows) && i < |rows| && IsLive(rows[i])
    ensures Top(rows).Some? && rows[i].last <= Covered(Top(rows)) && rows[i].seqNo <= SeqOf(Top(rows))
    ensures i < |rows| - 1 && IsLive(rows[|rows| - 1]) ==> rows[i].last < rows[|rows| - 1].first
    decreases |rows|
  {
    var n := |rows| - 1;
    assert RowOk(c, posts, rows, n);
    if i < n {
      RowsOkPrefix(c, posts, rows, n);
      LiveIsBelowTop(c, posts, rows[..n], i);
    }
  }

  /** With no row open, the two queries for the newest row agree with each other. */
  lemma {:induction false} QueriesAgree(c: Config, posts: seq<Posting>, rows: seq<Row>)
    requires RowsOk(c, posts, rows) && !ExistsOpen(rows)
    ensures LatestConfirmed(rows) == Top(rows) && HighestLive(rows) == SeqOf(Top(rows))
    decreases |rows|
  {
    if rows != [] {
      var n := |rows| - 1;
      RowsOkPrefix(c, posts, rows, n);
      assert forall r | r in rows[..n] :: r in rows;
      QueriesAgree(c, posts, rows[..n]);
      assert RowOk(c, posts, rows, n);
      assert rows[n] in rows;
    }
  }

  /** The numbers m, m+1, ..., n-1. */
  function Upto(m: nat, n: nat): (s: seq<nat>)
    requires m <= n
    ensures |s| == n - m
    ensures forall i | 0 <= i < |s| :: s[i] == m + i
  {
    seq(n - m, i requires 0 <= i < n - m => m + i)
  }

  lemma {:induction false} UnsealedIsSuffix(rows: seq<Row>, places: seq<Place>)
    requires PlacesOk(rows, places)
    ensures var m := Covered(Top(rows));
            Unsealed(places) == if m <= |places| then Upto(m, |places|) else []
    decreases |places|
  {
    if places != [] {
      var n := |places| - 1;
      UnsealedIsSuffix(rows, places[..n]);
      assert PlaceOk(rows, n, places[n]);
      var m := Covered(Top(rows));
      if m <= n {
        assert Upto(m, n) + [n] == Upto(m, n + 1);
      } else if m == n + 1 {
        assert Upto(m, n + 1) == [];
      }
    }
  }

  lemma CoveredFits(c: Config, posts: seq<Posting>, rows: seq<Row>)
    requires RowsOk(c, posts, rows)
    ensures Covered(Top(rows)) <= |posts|
    decreases |rows|
  {
    if rows != [] {
      var n := |rows| - 1;
      assert RowOk(c, posts, rows, n);
      RowsOkPrefix(c, posts, rows, n);
      CoveredFits(c, posts, rows[..n]);
    }
  }

  lemma {:induction false} AssignIsRange(places: seq<Place>, m: nat, e: nat, row: nat)
    requires m <= e <= |places|
    ensures forall p: nat | p < |places| ::
              Assign(places, Upto(m, e), row)[p] == if m <= p < e then Placed(row, p - m) else places[p]
    decreases e
  {
    if m < e {
      AssignIsRange(places, m, e - 1, row);
      assert Upto(m, e)[..e - 1 - m] == Upto(m, e - 1);
    }
  }

  // ---------------------------------------------------------------------------
  // Every step keeps the tables good
  // ---------------------------------------------------------------------------

  /** How far the next batch reaches. */
  function NextLast(c: Config, t: Table): nat {
    var m := Covered(Top(t.rows));
    if |t.posts| <= m + c.limit then |t.posts| else m + c.limit
  }

  lemma NextBatch(c: Config, t: Table)
    requires Good(c, t)
    ensures Covered(Top(t.rows)) <= NextLast(c, t) <= |t.posts|
    ensures Take(Unsealed(t.places), c.limit) == Upto(Covered(Top(t.rows)), NextLast(c, t))
  {
    UnsealedIsSuffix(t.rows, t.places);
    CoveredFits(c, t.posts, t.rows);
  }

  lemma PickRange(posts: seq<Posting>, m: nat, e: nat)
    requires m <= e <= |posts|
    ensures Pick(posts, Upto(m, e)) == posts[m..e]
  {
  }

  /** What preparing a seal amounts to: the row that continues the newest live row, over the
      next postings in line. */
  lemma CreateIsDraft(c: Config, t: Table)
    requires Good(c, t)
    ensures Covered(Top(t.rows)) <= NextLast(c, t) <= |t.posts|
    ensures var m, e := Covered(Top(t.rows)), NextLast(c, t);
            CreateSeal(c, t) ==
              if ExistsOpen(t.rows) || m == e then t
              else Table(t.posts, Assign(t.places, Upto(m, e), |t.rows|),
                         t.rows + [Draft(c, t.posts, Top(t.rows), e)])
  {
    NextBatch(c, t);
    var m, e := Covered(Top(t.rows)), NextLast(c, t);
    if !ExistsOpen(t.rows) && m < e {
      QueriesAgree(c, t.posts, t.rows);
      PrepareIsDraft(c, t.posts, Top(t.rows), e);
    }
  }

  lemma PrepareIsDraft(c: Config, posts: seq<Posting>, top: Option<Row>, e: nat)
    requires Covered(top) < e <= |posts|
    ensures var batch := Upto(Covered(top), e);
            && batch != [] && Within(batch, |posts|)
            && Prepare(c, Pick(posts, batch), batch[0] + 1, batch[|batch| - 1] + 1, SeqOf(top) + 1, top)
               == Draft(c, posts, top, e)
  {
    PickRange(posts, Covered(top), e);
  }

  lemma CreateKeepsGood(c: Config, t: Table)
    requires Good(c, t)
    ensures Good(c, CreateSeal(c, t))
  {
    CreateIsDraft(c, t);
    var m, e := Covered(Top(t.rows)), NextLast(c, t);
    var z := CreateSeal(c, t);
    if !ExistsOpen(t.rows) && m < e {
      var n := |t.rows|;
      assert z.rows[..n] == t.rows;
      forall i: nat | i < |z.rows| ensures RowOk(c, z.posts, z.rows, i) {
        if i < n {
          assert RowOk(c, t.posts, t.rows, i);
          assert z.rows[..i] == t.rows[..i];
          assert t.rows[i] in t.rows;
        }
      }
      AssignIsRange(t.places, m, e, n);
      forall p: nat | p < |z.places| ensures PlaceOk(z.rows, p, z.places[p]) {
        assert PlaceOk(t.rows, p, t.places[p]);
      }
    }
  }

  /** The row that replaces a failed one takes its number, link and first posting. It covers the
      same range exactly when nothing was posted past the failed batch or that batch was full;
      otherwise it covers more. */
  lemma ReplacementCoversSameIff(c: Config, t: Table)
    requires Good(c, t) && t.rows != [] && t.rows[|t.rows| - 1].status.Failed?
    ensures
      var r, z := t.rows[|t.rows| - 1], CreateSeal(c, t);
      && |z.rows| == |t.rows| + 1
      && var d := z.rows[|t.rows|];
      && d.seqNo == r.seqNo && d.prev == r.prev && d.first == r.first && d.last >= r.last
      && (d.last == r.last <==> |t.posts| == r.last || r.count == c.limit)
  {
    var n := |t.rows| - 1;
    var r := t.rows[n];
    assert RowOk(c, t.posts, t.rows, n);
    assert Content(r).count == r.count && Content(r).first == r.first && Content(r).prev == r.prev;
    NoneOpenBelow(c, t.posts, t.rows);
    CreateIsDraft(c, t);
  }

  lemma NoneOpenBelow(c: Config, posts: seq<Posting>, rows: seq<Row>)
    requires RowsOk(c, posts, rows) && rows != [] && !IsOpen(rows[|rows| - 1])
    ensures !ExistsOpen(rows)
  {
    forall i: nat | i < |rows| ensures !IsOpen(rows[i]) {
      assert RowOk(c, posts, rows, i);
    }
  }

  lemma PostKeepsGood(c: Config, t: Table, p: Posting)
    requires Good(c, t)
    ensures Good(c, t.(posts := t.posts + [p], places := t.places + [Loose]))
  {
    var z := t.(posts := t.posts + [p], places := t.places + [Loose]);
    forall i: nat | i < |z.rows| ensures RowOk(c, z.posts, z.rows, i) {
      assert RowOk(c, t.posts, t.rows, i);
      ContinuesAfterPost(c, t.posts, Top(t.rows[..i]), t.rows[i], p);
    }
    CoveredFits(c, t.posts, t.rows);
    forall q: nat | q < |z.places| ensures PlaceOk(z.rows, q, z.places[q]) {
      if q < |t.places| {
        assert PlaceOk(t.rows, q, t.places[q]);
      }
    }
  }

  lemma ContinuesAfterPost(c: Config, posts: seq<Posting>, top: Option<Row>, r: Row, p: Posting)
    requires Continues(c, posts, top, r)
    ensures Continues(c, posts + [p], top, r)
  {
    var m := Covered(top);
    assert (posts + [p])[m..r.last] == posts[m..r.last];
  }

  /** An open row is the newest. */
  lemma OpenIsLast(c: Config, t: Table, i: nat)
    requires Good(c, t) && OpenAt(t, i)
    ensures i == |t.rows| - 1 && Top(t.rows) == Some(t.rows[i])
    ensures t.rows[i].seqNo == SeqOf(Top(t.rows[..i])) + 1
    ensures t.rows[i].first == Covered(Top(t.rows[..i])) + 1
  {
    assert RowOk(c, t.posts, t.rows, i);
  }

  /** Changing the newest row's status, short of failing it. */
  lemma MarkKeepsGood(c: Config, t: Table, i: nat, r: Row)
    requires Good(c, t) && OpenAt(t, i)
    requires IsLive(r) && Content(r) == Content(t.rows[i])
    ensures Good(c, t.(rows := t.rows[i := r]))
  {
    OpenIsLast(c, t, i);
    var z := t.(rows := t.rows[i := r]);
    forall j: nat | j < |z.rows| ensures RowOk(c, z.posts, z.rows, j) {
      assert RowOk(c, t.posts, t.rows, j);
      assert z.rows[..j] == t.rows[..j];
    }
    forall p: nat | p < |z.places| ensures PlaceOk(z.rows, p, z.places[p]) {
      assert PlaceOk(t.rows, p, t.places[p]);
    }
  }

  lemma FailKeepsGood(c: Config, t: Table, i: nat)
    requires Good(c, t) && OpenAt(t, i)
    ensures Good(c, Fail(t, i)) && Top(Fail(t, i).rows) == Top(t.rows[..i])
  {
    OpenIsLast(c, t, i);
    var z := Fail(t, i);
    assert z.rows[..i] == t.rows[..i];
    forall j: nat | j < |z.rows| ensures RowOk(c, z.posts, z.rows, j) {
      assert RowOk(c, t.posts, t.rows, j);
      assert z.rows[..j] == t.rows[..j];
    }
    forall p: nat | p < |z.places| ensures PlaceOk(z.rows, p, z.places[p]) {
      ReleasedPlaceOk(c, t, i, p);
    }
  }

  lemma ReleasedPlaceOk(c: Config, t: Table, i: nat, p: nat)
    requires Good(c, t) && OpenAt(t, i) && p < |t.places|
    requires i == |t.rows| - 1 && Top(Fail(t, i).rows) == Top(t.rows[..i])
    ensures PlaceOk(Fail(t, i).rows, p, Fail(t, i).places[p])
  {
    assert PlaceOk(t.rows, p, t.places[p]);
    assert RowOk(c, t.posts, t.rows, i);
    match t.places[p]
    case Loose =>
    case Placed(j, k) =>
      if j < i {
        LiveIsBelowTop(c, t.posts, t.rows, j);
        RowsOkPrefix(c, t.posts, t.rows, i);
        LiveIsBelowTop(c, t.posts, t.rows[..i], j);
      }
  }

  lemma ResolveKeepsGood(c: Config, t: Table, i: nat, chain: seq<Seal>)
    requires Good(c, t) && OpenAt(t, i)
    ensures Good(c, Resolve(t, i, chain))
  {
    FailKeepsGood(c, t, i);
    MarkKeepsGood(c, t, i, t.rows[i].(status := Confirmed));
  }

  lemma NextKeepsGood(c: Config, w: World, step: Step)
    requires Good(c, w.db)
    ensures Good(c, Next(c, w, step).db)
  {
    match step
    case Post(p) => PostKeepsGood(c, w.db, p);
    case Create => CreateKeepsGood(c, w.db);
    case SubmitRow(i, _, _, seen) => if OpenAt(w.db, i) { RowStepKeepsGood(c, w.db, i, Seen(w, seen)); }
    case Hear(i, _, seen) => if OpenAt(w.db, i) { RowStepKeepsGood(c, w.db, i, Seen(w, seen)); }
    case ReconcileRow(i, seen) => if OpenAt(w.db, i) { RowStepKeepsGood(c, w.db, i, Seen(w, seen)); }
    case Land(_, _) =>
  }

  lemma RowStepKeepsGood(c: Config, t: Table, i: nat, view: seq<Seal>)
    requires Good(c, t) && OpenAt(t, i)
    ensures Good(c, Fail(t, i)) && Good(c, Resolve(t, i, view))
    ensures forall status: Status | !status.Failed? :: Good(c, Mark(t, i, status))
    ensures var r := t.rows[i];
            Good(c, t.(rows := t.rows[i := r.(status := Submitted, attempts := r.attempts + 1)]))
  {
    FailKeepsGood(c, t, i);
    ResolveKeepsGood(c, t, i, view);
    var r := t.rows[i];
    MarkKeepsGood(c, t, i, r.(status := Submitted, attempts := r.attempts + 1));
    forall status: Status | !status.Failed? ensures Good(c, Mark(t, i, status)) {
      MarkKeepsGood(c, t, i, r.(status := status));
    }
  }

  // ---------------------------------------------------------------------------
  // Confirmed means on the ledger, whatever lands there
  // ---------------------------------------------------------------------------

  ghost predicate Truthful(w: World) {
    forall r | r in w.db.rows && r.status.Confirmed? ::
      1 <= r.seqNo <= |w.chain| && w.chain[r.seqNo - 1].req.root == r.root
  }

  lemma NextKeepsTruthful(c: Config, w: World, step: Step)
    requires Good(c, w.db) && Truthful(w) && Possible(w, step)
    ensures Truthful(Next(c, w, step))
  {
    var z := Next(c, w, step);
    if step.Create? {
      CreateIsDraft(c, w.db);
    }
    forall r | r in z.db.rows && r.status.Confirmed?
      ensures 1 <= r.seqNo <= |z.chain| && z.chain[r.seqNo - 1].req.root == r.root
    {
      if r !in w.db.rows {
        assert !step.Create?;
      }
    }
  }

  /** Every reachable state: the live rows partition the postings in posting order, each
      posting sits in the one row that covers it, and every confirmed row is on the ledger
      under its own number and root. Nothing is asked of who else writes to the ledger. */
  lemma {:induction false} RunKeepsTables(c: Config, w: World, steps: seq<Step>, z: World)
    requires Good(c, w.db) && Truthful(w) && Run(c, w, steps, z)
    ensures Good(c, z.db) && Truthful(z) && w.db.posts <= z.db.posts
    decreases |steps|
  {
    if steps != [] {
      var n := Next(c, w, steps[0]);
      NextKeepsSized(c, w, steps[0]);
      NextKeepsGood(c, w, steps[0]);
      NextKeepsTruthful(c, w, steps[0]);
      RunKeepsTables(c, n, steps[1..], z);
    }
  }
}
