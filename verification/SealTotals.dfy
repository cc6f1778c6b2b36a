/** What the seals on the ledger add up to. */
module SealTotals {
  import opened Basics
  import L = LedgerSpec
  import opened Sums
  import opened SealOutbox
  import opened SealOnce

  function SealDebits(): L.Seal -> int {
    (s: L.Seal) => s.req.debits
  }

  /** A row carries the sum of the debits of its own postings. */
  ghost predicate CarriesSum(posts: seq<Posting>, r: Row) {
    && 1 <= r.first <= r.last <= |posts|
    && r.count == r.last - r.first + 1
    && r.debits == SumOf(DebitOf(), posts[r.first - 1..r.last])
  }

  /** In every reachable state every row, failed or not, carries the sum of its postings, whoever
      writes to the ledger. */
  lemma EveryRowCarriesItsSum(c: Config, steps: seq<Step>, z: World)
    requires Run(c, START, steps, z)
    ensures forall i: nat | i < |z.db.rows| :: CarriesSum(z.db.posts, z.db.rows[i])
  {
    RunKeepsTables(c, START, steps, z);
    forall i: nat | i < |z.db.rows| ensures CarriesSum(z.db.posts, z.db.rows[i]) {
      assert RowOk(c, z.db.posts, z.db.rows, i);
      RowCarriesSum(c, z.db.posts, Top(z.db.rows[..i]), z.db.rows[i]);
    }
  }

  lemma RowCarriesSum(c: Config, posts: seq<Posting>, top: Option<Row>, r: Row)
    requires Continues(c, posts, top, r)
    ensures CarriesSum(posts, r)
  {
    var d := Draft(c, posts, top, r.last);
    ContentOf(c, posts, top, r);
    assert r.debits == d.debits && r.first == d.first;
    DebitsIsSum(posts[Covered(top)..r.last]);
  }

  lemma {:induction false} TotalsOfPrefix(c: Config, posts: seq<Posting>, chain: seq<L.Seal>, k: nat)
    requires Tiled(c, posts, chain) && k <= |chain|
    ensures L.TotalCount(chain[..k]) <= |posts|
    ensures SumOf(SealDebits(), chain[..k]) == SumOf(DebitOf(), posts[..L.TotalCount(chain[..k])])
    decreases k
  {
    if k > 0 {
      TotalsOfPrefix(c, posts, chain, k - 1);
      assert Covers(c, posts, chain, k - 1);
      TotalOfNext(chain, k - 1);
      assert chain[..k][..k - 1] == chain[..k - 1];
      var m, e := L.TotalCount(chain[..k - 1]), L.TotalCount(chain[..k]);
      assert posts[..e] == posts[..m] + posts[m..e];
      SumOfConcat(DebitOf(), posts[..m], posts[m..e]);
    }
  }

  /** Conservation: after any run of a sole writer, the debits on the ledger add up to the debits of
      the postings sealed so far, and those are the first so many in posting order. */
  lemma LedgerDebitsAddUp(c: Config, steps: seq<Step>, z: World)
    requires SoleRun(c, START, steps, z) && NoCollision(c, z.db.posts)
    ensures L.TotalCount(z.chain) <= |z.db.posts|
    ensures SumOf(SealDebits(), z.chain) == SumOf(DebitOf(), z.db.posts[..L.TotalCount(z.chain)])
  {
    LedgerTilesPostings(c, steps, z);
    TotalsOfPrefix(c, z.db.posts, z.chain, |z.chain|);
    assert z.chain[..|z.chain|] == z.chain;
  }

  ghost predicate ClockRunsForward(posts: seq<Posting>) {
    forall i, j | 0 <= i < j < |posts| :: posts[i].at <= posts[j].at
  }

  /** If the posting clock never ran back, the window of a seal is exactly the seconds in which its
      first and its last entry were posted. */
  lemma {:induction false} WindowsAreTimes(c: Config, posts: seq<Posting>, chain: seq<L.Seal>, k: nat)
    requires Tiled(c, posts, chain) && ClockRunsForward(posts) && k < |chain|
    ensures var m := L.TotalCount(chain[..k]);
            && m < m + chain[k].req.count <= |posts|
            && chain[k].req.from == posts[m].at / 1_000_000
            && chain[k].req.to == posts[m + chain[k].req.count - 1].at / 1_000_000
    decreases k
  {
    assert Covers(c, posts, chain, k);
    var m := L.TotalCount(chain[..k]);
    var e := m + chain[k].req.count;
    if k > 0 {
      WindowsAreTimes(c, posts, chain, k - 1);
      TotalOfNext(chain, k - 1);
      Micros(posts[m - 1].at, posts[m].at);
    }
    if e - 1 > m {
      Micros(posts[m].at, posts[e - 1].at);
    }
  }
}
