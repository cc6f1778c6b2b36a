/** Newest-first cursor pagination over a table that anybody may change between two fetches. */
module CursorWalk {
  import opened Basics

  /** A stored row; a soft-deleted one is still there but never selected. */
  datatype Row<T> = Row(deleted: bool, content: T)

  /** The ids that a query may return: present, not soft-deleted, and passing every filter. */
  function Matching<T>(table: map<nat, Row<T>>, filter: T -> bool): set<nat> {
    set id | id in table && !table[id].deleted && filter(table[id].content)
  }

  predicate Below(id: nat, bound: Option<nat>) {
    bound.Some? ==> id < bound.value
  }

  ghost predicate Descending(ids: seq<nat>) {
    forall i, j | 0 <= i < j < |ids| :: ids[i] > ids[j]
  }

  /** `WHERE id < bound ORDER BY id DESC LIMIT n` over the matching ids. */
  ghost predicate IsTop(rows: seq<nat>, visible: set<nat>, bound: Option<nat>, n: nat) {
    && |rows| <= n
    && Descending(rows)
    && (forall i | 0 <= i < |rows| :: rows[i] in visible && Below(rows[i], bound))
    && (forall id | id in visible && Below(id, bound) && id !in rows ::
          |rows| == n && forall i | 0 <= i < |rows| :: id < rows[i])
  }

  /** If two answers agree up to position `k`, the first cannot hold a smaller id there, nor
      end there while the second goes on. */
  lemma TopIsMaximalAt(a: seq<nat>, b: seq<nat>, visible: set<nat>, bound: Option<nat>, n: nat, k: nat)
    requires IsTop(a, visible, bound, n) && IsTop(b, visible, bound, n)
    requires k < |b| && k <= |a| && forall i | 0 <= i < k :: a[i] == b[i]
    ensures k < |a| && a[k] >= b[k]
  {
    assert b[k] in visible && Below(b[k], bound);
    if b[k] in a {
      var i :| 0 <= i < |a| && a[i] == b[k];
      assert i >= k;
    }
  }

  /** The query has one answer. */
  lemma TopIsUnique(a: seq<nat>, b: seq<nat>, visible: set<nat>, bound: Option<nat>, n: nat)
    requires IsTop(a, visible, bound, n) && IsTop(b, visible, bound, n)
    ensures a == b
  {
    AgreeUpTo(a, b, visible, bound, n, |b|);
    AgreeUpTo(b, a, visible, bound, n, |a|);
  }

  ghost predicate SameUpTo(a: seq<nat>, b: seq<nat>, k: nat) {
    k <= |a| && k <= |b| && forall i | 0 <= i < k :: a[i] == b[i]
  }

  lemma TopsAgreeAt(a: seq<nat>, b: seq<nat>, visible: set<nat>, bound: Option<nat>, n: nat, k: nat)
    requires IsTop(a, visible, bound, n) && IsTop(b, visible, bound, n)
    requires k < |b| && SameUpTo(a, b, k)
    ensures SameUpTo(a, b, k + 1)
  {
    TopIsMaximalAt(a, b, visible, bound, n, k);
    TopIsMaximalAt(b, a, visible, bound, n, k);
  }

  lemma {:induction false} AgreeUpTo(a: seq<nat>, b: seq<nat>, visible: set<nat>, bound: Option<nat>,
                                     n: nat, k: nat)
    requires IsTop(a, visible, bound, n) && IsTop(b, visible, bound, n)
    requires k <= |b|
    ensures SameUpTo(a, b, k)
  {
    if k > 0 {
      AgreeUpTo(a, b, visible, bound, n, k - 1);
      TopsAgreeAt(a, b, visible, bound, n, k - 1);
    }
  }

  lemma {:induction false} MaximumExists(ids: set<nat>) returns (m: nat)
    requires ids != {}
    ensures m in ids && forall id | id in ids :: id <= m
    decreases |ids|
  {
    m :| m in ids;
    if ids != {m} {
      var rest := ids - {m};
      assert rest != {};
      var n := MaximumExists(rest);
      assert forall id | id in ids :: id == m || id in rest;
      if n > m {
        m := n;
      }
    }
  }

  /** And the query always has an answer. */
  lemma {:induction false} TopExists(visible: set<nat>, bound: Option<nat>, n: nat) returns (rows: seq<nat>)
    ensures IsTop(rows, visible, bound, n)
    decreases n
  {
    var open := set id | id in visible && Below(id, bound);
    if n == 0 || open == {} {
      rows := [];
      assert forall id | id in visible && Below(id, bound) :: id in open;
    } else {
      var m := MaximumExists(open);
      var rest := TopExists(visible, Some(m), n - 1);
      rows := [m] + rest;
      assert forall id | id in visible && Below(id, bound) :: id in open;
      TopPrepends(visible, bound, n, m, rest);
    }
  }

  lemma TopPrepends(visible: set<nat>, bound: Option<nat>, n: nat, m: nat, rest: seq<nat>)
    requires n >= 1 && IsTop(rest, visible, Some(m), n - 1) && m in visible && Below(m, bound)
    requires forall id | id in visible && Below(id, bound) :: id <= m
    ensures IsTop([m] + rest, visible, bound, n)
  {
    var rows := [m] + rest;
    forall id | id in visible && Below(id, bound) && id !in rows
      ensures |rows| == n && forall i | 0 <= i < |rows| :: id < rows[i]
    {
      assert rows[0] == m && id != m;
      assert Below(id, Some(m)) && id !in rest;
    }
  }

  /** The response: at most `limit` rows, and the id of the last one kept as the next cursor
      when the extra row shows that there is more. */
  datatype Page = Page(items: seq<nat>, nextCursor: Option<nat>, hasMore: bool)

  function CreatePage(rows: seq<nat>, limit: nat): Page
    requires limit >= 1
  {
    if |rows| > limit then Page(rows[..limit], Some(rows[limit - 1]), true)
    else Page(rows, None, false)
  }

  /** Something is left over: a matching row below the cursor that the page does not hold. */
  ghost predicate LeftOver(visible: set<nat>, bound: Option<nat>, items: seq<nat>) {
    exists id :: id in visible && Below(id, bound) && id !in items
  }

  lemma PrefixIsTop(rows: seq<nat>, visible: set<nat>, bound: Option<nat>, n: nat)
    requires IsTop(rows, visible, bound, n + 1) && |rows| == n + 1
    ensures IsTop(rows[..n], visible, bound, n)
    ensures rows[n] !in rows[..n]
  {
    assert rows == rows[..n] + [rows[n]];
    forall id | id in visible && Below(id, bound) && id !in rows[..n]
      ensures forall i | 0 <= i < n :: id < rows[..n][i]
    {
      assert id in rows ==> id == rows[n];
    }
  }

  /** What the response means. From the over-fetched rows, the page holds the first `limit` matching
      rows below the cursor; it says that there is more exactly when some matching row below the
      cursor is not on it; and it hands out a cursor, the last row's id, exactly then. */
  lemma PageMeans(rows: seq<nat>, visible: set<nat>, bound: Option<nat>, limit: nat)
    requires limit >= 1 && IsTop(rows, visible, bound, limit + 1)
    ensures var page := CreatePage(rows, limit);
            && IsTop(page.items, visible, bound, limit)
            && (page.hasMore <==> LeftOver(visible, bound, page.items))
            && (page.nextCursor.Some? <==> page.hasMore)
            && (page.hasMore ==> |page.items| == limit && page.nextCursor == Some(page.items[limit - 1]))
  {
    if |rows| > limit {
      PrefixIsTop(rows, visible, bound, limit);
      assert rows[limit] in visible && Below(rows[limit], bound);
    } else {
      forall id | id in visible && Below(id, bound) ensures id in rows {
        assert id !in rows ==> |rows| == limit + 1;
      }
    }
  }

  /** One fetch: what the table held at that moment, which rows the query asked for, and what it
      returned. */
  datatype Fetch<!T> = Fetch(table: map<nat, Row<T>>, filter: T -> bool, rows: seq<nat>) {
    function Visible(): set<nat> { Matching(table, filter) }
  }

  /** A client following next cursors. The table of each fetch is unrelated to the others. */
  ghost predicate IsWalk<T>(bound: Option<nat>, fetches: seq<Fetch<T>>, limit: nat)
    requires limit >= 1
    decreases |fetches|
  {
    fetches != [] ==>
      && IsTop(fetches[0].rows, fetches[0].Visible(), bound, limit + 1)
      && (|fetches| > 1 ==>
            && CreatePage(fetches[0].rows, limit).hasMore
            && IsWalk(CreatePage(fetches[0].rows, limit).nextCursor, fetches[1..], limit))
  }

  /** The walk has come to a page without a next cursor. */
  predicate Finished<T>(fetches: seq<Fetch<T>>, limit: nat)
    requires limit >= 1
  {
    fetches != [] && !CreatePage(fetches[|fetches| - 1].rows, limit).hasMore
  }

  /** Everything the client was given. */
  function Items<T>(fetches: seq<Fetch<T>>, limit: nat): seq<nat>
    requires limit >= 1
  {
    if fetches == [] then [] else CreatePage(fetches[0].rows, limit).items + Items(fetches[1..], limit)
  }

  /** Ids come strictly descending across all pages, so none comes twice, whatever happens to
      the table in between. */
  lemma {:induction false} WalkIsDescending<T>(bound: Option<nat>, fetches: seq<Fetch<T>>, limit: nat)
    requires limit >= 1 && IsWalk(bound, fetches, limit)
    ensures Descending(Items(fetches, limit))
    ensures forall i | 0 <= i < |Items(fetches, limit)| :: Below(Items(fetches, limit)[i], bound)
    decreases |fetches|
  {
    if fetches != [] {
      var page, rest := CreatePage(fetches[0].rows, limit), fetches[1..];
      if rest == [] {
        assert Items(fetches, limit) == page.items;
      } else {
        WalkIsDescending(page.nextCursor, rest, limit);
        assert forall i | 0 <= i < |page.items| :: page.items[i] >= page.nextCursor.value;
      }
    }
  }

  /** At some fetch of the walk that returned the row it was in the table, not deleted, and passed
      the filter. */
  ghost predicate WasThere<T>(fetches: seq<Fetch<T>>, id: nat) {
    exists f :: f in fetches && id in f.rows
                && id in f.table && !f.table[id].deleted && f.filter(f.table[id].content)
  }

  /** Nothing is made up: each row was there when it was returned. */
  lemma {:induction false} ReturnedRowWasThere<T>(bound: Option<nat>, fetches: seq<Fetch<T>>, limit: nat, id: nat)
    requires limit >= 1 && IsWalk(bound, fetches, limit) && id in Items(fetches, limit)
    ensures WasThere(fetches, id)
    decreases |fetches|
  {
    var f, page, rest := fetches[0], CreatePage(fetches[0].rows, limit), fetches[1..];
    if id in page.items {
      assert id in f.rows;
      var i :| 0 <= i < |f.rows| && f.rows[i] == id;
      assert f in fetches && id in f.Visible();
    } else {
      if rest != [] {
        ReturnedRowWasThere(page.nextCursor, rest, limit, id);
        var g :| g in rest && id in g.rows && id in g.table && !g.table[id].deleted && g.filter(g.table[id].content);
        assert g in fetches;
      }
    }
  }

  /** A row that matches at every fetch is returned by a finished walk that starts above it. */
  lemma {:induction false} StableRowIsReturned<T>(bound: Option<nat>, fetches: seq<Fetch<T>>, limit: nat, id: nat)
    requires limit >= 1 && IsWalk(bound, fetches, limit) && Finished(fetches, limit)
    requires Below(id, bound) && forall i | 0 <= i < |fetches| :: id in fetches[i].Visible()
    ensures id in Items(fetches, limit)
    decreases |fetches|
  {
    var f, page := fetches[0], CreatePage(fetches[0].rows, limit);
    assert id in f.Visible();
    if id !in page.items {
      if id in f.rows {
        assert exists i | 0 <= i < |f.rows| :: f.rows[i] == id;
        assert page.hasMore && id < page.nextCursor.value;
      }
      assert |fetches| > 1;
      assert forall i | 0 <= i < |fetches[1..]| :: fetches[1..][i] == fetches[i + 1];
      StableRowIsReturned(page.nextCursor, fetches[1..], limit, id);
    }
  }

  function Count(ids: seq<nat>, id: nat): nat {
    if ids == [] then 0 else (if ids[0] == id then 1 else 0) + Count(ids[1..], id)
  }

  lemma {:induction false} DescendingCount(ids: seq<nat>, id: nat)
    requires Descending(ids)
    ensures Count(ids, id) == if id in ids then 1 else 0
    decreases |ids|
  {
    if ids != [] {
      DescendingCount(ids[1..], id);
    }
  }

  /** The guarantee of the cursor: exactly once for every row that is there throughout. */
  lemma StableRowIsReturnedExactlyOnce<T>(fetches: seq<Fetch<T>>, limit: nat, id: nat)
    requires limit >= 1 && IsWalk(None, fetches, limit) && Finished(fetches, limit)
    requires forall i | 0 <= i < |fetches| ::
               id in fetches[i].table && !fetches[i].table[id].deleted && fetches[i].filter(fetches[i].table[id].content)
    ensures Count(Items(fetches, limit), id) == 1
  {
    assert forall i | 0 <= i < |fetches| :: id in fetches[i].Visible();
    WalkIsDescending(None, fetches, limit);
    StableRowIsReturned(None, fetches, limit, id);
    DescendingCount(Items(fetches, limit), id);
  }

  /** Every walk ends: each further fetch moves the cursor down by at least a page. */
  lemma {:induction false} WalkIsShort<T>(bound: Option<nat>, fetches: seq<Fetch<T>>, limit: nat)
    requires limit >= 1 && bound.Some? && IsWalk(bound, fetches, limit)
    ensures fetches != [] ==> (|fetches| - 1) * limit <= bound.value
    decreases |fetches|
  {
    if |fetches| > 1 {
      var rows, page := fetches[0].rows, CreatePage(fetches[0].rows, limit);
      DescendingSpan(rows, limit - 1);
      assert rows[0] in fetches[0].Visible() && Below(rows[0], bound);
      WalkIsShort(page.nextCursor, fetches[1..], limit);
      assert (|fetches| - 1) * limit == (|fetches| - 2) * limit + limit;
    }
  }

  /** From the first page too: its own next cursor bounds what is still to come. */
  lemma WalkFromHeadIsShort<T>(fetches: seq<Fetch<T>>, limit: nat)
    requires limit >= 1 && IsWalk(None, fetches, limit) && |fetches| > 1
    ensures CreatePage(fetches[0].rows, limit).hasMore
    ensures (|fetches| - 2) * limit <= CreatePage(fetches[0].rows, limit).nextCursor.value
  {
    WalkIsShort(CreatePage(fetches[0].rows, limit).nextCursor, fetches[1..], limit);
  }

  lemma {:induction false} DescendingSpan(ids: seq<nat>, k: nat)
    requires Descending(ids) && k < |ids|
    ensures ids[k] + k <= ids[0]
  {
    if k > 0 {
      DescendingSpan(ids, k - 1);
    }
  }
}
