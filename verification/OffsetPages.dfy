/** Offset pagination, for comparison: it tiles a table that holds still. If the table changes
    between two fetches, the next page continues exactly when the last row seen has kept its
    place, or nothing is left behind it. */
module OffsetPages {
  import opened Basics

  datatype PageParams = PageParams(page: nat, pageSize: nat) {
    predicate Valid() {
      page >= 1 && 1 <= pageSize <= 200
    }

    function Offset(): nat
      requires Valid()
    {
      (page - 1) * pageSize
    }
  }

  /** `OFFSET ... LIMIT ...` over the sorted rows. */
  function Rows<T>(sorted: seq<T>, p: PageParams): seq<T>
    requires p.Valid()
  {
    var from := Min(p.Offset(), |sorted|);
    sorted[from..Min(from + p.pageSize, |sorted|)]
  }

  /** `max(1, ceil(total / size))` */
  function TotalPages(total: nat, size: nat): (n: nat)
    requires size >= 1
    ensures n >= 1 && n * size >= total && (n > 1 ==> (n - 1) * size < total)
  {
    var n := (total + size - 1) / size;
    if n < 1 then 1 else n
  }

  function FirstPages<T>(sorted: seq<T>, size: nat, n: nat): seq<T>
    requires 1 <= size <= 200
  {
    if n == 0 then [] else FirstPages(sorted, size, n - 1) + Rows(sorted, PageParams(n, size))
  }

  lemma {:induction false} FirstPagesArePrefix<T>(sorted: seq<T>, size: nat, n: nat)
    requires 1 <= size <= 200
    ensures FirstPages(sorted, size, n) == sorted[..Min(n * size, |sorted|)]
  {
    if n > 0 {
      FirstPagesArePrefix(sorted, size, n - 1);
      assert n * size == (n - 1) * size + size;
      Adjoin(sorted, (n - 1) * size, size);
    }
  }

  lemma Adjoin<T>(sorted: seq<T>, offset: nat, size: nat)
    ensures var from := Min(offset, |sorted|);
            sorted[..from] + sorted[from..Min(from + size, |sorted|)] == sorted[..Min(offset + size, |sorted|)]
  {
  }

  /** On an unchanging table pages 1 to `total_pages` are the whole table, each row once. */
  lemma PagesTileUnchangingTable<T>(sorted: seq<T>, size: nat)
    requires 1 <= size <= 200
    ensures FirstPages(sorted, size, TotalPages(|sorted|, size)) == sorted
  {
    FirstPagesArePrefix(sorted, size, TotalPages(|sorted|, size));
    assert sorted[..|sorted|] == sorted;
  }

  lemma NextOffset(p: PageParams)
    requires p.Valid()
    ensures PageParams(p.page + 1, p.pageSize).Offset() == p.Offset() + p.pageSize
  {
    assert p.page * p.pageSize == (p.page - 1) * p.pageSize + p.pageSize;
  }

  /** A row inserted at the front between two fetches shifts everything down: the last row of
      each full page comes again as the first row of the next one. */
  lemma InsertRepeatsARow<T>(sorted: seq<T>, row: T, p: PageParams)
    requires p.Valid() && p.Offset() + p.pageSize <= |sorted|
    ensures var seen := Rows(sorted, p);
            var next := Rows([row] + sorted, PageParams(p.page + 1, p.pageSize));
            |seen| == p.pageSize && next != [] && next[0] == seen[|seen| - 1]
  {
    var q := PageParams(p.page + 1, p.pageSize);
    NextOffset(p);
    assert ([row] + sorted)[q.Offset()] == sorted[q.Offset() - 1];
  }

  ghost predicate Distinct<T>(rows: seq<T>) {
    forall i, j | 0 <= i < j < |rows| :: rows[i] != rows[j]
  }

  /** Exactly when the next page continues. Whatever has happened to the table, let the last row
      the client saw stand at place `k` now. The next page is the rows right behind it exactly
      when that is the place the next offset counts on, or nothing is left behind it. */
  lemma NextPageContinuesIff<T>(after: seq<T>, k: nat, q: PageParams)
    requires q.Valid() && Distinct(after) && k < |after|
    ensures Rows(after, q) == after[k + 1..Min(k + 1 + q.pageSize, |after|)]
            <==> k + 1 == q.Offset() || |after| == k + 1 <= q.Offset()
  {
    var rows, behind := Rows(after, q), after[k + 1..Min(k + 1 + q.pageSize, |after|)];
    if rows == behind && k + 1 < |after| {
      assert behind[0] == after[k + 1];
      assert rows[0] == after[q.Offset()];
    }
  }

  /** And exactly when the last row seen comes again. */
  lemma LastRowComesAgainIff<T>(after: seq<T>, k: nat, q: PageParams)
    requires q.Valid() && Distinct(after) && k < |after|
    ensures after[k] in Rows(after, q) <==> q.Offset() <= k < q.Offset() + q.pageSize
  {
    var rows := Rows(after, q);
    if after[k] in rows {
      var i :| 0 <= i < |rows| && rows[i] == after[k];
      assert rows[i] == after[q.Offset() + i];
    }
    if q.Offset() <= k < q.Offset() + q.pageSize {
      assert rows[k - q.Offset()] == after[k];
    }
  }
}
