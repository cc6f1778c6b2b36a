/** Reading a chain newest-first, a page at a time. */
module LedgerHistory {
  import opened Basics
  import opened LedgerSpec
  import opened LedgerRuns

  const MAX_PAGE: nat := 24

  /** Where a page starts: the cursor itself is included, and 0 or a number past the head
      both mean the head. */
  function Start(head: nat, beforeSeq: nat): nat {
    if beforeSeq == 0 || beforeSeq > head then head else beforeSeq
  }

  function Take(limit: nat): nat {
    if limit == 0 || limit > MAX_PAGE then MAX_PAGE else limit
  }

  /** The page of `history`: as many seals as the page holds, downwards from the start. */
  function Page(chain: seq<Seal>, beforeSeq: nat, limit: nat): (page: seq<Seal>)
    ensures |page| == Min(Take(limit), Start(|chain|, beforeSeq))
  {
    var start := Start(|chain|, beforeSeq);
    seq(Min(Take(limit), start), i requires 0 <= i < Min(Take(limit), start) => chain[start - 1 - i])
  }

  /** In the contract's own numbers: a page holds what was asked for, but no more than 24, and 24
      when nothing or too much was asked for; it starts at the cursor, or at the head when the
      cursor is 0 or past it; and it ends early only at the first seal. */
  lemma PageIsWhatWasAsked(chain: seq<Seal>, beforeSeq: nat, limit: nat)
    ensures var page := Page(chain, beforeSeq, limit);
            var start := if 1 <= beforeSeq <= |chain| then beforeSeq else |chain|;
            && |page| == Min(if 1 <= limit <= 24 then limit else 24, start)
            && forall i | 0 <= i < |page| :: page[i] == chain[start - 1 - i]
  {
  }

  /** `out` is the stretch of the chain going down from number `start`. */
  predicate Downward(out: seq<Seal>, chain: seq<Seal>, start: nat) {
    && |out| <= start <= |chain|
    && forall i | 0 <= i < |out| :: out[i] == chain[start - 1 - i]
  }

  lemma DownwardGrows(out: seq<Seal>, chain: seq<Seal>, start: nat)
    requires Downward(out, chain, start) && |out| < start
    ensures Downward(out + [chain[start - |out| - 1]], chain, start)
  {
  }

  lemma DownwardIsPage(out: seq<Seal>, chain: seq<Seal>, beforeSeq: nat, limit: nat)
    requires Downward(out, chain, Start(|chain|, beforeSeq))
    requires |out| == Min(Take(limit), Start(|chain|, beforeSeq))
    ensures out == Page(chain, beforeSeq, limit)
  {
  }

  function Newest(chain: seq<Seal>): seq<Seal> {
    if chain == [] then [] else [chain[|chain| - 1]] + Newest(chain[..|chain| - 1])
  }

  lemma {:induction false} NewestReverses(chain: seq<Seal>)
    ensures |Newest(chain)| == |chain|
    ensures forall i | 0 <= i < |chain| :: Newest(chain)[i] == chain[|chain| - 1 - i]
    decreases |chain|
  {
    if chain != [] {
      NewestReverses(chain[..|chain| - 1]);
    }
  }

  /** A page is an unbroken stretch of the chain: each seal's link is the next one's root, and
      the last link is the genesis value exactly when the page reaches the first seal. */
  lemma PageIsUnbroken(chain: seq<Seal>, beforeSeq: nat, limit: nat, i: nat)
    requires Linked(chain)
    requires i < |Page(chain, beforeSeq, limit)|
    ensures
      var page := Page(chain, beforeSeq, limit);
      && page[i].req.seqNo == Start(|chain|, beforeSeq) - i
      && (i + 1 < |page| ==> page[i].req.prev == page[i + 1].req.root)
      && (page[i].req.prev == GENESIS <==> page[i].req.seqNo == 1)
  {
    var k := Start(|chain|, beforeSeq) - 1 - i;
    LinksRunFromGenesis(chain, k);
    if k > 0 {
      LinksRunFromGenesis(chain, k - 1);
    }
  }

  /** A client that walks back: it asks again from one below the lowest number it has seen,
      and stops when it has seen number 1. */
  function Walk(chain: seq<Seal>, beforeSeq: nat, limit: nat): seq<Seal>
    requires forall i | 0 <= i < |chain| :: chain[i].req.seqNo == i + 1
    decreases Start(|chain|, beforeSeq)
  {
    var page := Page(chain, beforeSeq, limit);
    if page == [] || page[|page| - 1].req.seqNo <= 1 then page
    else page + Walk(chain, page[|page| - 1].req.seqNo - 1, limit)
  }

  /** Splitting the newest-first list: the top `n`, then the rest. */
  lemma NewestSplits(chain: seq<Seal>, n: nat)
    requires n <= |chain|
    ensures |Newest(chain)| == |chain|
    ensures Newest(chain) == Newest(chain)[..n] + Newest(chain[..|chain| - n])
  {
    NewestReverses(chain);
    NewestReverses(chain[..|chain| - n]);
  }

  lemma PageIsTop(chain: seq<Seal>, beforeSeq: nat, limit: nat)
    ensures
      var start := Start(|chain|, beforeSeq);
      var page := Page(chain, beforeSeq, limit);
      |Newest(chain[..start])| == start && page == Newest(chain[..start])[..|page|]
  {
    NewestReverses(chain[..Start(|chain|, beforeSeq)]);
  }

  /** One page, and the walk from below it unless that was the end. */
  lemma WalkUnfolds(chain: seq<Seal>, beforeSeq: nat, limit: nat)
    requires forall i | 0 <= i < |chain| :: chain[i].req.seqNo == i + 1
    ensures
      var start, page := Start(|chain|, beforeSeq), Page(chain, beforeSeq, limit);
      && |page| <= start
      && (|page| == start ==> Walk(chain, beforeSeq, limit) == page)
      && (|page| < start ==>
            && page != [] && Start(|chain|, start - |page|) == start - |page|
            && Walk(chain, beforeSeq, limit) == page + Walk(chain, start - |page|, limit))
  {
    var start, page := Start(|chain|, beforeSeq), Page(chain, beforeSeq, limit);
    if page != [] {
      assert page[|page| - 1] == chain[start - |page|];
    }
  }

  lemma {:induction false} WalkFromCursor(chain: seq<Seal>, beforeSeq: nat, limit: nat)
    requires forall i | 0 <= i < |chain| :: chain[i].req.seqNo == i + 1
    ensures Walk(chain, beforeSeq, limit) == Newest(chain[..Start(|chain|, beforeSeq)])
    decreases Start(|chain|, beforeSeq)
  {
    var start, page := Start(|chain|, beforeSeq), Page(chain, beforeSeq, limit);
    WalkUnfolds(chain, beforeSeq, limit);
    PageIsTop(chain, beforeSeq, limit);
    if |page| < start {
      WalkFromCursor(chain, start - |page|, limit);
      PageThenRest(chain, start, |page|);
    }
  }

  lemma PageThenRest(chain: seq<Seal>, start: nat, n: nat)
    requires n <= start <= |chain|
    ensures |Newest(chain[..start])| == start
    ensures Newest(chain[..start]) == Newest(chain[..start])[..n] + Newest(chain[..start - n])
  {
    NewestSplits(chain[..start], n);
    assert chain[..start][..start - n] == chain[..start - n];
  }

  /** Paging a book from its head with any page size yields the whole chain, each seal once. */
  lemma WalkYieldsWholeChain(chain: seq<Seal>, limit: nat)
    requires Linked(chain)
    ensures Walk(chain, 0, limit) == Newest(chain)
  {
    forall i | 0 <= i < |chain| ensures chain[i].req.seqNo == i + 1 {
      LinksRunFromGenesis(chain, i);
    }
    WalkFromCursor(chain, 0, limit);
    assert chain[..|chain|] == chain;
  }

  /** The walk must stop at number 1 by itself: one below it is cursor 0, which means the head
      again, so a client that goes on until an empty page never finishes. */
  lemma CursorZeroStartsOver(chain: seq<Seal>, limit: nat)
    ensures Page(chain, 0, limit) == [] <==> chain == []
    ensures chain != [] ==> Page(chain, 0, limit)[0] == chain[|chain| - 1]
  {
    if chain != [] {
      assert |Page(chain, 0, limit)| > 0;
    }
  }
}
