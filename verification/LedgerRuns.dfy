/** Safety over whole runs of the proof ledger: what any sequence of invocations, accepted or
    refused, signed by anybody, in any order and for any organisations, leaves behind. */
module LedgerRuns {
  import opened Bytes
  import opened LedgerSpec

  // ---------------------------------------------------------------------------
  // Append-only
  // ---------------------------------------------------------------------------

  /** Once a seal is stored no later invocation changes or removes it: every chain only grows
      at its end, and a book is never closed. */
  lemma {:induction false} RunOnlyAppends(l: Ledger, invs: seq<Invocation>, org: Digest)
    ensures Chain(l, org) <= Chain(Run(l, invs), org)
    ensures org in l ==> org in Run(l, invs)
    decreases |invs|
  {
    if invs != [] {
      RunOnlyAppends(l, invs[..|invs| - 1], org);
    }
  }

  lemma {:induction false} RunConcat(l: Ledger, first: seq<Invocation>, second: seq<Invocation>)
    ensures Run(l, first + second) == Run(Run(l, first), second)
    decreases |second|
  {
    if second == [] {
      assert first + second == first;
    } else {
      RunConcat(l, first, second[..|second| - 1]);
      assert (first + second)[..|first + second| - 1] == first + second[..|second| - 1];
    }
  }

  lemma RunPrefixStep(l: Ledger, invs: seq<Invocation>, t: nat)
    requires t < |invs|
    ensures Run(l, invs[..t + 1]) == Next(Run(l, invs[..t]), invs[t])
  {
    assert invs[..t + 1][..t] == invs[..t];
  }

  lemma PrefixChainGrows(l: Ledger, invs: seq<Invocation>, a: nat, b: nat, org: Digest)
    requires a <= b <= |invs|
    ensures Chain(Run(l, invs[..a]), org) <= Chain(Run(l, invs[..b]), org)
    ensures |Chain(Run(l, invs[..a]), org)| <= |Chain(Run(l, invs[..b]), org)|
  {
    RunConcat(l, invs[..a], invs[a..b]);
    assert invs[..a] + invs[a..b] == invs[..b];
    RunOnlyAppends(Run(l, invs[..a]), invs[a..b], org);
  }

  /** A verdict is permanent. If the ledger confirms a root at a number, it confirms it after
      every continuation of the run, and never confirms any other root at that number. */
  lemma VerdictIsPermanent(l: Ledger, later: seq<Invocation>, org: Digest, seqNo: nat, root: Digest)
    requires Verifies(l, org, seqNo, root)
    ensures forall other: Digest :: Verifies(Run(l, later), org, seqNo, other) <==> other == root
  {
    RunOnlyAppends(l, later, org);
  }

  // ---------------------------------------------------------------------------
  // Isolation
  // ---------------------------------------------------------------------------

  function ForOrg(invs: seq<Invocation>, org: Digest): seq<Invocation> {
    if invs == [] then []
    else
      var init := ForOrg(invs[..|invs| - 1], org);
      if invs[|invs| - 1].call.org == org then init + [invs[|invs| - 1]] else init
  }

  /** Two ledgers hold the same book, or the same absence of one, for `org`. */
  predicate SameBook(l: Ledger, m: Ledger, org: Digest) {
    (org in l <==> org in m) && (org in l ==> l[org] == m[org])
  }

  lemma SameBookStep(l: Ledger, m: Ledger, inv: Invocation, org: Digest)
    requires SameBook(l, m, org)
    ensures inv.call.org == org ==> SameBook(Next(l, inv), Next(m, inv), org)
    ensures inv.call.org != org ==> SameBook(Next(l, inv), m, org)
  {
    if inv.call.org == org {
      assert Verdict(l, inv) == Verdict(m, inv);
    }
  }

  /** Organisations do not interfere. The book of `org` after a run is what it would have been
      had every invocation for every other organisation been deleted from the run. */
  lemma {:induction false} OthersNeverMatter(l: Ledger, invs: seq<Invocation>, org: Digest)
    ensures SameBook(Run(l, invs), Run(l, ForOrg(invs, org)), org)
    decreases |invs|
  {
    if invs != [] {
      var init, last := invs[..|invs| - 1], invs[|invs| - 1];
      var mine := ForOrg(init, org);
      OthersNeverMatter(l, init, org);
      SameBookStep(Run(l, init), Run(l, mine), last, org);
      assert (mine + [last])[..|mine|] == mine;
    }
  }

  // ---------------------------------------------------------------------------
  // The chain is the log of accepted calls
  // ---------------------------------------------------------------------------

  predicate Accepted(l: Ledger, inv: Invocation) {
    Verdict(l, inv).Ok?
  }

  /** The seals that the accepted appends of a run ask for, each stamped with the clock of the
      invocation that carried it. */
  function AcceptedSeals(l: Ledger, invs: seq<Invocation>, org: Digest): seq<Seal>
    decreases |invs|
  {
    if invs == [] then []
    else
      var init, last := invs[..|invs| - 1], invs[|invs| - 1];
      var before := AcceptedSeals(l, init, org);
      if last.call.Append? && last.call.org == org && Accepted(Run(l, init), last)
      then before + [Seal(last.call.req, last.now)]
      else before
  }

  /** A chain holds exactly what was accepted, in the order it was accepted, stamped by the
      network: nothing else can put a seal there, and rotation and registration put none. */
  lemma {:induction false} ChainIsLogOfAccepted(l: Ledger, invs: seq<Invocation>, org: Digest)
    ensures Chain(Run(l, invs), org) == Chain(l, org) + AcceptedSeals(l, invs, org)
    decreases |invs|
  {
    if invs != [] {
      ChainIsLogOfAccepted(l, invs[..|invs| - 1], org);
    }
  }

  // ---------------------------------------------------------------------------
  // Windows and time
  // ---------------------------------------------------------------------------

  /** Windows tile across the whole chain, not only between neighbours. */
  lemma {:induction false} WindowsTile(chain: seq<Seal>, i: nat, j: nat)
    requires Linked(chain)
    requires i < j < |chain|
    ensures chain[i].req.from <= chain[i].req.to <= chain[j].req.from <= chain[j].req.to
    decreases j - i
  {
    assert Extends(chain[..i], chain[i].req);
    assert Extends(chain[..j], chain[j].req);
    if i + 1 < j {
      WindowsTile(chain, i, j - 1);
    }
  }

  /** Each `prev` is the root before it, so roots and links are two views of one list. */
  lemma LinksRunFromGenesis(chain: seq<Seal>, i: nat)
    requires Linked(chain)
    requires i < |chain|
    ensures chain[i].req.seqNo == i + 1
    ensures chain[i].req.prev == if i == 0 then GENESIS else chain[i - 1].req.root
    ensures chain[i].req.root != GENESIS && chain[i].req.count > 0
  {
    assert Extends(chain[..i], chain[i].req);
  }

  ghost predicate ClockNeverDecreases(invs: seq<Invocation>) {
    forall i, j | 0 <= i < j < |invs| :: invs[i].now <= invs[j].now
  }

  ghost predicate StampsOrdered(chain: seq<Seal>) {
    forall i, j | 0 <= i < j < |chain| :: chain[i].at <= chain[j].at
  }

  /** With a ledger clock that never runs backwards, timestamps never do either, and no seal
      is stamped later than the latest invocation. */
  lemma {:induction false} TimeMovesForward(invs: seq<Invocation>, org: Digest)
    requires ClockNeverDecreases(invs)
    ensures StampsOrdered(Chain(Run(map[], invs), org))
    ensures forall s | s in Chain(Run(map[], invs), org) :: invs != [] && s.at <= invs[|invs| - 1].now
    decreases |invs|
  {
    if invs != [] {
      TimeMovesForward(invs[..|invs| - 1], org);
    }
  }
}
