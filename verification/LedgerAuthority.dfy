/** Who can do what to a book, and what a refusal says. */
module LedgerAuthority {
  import opened Bytes
  import opened LedgerSpec
  import opened LedgerRuns

  predicate Signed(inv: Invocation, who: Address) {
    who in inv.signers
  }

  // ---------------------------------------------------------------------------
  // One invocation
  // ---------------------------------------------------------------------------

  /** A chain changes only by a seal for that organisation, signed by its administrator. */
  lemma SealNeedsAdmin(l: Ledger, inv: Invocation, org: Digest)
    ensures Chain(Next(l, inv), org) != Chain(l, org) ==>
              && org in l && Signed(inv, l[org].admin)
              && inv.call.Append? && inv.call.org == org
              && Chain(Next(l, inv), org) == Chain(l, org) + [Seal(inv.call.req, inv.now)]
  {
  }

  /** An administrator changes only in a rotation that the old and the new one have signed, and
      then to the new one. */
  lemma RotationNeedsBoth(l: Ledger, inv: Invocation, org: Digest)
    requires org in l
    ensures org in Next(l, inv)
    ensures Next(l, inv)[org].admin != l[org].admin ==>
              && inv.call == Rotate(org, Next(l, inv)[org].admin)
              && Signed(inv, l[org].admin) && Signed(inv, Next(l, inv)[org].admin)
  {
  }

  /** A book is opened only by a registration that its administrator has signed, and is empty. */
  lemma OpeningNeedsAdmin(l: Ledger, inv: Invocation, org: Digest)
    requires org !in l
    ensures org in Next(l, inv) ==>
              && inv.call == Register(org, Next(l, inv)[org].admin)
              && Signed(inv, Next(l, inv)[org].admin) && Next(l, inv)[org].chain == []
  {
  }

  /** And what is properly signed is done: an administrator can always hand over, a new book can
      always be opened, and an open one is never opened again. */
  lemma SignedCallsWork(l: Ledger, signers: set<Address>, now: U64, org: Digest, admin: Address)
    requires admin in signers
    ensures var z := Next(l, Invocation(signers, now, Register(org, admin)));
            if org in l then z == l else z == l[org := Account(admin, [])]
    ensures org in l && l[org].admin in signers ==>
              Next(l, Invocation(signers, now, Rotate(org, admin))) == l[org := Account(admin, l[org].chain)]
  {
  }

  // ---------------------------------------------------------------------------
  // What a refusal says
  // ---------------------------------------------------------------------------

  /** Without the administrator's signature nothing else is looked at. */
  lemma UnsignedIsUnauthorised(l: Ledger, inv: Invocation)
    requires inv.call.org in l && !inv.call.Register? && !Signed(inv, l[inv.call.org].admin)
    ensures Verdict(l, inv) == Err(Unauthorised) && Next(l, inv) == l
  {
  }

  /** Nobody can open a book in another's name or twice, and a book must be open to be used. */
  lemma RefusalsAboutBooks(l: Ledger, inv: Invocation)
    ensures inv.call.Register? && !Signed(inv, inv.call.admin) ==> Verdict(l, inv) == Err(Unauthorised)
    ensures inv.call.Register? && Signed(inv, inv.call.admin) && inv.call.org in l ==>
              Verdict(l, inv) == Err(AlreadyRegistered)
    ensures !inv.call.Register? && inv.call.org !in l ==> Verdict(l, inv) == Err(NotRegistered)
  {
  }

  /** Submitting a stored seal again, signed by the administrator, says that its number is taken:
      the answer by which a worker knows that it has landed. */
  lemma RepeatIsOutOfOrder(l: Ledger, inv: Invocation, org: Digest, i: nat)
    requires WellFormed(l) && org in l && Signed(inv, l[org].admin) && i < |l[org].chain| < U32_MAX
    requires inv.call == Append(org, l[org].chain[i].req)
    ensures Verdict(l, inv) == Err(SequenceOutOfOrder)
  {
    assert Extends(l[org].chain[..i], l[org].chain[i].req);
  }

  /** The next number with another link is a fork, and says so. */
  lemma ForkIsChainBroken(chain: seq<Seal>, r: Request)
    requires |chain| < U32_MAX && r.root != GENESIS && r.count > 0 && r.from <= r.to
    ensures AppendVerdict(chain, r) == Err(SequenceOutOfOrder) <==> r.seqNo != |chain| + 1
    ensures AppendVerdict(chain, r) == Err(ChainBroken) <==> r.seqNo == |chain| + 1 && r.prev != HeadRoot(chain)
    ensures AppendVerdict(chain, r) == Err(PeriodOutOfOrder)
            <==> r.seqNo == |chain| + 1 && r.prev == HeadRoot(chain) && chain != [] && r.from < HeadTo(chain)
  {
  }

  /** What is wrong with the request itself is said before anything about the chain. */
  lemma MalformedIsToldFirst(chain: seq<Seal>, r: Request)
    ensures r.root == GENESIS <==> AppendVerdict(chain, r) == Err(RootIsSentinel)
    ensures r.root != GENESIS && r.count == 0 <==> AppendVerdict(chain, r) == Err(EmptySeal)
    ensures r.root != GENESIS && r.count > 0 && r.to < r.from ==> AppendVerdict(chain, r) == Err(PeriodOutOfOrder)
  {
  }

  // ---------------------------------------------------------------------------
  // Runs
  // ---------------------------------------------------------------------------

  /** `t` is the invocation that put seal number k+1 into the chain that `z` holds. */
  ghost predicate CarriedBy(l: Ledger, invs: seq<Invocation>, org: Digest, k: nat, s: Seal, t: nat) {
    && t < |invs|
    && var mid := Run(l, invs[..t]);
    && org in mid && |mid[org].chain| == k && Signed(invs[t], mid[org].admin)
    && invs[t].call == Append(org, s.req) && invs[t].now == s.at
  }

  /** Every seal that a run has added was carried by an invocation signed by whoever administered
      the book at that moment. */
  lemma {:induction false} EverySealWasSigned(l: Ledger, invs: seq<Invocation>, org: Digest, k: nat) returns (t: nat)
    requires |Chain(l, org)| <= k < |Chain(Run(l, invs), org)|
    ensures CarriedBy(l, invs, org, k, Chain(Run(l, invs), org)[k], t)
    decreases |invs|
  {
    var n := |invs| - 1;
    var mid := Run(l, invs[..n]);
    SealNeedsAdmin(mid, invs[n], org);
    if k < |Chain(mid, org)| {
      t := EverySealWasSigned(l, invs[..n], org, k);
      assert invs[..n][..t] == invs[..t];
    } else {
      t := n;
    }
  }

  /** The administrator was put there by a signed call. */
  ghost predicate InstalledBy(l: Ledger, invs: seq<Invocation>, org: Digest, admin: Address, t: nat) {
    && t < |invs| && Signed(invs[t], admin)
    && var mid := Run(l, invs[..t]);
    if org in mid then invs[t].call == Rotate(org, admin) && Signed(invs[t], mid[org].admin)
    else invs[t].call == Register(org, admin)
  }

  /** Whoever administers a book after a run did so before it, or has signed the call that made
      it so, together with the administrator before. */
  lemma {:induction false} AdministratorWasInstalled(l: Ledger, invs: seq<Invocation>, org: Digest)
    requires org in Run(l, invs)
    ensures var admin := Run(l, invs)[org].admin;
            (org in l && l[org].admin == admin) || exists t: nat :: InstalledBy(l, invs, org, admin, t)
    decreases |invs|
  {
    if invs != [] {
      var n := |invs| - 1;
      var mid := Run(l, invs[..n]);
      var admin := Run(l, invs)[org].admin;
      if org in mid && mid[org].admin == admin {
        AdministratorWasInstalled(l, invs[..n], org);
        if t: nat :| InstalledBy(l, invs[..n], org, admin, t) {
          assert invs[..n][..t] == invs[..t];
          assert InstalledBy(l, invs, org, admin, t);
        }
      } else {
        if org in mid {
          RotationNeedsBoth(mid, invs[n], org);
        } else {
          OpeningNeedsAdmin(mid, invs[n], org);
        }
        assert InstalledBy(l, invs, org, admin, n);
      }
    }
  }

  // ---------------------------------------------------------------------------
  // What the verifier is told
  // ---------------------------------------------------------------------------

  /** Exactly the stored roots verify, each at its own number. */
  lemma ExactlyStoredRootsVerify(l: Ledger, org: Digest, seqNo: nat, root: Digest)
    ensures Verifies(l, org, seqNo, root) <==>
              org in l && exists i: nat :: i < |l[org].chain| && i + 1 == seqNo && l[org].chain[i].req.root == root
  {
    if Verifies(l, org, seqNo, root) {
      var i: nat := seqNo - 1;
      assert l[org].chain[i].req.root == root;
    }
  }

  /** An accepted seal verifies at once, and so for good. */
  lemma AcceptedSealVerifies(l: Ledger, inv: Invocation, later: seq<Invocation>)
    requires inv.call.Append? && Accepted(l, inv)
    ensures Verifies(Run(Next(l, inv), later), inv.call.org, inv.call.req.seqNo, inv.call.req.root)
  {
    VerdictIsPermanent(Next(l, inv), later, inv.call.org, inv.call.req.seqNo, inv.call.req.root);
  }
}
