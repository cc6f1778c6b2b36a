/** Submission is idempotent by consensus. A worker holds a plan of seals for one organisation
    and delivers it over a network that may drop, repeat and reorder, through any number of
    workers, while other organisations use the ledger. The ledger ends up holding a prefix of
    the plan, each seal once; and the whole plan as soon as it was delivered in order. */
module LedgerExactlyOnce {
  import opened Bytes
  import opened LedgerSpec
  import opened LedgerRuns

  function Stamped(plan: seq<Request>): seq<Seal> {
    seq(|plan|, i requires 0 <= i < |plan| => Seal(plan[i], 0))
  }

  /** A plan is a sequence of requests each of which may follow the ones before it. */
  ghost predicate ValidPlan(plan: seq<Request>) {
    Linked(Stamped(plan))
  }

  /** The chain is a prefix of the plan, apart from the timestamps. */
  ghost predicate FollowsPlan(chain: seq<Seal>, plan: seq<Request>) {
    && |chain| <= |plan|
    && forall i | 0 <= i < |chain| :: chain[i].req == plan[i]
  }

  /** Whatever is asked of `org` in the run is either not an append or a request of the plan.
      Registrations and rotations of `org`, and anything for others, are unrestricted. */
  ghost predicate DeliversOnly(invs: seq<Invocation>, org: Digest, plan: seq<Request>) {
    forall i | 0 <= i < |invs| ::
      invs[i].call.Append? && invs[i].call.org == org ==> invs[i].call.req in plan
  }

  lemma PlanNumbers(plan: seq<Request>, i: nat)
    requires ValidPlan(plan)
    requires i < |plan|
    ensures plan[i].seqNo == i + 1
  {
    LinksRunFromGenesis(Stamped(plan), i);
  }

  /** The next request of the plan is acceptable to a chain that has followed the plan so far. */
  lemma NextOfPlanExtends(plan: seq<Request>, chain: seq<Seal>)
    requires ValidPlan(plan) && FollowsPlan(chain, plan) && |chain| < |plan|
    ensures Extends(chain, plan[|chain|])
  {
    var i := |chain|;
    assert Extends(Stamped(plan)[..i], Stamped(plan)[i].req);
    assert i > 0 ==> Stamped(plan)[..i][i - 1].req == plan[i - 1] == chain[i - 1].req;
  }

  lemma AcceptedIsNextOfPlan(plan: seq<Request>, chain: seq<Seal>, r: Request)
    requires ValidPlan(plan) && FollowsPlan(chain, plan)
    requires r in plan && Extends(chain, r)
    ensures |chain| < |plan| && r == plan[|chain|]
  {
    var i :| 0 <= i < |plan| && plan[i] == r;
    PlanNumbers(plan, i);
  }

  /** Safety: however the plan is dropped, repeated, reordered and interleaved, the chain is a
      prefix of it, so no seal is skipped, forked or stored twice. */
  lemma {:induction false} ChainFollowsPlan(l: Ledger, invs: seq<Invocation>, org: Digest, plan: seq<Request>)
    requires ValidPlan(plan)
    requires FollowsPlan(Chain(l, org), plan)
    requires DeliversOnly(invs, org, plan)
    ensures FollowsPlan(Chain(Run(l, invs), org), plan)
    decreases |invs|
  {
    if invs != [] {
      var init, last := invs[..|invs| - 1], invs[|invs| - 1];
      assert forall i | 0 <= i < |init| :: init[i] == invs[i];
      ChainFollowsPlan(l, init, org, plan);
      var mid := Run(l, init);
      if last.call.Append? && last.call.org == org && Verdict(mid, last).Ok? {
        AcceptedIsNextOfPlan(plan, mid[org].chain, last.call.req);
      }
    }
  }

  /** `t` is the position of a delivery of the j-th request of the plan, signed by whoever
      administers the book at that moment. */
  ghost predicate DeliveryOf(l: Ledger, invs: seq<Invocation>, org: Digest, plan: seq<Request>,
                             t: nat, j: nat)
    requires j < |plan|
  {
    && t < |invs|
    && invs[t].call == Append(org, plan[j])
    && SignedByAdmin(Run(l, invs[..t]), invs[t])
  }

  /** `times` picks, in order, one delivery of every request of the plan. */
  ghost predicate DeliveredInOrder(l: Ledger, invs: seq<Invocation>, org: Digest,
                                   plan: seq<Request>, times: seq<nat>)
  {
    && |times| == |plan|
    && (forall j | 0 <= j < |times| :: DeliveryOf(l, invs, org, plan, times[j], j))
    && (forall j, k | 0 <= j < k < |times| :: times[j] < times[k])
  }

  predicate SignedByAdmin(l: Ledger, inv: Invocation) {
    inv.call.org in l && l[inv.call.org].admin in inv.signers
  }

  /** One signed delivery of the request that is due is accepted, and is the next of the chain. */
  lemma DueDeliveryLands(l: Ledger, inv: Invocation, org: Digest, plan: seq<Request>)
    requires ValidPlan(plan) && FollowsPlan(Chain(l, org), plan)
    requires |Chain(l, org)| < |plan| && inv.call == Append(org, plan[|Chain(l, org)|])
    requires SignedByAdmin(l, inv)
    ensures Chain(Next(l, inv), org) == Chain(l, org) + [Seal(plan[|Chain(l, org)|], inv.now)]
  {
    NextOfPlanExtends(plan, l[org].chain);
  }

  /** If j seals are stored by position `a`, a signed delivery of the j-th request at `t`
      brings the chain past j. */
  lemma ProgressAtStep(l: Ledger, invs: seq<Invocation>, org: Digest, plan: seq<Request>,
                       a: nat, t: nat, j: nat)
    requires ValidPlan(plan) && FollowsPlan(Chain(l, org), plan)
    requires DeliversOnly(invs, org, plan)
    requires a <= t && j < |plan| && DeliveryOf(l, invs, org, plan, t, j)
    requires |Chain(Run(l, invs[..a]), org)| >= j
    ensures |Chain(Run(l, invs[..t + 1]), org)| > j
  {
    var mid := Run(l, invs[..t]);
    PrefixChainGrows(l, invs, a, t, org);
    ChainFollowsPlan(l, invs[..t], org, plan);
    RunPrefixStep(l, invs, t);
    if |Chain(mid, org)| == j {
      DueDeliveryLands(mid, invs[t], org, plan);
    } else {
      PrefixChainGrows(l, invs, t, t + 1, org);
    }
  }

  /** After the j-th picked delivery at least j + 1 seals of the plan are stored. */
  lemma {:induction false} ProgressAtDelivery(l: Ledger, invs: seq<Invocation>, org: Digest,
                                              plan: seq<Request>, times: seq<nat>, j: nat)
    requires ValidPlan(plan)
    requires FollowsPlan(Chain(l, org), plan)
    requires DeliversOnly(invs, org, plan)
    requires DeliveredInOrder(l, invs, org, plan, times)
    requires j < |times|
    ensures times[j] < |invs| && |Chain(Run(l, invs[..times[j] + 1]), org)| > j
  {
    assert DeliveryOf(l, invs, org, plan, times[j], j);
    if j == 0 {
      ProgressAtStep(l, invs, org, plan, 0, times[0], 0);
    } else {
      ProgressAtDelivery(l, invs, org, plan, times, j - 1);
      ProgressAtStep(l, invs, org, plan, times[j - 1] + 1, times[j], j);
    }
  }

  /** Liveness: once the deliveries contain the plan in order, however many other deliveries
      lie between, the chain is the whole plan and every request is stored exactly once. */
  lemma PlanIsStoredExactlyOnce(l: Ledger, invs: seq<Invocation>, org: Digest,
                                plan: seq<Request>, times: seq<nat>)
    requires ValidPlan(plan)
    requires FollowsPlan(Chain(l, org), plan)
    requires DeliversOnly(invs, org, plan)
    requires DeliveredInOrder(l, invs, org, plan, times)
    ensures |Chain(Run(l, invs), org)| == |plan|
    ensures forall i, j | 0 <= i < |plan| && 0 <= j < |plan| ::
              Chain(Run(l, invs), org)[i].req == plan[j] <==> i == j
  {
    ChainFollowsPlan(l, invs, org, plan);
    if plan != [] {
      var last := |times| - 1;
      ProgressAtDelivery(l, invs, org, plan, times, last);
      PrefixChainGrows(l, invs, times[last] + 1, |invs|, org);
      assert invs[..|invs|] == invs;
    }
    forall i | 0 <= i < |plan| ensures plan[i].seqNo == i + 1 {
      PlanNumbers(plan, i);
    }
  }
}
