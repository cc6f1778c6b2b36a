/** Interleaved traffic from many callers and addresses through the middleware, with keys that
    expire: every bucket's bound holds for what is let through, all of them at once. */
module RateLimitRuns {
  import opened TokenBucket
  import opened RateLimit

  function ParamsOf(cfg: Config, id: BucketId): (p: Params)
    requires cfg.Valid() && Limited(id)
    ensures p.Valid()
  {
    cfg.BudgetOf(id).Params()
  }

  /** From `clock` on, the store's bucket `id` stands for `b`, which is never dropped. */
  ghost predicate StandsFor(cfg: Config, store: Store, id: BucketId, b: Bucket, clock: real)
    requires cfg.Valid() && Limited(id)
  {
    SameBucket(ParamsOf(cfg, id), At(store, Key(id)), b, clock)
  }

  predicate Touches(r: Request, id: BucketId) {
    r.tier != Exempt && (id == TierBucket(r.tier, r.identity) || id == IpBucket(r.source))
  }

  /** One bucket evaluated once. */
  lemma TouchStep(cfg: Config, store: Store, id: BucketId, now: real, b: Bucket, clock: real)
    requires cfg.Valid() && Limited(id) && StandsFor(cfg, store, id, b, clock) && clock <= now
    ensures StandsFor(cfg, Touch(cfg, store, id, now), id, Spend(ParamsOf(cfg, id), b, Hit(now, 1.0)), now)
    ensures HasRoom(cfg, store, id, now) <==> Allows(ParamsOf(cfg, id), b, Hit(now, 1.0))
  {
    ExpiryStep(ParamsOf(cfg, id), At(store, Key(id)), b, clock, Hit(now, 1.0));
  }

  /** What a request does to a bucket that is never dropped. */
  function Charged(cfg: Config, r: Request, id: BucketId, b: Bucket): Bucket
    requires cfg.Valid() && Limited(id)
  {
    if Touches(r, id) then Spend(ParamsOf(cfg, id), b, Hit(r.now, 1.0)) else b
  }

  /** One request: the buckets it touches are charged once each, whether or not it passes; the
      others are untouched; and a bucket it touches has room in the store exactly when it would
      have room had its key never been dropped. */
  lemma ChargeStep(cfg: Config, store: Store, r: Request, id: BucketId, b: Bucket, clock: real)
    requires cfg.Valid() && Limited(id) && StandsFor(cfg, store, id, b, clock) && clock <= r.now
    ensures StandsFor(cfg, Charge(cfg, store, r), id, Charged(cfg, r, id, b), r.now)
    ensures HasRoom(cfg, store, id, r.now) <==> Allows(ParamsOf(cfg, id), b, Hit(r.now, 1.0))
    ensures Touches(r, id) && Passes(cfg, store, r) ==> Allows(ParamsOf(cfg, id), b, Hit(r.now, 1.0))
  {
    TouchStep(cfg, store, id, r.now, b, clock);
    if r.tier != Exempt {
      var first, second := TierBucket(r.tier, r.identity), IpBucket(r.source);
      var kept := Purge(store, r.now);
      PurgeExpires(store, r.now, Key(id));
      LookKeepsBucket(ParamsOf(cfg, id), At(store, Key(id)), b, clock, r.now);
      TouchStep(cfg, kept, id, r.now, b, r.now);
      OtherBucketsUntouched(cfg, kept, first, r.now, id);
      var mid := Touch(cfg, kept, first, r.now);
      OtherBucketsUntouched(cfg, mid, second, r.now, id);
      if id == second {
        TouchStep(cfg, mid, id, r.now, b, r.now);
      }
    }
  }

  // ---------------------------------------------------------------------------
  // Runs
  // ---------------------------------------------------------------------------

  function StoreAfter(cfg: Config, store: Store, reqs: seq<Request>): Store
    requires cfg.Valid()
    decreases |reqs|
  {
    if reqs == [] then store else StoreAfter(cfg, Charge(cfg, store, reqs[0]), reqs[1..])
  }

  lemma {:induction false} RunKeepsStoreOk(cfg: Config, store: Store, reqs: seq<Request>)
    requires cfg.Valid() && StoreOk(cfg, store)
    ensures StoreOk(cfg, StoreAfter(cfg, store, reqs))
    decreases |reqs|
  {
    if reqs != [] {
      ChargeKeepsStoreOk(cfg, store, reqs[0]);
      RunKeepsStoreOk(cfg, Charge(cfg, store, reqs[0]), reqs[1..]);
    }
  }

  /** What one bucket sees of the traffic. */
  function HitsOn(reqs: seq<Request>, id: BucketId): seq<Hit> {
    if reqs == [] then []
    else (if Touches(reqs[0], id) then [Hit(reqs[0].now, 1.0)] else []) + HitsOn(reqs[1..], id)
  }

  /** How many requests that touch the bucket are let through. */
  function PassedOn(cfg: Config, store: Store, reqs: seq<Request>, id: BucketId): nat
    requires cfg.Valid()
    decreases |reqs|
  {
    if reqs == [] then 0
    else (if Touches(reqs[0], id) && Passes(cfg, store, reqs[0]) then 1 else 0)
         + PassedOn(cfg, Charge(cfg, store, reqs[0]), reqs[1..], id)
  }

  ghost predicate Ordered(reqs: seq<Request>) {
    forall i, j | 0 <= i < j < |reqs| :: reqs[i].now <= reqs[j].now
  }

  /** The whole middleware, projected to one bucket, is a run of that bucket alone, without
      expiry: what is let through is at most what the bucket alone would have allowed. */
  lemma {:induction false} PassedIsAllowed(cfg: Config, store: Store, reqs: seq<Request>, id: BucketId,
                                           b: Bucket, clock: real)
    requires cfg.Valid() && Limited(id) && StandsFor(cfg, store, id, b, clock)
    requires Ordered(reqs) && (reqs != [] ==> clock <= reqs[0].now)
    ensures PassedOn(cfg, store, reqs, id) as real <= Allowed(ParamsOf(cfg, id), b, HitsOn(reqs, id))
    decreases |reqs|
  {
    if reqs != [] {
      var r, rest := reqs[0], HitsOn(reqs[1..], id);
      ChargeStep(cfg, store, r, id, b, clock);
      PassedIsAllowed(cfg, Charge(cfg, store, r), reqs[1..], id, Charged(cfg, r, id, b), r.now);
      if Touches(r, id) {
        AllowedCons(ParamsOf(cfg, id), b, Hit(r.now, 1.0), rest);
      } else {
        assert [] + rest == rest;
      }
    }
  }

  lemma {:induction false} HitsAreOrdered(reqs: seq<Request>, id: BucketId)
    requires Ordered(reqs) && reqs != []
    ensures NoNegativeCost(HitsOn(reqs, id))
    ensures ClockNeverDecreases(reqs[0].now, HitsOn(reqs, id))
    ensures forall i | 0 <= i < |HitsOn(reqs, id)| :: HitsOn(reqs, id)[i].now <= reqs[|reqs| - 1].now
    decreases |reqs|
  {
    if |reqs| > 1 {
      HitsAreOrdered(reqs[1..], id);
    } else {
      assert HitsOn(reqs[1..], id) == [];
    }
  }

  lemma HitsAreBounded(p: Params, b: Bucket, reqs: seq<Request>, id: BucketId)
    requires p.Valid() && InRange(p, b) && Ordered(reqs) && reqs != []
    ensures Allowed(p, b, HitsOn(reqs, id)) <= p.capacity + Accrued(p, reqs[|reqs| - 1].now - reqs[0].now)
  {
    HitsAreOrdered(reqs, id);
    assert reqs[0].now <= reqs[|reqs| - 1].now;
    WindowBound(p, b, HitsOn(reqs, id), reqs[0].now, reqs[|reqs| - 1].now);
  }

  lemma KeptStandsForItself(cfg: Config, store: Store, id: BucketId, clock: real)
    requires cfg.Valid() && StoreOk(cfg, store) && Limited(id)
    ensures StandsFor(cfg, store, id, Kept(At(store, Key(id))), clock)
    ensures InRange(ParamsOf(cfg, id), Kept(At(store, Key(id))))
  {
    assert EntryOk(cfg, store, id);
  }

  /** The limit that is advertised, for every bucket at once. Over any stretch of interleaved
      traffic whose clock does not run back, the requests let through for a tier and caller,
      and those let through for a source address, are each at most the bucket's capacity plus
      its refill over the stretch. */
  lemma EveryBucketBoundHolds(cfg: Config, store: Store, reqs: seq<Request>, id: BucketId)
    requires cfg.Valid() && StoreOk(cfg, store) && Limited(id)
    requires Ordered(reqs) && reqs != []
    ensures var p := ParamsOf(cfg, id);
            PassedOn(cfg, store, reqs, id) as real
            <= p.capacity + Accrued(p, reqs[|reqs| - 1].now - reqs[0].now)
  {
    var b := Kept(At(store, Key(id)));
    KeptStandsForItself(cfg, store, id, reqs[0].now);
    PassedIsAllowed(cfg, store, reqs, id, b, reqs[0].now);
    HitsAreBounded(ParamsOf(cfg, id), b, reqs, id);
  }

  /** The stretch may start anywhere in the life of the store, from the empty one onwards. */
  lemma EveryStretchOfTrafficIsBounded(cfg: Config, before: seq<Request>, reqs: seq<Request>, id: BucketId)
    requires cfg.Valid() && Limited(id)
    requires Ordered(reqs) && reqs != []
    ensures var p := ParamsOf(cfg, id);
            PassedOn(cfg, StoreAfter(cfg, map[], before), reqs, id) as real
            <= p.capacity + Accrued(p, reqs[|reqs| - 1].now - reqs[0].now)
  {
    RunKeepsStoreOk(cfg, map[], before);
    EveryBucketBoundHolds(cfg, StoreAfter(cfg, map[], before), reqs, id);
  }

  // ---------------------------------------------------------------------------
  // Refusals cost the other bucket
  // ---------------------------------------------------------------------------

  /** What the bucket holds at `t` if nothing else is spent. */
  function LevelAt(cfg: Config, store: Store, id: BucketId, t: real): real
    requires cfg.Valid() && Limited(id)
  {
    Level(ParamsOf(cfg, id), Visible(At(store, Key(id)), t), t)
  }

  /** The bucket was last written no later than `now`. */
  predicate StampedBy(store: Store, id: BucketId, now: real) {
    var b := Kept(At(store, Key(id)));
    b.Held? ==> b.ts <= now
  }

  lemma LevelOfStanding(cfg: Config, store: Store, id: BucketId, b: Bucket, clock: real, t: real)
    requires cfg.Valid() && Limited(id) && StandsFor(cfg, store, id, b, clock) && clock <= t
    ensures LevelAt(cfg, store, id, t) == Level(ParamsOf(cfg, id), b, t)
  {
    LookKeepsBucket(ParamsOf(cfg, id), At(store, Key(id)), b, clock, t);
  }

  /** When a request, let through or refused, leaves less in a bucket at a later time: exactly
      when it touches the bucket, the bucket had room, and it is not full again by then. A
      refused request leaves the bucket that refused it alone, but not the other one. */
  lemma RequestLowersIff(cfg: Config, store: Store, r: Request, id: BucketId, t: real)
    requires cfg.Valid() && StoreOk(cfg, store) && Limited(id) && StampedBy(store, id, r.now) && r.now <= t
    ensures LevelAt(cfg, Charge(cfg, store, r), id, t) <= LevelAt(cfg, store, id, t)
    ensures LevelAt(cfg, Charge(cfg, store, r), id, t) < LevelAt(cfg, store, id, t)
            <==> && Touches(r, id) && HasRoom(cfg, store, id, r.now)
                 && LevelAt(cfg, store, id, r.now) - 1.0 + Accrued(ParamsOf(cfg, id), t - r.now)
                    < ParamsOf(cfg, id).capacity
  {
    var p, b := ParamsOf(cfg, id), Kept(At(store, Key(id)));
    assert EntryOk(cfg, store, id);
    ChargeStep(cfg, store, r, id, b, r.now);
    LevelOfStanding(cfg, store, id, b, r.now, t);
    LevelOfStanding(cfg, store, id, b, r.now, r.now);
    LevelOfStanding(cfg, Charge(cfg, store, r), id, Charged(cfg, r, id, b), r.now, t);
    HitLowersIff(p, b, Hit(r.now, 1.0), t);
  }

  /** So a refusal may postpone others: a caller whose tier refuses still takes a token from the
      address it shares, exactly when the address has one and does not fill up again. */
  lemma RefusedByTierStillSpendsAddress(cfg: Config, store: Store, r: Request, t: real)
    requires cfg.Valid() && StoreOk(cfg, store) && r.now <= t && r.tier != Exempt
    requires !HasRoom(cfg, store, TierBucket(r.tier, r.identity), r.now)
    requires StampedBy(store, TierBucket(r.tier, r.identity), r.now) && StampedBy(store, IpBucket(r.source), r.now)
    ensures !Passes(cfg, store, r)
    ensures LevelAt(cfg, Charge(cfg, store, r), TierBucket(r.tier, r.identity), t)
            == LevelAt(cfg, store, TierBucket(r.tier, r.identity), t)
    ensures LevelAt(cfg, Charge(cfg, store, r), IpBucket(r.source), t) < LevelAt(cfg, store, IpBucket(r.source), t)
            <==> && HasRoom(cfg, store, IpBucket(r.source), r.now)
                 && LevelAt(cfg, store, IpBucket(r.source), r.now) - 1.0
                    + Accrued(ParamsOf(cfg, IpBucket(r.source)), t - r.now)
                    < ParamsOf(cfg, IpBucket(r.source)).capacity
  {
    RequestLowersIff(cfg, store, r, TierBucket(r.tier, r.identity), t);
    RequestLowersIff(cfg, store, r, IpBucket(r.source), t);
  }

  /** In a budget's own terms: one period refills exactly the budget, and an idle key outlives
      its period by one second. */
  lemma PeriodBound(b: Budget)
    requires b.Valid()
    ensures Accrued(b.Params(), b.periodSeconds as real) == b.capacity as real
    ensures Ttl(b.Params()) == b.periodSeconds + 1
  {
    var c, s := b.capacity as real, b.periodSeconds as real;
    assert s * (c / s) == c;
    assert c / (c / s) == s;
  }
}
