/** The advertised limit, capacity plus refill over the elapsed time, against every clock. The
    script stamps the bucket with whatever clock reading it is given, so a clock that steps back
    and forth refills again; but no single step can bring in more than the bucket holds. */
module BucketClock {
  import opened TokenBucket

  function Times(hits: seq<Hit>): (times: seq<real>)
    ensures |times| == |hits|
    ensures forall i | 0 <= i < |hits| :: times[i] == hits[i].now
  {
    seq(|hits|, i requires 0 <= i < |hits| => hits[i].now)
  }

  /** What the clock can bring into the bucket at most, step by step from `ts`. */
  function Inflow(p: Params, ts: real, times: seq<real>): real
    decreases |times|
  {
    if times == [] then 0.0
    else Min(p.capacity, Accrued(p, Gained(ts, times[0]))) + Inflow(p, times[0], times[1..])
  }

  // ---------------------------------------------------------------------------
  // No more than the inflow
  // ---------------------------------------------------------------------------

  lemma LevelIsCapped(p: Params, b: Bucket, now: real)
    requires p.Valid() && InRange(p, b) && b.Held?
    ensures Level(p, b, now) <= b.tokens + Min(p.capacity, Accrued(p, Gained(b.ts, now)))
  {
  }

  /** What is spent and what is left never exceed what was there and what could come in. */
  lemma {:induction false} SpendingIsCapped(p: Params, b: Bucket, hits: seq<Hit>)
    requires p.Valid() && InRange(p, b) && b.Held? && NoNegativeCost(hits)
    ensures After(p, b, hits).Held?
    ensures Allowed(p, b, hits) + After(p, b, hits).tokens <= b.tokens + Inflow(p, b.ts, Times(hits))
    decreases |hits|
  {
    if hits != [] {
      LevelInRange(p, b, hits[0].now);
      LevelIsCapped(p, b, hits[0].now);
      SpendingIsCapped(p, Spend(p, b, hits[0]), hits[1..]);
      assert Times(hits)[1..] == Times(hits[1..]);
    }
  }

  /** The tightest bound there is, for every clock. */
  lemma CappedBound(p: Params, b: Bucket, hits: seq<Hit>)
    requires p.Valid() && InRange(p, b) && NoNegativeCost(hits) && hits != []
    ensures Allowed(p, b, hits) <= p.capacity + Inflow(p, hits[0].now, Times(hits)[1..])
  {
    var next := Spend(p, b, hits[0]);
    LevelInRange(p, b, hits[0].now);
    SpendingIsCapped(p, next, hits[1..]);
    RunStaysInRange(p, next, hits[1..]);
    assert Times(hits)[1..] == Times(hits[1..]);
  }

  // ---------------------------------------------------------------------------
  // No less
  // ---------------------------------------------------------------------------

  /** The caller who takes all there is, every time. */
  function TakeAll(p: Params, b: Bucket, times: seq<real>): (hits: seq<Hit>)
    ensures |hits| == |times|
    decreases |times|
  {
    if times == [] then []
    else
      var hit := Hit(times[0], Level(p, b, times[0]));
      [hit] + TakeAll(p, Spend(p, b, hit), times[1..])
  }

  lemma {:induction false} TakeAllIsProper(p: Params, b: Bucket, times: seq<real>)
    requires p.Valid() && InRange(p, b)
    ensures NoNegativeCost(TakeAll(p, b, times)) && Times(TakeAll(p, b, times)) == times
    decreases |times|
  {
    if times != [] {
      var hit := Hit(times[0], Level(p, b, times[0]));
      LevelInRange(p, b, times[0]);
      TakeAllIsProper(p, Spend(p, b, hit), times[1..]);
    }
  }

  /** From an empty bucket, taking all there is takes exactly the inflow. */
  lemma {:induction false} TakeAllTakesInflow(p: Params, ts: real, times: seq<real>)
    requires p.Valid()
    ensures Allowed(p, Held(0.0, ts), TakeAll(p, Held(0.0, ts), times)) == Inflow(p, ts, times)
    decreases |times|
  {
    if times != [] {
      var b := Held(0.0, ts);
      var hit := Hit(times[0], Level(p, b, times[0]));
      AllowedCons(p, b, hit, TakeAll(p, Spend(p, b, hit), times[1..]));
      assert Spend(p, b, hit) == Held(0.0, times[0]);
      TakeAllTakesInflow(p, times[0], times[1..]);
    }
  }

  lemma TakeAllFromNew(p: Params, times: seq<real>)
    requires p.Valid() && times != []
    ensures Allowed(p, Absent, TakeAll(p, Absent, times)) == p.capacity + Inflow(p, times[0], times[1..])
  {
    var hit := Hit(times[0], p.capacity);
    assert Spend(p, Absent, hit) == Held(0.0, times[0]);
    AllowedCons(p, Absent, hit, TakeAll(p, Held(0.0, times[0]), times[1..]));
    TakeAllTakesInflow(p, times[0], times[1..]);
  }

  // ---------------------------------------------------------------------------
  // Exactly when
  // ---------------------------------------------------------------------------

  function Elapsed(times: seq<real>): real
    requires times != []
  {
    times[|times| - 1] - times[0]
  }

  /** Whatever the bucket held and whatever is asked at these instants, what is let through is
      at most the capacity plus the refill over the time between the first and the last. */
  ghost predicate ElapsedLimitHolds(p: Params, times: seq<real>)
    requires times != []
  {
    forall b: Bucket, hits: seq<Hit> | InRange(p, b) && NoNegativeCost(hits) && Times(hits) == times ::
      Allowed(p, b, hits) <= p.capacity + Accrued(p, Elapsed(times))
  }

  /** The advertised limit holds of a clock exactly when its steps, none counted for more than the
      bucket can hold, bring in no more than the elapsed time would. */
  lemma ElapsedLimitHoldsIff(p: Params, times: seq<real>)
    requires p.Valid() && times != []
    ensures ElapsedLimitHolds(p, times) <==> Inflow(p, times[0], times[1..]) <= Accrued(p, Elapsed(times))
  {
    if ElapsedLimitHolds(p, times) {
      TakeAllIsProper(p, Absent, times);
      TakeAllFromNew(p, times);
      assert InRange(p, Absent);
    }
    if Inflow(p, times[0], times[1..]) <= Accrued(p, Elapsed(times)) {
      forall b: Bucket, hits: seq<Hit> | InRange(p, b) && NoNegativeCost(hits) && Times(hits) == times
        ensures Allowed(p, b, hits) <= p.capacity + Accrued(p, Elapsed(times))
      {
        CappedBound(p, b, hits);
      }
    }
  }

  /** One token, one more each second. */
  const ONE: Params := Params(1.0, 1.0)

  lemma FirstIsPaid()
    ensures Allows(ONE, Absent, Hit(1.0, 1.0)) && Spend(ONE, Absent, Hit(1.0, 1.0)) == Held(0.0, 1.0)
  {
  }

  lemma EarlierIsRefusedAndStamped()
    ensures !Allows(ONE, Held(0.0, 1.0), Hit(0.0, 1.0))
    ensures Spend(ONE, Held(0.0, 1.0), Hit(0.0, 1.0)) == Held(0.0, 0.0)
  {
    assert Gained(1.0, 0.0) == 0.0;
    assert Accrued(ONE, 0.0) == 0.0;
  }

  lemma SameSecondIsPaidAgain()
    ensures Allows(ONE, Held(0.0, 0.0), Hit(1.0, 1.0))
  {
    assert Gained(0.0, 1.0) == 1.0;
    assert Accrued(ONE, 1.0) == 1.0;
  }

  lemma ThreeHits(p: Params, b: Bucket, x: Hit, y: Hit, z: Hit)
    ensures var c := Spend(p, b, x);
            var d := Spend(p, c, y);
            Allowed(p, b, [x, y, z])
            == (if Allows(p, b, x) then x.cost else 0.0)
             + ((if Allows(p, c, y) then y.cost else 0.0)
              + ((if Allows(p, d, z) then z.cost else 0.0) + 0.0))
  {
    var c := Spend(p, b, x);
    var d := Spend(p, c, y);
    AllowedCons(p, d, z, []);
    AllowedCons(p, c, y, [z] + []);
    AllowedCons(p, b, x, [y] + ([z] + []));
    assert [x, y, z] == [x] + ([y] + ([z] + []));
  }

  /** A clock that steps back and forth can break it, already for a single token and requests
      that cost one each: the second before the step is paid out again. */
  lemma ClockSteppingBackRefillsTwice()
    ensures var hits := [Hit(1.0, 1.0), Hit(0.0, 1.0), Hit(1.0, 1.0)];
            Allowed(ONE, Absent, hits) > ONE.capacity + Accrued(ONE, Elapsed(Times(hits)))
  {
    FirstIsPaid();
    EarlierIsRefusedAndStamped();
    SameSecondIsPaidAgain();
    ThreeHits(ONE, Absent, Hit(1.0, 1.0), Hit(0.0, 1.0), Hit(1.0, 1.0));
    assert Accrued(ONE, 0.0) == 0.0;
  }

  /** And one that steps back may still keep it: what matters is the sum. */
  lemma SteppingBackCanBeHarmless()
    ensures ElapsedLimitHolds(ONE, [0.0, 100.0, 99.0])
  {
    var p, times := ONE, [0.0, 100.0, 99.0];
    assert times[1..] == [100.0, 99.0] && times[1..][1..] == [99.0] && times[1..][1..][1..] == [];
    assert Inflow(p, 100.0, [99.0]) == 0.0;
    ElapsedLimitHoldsIff(p, times);
  }
}
