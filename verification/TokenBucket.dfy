/** The token bucket that the rate limiter evaluates in Redis, one key at a time. Tokens and
    time are real numbers; the clock is whatever the callers pass, which may step back. */
module TokenBucket {

  /** Bucket size and tokens per second. */
  datatype Params = Params(capacity: real, refill: real) {
    predicate Valid() {
      capacity > 0.0 && refill > 0.0
    }
  }

  datatype Bucket = Absent | Held(tokens: real, ts: real)

  datatype Hit = Hit(now: real, cost: real)

  datatype Answer = Answer(allowed: bool, remaining: int, retryAfter: int)

  function Min(a: real, b: real): real {
    if a <= b then a else b
  }

  /** Clock time gained since `ts`; a clock that steps back gains nothing. */
  function Gained(ts: real, now: real): (g: real)
    ensures g >= 0.0
  {
    if now - ts < 0.0 then 0.0 else now - ts
  }

  function Ceil(x: real): (c: int)
    ensures c as real - 1.0 < x <= c as real
  {
    -((-x).Floor)
  }

  /** Tokens that come in over a span of clock time. */
  function Accrued(p: Params, seconds: real): real {
    seconds * p.refill
  }

  lemma AccruedGrows(p: Params, a: real, b: real)
    requires p.Valid() && a <= b
    ensures Accrued(p, a) <= Accrued(p, b)
    ensures a < b ==> Accrued(p, a) < Accrued(p, b)
    ensures 0.0 <= a ==> 0.0 <= Accrued(p, a)
  {
  }

  lemma AccruedAdds(p: Params, a: real, b: real)
    ensures Accrued(p, a + b) == Accrued(p, a) + Accrued(p, b)
  {
  }

  /** Tokens in hand at `now`, before anything is spent. */
  function Level(p: Params, b: Bucket, now: real): real {
    match b
    case Absent => p.capacity
    case Held(tokens, ts) => Min(p.capacity, tokens + Accrued(p, Gained(ts, now)))
  }

  function RetryAfter(p: Params, short: real): (r: int)
    requires p.Valid()
    ensures r >= 1
  {
    var r := Ceil(short / p.refill);
    if r < 1 then 1 else r
  }

  predicate Allows(p: Params, b: Bucket, hit: Hit) {
    Level(p, b, hit.now) >= hit.cost
  }

  /** The bucket after one hit. The time stamp moves to `now` in every case. */
  function Spend(p: Params, b: Bucket, hit: Hit): Bucket {
    var level := Level(p, b, hit.now);
    Held(if level >= hit.cost then level - hit.cost else level, hit.now)
  }

  function Reply(p: Params, b: Bucket, hit: Hit): Answer
    requires p.Valid()
  {
    var level := Level(p, b, hit.now);
    if level >= hit.cost then Answer(true, (level - hit.cost).Floor, 0)
    else Answer(false, level.Floor, RetryAfter(p, hit.cost - level))
  }

  /** The answer tells what is left in the bucket, in whole tokens. */
  lemma RemainingIsWhatIsLeft(p: Params, b: Bucket, hit: Hit)
    requires p.Valid()
    ensures Spend(p, b, hit).Held? && Reply(p, b, hit).remaining == Spend(p, b, hit).tokens.Floor
    ensures Reply(p, b, hit).allowed <==> Level(p, b, hit.now) >= hit.cost
    ensures Reply(p, b, hit).allowed ==> Reply(p, b, hit).retryAfter == 0
  {
  }

  /** The Lua script, statement by statement. */
  method BucketScript(p: Params, state: Bucket, hit: Hit) returns (next: Bucket, answer: Answer)
    requires p.Valid()
    ensures next == Spend(p, state, hit)
    ensures answer == Reply(p, state, hit)
  {
    var tokens, ts := p.capacity, hit.now;
    if state.Held? {
      tokens, ts := state.tokens, state.ts;
    }
    var elapsed := hit.now - ts;
    if elapsed < 0.0 {
      elapsed := 0.0;
    }
    AccruedGrows(p, 0.0, 0.0);
    tokens := Min(p.capacity, tokens + Accrued(p, elapsed));
    var allowed, retryAfter := false, 0;
    if tokens >= hit.cost {
      allowed := true;
      tokens := tokens - hit.cost;
    } else {
      retryAfter := Ceil((hit.cost - tokens) / p.refill);
      if retryAfter < 1 {
        retryAfter := 1;
      }
    }
    next := Held(tokens, hit.now);
    answer := Answer(allowed, tokens.Floor, retryAfter);
  }

  // ---------------------------------------------------------------------------
  // Runs of one bucket
  // ---------------------------------------------------------------------------

  ghost predicate NoNegativeCost(hits: seq<Hit>) {
    forall i | 0 <= i < |hits| :: hits[i].cost >= 0.0
  }

  function After(p: Params, b: Bucket, hits: seq<Hit>): Bucket
    decreases |hits|
  {
    if hits == [] then b else After(p, Spend(p, b, hits[0]), hits[1..])
  }

  function Replies(p: Params, b: Bucket, hits: seq<Hit>): seq<Answer>
    requires p.Valid()
    decreases |hits|
  {
    if hits == [] then [] else [Reply(p, b, hits[0])] + Replies(p, Spend(p, b, hits[0]), hits[1..])
  }

  /** Total cost of the hits that were allowed. */
  function Allowed(p: Params, b: Bucket, hits: seq<Hit>): real
    decreases |hits|
  {
    if hits == [] then 0.0
    else (if Allows(p, b, hits[0]) then hits[0].cost else 0.0) + Allowed(p, Spend(p, b, hits[0]), hits[1..])
  }

  /** The sum of the clock's forward steps, from `ts` through the hits. */
  function ForwardTime(ts: real, hits: seq<Hit>): real
    decreases |hits|
  {
    if hits == [] then 0.0 else Gained(ts, hits[0].now) + ForwardTime(hits[0].now, hits[1..])
  }

  predicate InRange(p: Params, b: Bucket) {
    b.Held? ==> 0.0 <= b.tokens <= p.capacity
  }

  lemma LevelInRange(p: Params, b: Bucket, now: real)
    requires p.Valid() && InRange(p, b)
    ensures 0.0 <= Level(p, b, now) <= p.capacity
    ensures b.Held? ==> b.tokens <= Level(p, b, now) <= b.tokens + Accrued(p, Gained(b.ts, now))
  {
    if b.Held? {
      AccruedGrows(p, 0.0, Gained(b.ts, now));
    }
  }

  /** Tokens never leave the range from zero to the capacity. */
  lemma {:induction false} RunStaysInRange(p: Params, b: Bucket, hits: seq<Hit>)
    requires p.Valid() && InRange(p, b) && NoNegativeCost(hits)
    ensures InRange(p, After(p, b, hits))
    decreases |hits|
  {
    if hits != [] {
      LevelInRange(p, b, hits[0].now);
      RunStaysInRange(p, Spend(p, b, hits[0]), hits[1..]);
    }
  }

  /** The potential argument: what is spent and what is left never exceed what was there and
      what the forward clock brought in. */
  lemma {:induction false} SpendingIsPaidFor(p: Params, b: Bucket, hits: seq<Hit>)
    requires p.Valid() && InRange(p, b) && b.Held? && NoNegativeCost(hits)
    ensures After(p, b, hits).Held?
    ensures Allowed(p, b, hits) + After(p, b, hits).tokens <= b.tokens + Accrued(p, ForwardTime(b.ts, hits))
    decreases |hits|
  {
    if hits != [] {
      var next := Spend(p, b, hits[0]);
      LevelInRange(p, b, hits[0].now);
      SpendingIsPaidFor(p, next, hits[1..]);
      AccruedAdds(p, Gained(b.ts, hits[0].now), ForwardTime(hits[0].now, hits[1..]));
    }
  }

  /** The bound for a stretch of hits, whatever came before it: the burst is the capacity and
      the rest is the refill of the stretch's own forward clock steps. */
  lemma StretchBound(p: Params, b: Bucket, hits: seq<Hit>)
    requires p.Valid() && InRange(p, b) && NoNegativeCost(hits) && hits != []
    ensures Allowed(p, b, hits) <= p.capacity + Accrued(p, ForwardTime(hits[0].now, hits[1..]))
  {
    var next := Spend(p, b, hits[0]);
    LevelInRange(p, b, hits[0].now);
    SpendingIsPaidFor(p, next, hits[1..]);
    RunStaysInRange(p, next, hits[1..]);
  }

  /** The rate limit over every contiguous stretch of every run: however the clock moves, what
      is let through between two hits is at most the capacity plus the refill of the forward
      clock steps between them. */
  lemma EveryStretchIsBounded(p: Params, b: Bucket, hits: seq<Hit>, i: nat, j: nat)
    requires p.Valid() && InRange(p, b) && NoNegativeCost(hits)
    requires i < j <= |hits|
    ensures Allowed(p, After(p, b, hits[..i]), hits[i..j])
            <= p.capacity + Accrued(p, ForwardTime(hits[i].now, hits[i + 1..j]))
  {
    RunStaysInRange(p, b, hits[..i]);
    assert hits[i..j][1..] == hits[i + 1..j];
    StretchBound(p, After(p, b, hits[..i]), hits[i..j]);
  }

  ghost predicate ClockNeverDecreases(ts: real, hits: seq<Hit>) {
    && (forall i | 0 <= i < |hits| :: ts <= hits[i].now)
    && (forall i, j | 0 <= i < j < |hits| :: hits[i].now <= hits[j].now)
  }

  lemma {:induction false} ForwardTimeIsElapsed(ts: real, hits: seq<Hit>)
    requires ClockNeverDecreases(ts, hits)
    ensures ForwardTime(ts, hits) == if hits == [] then 0.0 else hits[|hits| - 1].now - ts
    decreases |hits|
  {
    if hits != [] {
      ForwardTimeIsElapsed(hits[0].now, hits[1..]);
    }
  }

  /** For a clock that does not run back the bound is the advertised one, in elapsed time. */
  lemma ElapsedBound(p: Params, b: Bucket, hits: seq<Hit>)
    requires p.Valid() && InRange(p, b) && NoNegativeCost(hits) && hits != []
    requires ClockNeverDecreases(hits[0].now, hits)
    ensures Allowed(p, b, hits) <= p.capacity + Accrued(p, hits[|hits| - 1].now - hits[0].now)
  {
    StretchBound(p, b, hits);
    ForwardTimeIsElapsed(hits[0].now, hits[1..]);
  }

  /** The same for hits known to lie between two instants. */
  lemma WindowBound(p: Params, b: Bucket, hits: seq<Hit>, from: real, to: real)
    requires p.Valid() && InRange(p, b) && NoNegativeCost(hits)
    requires ClockNeverDecreases(from, hits) && from <= to
    requires forall i | 0 <= i < |hits| :: hits[i].now <= to
    ensures Allowed(p, b, hits) <= p.capacity + Accrued(p, to - from)
  {
    if hits == [] {
      AccruedGrows(p, 0.0, to - from);
    } else {
      ElapsedBound(p, b, hits);
      AccruedGrows(p, hits[|hits| - 1].now - hits[0].now, to - from);
    }
  }

  lemma AllowedCons(p: Params, b: Bucket, hit: Hit, rest: seq<Hit>)
    ensures Allowed(p, b, [hit] + rest)
            == (if Allows(p, b, hit) then hit.cost else 0.0) + Allowed(p, Spend(p, b, hit), rest)
  {
    assert ([hit] + rest)[1..] == rest;
  }

  // ---------------------------------------------------------------------------
  // Expiry
  // ---------------------------------------------------------------------------

  /** Seconds after which an idle key is dropped. */
  function Ttl(p: Params): int
    requires p.Valid()
  {
    Ceil(p.capacity / p.refill) + 1
  }

  /** A key as Redis keeps it, with the instant from which it is gone. */
  datatype Entry = Missing | Stored(bucket: Bucket, expiresAt: real)

  /** A key that has expired is deleted, and does not come back if the clock does. */
  function Expire(e: Entry, now: real): Entry {
    if e.Stored? && now >= e.expiresAt then Missing else e
  }

  function Kept(e: Entry): Bucket {
    if e.Stored? then e.bucket else Absent
  }

  function Visible(e: Entry, now: real): Bucket {
    Kept(Expire(e, now))
  }

  function Evaluate(p: Params, e: Entry, hit: Hit): Entry
    requires p.Valid()
  {
    Stored(Spend(p, Visible(e, hit.now), hit), hit.now + Ttl(p) as real)
  }

  /** Redis looks at the key and may delete it, or the script is run. */
  datatype Moment = Look(at: real) | Ask(hit: Hit) {
    function Now(): real { if Look? then at else hit.now }
  }

  function HitsOf(moments: seq<Moment>): seq<Hit> {
    if moments == [] then []
    else if moments[0].Look? then HitsOf(moments[1..])
    else [moments[0].hit] + HitsOf(moments[1..])
  }

  ghost predicate NeverBack(clock: real, moments: seq<Moment>) {
    && (forall i | 0 <= i < |moments| :: clock <= moments[i].Now())
    && (forall i, j | 0 <= i < j < |moments| :: moments[i].Now() <= moments[j].Now())
  }

  function ExpiringReplies(p: Params, e: Entry, moments: seq<Moment>): seq<Answer>
    requires p.Valid()
    decreases |moments|
  {
    if moments == [] then []
    else match moments[0]
      case Look(at) => ExpiringReplies(p, Expire(e, at), moments[1..])
      case Ask(hit) => [Reply(p, Visible(e, hit.now), hit)] + ExpiringReplies(p, Evaluate(p, e, hit), moments[1..])
  }

  /** A key lives for one filling of the bucket and a second, counted from its last evaluation,
      and is gone at that very instant. */
  lemma KeyLivesOneFilling(p: Params, e: Entry, hit: Hit, now: real)
    requires p.Valid()
    ensures var gone := hit.now + (Ceil(p.capacity / p.refill) + 1) as real;
            Visible(Evaluate(p, e, hit), now)
            == if now < gone then Spend(p, Visible(e, hit.now), hit) else Absent
  {
  }

  /** A bucket is full again by the time its key may go. */
  lemma FullWhenDropped(p: Params, b: Bucket, now: real)
    requires p.Valid() && InRange(p, b) && b.Held? && now >= b.ts + Ttl(p) as real
    ensures Level(p, b, now) == p.capacity
  {
    var need := p.capacity / p.refill;
    assert Accrued(p, need) == p.capacity;
    AccruedGrows(p, need, now - b.ts);
  }

  /** Dropping a key between hits is invisible exactly when the bucket would have been full. */
  lemma DropIsInvisibleIffFull(p: Params, b: Bucket, hit: Hit)
    requires p.Valid() && InRange(p, b) && hit.cost >= 0.0
    ensures (Reply(p, Absent, hit) == Reply(p, b, hit) && Spend(p, Absent, hit) == Spend(p, b, hit))
            <==> Level(p, b, hit.now) == p.capacity
  {
    LevelInRange(p, b, hit.now);
  }

  /** The script wrote this entry. */
  ghost predicate Written(p: Params, e: Entry)
    requires p.Valid()
  {
    e.Stored? ==> e.bucket.Held? && InRange(p, e.bucket) && e.expiresAt == e.bucket.ts + Ttl(p) as real
  }

  /** From `clock` on, the entry stands for the bucket `b` that is never dropped: it holds it, or
      has dropped it long enough ago. */
  ghost predicate SameBucket(p: Params, e: Entry, b: Bucket, clock: real)
    requires p.Valid()
  {
    && Written(p, e) && InRange(p, b)
    && (e.Stored? ==> e.bucket == b)
    && (e.Missing? && b.Held? ==> b.ts + Ttl(p) as real <= clock)
  }

  lemma LookKeepsBucket(p: Params, e: Entry, b: Bucket, clock: real, now: real)
    requires p.Valid() && SameBucket(p, e, b, clock) && clock <= now
    ensures SameBucket(p, Expire(e, now), b, now)
    ensures Level(p, Visible(e, now), now) == Level(p, b, now)
  {
    if b.Held? && Expire(e, now).Missing? {
      FullWhenDropped(p, b, now);
    }
  }

  lemma ExpiryStep(p: Params, e: Entry, b: Bucket, clock: real, hit: Hit)
    requires p.Valid() && SameBucket(p, e, b, clock) && clock <= hit.now && hit.cost >= 0.0
    ensures Allows(p, Visible(e, hit.now), hit) <==> Allows(p, b, hit)
    ensures Reply(p, Visible(e, hit.now), hit) == Reply(p, b, hit)
    ensures SameBucket(p, Evaluate(p, e, hit), Spend(p, b, hit), hit.now)
  {
    LookKeepsBucket(p, e, b, clock, hit.now);
    LevelInRange(p, b, hit.now);
  }

  /** Expiry is invisible: whenever Redis deletes keys that have expired, every request gets the
      answer it would have got had no key ever been dropped, allowed or not, with the same
      numbers, as long as the clock does not run back. */
  lemma {:induction false} ExpiryIsInvisible(p: Params, e: Entry, b: Bucket, clock: real, moments: seq<Moment>)
    requires p.Valid() && SameBucket(p, e, b, clock)
    requires NoNegativeCost(HitsOf(moments)) && NeverBack(clock, moments)
    ensures ExpiringReplies(p, e, moments) == Replies(p, b, HitsOf(moments))
    decreases |moments|
  {
    if moments != [] {
      var rest := moments[1..];
      match moments[0]
      case Look(at) =>
        LookKeepsBucket(p, e, b, clock, at);
        ExpiryIsInvisible(p, Expire(e, at), b, at, rest);
      case Ask(hit) =>
        var hits := HitsOf(moments);
        assert hits[0] == hit && hits[1..] == HitsOf(rest);
        ExpiryStep(p, e, b, clock, hit);
        ExpiryIsInvisible(p, Evaluate(p, e, hit), Spend(p, b, hit), hit.now, rest);
    }
  }

  // ---------------------------------------------------------------------------
  // Refusals
  // ---------------------------------------------------------------------------

  /** Looking at a bucket on the way changes nothing: refill composes. */
  lemma LevelComposes(p: Params, b: Bucket, now: real, t: real)
    requires p.Valid() && InRange(p, b) && (b.Held? ==> b.ts <= now) && now <= t
    ensures Level(p, b, t) == Min(p.capacity, Level(p, b, now) + Accrued(p, t - now))
  {
    AccruedGrows(p, 0.0, t - now);
    if b.Held? {
      AccruedAdds(p, now - b.ts, t - now);
      AccruedGrows(p, 0.0, now - b.ts);
    }
  }

  /** Being refused costs nothing: the level at every later time is what it would have been. */
  lemma RefusalKeepsFuture(p: Params, b: Bucket, hit: Hit, t: real)
    requires p.Valid() && InRange(p, b)
    requires b.Held? ==> b.ts <= hit.now
    requires !Allows(p, b, hit) && hit.now <= t
    ensures Level(p, Spend(p, b, hit), t) == Level(p, b, t)
  {
    LevelComposes(p, b, hit.now, t);
  }

  /** A hit lowers the level at a later time exactly when it was allowed and the bucket is not
      full again by then. */
  lemma HitLowersIff(p: Params, b: Bucket, hit: Hit, t: real)
    requires p.Valid() && InRange(p, b) && hit.cost > 0.0
    requires (b.Held? ==> b.ts <= hit.now) && hit.now <= t
    ensures Level(p, Spend(p, b, hit), t) <= Level(p, b, t)
    ensures Level(p, Spend(p, b, hit), t) < Level(p, b, t)
            <==> Allows(p, b, hit) && Level(p, b, hit.now) - hit.cost + Accrued(p, t - hit.now) < p.capacity
  {
    LevelComposes(p, b, hit.now, t);
  }

  ghost predicate AllRefused(p: Params, b: Bucket, hits: seq<Hit>)
    decreases |hits|
  {
    hits == [] || (!Allows(p, b, hits[0]) && AllRefused(p, Spend(p, b, hits[0]), hits[1..]))
  }

  /** Refusals never postpone admission: after any number of refused attempts, the tokens at
      any later time, and so the moment a waiting client gets in, are unchanged. */
  lemma {:induction false} RefusalsNeverPostpone(p: Params, b: Bucket, hits: seq<Hit>, ts: real, t: real)
    requires p.Valid() && InRange(p, b) && NoNegativeCost(hits)
    requires b.Held? ==> b.ts <= ts
    requires ClockNeverDecreases(ts, hits) && AllRefused(p, b, hits)
    requires ts <= t && (hits != [] ==> hits[|hits| - 1].now <= t)
    ensures Level(p, After(p, b, hits), t) == Level(p, b, t)
    decreases |hits|
  {
    if hits != [] {
      RefusalKeepsFuture(p, b, hits[0], t);
      LevelInRange(p, b, hits[0].now);
      RefusalsNeverPostpone(p, Spend(p, b, hits[0]), hits[1..], hits[0].now, t);
    }
  }

  /** The advertised wait is exact. For a cost the bucket can ever hold, waiting that many
      seconds suffices, and no smaller whole number of seconds from one upwards does. */
  lemma RetryAfterIsExact(p: Params, b: Bucket, hit: Hit, k: int)
    requires p.Valid() && InRange(p, b)
    requires !Allows(p, b, hit) && hit.cost <= p.capacity && k >= 1
    ensures Level(p, Spend(p, b, hit), hit.now + k as real) >= hit.cost
            <==> k >= Reply(p, b, hit).retryAfter
  {
    var level := Level(p, b, hit.now);
    var short := hit.cost - level;
    LevelInRange(p, b, hit.now);
    var wait := short / p.refill;
    assert Accrued(p, wait) == short;
    assert Gained(hit.now, hit.now + k as real) == k as real;
    if k as real >= wait {
      AccruedGrows(p, wait, k as real);
    } else {
      AccruedGrows(p, k as real, wait);
    }
  }

  /** A cost above the capacity is refused at every time. */
  lemma OversizedCostNeverAdmitted(p: Params, b: Bucket, hit: Hit)
    requires p.Valid() && InRange(p, b) && hit.cost > p.capacity
    ensures !Allows(p, b, hit)
  {
    LevelInRange(p, b, hit.now);
  }
}
