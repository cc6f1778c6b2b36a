/** The rate-limit middleware: every request spends from two shared buckets, one for its tier
    and caller and one for its source address, and needs room in both. */
module RateLimit {
  import opened TokenBucket

  // ---------------------------------------------------------------------------
  // Budgets, scopes and keys
  // ---------------------------------------------------------------------------

  /** "count/period": the count is both the bucket size and the allowance per period. */
  datatype Budget = Budget(capacity: nat, periodSeconds: nat) {
    predicate Valid() {
      capacity >= 1 && periodSeconds >= 1
    }

    function Params(): (p: Params)
      requires Valid()
      ensures p.Valid()
    {
      TokenBucket.Params(capacity as real, capacity as real / periodSeconds as real)
    }
  }

  datatype Tier = Exempt | Auth | AuthStrict | Read | Write | Upload | Export | Default

  function TierScope(t: Tier): string {
    match t
    case Exempt => "exempt"
    case Auth => "auth"
    case AuthStrict => "auth-strict"
    case Read => "read"
    case Write => "write"
    case Upload => "upload"
    case Export => "export"
    case Default => "default"
  }

  /** The bucket of a tier and a caller, or the bucket of a source address. */
  datatype BucketId = TierBucket(tier: Tier, identity: string) | IpBucket(source: string)

  function Scope(id: BucketId): string {
    match id
    case TierBucket(tier, _) => TierScope(tier)
    case IpBucket(_) => "ip"
  }

  function Name(id: BucketId): string {
    match id
    case TierBucket(_, identity) => identity
    case IpBucket(source) => source
  }

  function Key(id: BucketId): string {
    "stellarerp:rlb:" + (Scope(id) + (":" + Name(id)))
  }

  lemma ScopesHoldNoColon(id: BucketId)
    ensures ':' !in Scope(id)
  {
  }

  lemma ScopesTellKinds(a: BucketId, b: BucketId)
    requires Scope(a) == Scope(b)
    ensures a.TierBucket? <==> b.TierBucket?
    ensures a.TierBucket? ==> a.tier == b.tier
  {
    assert |Scope(a)| == |Scope(b)|;
    assert Scope(a)[0] == Scope(b)[0] && Scope(a)[1] == Scope(b)[1];
  }

  /** The part before the first colon and the part after it can be told apart. */
  lemma FirstColonSplits(s: string, t: string, x: string, y: string)
    requires ':' !in s && ':' !in t
    requires s + (":" + x) == t + (":" + y)
    ensures s == t && x == y
  {
    var u, v := s + (":" + x), t + (":" + y);
    assert u[|s|] == ':' && v[|t|] == ':';
    assert |s| == |t|;
    assert u[..|s|] == s && v[..|t|] == t;
    assert u[|s| + 1..] == x && v[|t| + 1..] == y;
  }

  /** Distinct buckets never share a key. */
  lemma KeysAreDistinct(a: BucketId, b: BucketId)
    requires Key(a) == Key(b)
    ensures a == b
  {
    var prefix := "stellarerp:rlb:";
    assert Key(a)[|prefix|..] == Scope(a) + (":" + Name(a));
    assert Key(b)[|prefix|..] == Scope(b) + (":" + Name(b));
    ScopesHoldNoColon(a);
    ScopesHoldNoColon(b);
    FirstColonSplits(Scope(a), Scope(b), Name(a), Name(b));
    ScopesTellKinds(a, b);
  }

  // ---------------------------------------------------------------------------
  // The two-bucket decision
  // ---------------------------------------------------------------------------

  datatype Config = Config(tiers: map<Tier, Budget>, ip: Budget) {
    ghost predicate Valid() {
      && ip.Valid()
      && forall t: Tier | t != Exempt :: t in tiers && tiers[t].Valid()
    }

    function BudgetOf(id: BucketId): (b: Budget)
      requires Valid() && id != TierBucket(Exempt, Name(id))
      ensures b.Valid()
    {
      match id
      case TierBucket(tier, _) => tiers[tier]
      case IpBucket(_) => ip
    }
  }

  datatype Request = Request(tier: Tier, identity: string, source: string, now: real)

  type Store = map<string, Entry>

  function At(store: Store, key: string): Entry {
    if key in store then store[key] else Missing
  }

  predicate Limited(id: BucketId) {
    id.TierBucket? ==> id.tier != Exempt
  }

  function Touch(cfg: Config, store: Store, id: BucketId, now: real): Store
    requires cfg.Valid() && Limited(id)
  {
    store[Key(id) := Evaluate(cfg.BudgetOf(id).Params(), At(store, Key(id)), Hit(now, 1.0))]
  }

  /** Whether the bucket has room for one more at this instant. */
  predicate HasRoom(cfg: Config, store: Store, id: BucketId, now: real)
    requires cfg.Valid() && Limited(id)
  {
    Allows(cfg.BudgetOf(id).Params(), Visible(At(store, Key(id)), now), Hit(now, 1.0))
  }

  /** Redis deletes the keys that have expired. */
  function Purge(store: Store, now: real): Store {
    map key | key in store && Expire(store[key], now).Stored? :: store[key]
  }

  lemma PurgeExpires(store: Store, now: real, key: string)
    ensures At(Purge(store, now), key) == Expire(At(store, key), now)
  {
  }

  /** Both buckets are charged, the second also when the first has already refused. */
  function Charge(cfg: Config, store: Store, r: Request): Store
    requires cfg.Valid()
  {
    if r.tier == Exempt then store
    else
      var kept := Purge(store, r.now);
      Touch(cfg, Touch(cfg, kept, TierBucket(r.tier, r.identity), r.now), IpBucket(r.source), r.now)
  }

  predicate Passes(cfg: Config, store: Store, r: Request)
    requires cfg.Valid()
  {
    r.tier == Exempt
    || (&& HasRoom(cfg, store, TierBucket(r.tier, r.identity), r.now)
        && HasRoom(cfg, store, IpBucket(r.source), r.now))
  }

  /** Every bucket holds what the script may have left there. */
  ghost predicate EntryOk(cfg: Config, store: Store, id: BucketId)
    requires cfg.Valid() && Limited(id)
  {
    Written(cfg.BudgetOf(id).Params(), At(store, Key(id)))
  }

  ghost predicate StoreOk(cfg: Config, store: Store)
    requires cfg.Valid()
  {
    forall id: BucketId | Limited(id) :: EntryOk(cfg, store, id)
  }

  /** Touching one bucket leaves every other as it was. */
  lemma OtherBucketsUntouched(cfg: Config, store: Store, id: BucketId, now: real, other: BucketId)
    requires cfg.Valid() && Limited(id)
    ensures id != other ==> At(Touch(cfg, store, id, now), Key(other)) == At(store, Key(other))
  {
    if Key(id) == Key(other) {
      KeysAreDistinct(id, other);
    }
  }

  lemma TouchKeepsEntryOk(cfg: Config, store: Store, id: BucketId, now: real, other: BucketId)
    requires cfg.Valid() && Limited(id) && Limited(other)
    requires EntryOk(cfg, store, id) && EntryOk(cfg, store, other)
    ensures EntryOk(cfg, Touch(cfg, store, id, now), other)
  {
    OtherBucketsUntouched(cfg, store, id, now, other);
    LevelInRange(cfg.BudgetOf(id).Params(), Visible(At(store, Key(id)), now), now);
  }

  lemma ChargeKeepsStoreOk(cfg: Config, store: Store, r: Request)
    requires cfg.Valid() && StoreOk(cfg, store)
    ensures StoreOk(cfg, Charge(cfg, store, r))
  {
    if r.tier != Exempt {
      var first, second := TierBucket(r.tier, r.identity), IpBucket(r.source);
      var kept := Purge(store, r.now);
      forall id: BucketId | Limited(id) ensures EntryOk(cfg, Charge(cfg, store, r), id) {
        PurgeKeepsEntryOk(cfg, store, r.now, first);
        PurgeKeepsEntryOk(cfg, store, r.now, second);
        PurgeKeepsEntryOk(cfg, store, r.now, id);
        TouchKeepsEntryOk(cfg, kept, first, r.now, second);
        TouchKeepsEntryOk(cfg, kept, first, r.now, id);
        TouchKeepsEntryOk(cfg, Touch(cfg, kept, first, r.now), second, r.now, id);
      }
    }
  }

  lemma PurgeKeepsEntryOk(cfg: Config, store: Store, now: real, id: BucketId)
    requires cfg.Valid() && StoreOk(cfg, store) && Limited(id)
    ensures EntryOk(cfg, Purge(store, now), id)
    ensures HasRoom(cfg, Purge(store, now), id, now) <==> HasRoom(cfg, store, id, now)
  {
    assert EntryOk(cfg, store, id);
    PurgeExpires(store, now, Key(id));
  }

  // ---------------------------------------------------------------------------
  // The middleware
  // ---------------------------------------------------------------------------

  datatype Decision = Decision(allowed: bool, remaining: int, retryAfter: int, limit: nat)

  datatype Outcome = Proceed(limit: nat, remaining: int) | Unlimited | TooMany(limit: nat, retryAfter: int)

  /** There is room `k` seconds from `now` if nothing else is spent. */
  predicate HasRoomIn(cfg: Config, store: Store, id: BucketId, now: real, k: int)
    requires cfg.Valid() && Limited(id)
  {
    HasRoom(cfg, store, id, now + k as real)
  }

  function ReplyOf(cfg: Config, store: Store, id: BucketId, now: real): Answer
    requires cfg.Valid() && Limited(id)
  {
    Reply(cfg.BudgetOf(id).Params(), Visible(At(store, Key(id)), now), Hit(now, 1.0))
  }

  /** The advertised wait is exact for the bucket, expiry of its key included. */
  lemma WaitIsExact(cfg: Config, store: Store, id: BucketId, now: real, k: int)
    requires cfg.Valid() && Limited(id) && EntryOk(cfg, store, id)
    requires !HasRoom(cfg, store, id, now) && k >= 1
    ensures HasRoomIn(cfg, Touch(cfg, store, id, now), id, now, k) <==> k >= ReplyOf(cfg, store, id, now).retryAfter
  {
    var p, b, hit := cfg.BudgetOf(id).Params(), Visible(At(store, Key(id)), now), Hit(now, 1.0);
    RetryAfterIsExact(p, b, hit, k);
    LevelInRange(p, b, now);
    if now + k as real >= now + Ttl(p) as real {
      FullWhenDropped(p, Spend(p, b, hit), now + k as real);
    }
  }

  /** The Redis side and the middleware in front of it. */
  class Limiter {
    const cfg: Config
    var entries: Store

    ghost predicate Valid()
      reads this
    {
      cfg.Valid() && StoreOk(cfg, entries)
    }

    constructor (cfg: Config)
      ensures this.cfg == cfg && entries == map[]
      ensures cfg.Valid() ==> Valid()
    {
      this.cfg := cfg;
      entries := map[];
    }

    /** The bucket script followed by `RateLimiter.check`. */
    method Check(id: BucketId, now: real) returns (d: Decision)
      requires cfg.Valid() && Limited(id)
      modifies this`entries
      ensures entries == Touch(cfg, old(entries), id, now)
      ensures d.allowed <==> HasRoom(cfg, old(entries), id, now)
      ensures d.limit == cfg.BudgetOf(id).capacity
      ensures var a := ReplyOf(cfg, old(entries), id, now);
              d.remaining == (if a.remaining < 0 then 0 else a.remaining) && d.retryAfter == a.retryAfter
    {
      var budget := cfg.BudgetOf(id);
      var next, answer := BucketScript(budget.Params(), Visible(At(entries, Key(id)), now), Hit(now, 1.0));
      var expiresAt := now + Ttl(budget.Params()) as real;
      entries := entries[Key(id) := Stored(next, expiresAt)];
      d := Decision(answer.allowed, if answer.remaining < 0 then 0 else answer.remaining,
        answer.retryAfter, budget.capacity);
    }

    /** A refusal names the limit of the bucket that decided and the least whole number of seconds
        after which that bucket has room; a response names the tier's limit and what the tier's
        bucket has left. */
    method Dispatch(r: Request) returns (o: Outcome)
      requires Valid()
      modifies this`entries
      ensures Valid() && entries == Charge(cfg, old(entries), r)
      ensures o.Unlimited? <==> r.tier == Exempt
      ensures !o.TooMany? <==> Passes(cfg, old(entries), r)
      ensures o.TooMany? ==>
        var tier := TierBucket(r.tier, r.identity);
        var id := if HasRoom(cfg, old(entries), tier, r.now) then IpBucket(r.source) else tier;
        && !HasRoom(cfg, old(entries), id, r.now)
        && o.limit == cfg.BudgetOf(id).capacity && o.retryAfter >= 1
        && forall k: int | k >= 1 :: HasRoomIn(cfg, entries, id, r.now, k) <==> k >= o.retryAfter
      ensures o.Proceed? ==>
        var id := TierBucket(r.tier, r.identity);
        && o.limit == cfg.BudgetOf(id).capacity
        && Kept(At(entries, Key(id))).Held?
        && o.remaining == Kept(At(entries, Key(id))).tokens.Floor
    {
      if r.tier == Exempt {
        return Unlimited;
      }
      ghost var before := entries;
      ChargeKeepsStoreOk(cfg, before, r);
      DispatchFacts(cfg, before, r);
      entries := Purge(entries, r.now);
      var tierDecision := Check(TierBucket(r.tier, r.identity), r.now);
      var ipDecision := Check(IpBucket(r.source), r.now);
      var decision := if !tierDecision.allowed then tierDecision else ipDecision;
      if !decision.allowed {
        return TooMany(decision.limit, decision.retryAfter);
      }
      o := Proceed(tierDecision.limit, tierDecision.remaining);
    }
  }

  /** What the two checks of a request find, and what they leave. */
  lemma DispatchFacts(cfg: Config, store: Store, r: Request)
    requires cfg.Valid() && StoreOk(cfg, store) && r.tier != Exempt
    ensures
      var tier, ip, kept := TierBucket(r.tier, r.identity), IpBucket(r.source), Purge(store, r.now);
      var mid, end := Touch(cfg, kept, tier, r.now), Charge(cfg, store, r);
      && (HasRoom(cfg, kept, tier, r.now) <==> HasRoom(cfg, store, tier, r.now))
      && (HasRoom(cfg, mid, ip, r.now) <==> HasRoom(cfg, store, ip, r.now))
      && (!HasRoom(cfg, store, tier, r.now) ==> WaitFits(cfg, end, tier, r.now, ReplyOf(cfg, kept, tier, r.now).retryAfter))
      && (!HasRoom(cfg, store, ip, r.now) ==> WaitFits(cfg, end, ip, r.now, ReplyOf(cfg, mid, ip, r.now).retryAfter))
      && (HasRoom(cfg, store, tier, r.now) ==>
            LeftIs(At(end, Key(tier)), ReplyOf(cfg, kept, tier, r.now).remaining))
  {
    var tier, ip, kept := TierBucket(r.tier, r.identity), IpBucket(r.source), Purge(store, r.now);
    var mid, end := Touch(cfg, kept, tier, r.now), Charge(cfg, store, r);
    PurgeKeepsEntryOk(cfg, store, r.now, tier);
    PurgeKeepsEntryOk(cfg, store, r.now, ip);
    OtherBucketsUntouched(cfg, kept, tier, r.now, ip);
    OtherBucketsUntouched(cfg, mid, ip, r.now, tier);
    TouchKeepsEntryOk(cfg, kept, tier, r.now, ip);
    if !HasRoom(cfg, store, tier, r.now) {
      WaitFitsAfterTouch(cfg, kept, tier, r.now, end);
    } else {
      LevelInRange(cfg.BudgetOf(tier).Params(), Visible(At(kept, Key(tier)), r.now), r.now);
    }
    if !HasRoom(cfg, store, ip, r.now) {
      WaitFitsAfterTouch(cfg, mid, ip, r.now, end);
    }
  }

  ghost predicate WaitFits(cfg: Config, store: Store, id: BucketId, now: real, wait: int)
    requires cfg.Valid() && Limited(id)
  {
    wait >= 1 && forall k: int | k >= 1 :: HasRoomIn(cfg, store, id, now, k) <==> k >= wait
  }

  predicate LeftIs(e: Entry, remaining: int) {
    Kept(e).Held? && remaining >= 0 && remaining == Kept(e).tokens.Floor
  }

  lemma WaitFitsAfterTouch(cfg: Config, store: Store, id: BucketId, now: real, end: Store)
    requires cfg.Valid() && Limited(id) && EntryOk(cfg, store, id) && !HasRoom(cfg, store, id, now)
    requires At(end, Key(id)) == At(Touch(cfg, store, id, now), Key(id))
    ensures WaitFits(cfg, end, id, now, ReplyOf(cfg, store, id, now).retryAfter)
  {
    forall k: int | k >= 1
      ensures HasRoomIn(cfg, end, id, now, k) <==> k >= ReplyOf(cfg, store, id, now).retryAfter
    {
      WaitIsExact(cfg, store, id, now, k);
    }
  }
}
