/** The proof ledger as an outsider may think of it: every registered organisation has an
    administrator and a list of seals. Nothing is cached here; the head, the latest root and
    the totals are computed from the list each time. The contract's storage layout, with its
    book per organisation and one entry per seal, is in module ProofLedger and is proved to
    behave as this module says. */
module LedgerSpec {
  import opened Bytes

  /** The `prev` of a first seal, and never the root of a real one. */
  const GENESIS: Digest := Digest(
    [0, 0, 0, 0, 0, 0, 0, 0, 0, 0, 0, 0, 0, 0, 0, 0,
     0, 0, 0, 0, 0, 0, 0, 0, 0, 0, 0, 0, 0, 0, 0, 0])

  datatype Address = Address(strkey: string)

  /** What a caller submits. There is no time in it. */
  datatype Request = Request(seqNo: U32, root: Digest, prev: Digest, count: U32,
                             debits: I128, from: U64, to: U64)

  /** What the ledger stores: the request and the network's own timestamp. */
  datatype Seal = Seal(req: Request, at: U64)

  datatype Account = Account(admin: Address, chain: seq<Seal>)

  type Ledger = map<Digest, Account>

  datatype Call =
    | Register(org: Digest, admin: Address)
    | Append(org: Digest, req: Request)
    | Rotate(org: Digest, newAdmin: Address)

  /** One invocation: who signed it, what the ledger clock reads, and what is asked. */
  datatype Invocation = Invocation(signers: set<Address>, now: U64, call: Call)

  /** The eight contract errors, plus the two ways the host itself stops a call: a missing
      signature, and an arithmetic overflow (`overflow-checks` is on). */
  datatype Error =
    | AlreadyRegistered | NotRegistered | SequenceOutOfOrder | ChainBroken | EmptySeal
    | PeriodOutOfOrder | SealNotFound | RootIsSentinel
    | Unauthorised | Overflow

  datatype Result<+T> = Ok(value: T) | Err(error: Error)

  function HeadRoot(chain: seq<Seal>): Digest {
    if chain == [] then GENESIS else chain[|chain| - 1].req.root
  }

  function HeadAt(chain: seq<Seal>): U64 {
    if chain == [] then 0 else chain[|chain| - 1].at
  }

  function HeadTo(chain: seq<Seal>): U64 {
    if chain == [] then 0 else chain[|chain| - 1].req.to
  }

  function TotalCount(chain: seq<Seal>): nat {
    if chain == [] then 0 else TotalCount(chain[..|chain| - 1]) + chain[|chain| - 1].req.count
  }

  /** `r` may follow `chain`: it is the next number, it links to the latest root, it covers
      something, and its window starts where the previous one ended or later. */
  predicate Extends(chain: seq<Seal>, r: Request) {
    && r.root != GENESIS
    && r.count > 0
    && r.from <= r.to
    && r.seqNo == |chain| + 1
    && r.prev == HeadRoot(chain)
    && (chain != [] ==> HeadTo(chain) <= r.from)
  }

  /** Why an invocation is refused; `Ok` when it is accepted. The order is the contract's. */
  function Verdict(l: Ledger, inv: Invocation): Result<()> {
    match inv.call
    case Register(org, admin) =>
      if admin !in inv.signers then Err(Unauthorised)
      else if org in l then Err(AlreadyRegistered)
      else Ok(())
    case Append(org, r) =>
      if org !in l then Err(NotRegistered)
      else if l[org].admin !in inv.signers then Err(Unauthorised)
      else AppendVerdict(l[org].chain, r)
    case Rotate(org, newAdmin) =>
      if org !in l then Err(NotRegistered)
      else if l[org].admin !in inv.signers || newAdmin !in inv.signers then Err(Unauthorised)
      else Ok(())
  }

  function AppendVerdict(chain: seq<Seal>, r: Request): (v: Result<()>)
    ensures v.Ok? <==> Extends(chain, r)
  {
    if r.root == GENESIS then Err(RootIsSentinel)
    else if r.count == 0 then Err(EmptySeal)
    else if r.to < r.from then Err(PeriodOutOfOrder)
    else if |chain| >= U32_MAX then Err(Overflow)
    else if r.seqNo != |chain| + 1 then Err(SequenceOutOfOrder)
    else if r.prev != HeadRoot(chain) then Err(ChainBroken)
    else if chain != [] && r.from < HeadTo(chain) then Err(PeriodOutOfOrder)
    else Ok(())
  }

  /** One invocation. A refused one changes nothing. */
  function Next(l: Ledger, inv: Invocation): Ledger {
    if Verdict(l, inv).Err? then l else
    match inv.call
    case Register(org, admin) => l[org := Account(admin, [])]
    case Append(org, r) => l[org := l[org].(chain := l[org].chain + [Seal(r, inv.now)])]
    case Rotate(org, newAdmin) => l[org := l[org].(admin := newAdmin)]
  }

  function Run(l: Ledger, invs: seq<Invocation>): Ledger
    decreases |invs|
  {
    if invs == [] then l else Next(Run(l, invs[..|invs| - 1]), invs[|invs| - 1])
  }

  function Chain(l: Ledger, org: Digest): seq<Seal> {
    if org in l then l[org].chain else []
  }

  /** The verifier's question: does the ledger hold this root at this number? */
  predicate Verifies(l: Ledger, org: Digest, seqNo: nat, root: Digest) {
    1 <= seqNo <= |Chain(l, org)| && Chain(l, org)[seqNo - 1].req.root == root
  }

  // ---------------------------------------------------------------------------
  // What every chain keeps
  // ---------------------------------------------------------------------------

  /** No hole, no fork, no empty or sentinel seal, and windows that tile. */
  ghost predicate Linked(chain: seq<Seal>) {
    forall i | 0 <= i < |chain| :: Extends(chain[..i], chain[i].req)
  }

  ghost predicate WellFormed(l: Ledger) {
    forall org | org in l :: Linked(l[org].chain)
  }

  lemma AppendKeepsLinked(chain: seq<Seal>, s: Seal)
    requires Linked(chain) && Extends(chain, s.req)
    ensures Linked(chain + [s])
  {
    var longer := chain + [s];
    forall i | 0 <= i < |longer| ensures Extends(longer[..i], longer[i].req) {
      assert longer[..i] == chain[..i];
      assert chain[..|chain|] == chain;
    }
  }

  lemma NextKeepsWellFormed(l: Ledger, inv: Invocation)
    requires WellFormed(l)
    ensures WellFormed(Next(l, inv))
  {
    if inv.call.Append? && Verdict(l, inv).Ok? {
      AppendKeepsLinked(l[inv.call.org].chain, Seal(inv.call.req, inv.now));
    }
  }

  /** Every reachable ledger is well formed: the chain of every organisation is numbered
      1, 2, 3, ... without a hole, links back to the genesis value, and tiles forwards. */
  lemma {:induction false} RunKeepsWellFormed(l: Ledger, invs: seq<Invocation>)
    requires WellFormed(l)
    ensures WellFormed(Run(l, invs))
    decreases |invs|
  {
    if invs != [] {
      RunKeepsWellFormed(l, invs[..|invs| - 1]);
      NextKeepsWellFormed(Run(l, invs[..|invs| - 1]), invs[|invs| - 1]);
    }
  }

  /** The lifetime entry count fits its 64 bits with room to spare. */
  lemma {:induction false} TotalCountBound(chain: seq<Seal>)
    ensures TotalCount(chain) <= |chain| * U32_MAX
    decreases |chain|
  {
    if chain != [] {
      TotalCountBound(chain[..|chain| - 1]);
    }
  }

  lemma ReachableCountNeverOverflows(l: Ledger, org: Digest)
    requires WellFormed(l) && org in l
    ensures |l[org].chain| <= U32_MAX
    ensures TotalCount(l[org].chain) <= |l[org].chain| * U32_MAX < U64_MAX
  {
    var chain := l[org].chain;
    if chain != [] {
      assert Extends(chain[..|chain| - 1], chain[|chain| - 1].req);
    }
    TotalCountBound(chain);
    assert |chain| * U32_MAX <= U32_MAX * U32_MAX;
  }
}
