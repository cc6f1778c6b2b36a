/** The Soroban contract itself: two persistent maps, one book per organisation and one entry
    per (organisation, number). A book caches what the chain already says. Every method is
    proved to do to the abstract ledger exactly what LedgerSpec says, and to keep the cache
    equal to a full scan of the stored seals. */
module ProofLedger {
  import opened Bytes
  import opened LedgerSpec
  import LedgerHistory
  import opened Sums

  datatype Book = Book(admin: Address, head: U32, root: Digest,
                       sealedAt: U64, coveredTo: U64, entries: U64)

  datatype Env = Env(signers: set<Address>, now: U64)

  type Books = map<Digest, Book>
  datatype SealKey = SealKey(org: Digest, number: nat)
  type Seals = map<SealKey, Seal>

  predicate StoredAt(seals: Seals, key: SealKey, s: Seal) {
    key in seals && seals[key] == s
  }

  /** Storage holds `chain` as the seals of `org`, from number 1 upwards. */
  ghost predicate Stores(seals: Seals, org: Digest, chain: seq<Seal>) {
    forall n | 1 <= n <= |chain| :: StoredAt(seals, SealKey(org, n), chain[n - 1])
  }

  /** The book says what a full scan of the chain would compute. */
  ghost predicate CacheAgrees(b: Book, chain: seq<Seal>) {
    && b.head == |chain|
    && b.root == HeadRoot(chain)
    && b.sealedAt == HeadAt(chain)
    && b.coveredTo == HeadTo(chain)
    && b.entries == TotalCount(chain)
  }

  function CountOf(): Seal -> int {
    (s: Seal) => s.req.count
  }

  lemma {:induction false} TotalCountIsSum(chain: seq<Seal>)
    ensures TotalCount(chain) == SumOf(CountOf(), chain)
    decreases |chain|
  {
    if chain != [] {
      TotalCountIsSum(chain[..|chain| - 1]);
    }
  }

  /** Field by field: how many seals, the newest one's root, stamp and window end, and the sum of
      all counts; nothing but the genesis value and zeros for an empty book. */
  lemma BookSaysNewest(b: Book, chain: seq<Seal>)
    requires CacheAgrees(b, chain)
    ensures b.head == |chain| && b.entries == SumOf(CountOf(), chain)
    ensures chain == [] ==> b.root == GENESIS && b.sealedAt == 0 && b.coveredTo == 0
    ensures chain != [] ==>
              var s := chain[|chain| - 1];
              b.root == s.req.root && b.sealedAt == s.at && b.coveredTo == s.req.to
  {
    TotalCountIsSum(chain);
  }

  ghost predicate BookOf(b: Book, seals: Seals, org: Digest, a: Account) {
    && b.admin == a.admin
    && Stores(seals, org, a.chain)
    && CacheAgrees(b, a.chain)
  }

  /** The two maps are the ledger `l`: a correct book and a complete chain for everyone in it,
      and not one seal besides. */
  ghost predicate Represents(books: Books, seals: Seals, l: Ledger) {
    && books.Keys == l.Keys
    && (forall org | org in l :: BookOf(books[org], seals, org, l[org]))
    && (forall key | key in seals :: key.org in l && 1 <= key.number <= |l[key.org].chain|)
  }

  /** Storage determines the ledger it represents, so the view below is a function of it. */
  lemma ViewIsUnique(books: Books, seals: Seals, l: Ledger, m: Ledger)
    requires Represents(books, seals, l) && Represents(books, seals, m)
    ensures l == m
  {
    forall org | org in l ensures l[org] == m[org] {
      assert BookOf(books[org], seals, org, l[org]) && BookOf(books[org], seals, org, m[org]);
      var c, d := l[org].chain, m[org].chain;
      forall i | 0 <= i < |c| ensures c[i] == d[i] {
        assert StoredAt(seals, SealKey(org, i + 1), c[i + 1 - 1]);
        assert StoredAt(seals, SealKey(org, i + 1), d[i + 1 - 1]);
      }
    }
  }

  lemma RegisterRepresents(books: Books, seals: Seals, l: Ledger, org: Digest, admin: Address)
    requires Represents(books, seals, l) && org !in l
    ensures Represents(books[org := Book(admin, 0, GENESIS, 0, 0, 0)], seals, l[org := Account(admin, [])])
  {
    var books', l' := books[org := Book(admin, 0, GENESIS, 0, 0, 0)], l[org := Account(admin, [])];
    forall o | o in l' ensures BookOf(books'[o], seals, o, l'[o]) {
      assert o != org ==> BookOf(books[o], seals, o, l[o]);
    }
  }

  lemma RotateRepresents(books: Books, seals: Seals, l: Ledger, org: Digest, admin: Address)
    requires Represents(books, seals, l) && org in l
    ensures Represents(books[org := books[org].(admin := admin)], seals, l[org := l[org].(admin := admin)])
  {
    var books', l' := books[org := books[org].(admin := admin)], l[org := l[org].(admin := admin)];
    forall o | o in l' ensures BookOf(books'[o], seals, o, l'[o]) {
      assert BookOf(books[o], seals, o, l[o]);
    }
  }

  lemma AppendTotals(chain: seq<Seal>, s: Seal)
    ensures TotalCount(chain + [s]) == TotalCount(chain) + s.req.count
  {
    assert (chain + [s])[..|chain|] == chain;
  }

  /** Writing the new seal and the updated book represents the ledger whose chain of `org` is
      one longer; the seal overwrites nothing. */
  lemma AppendRepresents(books: Books, seals: Seals, l: Ledger, org: Digest, s: Seal, b: Book)
    requires Represents(books, seals, l) && org in l
    requires s.req.seqNo == |l[org].chain| + 1
    requires b == Book(l[org].admin, s.req.seqNo, s.req.root, s.at, s.req.to, b.entries)
    requires b.entries == books[org].entries + s.req.count
    ensures SealKey(org, s.req.seqNo) !in seals
    ensures Represents(books[org := b], seals[SealKey(org, s.req.seqNo) := s],
                       l[org := Account(b.admin, l[org].chain + [s])])
  {
    var chain := l[org].chain + [s];
    var books', seals' := books[org := b], seals[SealKey(org, s.req.seqNo) := s];
    var l' := l[org := Account(b.admin, chain)];
    assert BookOf(books[org], seals, org, l[org]);
    AppendTotals(l[org].chain, s);
    AppendStores(seals, org, l[org].chain, s);
    forall o | o in l' ensures BookOf(books'[o], seals', o, l'[o]) {
      if o != org {
        assert BookOf(books[o], seals, o, l[o]);
        OtherStoresStay(seals, o, l[o].chain, SealKey(org, s.req.seqNo), s);
      }
    }
  }

  lemma AppendStores(seals: Seals, org: Digest, chain: seq<Seal>, s: Seal)
    requires Stores(seals, org, chain)
    ensures Stores(seals[SealKey(org, |chain| + 1) := s], org, chain + [s])
  {
  }

  lemma OtherStoresStay(seals: Seals, org: Digest, chain: seq<Seal>, key: SealKey, s: Seal)
    requires Stores(seals, org, chain) && key.org != org
    ensures Stores(seals[key := s], org, chain)
  {
  }

  /** The 64-bit sum cannot overflow: fewer than 2^32 seals of fewer than 2^32 entries. */
  lemma EntriesFit(b: Book, chain: seq<Seal>, req: Request)
    requires CacheAgrees(b, chain) && AppendVerdict(chain, req).Ok?
    ensures b.entries + req.count <= U64_MAX
  {
    TotalCountBound(chain);
  }

  /** An accepted append, in storage and in the ledger. */
  lemma AppendStep(books: Books, seals: Seals, l: Ledger, env: Env, org: Digest, s: Seal, b: Book)
    requires Represents(books, seals, l) && WellFormed(l) && org in l && l[org].admin in env.signers
    requires AppendVerdict(l[org].chain, s.req).Ok? && s.at == env.now
    requires b == Book(books[org].admin, s.req.seqNo, s.req.root, s.at, s.req.to, b.entries)
    requires b.entries == books[org].entries + s.req.count
    ensures var l' := Next(l, Invocation(env.signers, env.now, Call.Append(org, s.req)));
            WellFormed(l') && Represents(books[org := b], seals[SealKey(org, s.req.seqNo) := s], l')
  {
    assert BookOf(books[org], seals, org, l[org]);
    AppendRepresents(books, seals, l, org, s, b);
    var inv := Invocation(env.signers, env.now, Call.Append(org, s.req));
    NextKeepsWellFormed(l, inv);
    assert Next(l, inv) == l[org := Account(b.admin, l[org].chain + [s])];
  }

  lemma RegisterStep(books: Books, seals: Seals, l: Ledger, env: Env, org: Digest, admin: Address)
    requires Represents(books, seals, l) && WellFormed(l) && org !in l && admin in env.signers
    ensures var l' := Next(l, Invocation(env.signers, env.now, Call.Register(org, admin)));
            WellFormed(l') && Represents(books[org := Book(admin, 0, GENESIS, 0, 0, 0)], seals, l')
  {
    RegisterRepresents(books, seals, l, org, admin);
    NextKeepsWellFormed(l, Invocation(env.signers, env.now, Call.Register(org, admin)));
  }

  class Contract {
    var books: Books
    var seals: Seals
    ghost var view: Ledger

    ghost predicate Valid()
      reads this
    {
      Represents(books, seals, view) && WellFormed(view)
    }

    constructor ()
      ensures Valid() && view == map[]
    {
      books, seals, view := map[], map[], map[];
    }

    /** The writes that end a call. */
    method Store(books': Books, seals': Seals, ghost after: Ledger)
      requires Represents(books', seals', after) && WellFormed(after)
      modifies this
      ensures Valid() && books == books' && seals == seals' && view == after
    {
      books, seals, view := books', seals', after;
    }

    method Register(env: Env, org: Digest, admin: Address) returns (r: Result<Book>)
      requires Valid()
      modifies this
      ensures Valid()
      ensures view == Next(old(view), Invocation(env.signers, env.now, Call.Register(org, admin)))
      ensures seals == old(seals) && (r.Err? ==> books == old(books))
      ensures var v := Verdict(old(view), Invocation(env.signers, env.now, Call.Register(org, admin)));
              if v.Ok? then org in books && r == Ok(books[org]) else r == Err(v.error)
    {
      ghost var inv := Invocation(env.signers, env.now, Call.Register(org, admin));
      if admin !in env.signers {
        return Err(Unauthorised);
      }
      if org in books {
        return Err(AlreadyRegistered);
      }
      var book := Book(admin, 0, GENESIS, 0, 0, 0);
      RegisterStep(books, seals, view, env, org, admin);
      Store(books[org := book], seals, Next(view, inv));
      r := Ok(book);
    }

    /** The checks of an append, in the contract's order and from the book alone. The answer is
        the one a scan of the whole chain behind the book would give. */
    static method CheckAppend(book: Book, req: Request) returns (r: Result<()>)
      ensures forall chain | CacheAgrees(book, chain) :: r == AppendVerdict(chain, req)
    {
      if req.root == GENESIS {
        return Err(RootIsSentinel);
      }
      if req.count == 0 {
        return Err(EmptySeal);
      }
      if req.to < req.from {
        return Err(PeriodOutOfOrder);
      }
      if book.head == U32_MAX {
        return Err(Overflow);
      }
      if req.seqNo != book.head + 1 {
        return Err(SequenceOutOfOrder);
      }
      if req.prev != book.root {
        return Err(ChainBroken);
      }
      if book.head > 0 && req.from < book.coveredTo {
        return Err(PeriodOutOfOrder);
      }
      r := Ok(());
    }

    method Append(env: Env, org: Digest, req: Request) returns (r: Result<Seal>)
      requires Valid()
      modifies this
      ensures Valid()
      ensures view == Next(old(view), Invocation(env.signers, env.now, Call.Append(org, req)))
      ensures r.Err? ==> books == old(books) && seals == old(seals)
      ensures var v := Verdict(old(view), Invocation(env.signers, env.now, Call.Append(org, req)));
              r == if v.Ok? then Ok(Seal(req, env.now)) else Err(v.error)
    {
      ghost var inv := Invocation(env.signers, env.now, Call.Append(org, req));
      if org !in books {
        return Err(NotRegistered);
      }
      var book := books[org];
      assert BookOf(book, seals, org, view[org]);
      if book.admin !in env.signers {
        return Err(Unauthorised);
      }
      var check := CheckAppend(book, req);
      if check.Err? {
        return Err(check.error);
      }
      var entry := Seal(req, env.now);
      EntriesFit(book, view[org].chain, req);
      var updated := Book(book.admin, req.seqNo, req.root, entry.at, req.to, book.entries + req.count);
      AppendStep(books, seals, view, env, org, entry, updated);
      Store(books[org := updated], seals[SealKey(org, req.seqNo) := entry], Next(view, inv));
      r := Ok(entry);
    }

    method Rotate(env: Env, org: Digest, newAdmin: Address) returns (r: Result<Book>)
      requires Valid()
      modifies this
      ensures Valid()
      ensures view == Next(old(view), Invocation(env.signers, env.now, Call.Rotate(org, newAdmin)))
      ensures seals == old(seals) && (r.Err? ==> books == old(books))
      ensures var v := Verdict(old(view), Invocation(env.signers, env.now, Call.Rotate(org, newAdmin)));
              if v.Ok? then org in books && r == Ok(books[org]) else r == Err(v.error)
    {
      ghost var inv := Invocation(env.signers, env.now, Call.Rotate(org, newAdmin));
      if org !in books {
        return Err(NotRegistered);
      }
      var book := books[org];
      assert BookOf(book, seals, org, view[org]);
      if book.admin !in env.signers || newAdmin !in env.signers {
        return Err(Unauthorised);
      }
      RotateRepresents(books, seals, view, org, newAdmin);
      NextKeepsWellFormed(view, inv);
      Store(books[org := book.(admin := newAdmin)], seals, Next(view, inv));
      r := Ok(books[org]);
    }

    method Get(org: Digest, seqNo: U32) returns (r: Result<Seal>)
      requires Valid()
      ensures 1 <= seqNo <= |Chain(view, org)| ==> r == Ok(Chain(view, org)[seqNo - 1])
      ensures !(1 <= seqNo <= |Chain(view, org)|) ==> r == Err(SealNotFound)
    {
      assert org in books ==> BookOf(books[org], seals, org, view[org]);
      if SealKey(org, seqNo) in seals {
        r := Ok(seals[SealKey(org, seqNo)]);
      } else {
        r := Err(SealNotFound);
      }
    }

    /** The cached head is the head of the stored chain, and the cached totals its totals. */
    method Latest(org: Digest) returns (r: Result<Book>)
      requires Valid()
      ensures org !in view ==> r == Err(NotRegistered)
      ensures org in view ==>
        r.Ok? && r.value.admin == view[org].admin && CacheAgrees(r.value, view[org].chain)
    {
      if org in books {
        assert BookOf(books[org], seals, org, view[org]);
        r := Ok(books[org]);
      } else {
        r := Err(NotRegistered);
      }
    }

    method IsRegistered(org: Digest) returns (registered: bool)
      requires Valid()
      ensures registered <==> org in view
    {
      registered := org in books;
    }

    method Verify(org: Digest, seqNo: U32, root: Digest) returns (ok: bool)
      requires Valid()
      ensures ok <==> Verifies(view, org, seqNo, root)
    {
      assert org in books ==> BookOf(books[org], seals, org, view[org]);
      if SealKey(org, seqNo) in seals {
        ok := seals[SealKey(org, seqNo)].req.root == root;
      } else {
        ok := false;
      }
    }

    /** The loop skips numbers with no stored seal; in every reachable state there are none, so
        the page is the unbroken stretch of the chain that LedgerHistory describes. */
    /** The loop of `history`: seals from number `start` downwards, at most `take` of them. */
    method CollectDown(org: Digest, start: nat, take: nat, ghost chain: seq<Seal>) returns (out: seq<Seal>)
      requires Stores(seals, org, chain) && start <= |chain|
      ensures |out| == (if take <= start then take else start) && LedgerHistory.Downward(out, chain, start)
    {
      out := [];
      var number: nat := start;
      while number > 0 && |out| < take
        invariant |out| + number == start
        invariant |out| <= take
        invariant LedgerHistory.Downward(out, chain, start)
      {
        assert StoredAt(seals, SealKey(org, number), chain[number - 1]);
        LedgerHistory.DownwardGrows(out, chain, start);
        if SealKey(org, number) in seals {
          out := out + [seals[SealKey(org, number)]];
        }
        number := number - 1;
      }
    }

    method History(org: Digest, beforeSeq: U32, limit: U32) returns (r: Result<seq<Seal>>)
      requires Valid()
      ensures org !in view ==> r == Err(NotRegistered)
      ensures org in view ==> r == Ok(LedgerHistory.Page(view[org].chain, beforeSeq, limit))
    {
      if org !in books {
        return Err(NotRegistered);
      }
      var book := books[org];
      assert BookOf(book, seals, org, view[org]);
      var start := if beforeSeq == 0 || beforeSeq > book.head then book.head else beforeSeq;
      var take := if limit == 0 || limit > LedgerHistory.MAX_PAGE then LedgerHistory.MAX_PAGE else limit;
      var out := CollectDown(org, start, take, view[org].chain);
      LedgerHistory.DownwardIsPage(out, view[org].chain, beforeSeq, limit);
      r := Ok(out);
    }
  }
}
