/** What an error report still says once its secrets are taken out. */
module Scrub {
  // ---------------------------------------------------------------------------
  // Reports
  // ---------------------------------------------------------------------------

  datatype Key = Text(text: string) | Other(id: int)
  datatype Atom = Str(text: string) | Opaque(id: int)

  datatype Entry = Entry(key: Key, value: Value)

  /** A finished report, which is always a finite tree. */
  datatype Value =
    | Leaf(atom: Atom)
    | Dict(entries: seq<Entry>)
    | Series(isTuple: bool, items: seq<Value>)   // a list or a tuple

  const REDACTED: Value := Leaf(Str("[redacted]"))
  const DEEPEST: nat := 12

  const SECRET_KEYS: set<string> := {
    "password", "new_password", "current_password", "password_hash", "token", "access_token",
    "refresh_token", "token_hash", "totp_secret", "secret", "secret_key", "recovery_codes",
    "api_key", "client_secret", "encryption_key", "authorization", "cookie", "set-cookie",
    "signer_secret", "signer_secret_encrypted", "attestation_namespace_salt",
    "account_number", "account_number_encrypted", "card_number", "pan" }

  /** Lower-casing is the host language's own and is taken as given. */
  type Lower = string -> string

  predicate Secret(lower: Lower, key: Key) {
    key.Text? && lower(key.text) in SECRET_KEYS
  }

  function Scrub(lower: Lower, v: Value, depth: nat): Value
    decreases DEEPEST + 1 - depth
  {
    if depth > DEEPEST then REDACTED
    else match v
      case Dict(es) => Dict(seq(|es|, i requires 0 <= i < |es| =>
          Entry(es[i].key, if Secret(lower, es[i].key) then REDACTED else Scrub(lower, es[i].value, depth + 1))))
      case Series(t, xs) => Series(t, seq(|xs|, i requires 0 <= i < |xs| => Scrub(lower, xs[i], depth + 1)))
      case Leaf(_) => v
  }

  // ---------------------------------------------------------------------------
  // What comes out
  // ---------------------------------------------------------------------------

  /** No secret key holds anything, however deep it lies. */
  predicate Clean(lower: Lower, v: Value) {
    match v
    case Leaf(_) => true
    case Dict(es) => forall i | 0 <= i < |es| :: if Secret(lower, es[i].key) then es[i].value == REDACTED else Clean(lower, es[i].value)
    case Series(_, xs) => forall i | 0 <= i < |xs| :: Clean(lower, xs[i])
  }

  /** Nothing but the mark lies below the limit. */
  predicate Shallow(v: Value, depth: nat) {
    if depth > DEEPEST then v == REDACTED
    else match v
      case Leaf(_) => true
      case Dict(es) => forall i | 0 <= i < |es| :: es[i].value == REDACTED || Shallow(es[i].value, depth + 1)
      case Series(_, xs) => forall i | 0 <= i < |xs| :: Shallow(xs[i], depth + 1)
  }

  lemma OutputIsClean(lower: Lower, v: Value, depth: nat)
    ensures Clean(lower, Scrub(lower, v, depth)) && Shallow(Scrub(lower, v, depth), depth)
  {
    ScrubIsClean(lower, v, depth);
    ScrubIsShallow(lower, v, depth);
  }

  lemma {:induction false} ScrubIsClean(lower: Lower, v: Value, depth: nat)
    ensures Clean(lower, Scrub(lower, v, depth))
    decreases DEEPEST + 1 - depth
  {
    if depth <= DEEPEST {
      match v
      case Leaf(_) =>
      case Dict(es) =>
        var out := Scrub(lower, v, depth).entries;
        forall i | 0 <= i < |out|
          ensures if Secret(lower, out[i].key) then out[i].value == REDACTED else Clean(lower, out[i].value)
        {
          ScrubIsClean(lower, es[i].value, depth + 1);
        }
      case Series(_, xs) =>
        var out := Scrub(lower, v, depth).items;
        forall i | 0 <= i < |out| ensures Clean(lower, out[i]) {
          ScrubIsClean(lower, xs[i], depth + 1);
        }
    }
  }

  lemma {:induction false} ScrubIsShallow(lower: Lower, v: Value, depth: nat)
    ensures Shallow(Scrub(lower, v, depth), depth)
    decreases DEEPEST + 1 - depth
  {
    if depth <= DEEPEST {
      match v
      case Leaf(_) =>
      case Dict(es) =>
        var out := Scrub(lower, v, depth).entries;
        forall i | 0 <= i < |out| ensures out[i].value == REDACTED || Shallow(out[i].value, depth + 1) {
          ScrubIsShallow(lower, es[i].value, depth + 1);
        }
      case Series(_, xs) =>
        var out := Scrub(lower, v, depth).items;
        forall i | 0 <= i < |out| ensures Shallow(out[i], depth + 1) {
          ScrubIsShallow(lower, xs[i], depth + 1);
        }
    }
  }

  /** Scrubbing touches nothing else: exactly the clean, shallow reports pass unchanged. */
  lemma {:induction false} UntouchedIffClean(lower: Lower, v: Value, depth: nat)
    ensures Scrub(lower, v, depth) == v <==> Clean(lower, v) && Shallow(v, depth)
    decreases DEEPEST + 1 - depth
  {
    if Scrub(lower, v, depth) == v {
      OutputIsClean(lower, v, depth);
    }
    if Clean(lower, v) && Shallow(v, depth) {
      CleanIsUntouched(lower, v, depth);
    }
  }

  lemma {:induction false} CleanIsUntouched(lower: Lower, v: Value, depth: nat)
    requires Clean(lower, v) && Shallow(v, depth)
    ensures Scrub(lower, v, depth) == v
    decreases DEEPEST + 1 - depth
  {
    if depth <= DEEPEST {
      match v
      case Leaf(_) =>
      case Dict(es) =>
        forall i | 0 <= i < |es| ensures Scrub(lower, v, depth).entries[i] == es[i] {
          if !Secret(lower, es[i].key) && es[i].value != REDACTED {
            CleanIsUntouched(lower, es[i].value, depth + 1);
          }
        }
      case Series(_, xs) =>
        forall i | 0 <= i < |xs| ensures Scrub(lower, v, depth).items[i] == xs[i] {
          CleanIsUntouched(lower, xs[i], depth + 1);
        }
    }
  }

  lemma ScrubIsIdempotent(lower: Lower, v: Value, depth: nat)
    ensures Scrub(lower, Scrub(lower, v, depth), depth) == Scrub(lower, v, depth)
  {
    OutputIsClean(lower, v, depth);
    UntouchedIffClean(lower, Scrub(lower, v, depth), depth);
  }

  /** How many containers lie inside one another. */
  function Nesting(v: Value): nat {
    match v
    case Leaf(_) => 0
    case Dict(es) => 1 + Deepest(seq(|es|, i requires 0 <= i < |es| => Nesting(es[i].value)))
    case Series(_, xs) => 1 + Deepest(seq(|xs|, i requires 0 <= i < |xs| => Nesting(xs[i])))
  }

  function Deepest(ns: seq<nat>): (m: nat)
    ensures forall n | n in ns :: n <= m
    ensures ns != [] ==> m in ns
    ensures ns == [] ==> m == 0
  {
    if ns == [] then 0
    else
      assert ns == [ns[0]] + ns[1..];
      var m := Deepest(ns[1..]);
      if ns[0] > m then ns[0] else m
  }

  /** A report has at most thirteen levels of containers, however deep its source went. */
  lemma NestingIsBounded(lower: Lower, v: Value)
    ensures Nesting(Scrub(lower, v, 0)) <= 13
  {
    OutputIsClean(lower, v, 0);
    ShallowNesting(Scrub(lower, v, 0), 0);
  }

  lemma {:induction false} ShallowNesting(v: Value, depth: nat)
    requires Shallow(v, depth) && depth <= DEEPEST + 1
    ensures Nesting(v) <= DEEPEST + 1 - depth
    decreases DEEPEST + 1 - depth
  {
    if depth <= DEEPEST {
      match v
      case Leaf(_) =>
      case Dict(es) =>
        forall i | 0 <= i < |es| ensures Nesting(es[i].value) <= DEEPEST - depth {
          if es[i].value != REDACTED {
            ShallowNesting(es[i].value, depth + 1);
          }
        }
      case Series(_, xs) =>
        forall i | 0 <= i < |xs| ensures Nesting(xs[i]) <= DEEPEST - depth {
          ShallowNesting(xs[i], depth + 1);
        }
    }
  }

  // ---------------------------------------------------------------------------
  // What can be told from the output
  // ---------------------------------------------------------------------------

  /** What one sees standing at a place of a report. */
  datatype Sight = Nowhere | Hidden | SeeAtom(atom: Atom) | SeeDict(keys: seq<Key>) | SeeSeries(isTuple: bool, n: nat)

  function Here(v: Value): Sight {
    match v
    case Leaf(a) => SeeAtom(a)
    case Dict(es) => SeeDict(seq(|es|, i requires 0 <= i < |es| => es[i].key))
    case Series(t, xs) => SeeSeries(t, |xs|)
  }

  /** What one sees after walking down `path`, never through a secret key. */
  function Look(lower: Lower, v: Value, path: seq<nat>): Sight {
    if path == [] then Here(v)
    else
      var i := path[0];
      match v
      case Leaf(_) => Nowhere
      case Dict(es) =>
        if i >= |es| then Nowhere
        else if Secret(lower, es[i].key) then Hidden
        else Look(lower, es[i].value, path[1..])
      case Series(_, xs) => if i >= |xs| then Nowhere else Look(lower, xs[i], path[1..])
  }

  ghost predicate LookAlike(lower: Lower, v: Value, w: Value, depth: nat) {
    forall path: seq<nat> | depth + |path| <= DEEPEST :: Look(lower, v, path) == Look(lower, w, path)
  }

  lemma {:induction false} SameOutputLooksAlike(lower: Lower, v: Value, w: Value, depth: nat, path: seq<nat>)
    requires Scrub(lower, v, depth) == Scrub(lower, w, depth) && depth + |path| <= DEEPEST
    ensures Look(lower, v, path) == Look(lower, w, path)
    decreases |path|
  {
    SameTop(lower, v, w, depth);
    if path != [] {
      var i := path[0];
      match v
      case Leaf(_) =>
      case Dict(es) =>
        if i < |es| && !Secret(lower, es[i].key) {
          assert Scrub(lower, v, depth).entries[i] == Scrub(lower, w, depth).entries[i];
          SameOutputLooksAlike(lower, es[i].value, w.entries[i].value, depth + 1, path[1..]);
        }
      case Series(_, xs) =>
        if i < |xs| {
          assert Scrub(lower, v, depth).items[i] == Scrub(lower, w, depth).items[i];
          SameOutputLooksAlike(lower, xs[i], w.items[i], depth + 1, path[1..]);
        }
    }
  }

  lemma SameTop(lower: Lower, v: Value, w: Value, depth: nat)
    requires Scrub(lower, v, depth) == Scrub(lower, w, depth) && depth <= DEEPEST
    ensures Here(v) == Here(w)
    ensures v.Dict? ==> w.Dict? && |v.entries| == |w.entries|
    ensures v.Dict? ==> forall i | 0 <= i < |v.entries| :: v.entries[i].key == w.entries[i].key
  {
    TopSurvives(lower, v, depth);
    TopSurvives(lower, w, depth);
    if v.Dict? {
      KeysOfSight(v, w);
    }
  }

  lemma TopSurvives(lower: Lower, v: Value, depth: nat)
    requires depth <= DEEPEST
    ensures Here(Scrub(lower, v, depth)) == Here(v)
  {
    if v.Dict? {
      assert Here(Scrub(lower, v, depth)).keys == Here(v).keys;
    }
  }

  lemma KeysOfSight(v: Value, w: Value)
    requires v.Dict? && Here(v) == Here(w)
    ensures w.Dict? && |v.entries| == |w.entries|
    ensures forall i | 0 <= i < |v.entries| :: v.entries[i].key == w.entries[i].key
  {
    assert |Here(v).keys| == |v.entries| && |Here(w).keys| == |w.entries|;
    forall i | 0 <= i < |v.entries| ensures v.entries[i].key == w.entries[i].key {
      assert Here(v).keys[i] == Here(w).keys[i];
    }
  }

  /** `a` lies under `v` at place `i`, not behind a secret key. */
  predicate IsChild(lower: Lower, v: Value, i: nat, a: Value) {
    match v
    case Leaf(_) => false
    case Dict(es) => i < |es| && !Secret(lower, es[i].key) && a == es[i].value
    case Series(_, xs) => i < |xs| && a == xs[i]
  }

  /** What is seen below a child is seen below its parent. */
  lemma StepDown(lower: Lower, v: Value, i: nat, a: Value, rest: seq<nat>)
    requires IsChild(lower, v, i, a)
    ensures Look(lower, v, [i] + rest) == Look(lower, a, rest)
  {
    assert ([i] + rest)[0] == i && ([i] + rest)[1..] == rest;
  }

  lemma ChildrenLookAlike(lower: Lower, v: Value, w: Value, depth: nat, i: nat, a: Value, b: Value)
    requires LookAlike(lower, v, w, depth)
    requires IsChild(lower, v, i, a) && IsChild(lower, w, i, b)
    ensures LookAlike(lower, a, b, depth + 1)
  {
    forall rest: seq<nat> | depth + 1 + |rest| <= DEEPEST
      ensures Look(lower, a, rest) == Look(lower, b, rest)
    {
      StepDown(lower, v, i, a, rest);
      StepDown(lower, w, i, b, rest);
      assert Look(lower, v, [i] + rest) == Look(lower, w, [i] + rest);
    }
  }

  lemma {:induction false} AlikeScrubsAlike(lower: Lower, v: Value, w: Value, depth: nat)
    requires LookAlike(lower, v, w, depth)
    ensures Scrub(lower, v, depth) == Scrub(lower, w, depth)
    decreases DEEPEST + 1 - depth
  {
    if depth <= DEEPEST {
      assert Look(lower, v, []) == Look(lower, w, []);
      var sv, sw := Scrub(lower, v, depth), Scrub(lower, w, depth);
      match v
      case Leaf(_) =>
      case Dict(es) =>
        KeysOfSight(v, w);
        forall i | 0 <= i < |es| ensures sv.entries[i] == sw.entries[i] {
          if !Secret(lower, es[i].key) {
            ChildScrubsAlike(lower, v, w, depth, i, es[i].value, w.entries[i].value);
          }
        }
      case Series(_, xs) =>
        forall i | 0 <= i < |xs| ensures sv.items[i] == sw.items[i] {
          ChildScrubsAlike(lower, v, w, depth, i, xs[i], w.items[i]);
        }
    }
  }

  lemma {:induction false} ChildScrubsAlike(lower: Lower, v: Value, w: Value, depth: nat, i: nat, a: Value, b: Value)
    requires depth <= DEEPEST && LookAlike(lower, v, w, depth)
    requires IsChild(lower, v, i, a) && IsChild(lower, w, i, b)
    ensures Scrub(lower, a, depth + 1) == Scrub(lower, b, depth + 1)
    decreases DEEPEST + 1 - depth, 0
  {
    ChildrenLookAlike(lower, v, w, depth, i, a, b);
    AlikeScrubsAlike(lower, a, b, depth + 1);
  }

  /** The report tells two events apart exactly when they differ somewhere that can be reached
      in at most twelve steps without passing a secret key. */
  lemma OutputTellsOnlyWhatIsVisible(lower: Lower, v: Value, w: Value, depth: nat)
    ensures Scrub(lower, v, depth) == Scrub(lower, w, depth) <==> LookAlike(lower, v, w, depth)
  {
    if Scrub(lower, v, depth) == Scrub(lower, w, depth) {
      forall path: seq<nat> | depth + |path| <= DEEPEST
        ensures Look(lower, v, path) == Look(lower, w, path)
      {
        SameOutputLooksAlike(lower, v, w, depth, path);
      }
    }
    if LookAlike(lower, v, w, depth) {
      AlikeScrubsAlike(lower, v, w, depth);
    }
  }

  // ---------------------------------------------------------------------------
  // Events as they lie in memory, where a container may contain itself
  // ---------------------------------------------------------------------------

  type Addr = nat
  datatype Slot = Slot(key: Key, at: Addr)
  datatype Object =
    | LeafObject(atom: Atom)
    | DictObject(slots: seq<Slot>)
    | SeriesObject(isTuple: bool, refs: seq<Addr>)

  type Memory = Addr -> Object

  /** The tree seen from `at`, cut off after `n` levels. */
  function Unroll(memory: Memory, at: Addr, n: nat, stub: Value): Value
    decreases n
  {
    if n == 0 then stub
    else match memory(at)
      case LeafObject(a) => Leaf(a)
      case DictObject(ss) => Dict(seq(|ss|, i requires 0 <= i < |ss| => Entry(ss[i].key, Unroll(memory, ss[i].at, n - 1, stub))))
      case SeriesObject(t, rs) => Series(t, seq(|rs|, i requires 0 <= i < |rs| => Unroll(memory, rs[i], n - 1, stub)))
  }

  /** Levels a value at `depth` can still be read for. */
  function Reach(depth: nat): nat {
    if depth > DEEPEST then 0 else DEEPEST + 1 - depth
  }

  /** The report on the object at `at`, whether or not a cycle leads back to it. */
  function Report(lower: Lower, memory: Memory, at: Addr, depth: nat): Value
    decreases DEEPEST + 1 - depth
  {
    if depth > DEEPEST then REDACTED
    else match memory(at)
      case LeafObject(a) => Leaf(a)
      case DictObject(ss) => Dict(seq(|ss|, i requires 0 <= i < |ss| =>
          Entry(ss[i].key, if Secret(lower, ss[i].key) then REDACTED else Report(lower, memory, ss[i].at, depth + 1))))
      case SeriesObject(t, rs) => Series(t, seq(|rs|, i requires 0 <= i < |rs| => Report(lower, memory, rs[i], depth + 1)))
  }

  /** Cycles do no harm: the report is that of the tree cut anywhere at or past the limit, with
      anything at all put behind the cut. */
  lemma {:induction false} CyclesAreCut(lower: Lower, memory: Memory, at: Addr, depth: nat, n: nat, stub: Value)
    requires n >= Reach(depth)
    ensures Report(lower, memory, at, depth) == Scrub(lower, Unroll(memory, at, n, stub), depth)
    decreases DEEPEST + 1 - depth, 1
  {
    if depth <= DEEPEST {
      match memory(at)
      case LeafObject(_) =>
      case DictObject(_) => CyclesInDict(lower, memory, at, depth, n, stub);
      case SeriesObject(_, _) => CyclesInSeries(lower, memory, at, depth, n, stub);
    }
  }

  lemma {:induction false} CyclesInDict(lower: Lower, memory: Memory, at: Addr, depth: nat, n: nat, stub: Value)
    requires n >= Reach(depth) && depth <= DEEPEST && memory(at).DictObject?
    ensures Report(lower, memory, at, depth) == Scrub(lower, Unroll(memory, at, n, stub), depth)
    decreases DEEPEST + 1 - depth, 0
  {
    var a, b := Report(lower, memory, at, depth), Scrub(lower, Unroll(memory, at, n, stub), depth);
    var ss := memory(at).slots;
    forall i | 0 <= i < |ss| ensures a.entries[i] == b.entries[i] {
      CyclesAreCut(lower, memory, ss[i].at, depth + 1, n - 1, stub);
    }
    assert a.entries == b.entries;
  }

  lemma {:induction false} CyclesInSeries(lower: Lower, memory: Memory, at: Addr, depth: nat, n: nat, stub: Value)
    requires n >= Reach(depth) && depth <= DEEPEST && memory(at).SeriesObject?
    ensures Report(lower, memory, at, depth) == Scrub(lower, Unroll(memory, at, n, stub), depth)
    decreases DEEPEST + 1 - depth, 0
  {
    var a, b := Report(lower, memory, at, depth), Scrub(lower, Unroll(memory, at, n, stub), depth);
    var rs := memory(at).refs;
    forall i | 0 <= i < |rs| ensures a.items[i] == b.items[i] {
      CyclesAreCut(lower, memory, rs[i], depth + 1, n - 1, stub);
    }
    assert a.items == b.items;
  }

  /** Whatever an event contains, and however it is tied together, what is sent is clean and
      at most thirteen containers deep. */
  lemma EveryReportIsSafe(lower: Lower, memory: Memory, at: Addr)
    ensures Clean(lower, Report(lower, memory, at, 0))
    ensures Nesting(Report(lower, memory, at, 0)) <= 13
  {
    var v := Unroll(memory, at, Reach(0), REDACTED);
    CyclesAreCut(lower, memory, at, 0, Reach(0), REDACTED);
    OutputIsClean(lower, v, 0);
    NestingIsBounded(lower, v);
  }

  /** Assignment to a dictionary: an old key keeps its place, a new one goes last. */
  function Put(es: seq<Entry>, key: Key, value: Value): seq<Entry> {
    if es == [] then [Entry(key, value)]
    else if es[0].key == key then [Entry(key, value)] + es[1..]
    else [es[0]] + Put(es[1..], key, value)
  }

  lemma {:induction false} PutNewKey(es: seq<Entry>, key: Key, value: Value)
    requires forall i | 0 <= i < |es| :: es[i].key != key
    ensures Put(es, key, value) == es + [Entry(key, value)]
  {
    if es != [] {
      PutNewKey(es[1..], key, value);
    }
  }

  predicate DistinctKeys(o: Object) {
    o.DictObject? ==> forall i, j | 0 <= i < j < |o.slots| :: o.slots[i].key != o.slots[j].key
  }

  /** The recursion of the source, which fills the cleaned dictionary entry by entry and ends
      even on an event that contains itself. */
  method ScrubObject(lower: Lower, memory: Memory, at: Addr, depth: nat) returns (r: Value)
    requires forall a: Addr :: DistinctKeys(memory(a))
    ensures r == Report(lower, memory, at, depth)
    decreases DEEPEST + 1 - depth, 0
  {
    if depth > DEEPEST {
      return REDACTED;
    }
    match memory(at) {
      case LeafObject(a) =>
        r := Leaf(a);
      case DictObject(ss) =>
        r := ScrubDict(lower, memory, at, depth);
      case SeriesObject(t, rs) =>
        var items := ScrubAll(lower, memory, rs, depth);
        r := Series(t, items);
        assert items == Report(lower, memory, at, depth).items;
    }
  }

  method ScrubDict(lower: Lower, memory: Memory, at: Addr, depth: nat) returns (r: Value)
    requires depth <= DEEPEST && memory(at).DictObject?
    requires forall a: Addr :: DistinctKeys(memory(a))
    ensures r == Report(lower, memory, at, depth)
    decreases DEEPEST - depth, 1
  {
    var ss := memory(at).slots;
    ghost var whole := Report(lower, memory, at, depth).entries;
    var cleaned := [];
    for k := 0 to |ss|
      invariant |cleaned| == k
      invariant forall i | 0 <= i < k :: cleaned[i] == whole[i]
    {
      PutNewKeyFits(lower, memory, at, depth, cleaned);
      if Secret(lower, ss[k].key) {
        cleaned := Put(cleaned, ss[k].key, REDACTED);
      } else {
        var item := ScrubObject(lower, memory, ss[k].at, depth + 1);
        cleaned := Put(cleaned, ss[k].key, item);
      }
    }
    assert cleaned == whole;
    r := Dict(cleaned);
  }

  lemma PutNewKeyFits(lower: Lower, memory: Memory, at: Addr, depth: nat, cleaned: seq<Entry>)
    requires depth <= DEEPEST && memory(at).DictObject? && DistinctKeys(memory(at))
    requires |cleaned| < |memory(at).slots|
    requires forall i | 0 <= i < |cleaned| :: cleaned[i] == Report(lower, memory, at, depth).entries[i]
    ensures var key := memory(at).slots[|cleaned|].key;
            forall v: Value :: Put(cleaned, key, v) == cleaned + [Entry(key, v)]
  {
    var key := memory(at).slots[|cleaned|].key;
    forall v: Value ensures Put(cleaned, key, v) == cleaned + [Entry(key, v)] {
      PutNewKey(cleaned, key, v);
    }
  }

  /** The comprehension over a list or tuple. */
  method ScrubAll(lower: Lower, memory: Memory, refs: seq<Addr>, depth: nat) returns (items: seq<Value>)
    requires depth <= DEEPEST
    requires forall a: Addr :: DistinctKeys(memory(a))
    ensures |items| == |refs|
    ensures forall i | 0 <= i < |refs| :: items[i] == Report(lower, memory, refs[i], depth + 1)
    decreases DEEPEST - depth, 1
  {
    items := [];
    for k := 0 to |refs|
      invariant |items| == k
      invariant forall i | 0 <= i < k :: items[i] == Report(lower, memory, refs[i], depth + 1)
    {
      var item := ScrubObject(lower, memory, refs[k], depth + 1);
      items := items + [item];
    }
  }

  // ---------------------------------------------------------------------------
  // Where the limit lies
  // ---------------------------------------------------------------------------

  /** `v` inside `n` lists. */
  function Inside(v: Value, n: nat): Value {
    if n == 0 then v else Series(false, [Inside(v, n - 1)])
  }

  lemma {:induction false} InsideScrubbed(lower: Lower, v: Atom, n: nat, depth: nat)
    ensures Scrub(lower, Inside(Leaf(v), n), depth) == Inside(Leaf(v), n)
            <==> depth + n <= 12 || (depth <= 13 && depth + n == 13 && Leaf(v) == REDACTED)
                 || (depth > 13 && n == 0 && Leaf(v) == REDACTED)
    decreases n
  {
    if depth <= DEEPEST && n > 0 {
      InsideScrubbed(lower, v, n - 1, depth + 1);
      var w := Inside(Leaf(v), n);
      assert Scrub(lower, w, depth).items[0] == Scrub(lower, Inside(Leaf(v), n - 1), depth + 1);
      assert Scrub(lower, w, depth).items == [Scrub(lower, Inside(Leaf(v), n - 1), depth + 1)];
    }
  }

  /** What lies inside at most twelve containers is reported, and what lies deeper is not. */
  lemma TwelveLevelsAreReported(lower: Lower, v: Atom, n: nat)
    requires Leaf(v) != REDACTED
    ensures Scrub(lower, Inside(Leaf(v), n), 0) == Inside(Leaf(v), n) <==> n <= 12
  {
    InsideScrubbed(lower, v, n, 0);
  }

  // ---------------------------------------------------------------------------
  // Which keys
  // ---------------------------------------------------------------------------

  /** Spelling in capitals does not hide a key, and only texts can be secret keys. */
  lemma CaseDoesNotMatter(lower: Lower, a: string, b: string, id: int)
    requires lower(a) == lower(b)
    ensures Secret(lower, Text(a)) <==> Secret(lower, Text(b))
    ensures !Secret(lower, Other(id))
  {
  }

  /** Credentials, the ledger's keys and bank details: exactly these names, in any case, have their
      value replaced, and always by the same text. */
  lemma ListedKeysAreRedacted(lower: Lower, key: string, v: Value)
    ensures Secret(lower, Text(key)) <==> lower(key) in [
      "password", "new_password", "current_password", "password_hash", "token", "access_token",
      "refresh_token", "token_hash", "totp_secret", "secret", "secret_key", "recovery_codes", "api_key",
      "client_secret", "encryption_key", "authorization", "cookie", "set-cookie", "signer_secret",
      "signer_secret_encrypted", "attestation_namespace_salt", "account_number",
      "account_number_encrypted", "card_number", "pan"]
    ensures Secret(lower, Text(key)) ==>
              Scrub(lower, Dict([Entry(Text(key), v)]), 0) == Dict([Entry(Text(key), Leaf(Str("[redacted]")))])
  {
    if Secret(lower, Text(key)) {
      assert Scrub(lower, Dict([Entry(Text(key), v)]), 0).entries == [Entry(Text(key), REDACTED)];
    }
  }
}
