/** The RFC 6962 hash tree over a sealed batch. The hash function is a parameter: nothing is
    assumed of it beyond the length of its output, and where a claim needs it to be collision
    resistant the proof hands over the colliding pair instead of assuming there is none. */
module Merkle {
  import opened Basics
  import opened Bytes

  type Hash = Bytes -> Bytes

  const DIGEST_BYTES: nat := 32

  ghost predicate IsDigestHash(sha: Hash) {
    forall x: Bytes :: |sha(x)| == DIGEST_BYTES
  }

  function NodePreimage(left: Bytes, right: Bytes): Bytes {
    [1] + left + right
  }

  function NodeHash(sha: Hash, left: Bytes, right: Bytes): Bytes {
    sha(NodePreimage(left, right))
  }

  function LeafPreimage(data: Bytes): Bytes {
    [0] + data
  }

  function LeafHashes(sha: Hash, entries: seq<Bytes>): (leaves: seq<Bytes>)
    ensures |leaves| == |entries|
    ensures forall i | 0 <= i < |entries| :: leaves[i] == sha(LeafPreimage(entries[i]))
  {
    seq(|entries|, i requires 0 <= i < |entries| => sha(LeafPreimage(entries[i])))
  }

  // ---------------------------------------------------------------------------
  // The split point
  // ---------------------------------------------------------------------------

  function BitLength(n: nat): nat {
    if n == 0 then 0 else 1 + BitLength(n / 2)
  }

  lemma {:induction false} BitLengthBounds(n: nat)
    requires n >= 1
    ensures BitLength(n) >= 1
    ensures Pow2(BitLength(n) - 1) <= n < Pow2(BitLength(n))
  {
    if n > 1 {
      BitLengthBounds(n / 2);
    }
  }

  /** The largest power of two strictly below `n`, as `1 << ((n - 1).bit_length() - 1)`. */
  function Split(n: nat): (k: nat)
    requires n >= 2
    ensures 1 <= k < n <= 2 * k
  {
    BitLengthBounds(n - 1);
    Pow2(BitLength(n - 1) - 1)
  }

  lemma {:induction false} BitLengthOfPow2Pred(k: nat)
    ensures BitLength(Pow2(k) - 1) == k
  {
    if k > 0 {
      BitLengthOfPow2Pred(k - 1);
      assert (Pow2(k) - 1) / 2 == Pow2(k - 1) - 1;
    }
  }

  predicate IsPow2(n: nat) {
    n == 1 || (n > 1 && n % 2 == 0 && IsPow2(n / 2))
  }

  lemma {:induction false} Pow2IsPow2(k: nat)
    ensures IsPow2(Pow2(k))
  {
    if k > 0 {
      Pow2IsPow2(k - 1);
    }
  }

  lemma {:induction false} ExponentOf(n: nat) returns (k: nat)
    requires IsPow2(n)
    ensures n == Pow2(k)
  {
    if n == 1 {
      k := 0;
    } else {
      k := ExponentOf(n / 2);
      k := k + 1;
    }
  }

  lemma SplitIsPow2(n: nat)
    requires n >= 2
    ensures IsPow2(Split(n))
  {
    BitLengthBounds(n - 1);
    Pow2IsPow2(BitLength(n - 1) - 1);
  }

  /** Twice a power of two is split in half. */
  lemma SplitOfTwice(n: nat)
    requires IsPow2(n)
    ensures Split(2 * n) == n
  {
    var k := ExponentOf(n);
    assert 2 * n == Pow2(k + 1);
    BitLengthOfPow2Pred(k + 1);
  }

  // ---------------------------------------------------------------------------
  // The root
  // ---------------------------------------------------------------------------

  /** MTH of section 2.1 of RFC 6962, over leaves that are already hashed. */
  function Mth(sha: Hash, leaves: seq<Bytes>): Bytes
    requires leaves != []
    decreases |leaves|
  {
    if |leaves| == 1 then leaves[0]
    else
      var k := Split(|leaves|);
      NodeHash(sha, Mth(sha, leaves[..k]), Mth(sha, leaves[k..]))
  }

  /** The root as section 2.1 of RFC 6962 defines it: a single leaf is its own root, and otherwise
      the two halves' roots are hashed behind a one byte, the left half being as many leaves as
      the largest power of two below their number. Leaves are hashed behind a zero byte. */
  lemma RootIsRfc6962(sha: Hash, leaves: seq<Bytes>) returns (k: nat)
    requires leaves != []
    ensures |leaves| == 1 ==> Mth(sha, leaves) == leaves[0]
    ensures |leaves| > 1 ==>
              && IsPow2(k) && k < |leaves| <= 2 * k
              && Mth(sha, leaves) == sha([0x01] + Mth(sha, leaves[..k]) + Mth(sha, leaves[k..]))
    ensures forall d: Bytes :: LeafHashes(sha, [d]) == [sha([0x00] + d)]
  {
    k := 0;
    if |leaves| > 1 {
      k := Split(|leaves|);
      SplitIsPow2(|leaves|);
    }
  }

  /** One level of a pairwise fold. */
  function Pairs(sha: Hash, level: seq<Bytes>): (up: seq<Bytes>)
    requires |level| % 2 == 0
    ensures |up| == |level| / 2
  {
    seq(|level| / 2, i requires 0 <= i < |level| / 2 => NodeHash(sha, level[2 * i], level[2 * i + 1]))
  }

  /** `up` is `level` folded once. */
  ghost predicate IsFold(sha: Hash, level: seq<Bytes>, up: seq<Bytes>) {
    && |level| == 2 * |up|
    && forall i | 0 <= i < |up| :: up[i] == NodeHash(sha, level[2 * i], level[2 * i + 1])
  }

  lemma HalvesAreFolds(sha: Hash, level: seq<Bytes>, up: seq<Bytes>, q: nat)
    requires IsFold(sha, level, up) && q <= |up|
    ensures IsFold(sha, level[..2 * q], up[..q]) && IsFold(sha, level[2 * q..], up[q..])
  {
  }

  /** Folding pairwise is the same tree when the count is a power of two, and it is only then
      that the code folds pairwise. */
  lemma PairwiseFoldKeepsRoot(sha: Hash, level: seq<Bytes>)
    requires |level| >= 2 && IsPow2(|level|)
    ensures Mth(sha, Pairs(sha, level)) == Mth(sha, level)
  {
    PairsIsFold(sha, level, |level| / 2);
    FoldKeepsRoot(sha, level, Pairs(sha, level));
  }

  lemma PairsIsFold(sha: Hash, level: seq<Bytes>, half: nat)
    requires |level| == 2 * half
    ensures |Pairs(sha, level)| == half && IsFold(sha, level, Pairs(sha, level))
  {
  }

  lemma {:induction false} FoldKeepsRoot(sha: Hash, level: seq<Bytes>, up: seq<Bytes>)
    requires IsPow2(|up|) && IsFold(sha, level, up)
    ensures Mth(sha, up) == Mth(sha, level)
    decreases |up|, 1
  {
    if |up| == 1 {
      FoldOfTwo(sha, level, up);
    } else {
      var q := Half(|up|);
      FoldOfHalves(sha, level, up, q);
      JoinFolds(sha, level, up, q);
    }
  }

  lemma {:induction false} FoldOfHalves(sha: Hash, level: seq<Bytes>, up: seq<Bytes>, q: nat)
    requires q >= 1 && |up| == 2 * q && IsPow2(q) && IsFold(sha, level, up)
    ensures Mth(sha, up[..q]) == Mth(sha, level[..2 * q]) && Mth(sha, up[q..]) == Mth(sha, level[2 * q..])
    decreases |up|, 0
  {
    HalvesAreFolds(sha, level, up, q);
    FoldKeepsRoot(sha, level[..2 * q], up[..q]);
    FoldKeepsRoot(sha, level[2 * q..], up[q..]);
  }

  lemma JoinFolds(sha: Hash, level: seq<Bytes>, up: seq<Bytes>, q: nat)
    requires q >= 1 && |up| == 2 * q && |level| == 2 * |up| && Split(|up|) == q && Split(2 * |up|) == |up|
    requires Mth(sha, up[..q]) == Mth(sha, level[..2 * q]) && Mth(sha, up[q..]) == Mth(sha, level[2 * q..])
    ensures Mth(sha, up) == Mth(sha, level)
  {
    JoinRoots(sha, up, level, q, 2 * q);
  }

  lemma Half(n: nat) returns (q: nat)
    requires IsPow2(n) && n >= 2
    ensures q >= 1 && n == 2 * q && IsPow2(q) && Split(n) == q && Split(2 * n) == n
  {
    q := n / 2;
    SplitOfTwice(q);
    SplitOfTwice(n);
  }

  lemma FoldOfTwo(sha: Hash, level: seq<Bytes>, up: seq<Bytes>)
    requires |up| == 1 && IsFold(sha, level, up)
    ensures Mth(sha, up) == Mth(sha, level)
  {
    assert level[..1] == [level[0]] && level[1..] == [level[1]];
  }

  /** Equal roots of the halves make equal roots of the wholes. */
  lemma JoinRoots(sha: Hash, a: seq<Bytes>, b: seq<Bytes>, j: nat, k: nat)
    requires |a| >= 2 && |b| >= 2 && j == Split(|a|) && k == Split(|b|)
    requires Mth(sha, a[..j]) == Mth(sha, b[..k]) && Mth(sha, a[j..]) == Mth(sha, b[k..])
    ensures Mth(sha, a) == Mth(sha, b)
  {
  }

  method PerfectRoot(sha: Hash, leaves: seq<Bytes>) returns (root: Bytes)
    requires IsPow2(|leaves|)
    ensures leaves != [] && root == Mth(sha, leaves)
  {
    var level := leaves;
    while |level| > 1
      invariant IsPow2(|level|)
      invariant Mth(sha, level) == Mth(sha, leaves)
      decreases |level|
    {
      PairwiseFoldKeepsRoot(sha, level);
      level := Pairs(sha, level);
    }
    root := level[0];
  }

  predicate ValidLeaves(leaves: seq<Bytes>) {
    leaves != [] && forall i | 0 <= i < |leaves| :: |leaves[i]| == DIGEST_BYTES
  }

  /** The fast form: a plain fold on the left, recursion only on the ragged right. It is the
      tree of RFC 6962 for every number of leaves, and it refuses what is not one. */
  method MerkleRoot(sha: Hash, leaves: seq<Bytes>) returns (root: Option<Bytes>)
    ensures root == if ValidLeaves(leaves) then Some(Mth(sha, leaves)) else None
    decreases |leaves|
  {
    if !ValidLeaves(leaves) {
      return None;
    }
    if |leaves| == 1 {
      return Some(leaves[0]);
    }
    var k := Split(|leaves|);
    SplitIsPow2(|leaves|);
    var left := PerfectRoot(sha, leaves[..k]);
    var right := MerkleRoot(sha, leaves[k..]);
    root := Some(NodeHash(sha, left, right.value));
  }

  // ---------------------------------------------------------------------------
  // Inclusion proofs
  // ---------------------------------------------------------------------------

  datatype Side = Left | Right | Unknown(text: string)

  /** A step as it may arrive from outside: any side text, and a hash that is `None` when it
      is not hexadecimal. */
  datatype Step = Step(side: Side, hash: Option<Bytes>)

  /** PATH of section 2.1.1 of RFC 6962: the innermost sibling comes first. */
  function Path(sha: Hash, leaves: seq<Bytes>, index: nat): seq<Step>
    requires index < |leaves|
    decreases |leaves|
  {
    if |leaves| == 1 then []
    else
      var k := Split(|leaves|);
      if index < k
      then Path(sha, leaves[..k], index) + [Step(Right, Some(Mth(sha, leaves[k..])))]
      else Path(sha, leaves[k..], index - k) + [Step(Left, Some(Mth(sha, leaves[..k])))]
  }

  function Reversed(steps: seq<Step>): (r: seq<Step>)
    ensures |r| == |steps|
  {
    if steps == [] then [] else [steps[|steps| - 1]] + Reversed(steps[..|steps| - 1])
  }

  lemma ReversedPush(steps: seq<Step>, s: Step)
    ensures Reversed(steps + [s]) == [s] + Reversed(steps)
  {
    assert (steps + [s])[..|steps|] == steps;
  }

  lemma ValidHalves(leaves: seq<Bytes>, k: nat)
    requires ValidLeaves(leaves) && 0 < k < |leaves|
    ensures ValidLeaves(leaves[..k]) && ValidLeaves(leaves[k..])
  {
  }

  lemma PathDescends(sha: Hash, leaves: seq<Bytes>, index: nat, outer: seq<Step>)
    requires |leaves| > 1 && index < |leaves|
    ensures var k := Split(|leaves|);
            Path(sha, leaves, index) + outer ==
            if index < k
            then Path(sha, leaves[..k], index) + ([Step(Right, Some(Mth(sha, leaves[k..])))] + outer)
            else Path(sha, leaves[k..], index - k) + ([Step(Left, Some(Mth(sha, leaves[..k])))] + outer)
  {
  }

  /** The code walks down from the root, so it finds the outermost sibling first and reverses
      the list at the end. */
  method InclusionProof(sha: Hash, leaves: seq<Bytes>, index: int) returns (path: Option<seq<Step>>)
    ensures path == if ValidLeaves(leaves) && 0 <= index < |leaves|
                    then Some(Path(sha, leaves, index)) else None
  {
    if !ValidLeaves(leaves) || !(0 <= index < |leaves|) {
      return None;
    }
    var outermostFirst: seq<Step> := [];
    var working, position := leaves, index;
    while |working| > 1
      invariant ValidLeaves(working)
      invariant 0 <= position < |working|
      invariant Path(sha, leaves, index) == Path(sha, working, position) + Reversed(outermostFirst)
      decreases |working|
    {
      var k := Split(|working|);
      var step: Step;
      PathDescends(sha, working, position, Reversed(outermostFirst));
      ValidHalves(working, k);
      if position < k {
        var sibling := MerkleRoot(sha, working[k..]);
        step := Step(Right, sibling);
        working := working[..k];
      } else {
        var sibling := MerkleRoot(sha, working[..k]);
        step := Step(Left, sibling);
        working := working[k..];
        position := position - k;
      }
      ReversedPush(outermostFirst, step);
      outermostFirst := outermostFirst + [step];
    }
    assert [] + Reversed(outermostFirst) == Reversed(outermostFirst);
    path := Some(Reversed(outermostFirst));
  }

  /** Folding a step into an accumulated digest; `None` when the step is malformed. */
  function Absorb(sha: Hash, acc: Bytes, step: Step): Option<Bytes> {
    if step.hash.None? || |step.hash.value| != DIGEST_BYTES then None
    else match step.side
      case Left => Some(NodeHash(sha, step.hash.value, acc))
      case Right => Some(NodeHash(sha, acc, step.hash.value))
      case Unknown(_) => None
  }

  function Fold(sha: Hash, leaf: Bytes, path: seq<Step>): Option<Bytes>
    decreases |path|
  {
    if path == [] then Some(leaf)
    else
      var acc := Fold(sha, leaf, path[..|path| - 1]);
      if acc.None? then None else Absorb(sha, acc.value, path[|path| - 1])
  }

  /** A step names the side on which its sibling stands; one without a digest of the right length,
      or with another side, breaks the proof. */
  lemma StepMeans(sha: Hash, acc: Bytes, h: Bytes, side: string)
    requires |h| == DIGEST_BYTES
    ensures Absorb(sha, acc, Step(Left, Some(h))) == Some(sha([0x01] + h + acc))
    ensures Absorb(sha, acc, Step(Right, Some(h))) == Some(sha([0x01] + acc + h))
    ensures Absorb(sha, acc, Step(Unknown(side), Some(h))) == None && Absorb(sha, acc, Step(Left, None)) == None
  {
  }

  predicate Proves(sha: Hash, leaf: Bytes, path: seq<Step>, root: Bytes) {
    |leaf| == DIGEST_BYTES && |root| == DIGEST_BYTES && Fold(sha, leaf, path) == Some(root)
  }

  lemma {:induction false} BrokenPrefixBreaksFold(sha: Hash, leaf: Bytes, path: seq<Step>, i: nat)
    requires i <= |path| && Fold(sha, leaf, path[..i]).None?
    ensures Fold(sha, leaf, path).None?
    decreases |path| - i
  {
    if i == |path| {
      assert path[..i] == path;
    } else {
      assert path[..i + 1][..i] == path[..i];
      BrokenPrefixBreaksFold(sha, leaf, path, i + 1);
    }
  }

  method VerifyInclusion(sha: Hash, leaf: Bytes, path: seq<Step>, root: Bytes) returns (ok: bool)
    ensures ok <==> Proves(sha, leaf, path, root)
  {
    if |leaf| != DIGEST_BYTES || |root| != DIGEST_BYTES {
      return false;
    }
    var acc := leaf;
    for i := 0 to |path|
      invariant Fold(sha, leaf, path[..i]) == Some(acc)
    {
      assert path[..i + 1][..i] == path[..i];
      var step := path[i];
      if step.hash.None? || |step.hash.value| != DIGEST_BYTES || step.side.Unknown? {
        BrokenPrefixBreaksFold(sha, leaf, path, i + 1);
        return false;
      }
      if step.side.Left? {
        acc := NodeHash(sha, step.hash.value, acc);
      } else {
        acc := NodeHash(sha, acc, step.hash.value);
      }
    }
    assert path[..|path|] == path;
    ok := acc == root;
  }

  lemma {:induction false} MthIsDigest(sha: Hash, leaves: seq<Bytes>)
    requires IsDigestHash(sha) && ValidLeaves(leaves)
    ensures |Mth(sha, leaves)| == DIGEST_BYTES
  {
  }

  /** Completeness: the proof made for a leaf verifies against the root of the batch. */
  lemma {:induction false} HonestProofVerifies(sha: Hash, leaves: seq<Bytes>, index: nat)
    requires IsDigestHash(sha) && ValidLeaves(leaves) && index < |leaves|
    ensures Proves(sha, leaves[index], Path(sha, leaves, index), Mth(sha, leaves))
    decreases |leaves|
  {
    if |leaves| > 1 {
      var k := Split(|leaves|);
      MthIsDigest(sha, leaves[..k]);
      MthIsDigest(sha, leaves[k..]);
      var path := Path(sha, leaves, index);
      var inner := path[..|path| - 1];
      if index < k {
        HonestProofVerifies(sha, leaves[..k], index);
        assert inner == Path(sha, leaves[..k], index);
      } else {
        HonestProofVerifies(sha, leaves[k..], index - k);
        assert inner == Path(sha, leaves[k..], index - k);
      }
    }
  }

  // ---------------------------------------------------------------------------
  // Soundness
  // ---------------------------------------------------------------------------

  /** What an accepted proof amounts to: the place of the entry in the batch, or two different
      inputs with the same hash. */
  datatype Finding = Position(index: nat) | Collision(x: Bytes, y: Bytes)

  ghost predicate Collides(sha: Hash, x: Bytes, y: Bytes) {
    x != y && sha(x) == sha(y)
  }

  lemma NodePreimageSplits(a: Bytes, b: Bytes, c: Bytes, d: Bytes)
    requires |a| == |c| && NodePreimage(a, b) == NodePreimage(c, d)
    ensures a == c && b == d
  {
    assert NodePreimage(a, b)[1..1 + |a|] == a && NodePreimage(c, d)[1..1 + |a|] == c;
    assert NodePreimage(a, b)[1 + |a|..] == b && NodePreimage(c, d)[1 + |a|..] == d;
  }

  lemma LeafIsNoNode(data: Bytes, left: Bytes, right: Bytes)
    ensures LeafPreimage(data) != NodePreimage(left, right)
  {
    assert LeafPreimage(data)[0] == 0 && NodePreimage(left, right)[0] == 1;
  }

  lemma LeafPreimageInjective(a: Bytes, b: Bytes)
    requires LeafPreimage(a) == LeafPreimage(b)
    ensures a == b
  {
    assert LeafPreimage(a)[1..] == a && LeafPreimage(b)[1..] == b;
  }

  lemma LeafHashesSlices(sha: Hash, entries: seq<Bytes>, k: nat)
    requires k <= |entries|
    ensures LeafHashes(sha, entries)[..k] == LeafHashes(sha, entries[..k])
    ensures LeafHashes(sha, entries)[k..] == LeafHashes(sha, entries[k..])
  {
  }

  /** The preimage of the outermost node of a non-empty well-formed path. */
  function OuterPreimage(sha: Hash, leaf: Bytes, path: seq<Step>): (p: Bytes)
    requires path != [] && Fold(sha, leaf, path).Some?
    ensures Fold(sha, leaf, path) == Some(sha(p))
  {
    var last, acc := path[|path| - 1], Fold(sha, leaf, path[..|path| - 1]).value;
    if last.side.Left? then NodePreimage(last.hash.value, acc) else NodePreimage(acc, last.hash.value)
  }

  lemma {:induction false} FoldIsDigest(sha: Hash, leaf: Bytes, path: seq<Step>)
    requires IsDigestHash(sha) && |leaf| == DIGEST_BYTES && Fold(sha, leaf, path).Some?
    ensures |Fold(sha, leaf, path).value| == DIGEST_BYTES
  {
  }

  lemma LeafPreimageDiffers(a: Bytes, b: Bytes)
    requires a != b
    ensures LeafPreimage(a) != LeafPreimage(b)
  {
    if LeafPreimage(a) == LeafPreimage(b) {
      LeafPreimageInjective(a, b);
    }
  }

  lemma OuterIsNoLeaf(sha: Hash, leaf: Bytes, path: seq<Step>, data: Bytes)
    requires path != [] && Fold(sha, leaf, path).Some?
    ensures OuterPreimage(sha, leaf, path) != LeafPreimage(data)
  {
    var last, acc := path[|path| - 1], Fold(sha, leaf, path[..|path| - 1]).value;
    LeafIsNoNode(data, last.hash.value, acc);
    LeafIsNoNode(data, acc, last.hash.value);
  }

  /** If the outermost node has the two halves of the tree as children, the last step carries
      one half and the rest of the path proves the other. */
  lemma OuterSplits(sha: Hash, leaf: Bytes, path: seq<Step>, l: Bytes, r: Bytes)
    requires IsDigestHash(sha) && |leaf| == DIGEST_BYTES
    requires path != [] && Fold(sha, leaf, path).Some?
    requires |l| == DIGEST_BYTES && OuterPreimage(sha, leaf, path) == NodePreimage(l, r)
    ensures
      var last, inner := path[|path| - 1], Fold(sha, leaf, path[..|path| - 1]);
      if last.side.Left? then last == Step(Left, Some(l)) && inner == Some(r)
      else last == Step(Right, Some(r)) && inner == Some(l)
  {
    var last, acc := path[|path| - 1], Fold(sha, leaf, path[..|path| - 1]).value;
    FoldIsDigest(sha, leaf, path[..|path| - 1]);
    if last.side.Left? {
      NodePreimageSplits(last.hash.value, acc, l, r);
    } else {
      NodePreimageSplits(acc, last.hash.value, l, r);
    }
  }

  lemma DigestHalves(sha: Hash, entries: seq<Bytes>, k: nat)
    requires IsDigestHash(sha) && 0 < k < |entries|
    ensures |Mth(sha, LeafHashes(sha, entries[..k]))| == DIGEST_BYTES
    ensures |Mth(sha, LeafHashes(sha, entries[k..]))| == DIGEST_BYTES
  {
    MthIsDigest(sha, LeafHashes(sha, entries[..k]));
    MthIsDigest(sha, LeafHashes(sha, entries[k..]));
  }

  /** What a finding claims. */
  ghost predicate Explains(sha: Hash, entries: seq<Bytes>, entry: Bytes, path: seq<Step>, f: Finding) {
    match f
    case Collision(x, y) => Collides(sha, x, y)
    case Position(index) =>
      && index < |entries|
      && entries[index] == entry
      && path == Path(sha, LeafHashes(sha, entries), index)
  }

  lemma ExplainSingle(sha: Hash, only: Bytes, entry: Bytes, path: seq<Step>) returns (f: Finding)
    requires IsDigestHash(sha)
    requires Proves(sha, sha(LeafPreimage(entry)), path, sha(LeafPreimage(only)))
    ensures Explains(sha, [only], entry, path, f)
  {
    if path != [] {
      OuterIsNoLeaf(sha, sha(LeafPreimage(entry)), path, only);
      f := Collision(OuterPreimage(sha, sha(LeafPreimage(entry)), path), LeafPreimage(only));
    } else if entry == only {
      f := Position(0);
    } else {
      LeafPreimageDiffers(entry, only);
      f := Collision(LeafPreimage(entry), LeafPreimage(only));
    }
  }

  /** A finding for one half of the batch is a finding for the whole of it. */
  lemma LiftFromRight(sha: Hash, entries: seq<Bytes>, entry: Bytes, inner: seq<Step>, f: Finding, k: nat)
    returns (g: Finding)
    requires |entries| >= 2 && k == Split(|entries|) && Explains(sha, entries[k..], entry, inner, f)
    ensures Explains(sha, entries, entry, inner + [Step(Left, Some(Mth(sha, LeafHashes(sha, entries)[..k])))], g)
  {
    g := f;
    if f.Position? {
      g := Position(f.index + k);
      PathOfRight(sha, entries, f.index, k);
    }
  }

  lemma LiftFromLeft(sha: Hash, entries: seq<Bytes>, entry: Bytes, inner: seq<Step>, f: Finding, k: nat)
    returns (g: Finding)
    requires |entries| >= 2 && k == Split(|entries|) && Explains(sha, entries[..k], entry, inner, f)
    ensures Explains(sha, entries, entry, inner + [Step(Right, Some(Mth(sha, LeafHashes(sha, entries)[k..])))], g)
  {
    g := f;
    if f.Position? {
      PathOfLeft(sha, entries, f.index, k);
    }
  }

  /** The path of an entry is its path in its half and the root of the other half. */
  lemma PathOfLeft(sha: Hash, entries: seq<Bytes>, index: nat, k: nat)
    requires |entries| >= 2 && k == Split(|entries|) && index < k
    ensures Path(sha, LeafHashes(sha, entries), index)
            == Path(sha, LeafHashes(sha, entries[..k]), index)
             + [Step(Right, Some(Mth(sha, LeafHashes(sha, entries)[k..])))]
  {
    LeafHashesSlices(sha, entries, k);
  }

  lemma PathOfRight(sha: Hash, entries: seq<Bytes>, index: nat, k: nat)
    requires |entries| >= 2 && k == Split(|entries|) && index < |entries| - k
    ensures Path(sha, LeafHashes(sha, entries), index + k)
            == Path(sha, LeafHashes(sha, entries[k..]), index)
             + [Step(Left, Some(Mth(sha, LeafHashes(sha, entries)[..k])))]
  {
    LeafHashesSlices(sha, entries, k);
    PathGoesRight(sha, LeafHashes(sha, entries), index + k, k);
  }

  lemma PathGoesRight(sha: Hash, leaves: seq<Bytes>, index: nat, k: nat)
    requires |leaves| >= 2 && k == Split(|leaves|) && k <= index < |leaves|
    ensures Path(sha, leaves, index)
            == Path(sha, leaves[k..], index - k) + [Step(Left, Some(Mth(sha, leaves[..k])))]
  {
  }

  /** Soundness, by extraction. Whatever path is accepted for an entry against the root of a
      batch, either the entry is in the batch and the path is the honest one for its place, or
      a collision of the hash is handed over. A hand-made path, a path that is too short or
      too long, and an interior node passed off as an entry all end in the second case. */
  lemma {:induction false} AcceptedProofIsExplained(sha: Hash, entries: seq<Bytes>, entry: Bytes, path: seq<Step>)
    returns (f: Finding)
    requires IsDigestHash(sha) && entries != []
    requires Proves(sha, sha(LeafPreimage(entry)), path, Mth(sha, LeafHashes(sha, entries)))
    ensures Explains(sha, entries, entry, path, f)
    decreases |entries|
  {
    if |entries| == 1 {
      f := ExplainSingle(sha, entries[0], entry, path);
      assert [entries[0]] == entries;
      return;
    }
    var leaf, leaves := sha(LeafPreimage(entry)), LeafHashes(sha, entries);
    var k := Split(|entries|);
    LeafHashesSlices(sha, entries, k);
    DigestHalves(sha, entries, k);
    var l, r := Mth(sha, leaves[..k]), Mth(sha, leaves[k..]);
    if path == [] {
      LeafIsNoNode(entry, l, r);
      f := Collision(LeafPreimage(entry), NodePreimage(l, r));
    } else if OuterPreimage(sha, leaf, path) != NodePreimage(l, r) {
      f := Collision(OuterPreimage(sha, leaf, path), NodePreimage(l, r));
    } else {
      OuterSplits(sha, leaf, path, l, r);
      var inner := path[..|path| - 1];
      assert path == inner + [path[|path| - 1]];
      if path[|path| - 1].side.Left? {
        f := AcceptedProofIsExplained(sha, entries[k..], entry, inner);
        f := LiftFromRight(sha, entries, entry, inner, f, k);
      } else {
        f := AcceptedProofIsExplained(sha, entries[..k], entry, inner);
        f := LiftFromLeft(sha, entries, entry, inner, f, k);
      }
    }
  }

  // ---------------------------------------------------------------------------
  // A root commits to its batch
  // ---------------------------------------------------------------------------

  lemma SameHalves(a: seq<Bytes>, b: seq<Bytes>, j: nat, k: nat)
    requires j <= |a| && k <= |b| && a[..j] == b[..k] && a[j..] == b[k..]
    ensures a == b
  {
    assert a == a[..j] + a[j..] && b == b[..k] + b[k..];
  }

  /** Two batches with one root are one batch, in content, order and size, or a collision of
      the hash is handed over. */
  lemma {:induction false} RootCommitsToBatch(sha: Hash, a: seq<Bytes>, b: seq<Bytes>)
    returns (x: Bytes, y: Bytes)
    requires IsDigestHash(sha) && a != [] && b != []
    requires Mth(sha, LeafHashes(sha, a)) == Mth(sha, LeafHashes(sha, b))
    ensures a == b || Collides(sha, x, y)
    decreases |a| + |b|
  {
    x, y := RootPreimage(sha, a), RootPreimage(sha, b);
    if x == y {
      if |a| == 1 && |b| == 1 {
        LeafPreimageInjective(a[0], b[0]);
        assert a == [a[0]] && b == [b[0]];
      } else if |a| == 1 || |b| == 1 {
        LeafAndNodePreimagesDiffer(sha, a, b);
      } else {
        var j, k := Split(|a|), Split(|b|);
        HalvesOfRoot(sha, a, b);
        x, y := RootCommitsToBatch(sha, a[..j], b[..k]);
        if a[..j] == b[..k] {
          x, y := RootCommitsToBatch(sha, a[j..], b[k..]);
          if a[j..] == b[k..] {
            SameHalves(a, b, j, k);
          }
        }
      }
    }
  }

  /** The input whose hash is the root of a batch. */
  function RootPreimage(sha: Hash, entries: seq<Bytes>): (p: Bytes)
    requires entries != []
    ensures sha(p) == Mth(sha, LeafHashes(sha, entries))
  {
    if |entries| == 1 then LeafPreimage(entries[0])
    else
      var k, leaves := Split(|entries|), LeafHashes(sha, entries);
      NodePreimage(Mth(sha, leaves[..k]), Mth(sha, leaves[k..]))
  }

  lemma LeafAndNodePreimagesDiffer(sha: Hash, a: seq<Bytes>, b: seq<Bytes>)
    requires a != [] && b != [] && (|a| == 1) != (|b| == 1)
    ensures RootPreimage(sha, a) != RootPreimage(sha, b)
  {
    var one, many := if |a| == 1 then a else b, if |a| == 1 then b else a;
    var k, leaves := Split(|many|), LeafHashes(sha, many);
    LeafIsNoNode(one[0], Mth(sha, leaves[..k]), Mth(sha, leaves[k..]));
  }

  lemma HalvesOfRoot(sha: Hash, a: seq<Bytes>, b: seq<Bytes>)
    requires IsDigestHash(sha) && |a| >= 2 && |b| >= 2
    requires RootPreimage(sha, a) == RootPreimage(sha, b)
    ensures var j, k := Split(|a|), Split(|b|);
            && Mth(sha, LeafHashes(sha, a[..j])) == Mth(sha, LeafHashes(sha, b[..k]))
            && Mth(sha, LeafHashes(sha, a[j..])) == Mth(sha, LeafHashes(sha, b[k..]))
  {
    var j, k := Split(|a|), Split(|b|);
    LeafHashesSlices(sha, a, j);
    LeafHashesSlices(sha, b, k);
    DigestHalves(sha, a, j);
    DigestHalves(sha, b, k);
    NodePreimageSplits(Mth(sha, LeafHashes(sha, a)[..j]), Mth(sha, LeafHashes(sha, a)[j..]),
                       Mth(sha, LeafHashes(sha, b)[..k]), Mth(sha, LeafHashes(sha, b)[k..]));
  }

  /** The commitment rests on leaves being hashed with their own prefix. Over bare digests the
      tree is ambiguous: a batch of two has the root of the batch of their parent alone. */
  lemma BareDigestsAreAmbiguous(sha: Hash, a: Bytes, b: Bytes)
    ensures Mth(sha, [a, b]) == Mth(sha, [NodeHash(sha, a, b)])
  {
    assert [a, b][..1] == [a] && [a, b][1..] == [b];
  }

  // ---------------------------------------------------------------------------
  // How much a proof discloses
  // ---------------------------------------------------------------------------

  function TreeDepth(count: nat): nat {
    if count <= 1 then 0 else BitLength(count - 1)
  }

  lemma {:induction false} BitLengthMonotone(m: nat, n: nat)
    requires m <= n
    ensures BitLength(m) <= BitLength(n)
  {
    if m > 0 {
      BitLengthMonotone(m / 2, n / 2);
    }
  }

  lemma DepthSplits(n: nat)
    requires n >= 2
    ensures TreeDepth(n) == 1 + TreeDepth(Split(n))
    ensures TreeDepth(n - Split(n)) <= TreeDepth(Split(n))
  {
    DepthOfPow2(BitLength(n - 1) - 1);
    DepthMonotone(n - Split(n), Split(n));
  }

  lemma DepthMonotone(m: nat, n: nat)
    requires 1 <= m <= n
    ensures TreeDepth(m) <= TreeDepth(n)
  {
    if m > 1 {
      BitLengthMonotone(m - 1, n - 1);
    }
  }

  lemma DepthOfPow2(k: nat)
    ensures TreeDepth(Pow2(k)) == k
  {
    BitLengthOfPow2Pred(k);
  }

  /** A path is one step longer than the path in the half. */
  lemma PathLength(sha: Hash, leaves: seq<Bytes>, index: nat, k: nat)
    requires |leaves| >= 2 && index < |leaves| && k == Split(|leaves|)
    ensures index < k ==> |Path(sha, leaves, index)| == |Path(sha, leaves[..k], index)| + 1
    ensures index >= k ==> |Path(sha, leaves, index)| == |Path(sha, leaves[k..], index - k)| + 1
  {
  }

  /** The displayed depth is the length of the longest proof: no proof is longer, and the
      proof of the first entry is exactly that long. */
  lemma {:induction false} DepthIsLongestProof(sha: Hash, leaves: seq<Bytes>, index: nat)
    requires index < |leaves|
    ensures |Path(sha, leaves, index)| <= TreeDepth(|leaves|)
    ensures index == 0 ==> |Path(sha, leaves, index)| == TreeDepth(|leaves|)
    decreases |leaves|
  {
    if |leaves| > 1 {
      var k := Split(|leaves|);
      DepthSplits(|leaves|);
      PathLength(sha, leaves, index, k);
      if index < k {
        DepthIsLongestProof(sha, leaves[..k], index);
      } else {
        DepthIsLongestProof(sha, leaves[k..], index - k);
      }
    }
  }
}
