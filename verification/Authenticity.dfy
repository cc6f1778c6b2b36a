/** What a seal proves. The ledger, the hash tree and the canonical encoding together: a proof
    bundle that is accepted against a root the ledger confirms speaks for an entry that was in
    the batch when it was sealed. */
module Authenticity {
  import opened Bytes
  import opened LedgerSpec
  import LedgerRuns
  import Merkle
  import Canonical

  /** The canonical bytes of every entry of a batch. */
  function BatchBytes(batch: seq<Canonical.Payload>): (entries: seq<Bytes>)
    requires forall i | 0 <= i < |batch| :: Canonical.Encodable(batch[i])
    ensures |entries| == |batch|
    ensures forall i | 0 <= i < |batch| :: entries[i] == Canonical.EncodeEntry(batch[i]).value
  {
    seq(|batch|, i requires 0 <= i < |batch| => Canonical.EncodeEntry(batch[i]).value)
  }

  ghost predicate Sealable(batch: seq<Canonical.Payload>) {
    && batch != []
    && forall i | 0 <= i < |batch| :: Canonical.Encodable(batch[i]) && Canonical.ClearPayload(batch[i])
  }

  function BatchRoot(sha: Merkle.Hash, batch: seq<Canonical.Payload>): Digest
    requires batch != [] && forall i | 0 <= i < |batch| :: Canonical.Encodable(batch[i])
  {
    Digest(Merkle.Mth(sha, Merkle.LeafHashes(sha, BatchBytes(batch))))
  }

  /** The bundle check: hash the entry as a leaf, fold the path, compare with what the ledger
      holds at that number now. */
  ghost predicate BundleAccepted(sha: Merkle.Hash, l: Ledger, org: Digest, seqNo: nat,
                                 p: Canonical.Payload, path: seq<Merkle.Step>, root: Digest)
  {
    && Canonical.Encodable(p)
    && Merkle.Proves(sha, sha(Merkle.LeafPreimage(Canonical.EncodeEntry(p).value)), path, root.bytes)
    && Verifies(l, org, seqNo, root)
  }

  /** An entry of a sealed batch can be proved at any later time: the honest bundle is accepted
      after every continuation of the run. */
  lemma HonestBundleAcceptedForever(sha: Merkle.Hash, l: Ledger, later: seq<Invocation>, org: Digest,
                                    seqNo: nat, batch: seq<Canonical.Payload>, index: nat)
    requires Merkle.IsDigestHash(sha) && Sealable(batch) && index < |batch|
    requires Verifies(l, org, seqNo, BatchRoot(sha, batch))
    ensures BundleAccepted(sha, Run(l, later), org, seqNo, batch[index],
              Merkle.Path(sha, Merkle.LeafHashes(sha, BatchBytes(batch)), index), BatchRoot(sha, batch))
  {
    Merkle.HonestProofVerifies(sha, Merkle.LeafHashes(sha, BatchBytes(batch)), index);
    LedgerRuns.VerdictIsPermanent(l, later, org, seqNo, BatchRoot(sha, batch));
  }

  /** A seal pins its batch. Suppose a batch was sealed at a number and, after any further use
      of the ledger by anybody, a bundle is accepted at that number. Then the entry shown is
      the entry sealed, field by field and line by line, at the place the path names; or the
      hash function has been broken and `f` holds the two colliding inputs. */
  lemma AcceptedBundleIsAuthentic(sha: Merkle.Hash, l: Ledger, later: seq<Invocation>, org: Digest,
                                  seqNo: nat, batch: seq<Canonical.Payload>,
                                  shown: Canonical.Payload, path: seq<Merkle.Step>, root: Digest)
    returns (f: Merkle.Finding)
    requires Merkle.IsDigestHash(sha) && Sealable(batch) && Canonical.ClearPayload(shown)
    requires Verifies(l, org, seqNo, BatchRoot(sha, batch))
    requires BundleAccepted(sha, Run(l, later), org, seqNo, shown, path, root)
    ensures match f
      case Collision(x, y) => Merkle.Collides(sha, x, y)
      case Position(index) =>
        && index < |batch|
        && Canonical.AreLines(batch[index].lines)
        && batch[index].fields == shown.fields
        && Canonical.Sorted(batch[index].lines) == Canonical.Sorted(shown.lines)
        && path == Merkle.Path(sha, Merkle.LeafHashes(sha, BatchBytes(batch)), index)
  {
    LedgerRuns.VerdictIsPermanent(l, later, org, seqNo, BatchRoot(sha, batch));
    var bytes := Canonical.EncodeEntry(shown).value;
    f := Merkle.AcceptedProofIsExplained(sha, BatchBytes(batch), bytes, path);
    if f.Position? {
      Canonical.EncodingIsUnambiguous(batch[f.index], shown);
    }
  }
}
