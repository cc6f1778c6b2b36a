/** The service that prepares seals and moves them to the ledger, statement by statement. What
    the ledger answers is a parameter of each call. */
module SealService {
  import opened Basics
  import L = LedgerSpec
  import opened SealOutbox

  class Service {
    var posts: seq<Posting>
    var places: seq<Place>
    var rows: seq<Row>

    ghost function Tables(): Table reads this { Table(posts, places, rows) }

    constructor ()
      ensures Tables() == START.db
    {
      posts, places, rows := [], [], [];
    }

    method RecordLeaf(p: Posting) returns (leafSeq: nat)
      requires Sized(Tables())
      modifies this
      ensures Tables() == Table(old(posts) + [p], old(places) + [Loose], old(rows))
      ensures leafSeq == |posts| && Sized(Tables())
    {
      leafSeq := |posts| + 1;
      posts := posts + [p];
      places := places + [Loose];
    }

    /** Stamps a batch's leaves one by one, in tree order. */
    method AssignToSeal(batch: seq<nat>, row: nat)
      requires Within(batch, |places|)
      modifies this`places
      ensures places == Assign(old(places), batch, row)
    {
      ghost var before := places;
      var index := 0;
      while index < |batch|
        invariant 0 <= index <= |batch|
        invariant |places| == |before|
        invariant places == Assign(before, batch[..index], row)
      {
        assert batch[..index + 1][..index] == batch[..index];
        places := places[batch[index] := Placed(row, index)];
        index := index + 1;
      }
      assert batch[..index] == batch;
    }

    method ReleaseFromSeal(row: nat)
      modifies this`places
      ensures places == Release(old(places), row)
    {
      ghost var before := places;
      var p := 0;
      while p < |places|
        invariant 0 <= p <= |places| == |before|
        invariant forall q: nat | q < p :: places[q] == Release(before, row)[q]
        invariant forall q: nat | p <= q < |places| :: places[q] == before[q]
      {
        if places[p].Placed? && places[p].row == row {
          places := places[p := Loose];
        }
        p := p + 1;
      }
    }

    method CreateSeal(c: Config) returns (made: bool)
      requires Sized(Tables())
      modifies this
      ensures Tables() == SealOutbox.CreateSeal(c, old(Tables()))
      ensures made <==> Tables() != old(Tables())
    {
      made := false;
      if ExistsOpen(rows) {
        return;
      }
      var batch := Take(Unsealed(places), c.limit);
      if batch == [] {
        return;
      }
      var previous := LatestConfirmed(rows);
      var row := Prepare(c, Pick(posts, batch), batch[0] + 1, batch[|batch| - 1] + 1, HighestLive(rows) + 1, previous);
      rows := rows + [row];
      AssignToSeal(batch, |rows| - 1);
      made := true;
    }

    method Fail(i: nat)
      requires i < |rows|
      modifies this
      ensures Tables() == SealOutbox.Fail(old(Tables()), i)
    {
      rows := rows[i := rows[i].(status := Failed)];
      ReleaseFromSeal(i);
    }

    method ResolveAgainstChain(i: nat, chain: seq<L.Seal>)
      requires i < |rows|
      modifies this
      ensures Tables() == Resolve(old(Tables()), i, chain)
    {
      var seqNo := rows[i].seqNo;
      if seqNo < 1 || seqNo > |chain| {
        Fail(i);
      } else if chain[seqNo - 1].req.root != rows[i].root {
        Fail(i);
      } else {
        rows := rows[i := rows[i].(status := Confirmed)];
      }
    }

    method Submit(i: nat, chain: seq<L.Seal>, ready: bool, reachable: bool) returns (out: Option<L.Request>)
      requires i < |rows|
      modifies this
      ensures (Tables(), out) == SealOutbox.Submit(old(Tables()), i, chain, ready, reachable)
    {
      out := None;
      if !ready {
        Fail(i);
        return;
      }
      if !reachable {
        return;
      }
      var head := |chain|;
      if head >= rows[i].seqNo {
        ResolveAgainstChain(i, chain);
        return;
      }
      if head < rows[i].seqNo - 1 {
        return;
      }
      if L.HeadRoot(chain) != rows[i].prev {
        Fail(i);
        return;
      }
      var seal := rows[i];
      rows := rows[i := seal.(attempts := seal.attempts + 1)];
      rows := rows[i := rows[i].(status := Submitted)];
      assert rows == old(rows)[i := seal.(status := Submitted, attempts := seal.attempts + 1)];
      if Sendable(seal) {
        out := Some(RequestOf(seal));
      }
    }

    method ApplyOutcome(i: nat, chain: seq<L.Seal>, outcome: Outcome)
      requires i < |rows|
      modifies this
      ensures Tables() == SealOutbox.ApplyOutcome(old(Tables()), i, chain, outcome)
    {
      match outcome {
        case Landed =>
          rows := rows[i := rows[i].(status := Confirmed)];
        case Unknown =>
          rows := rows[i := rows[i].(status := Submitted)];
        case Rejected(outOfOrder) =>
          if outOfOrder {
            ResolveAgainstChain(i, chain);
            return;
          }
          rows := rows[i := rows[i].(status := Pending)];
          if rows[i].attempts >= MAX_ATTEMPTS {
            Fail(i);
          }
      }
    }
  }
}
