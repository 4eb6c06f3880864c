/** Explicit synchronization as a stepped protocol: Pull pages against a frozen
    target, Push acknowledges chunks by compare-and-swap. The server is whatever
    answers; local edits may happen between any two steps. */
module Sync {
  import opened Common
  import opened Hex
  import opened GraphModel
  import opened Blocks
  import opened History
  import opened Ledger
  import opened Sizes
  import opened OpLog
  import opened Session
  import opened PushChunks

  // ------------------------------------------------------------------
  // heads, pages, remote identity
  // ------------------------------------------------------------------

  datatype HeadRelation = Same | RemoteAhead | LocalAhead | Diverges | InvalidRemote

  function CompareHeads(local: seq<Block>, remoteLen: nat, remoteHead: string): HeadRelation {
    if remoteLen == 0 || local == [] then InvalidRemote
    else if remoteLen > |local| then RemoteAhead
    else if local[remoteLen - 1].hash != remoteHead then Diverges
    else if remoteLen == |local| then Same
    else LocalAhead
  }

  /** `(len, head)` names a prefix of the local history. */
  predicate Checkpoint(local: seq<Block>, len: nat, head: string) {
    0 < len <= |local| && local[len - 1].hash == head
  }

  /** A remote head counts as ours exactly when it is a local checkpoint; equal
      lengths alone never do. */
  lemma PrefixMeansCheckpoint(local: seq<Block>, len: nat, head: string)
    ensures CompareHeads(local, len, head) in {Same, LocalAhead} <==> Checkpoint(local, len, head)
    ensures CompareHeads(local, len, head) == Same <==> Checkpoint(local, len, head) && len == |local|
    ensures CompareHeads(local, len, head) == Diverges <==> 0 < len <= |local| && !Checkpoint(local, len, head)
    ensures local != [] ==> (CompareHeads(local, len, head) == RemoteAhead <==> len > |local|)
  {
  }

  datatype PageError = PassedTarget | NonContiguous(next: nat) | EndedEarly

  function NextPage(currentLen: nat, targetLen: nat, advertised: Option<nat>): Result<Option<nat>, PageError> {
    if currentLen > targetLen then Err(PassedTarget)
    else if currentLen == targetLen then Ok(None)
    else
      match advertised
      case Some(next) => if next == currentLen then Ok(Some(next)) else Err(NonContiguous(next))
      case None => Err(EndedEarly)
  }

  datatype RemoteInfo = RemoteInfo(
    projectId: string, genesisHash: string, chainFormat: nat, chainId: Option<string>,
    len: nat, head: string, readOnly: bool)

  datatype PageState = PageState(len: nat, head: string, genesis: string)

  /** `validate_remote_identity`, for a chain whose genesis validates. */
  predicate IdentityMatches(c: Primitives, local: seq<Block>, pristine: bool, requested: string, info: RemoteInfo)
    requires local != [] && ValidateGenesis(c, local[0]).Ok?
  {
    var kind := ValidateGenesis(c, local[0]).value;
    && (info.projectId == "" || info.projectId == requested)
    && (info.genesisHash == "" || info.genesisHash == local[0].hash || pristine)
    && (info.genesisHash == local[0].hash ==>
          match kind
          case Legacy => info.chainFormat == 1 && info.chainId.None?
          case Scoped(id) => info.chainFormat == 2 && info.chainId == Some(id))
  }

  /** A reply is ours to use exactly when it names the requested project or none, has
      our genesis or none unless we are still pristine, and, with our genesis, has the
      format and chain id our genesis message stands for. */
  lemma IdentityIsExact(c: Primitives, local: seq<Block>, pristine: bool, requested: string, info: RemoteInfo)
    requires local != [] && ValidateGenesis(c, local[0]).Ok?
    ensures IdentityMatches(c, local, pristine, requested, info) <==>
      && info.projectId in {"", requested}
      && (info.genesisHash !in {"", local[0].hash} ==> pristine)
      && (info.genesisHash == local[0].hash ==>
            if local[0].message == "MantisCAD genesis" then info.chainFormat == 1 && info.chainId.None?
            else info.chainFormat == 2 && info.chainId.Some?
                 && local[0].message == "MantisCAD genesis v2:" + info.chainId.value)
  {
    GenesisIsExact(c, local[0]);
    GenesisMessages(local[0].message);
    hide ValidateGenesis, IsLowerHex, ComputeHash, Zeros;
  }

  lemma GenesisMessages(message: string)
    ensures forall id :: message == "MantisCAD genesis v2:" + id ==> message != "MantisCAD genesis"
    ensures forall id, other ::
      message == "MantisCAD genesis v2:" + id && message == "MantisCAD genesis v2:" + other ==> id == other
  {
    forall id, other | message == "MantisCAD genesis v2:" + id && message == "MantisCAD genesis v2:" + other
      ensures id == other
    {
      assert message[21..] == id && message[21..] == other;
    }
    forall id | message == "MantisCAD genesis v2:" + id ensures message != "MantisCAD genesis" {
      assert |message| >= 21;
    }
  }

  // ------------------------------------------------------------------
  // push progress
  // ------------------------------------------------------------------

  datatype PushError =
    | BaseOutside | BaseNotPrefix | AlreadyInFlight | EndOutsideTarget
    | NothingInFlight | LengthMismatch | HeadNotLocal | AppendedMismatch

  class PushProgress {
    var targetLen: nat
    var acknowledgedLen: nat
    var acknowledgedHead: string
    var totalAppended: nat
    var inflightEnd: Option<nat>
    ghost var baseLen: nat
    ghost var accepted: seq<(nat, nat)>

    /** The acknowledged state is a local checkpoint at or below the frozen
        target, reached by contiguous non-empty chunks from the base. */
    ghost predicate Valid(local: seq<Block>)
      reads this
    {
      && 0 < baseLen && acknowledgedLen <= targetLen <= |local|
      && Checkpoint(local, acknowledgedLen, acknowledgedHead)
      && baseLen + totalAppended == acknowledgedLen
      && (inflightEnd.Some? ==> acknowledgedLen < inflightEnd.value <= targetLen)
      && (forall i :: 0 <= i < |accepted| ==> accepted[i].0 < accepted[i].1)
      && (forall i :: 0 <= i < |accepted| - 1 ==> accepted[i].1 == accepted[i + 1].0)
      && (if accepted == [] then acknowledgedLen == baseLen
          else accepted[0].0 == baseLen && accepted[|accepted| - 1].1 == acknowledgedLen)
    }

    constructor Start(local: seq<Block>, baseLen: nat, baseHead: string)
      requires Checkpoint(local, baseLen, baseHead)
      ensures Valid(local) && targetLen == |local| && acknowledgedLen == this.baseLen == baseLen
      ensures acknowledgedHead == baseHead && totalAppended == 0 && inflightEnd.None? && accepted == []
    {
      targetLen := |local|;
      acknowledgedLen := baseLen;
      acknowledgedHead := baseHead;
      totalAppended := 0;
      inflightEnd := None;
      this.baseLen := baseLen;
      accepted := [];
    }

    /** Start from a remote checkpoint, if it is one of ours. */
    static method Begin(local: seq<Block>, baseLen: nat, baseHead: string) returns (r: Result<PushProgress, PushError>)
      ensures r.Ok? <==> Checkpoint(local, baseLen, baseHead)
      ensures r.Err? ==> r.error == if baseLen == 0 || baseLen > |local| then BaseOutside else BaseNotPrefix
      ensures r.Ok? ==>
        var p := r.value;
        && fresh(p) && p.Valid(local) && p.targetLen == |local| && p.acknowledgedLen == p.baseLen == baseLen
        && p.acknowledgedHead == baseHead && p.totalAppended == 0 && p.inflightEnd.None? && p.accepted == []
    {
      if baseLen == 0 || baseLen > |local| {
        return Err(BaseOutside);
      }
      if local[baseLen - 1].hash != baseHead {
        return Err(BaseNotPrefix);
      }
      var progress := new PushProgress.Start(local, baseLen, baseHead);
      return Ok(progress);
    }

    /** Local commits only lengthen the history, which progress survives. */
    lemma SurvivesGrowth(local: seq<Block>, longer: seq<Block>)
      requires Valid(local) && local <= longer
      ensures Valid(longer)
    {
      assert longer[acknowledgedLen - 1] == local[acknowledgedLen - 1];
    }

    method MarkInflight(endLen: nat) returns (r: Result<(), PushError>)
      modifies this`inflightEnd
      ensures r.Ok? <==> old(inflightEnd).None? && acknowledgedLen < endLen <= targetLen
      ensures inflightEnd == if r.Ok? then Some(endLen) else old(inflightEnd)
      ensures forall local :: old(Valid(local)) ==> Valid(local)
    {
      if inflightEnd.Some? {
        return Err(AlreadyInFlight);
      }
      if endLen <= acknowledgedLen || endLen > targetLen {
        return Err(EndOutsideTarget);
      }
      inflightEnd := Some(endLen);
      return Ok(());
    }

    /** Validate one reply. Only the exact end of the chunk in flight, with the
        local head there and the exact block count, advances; every accepted
        reply brings the target strictly closer. */
    method Acknowledge(local: seq<Block>, len: nat, head: string, appended: nat) returns (r: Result<bool, PushError>)
      requires Valid(local)
      modifies this
      ensures Valid(local) && targetLen == old(targetLen) && baseLen == old(baseLen)
      ensures r.Ok? <==>
        old(inflightEnd) == Some(len) && Checkpoint(local, len, head) && appended == len - old(acknowledgedLen)
      ensures r.Err? ==>
        && acknowledgedLen == old(acknowledgedLen) && acknowledgedHead == old(acknowledgedHead)
        && totalAppended == old(totalAppended) && inflightEnd == old(inflightEnd) && accepted == old(accepted)
      ensures r.Ok? ==>
        && acknowledgedLen == len && acknowledgedHead == head && inflightEnd.None?
        && accepted == old(accepted) + [(old(acknowledgedLen), len)]
        && targetLen - acknowledgedLen < targetLen - old(acknowledgedLen)
        && r.value == (acknowledgedLen == targetLen)
        && totalAppended == acknowledgedLen - baseLen
    {
      if inflightEnd.None? {
        return Err(NothingInFlight);
      }
      var expectedEnd := inflightEnd.value;
      if len != expectedEnd {
        return Err(LengthMismatch);
      }
      if local[len - 1].hash != head {
        return Err(HeadNotLocal);
      }
      if appended != expectedEnd - acknowledgedLen {
        return Err(AppendedMismatch);
      }
      accepted := accepted + [(acknowledgedLen, len)];
      acknowledgedLen := len;
      acknowledgedHead := head;
      totalAppended := totalAppended + appended;
      inflightEnd := None;
      return Ok(acknowledgedLen == targetLen);
    }
  }

  // ------------------------------------------------------------------
  // pull pages on values
  // ------------------------------------------------------------------

  /** A page cut to what the frozen target still lacks. */
  function Truncated(blocks: seq<Block>, from: nat, targetLen: nat): seq<Block> {
    var remaining := if targetLen > from then targetLen - from else 0;
    if |blocks| > remaining then blocks[..remaining] else blocks
  }

  lemma TruncatedBound(blocks: seq<Block>, from: nat, targetLen: nat)
    ensures from <= targetLen ==> from + |Truncated(blocks, from, targetLen)| <= targetLen
  {
  }

  lemma {:induction false} FirstCopiesBound(known: nat, offered: seq<Block>)
    ensures |FirstCopies(known, offered)| <= |offered|
    ensures FirstCopies(known, offered) != [] <==> exists b :: b in offered && b.index >= known
    decreases |offered|
  {
    if offered != [] {
      var init, last := offered[..|offered| - 1], offered[|offered| - 1];
      FirstCopiesBound(known, init);
      assert forall b :: b in offered <==> b in init || b == last;
      if last.index >= known && FirstCopies(known, init) == [] {
        assert forall b :: b in init ==> b.index < known;
      }
    }
  }

  /** No accepted page takes the chain past the frozen target, and a page makes
      progress exactly when it carries a block the chain lacks. */
  lemma {:induction false} AcceptedPageMoves(c: Primitives, local: seq<Block>, blocks: seq<Block>, targetLen: nat)
    requires Valid(c, local)
    ensures var page := Truncated(blocks, |local|, targetLen);
            var r := ExtendOutcome(c, local, page);
            r.Ok? ==>
              && local <= r.value.0
              && (|r.value.0| <= targetLen || r.value.0 == local)
              && (|r.value.0| > |local| <==> exists b :: b in page && b.index >= |local|)
  {
    var page := Truncated(blocks, |local|, targetLen);
    ExtensionRefinesValidation(c, local, page);
    FirstCopiesBound(|local|, page);
  }

  /** A page whose blocks start at the requested offset strictly shrinks the
      distance to the target. */
  lemma {:induction false} ContiguousPageProgresses(
    c: Primitives, local: seq<Block>, blocks: seq<Block>, targetLen: nat)
    requires Valid(c, local) && |local| < targetLen
    requires blocks != [] && blocks[0].index == |local|
    ensures var r := ExtendOutcome(c, local, Truncated(blocks, |local|, targetLen));
            r.Ok? ==> targetLen - |r.value.0| < targetLen - |local| && |r.value.0| <= targetLen
  {
    AcceptedPageMoves(c, local, blocks, targetLen);
    assert blocks[0] in Truncated(blocks, |local|, targetLen);
  }

  /** The converse family: a page of blocks already held is accepted yet appends
      nothing, so a server that keeps repeating it is never left behind. */
  lemma {:induction false} RepeatedPageStalls(c: Primitives, local: seq<Block>, k: nat, targetLen: nat)
    requires Valid(c, local) && k <= |local|
    ensures var page := Truncated(local[..k], |local|, targetLen);
            ExtendOutcome(c, local, page) == Ok((local, ReplayBlocks(local).value))
  {
    var page := Truncated(local[..k], |local|, targetLen);
    assert exists n :: 0 <= n <= |local| && page == local[..n] by {
      assert page == local[..|page|];
    }
    var n :| 0 <= n <= |local| && page == local[..n];
    Commitment.SharedOffersAddNothing(c, local, local, n);
    assert local + [] == local;
  }
}
