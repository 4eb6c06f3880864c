/** The sync state machine of the application: what it does with each event the
    server's replies turn into, around a document that may change in between. */
module Peer {
  import opened Common
  import opened Blocks
  import opened GraphModel
  import opened History
  import opened Ledger
  import opened Session
  import opened PushChunks
  import opened Sync

  datatype Flow = Idle | Pulling | Pushing

  datatype Request = FetchBlocks(from: nat) | PostChunk(base: nat, end: nat, body: string)

  datatype Report =
    | IdentityRejected | ReadOnlyAccess | RemoteIsAhead | Divergent
    | UpToDate | LocalCommitsAhead | NothingToPush
    | NoTarget | RemoteChanged | PageNotContiguous | EmptyPage | MergeRejected | PaginationFailed | TargetHeadMismatch
    | Opened(len: nat)
    | PushCannotStart | InvalidReply | PushStopped
    | Pushed(total: nat, len: nat)

  datatype SyncEvent =
    | Info(info: RemoteInfo)
    | Page(from: nat, blocks: seq<Block>, nextFrom: Option<nat>, state: PageState)
    | PushOk(len: nat, head: string, appended: nat)
    | PushConflict
    | Failed

  /** Why a page cannot follow what has been fetched so far, if it cannot: the
      remote changed, the page starts elsewhere, or it ends before the target. */
  function PageProblem(
    target: RemoteInfo, from: nat, expected: nat, blocks: seq<Block>, page: PageState
  ): (r: Option<Report>)
    ensures r.Some? && from != expected ==> r.value in {RemoteChanged, PageNotContiguous}
    ensures r == Some(RemoteChanged) <==>
      (page.genesis != target.genesisHash || page.len < target.len
       || (page.len == target.len && page.head != target.head))
    ensures r.None? ==> from == expected && (Truncated(blocks, from, target.len) == [] ==> from >= target.len)
    ensures r.Some? ==> !r.value.Opened?
  {
    if page.genesis != target.genesisHash || page.len < target.len
       || (page.len == target.len && page.head != target.head) then
      Some(RemoteChanged)
    else if from != expected then Some(PageNotContiguous)
    else if Truncated(blocks, from, target.len) == [] && from < target.len then Some(EmptyPage)
    else None
  }

  /** The remote describes the format and chain id that the genesis message stands for. */
  predicate OwnFormat(info: RemoteInfo, message: string) {
    if message == "MantisCAD genesis" then info.chainFormat == 1 && info.chainId.None?
    else info.chainFormat == 2 && info.chainId.Some? && message == "MantisCAD genesis v2:" + info.chainId.value
  }

  /** Where the page handler expects the next page to start. */
  function ExpectedStart(adopting: bool, localLen: nat): nat {
    if adopting then 0 else localLen
  }

  /** A bare genesis opens a remote history that has another genesis. */
  predicate NeedsAdoption(local: seq<Block>, pristine: bool, info: RemoteInfo)
    requires local != []
  {
    info.genesisHash != "" && info.genesisHash != local[0].hash && pristine
  }

  /** What taking a page makes of the local history, if the page is accepted: a Pull
      that adopts needs a bare genesis, nothing pending and a page that is a whole
      valid history; any other Pull extends what is there. */
  ghost function PageOutcome(
    c: Primitives, local: seq<Block>, pending: seq<GraphOp>, adopting: bool, kept: seq<Block>
  ): Option<seq<Block>>
    requires local != []
  {
    if adopting then (if |local| == 1 && pending == [] && History.Valid(c, kept) then Some(kept) else None)
    else
      match ExtendOutcome(c, local, kept)
      case Ok(extended) => Some(extended.0)
      case Err(_) => None
  }

  /** How a Pull goes on after a page: exactly at the target it is done, short of
      it the server must point at the very next block. */
  ghost predicate Continued(
    flow: Flow, report: Option<Report>, local: seq<Block>, target: RemoteInfo, nextFrom: Option<nat>)
  {
    && (!flow.Idle? <==> |local| < target.len && nextFrom == Some(|local|))
    && (flow.Idle? && report.Some? && report.value.Opened? <==>
          flow.Idle? && report == Some(Opened(target.len))
          && local != [] && |local| == target.len && local[|local| - 1].hash == target.head)
    && (local != [] && |local| == target.len && local[|local| - 1].hash == target.head ==>
          flow.Idle? && report == Some(Opened(target.len)))
  }

  class App {
    var doc: Document
    var projectId: string
    var flow: Flow
    var lastInfo: Option<RemoteInfo>
    var adopting: bool
    var progress: PushProgress?
    var remoteAhead: bool
    var request: Option<Request>
    var report: Option<Report>

    /** The document keeps its own invariant, and push progress stays a local
        checkpoint strictly short of nothing it has not earned. */
    ghost predicate Valid()
      reads this, doc, doc.chain, progress
    {
      && doc.Valid()
      && (progress != null ==> progress.Valid(doc.chain.blocks) && progress.baseLen < progress.targetLen)
    }

    function Local(): seq<Block>
      reads this, doc, doc.chain
    {
      doc.chain.blocks
    }

    constructor Fresh(doc: Document, projectId: string)
      requires doc.Valid()
      ensures Valid() && this.doc == doc && this.projectId == projectId
      ensures flow.Idle? && progress == null && lastInfo.None? && !adopting
    {
      this.doc := doc;
      this.projectId := projectId;
      flow := Idle;
      lastInfo, request, report := None, None, None;
      adopting, remoteAhead := false, false;
      progress := null;
    }

    /** A commit the user makes between two replies disturbs no transfer. */
    method LocalCommit(message: string, now: nat) returns (r: Result<nat, SessionError>)
      requires Valid() && SignatureLaws(doc.chain.crypto)
      modifies doc, doc.chain
      ensures Valid() && doc.chain == old(doc.chain) && old(Local()) <= Local()
      ensures r.Ok? <==>
        old(doc.Editable()) && old(doc.Settled()).pending != [] && FiniteOps(old(doc.Settled()).pending)
      ensures |Local()| == |old(Local())| + if r.Ok? then 1 else 0
      ensures r.Ok? ==> Local()[|Local()| - 1].ops == old(doc.Settled()).pending && doc.pending == []
    {
      hide Document.Valid, Rebuilt, Carries, FiniteOps, SignatureLaws, PushProgress.Valid;
      CarriesOps(doc.chain.crypto);
      ghost var before := Local();
      r := doc.Commit(message, now);
      if progress != null {
        progress.SurvivesGrowth(before, Local());
      }
    }

    method Stop(why: Report)
      modifies this`flow, this`report
      ensures flow.Idle? && report == Some(why)
    {
      flow := Idle;
      report := Some(why);
    }

    /** A Pull starts only when nothing else is under way. */
    method StartPull()
      requires Valid()
      modifies this`flow
      ensures Valid() && flow == if old(flow).Idle? then Pulling else old(flow)
    {
      if flow.Idle? {
        flow := Pulling;
      }
    }

    /** So does a Push, which forgets an earlier one. */
    method StartPush()
      requires Valid()
      modifies this`flow, this`progress
      ensures Valid() && flow == if old(flow).Idle? then Pushing else old(flow)
      ensures progress == if old(flow).Idle? then null else old(progress)
    {
      if flow.Idle? {
        progress := null;
        flow := Pushing;
      }
    }

    // ------------------------------------------------------------------
    // pull
    // ------------------------------------------------------------------

    /** What a Pull does with the remote's description: it goes on exactly when the reply
        is of our project and history and there is something to fetch, and otherwise says
        which of the four it was. */
    twostate predicate PullInfoHandled(info: RemoteInfo)
      reads this, doc, doc.chain
    {
      && SameDocument() && Local() != [] && ValidateGenesis(doc.chain.crypto, Local()[0]).Ok?
      && var ours := IdentityMatches(doc.chain.crypto, Local(), doc.Pristine(), projectId, info);
         var adopts := NeedsAdoption(Local(), doc.Pristine(), info);
         && projectId == old(projectId) && !flow.Pushing?
         && (flow.Pulling? <==> ours && (adopts || |Local()| < info.len))
         && adopting == (old(adopting) || (ours && adopts))
         && (flow.Pulling? ==>
               lastInfo == Some(info) && request == Some(FetchBlocks(if adopts then 0 else |Local()|))
               && (adopts ==> |Local()| == 1))
         && (flow.Idle? ==>
               match report
               case Some(IdentityRejected) => !ours
               case Some(UpToDate) => ours && Checkpoint(Local(), info.len, info.head) && info.len == |Local()|
               case Some(LocalCommitsAhead) => ours && Checkpoint(Local(), info.len, info.head) && info.len < |Local()|
               case Some(Divergent) => ours && info.len <= |Local()| && !Checkpoint(Local(), info.len, info.head)
               case _ => false)
         && (flow.Idle? && report != Some(IdentityRejected) ==> remoteAhead == (report == Some(Divergent)))
    }

    /** Freeze the advertised checkpoint as the target, or settle at once. */
    method HandlePullInfo(info: RemoteInfo)
      requires Valid() && flow.Pulling?
      modifies this`flow, this`lastInfo, this`adopting, this`remoteAhead, this`request, this`report
      ensures Valid() && !flow.Pushing?
      ensures PullInfoHandled(info)
      // a Pull that goes on is of the project asked for and of a history we can follow
      ensures flow.Pulling? ==> info.projectId == "" || info.projectId == projectId
      ensures flow.Pulling? && info.genesisHash != "" && info.genesisHash != Local()[0].hash ==>
        |Local()| == 1 && doc.pending == [] && adopting && request == Some(FetchBlocks(0))
      ensures flow.Pulling? && (info.genesisHash == "" || info.genesisHash == Local()[0].hash) ==>
        |Local()| < info.len && request == Some(FetchBlocks(|Local()|))
      ensures flow.Pulling? && info.genesisHash == Local()[0].hash ==> OwnFormat(info, Local()[0].message)
      // the page asked for is the one the page handler expects, unless a failed
      // adoption has left its mark and this Pull does not adopt
      ensures flow.Pulling? ==>
        (request == Some(FetchBlocks(ExpectedStart(adopting, |Local()|)))
         <==> !old(adopting) || NeedsAdoption(Local(), doc.Pristine(), info))
    {
      hide Document.Valid, IdentityMatches, ValidateGenesis, CompareHeads, History.Valid;
      DocumentHasGenesis(doc);
      PristineMeans(doc);
      IdentityIsExact(doc.chain.crypto, doc.chain.blocks, doc.Pristine(), projectId, info);
      var blocks := doc.chain.blocks;
      if !IdentityMatches(doc.chain.crypto, blocks, doc.Pristine(), projectId, info) {
        Stop(IdentityRejected);
        return;
      }
      var needsAdoption := NeedsAdoption(blocks, doc.Pristine(), info);
      lastInfo := Some(info);
      if needsAdoption {
        adopting := true;
        request := Some(FetchBlocks(0));
      } else {
        FetchOrSettle(info);
      }
    }

    /** Fetch what the remote has beyond us, or say how the two histories relate. */
    method FetchOrSettle(info: RemoteInfo)
      requires Local() != [] && flow.Pulling?
      modifies this`flow, this`remoteAhead, this`request, this`report
      ensures !flow.Pushing? && (flow.Pulling? <==> |Local()| < info.len)
      ensures flow.Pulling? ==> |Local()| < info.len && request == Some(FetchBlocks(|Local()|))
      ensures flow.Idle? ==>
        match report
        case Some(UpToDate) => Checkpoint(Local(), info.len, info.head) && info.len == |Local()|
        case Some(LocalCommitsAhead) => Checkpoint(Local(), info.len, info.head) && info.len < |Local()|
        case Some(Divergent) => info.len <= |Local()| && !Checkpoint(Local(), info.len, info.head)
        case _ => false
      ensures flow.Idle? ==> remoteAhead == (report == Some(Divergent))
    {
      var blocks := doc.chain.blocks;
      var ours := |blocks|;
      PrefixMeansCheckpoint(blocks, info.len, info.head);
      if info.len > ours {
        request := Some(FetchBlocks(ours));
      } else if info.len == ours && info.head != blocks[ours - 1].hash {
        remoteAhead := true;
        Stop(Divergent);
      } else if info.len < ours && CompareHeads(blocks, info.len, info.head) !in {Same, LocalAhead} {
        remoteAhead := true;
        Stop(Divergent);
      } else {
        remoteAhead := false;
        if info.len < ours {
          Stop(LocalCommitsAhead);
        } else {
          Stop(UpToDate);
        }
      }
    }

    /** What becomes of one page: refused, rejected, or taken, and then the Pull asks on
        or is done. */
    twostate predicate PageHandled(
      target: RemoteInfo, from: nat, blocks: seq<Block>, nextFrom: Option<nat>, page: PageState)
      reads this, doc, doc.chain
    {
      && old(Local()) != []
      && var problem := PageProblem(target, from, ExpectedStart(old(adopting), |old(Local())|), blocks, page);
         var taken := PageOutcome(old(doc.chain.crypto), old(Local()), old(doc.Settled()).pending, old(adopting),
                                  Truncated(blocks, from, target.len));
         if problem.Some? then
           flow.Idle? && report == problem && Local() == old(Local()) && adopting == old(adopting)
         else if taken.None? then
           flow.Idle? && report == Some(MergeRejected) && Local() == old(Local()) && !adopting
         else
           Local() == taken.value && !adopting && Continued(flow, report, Local(), target, nextFrom)
    }

    /** One page against the frozen target. Whatever the server sends, the chain
        stays valid and no page takes it past the target; success is reported
        only at the target's length and head. */
    method HandlePullBlocks(from: nat, blocks: seq<Block>, nextFrom: Option<nat>, page: PageState)
      requires Valid() && !flow.Idle?
      modifies this`flow, this`adopting, this`remoteAhead, this`request, this`report, doc, doc.chain
      ensures Valid() && (doc.chain == old(doc.chain) || fresh(doc.chain))
      ensures doc.chain.crypto == old(doc.chain.crypto)
      ensures old(lastInfo).None? ==> flow.Idle? && Local() == old(Local())
      ensures old(lastInfo).Some? ==>
        var target := old(lastInfo).value;
        && (Local() == old(Local()) || |Local()| <= target.len)
        && (old(Local()) <= Local() || (old(adopting) && |old(Local())| == 1))
        && (flow.Idle? ==> report.Some?)
        && PageHandled(target, from, blocks, nextFrom, page)
        && ((page.genesis != target.genesisHash || page.len < target.len
             || (page.len == target.len && page.head != target.head)) ==>
              flow.Idle? && report == Some(RemoteChanged) && Local() == old(Local()))
        && (flow.Idle? && report.value.Opened? ==>
              report.value.len == |Local()| == target.len && Local() != []
                  && Local()[|Local()| - 1].hash == target.head)
        && (!flow.Idle? ==>
              flow == old(flow) && |Local()| < target.len && request == Some(FetchBlocks(|Local()|))
              && nextFrom == Some(|Local()|))
        && (!flow.Idle? && !old(adopting) ==>
              && from == |old(Local())|
              && (|Local()| > |old(Local())| <==>
                    exists b :: b in Truncated(blocks, from, target.len) && b.index >= from))
    {
      hide Document.Valid, ExtendOutcome, History.Valid, Truncated, PageProblem, PageOutcome;
      DocumentHasGenesis(doc);
      ghost var before, crypto, settled := Local(), doc.chain.crypto, doc.Settled().pending;
      if lastInfo.None? {
        Stop(NoTarget);
        return;
      }
      var target := lastInfo.value;
      TruncatedBound(blocks, from, target.len);
      AcceptedPageMoves(crypto, before, blocks, target.len);
      OutcomeBound(crypto, before, settled, adopting, Truncated(blocks, from, target.len));
      HandlePage(target, from, blocks, nextFrom, page);
    }

    /** Refuse, reject or take one page. */
    method HandlePage(target: RemoteInfo, from: nat, blocks: seq<Block>, nextFrom: Option<nat>, page: PageState)
      requires Valid() && !flow.Idle? && Local() != []
      modifies this`flow, this`adopting, this`remoteAhead, this`request, this`report, doc, doc.chain
      ensures Valid() && (doc.chain == old(doc.chain) || fresh(doc.chain))
      ensures doc.chain.crypto == old(doc.chain.crypto) && (flow.Idle? ==> report.Some?)
      ensures !flow.Idle? ==> flow == old(flow) && request == Some(FetchBlocks(|Local()|))
      ensures PageHandled(target, from, blocks, nextFrom, page)
    {
      hide Document.Valid, ExtendOutcome, History.Valid, Truncated, PageProblem, PageOutcome, Continued;
      var problem := PageProblem(target, from, ExpectedStart(adopting, |doc.chain.blocks|), blocks, page);
      if problem.Some? {
        Stop(problem.value);
        return;
      }
      var ok := TakePage(Truncated(blocks, from, target.len));
      if !ok {
        Stop(MergeRejected);
        return;
      }
      FinishPage(target, nextFrom);
    }

    /** Adopt the page or merge it, whichever this Pull is doing. */
    method TakePage(blocks: seq<Block>) returns (ok: bool)
      requires Valid()
      modifies this`adopting, doc, doc.chain
      ensures Valid() && Local() != [] && (doc.chain == old(doc.chain) || fresh(doc.chain))
      ensures var taken := PageOutcome(old(doc.chain.crypto), old(Local()), old(doc.Settled()).pending,
          old(adopting), blocks);
              ok == taken.Some? && Local() == if ok then taken.value else old(Local())
      ensures !adopting && unchanged(this`doc) && doc.chain.crypto == old(doc.chain.crypto)
    {
      hide Document.Valid, ExtendOutcome, History.Valid;
      DocumentHasGenesis(doc);
      if adopting {
        adopting := false;
        ok := Adopt(blocks);
      } else {
        ok := Merge(blocks);
      }
      DocumentHasGenesis(doc);
    }

    /** Ask for the next page, or settle: success only at the target itself. */
    method FinishPage(target: RemoteInfo, nextFrom: Option<nat>)
      requires Local() != [] && !flow.Idle?
      modifies this`flow, this`remoteAhead, this`request, this`report
      ensures flow.Idle? ==> report.Some? && remoteAhead == !report.value.Opened?
      ensures Continued(flow, report, Local(), target, nextFrom)
      ensures !flow.Idle? ==>
        && flow == old(flow) && |Local()| < target.len
        && request == Some(FetchBlocks(|Local()|)) && nextFrom == Some(|Local()|)
    {
      var ours := |doc.chain.blocks|;
      match NextPage(ours, target.len, nextFrom) {
        case Ok(Some(next)) =>
          request := Some(FetchBlocks(next));
        case Ok(None) =>
          if doc.chain.blocks[ours - 1].hash != target.head {
            remoteAhead := true;
            Stop(TargetHeadMismatch);
            return;
          }
          remoteAhead := false;
          Stop(Opened(target.len));
        case Err(_) =>
          remoteAhead := true;
          Stop(PaginationFailed);
      }
    }

    method Adopt(blocks: seq<Block>) returns (ok: bool)
      requires Valid()
      modifies doc
      ensures Valid() && unchanged(this) && doc.chain.crypto == old(doc.chain.crypto)
      ensures ok <==>
        |old(Local())| == 1 && old(doc.Settled()).pending == [] && History.Valid(old(doc.chain.crypto), blocks)
      ensures if ok then fresh(doc.chain) && Local() == blocks
              else doc.chain == old(doc.chain) && Local() == old(Local())
    {
      hide Document.Valid;
      var r := doc.AdoptRemote(blocks);
      ok := r.Ok?;
    }

    method Merge(blocks: seq<Block>) returns (ok: bool)
      requires Valid()
      modifies doc, doc.chain
      ensures Valid() && unchanged(this) && doc.chain == old(doc.chain)
      ensures old(Local()) <= Local()
      ensures ok <==> ExtendOutcome(doc.chain.crypto, old(Local()), blocks).Ok?
      ensures Local() == if ok then ExtendOutcome(doc.chain.crypto, old(Local()), blocks).value.0 else old(Local())
    {
      hide Document.Valid, ExtendOutcome, History.Valid, Truncated;
      DocumentHasGenesis(doc);
      ghost var before := Local();
      var r := doc.MergeRemote(blocks);
      if progress != null {
        progress.SurvivesGrowth(before, Local());
      }
      ok := r.Ok?;
    }

    // ------------------------------------------------------------------
    // push
    // ------------------------------------------------------------------

    /** What a Push does with the remote's description: it starts exactly when the reply is
        of our project and history, grants write access, is a local checkpoint short of our
        length, and a block fits; otherwise it says why not. */
    twostate predicate PushInfoHandled(info: RemoteInfo)
      reads this, doc, doc.chain, progress
    {
      && SameDocument() && Local() != [] && ValidateGenesis(doc.chain.crypto, Local()[0]).Ok?
      && projectId == old(projectId) && !flow.Pulling?
      && (flow.Pushing? <==>
            && IdentityMatches(doc.chain.crypto, Local(), doc.Pristine(), projectId, info) && !info.readOnly
            && Checkpoint(Local(), info.len, info.head) && info.len < |Local()|
            && BlockFits(info.len, info.head, |Local()|))
      && (flow.Pushing? ==>
            && progress != null && progress.baseLen == progress.acknowledgedLen == info.len
            && progress.acknowledgedHead == info.head && progress.targetLen == |Local()|
            && progress.totalAppended == 0 && lastInfo == Some(info) && Posted())
      && (flow.Idle? ==>
            && progress == null && report.Some? && PushRefusal(info, report.value)
            && remoteAhead == (old(remoteAhead) || report in {Some(RemoteIsAhead), Some(Divergent)})
            && (report in {Some(RemoteIsAhead), Some(NothingToPush)} ==> lastInfo == Some(info)))
    }

    /** Start a push from the server's checkpoint, if it is a local prefix. */
    method HandlePushInfo(info: RemoteInfo)
      requires Valid() && flow.Pushing?
      modifies this`flow, this`lastInfo, this`progress, this`remoteAhead, this`request, this`report
      ensures Valid() && (progress == null || fresh(progress))
      ensures PushInfoHandled(info)
      ensures flow.Pushing? ==> info.projectId == "" || info.projectId == projectId
      ensures flow.Pushing? && info.genesisHash != "" && info.genesisHash != Local()[0].hash ==>
        |Local()| == 1 && doc.pending == []
      ensures flow.Pushing? && info.genesisHash == Local()[0].hash ==> OwnFormat(info, Local()[0].message)
    {
      hide Document.Valid, IdentityMatches, ValidateGenesis, History.Valid, Body, PushProgress.Valid, BlockFits, Posted;
      DocumentHasGenesis(doc);
      PristineMeans(doc);
      IdentityIsExact(doc.chain.crypto, doc.chain.blocks, doc.Pristine(), projectId, info);
      progress := null;
      var blocks := doc.chain.blocks;
      if !IdentityMatches(doc.chain.crypto, blocks, doc.Pristine(), projectId, info) {
        Stop(IdentityRejected);
        return;
      }
      if info.readOnly {
        Stop(ReadOnlyAccess);
        return;
      }
      ComparePush(info);
    }

    /** Compare the reply with the local history, and begin if there is more to send. */
    method ComparePush(info: RemoteInfo)
      requires Valid() && flow.Pushing? && progress == null
      modifies this`flow, this`lastInfo, this`progress, this`remoteAhead, this`request, this`report
      ensures Valid() && (progress == null || fresh(progress))
      ensures flow.Pushing? ==>
        && progress != null && progress.baseLen == progress.acknowledgedLen == info.len
        && progress.acknowledgedHead == info.head && progress.targetLen == |Local()|
        && progress.totalAppended == 0 && lastInfo == Some(info) && Posted()
      ensures flow.Pushing? <==>
        Checkpoint(Local(), info.len, info.head) && info.len < |Local()| && BlockFits(info.len, info.head, |Local()|)
      ensures flow.Idle? ==>
        remoteAhead == (old(remoteAhead) || report in {Some(RemoteIsAhead), Some(Divergent)})
      ensures flow.Idle? && report in {Some(RemoteIsAhead), Some(NothingToPush)} ==> lastInfo == Some(info)
      ensures !flow.Pushing? ==> flow.Idle? && progress == null && report.Some? && CompareRefusal(info, report.value)
    {
      hide Document.Valid, Body, PushProgress.Valid, BlockFits, Posted;
      var blocks := doc.chain.blocks;
      if info.len > |blocks| {
        lastInfo := Some(info);
        remoteAhead := true;
        Stop(RemoteIsAhead);
        return;
      }
      if info.len == 0 {
        Stop(PushCannotStart);
        return;
      }
      if blocks[info.len - 1].hash != info.head {
        remoteAhead := true;
        Stop(Divergent);
        return;
      }
      lastInfo := Some(info);
      if info.len == |blocks| {
        Stop(NothingToPush);
        return;
      }
      BeginPush(info.len, info.head);
    }

    /** The one reason that applies to a refused Push. */
    ghost predicate PushRefusal(info: RemoteInfo, why: Report)
      reads this, doc, doc.chain
      requires Local() != [] && ValidateGenesis(doc.chain.crypto, Local()[0]).Ok?
    {
      var ours := IdentityMatches(doc.chain.crypto, Local(), doc.Pristine(), projectId, info);
      match why
      case IdentityRejected => !ours
      case ReadOnlyAccess => ours && info.readOnly
      case _ => ours && !info.readOnly && CompareRefusal(info, why)
    }

    ghost predicate CompareRefusal(info: RemoteInfo, why: Report)
      reads this, doc, doc.chain
    {
      match why
      case RemoteIsAhead => info.len > |Local()|
      case Divergent => 0 < info.len <= |Local()| && Local()[info.len - 1].hash != info.head
      case NothingToPush => Checkpoint(Local(), info.len, info.head) && info.len == |Local()|
      case PushCannotStart =>
        info.len == 0 || (Checkpoint(Local(), info.len, info.head) && info.len < |Local()|
                          && !BlockFits(info.len, info.head, |Local()|))
      case _ => false
    }

    /** The block after `len` fits into one request on its own. */
    ghost predicate BlockFits(len: nat, head: string, target: nat)
      reads this, doc, doc.chain
    {
      && len < target <= |Local()| && Hex.IsLowerHex(head, 32)
      && Fits(doc.chain.crypto, Local()[len..target], len, head, PUSH_LIMITS, 1)
    }

    /** The chunk in flight is the one last sent, and continues the acknowledged prefix
        with as many blocks as fit. */
    ghost predicate Posted()
      reads this, doc, doc.chain, progress
    {
      && progress != null && request.Some? && request.value.PostChunk?
      && request.value.base == progress.acknowledgedLen < request.value.end <= progress.targetLen <= |Local()|
      && progress.inflightEnd == Some(request.value.end)
      && request.value.body == Body(doc.chain.crypto, request.value.base, progress.acknowledgedHead,
                                    Local()[request.value.base..request.value.end])
      && forall n: nat :: NextChunkFits(n) ==> n <= request.value.end - request.value.base
    }

    /** Freeze the local length as the target and send the first chunk. */
    method BeginPush(len: nat, head: string)
      requires Valid() && flow.Pushing? && progress == null
      requires Checkpoint(Local(), len, head) && len < |Local()|
      modifies this`flow, this`progress, this`request, this`report
      ensures Valid() && (progress == null || fresh(progress))
      ensures flow.Pushing? ==>
        && progress != null && progress.baseLen == progress.acknowledgedLen == len && progress.acknowledgedHead == head
        && progress.targetLen == |Local()| && progress.totalAppended == 0 && Posted()
      ensures flow.Pushing? <==> BlockFits(len, head, |Local()|)
      ensures !flow.Pushing? ==> flow.Idle? && progress == null && report == Some(PushCannotStart)
    {
      hide Document.Valid, Body, PushProgress.Valid, Fits;
      var begun := PushProgress.Begin(doc.chain.blocks, len, head);
      progress := begun.value;
      var posted := PostNextPushChunk();
      if !posted {
        progress := null;
        Stop(PushCannotStart);
      }
    }

    /** The first `n` unacknowledged blocks fit into one request. */
    ghost predicate NextChunkFits(n: nat)
      requires progress != null
      reads this, doc, doc.chain, progress
    {
      && progress.acknowledgedLen <= progress.targetLen <= |Local()|
      && Fits(doc.chain.crypto, Local()[progress.acknowledgedLen..progress.targetLen], progress.acknowledgedLen,
              progress.acknowledgedHead, PUSH_LIMITS, n)
    }

    /** Send the largest legal chunk that continues the acknowledged prefix. */
    method PostNextPushChunk() returns (ok: bool)
      requires Valid() && progress != null
      modifies this`request, progress`inflightEnd
      ensures Valid()
      ensures ok ==> old(progress.inflightEnd).None? && Posted()
      ensures !ok ==> progress.inflightEnd == old(progress.inflightEnd)
      ensures ok <==>
        && old(progress.inflightEnd).None?
        && BlockFits(progress.acknowledgedLen, progress.acknowledgedHead, progress.targetLen)
    {
      hide Document.Valid, Fits;
      var baseLen := progress.acknowledgedLen;
      var local := doc.chain.blocks;
      var chunk := BuildPushChunk(doc.chain.crypto, local, baseLen, progress.acknowledgedHead, progress.targetLen,
          PUSH_LIMITS);
      if chunk.Err? {
        return false;
      }
      assert local[baseLen..progress.targetLen][..chunk.value.blockCount] == local[baseLen..chunk.value.endLen];
      var marked := progress.MarkInflight(chunk.value.endLen);
      if marked.Err? {
        return false;
      }
      request := Some(PostChunk(baseLen, chunk.value.endLen, chunk.value.body));
      return true;
    }

    /** What becomes of one chunk's reply: anything but the end of the chunk in flight with
        our head and count is refused; an accepted one brings the target closer and either
        completes there, sends the next chunk, or stops because no block fits. */
    twostate predicate PushOkHandled(len: nat, head: string, appended: nat)
      reads this, doc, doc.chain, progress
    {
      && SameDocument() && !flow.Pulling?
      && var accepted :=
           old(progress != null && progress.inflightEnd == Some(len) && appended == len - progress.acknowledgedLen)
           && Checkpoint(Local(), len, head);
         var target := old(if progress != null then progress.targetLen else 0);
         && (flow.Idle? && report == Some(InvalidReply) <==> !accepted)
         && (accepted && len == target ==>
               && flow.Idle? && report.Some? && report.value.Pushed? && report.value.len == len
               && report.value.total == len - old(if progress != null then progress.baseLen else 0))
         && (accepted && len != target ==>
               && (flow.Pushing? <==> BlockFits(len, head, target))
               && (flow.Idle? ==> report == Some(PushStopped)))
         && (flow.Pushing? ==>
               && progress != null && progress == old(progress) && Posted()
               && progress.acknowledgedLen == len && progress.acknowledgedHead == head
               && progress.targetLen == target
               && progress.baseLen == old(if progress != null then progress.baseLen else 0)
               && target - len < target - old(if progress != null then progress.acknowledgedLen else 0))
         && (flow.Idle? ==> progress == null && report.Some? && remoteAhead == !report.value.Pushed?)
    }

    /** One chunk reply. Completion is reported only at the frozen target, with
        the total the accepted chunks add up to. */
    method HandlePushOk(len: nat, head: string, appended: nat)
      requires Valid() && flow.Pushing?
      modifies this`flow, this`lastInfo, this`progress, this`remoteAhead, this`request, this`report, progress
      ensures Valid()
      ensures PushOkHandled(len, head, appended)
    {
      hide Document.Valid, Body, PushProgress.Valid;
      if progress == null {
        DropPush(InvalidReply);
        return;
      }
      var completed := progress.Acknowledge(doc.chain.blocks, len, head, appended);
      if completed.Err? {
        DropPush(InvalidReply);
        return;
      }
      if lastInfo.Some? {
        lastInfo := Some(lastInfo.value.(len := len, head := head));
      }
      if completed.value {
        var total := progress.totalAppended;
        progress := null;
        remoteAhead := false;
        Stop(Pushed(total, len));
        return;
      }
      var posted := PostNextPushChunk();
      if !posted {
        DropPush(PushStopped);
      }
    }

    method DropPush(why: Report)
      modifies this`flow, this`progress, this`remoteAhead, this`report
      ensures flow.Idle? && progress == null && remoteAhead && report == Some(why)
    {
      progress := null;
      remoteAhead := true;
      Stop(why);
    }

    // ------------------------------------------------------------------
    // dispatch
    // ------------------------------------------------------------------

    /** Replies that do not belong to the flow in progress are ignored, and no
        reply ever rewrites local work: the history only grows, unless a document
        that is still a bare genesis adopts a remote one. */
    method Process(event: SyncEvent)
      requires Valid()
      modifies this, progress, doc, doc.chain
      ensures Valid()
      ensures old(Local()) <= Local() || (old(adopting) && |old(Local())| == 1)
      ensures old(flow).Idle? || Ignored(old(flow), event) ==> unchanged(this) && SameDocument()
      ensures !old(flow).Idle? && Ends(old(flow), event) ==> Ended(event.PushConflict?) && SameDocument()
      ensures old(flow).Pulling? && event.Info? ==> PullInfoHandled(event.info)
      ensures old(flow).Pushing? && event.Info? ==> PushInfoHandled(event.info)
      ensures !old(flow).Idle? && event.Page? && old(lastInfo).Some? ==>
        PageHandled(old(lastInfo).value, event.from, event.blocks, event.nextFrom, event.state)
      ensures old(flow).Pushing? && event.PushOk? ==> PushOkHandled(event.len, event.head, event.appended)
    {
      hide IdentityMatches, ValidateGenesis, PageProblem, PageOutcome, Continued, Truncated;
      if flow.Pulling? {
        ProcessPull(event);
      } else if flow.Pushing? {
        ProcessPush(event);
      }
    }

    method ProcessPull(event: SyncEvent)
      requires Valid() && flow.Pulling?
      modifies this, doc, doc.chain
      ensures Valid()
      ensures old(Local()) <= Local() || (old(adopting) && |old(Local())| == 1)
      ensures Ignored(Pulling, event) ==> unchanged(this) && SameDocument()
      ensures event.Failed? ==> Ended(false) && SameDocument()
      ensures event.Info? ==> PullInfoHandled(event.info)
      ensures event.Page? && old(lastInfo).Some? ==>
        PageHandled(old(lastInfo).value, event.from, event.blocks, event.nextFrom, event.state)
    {
      hide Document.Valid, IdentityMatches, ValidateGenesis, PageProblem, PageOutcome, Continued, Truncated;
      match event
      case Info(info) => HandlePullInfo(info);
      case Page(from, blocks, nextFrom, state) => HandlePullBlocks(from, blocks, nextFrom, state);
      case Failed => EndFlow(false);
      case _ =>
    }

    method ProcessPush(event: SyncEvent)
      requires Valid() && flow.Pushing?
      modifies this, progress, doc, doc.chain
      ensures Valid()
      ensures old(Local()) <= Local() || (old(adopting) && |old(Local())| == 1)
      ensures Ends(Pushing, event) ==> Ended(event.PushConflict?) && SameDocument()
      ensures event.Info? ==> PushInfoHandled(event.info)
      ensures event.Page? && old(lastInfo).Some? ==>
        PageHandled(old(lastInfo).value, event.from, event.blocks, event.nextFrom, event.state)
      ensures event.PushOk? ==> PushOkHandled(event.len, event.head, event.appended)
    {
      hide Document.Valid, IdentityMatches, ValidateGenesis, PageProblem, PageOutcome, Continued, Truncated;
      match event
      case Info(info) => HandlePushInfo(info);
      case Page(from, blocks, nextFrom, state) => HandlePullBlocks(from, blocks, nextFrom, state);
      case PushOk(len, head, appended) => HandlePushOk(len, head, appended);
      case PushConflict => EndFlow(true);
      case Failed => EndFlow(false);
    }

    twostate predicate SameDocument()
      reads this, doc, doc.chain
    {
      unchanged(this`doc) && unchanged(doc) && unchanged(doc.chain)
    }

    twostate predicate Ended(conflict: bool)
      reads this
    {
      && flow.Idle? && unchanged(this`projectId, this`adopting, this`lastInfo, this`request, this`report)
      && progress == (if old(flow).Pushing? then null else old(progress))
      && remoteAhead == (old(remoteAhead) || conflict)
    }

    /** A failure or a conflict ends the flow and touches nothing else: a Push loses
        its progress, a Pull keeps its mark. */
    method EndFlow(conflict: bool)
      requires Valid() && !flow.Idle?
      modifies this`flow, this`progress, this`remoteAhead
      ensures Valid() && Ended(conflict) && SameDocument()
    {
      hide Document.Valid, PushProgress.Valid;
      if flow.Pushing? {
        progress := null;
      }
      flow := Idle;
      if conflict {
        remoteAhead := true;
      }
    }
  }

  /** Replies that do not belong to the flow. */
  predicate Ignored(flow: Flow, event: SyncEvent) {
    flow.Pulling? && (event.PushOk? || event.PushConflict?)
  }

  /** Replies that end the flow at once. */
  predicate Ends(flow: Flow, event: SyncEvent) {
    event.Failed? || (flow.Pushing? && event.PushConflict?)
  }

  /** An accepted page either continues the history or replaces a bare genesis. */
  lemma OutcomeBound(c: Primitives, local: seq<Block>, pending: seq<GraphOp>, adopting: bool, kept: seq<Block>)
    requires History.Valid(c, local)
    ensures local != []
    ensures var taken := PageOutcome(c, local, pending, adopting, kept);
            taken.Some? ==>
              if adopting then |local| == 1 && taken.value == kept
              else local <= taken.value && ExtendOutcome(c, local, kept).Ok?
                   && taken.value == ExtendOutcome(c, local, kept).value.0
  {
    ExtensionRefinesValidation(c, local, kept);
    hide History.Valid, ExtendOutcome, FirstCopies;
  }

  /** The mark of a failed adoption makes a later Pull of a remote that is merely
      ahead fail, whatever the server answers: it asks for the missing suffix and
      then refuses every page that starts there. */
  method StaleAdoptionStalls(
    app: App, info: RemoteInfo, blocks: seq<Block>, nextFrom: Option<nat>, page: PageState)
    requires app.Valid() && app.flow.Pulling? && app.adopting
    requires IdentityMatches(app.doc.chain.crypto, app.Local(), app.doc.Pristine(), app.projectId, info)
    requires !NeedsAdoption(app.Local(), app.doc.Pristine(), info) && |app.Local()| < info.len
    modifies app, app.doc, app.doc.chain
    ensures app.Valid() && app.flow.Idle? && app.Local() == old(app.Local()) && app.adopting
    ensures app.report == PageProblem(info, |app.Local()|, 0, blocks, page) && app.report.Some?
  {
    hide Document.Valid, IdentityMatches, Truncated, PageOutcome, Continued;
    DocumentHasGenesis(app.doc);
    app.HandlePullInfo(info);
    app.HandlePullBlocks(|app.Local()|, blocks, nextFrom, page);
  }

  /** And the mark is left behind by nothing worse than a lost connection: a fresh
      session starts to adopt, the connection fails, and the next Pull is of a
      remote that has our own genesis and more blocks. */
  method FailedAdoptionStalls(
    doc: Document, projectId: string, first: RemoteInfo, second: RemoteInfo,
    blocks: seq<Block>, nextFrom: Option<nat>, page: PageState
  ) returns (app: App)
    requires doc.Valid() && doc.Pristine() && doc.chain.blocks != []
    requires History.Valid(doc.chain.crypto, doc.chain.blocks)
        && ValidateGenesis(doc.chain.crypto, doc.chain.blocks[0]).Ok?
    requires IdentityMatches(doc.chain.crypto, doc.chain.blocks, true, projectId, first)
    requires IdentityMatches(doc.chain.crypto, doc.chain.blocks, true, projectId, second)
    requires first.genesisHash != "" && first.genesisHash != doc.chain.blocks[0].hash
    requires second.genesisHash == doc.chain.blocks[0].hash && second.len > 1
    modifies doc, doc.chain
    ensures app.Valid() && app.flow.Idle? && app.Local() == old(doc.chain.blocks)
    ensures page.genesis == second.genesisHash && page.len > second.len ==> app.report == Some(PageNotContiguous)
    ensures app.report.Some? && app.report.value in {RemoteChanged, PageNotContiguous}
  {
    hide Document.Valid, IdentityMatches, Truncated, ValidateGenesis, History.Valid;
    app := new App.Fresh(doc, projectId);
    app.StartPull();
    app.HandlePullInfo(first);
    app.Process(Failed);
    app.StartPull();
    StaleAdoptionStalls(app, second, blocks, nextFrom, page);
  }

  // ------------------------------------------------------------------
  // a Pull from a server that keeps its word
  // ------------------------------------------------------------------

  ghost predicate IndexedFrom(first: nat, blocks: seq<Block>) {
    forall i :: 0 <= i < |blocks| ==> blocks[i].index == first + i
  }

  lemma IndexedInit(first: nat, blocks: seq<Block>)
    requires IndexedFrom(first, blocks) && blocks != []
    ensures IndexedFrom(first, blocks[..|blocks| - 1]) && blocks[|blocks| - 1].index == first + |blocks| - 1
  {
  }

  lemma FirstCopiesOfNext(known: nat, init: seq<Block>, last: Block)
    requires IndexedFrom(known, init)
    requires last.index == known + |init|
    ensures FirstCopies(known, init + [last]) == FirstCopies(known, init) + [last]
  {
    assert (init + [last])[..|init|] == init;
    forall x | x in init ensures x.index != last.index {
      var i :| 0 <= i < |init| && init[i] == x;
    }
  }

  lemma {:induction false} FirstCopiesOfSlice(known: nat, slice: seq<Block>)
    requires IndexedFrom(known, slice)
    ensures FirstCopies(known, slice) == slice
    decreases |slice|
  {
    if slice != [] {
      hide FirstCopies, IndexedFrom;
      IndexedInit(known, slice);
      FirstCopiesOfSlice(known, slice[..|slice| - 1]);
      FirstCopiesOfNext(known, slice[..|slice| - 1], slice[|slice| - 1]);
      LastOf(slice);
    }
  }

  lemma SliceAgrees(all: seq<Block>, pos: nat, slice: seq<Block>)
    requires pos + |slice| == |all| && all[pos..] == slice
    requires IndexedFrom(pos, slice)
    ensures RepeatsAgree(all, slice)
  {
    forall b | b in slice ensures Agrees(all, b) {
      var i :| 0 <= i < |slice| && slice[i] == b;
      assert all[pos..][i] == all[pos + i];
    }
  }

  /** The next slice of a valid extension is accepted and appended whole. */
  lemma SliceExtends(c: Primitives, full: seq<Block>, pos: nat, end: nat)
    requires History.Valid(c, full) && 0 < pos <= end <= |full|
    ensures var r := ExtendOutcome(c, full[..pos], full[pos..end]); r.Ok? && r.value.0 == full[..end]
  {
    hide History.Valid, ExtendOutcome, FirstCopies, Validate, RepeatsAgree, IndexedFrom;
    var local, slice := full[..pos], full[pos..end];
    assert local + slice == full[..end] && full[..end][pos..] == slice;
    PrefixIsValid(c, full, pos);
    PrefixIsValid(c, full, end);
    SliceIndexes(c, full, pos, end);
    FirstCopiesOfSlice(pos, slice);
    SliceAgrees(full[..end], pos, slice);
    ExtensionRefinesValidation(c, local, slice);
  }

  lemma SliceIndexes(c: Primitives, full: seq<Block>, pos: nat, end: nat)
    requires History.Valid(c, full) && pos <= end <= |full|
    ensures IndexedFrom(pos, full[pos..end])
  {
    forall i | 0 <= i < end - pos ensures full[pos..end][i].index == pos + i {
      LinkedAt(c, full, pos + i);
      assert full[pos..end][i] == full[pos + i];
    }
  }

  /** What an honest page does, to a Pull that adopts and to one that merges. */
  lemma HonestPage(
    c: Primitives, full: seq<Block>, info: RemoteInfo, pos: nat, end: nat,
    local: seq<Block>, pending: seq<GraphOp>, adopting: bool)
    requires History.Valid(c, full) && pos < end <= |full| == info.len && local != []
    requires if adopting then pos == 0 && |local| == 1 && pending == [] else local == full[..pos]
    ensures var page := PageState(info.len, info.head, info.genesisHash);
            PageProblem(info, pos, ExpectedStart(adopting, |local|), full[pos..end], page).None?
    ensures PageOutcome(c, local, pending, adopting, Truncated(full[pos..end], pos, info.len)) == Some(full[..end])
  {
    assert Truncated(full[pos..end], pos, info.len) == full[pos..end];
    if adopting {
      PrefixIsValid(c, full, end);
      assert full[0..end] == full[..end];
    } else {
      SliceExtends(c, full, pos, end);
    }
    hide History.Valid, ExtendOutcome;
  }

  /** One honest answer: the Pull holds the history that far, and asks on or is done. */
  method AnswerPage(app: App, full: seq<Block>, info: RemoteInfo, pos: nat, end: nat)
    requires app.Valid() && app.flow.Pulling? && app.lastInfo == Some(info)
    requires History.Valid(app.doc.chain.crypto, full) && pos < end <= |full| == info.len
    requires full[|full| - 1].hash == info.head
    requires if app.adopting then pos == 0 && |app.Local()| == 1 && app.doc.Settled().pending == []
             else pos > 0 && app.Local() == full[..pos]
    modifies app, app.doc, app.doc.chain
    ensures app.Valid() && app.doc == old(app.doc) && app.lastInfo == Some(info) && !app.adopting
    ensures app.doc.chain == old(app.doc.chain) || fresh(app.doc.chain)
    ensures app.doc.chain.crypto == old(app.doc.chain.crypto) && app.Local() == full[..end]
    ensures if end == |full| then app.flow.Idle? && app.report == Some(Opened(|full|)) else app.flow.Pulling?
  {
    hide Document.Valid, History.Valid, PageProblem, PageOutcome, Truncated, ExtendOutcome;
    DocumentHasGenesis(app.doc);
    HonestPage(app.doc.chain.crypto, full, info, pos, end, app.Local(), app.doc.Settled().pending, app.adopting);
    app.HandlePullBlocks(pos, full[pos..end], if end < |full| then Some(end) else None,
                         PageState(info.len, info.head, info.genesisHash));
  }

  /** Every page request is answered with the next non-empty slice of one valid
      history, of whatever length the server likes. The Pull then ends well, with
      that history, after at most one page for each block it lacked. */
  method PullToEnd(app: App, full: seq<Block>, info: RemoteInfo, cut: nat -> nat) returns (pages: nat)
    requires app.Valid() && app.flow.Pulling? && app.lastInfo == Some(info)
    requires app.request == Some(FetchBlocks(ExpectedStart(app.adopting, |app.Local()|)))
    requires History.Valid(app.doc.chain.crypto, full) && info.len == |full| && full != []
    requires full[|full| - 1].hash == info.head && forall n :: cut(n) > 0
    requires if app.adopting then |app.Local()| == 1 && app.doc.Settled().pending == []
             else app.Local() <= full && |app.Local()| < |full|
    modifies app, app.doc, app.doc.chain
    ensures app.Valid() && app.flow.Idle? && app.report == Some(Opened(|full|)) && app.Local() == full
    ensures 0 < pages <= |full| - ExpectedStart(old(app.adopting), |old(app.Local())|)
  {
    hide Document.Valid, History.Valid, PageProblem, PageOutcome, Truncated, ExtendOutcome;
    DocumentHasGenesis(app.doc);
    var start := ExpectedStart(app.adopting, |app.Local()|);
    var pos := start;
    pages := 0;
    assert full[..|full|] == full;
    while app.flow.Pulling?
      invariant app.Valid() && app.doc == old(app.doc) && (app.doc.chain == old(app.doc.chain) || fresh(app.doc.chain))
      invariant app.doc.chain.crypto == old(app.doc.chain.crypto)
      invariant start <= pos <= |full| && pages <= pos - start && (pages == 0 ==> app.flow.Pulling?)
      invariant !app.flow.Pulling? ==> app.flow.Idle? && app.report == Some(Opened(|full|)) && app.Local() == full
      invariant app.flow.Pulling? ==> app.lastInfo == Some(info) && pos < |full|
      invariant app.flow.Pulling? ==>
        if app.adopting then pos == 0 && |app.Local()| == 1 && app.doc.Settled().pending == []
        else pos > 0 && app.Local() == full[..pos]
      decreases |full| - pos
    {
      var end := if cut(pos) < |full| - pos then pos + cut(pos) else |full|;
      AnswerPage(app, full, info, pos, end);
      pos := end;
      pages := pages + 1;
    }
  }

  /** A server that acknowledges every chunk: while each block of ours fits into a
      request on its own, the Push ends at the target with all of them, after at most
      one chunk for each block. */
  method PushToEnd(app: App) returns (chunks: nat)
    requires app.Valid() && app.flow.Pushing? && app.Posted() && DigestLaw(app.doc.chain.crypto)
    requires EachFits(app.doc.chain.crypto, app.Local(), app.progress.acknowledgedLen, app.progress.targetLen)
    modifies app, app.progress
    ensures app.Valid() && app.flow.Idle? && app.progress == null && !app.remoteAhead
    ensures app.report == Some(Pushed(old(app.progress.targetLen - app.progress.baseLen), old(app.progress.targetLen)))
    ensures app.Local() == old(app.Local())
    ensures 0 < chunks <= old(app.progress.targetLen - app.progress.acknowledgedLen)
  {
    hide Document.Valid, Fits, Body, EachFits, DigestLaw, History.Valid, ValidateGenesis;
    DocumentHasGenesis(app.doc);
    ghost var target, base, start := app.progress.targetLen, app.progress.baseLen, app.progress.acknowledgedLen;
    var acknowledged := app.progress.acknowledgedLen;
    chunks := 0;
    while app.flow.Pushing?
      invariant app.Valid() && app.doc == old(app.doc) && start <= acknowledged <= target
      invariant chunks <= acknowledged - start && (chunks == 0 ==> app.flow.Pushing?)
      invariant app.flow.Pushing? ==>
        && app.progress == old(app.progress) && app.Posted() && app.progress.acknowledgedLen == acknowledged
        && app.progress.targetLen == target && app.progress.baseLen == base
      invariant !app.flow.Pushing? ==>
        && app.flow.Idle? && app.progress == null && !app.remoteAhead
        && app.report == Some(Pushed(target - base, target))
      decreases target - acknowledged, app.flow.Pushing?
    {
      var len := app.request.value.end;
      if len < target {
        FitsOne(app.doc.chain.crypto, app.Local(), start, target, len);
      }
      app.HandlePushOk(len, app.doc.chain.blocks[len - 1].hash, len - acknowledged);
      acknowledged := len;
      chunks := chunks + 1;
    }
  }

  /** Each block from `from` on fits into a request on its own. */
  ghost predicate EachFits(c: Primitives, local: seq<Block>, from: nat, target: nat) {
    && 0 < from && target <= |local|
    && forall n :: from <= n < target ==> Fits(c, local[n..target], n, local[n - 1].hash, PUSH_LIMITS, 1)
  }

  lemma FitsOne(c: Primitives, local: seq<Block>, from: nat, target: nat, n: nat)
    requires EachFits(c, local, from, target) && from <= n < target
    requires DigestLaw(c) && History.Valid(c, local)
    ensures Hex.IsLowerHex(local[n - 1].hash, 32)
    ensures Fits(c, local[n..target], n, local[n - 1].hash, PUSH_LIMITS, 1)
  {
    hide Fits, History.Valid, DigestLaw;
    HashesAreDigests(c, local, n - 1);
  }

  /** A whole Push, from the click on. */
  method PushAll(app: App, info: RemoteInfo) returns (chunks: nat)
    requires app.Valid() && app.flow.Idle? && app.Local() != []
    requires ValidateGenesis(app.doc.chain.crypto, app.Local()[0]).Ok?
    requires IdentityMatches(app.doc.chain.crypto, app.Local(), app.doc.Pristine(), app.projectId, info)
    requires !info.readOnly && Checkpoint(app.Local(), info.len, info.head) && info.len < |app.Local()|
    requires EachFits(app.doc.chain.crypto, app.Local(), info.len, |app.Local()|) && DigestLaw(app.doc.chain.crypto)
    modifies app
    ensures app.Valid() && app.flow.Idle? && app.Local() == old(app.Local())
    ensures app.report == Some(Pushed(|app.Local()| - info.len, |app.Local()|))
    ensures 0 < chunks <= |app.Local()| - info.len
  {
    hide Document.Valid, IdentityMatches, ValidateGenesis, Fits, Body, EachFits, DigestLaw, History.Valid;
    DocumentHasGenesis(app.doc);
    FitsOne(app.doc.chain.crypto, app.Local(), info.len, |app.Local()|, info.len);
    app.StartPush();
    app.HandlePushInfo(info);
    chunks := PushToEnd(app);
  }

  /** Hashes in a valid history are digests. */
  lemma HashesAreDigests(c: Primitives, local: seq<Block>, i: nat)
    requires DigestLaw(c) && History.Valid(c, local) && i < |local|
    ensures Hex.IsLowerHex(local[i].hash, 32)
  {
    ValidIsLinkedAndReplayable(c, local);
    LinkedAt(c, local, i);
    Hex.RoundTrip(c.sha256(SignableJson(c, local[i])));
  }

  /** A whole Pull, from the click on. */
  method PullAll(app: App, full: seq<Block>, info: RemoteInfo, cut: nat -> nat) returns (pages: nat)
    requires app.Valid() && app.flow.Idle? && app.Local() != []
    requires ValidateGenesis(app.doc.chain.crypto, app.Local()[0]).Ok?
    requires IdentityMatches(app.doc.chain.crypto, app.Local(), app.doc.Pristine(), app.projectId, info)
    requires History.Valid(app.doc.chain.crypto, full) && info.len == |full| && full != []
    requires full[|full| - 1].hash == info.head && forall n :: cut(n) > 0
    requires if NeedsAdoption(app.Local(), app.doc.Pristine(), info) then app.doc.Settled().pending == []
             else !app.adopting && app.Local() <= full && |app.Local()| < |full|
    modifies app, app.doc, app.doc.chain
    ensures app.Valid() && app.flow.Idle? && app.report == Some(Opened(|full|)) && app.Local() == full
    ensures 0 < pages <= |full|
    ensures !old(NeedsAdoption(app.Local(), app.doc.Pristine(), info)) ==> pages <= |full| - |old(app.Local())|
  {
    hide Document.Valid, IdentityMatches, ValidateGenesis, History.Valid;
    app.StartPull();
    app.HandlePullInfo(info);
    pages := PullToEnd(app, full, info, cut);
  }

  lemma CarriesOps(c: Primitives)
    ensures forall b, ops, message, id, now :: Carries(c, b, ops, message, id, now) ==> b.ops == ops
  {
  }

  lemma DocumentHasGenesis(doc: Document)
    requires doc.Valid()
    ensures doc.chain.blocks != [] && History.Valid(doc.chain.crypto, doc.chain.blocks)
    ensures ValidateGenesis(doc.chain.crypto, doc.chain.blocks[0]).Ok?
  {
    ConsistentMeans(
      doc.chain.crypto, doc.chain.blocks, doc.Books(), doc.graph, doc.gesture, doc.viewIndex, doc.viewGraph,
      doc.flipped);
  }
}
