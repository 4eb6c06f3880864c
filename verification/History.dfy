/** What it means for a list of blocks to be a valid history, and what a batch of
    offered blocks does to one. These are the specifications the methods of
    `OpLog.Chain` are proved against. */
module History {
  import opened Common
  import opened Hex
  import opened GraphModel
  import opened Blocks

  /** The first broken link, in block order. */
  function LinkError(c: Primitives, blocks: seq<Block>, strictHex: bool): Option<ChainError> {
    if |blocks| <= 1 then None
    else
      var n := |blocks| - 1;
      match LinkError(c, blocks[..n], strictHex)
      case Some(e) => Some(e)
      case None => VerifyLinked(c, blocks[n], blocks[n - 1], n, strictHex)
  }

  /** The graph a list of blocks rebuilds, or the first operation that fails. */
  function ReplayBlocks(blocks: seq<Block>): Result<Graph, ChainError> {
    if blocks == [] then Ok(EMPTY)
    else
      match ReplayBlocks(blocks[..|blocks| - 1])
      case Err(e) => Err(e)
      case Ok(g) =>
        match ApplyAll(g, blocks[|blocks| - 1].ops)
        case Err((op, error)) => Err(BadOps(|blocks| - 1, op, error))
        case Ok(h) => Ok(h)
  }

  function Validate(c: Primitives, blocks: seq<Block>): Result<Graph, ChainError> {
    if blocks == [] then Err(Empty)
    else
      match ValidateGenesis(c, blocks[0])
      case Err(e) => Err(e)
      case Ok(kind) =>
        match LinkError(c, blocks, kind.Scoped?)
        case Some(e) => Err(e)
        case None => ReplayBlocks(blocks)
  }

  predicate Valid(c: Primitives, blocks: seq<Block>) {
    Validate(c, blocks).Ok?
  }

  /** Valid up to replay: genesis, links, hashes, signatures and finiteness. */
  predicate Linked(c: Primitives, blocks: seq<Block>) {
    && blocks != []
    && ValidateGenesis(c, blocks[0]).Ok?
    && LinkError(c, blocks, Strict(c, blocks)).None?
  }

  predicate Strict(c: Primitives, blocks: seq<Block>) {
    && blocks != []
    && ValidateGenesis(c, blocks[0]).Ok?
    && ValidateGenesis(c, blocks[0]).value.Scoped?
  }

  function OpsOf(blocks: seq<Block>): seq<GraphOp> {
    if blocks == [] then [] else OpsOf(blocks[..|blocks| - 1]) + blocks[|blocks| - 1].ops
  }

  // ------------------------------------------------------------------
  // what the first error says
  // ------------------------------------------------------------------

  ghost predicate Follows(c: Primitives, blocks: seq<Block>, strictHex: bool, i: nat)
    requires 0 < i < |blocks|
  {
    VerifyLinked(c, blocks[i], blocks[i - 1], i, strictHex).None?
  }

  ghost predicate AllFollow(c: Primitives, blocks: seq<Block>, strictHex: bool) {
    forall i :: 0 < i < |blocks| ==> Follows(c, blocks, strictHex, i)
  }

  lemma AllFollowStep(c: Primitives, blocks: seq<Block>, strictHex: bool)
    requires |blocks| > 1
    ensures var n := |blocks| - 1;
            AllFollow(c, blocks, strictHex) <==>
              AllFollow(c, blocks[..n], strictHex) && Follows(c, blocks, strictHex, n)
  {
    hide VerifyLinked;
    var n := |blocks| - 1;
    forall i | 0 < i < n ensures Follows(c, blocks[..n], strictHex, i) == Follows(c, blocks, strictHex, i) {
    }
  }

  /** Links hold exactly when every block follows its predecessor. */
  lemma {:induction false} LinksHold(c: Primitives, blocks: seq<Block>, strictHex: bool)
    ensures LinkError(c, blocks, strictHex).None? <==> AllFollow(c, blocks, strictHex)
    decreases |blocks|
  {
    hide VerifyLinked;
    if |blocks| > 1 {
      LinksHold(c, blocks[..|blocks| - 1], strictHex);
      AllFollowStep(c, blocks, strictHex);
      hide AllFollow;
    }
  }

  /** Otherwise the first block that does not decides the error. */
  lemma FirstBrokenLink(c: Primitives, blocks: seq<Block>, strictHex: bool, i: nat)
    requires 0 < i < |blocks| && !Follows(c, blocks, strictHex, i) && AllFollow(c, blocks[..i], strictHex)
    ensures LinkError(c, blocks, strictHex) == VerifyLinked(c, blocks[i], blocks[i - 1], i, strictHex)
  {
    hide VerifyLinked, AllFollow, LinkError;
    LinksHold(c, blocks[..i], strictHex);
    assert blocks[..i + 1][..i] == blocks[..i];
    LinkErrorAt(c, blocks[..i + 1], strictHex);
    LinkErrorOfPrefix(c, blocks, strictHex, i + 1);
  }

  lemma LinkErrorAt(c: Primitives, blocks: seq<Block>, strictHex: bool)
    requires |blocks| > 1 && LinkError(c, blocks[..|blocks| - 1], strictHex).None?
    ensures LinkError(c, blocks, strictHex)
         == VerifyLinked(c, blocks[|blocks| - 1], blocks[|blocks| - 2], |blocks| - 1, strictHex)
  {
    hide VerifyLinked;
  }

  /** A failed replay names the block and operation it failed at: the blocks before
      replay, and that block fails there on the graph they rebuild. */
  lemma {:induction false} FailedReplayIsLocated(blocks: seq<Block>)
    requires ReplayBlocks(blocks).Err?
    ensures var e := ReplayBlocks(blocks).error;
            && e.BadOps? && e.block < |blocks| && ReplayBlocks(blocks[..e.block]).Ok?
            && ApplyAll(ReplayBlocks(blocks[..e.block]).value, blocks[e.block].ops) == Err((e.op, e.error))
    decreases |blocks|
  {
    hide ApplyAll;
    var n := |blocks| - 1;
    if ReplayBlocks(blocks[..n]).Err? {
      FailedReplayIsLocated(blocks[..n]);
      assert blocks[..n][..ReplayBlocks(blocks).error.block] == blocks[..ReplayBlocks(blocks).error.block];
    }
  }

  /** Validation reports the genesis first, then the links, then the replay. */
  lemma ValidationOrder(c: Primitives, blocks: seq<Block>)
    ensures Validate(c, blocks) == Err(Empty) <==> blocks == []
    ensures blocks != [] && ValidateGenesis(c, blocks[0]).Err? ==>
      Validate(c, blocks) == Err(ValidateGenesis(c, blocks[0]).error)
    ensures blocks != [] && ValidateGenesis(c, blocks[0]).Ok? ==>
      match LinkError(c, blocks, Strict(c, blocks))
      case Some(e) => Validate(c, blocks) == Err(e)
      case None => Validate(c, blocks) == ReplayBlocks(blocks)
  {
    hide ValidateGenesis, VerifyLinked;
    if blocks != [] && ValidateGenesis(c, blocks[0]).Ok? && LinkError(c, blocks, Strict(c, blocks)).None?
       && ReplayBlocks(blocks).Err? {
      FailedReplayIsLocated(blocks);
    }
    if blocks != [] && LinkError(c, blocks, Strict(c, blocks)).Some? {
      LinksAreNeverEmpty(c, blocks, Strict(c, blocks));
    }
    if blocks != [] {
      GenesisErrors(c, blocks[0]);
    }
  }

  lemma GenesisErrors(c: Primitives, g: Block)
    ensures ValidateGenesis(c, g) != Err(Empty)
  {
  }

  lemma {:induction false} LinksAreNeverEmpty(c: Primitives, blocks: seq<Block>, strictHex: bool)
    ensures LinkError(c, blocks, strictHex) != Some(Empty)
    decreases |blocks|
  {
    hide VerifyLinked;
    if |blocks| > 1 {
      var n := |blocks| - 1;
      LinksAreNeverEmpty(c, blocks[..n], strictHex);
      RefusalNamesCheck(c, blocks[n], blocks[n - 1], n, strictHex);
    }
  }

  // ------------------------------------------------------------------
  // prefixes and extensions
  // ------------------------------------------------------------------

  lemma ValidIsLinkedAndReplayable(c: Primitives, blocks: seq<Block>)
    ensures Valid(c, blocks) <==> Linked(c, blocks) && ReplayBlocks(blocks).Ok?
    ensures Valid(c, blocks) ==> Validate(c, blocks) == ReplayBlocks(blocks)
  {
  }

  lemma {:induction false} LinkErrorOfPrefix(c: Primitives, blocks: seq<Block>, strictHex: bool, k: nat)
    requires k <= |blocks|
    ensures LinkError(c, blocks, strictHex).None? ==> LinkError(c, blocks[..k], strictHex).None?
    ensures LinkError(c, blocks[..k], strictHex).Some? ==>
      LinkError(c, blocks, strictHex) == LinkError(c, blocks[..k], strictHex)
    decreases |blocks|
  {
    if k < |blocks| {
      var init := blocks[..|blocks| - 1];
      LinkErrorOfPrefix(c, init, strictHex, k);
      assert init[..k] == blocks[..k];
    } else {
      assert blocks[..k] == blocks;
    }
  }

  lemma {:induction false} ReplayOfPrefix(blocks: seq<Block>, k: nat)
    requires k <= |blocks|
    ensures ReplayBlocks(blocks).Ok? ==> ReplayBlocks(blocks[..k]).Ok?
    ensures ReplayBlocks(blocks[..k]).Err? ==> ReplayBlocks(blocks) == ReplayBlocks(blocks[..k])
    decreases |blocks|
  {
    if k < |blocks| {
      var init := blocks[..|blocks| - 1];
      ReplayOfPrefix(init, k);
      assert init[..k] == blocks[..k];
    } else {
      assert blocks[..k] == blocks;
    }
  }

  /** Every non-empty prefix of a valid history is a valid history. */
  lemma PrefixIsValid(c: Primitives, blocks: seq<Block>, k: nat)
    requires Valid(c, blocks) && 0 < k <= |blocks|
    ensures Valid(c, blocks[..k])
  {
    LinkErrorOfPrefix(c, blocks, Strict(c, blocks), k);
    ReplayOfPrefix(blocks, k);
  }

  lemma LinkedSnoc(c: Primitives, blocks: seq<Block>, b: Block)
    requires Linked(c, blocks)
    ensures Linked(c, blocks + [b]) <==>
      VerifyLinked(c, b, blocks[|blocks| - 1], |blocks|, Strict(c, blocks)).None?
  {
    hide VerifyLinked, ValidateGenesis;
    assert (blocks + [b])[..|blocks|] == blocks;
  }

  lemma LinkedPrefix(c: Primitives, blocks: seq<Block>, k: nat)
    requires Linked(c, blocks) && 0 < k <= |blocks|
    ensures Linked(c, blocks[..k])
  {
    LinkErrorOfPrefix(c, blocks, Strict(c, blocks), k);
  }

  lemma GenesisOfLinked(c: Primitives, g: Block)
    requires ValidateGenesis(c, g).Ok?
    ensures g.index == 0 && g.hash == ComputeHash(c, g) && g.ops == [] && g.sig == ""
  {
    GenesisHashIsItsOwn(c, g.message);
    if SCOPED_PREFIX <= g.message {
      assert g.message == SCOPED_PREFIX + g.message[|SCOPED_PREFIX|..];
    }
  }

  /** Each block of a linked history passed its own check, sits at its index,
      and carries the hash of its own record. */
  lemma {:induction false} LinkedAt(c: Primitives, blocks: seq<Block>, i: nat)
    requires Linked(c, blocks) && i < |blocks|
    ensures blocks[i].index == i
    ensures blocks[i].hash == ComputeHash(c, blocks[i])
    ensures FiniteOps(blocks[i].ops) && (blocks[i].ops == [] <==> i == 0)
    ensures i > 0 ==> VerifyLinked(c, blocks[i], blocks[i - 1], i, Strict(c, blocks)).None?
    decreases i
  {
    hide ValidateGenesis;
    hide VerifySig, ComputeHash;
    if i == 0 {
      GenesisOfLinked(c, blocks[0]);
    } else {
      LinkedPrefix(c, blocks, i + 1);
      assert blocks[..i + 1][..i] == blocks[..i];
      LinkedAt(c, blocks, i - 1);
    }
  }

  /** Replaying blocks is replaying their operations in order. */
  lemma {:induction false} ReplayIsApplyAll(blocks: seq<Block>)
    ensures ReplayBlocks(blocks).Ok? <==> Replays(EMPTY, OpsOf(blocks))
    ensures ReplayBlocks(blocks).Ok? ==> ReplayBlocks(blocks).value == ApplyAll(EMPTY, OpsOf(blocks)).value
    decreases |blocks|
  {
    if blocks != [] {
      var init := blocks[..|blocks| - 1];
      ReplayIsApplyAll(init);
      ApplyAllConcat(EMPTY, OpsOf(init), blocks[|blocks| - 1].ops);
    }
  }

  // ------------------------------------------------------------------
  // append
  // ------------------------------------------------------------------

  function Seal(c: Primitives, head: Block, ops: seq<GraphOp>, message: string, id: Identity, timestamp: nat): Block {
    var b := Block(head.index + 1, head.hash, timestamp, id.name, PublicHex(c, id), message, ops, "", "");
    var hashed := b.(hash := ComputeHash(c, b));
    hashed.(sig := SignHashHex(c, id, hashed.hash))
  }

  /** The outcome of `append`, with the checks in the order it makes them. */
  function AppendOutcome(
    c: Primitives, blocks: seq<Block>, ops: seq<GraphOp>, message: string, id: Identity, timestamp: nat
  ): Result<Block, ChainError> {
    if ops == [] then Err(EmptyOps)
    else
      match FirstNonFinite(ops)
      case Some(op) => Err(NonFinite(|blocks|, op))
      case None =>
        match Validate(c, blocks)
        case Err(e) => Err(e)
        case Ok(g) =>
          match ApplyAll(g, ops)
          case Err((op, error)) => Err(BadOps(|blocks|, op, error))
          case Ok(_) => Ok(Seal(c, blocks[|blocks| - 1], ops, message, id, timestamp))
  }

  /** Why an append on a valid history is refused: no operations, then the first one
      that is not finite, then the first one that does not replay. */
  lemma AppendRefusalNamesCause(
    c: Primitives, blocks: seq<Block>, ops: seq<GraphOp>, message: string, id: Identity, timestamp: nat, k: nat)
    requires Valid(c, blocks)
    ensures var r := AppendOutcome(c, blocks, ops, message, id, timestamp);
            var g := ReplayBlocks(blocks).value;
            && (r == Err(EmptyOps) <==> ops == [])
            && (r == Err(NonFinite(|blocks|, k)) <==> k < |ops| && !FiniteOp(ops[k]) && FiniteOps(ops[..k]))
            && (forall e :: r == Err(BadOps(|blocks|, k, e)) <==>
                  && FiniteOps(ops) && k < |ops| && Replays(g, ops[..k])
                  && Apply(ApplyAll(g, ops[..k]).value, ops[k]) == Err(e))
  {
    ValidIsLinkedAndReplayable(c, blocks);
    hide Apply, ApplyAll, FirstNonFinite, FiniteOp, ReplayBlocks, Seal, Linked, Validate;
    var g := ReplayBlocks(blocks).value;
    if k < |ops| && FiniteOps(ops[..k]) && !FiniteOp(ops[k]) {
      FirstNonFiniteIs(ops, k);
    }
    forall e ensures ApplyAll(g, ops) == Err((k, e)) <==>
      k < |ops| && Replays(g, ops[..k]) && Apply(ApplyAll(g, ops[..k]).value, ops[k]) == Err(e)
    {
      ErrorIsLocated(g, ops, k, e);
    }
  }

  lemma SealedBlockVerifies(
    c: Primitives, head: Block, ops: seq<GraphOp>, message: string, id: Identity, timestamp: nat,
    at: nat, strictHex: bool)
    requires SignatureLaws(c) && ops != [] && FiniteOps(ops)
    ensures VerifyLinked(c, Seal(c, head, ops, message, id, timestamp), head, at, strictHex).None?
  {
    var b := Seal(c, head, ops, message, id, timestamp);
    assert RecordOf(b) == RecordOf(b.(hash := "", sig := ""));
    var digest := c.sha256(SignableJson(c, b));
    assert b.hash == Encode(digest);
    RoundTrip(digest);
    RoundTrip(c.publicKey(id.secret));
    RoundTrip(c.sign(id.secret, digest));
  }

  /** The block holds what its author asked to be recorded. */
  predicate Carries(c: Primitives, b: Block, ops: seq<GraphOp>, message: string, id: Identity, timestamp: nat) {
    && b.ops == ops && b.message == message && b.timestamp == timestamp
    && b.author == id.name && Decode(b.authorPk) == Some(c.publicKey(id.secret))
  }

  /** On a valid history `append` accepts exactly the non-empty, finite batches
      that replay on it; the longer history is then fully valid and rebuilds the
      base graph followed by the batch. */
  lemma {:induction false} AppendIsExact(
    c: Primitives, blocks: seq<Block>, ops: seq<GraphOp>, message: string, id: Identity, timestamp: nat)
    requires SignatureLaws(c) && Valid(c, blocks)
    ensures var r := AppendOutcome(c, blocks, ops, message, id, timestamp);
            var g := ReplayBlocks(blocks).value;
            && (r.Ok? <==> ops != [] && FiniteOps(ops) && Replays(g, ops))
            && (r.Ok? ==> Validate(c, blocks + [r.value]) == Ok(ApplyAll(g, ops).value))
            && (r.Ok? ==> Carries(c, r.value, ops, message, id, timestamp))
  {
    var r := AppendOutcome(c, blocks, ops, message, id, timestamp);
    if r.Ok? {
      SealedBlockVerifies(c, blocks[|blocks| - 1], ops, message, id, timestamp, |blocks|, Strict(c, blocks));
      LinkedSnoc(c, blocks, r.value);
      assert (blocks + [r.value])[..|blocks|] == blocks;
      RoundTrip(c.publicKey(id.secret));
    }
  }

  // ------------------------------------------------------------------
  // extension by offered blocks
  // ------------------------------------------------------------------

  /** One offered block against the history accepted so far, `base + tail`. */
  function Offer(c: Primitives, base: seq<Block>, tail: seq<Block>, b: Block, strictHex: bool)
    : (r: Result<seq<Block>, ChainError>)
    requires base != []
  {
    var all := base + tail;
    var head := all[|all| - 1];
    if b.index <= head.index then
      if b.index < |all| && all[b.index].index == b.index && all[b.index].hash == b.hash then Ok(tail)
      else Err(Diverged(b.index))
    else if head.index + 1 != b.index || b.prevHash != head.hash then Err(Diverged(b.index))
    else
      match VerifyLinked(c, b, head, b.index, strictHex)
      case Some(e) => Err(e)
      case None => Ok(tail + [b])
  }

  /** The blocks `verify_extension_crypto` would append, in order. */
  function CryptoTail(c: Primitives, base: seq<Block>, offered: seq<Block>, strictHex: bool)
    : Result<seq<Block>, ChainError>
    requires base != []
  {
    if offered == [] then Ok([])
    else
      match CryptoTail(c, base, offered[..|offered| - 1], strictHex)
      case Err(e) => Err(e)
      case Ok(tail) => Offer(c, base, tail, offered[|offered| - 1], strictHex)
  }

  lemma {:induction false} CryptoTailOfPrefix(
    c: Primitives, base: seq<Block>, offered: seq<Block>, strictHex: bool, k: nat)
    requires base != [] && k <= |offered|
    ensures CryptoTail(c, base, offered[..k], strictHex).Err? ==>
      CryptoTail(c, base, offered, strictHex) == CryptoTail(c, base, offered[..k], strictHex)
    ensures CryptoTail(c, base, offered, strictHex).Ok? ==>
      && CryptoTail(c, base, offered[..k], strictHex).Ok?
      && CryptoTail(c, base, offered[..k], strictHex).value <= CryptoTail(c, base, offered, strictHex).value
    decreases |offered|
  {
    if k < |offered| {
      var init := offered[..|offered| - 1];
      CryptoTailOfPrefix(c, base, init, strictHex, k);
      assert init[..k] == offered[..k];
    } else {
      assert offered[..k] == offered;
    }
  }

  lemma CryptoTailStep(c: Primitives, base: seq<Block>, offered: seq<Block>, strictHex: bool, i: nat)
    requires base != [] && i < |offered|
    requires CryptoTail(c, base, offered[..i], strictHex).Ok?
    ensures var r := Offer(c, base, CryptoTail(c, base, offered[..i], strictHex).value, offered[i], strictHex);
            && CryptoTail(c, base, offered[..i + 1], strictHex) == r
            && (r.Err? ==> CryptoTail(c, base, offered, strictHex) == r)
  {
    hide Offer;
    assert offered[..i + 1][..i] == offered[..i];
    CryptoTailOfPrefix(c, base, offered, strictHex, i + 1);
  }

  /** The outcome of extending a valid history: its longer form and graph. */
  function ExtendOutcome(c: Primitives, base: seq<Block>, offered: seq<Block>)
    : Result<(seq<Block>, Graph), ChainError>
    requires base != []
  {
    match CryptoTail(c, base, offered, Strict(c, base))
    case Err(e) => Err(e)
    case Ok(tail) =>
      match ReplayBlocks(base + tail)
      case Err(e) => Err(e)
      case Ok(g) => Ok((base + tail, g))
  }

  /** Of the offered blocks beyond the known length, the first copy of each index. */
  function FirstCopies(known: nat, offered: seq<Block>): (r: seq<Block>)
    ensures forall b :: b in r ==> b in offered && b.index >= known
  {
    if offered == [] then []
    else
      var init, b := offered[..|offered| - 1], offered[|offered| - 1];
      assert forall x :: x in init ==> x in offered;
      FirstCopies(known, init) +
      (if b.index >= known && forall x :: x in init ==> x.index != b.index then [b] else [])
  }

  /** `b` repeats a block of the history, by index and hash. */
  predicate Agrees(all: seq<Block>, b: Block) {
    b.index < |all| && all[b.index].hash == b.hash
  }

  ghost predicate RepeatsAgree(all: seq<Block>, offered: seq<Block>) {
    forall b :: b in offered ==> Agrees(all, b)
  }

  ghost predicate Extends(c: Primitives, base: seq<Block>, offered: seq<Block>) {
    var all := base + FirstCopies(|base|, offered);
    Linked(c, all) && RepeatsAgree(all, offered)
  }

  lemma {:induction false} FirstCopiesSnoc(c: Primitives, base: seq<Block>, init: seq<Block>, b: Block)
    requires Extends(c, base, init)
    ensures var tail := FirstCopies(|base|, init);
            FirstCopies(|base|, init + [b]) == if b.index >= |base + tail| then tail + [b] else tail
  {
    var tail := FirstCopies(|base|, init);
    var all := base + tail;
    assert (init + [b])[..|init|] == init;
    if b.index >= |all| {
      assert forall x :: x in init ==> Agrees(all, x) && x.index != b.index;
    } else if b.index >= |base| {
      LinkedAt(c, all, b.index);
      assert all[b.index] in tail;
    }
  }

  /** What `Offer` asks of one block, once the history so far is linked. */
  lemma OfferMeans(c: Primitives, base: seq<Block>, tail: seq<Block>, b: Block)
    requires Linked(c, base + tail) && base != []
    ensures var all := base + tail;
            Offer(c, base, tail, b, Strict(c, all)) ==
              (if b.index < |all| then
                 if all[b.index].hash == b.hash then Ok(tail) else Err(Diverged(b.index))
               else if b.index != |all| || b.prevHash != all[|all| - 1].hash then Err(Diverged(b.index))
               else
                 match VerifyLinked(c, b, all[|all| - 1], |all|, Strict(c, all))
                 case Some(e) => Err(e)
                 case None => Ok(tail + [b]))
  {
    var all := base + tail;
    LinkedAt(c, all, |all| - 1);
    if b.index < |all| {
      LinkedAt(c, all, b.index);
    }
  }

  lemma RepeatsAgreeSnoc(all: seq<Block>, init: seq<Block>, b: Block)
    ensures RepeatsAgree(all, init + [b]) <==> RepeatsAgree(all, init) && Agrees(all, b)
  {
    assert forall x :: x in init + [b] <==> x in init || x == b;
  }

  lemma {:induction false} ExtendsSnoc(c: Primitives, base: seq<Block>, init: seq<Block>, b: Block)
    requires Linked(c, base) && Extends(c, base, init)
    ensures var all := base + FirstCopies(|base|, init);
            Extends(c, base, init + [b]) <==>
              if b.index < |all| then Agrees(all, b) else Linked(c, all + [b])
  {
    hide Linked, FirstCopies, VerifyLinked;
    var tail := FirstCopies(|base|, init);
    var all := base + tail;
    FirstCopiesSnoc(c, base, init, b);
    if b.index < |all| {
      RepeatsAgreeSnoc(all, init, b);
    } else {
      assert base + (tail + [b]) == all + [b];
      NewBlockAgrees(c, all, init, b);
    }
  }

  lemma StrictIsInherited(c: Primitives, base: seq<Block>, tail: seq<Block>)
    requires base != []
    ensures Strict(c, base + tail) == Strict(c, base)
  {
    hide ValidateGenesis;
  }

  /** An offer below the accepted length must repeat what is there. */
  lemma KnownOffer(c: Primitives, base: seq<Block>, tail: seq<Block>, b: Block)
    requires Linked(c, base + tail) && base != [] && b.index < |base + tail|
    ensures Offer(c, base, tail, b, Strict(c, base)) ==
      if Agrees(base + tail, b) then Ok(tail) else Err(Diverged(b.index))
  {
    StrictIsInherited(c, base, tail);
    hide Linked, Offer, Strict, VerifyLinked;
    OfferMeans(c, base, tail, b);
  }

  /** An offer beyond it must link to the head. */
  lemma NewOffer(c: Primitives, base: seq<Block>, tail: seq<Block>, b: Block)
    requires Linked(c, base + tail) && base != [] && b.index >= |base + tail|
    ensures var r := Offer(c, base, tail, b, Strict(c, base));
            (r.Ok? <==> Linked(c, base + tail + [b])) && (r.Ok? ==> r.value == tail + [b])
  {
    hide Linked, Offer, Strict, VerifyLinked;
    StrictIsInherited(c, base, tail);
    NewBlockAgrees(c, base + tail, [], b);
    hide RepeatsAgree;
    LinkedSnoc(c, base + tail, b);
    OfferMeans(c, base, tail, b);
  }

  lemma {:induction false} OfferIsExact(c: Primitives, base: seq<Block>, init: seq<Block>, b: Block)
    requires Linked(c, base) && Extends(c, base, init)
    ensures var r := Offer(c, base, FirstCopies(|base|, init), b, Strict(c, base));
            && (r.Ok? <==> Extends(c, base, init + [b]))
            && (r.Ok? ==> r.value == FirstCopies(|base|, init + [b]))
  {
    hide FirstCopies, Linked, Offer, Strict, RepeatsAgree, Agrees;
    var tail := FirstCopies(|base|, init);
    LinkedIsSome(c, base);
    assert Linked(c, base + tail);
    FirstCopiesSnoc(c, base, init, b);
    ExtendsSnoc(c, base, init, b);
    hide Extends;
    if b.index < |base + tail| {
      KnownOffer(c, base, tail, b);
    } else {
      NewOffer(c, base, tail, b);
    }
  }

  lemma LinkedIsSome(c: Primitives, blocks: seq<Block>)
    requires Linked(c, blocks)
    ensures blocks != []
  {
  }

  lemma NewBlockAgrees(c: Primitives, all: seq<Block>, init: seq<Block>, b: Block)
    requires Linked(c, all) && RepeatsAgree(all, init)
    ensures Linked(c, all + [b]) ==>
      b.index == |all| && b.prevHash == all[|all| - 1].hash && RepeatsAgree(all + [b], init + [b])
  {
    if Linked(c, all + [b]) {
      LinkedAt(c, all + [b], |all|);
      forall x | x in init + [b] ensures Agrees(all + [b], x) {
        assert x in init ==> Agrees(all, x);
      }
    }
  }

  lemma {:induction false} ExtendsInit(c: Primitives, base: seq<Block>, init: seq<Block>, b: Block)
    requires Linked(c, base) && Extends(c, base, init + [b])
    ensures Extends(c, base, init)
  {
    assert (init + [b])[..|init|] == init;
    var tail, tail' := FirstCopies(|base|, init), FirstCopies(|base|, init + [b]);
    var all, all' := base + tail, base + tail';
    assert all'[..|all|] == all;
    LinkedPrefix(c, all', |all|);
    forall x | x in init ensures Agrees(all, x) {
      assert x in init + [b];
      if tail' != tail {
        LinkedAt(c, all', |all|);
      }
    }
  }

  /** The incremental crypto pass accepts an offer exactly when the old blocks
      plus the first copy of each new index form a linked history and every
      repeat matches by hash; it then selects exactly those first copies. */
  lemma {:induction false} CryptoTailIsExact(c: Primitives, base: seq<Block>, offered: seq<Block>)
    requires Linked(c, base)
    ensures var r := CryptoTail(c, base, offered, Strict(c, base));
            && (r.Ok? <==> Extends(c, base, offered))
            && (r.Ok? ==> r.value == FirstCopies(|base|, offered))
    decreases |offered|
  {
    if offered == [] {
      assert base + FirstCopies(|base|, offered) == base;
    } else {
      var init, b := offered[..|offered| - 1], offered[|offered| - 1];
      assert offered == init + [b];
      CryptoTailIsExact(c, base, init);
      if Extends(c, base, init) {
        OfferIsExact(c, base, init, b);
      } else if Extends(c, base, offered) {
        ExtendsInit(c, base, init, b);
        assert false;
      }
    }
  }

  /** How the second pass of the trusted path picks the blocks the first pass
      verified, by index alone. */
  lemma {:induction false} SelectedByIndex(c: Primitives, base: seq<Block>, offered: seq<Block>, i: nat)
    requires Linked(c, base) && i < |offered|
    requires CryptoTail(c, base, offered, Strict(c, base)).Ok?
    ensures CryptoTail(c, base, offered[..i], Strict(c, base)).Ok?
    ensures var selected := CryptoTail(c, base, offered, Strict(c, base)).value;
            var tail := CryptoTail(c, base, offered[..i], Strict(c, base)).value;
            var tail' := if offered[i].index < |base + tail| then tail else tail + [offered[i]];
            && CryptoTail(c, base, offered[..i + 1], Strict(c, base)) == Ok(tail')
            && tail' <= selected
            && (offered[i].index >= |base + tail| ==> offered[i].index == |base + tail|)
  {
    CryptoTailOfPrefix(c, base, offered, Strict(c, base), i);
    CryptoTailOfPrefix(c, base, offered, Strict(c, base), i + 1);
    CryptoTailIsExact(c, base, offered[..i]);
    assert offered[..i + 1][..i] == offered[..i];
    var tail := CryptoTail(c, base, offered[..i], Strict(c, base)).value;
    assert Strict(c, base + tail) == Strict(c, base);
    OfferMeans(c, base, tail, offered[i]);
  }

  lemma ReplaySnoc(blocks: seq<Block>, b: Block)
    requires ReplayBlocks(blocks).Ok?
    ensures ReplayBlocks(blocks + [b]) ==
      match ApplyAll(ReplayBlocks(blocks).value, b.ops)
      case Err((op, error)) => Err(BadOps(|blocks|, op, error))
      case Ok(g) => Ok(g)
  {
    assert (blocks + [b])[..|blocks|] == blocks;
  }

  /** Replaying one selected block either advances the candidate graph or is the
      failure that replaying the whole extension would report. */
  lemma SelectedReplays(base: seq<Block>, tail: seq<Block>, b: Block, selected: seq<Block>)
    requires ReplayBlocks(base + tail).Ok? && tail + [b] <= selected
    ensures match ApplyAll(ReplayBlocks(base + tail).value, b.ops)
            case Err((op, error)) => ReplayBlocks(base + selected) == Err(BadOps(|base + tail|, op, error))
            case Ok(g) => ReplayBlocks(base + (tail + [b])) == Ok(g)
  {
    hide ReplayBlocks, ApplyAll;
    ReplaySnoc(base + tail, b);
    JoinedPrefix(base, tail, b, selected);
    ReplayOfPrefix(base + selected, |base + tail| + 1);
  }

  lemma JoinedPrefix(base: seq<Block>, tail: seq<Block>, b: Block, selected: seq<Block>)
    requires tail + [b] <= selected
    ensures base + (tail + [b]) == base + tail + [b]
    ensures |base + tail| + 1 <= |base + selected| && (base + selected)[..|base + tail| + 1] == base + tail + [b]
  {
  }

  /** The trusted fast path refines full validation: it succeeds exactly when the
      base blocks plus the first copies validate and replay from scratch and every
      repeat matches, and then holds what full validation would have built. */
  lemma {:induction false} ExtensionRefinesValidation(c: Primitives, base: seq<Block>, offered: seq<Block>)
    requires Valid(c, base)
    ensures var all := base + FirstCopies(|base|, offered);
            var r := ExtendOutcome(c, base, offered);
            && (r.Ok? <==> Valid(c, all) && RepeatsAgree(all, offered))
            && (r.Ok? ==> r.value.0 == all && Validate(c, all) == Ok(r.value.1))
  {
    CryptoTailIsExact(c, base, offered);
  }
}
