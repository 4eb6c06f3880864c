/** The op-log chain object: a vector of blocks that grows by sealing operations
    or by fast-forwarding over offered blocks. */
module OpLog {
  import opened Common
  import opened GraphModel
  import opened Blocks
  import opened History

  class Chain {
    const crypto: Primitives
    var blocks: seq<Block>

    /** `Chain { blocks }`: nothing is checked yet. */
    constructor FromBlocks(crypto: Primitives, blocks: seq<Block>)
      ensures this.crypto == crypto && this.blocks == blocks
    {
      this.crypto := crypto;
      this.blocks := blocks;
    }

    /** A fresh project-scoped chain, for a canonical chain id. */
    constructor Scoped(crypto: Primitives, chainId: string)
      requires Hex.IsLowerHex(chainId, 32)
      ensures this.crypto == crypto && Validate(crypto, blocks) == Ok(EMPTY)
      ensures |blocks| == 1 && ValidateGenesis(crypto, blocks[0]) == Ok(GenesisKind.Scoped(chainId))
    {
      this.crypto := crypto;
      this.blocks := [ScopedGenesis(crypto, chainId)];
      new;
      assert (SCOPED_PREFIX + chainId)[|SCOPED_PREFIX|..] == chainId;
      assert SCOPED_PREFIX + chainId != GENESIS_MESSAGE by {
        assert |SCOPED_PREFIX + chainId| > |GENESIS_MESSAGE|;
      }
      assert blocks[..0] == [] && ReplayBlocks([]) == Ok(EMPTY);
    }

    /** The same for any text, which must be a canonical chain id. */
    static method NewScoped(crypto: Primitives, chainId: string) returns (r: Result<Chain, ChainError>)
      ensures r == Err(BadChainId) || (r.Ok? && Hex.IsLowerHex(chainId, 32))
      ensures Hex.IsLowerHex(chainId, 32) ==>
        && r.Ok? && fresh(r.value) && r.value.crypto == crypto && |r.value.blocks| == 1
        && Validate(crypto, r.value.blocks) == Ok(EMPTY)
        && ValidateGenesis(crypto, r.value.blocks[0]) == Ok(GenesisKind.Scoped(chainId))
    {
      if !Hex.IsLowerHex(chainId, 32) {
        return Err(BadChainId);
      }
      var chain := new Chain.Scoped(crypto, chainId);
      return Ok(chain);
    }

    ghost predicate Sound()
      reads this
    {
      Valid(crypto, blocks)
    }

    /** The graph this history rebuilds. */
    ghost function Materialized(): Graph
      reads this
      requires Sound()
    {
      ReplayBlocks(blocks).value
    }

    /** Rebuild the document through block `upto`, or through the head. */
    method Replay(upto: Option<nat>) returns (r: Result<Graph, ChainError>)
      ensures r == ReplayBlocks(
        if upto.Some? && upto.value + 1 <= |blocks| then blocks[..upto.value + 1] else blocks)
    {
      var count := if upto.Some? && upto.value + 1 < |blocks| then upto.value + 1 else |blocks|;
      var taken := blocks[..count];
      assert taken == if upto.Some? && upto.value + 1 <= |blocks| then blocks[..upto.value + 1] else blocks;
      var graph := EMPTY;
      for bi := 0 to count
        invariant ReplayBlocks(taken[..bi]) == Ok(graph)
      {
        assert taken[..bi + 1][..bi] == taken[..bi];
        var applied := ApplyEach(graph, taken[bi].ops);
        match applied
        case Err((op, error)) =>
          ReplayOfPrefix(taken, bi + 1);
          return Err(BadOps(bi, op, error));
        case Ok(next) => graph := next;
      }
      assert taken[..count] == taken;
      return Ok(graph);
    }

    /** Full validation from the genesis on, and the graph it rebuilds. */
    method ValidateAndReplay() returns (r: Result<Graph, ChainError>)
      ensures r == Validate(crypto, blocks)
    {
      if blocks == [] {
        return Err(Empty);
      }
      var genesis := ValidateGenesis(crypto, blocks[0]);
      if genesis.Err? {
        return Err(genesis.error);
      }
      var strictHex := genesis.value.Scoped?;
      for at := 1 to |blocks|
        invariant LinkError(crypto, blocks[..at], strictHex).None?
      {
        assert blocks[..at + 1][..at] == blocks[..at];
        var broken := VerifyLinked(crypto, blocks[at], blocks[at - 1], at, strictHex);
        if broken.Some? {
          LinkErrorOfPrefix(crypto, blocks, strictHex, at + 1);
          return Err(broken.value);
        }
      }
      assert blocks[..|blocks|] == blocks;
      r := Replay(None);
    }

    /** Seal `ops` into a new signed block on the head; every check precedes the
        only mutation. */
    method Append(ops: seq<GraphOp>, message: string, identity: Identity, timestamp: nat)
      returns (r: Result<Block, ChainError>)
      modifies this
      ensures r == AppendOutcome(crypto, old(blocks), ops, message, identity, timestamp)
      ensures blocks == if r.Ok? then old(blocks) + [r.value] else old(blocks)
    {
      if ops == [] {
        return Err(EmptyOps);
      }
      for oi := 0 to |ops|
        invariant FiniteOps(ops[..oi])
      {
        if !FiniteOp(ops[oi]) {
          FirstNonFiniteIs(ops, oi);
          return Err(NonFinite(|blocks|, oi));
        }
      }
      assert ops[..|ops|] == ops;
      var validated := ValidateAndReplay();
      if validated.Err? {
        return Err(validated.error);
      }
      var applied := ApplyEach(validated.value, ops);
      if applied.Err? {
        return Err(BadOps(|blocks|, applied.error.0, applied.error.1));
      }
      var block := Seal(crypto, blocks[|blocks| - 1], ops, message, identity, timestamp);
      blocks := blocks + [block];
      return Ok(block);
    }

    /** Check offered blocks against the trusted head without rescanning the
        accepted prefix; count how many are new. */
    method VerifyExtensionCrypto(offered: seq<Block>) returns (r: Result<nat, ChainError>, ghost tail: seq<Block>)
      requires Sound()
      ensures r.Ok? <==> CryptoTail(crypto, blocks, offered, Strict(crypto, blocks)).Ok?
      ensures r.Ok? ==> CryptoTail(crypto, blocks, offered, Strict(crypto, blocks)) == Ok(tail) && r.value == |tail|
      ensures r.Err? ==> CryptoTail(crypto, blocks, offered, Strict(crypto, blocks)) == Err(r.error)
    {
      var strictHex := ValidateGenesis(crypto, blocks[0]).value.Scoped?;
      var appended: seq<Block> := [];
      tail := [];
      assert offered[..0] == [] && CryptoTail(crypto, blocks, [], strictHex) == Ok([]);
      hide Validate, Valid, ValidateGenesis, VerifyLinked, Strict, CryptoTail, Offer, Linked, ReplayBlocks;
      for i := 0 to |offered|
        invariant CryptoTail(crypto, blocks, offered[..i], strictHex) == Ok(appended)
      {
        CryptoTailStep(crypto, blocks, offered, strictHex, i);
        var checked := CheckOffered(appended, offered[i], strictHex);
        if checked.Err? {
          return Err(checked.error), [];
        }
        if checked.value {
          appended := appended + [offered[i]];
        }
      }
      assert offered[..|offered|] == offered;
      return Ok(|appended|), appended;
    }

    /** One offered block against the trusted history and the blocks accepted so far:
        a new block, a repeat, or an error. */
    method CheckOffered(appended: seq<Block>, block: Block, strictHex: bool) returns (r: Result<bool, ChainError>)
      requires blocks != []
      ensures Offer(crypto, blocks, appended, block, strictHex) ==
        match r
        case Err(e) => Err(e)
        case Ok(isNew) => Ok(if isNew then appended + [block] else appended)
    {
      hide VerifyLinked;
      var head := if appended != [] then appended[|appended| - 1] else blocks[|blocks| - 1];
      assert head == (blocks + appended)[|blocks + appended| - 1];
      if block.index <= head.index {
        var pos := block.index;
        if pos >= |blocks| && pos - |blocks| >= |appended| {
          return Err(Diverged(block.index));
        }
        var known := if pos < |blocks| then blocks[pos] else appended[pos - |blocks|];
        assert known == (blocks + appended)[pos];
        if known.index != block.index || known.hash != block.hash {
          return Err(Diverged(block.index));
        }
        return Ok(false);
      }
      if head.index + 1 != block.index || block.prevHash != head.hash {
        return Err(Diverged(block.index));
      }
      var broken := VerifyLinked(crypto, block, head, block.index, strictHex);
      if broken.Some? {
        return Err(broken.value);
      }
      return Ok(true);
    }

    /** The second pass over verified blocks: pick the new ones by index and step
        a candidate graph through their operations. */
    method StepNewBlocks(materialized: Graph, offered: seq<Block>)
      returns (r: Result<Graph, ChainError>, tail: seq<Block>)
      requires Linked(crypto, blocks) && ReplayBlocks(blocks) == Ok(materialized)
      requires CryptoTail(crypto, blocks, offered, Strict(crypto, blocks)).Ok?
      ensures var selected := CryptoTail(crypto, blocks, offered, Strict(crypto, blocks)).value;
              r == ReplayBlocks(blocks + selected) && (r.Ok? ==> tail == selected)
    {
      ghost var strictHex := Strict(crypto, blocks);
      ghost var selected := CryptoTail(crypto, blocks, offered, strictHex).value;
      var nextIndex := |blocks|;
      var candidate := materialized;
      tail := [];
      assert blocks + tail == blocks && offered[..0] == [];
      assert CryptoTail(crypto, blocks, [], strictHex) == Ok([]);
      hide CryptoTail, FirstCopies, Linked, ReplayBlocks, ApplyAll, Strict;
      for i := 0 to |offered|
        invariant CryptoTail(crypto, blocks, offered[..i], strictHex) == Ok(tail)
        invariant nextIndex == |blocks + tail|
        invariant ReplayBlocks(blocks + tail) == Ok(candidate)
      {
        var block := offered[i];
        SelectedByIndex(crypto, blocks, offered, i);
        if block.index >= nextIndex {
          SelectedReplays(blocks, tail, block, selected);
          var applied := ApplyEach(candidate, block.ops);
          match applied {
            case Err((op, error)) =>
              return Err(BadOps(block.index, op, error)), tail;
            case Ok(next) =>
              candidate := next;
          }
          tail := tail + [block];
          nextIndex := nextIndex + 1;
        }
      }
      assert offered[..|offered|] == offered;
      return Ok(candidate), tail;
    }

    /** Apply a verified extension to the trusted graph of this very chain; all
        or nothing. */
    method TryExtendTrusted(materialized: Graph, offered: seq<Block>)
      returns (r: Result<nat, ChainError>, graph: Graph)
      requires Sound() && materialized == Materialized()
      modifies this
      ensures match ExtendOutcome(crypto, old(blocks), offered)
              case Ok((extended, g)) =>
                r == Ok(|blocks| - |old(blocks)|) && blocks == extended && old(blocks) <= blocks && graph == g
              case Err(e) => r == Err(e) && blocks == old(blocks) && graph == materialized
      ensures Sound()
    {
      ExtensionRefinesValidation(crypto, blocks, offered);
      var verified, selected := VerifyExtensionCrypto(offered);
      if verified.Err? {
        return Err(verified.error), materialized;
      }
      var stepped, tail := StepNewBlocks(materialized, offered);
      if stepped.Err? {
        return Err(stepped.error), materialized;
      }
      blocks := blocks + tail;
      return Ok(verified.value), stepped.value;
    }

    /** Fast-forward with foreign blocks, revalidating the whole history first. */
    method TryExtend(offered: seq<Block>) returns (r: Result<nat, ChainError>)
      modifies this
      ensures !Valid(crypto, old(blocks)) ==>
        r.Err? && Validate(crypto, old(blocks)) == Err(r.error) && blocks == old(blocks)
      ensures Valid(crypto, old(blocks)) ==> Valid(crypto, blocks)
      ensures Valid(crypto, old(blocks)) ==>
        match ExtendOutcome(crypto, old(blocks), offered)
        case Ok(extended) => r == Ok(|blocks| - |old(blocks)|) && blocks == extended.0 && old(blocks) <= blocks
        case Err(e) => r == Err(e) && blocks == old(blocks)
    {
      var validated := ValidateAndReplay();
      if validated.Err? {
        return Err(validated.error);
      }
      var graph;
      r, graph := TryExtendTrusted(validated.value, offered);
    }
  }
}
