/** Serialized sizes of blocks and chains, measured once per block. */
module Sizes {
  import opened Common
  import opened Hex
  import opened GraphModel
  import opened Blocks
  import opened History
  import opened Commitment

  datatype ChainSizes = ChainSizes(head: string, blocks: seq<nat>, blockBytes: nat, ops: nat)

  const NO_SIZES := ChainSizes("", [], 0, 0)

  function BlockSize(c: Primitives, b: Block): nat {
    |BlockJson(c, b)|
  }

  /** A block's text is its covered text with hash and signature let in, 19 more bytes. */
  lemma BlockSizeIs(c: Primitives, b: Block)
    ensures BlockSize(c, b) == |SignableJson(c, b)| + |b.hash| + |b.sig| + 19
    ensures BlockJson(c, b)[..|SignableJson(c, b)| - 1] == SignableJson(c, b)[..|SignableJson(c, b)| - 1]
  {
    assert |",\"hash\":\""| + |"\",\"sig\":\""| + |"\"}"| == 20;
  }

  /** A full recount. */
  function Measured(c: Primitives, blocks: seq<Block>): ChainSizes {
    if blocks == [] then NO_SIZES
    else
      var last := blocks[|blocks| - 1];
      var before := Measured(c, blocks[..|blocks| - 1]);
      ChainSizes(last.hash, before.blocks + [BlockSize(c, last)], before.blockBytes + BlockSize(c, last),
                 before.ops + |last.ops|)
  }

  function JoinedJson(c: Primitives, blocks: seq<Block>): string {
    if blocks == [] then ""
    else if |blocks| == 1 then BlockJson(c, blocks[0])
    else JoinedJson(c, blocks[..|blocks| - 1]) + "," + BlockJson(c, blocks[|blocks| - 1])
  }

  /** The compact JSON text of a whole chain. */
  function ChainJson(c: Primitives, blocks: seq<Block>): string {
    "{\"blocks\":[" + JoinedJson(c, blocks) + "]}"
  }

  /** The wrapper, the blocks and the commas account for every byte. */
  lemma {:induction false} JoinedJsonLength(c: Primitives, blocks: seq<Block>)
    requires blocks != []
    ensures |JoinedJson(c, blocks)| == Measured(c, blocks).blockBytes + |blocks| - 1
    decreases |blocks|
  {
    var init := blocks[..|blocks| - 1];
    if init == [] {
      assert Measured(c, init) == NO_SIZES;
    } else {
      JoinedJsonLength(c, init);
    }
  }

  lemma {:induction false} MeasuredAt(c: Primitives, blocks: seq<Block>, i: nat)
    requires i < |blocks|
    ensures |Measured(c, blocks).blocks| == |blocks|
    ensures Measured(c, blocks).blocks[i] == BlockSize(c, blocks[i])
    decreases |blocks|
  {
    var init := blocks[..|blocks| - 1];
    if i < |init| {
      MeasuredAt(c, init, i);
    } else {
      MeasuredLengths(c, init);
    }
  }

  lemma {:induction false} MeasuredLengths(c: Primitives, blocks: seq<Block>)
    ensures |Measured(c, blocks).blocks| == |blocks|
    ensures Measured(c, blocks).ops == |OpsOf(blocks)|
    decreases |blocks|
  {
    if blocks != [] {
      MeasuredLengths(c, blocks[..|blocks| - 1]);
    }
  }

  // ------------------------------------------------------------------
  // when a measurement may be reused
  // ------------------------------------------------------------------

  /** Only the genesis is unsigned; every other signature is 128 hex digits. */
  ghost predicate SignaturesSized(blocks: seq<Block>) {
    forall i :: 0 <= i < |blocks| ==> |blocks[i].sig| == if i == 0 then 0 else 128
  }

  lemma LinkedSignaturesSized(c: Primitives, blocks: seq<Block>)
    requires Linked(c, blocks)
    ensures SignaturesSized(blocks)
  {
    forall i | 0 <= i < |blocks| ensures |blocks[i].sig| == if i == 0 then 0 else 128 {
      LinkedAt(c, blocks, i);
    }
  }

  lemma SameBlockSameSize(c: Primitives, x: Block, y: Block)
    requires SameBlock(x, y) && |x.sig| == |y.sig|
    ensures BlockSize(c, x) == BlockSize(c, y) && |x.ops| == |y.ops| && x.hash == y.hash
  {
    assert RecordOf(x) == RecordOf(y);
  }

  lemma {:induction false} SameHistorySameSizes(c: Primitives, a: seq<Block>, b: seq<Block>)
    requires SameHistory(a, b) && SignaturesSized(a) && SignaturesSized(b)
    ensures Measured(c, a) == Measured(c, b)
    decreases |a|
  {
    if a != [] {
      var n := |a| - 1;
      SameHistorySameSizes(c, a[..n], b[..n]);
      SameBlockSameSize(c, a[n], b[n]);
    }
  }

  /** The cache holds the sizes of some hash-linked history; the session keeps no
      copy of it, only its head hash. */
  ghost predicate CacheOk(c: Primitives, sizes: ChainSizes, measured: seq<Block>) {
    && sizes == Measured(c, measured)
    && (measured != [] ==> HashLinked(c, measured) && SignaturesSized(measured))
  }

  /** A cached measurement whose head hash is the chain's is the recount of that
      chain, unless two of the blocks involved collide. */
  lemma {:induction false} SameHeadSameSizes(c: Primitives, sizes: ChainSizes, measured: seq<Block>, blocks: seq<Block>)
    requires DigestLaw(c) && CacheOk(c, sizes, measured) && Linked(c, blocks)
    requires sizes.head == blocks[|blocks| - 1].hash
    ensures sizes == Measured(c, blocks) || Collides(c, measured, blocks)
  {
    LinkedAt(c, blocks, |blocks| - 1);
    assert measured != [];
    LinkedIsHashLinked(c, blocks);
    LinkedSignaturesSized(c, blocks);
    HeadCommitsToHistory(c, measured, blocks);
    if SameHistory(measured, blocks) {
      SameHistorySameSizes(c, measured, blocks);
    }
  }

  /** Blocks that follow the cached head extend the measured history. */
  lemma {:induction false} ExtendMeasured(c: Primitives, measured: seq<Block>, blocks: seq<Block>, k: nat)
    requires HashLinked(c, measured) && SignaturesSized(measured) && Linked(c, blocks)
    requires |measured| <= k <= |blocks|
    requires blocks[|measured| - 1].hash == measured[|measured| - 1].hash
    ensures HashLinked(c, measured + blocks[|measured|..k])
    ensures SignaturesSized(measured + blocks[|measured|..k])
    ensures (measured + blocks[|measured|..k])[k - 1].hash == blocks[k - 1].hash
  {
    var all := measured + blocks[|measured|..k];
    LinkedIsHashLinked(c, blocks);
    LinkedSignaturesSized(c, blocks);
    forall i | 0 <= i < |all| ensures HashLinkedAt(c, all, i) {
      if i < |measured| {
        assert HashLinkedAt(c, measured, i);
      } else {
        assert HashLinkedAt(c, blocks, i) && all[i] == blocks[i];
        assert i > |measured| ==> all[i - 1] == blocks[i - 1];
      }
    }
  }

  predicate Continues(sizes: ChainSizes, blocks: seq<Block>) {
    0 < |sizes.blocks| <= |blocks| && blocks[|sizes.blocks| - 1].hash == sizes.head
  }

  /** `kept` measures the first part of `all`; the rest is the chain's own. */
  ghost predicate Covers(c: Primitives, kept: ChainSizes, all: seq<Block>, blocks: seq<Block>) {
    var n := |kept.blocks|;
    && n <= |blocks| == |all| && blocks != []
    && kept == Measured(c, all[..n])
    && all[n..] == blocks[n..]
    && all[|all| - 1].hash == blocks[|blocks| - 1].hash
  }

  /** The history a refreshed cache will have measured: the cached one continued,
      or the chain from scratch. It ends in the chain's head hash either way. */
  lemma RefreshedHistory(c: Primitives, sizes: ChainSizes, measured: seq<Block>, blocks: seq<Block>)
    returns (all: seq<Block>)
    requires CacheOk(c, sizes, measured) && Linked(c, blocks)
    ensures Covers(c, if Continues(sizes, blocks) then sizes else NO_SIZES, all, blocks)
    ensures CacheOk(c, Measured(c, all), all) && Measured(c, all).head == blocks[|blocks| - 1].hash
  {
    MeasuredLengths(c, measured);
    if Continues(sizes, blocks) {
      all := measured + blocks[|measured|..];
      assert measured[|measured| - 1].hash == sizes.head;
      ExtendMeasured(c, measured, blocks, |blocks|);
      assert blocks[|measured|..|blocks|] == blocks[|measured|..];
      assert all[..|measured|] == measured && all[|measured|..] == blocks[|measured|..];
    } else {
      all := blocks;
      LinkedIsHashLinked(c, blocks);
      LinkedSignaturesSized(c, blocks);
      assert all[..0] == [] && all[0..] == blocks[0..];
    }
  }

  lemma HeadOfMeasured(c: Primitives, blocks: seq<Block>)
    requires blocks != []
    ensures Measured(c, blocks).head == blocks[|blocks| - 1].hash
  {
  }

  lemma MeasuredStep(c: Primitives, blocks: seq<Block>, i: nat)
    requires i < |blocks|
    ensures var before := Measured(c, blocks[..i]);
            Measured(c, blocks[..i + 1]) ==
              ChainSizes(blocks[i].hash, before.blocks + [BlockSize(c, blocks[i])],
                         before.blockBytes + BlockSize(c, blocks[i]), before.ops + |blocks[i].ops|)
  {
    assert blocks[..i + 1][..i] == blocks[..i];
  }
}
