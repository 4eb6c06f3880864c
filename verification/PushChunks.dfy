/** Building one push request: the largest block prefix within the server's
    block, operation and byte limits. */
module PushChunks {
  import opened Common
  import opened GraphModel
  import opened Blocks
  import opened History
  import opened Sizes

  datatype PushLimits = PushLimits(blocks: nat, ops: nat, bodyBytes: nat)

  const PUSH_LIMITS := PushLimits(256, 50_000, 32 * 1024 * 1024)

  datatype PushChunk = PushChunk(endLen: nat, blockCount: nat, opCount: nat, body: string)

  datatype ChunkError =
    | OutsideTarget
    | BadBaseHead
    | BlockHasTooManyOps(index: nat)
    | NoBlockFits
    | BlockIsTooLarge(index: nat)

  function Decimal(n: nat): string {
    if n < 10 then [Hex.Digit(n)] else Decimal(n / 10) + [Hex.Digit(n % 10)]
  }

  /** The request body: base length, base head and the blocks. */
  function Body(c: Primitives, baseLen: nat, baseHead: string, blocks: seq<Block>): string {
    "{\"base_len\":" + Decimal(baseLen) + ",\"base_head\":\"" + baseHead + "\",\"blocks\":["
    + JoinedJson(c, blocks) + "]}"
  }

  ghost predicate NoComma(s: string) {
    ',' !in s
  }

  lemma {:induction false} DecimalHasNoComma(n: nat)
    ensures NoComma(Decimal(n)) && Decimal(n) != []
    decreases n
  {
    if n >= 10 {
      DecimalHasNoComma(n / 10);
    }
  }

  lemma {:induction false} DecimalIsInjective(m: nat, n: nat)
    ensures Decimal(m) == Decimal(n) ==> m == n
    decreases m + n
  {
    if Decimal(m) == Decimal(n) {
      var s := Decimal(m);
      LastDigit(m);
      LastDigit(n);
      if m >= 10 && n >= 10 {
        DecimalIsInjective(m / 10, n / 10);
      } else if m >= 10 {
        DecimalHasNoComma(m / 10);
      } else if n >= 10 {
        DecimalHasNoComma(n / 10);
      }
    }
  }

  lemma LastDigit(n: nat)
    ensures Hex.Nibble(Decimal(n)[|Decimal(n)| - 1]) == Some(n % 10)
    ensures n >= 10 ==> Decimal(n)[..|Decimal(n)| - 1] == Decimal(n / 10)
    ensures |Decimal(n)| == if n < 10 then 1 else |Decimal(n / 10)| + 1
  {
    Hex.NibbleOfDigit(n % 10);
  }

  lemma SplitAtComma(a: string, x: string, b: string, y: string)
    requires NoComma(a) && NoComma(b) && a + "," + x == b + "," + y
    ensures a == b && x == y
  {
    var s := a + "," + x;
    assert s[|a|] == ',' && s[|b|] == ',';
    forall i | 0 <= i < |a| ensures s[i] != ',' {
      assert s[i] == a[i] && a[i] in a;
    }
    forall i | 0 <= i < |b| ensures s[i] != ',' {
      assert s[i] == b[i] && b[i] in b;
    }
    assert s[..|a|] == a && s[..|b|] == b && s[|a| + 1..] == x && s[|b| + 1..] == y;
  }

  lemma SplitHeads(h: string, x: string, k: string, y: string)
    requires |h| == |k| && h + x == k + y
    ensures h == k && x == y
  {
    assert (h + x)[..|h|] == h && (k + y)[..|k|] == k && (h + x)[|h|..] == x && (k + y)[|k|..] == y;
  }

  /** The request names its base: a server reads back the base length, the base head
      and the text of the blocks. */
  lemma BodyTellsItsParts(c: Primitives, m: nat, h: string, a: seq<Block>, n: nat, k: string, b: seq<Block>)
    requires Hex.IsLowerHex(h, 32) && Hex.IsLowerHex(k, 32) && Body(c, m, h, a) == Body(c, n, k, b)
    ensures m == n && h == k && JoinedJson(c, a) == JoinedJson(c, b)
  {
    hide Decimal;
    DecimalHasNoComma(m);
    DecimalHasNoComma(n);
    var x := "\"base_head\":\"" + (h + ("\",\"blocks\":[" + (JoinedJson(c, a) + "]}")));
    var y := "\"base_head\":\"" + (k + ("\",\"blocks\":[" + (JoinedJson(c, b) + "]}")));
    hide Body, JoinedJson;
    BodyIs(c, m, h, a);
    BodyIs(c, n, k, b);
    SplitHeads("{\"base_len\":", Decimal(m) + "," + x, "{\"base_len\":", Decimal(n) + "," + y);
    SplitAtComma(Decimal(m), x, Decimal(n), y);
    DecimalIsInjective(m, n);
    var p, q := "\",\"blocks\":[" + (JoinedJson(c, a) + "]}"), "\",\"blocks\":[" + (JoinedJson(c, b) + "]}");
    SplitHeads("\"base_head\":\"", h + p, "\"base_head\":\"", k + q);
    SplitHeads(h, p, k, q);
    SplitHeads("\",\"blocks\":[", JoinedJson(c, a) + "]}", "\",\"blocks\":[", JoinedJson(c, b) + "]}");
    SplitHeads(JoinedJson(c, a), "]}", JoinedJson(c, b), "]}");
  }

  lemma BodyIs(c: Primitives, n: nat, h: string, blocks: seq<Block>)
    ensures Body(c, n, h, blocks) ==
      "{\"base_len\":" + (Decimal(n) + ","
        + ("\"base_head\":\"" + (h + ("\",\"blocks\":[" + (JoinedJson(c, blocks) + "]}")))))
  {
  }

  function OpCount(blocks: seq<Block>): nat {
    if blocks == [] then 0 else OpCount(blocks[..|blocks| - 1]) + |blocks[|blocks| - 1].ops|
  }

  /** A prefix of `n` blocks meets all three limits. */
  predicate Fits(c: Primitives, available: seq<Block>, baseLen: nat, baseHead: string, limits: PushLimits, n: nat) {
    && 1 <= n <= |available|
    && n <= limits.blocks
    && OpCount(available[..n]) <= limits.ops
    && |Body(c, baseLen, baseHead, available[..n])| < limits.bodyBytes
  }

  /** The server's limits: 256 blocks, 50000 operations and less than 32 MiB of text. */
  lemma LimitsAre(c: Primitives, available: seq<Block>, baseLen: nat, baseHead: string, n: nat)
    ensures Fits(c, available, baseLen, baseHead, PUSH_LIMITS, n) <==>
      && 1 <= n <= |available| && n <= 256 && |OpsOf(available[..n])| <= 50000
      && |Body(c, baseLen, baseHead, available[..n])| < 33554432
  {
    hide Body, OpsOf;
    if n <= |available| {
      OpCountIsOps(available[..n]);
    }
  }

  lemma {:induction false} OpCountIsOps(blocks: seq<Block>)
    ensures OpCount(blocks) == |OpsOf(blocks)|
    decreases |blocks|
  {
    if blocks != [] {
      OpCountIsOps(blocks[..|blocks| - 1]);
    }
  }

  lemma {:induction false} OpCountGrows(blocks: seq<Block>, i: nat, j: nat)
    requires i <= j <= |blocks|
    ensures OpCount(blocks[..i]) <= OpCount(blocks[..j])
    decreases j
  {
    if i < j {
      assert blocks[..j][..j - 1] == blocks[..j - 1];
      OpCountGrows(blocks, i, j - 1);
    }
  }

  /** The serialized request grows with the prefix, which is what the binary
      search relies on. */
  lemma {:induction false} BodyGrows(c: Primitives, baseLen: nat, baseHead: string, blocks: seq<Block>, i: nat, j: nat)
    requires i <= j <= |blocks|
    ensures |Body(c, baseLen, baseHead, blocks[..i])| <= |Body(c, baseLen, baseHead, blocks[..j])|
    decreases j
  {
    if i < j {
      BodyGrows(c, baseLen, baseHead, blocks, i, j - 1);
      assert blocks[..j][..j - 1] == blocks[..j - 1];
      if j == 1 {
        assert blocks[..0] == [];
      }
    }
  }

  /** A shorter prefix of one that fits fits too. */
  lemma FittingIsDownwardClosed(
    c: Primitives, available: seq<Block>, baseLen: nat, baseHead: string, limits: PushLimits, m: nat, n: nat)
    requires Fits(c, available, baseLen, baseHead, limits, n) && 1 <= m <= n
    ensures Fits(c, available, baseLen, baseHead, limits, m)
  {
    OpCountGrows(available, m, n);
    BodyGrows(c, baseLen, baseHead, available, m, n);
  }

  /** The longest prefix within the block and operation limits. */
  method CountCandidates(available: seq<Block>, limits: PushLimits) returns (r: Result<nat, ChunkError>)
    requires available != []
    ensures r.Ok? <==> limits.blocks > 0 && |available[0].ops| <= limits.ops
    ensures r.Err? ==> r.error == if limits.blocks == 0 then NoBlockFits else BlockHasTooManyOps(available[0].index)
    ensures r.Ok? ==>
      && 1 <= r.value <= |available| && r.value <= limits.blocks
      && OpCount(available[..r.value]) <= limits.ops
      && forall n :: r.value < n <= |available| && n <= limits.blocks ==> OpCount(available[..n]) > limits.ops
  {
    var candidateCount, opCount := 0, 0;
    var most := if limits.blocks < |available| then limits.blocks else |available|;
    while candidateCount < most
      invariant candidateCount <= most && opCount == OpCount(available[..candidateCount])
      invariant opCount <= limits.ops
      invariant candidateCount > 0 ==> |available[0].ops| <= limits.ops
    {
      var block := available[candidateCount];
      if |block.ops| > limits.ops && candidateCount == 0 {
        return Err(BlockHasTooManyOps(block.index));
      }
      assert available[..candidateCount + 1][..candidateCount] == available[..candidateCount];
      var nextOps := opCount + |block.ops|;
      if nextOps > limits.ops {
        forall n | candidateCount < n <= |available| ensures OpCount(available[..n]) > limits.ops {
          OpCountGrows(available, candidateCount + 1, n);
        }
        break;
      }
      candidateCount := candidateCount + 1;
      opCount := nextOps;
      assert candidateCount == 1 ==> opCount == |available[0].ops|;
    }
    if candidateCount == 0 {
      return Err(NoBlockFits);
    }
    return Ok(candidateCount);
  }

  /** The largest prefix that meets the three limits together; it fails only on
      an illegal range or when the first block alone does not fit. */
  method BuildPushChunk(
    c: Primitives, local: seq<Block>, baseLen: nat, baseHead: string, targetLen: nat, limits: PushLimits
  ) returns (r: Result<PushChunk, ChunkError>)
    ensures !(baseLen < targetLen <= |local|) ==> r == Err(OutsideTarget)
    ensures baseLen < targetLen <= |local| && !Hex.IsLowerHex(baseHead, 32) ==> r == Err(BadBaseHead)
    ensures baseLen < targetLen <= |local| && Hex.IsLowerHex(baseHead, 32) ==>
      var available := local[baseLen..targetLen];
      && (r.Ok? <==> Fits(c, available, baseLen, baseHead, limits, 1))
      && (r.Err? ==> r.error == if limits.blocks == 0 then NoBlockFits
                                else if |available[0].ops| > limits.ops then BlockHasTooManyOps(available[0].index)
                                else BlockIsTooLarge(available[0].index))
      && (r.Ok? ==>
            && Fits(c, available, baseLen, baseHead, limits, r.value.blockCount)
            && (forall n: nat :: Fits(c, available, baseLen, baseHead, limits, n) ==> n <= r.value.blockCount)
            && r.value == PushChunk(baseLen + r.value.blockCount, r.value.blockCount,
                                    OpCount(available[..r.value.blockCount]),
                                    Body(c, baseLen, baseHead, available[..r.value.blockCount])))
  {
    if baseLen >= targetLen || targetLen > |local| {
      return Err(OutsideTarget);
    }
    if !Hex.IsLowerHex(baseHead, 32) {
      return Err(BadBaseHead);
    }
    var available := local[baseLen..targetLen];
    assert available[..1][..0] == [] && OpCount([]) == 0;
    var counted := CountCandidates(available, limits);
    if counted.Err? {
      return Err(counted.error);
    }
    var candidateCount := counted.value;
    var first := Body(c, baseLen, baseHead, available[..1]);
    if |first| >= limits.bodyBytes {
      return Err(BlockIsTooLarge(available[0].index));
    }
    var best := SearchBody(c, available, baseLen, baseHead, limits.bodyBytes, candidateCount);
    OpCountGrows(available, best, candidateCount);
    return Ok(PushChunk(baseLen + best, best, OpCount(available[..best]),
                        Body(c, baseLen, baseHead, available[..best])));
  }

  /** Binary search for the longest prefix whose body is below the byte limit. */
  method SearchBody(
    c: Primitives, available: seq<Block>, baseLen: nat, baseHead: string, bodyBytes: nat, candidateCount: nat
  ) returns (best: nat)
    requires 1 <= candidateCount <= |available|
    requires |Body(c, baseLen, baseHead, available[..1])| < bodyBytes
    ensures 1 <= best <= candidateCount
    ensures |Body(c, baseLen, baseHead, available[..best])| < bodyBytes
    ensures forall n :: best < n <= candidateCount ==> |Body(c, baseLen, baseHead, available[..n])| >= bodyBytes
  {
    var low, high: nat := 1, candidateCount;
    best := 1;
    while low <= high
      invariant 1 <= low && high <= candidateCount
      invariant best == (if low == 1 then 1 else low - 1) && best <= candidateCount
      invariant |Body(c, baseLen, baseHead, available[..best])| < bodyBytes
      invariant forall n :: high < n <= candidateCount ==> |Body(c, baseLen, baseHead, available[..n])| >= bodyBytes
      decreases high + 1 - low
    {
      var middle := low + (high - low) / 2;
      if |Body(c, baseLen, baseHead, available[..middle])| < bodyBytes {
        best := middle;
        low := middle + 1;
      } else {
        forall n | middle <= n <= candidateCount
          ensures |Body(c, baseLen, baseHead, available[..n])| >= bodyBytes
        {
          BodyGrows(c, baseLen, baseHead, available, middle, n);
        }
        high := middle - 1;
      }
    }
  }
}
