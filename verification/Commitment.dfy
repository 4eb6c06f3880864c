/** A head hash commits to the whole ordered history, and peers that exchange
    whole histories converge or learn where they part. No digest is assumed free
    of collisions: the results hold unless the blocks at hand exhibit one. */
module Commitment {
  import opened Common
  import opened Hex
  import opened GraphModel
  import opened Blocks
  import opened History

  /** Two blocks whose covered fields differ while their digests agree. */
  predicate Collision(c: Primitives, x: Block, y: Block) {
    && RecordOf(x) != RecordOf(y)
    && c.sha256(SignableJson(c, x)) == c.sha256(SignableJson(c, y))
  }

  /** Where the serializer tells two records apart, colliding means that two
      different texts have one digest. */
  lemma CollisionIsDigestCollision(c: Primitives, x: Block, y: Block)
    requires c.fields(RecordOf(x)) == c.fields(RecordOf(y)) ==> RecordOf(x) == RecordOf(y)
    ensures Collision(c, x, y) <==>
      && SignableJson(c, x) != SignableJson(c, y)
      && c.sha256(SignableJson(c, x)) == c.sha256(SignableJson(c, y))
  {
    var s, t := SignableJson(c, x), SignableJson(c, y);
    assert c.fields(RecordOf(x)) == s[1..|s| - 1] && c.fields(RecordOf(y)) == t[1..|t| - 1];
  }

  ghost predicate Collides(c: Primitives, a: seq<Block>, b: seq<Block>) {
    exists x, y :: x in a && y in b && Collision(c, x, y)
  }

  ghost predicate HashLinkedAt(c: Primitives, blocks: seq<Block>, i: nat)
    requires i < |blocks|
  {
    && blocks[i].index == i
    && blocks[i].hash == ComputeHash(c, blocks[i])
    && FiniteOps(blocks[i].ops)
    && (i > 0 ==> blocks[i].prevHash == blocks[i - 1].hash)
  }

  /** The part of validity a hash can vouch for. */
  ghost predicate HashLinked(c: Primitives, blocks: seq<Block>) {
    blocks != [] && forall i :: 0 <= i < |blocks| ==> HashLinkedAt(c, blocks, i)
  }

  lemma HashLinkedPrefix(c: Primitives, blocks: seq<Block>, k: nat)
    requires HashLinked(c, blocks) && 0 < k <= |blocks|
    ensures HashLinked(c, blocks[..k])
  {
    forall i | 0 <= i < k ensures HashLinkedAt(c, blocks[..k], i) {
      assert HashLinkedAt(c, blocks, i);
    }
  }

  lemma CollidesInLarger(c: Primitives, a: seq<Block>, b: seq<Block>, a': seq<Block>, b': seq<Block>)
    requires Collides(c, a, b)
    requires a <= a' && b <= b'
    ensures Collides(c, a', b')
  {
    var x, y :| x in a && y in b && Collision(c, x, y);
    assert x in a' && y in b';
  }

  /** Equal in every field except the text of the signatures. */
  predicate SameBlock(x: Block, y: Block) {
    x == y.(sig := x.sig)
  }

  ghost predicate SameHistory(a: seq<Block>, b: seq<Block>) {
    |a| == |b| && forall i :: 0 <= i < |a| ==> SameBlock(a[i], b[i])
  }

  lemma LinkedIsHashLinked(c: Primitives, blocks: seq<Block>)
    requires Linked(c, blocks)
    ensures HashLinked(c, blocks)
  {
    forall i | 0 <= i < |blocks| ensures HashLinkedAt(c, blocks, i) {
      LinkedAt(c, blocks, i);
    }
  }

  lemma SameHashSameBlock(c: Primitives, x: Block, y: Block)
    requires !Collision(c, x, y)
    requires x.hash == ComputeHash(c, x) && y.hash == ComputeHash(c, y) && x.hash == y.hash
    requires FiniteOps(x.ops) && FiniteOps(y.ops)
    ensures SameBlock(x, y)
  {
    EncodeInjective(c.sha256(SignableJson(c, x)), c.sha256(SignableJson(c, y)));
    FiniteOpsPrintFaithfully(x);
    FiniteOpsPrintFaithfully(y);
  }

  /** Equal head hashes mean equal histories, block by block and operation by
      operation, or a collision among the very blocks compared. */
  lemma {:induction false} HeadCommitsToHistory(c: Primitives, a: seq<Block>, b: seq<Block>)
    requires HashLinked(c, a) && HashLinked(c, b)
    requires a[|a| - 1].hash == b[|b| - 1].hash
    ensures SameHistory(a, b) || Collides(c, a, b)
    decreases |a|
  {
    var n, m := |a| - 1, |b| - 1;
    assert HashLinkedAt(c, a, n) && HashLinkedAt(c, b, m);
    assert a[n] in a && b[m] in b;
    if !Collision(c, a[n], b[m]) {
      SameHashSameBlock(c, a[n], b[m]);
      if n > 0 {
        HashLinkedPrefix(c, a, n);
        HashLinkedPrefix(c, b, n);
        HeadCommitsToHistory(c, a[..n], b[..n]);
        if Collides(c, a[..n], b[..n]) {
          CollidesInLarger(c, a[..n], b[..n], a, b);
        } else {
          SameHistorySnoc(a[..n], b[..n], a[n], b[n]);
          LastOf(a);
          LastOf(b);
        }
      }
    }
  }

  lemma SameHistorySnoc(a: seq<Block>, b: seq<Block>, x: Block, y: Block)
    requires SameHistory(a, b) && SameBlock(x, y)
    ensures SameHistory(a + [x], b + [y])
  {
  }

  lemma {:induction false} SameHistorySameGraph(a: seq<Block>, b: seq<Block>)
    requires SameHistory(a, b)
    ensures ReplayBlocks(a) == ReplayBlocks(b)
    decreases |a|
  {
    if a != [] {
      SameHistorySameGraph(a[..|a| - 1], b[..|b| - 1]);
    }
  }

  /** Two valid chains with one head rebuild one graph. */
  lemma {:induction false} HeadCommitsToGraph(c: Primitives, a: seq<Block>, b: seq<Block>)
    requires Valid(c, a) && Valid(c, b) && !Collides(c, a, b)
    requires a[|a| - 1].hash == b[|b| - 1].hash
    ensures SameHistory(a, b) && Validate(c, a) == Validate(c, b)
  {
    LinkedIsHashLinked(c, a);
    LinkedIsHashLinked(c, b);
    HeadCommitsToHistory(c, a, b);
    SameHistorySameGraph(a, b);
  }

  // ------------------------------------------------------------------
  // exchanging whole histories
  // ------------------------------------------------------------------

  ghost predicate HashPrefix(a: seq<Block>, b: seq<Block>) {
    |a| <= |b| && forall i :: 0 <= i < |a| ==> a[i].hash == b[i].hash
  }

  ghost predicate FirstDifference(a: seq<Block>, b: seq<Block>, k: nat) {
    && k < |a| && k < |b| && a[k].hash != b[k].hash
    && forall i :: 0 <= i < k ==> a[i].hash == b[i].hash
  }

  function Beyond(known: nat, blocks: seq<Block>): seq<Block> {
    if known <= |blocks| then blocks[known..] else []
  }

  ghost predicate Indexed(blocks: seq<Block>) {
    forall i :: 0 <= i < |blocks| ==> blocks[i].index == i
  }

  lemma LinkedIsIndexed(c: Primitives, blocks: seq<Block>)
    requires Linked(c, blocks)
    ensures Indexed(blocks)
  {
    forall i | 0 <= i < |blocks| ensures blocks[i].index == i {
      LinkedAt(c, blocks, i);
    }
  }

  lemma BeyondSnoc(known: nat, init: seq<Block>, last: Block)
    ensures Beyond(known, init + [last]) == Beyond(known, init) + (if |init| >= known then [last] else [])
  {
  }

  lemma FirstCopiesOfNew(known: nat, init: seq<Block>, last: Block)
    requires Indexed(init) && last.index == |init|
    ensures FirstCopies(known, init + [last]) == FirstCopies(known, init) + (if |init| >= known then [last] else [])
  {
    assert (init + [last])[..|init|] == init;
    forall x | x in init ensures x.index != last.index {
      var i :| 0 <= i < |init| && init[i] == x;
    }
  }

  lemma {:induction false} FirstCopiesOfHistory(known: nat, b: seq<Block>)
    requires Indexed(b)
    ensures FirstCopies(known, b) == Beyond(known, b)
    decreases |b|
  {
    if b != [] {
      hide FirstCopies, Beyond;
      var init, last := b[..|b| - 1], b[|b| - 1];
      LastOf(b);
      FirstCopiesOfHistory(known, init);
      FirstCopiesOfNew(known, init, last);
      BeyondSnoc(known, init, last);
    }
  }

  lemma RepeatsOfHistory(all: seq<Block>, b: seq<Block>)
    requires Indexed(b) && |b| <= |all|
    ensures RepeatsAgree(all, b) <==> HashPrefix(b, all)
  {
    if RepeatsAgree(all, b) {
      forall i | 0 <= i < |b| ensures all[i].hash == b[i].hash {
        assert Agrees(all, b[i]);
      }
    }
  }

  lemma PrefixHeads(a: seq<Block>, b: seq<Block>)
    requires HashPrefix(a, b) && a != []
    ensures |a| <= |b| && a[|a| - 1].hash == b[..|a|][|a| - 1].hash && b[..|a|] <= b
  {
  }

  lemma {:induction false} HashPrefixIsShared(c: Primitives, a: seq<Block>, b: seq<Block>)
    requires Linked(c, a) && Linked(c, b) && !Collides(c, a, b)
    requires HashPrefix(a, b)
    ensures SameHistory(a, b[..|a|])
  {
    var shared := b[..|a|];
    LinkedIsSome(c, a);
    hide Linked, HashLinked, Collides, SameHistory, HashPrefix;
    PrefixHeads(a, b);
    LinkedPrefix(c, b, |a|);
    LinkedIsHashLinked(c, a);
    LinkedIsHashLinked(c, shared);
    HeadCommitsToHistory(c, a, shared);
    if Collides(c, a, shared) {
      CollidesInLarger(c, a, shared, a, b);
    }
  }

  lemma {:induction false} SwapPredecessors(c: Primitives, a: seq<Block>, p: seq<Block>, b: Block)
    requires Valid(c, a) && Valid(c, p + [b]) && SameHistory(a, p)
    ensures Valid(c, a + [b]) && SameHistory(a + [b], p + [b])
  {
    hide ApplyAll;
    var n := |p|;
    PrefixIsValid(c, p + [b], n);
    assert (p + [b])[..n] == p;
    assert SameBlock(a[0], p[0]) && SameBlock(a[n - 1], p[n - 1]);
    GenesisIsCanonical(c, a[0], p[0]);
    LinkedSnoc(c, p, b);
    LinkedSnoc(c, a, b);
    SamePredecessor(c, b, a[n - 1], p[n - 1], n, Strict(c, a));
    hide ValidateGenesis, VerifyLinked, LinkError;
    SameHistorySnoc(a, p, b, b);
    SameHistorySameGraph(a + [b], p + [b]);
  }

  lemma SamePredecessor(c: Primitives, b: Block, x: Block, y: Block, at: nat, strictHex: bool)
    requires SameBlock(x, y)
    ensures VerifyLinked(c, b, x, at, strictHex) == VerifyLinked(c, b, y, at, strictHex)
  {
  }

  /** Swapping a shared prefix for the other peer's copy of it keeps the longer
      chain valid: only signature texts may differ. */
  lemma {:induction false} SwapPrefixKeepsValid(c: Primitives, a: seq<Block>, p: seq<Block>, tail: seq<Block>)
    requires Valid(c, a) && Valid(c, p + tail) && SameHistory(a, p)
    ensures Valid(c, a + tail) && SameHistory(a + tail, p + tail)
    decreases |tail|
  {
    hide Valid, SameHistory;
    if tail == [] {
      assert a + tail == a && p + tail == p;
    } else {
      var init, last := tail[..|tail| - 1], tail[|tail| - 1];
      LastOf(tail);
      WithoutLast(c, a, p, init, last);
      SwapPrefixKeepsValid(c, a, p, init);
      assert a + tail == a + init + [last] && p + tail == p + init + [last];
      SwapPredecessors(c, a + init, p + init, last);
    }
  }

  lemma {:induction false} WithoutLast(c: Primitives, a: seq<Block>, p: seq<Block>, init: seq<Block>, last: Block)
    requires Valid(c, a) && Valid(c, p + (init + [last])) && SameHistory(a, p)
    ensures Valid(c, p + init)
  {
    hide LinkError, ReplayBlocks;
    var all := p + (init + [last]);
    PrefixIsValid(c, all, |all| - 1);
    assert all[..|all| - 1] == p + init;
  }

  /** What a peer holds after being offered another peer's whole chain. */
  function Exchanged(a: seq<Block>, b: seq<Block>): seq<Block> {
    a + Beyond(|a|, b)
  }

  lemma HashPrefixByLength(a: seq<Block>, b: seq<Block>)
    requires HashPrefix(a, b) || HashPrefix(b, a)
    ensures |a| <= |b| ==> HashPrefix(a, b)
  {
  }

  lemma {:induction false} ExchangedHistory(c: Primitives, a: seq<Block>, b: seq<Block>)
    requires Valid(c, a) && Valid(c, b) && !Collides(c, a, b)
    requires HashPrefix(a, b) || HashPrefix(b, a)
    ensures Valid(c, Exchanged(a, b)) && HashPrefix(b, Exchanged(a, b))
    ensures SameHistory(Exchanged(a, b), if |a| <= |b| then b else a)
  {
    assert a != [];
    hide Valid, HashLinked, Linked, Collides, SameHistory, HashPrefix;
    if |a| <= |b| {
      HashPrefixByLength(a, b);
      HashPrefixIsShared(c, a, b);
      assert b == b[..|a|] + b[|a|..];
      SwapPrefixKeepsValid(c, a, b[..|a|], b[|a|..]);
      SameHistorySameHashes(Exchanged(a, b), b);
    } else {
      assert Exchanged(a, b) == a;
    }
  }

  lemma SameHistorySameHashes(a: seq<Block>, b: seq<Block>)
    requires SameHistory(a, b)
    ensures HashPrefix(a, b) && HashPrefix(b, a)
  {
    assert forall i :: 0 <= i < |a| ==> SameBlock(a[i], b[i]);
  }

  lemma PrefixOfExchanged(a: seq<Block>, b: seq<Block>)
    requires HashPrefix(b, Exchanged(a, b))
    ensures HashPrefix(a, b) || HashPrefix(b, a)
  {
    forall i | 0 <= i < |a| && i < |b| ensures a[i].hash == b[i].hash {
      assert Exchanged(a, b)[i] == a[i];
    }
  }

  /** Offering a peer's whole chain succeeds exactly when one hash sequence is a
      prefix of the other; the result is the longer of the two. */
  lemma {:induction false} ExchangeIsExact(c: Primitives, a: seq<Block>, b: seq<Block>)
    requires Valid(c, a) && Valid(c, b) && !Collides(c, a, b)
    ensures var r := ExtendOutcome(c, a, b);
            && (r.Ok? <==> HashPrefix(a, b) || HashPrefix(b, a))
            && (r.Ok? ==> r.value.0 == Exchanged(a, b) && ReplayBlocks(r.value.0) == Ok(r.value.1))
            && (r.Ok? ==> SameHistory(r.value.0, if |a| <= |b| then b else a))
  {
    LinkedIsIndexed(c, b);
    FirstCopiesOfHistory(|a|, b);
    ExtensionRefinesValidation(c, a, b);
    RepeatsOfHistory(Exchanged(a, b), b);
    if HashPrefix(a, b) || HashPrefix(b, a) {
      ExchangedHistory(c, a, b);
    } else if HashPrefix(b, Exchanged(a, b)) {
      PrefixOfExchanged(a, b);
      assert false;
    }
  }

  lemma {:induction false} FirstDifferenceBelow(a: seq<Block>, b: seq<Block>, n: nat)
    requires n <= |a| && n <= |b|
    ensures HashPrefix(a[..n], b[..n]) || exists k: nat :: k < n && FirstDifference(a, b, k)
  {
    if n > 0 {
      FirstDifferenceBelow(a, b, n - 1);
      if HashPrefix(a[..n - 1], b[..n - 1]) && a[n - 1].hash != b[n - 1].hash {
        forall i | 0 <= i < n - 1 ensures a[i].hash == b[i].hash {
          assert a[..n - 1][i].hash == b[..n - 1][i].hash;
        }
        assert FirstDifference(a, b, n - 1);
      } else if HashPrefix(a[..n - 1], b[..n - 1]) {
        forall i | 0 <= i < n ensures a[..n][i].hash == b[..n][i].hash {
          assert i < n - 1 ==> a[..n - 1][i].hash == b[..n - 1][i].hash;
        }
      }
    }
  }

  /** Histories differ somewhere first exactly when neither is a prefix of the other. */
  lemma UnrelatedHistoriesDiffer(a: seq<Block>, b: seq<Block>)
    ensures (exists k: nat :: FirstDifference(a, b, k)) <==> !HashPrefix(a, b) && !HashPrefix(b, a)
  {
    var n := if |a| <= |b| then |a| else |b|;
    FirstDifferenceBelow(a, b, n);
    if HashPrefix(a[..n], b[..n]) {
      forall i | 0 <= i < n ensures a[i].hash == b[i].hash {
        assert a[..n][i].hash == b[..n][i].hash;
      }
    }
  }

  /** A refused exchange reports the first index at which the histories differ. */
  lemma {:induction false} DivergenceIsLocated(c: Primitives, a: seq<Block>, b: seq<Block>, k: nat)
    requires Valid(c, a) && Valid(c, b) && FirstDifference(a, b, k)
    ensures ExtendOutcome(c, a, b) == Err(Diverged(k))
  {
    var strict := Strict(c, a);
    SharedOffersAddNothing(c, a, b, k);
    LinkedAt(c, b, k);
    assert a + [] == a;
    OfferMeans(c, a, [], b[k]);
    CryptoTailStep(c, a, b, strict, k);
    hide Validate, ValidateGenesis, LinkError, ReplayBlocks, Offer, CryptoTail, Strict, Linked;
  }

  lemma {:induction false} SharedOffersAddNothing(c: Primitives, a: seq<Block>, b: seq<Block>, k: nat)
    requires Valid(c, a) && Valid(c, b) && k <= |a| && k <= |b|
    requires forall i :: 0 <= i < k ==> a[i].hash == b[i].hash
    ensures CryptoTail(c, a, b[..k], Strict(c, a)) == Ok([])
    decreases k
  {
    if k > 0 {
      SharedOffersAddNothing(c, a, b, k - 1);
      assert b[..k][..k - 1] == b[..k - 1];
      LinkedAt(c, b, k - 1);
      assert a + [] == a;
      OfferMeans(c, a, [], b[k - 1]);
    }
  }

  /** Offering what is already held changes nothing. */
  lemma {:induction false} ExchangeIsIdempotent(c: Primitives, a: seq<Block>, b: seq<Block>)
    requires Valid(c, a) && Valid(c, b) && HashPrefix(b, a)
    ensures ExtendOutcome(c, a, b) == Ok((a, ReplayBlocks(a).value))
  {
    SharedOffersAddNothing(c, a, b, |b|);
    assert b[..|b|] == b && a + [] == a;
  }

  lemma SameHistoryJoins(x: seq<Block>, y: seq<Block>, z: seq<Block>)
    requires SameHistory(x, z) && SameHistory(y, z)
    ensures SameHistory(x, y)
  {
    assert forall i :: 0 <= i < |x| ==> SameBlock(x[i], z[i]) && SameBlock(y[i], z[i]);
  }

  lemma {:induction false} ExchangedHistoriesAgree(c: Primitives, a: seq<Block>, b: seq<Block>)
    requires Valid(c, a) && Valid(c, b) && !Collides(c, a, b) && !Collides(c, b, a)
    requires HashPrefix(a, b) || HashPrefix(b, a)
    ensures SameHistory(Exchanged(a, b), Exchanged(b, a))
  {
    ExchangedHistory(c, a, b);
    ExchangedHistory(c, b, a);
    if |a| == |b| {
      assert Exchanged(a, b) == a && Exchanged(b, a) == b;
    } else {
      SameHistoryJoins(Exchanged(a, b), Exchanged(b, a), if |a| < |b| then b else a);
    }
  }

  /** Two peers whose hash sequences are prefix related end, after exchanging
      their chains, with the same history and the same graph. */
  lemma {:induction false} ExchangeConverges(c: Primitives, a: seq<Block>, b: seq<Block>)
    requires Valid(c, a) && Valid(c, b) && !Collides(c, a, b) && !Collides(c, b, a)
    requires HashPrefix(a, b) || HashPrefix(b, a)
    ensures var ra, rb := ExtendOutcome(c, a, b), ExtendOutcome(c, b, a);
            && ra.Ok? && rb.Ok?
            && SameHistory(ra.value.0, rb.value.0)
            && ra.value.1 == rb.value.1
  {
    ExchangeIsExact(c, a, b);
    ExchangeIsExact(c, b, a);
    ExchangedHistoriesAgree(c, a, b);
    SameHistorySameGraph(Exchanged(a, b), Exchanged(b, a));
  }

  /** A second exchange finds nothing to append on either side, whether the peer
      offers its old chain again or its new one. */
  lemma {:induction false} ExchangeSettles(c: Primitives, a: seq<Block>, b: seq<Block>)
    requires Valid(c, a) && Valid(c, b) && !Collides(c, a, b) && !Collides(c, b, a)
    requires HashPrefix(a, b) || HashPrefix(b, a)
    ensures var x, y := Exchanged(a, b), Exchanged(b, a);
            && ExtendOutcome(c, x, b) == ExtendOutcome(c, x, y) == ExtendOutcome(c, a, b)
            && ExtendOutcome(c, y, a) == ExtendOutcome(c, y, x) == ExtendOutcome(c, b, a)
  {
    var x, y := Exchanged(a, b), Exchanged(b, a);
    ExchangeIsExact(c, a, b);
    ExchangeIsExact(c, b, a);
    ExchangedHistory(c, a, b);
    ExchangedHistory(c, b, a);
    ExchangedHistoriesAgree(c, a, b);
    SameHistorySameHashes(x, y);
    ExchangeIsIdempotent(c, x, y);
    ExchangeIsIdempotent(c, x, b);
    ExchangeIsIdempotent(c, y, x);
    ExchangeIsIdempotent(c, y, a);
  }
}
