/** What a head hash leaves open: the texts of the signatures, and nothing else. */
module Signatures {
  import opened Common
  import opened Hex
  import opened GraphModel
  import opened Blocks
  import opened History
  import opened Commitment

  /** Block `i` would still verify with `sig` for its signature. */
  predicate Accepts(c: Primitives, blocks: seq<Block>, i: nat, sig: string)
    requires i < |blocks|
  {
    VerifySig(c, blocks[i].(sig := sig), i, Strict(c, blocks)).None?
  }

  /** The signature scheme accepts the bytes `s` for block `i`. */
  predicate Signs(c: Primitives, blocks: seq<Block>, i: nat, s: seq<Byte>)
    requires i < |blocks|
  {
    match (Decode(blocks[i].authorPk), Decode(blocks[i].hash))
    case (Some(key), Some(digest)) => c.verifies(key, digest, s)
    case _ => false
  }

  lemma SignatureFollowsLinks(c: Primitives, b: Block, prev: Block, b': Block, prev': Block, at: nat, strictHex: bool)
    requires VerifyLinked(c, b, prev, at, strictHex).None? && SameBlock(b, b') && SameBlock(prev, prev')
    ensures VerifyLinked(c, b', prev', at, strictHex).None? <==> VerifySig(c, b', at, strictHex).None?
  {
    assert RecordOf(b) == RecordOf(b');
    hide VerifySig, IsLowerHex, Decode;
  }

  /** Every signature of `b` would verify in its place in `a`. */
  ghost predicate AllAccepted(c: Primitives, a: seq<Block>, b: seq<Block>) {
    |a| == |b| && forall i :: 0 < i < |a| ==> Accepts(c, a, i, b[i].sig)
  }

  lemma AllAcceptedSnoc(c: Primitives, p: seq<Block>, x: Block, q: seq<Block>, y: Block)
    requires |p| == |q| > 0 && SameBlock(x, y)
    ensures AllAccepted(c, p + [x], q + [y]) <==>
      AllAccepted(c, p, q) && VerifySig(c, y, |p|, Strict(c, p)).None?
  {
    hide VerifySig, ValidateGenesis;
    assert x.(sig := y.sig) == y && Strict(c, p + [x]) == Strict(c, p);
    assert forall i :: 0 < i < |p| ==> (p + [x])[i] == p[i] && (q + [y])[i] == q[i];
    assert Accepts(c, p + [x], |p|, (q + [y])[|p|].sig) == VerifySig(c, y, |p|, Strict(c, p)).None?;
  }

  lemma SharersSnoc(c: Primitives, p: seq<Block>, x: Block, q: seq<Block>, y: Block)
    requires Linked(c, p + [x]) && Linked(c, p) && |p| == |q| && SameBlock(x, y) && SameHistory(p, q)
    requires Linked(c, q) && Strict(c, p) == Strict(c, q)
    ensures Linked(c, q + [y]) <==> VerifySig(c, y, |p|, Strict(c, p)).None?
  {
    hide Linked, Strict, VerifySig, VerifyLinked;
    LinkedIsSome(c, p);
    LinkedSnoc(c, p, x);
    LinkedSnoc(c, q, y);
    SignatureFollowsLinks(c, x, p[|p| - 1], y, q[|q| - 1], |p|, Strict(c, p));
  }

  lemma SingleSharer(c: Primitives, a: seq<Block>, b: seq<Block>)
    requires Linked(c, a) && |a| == |b| == 1 && a[0] == b[0]
    ensures Linked(c, b) && AllAccepted(c, a, b)
  {
    assert a == b;
  }

  /** A history that shares every covered field with a linked one is linked exactly
      when its own signatures verify. */
  lemma {:induction false} SharersAreLinked(c: Primitives, a: seq<Block>, b: seq<Block>)
    requires Linked(c, a) && SameHistory(a, b) && a[0] == b[0]
    ensures Linked(c, b) <==> AllAccepted(c, a, b)
    decreases |a|
  {
    var n := |a| - 1;
    if n == 0 {
      SingleSharer(c, a, b);
    } else {
      var p, q := a[..n], b[..n];
      assert Strict(c, p) == Strict(c, q) && SameHistory(p, q) && SameBlock(a[n], b[n]);
      hide Linked, Strict, SameHistory, SameBlock, AllAccepted;
      LastOf(a);
      LastOf(b);
      LinkedPrefix(c, a, n);
      SharersAreLinked(c, p, q);
      AllAcceptedSnoc(c, p, a[n], q, b[n]);
      if Linked(c, q) {
        SharersSnoc(c, p, a[n], q, b[n]);
      } else if Linked(c, b) {
        LinkedPrefix(c, b, n);
      }
    }
  }

  lemma SharedGenesis(c: Primitives, g: Block, h: Block)
    requires ValidateGenesis(c, g).Ok? && ValidateGenesis(c, h).Ok? && SameBlock(g, h)
    ensures g == h
  {
    GenesisOfLinked(c, g);
    GenesisOfLinked(c, h);
  }

  /** Which histories share all covered fields of a valid one and are valid too:
      those with the same genesis whose signatures verify. */
  lemma HeadSharersAreExact(c: Primitives, a: seq<Block>, b: seq<Block>)
    requires Valid(c, a) && SameHistory(a, b)
    ensures Valid(c, b) <==> a[0] == b[0] && AllAccepted(c, a, b)
  {
    ValidIsLinkedAndReplayable(c, a);
    ValidIsLinkedAndReplayable(c, b);
    SameHistorySameGraph(a, b);
    assert SameBlock(a[0], b[0]);
    hide Valid, ReplayBlocks, ValidateGenesis, LinkError, Accepts;
    if Linked(c, b) {
      SharedGenesis(c, a[0], b[0]);
    }
    if a[0] == b[0] {
      SharersAreLinked(c, a, b);
    }
  }

  ghost predicate HeadFixes(c: Primitives, a: seq<Block>) {
    forall b :: Valid(c, b) && SameHistory(a, b) ==> b == a
  }

  lemma ReplacedSignature(a: seq<Block>, i: nat, sig: string)
    requires 0 < i < |a|
    ensures SameHistory(a, a[i := a[i].(sig := sig)])
  {
  }

  ghost predicate AcceptsOnlyItsOwn(c: Primitives, a: seq<Block>) {
    forall i, sig :: 0 < i < |a| && Accepts(c, a, i, sig) ==> sig == a[i].sig
  }

  lemma FixedAcceptsOnlyItsOwn(c: Primitives, a: seq<Block>, i: nat, sig: string)
    requires Valid(c, a) && HeadFixes(c, a) && 0 < i < |a| && Accepts(c, a, i, sig)
    ensures sig == a[i].sig
  {
    hide Valid, Accepts;
    var b := a[i := a[i].(sig := sig)];
    HeadSharersAreExact(c, a, a);
    ReplacedSignature(a, i, sig);
    HeadSharersAreExact(c, a, b);
    assert b[i].sig == sig;
  }

  lemma AcceptsOnlyItsOwnIsFixed(c: Primitives, a: seq<Block>, b: seq<Block>)
    requires Valid(c, a) && AcceptsOnlyItsOwn(c, a) && Valid(c, b) && SameHistory(a, b)
    ensures b == a
  {
    hide Valid, Accepts;
    HeadSharersAreExact(c, a, b);
    forall i | 0 <= i < |a| ensures a[i] == b[i] {
      assert SameBlock(a[i], b[i]);
    }
  }

  /** The head of a valid history fixes its every field exactly when each block
      accepts no signature text but its own. */
  lemma HeadFixesExactly(c: Primitives, a: seq<Block>)
    requires Valid(c, a)
    ensures HeadFixes(c, a) <==> AcceptsOnlyItsOwn(c, a)
  {
    hide Valid, Accepts, SameHistory;
    if HeadFixes(c, a) {
      forall i, sig | 0 < i < |a| && Accepts(c, a, i, sig) ensures sig == a[i].sig {
        FixedAcceptsOnlyItsOwn(c, a, i, sig);
      }
    }
    if AcceptsOnlyItsOwn(c, a) {
      forall b | Valid(c, b) && SameHistory(a, b) ensures b == a {
        AcceptsOnlyItsOwnIsFixed(c, a, b);
      }
    }
  }

  /** A signature text is accepted when it decodes to bytes the scheme accepts; a
      scoped chain wants it in lower case as well. */
  lemma AcceptsMeans(c: Primitives, a: seq<Block>, i: nat, sig: string)
    requires Valid(c, a) && 0 < i < |a|
    ensures Accepts(c, a, i, a[i].sig)
    ensures Accepts(c, a, i, sig) <==>
      && Decode(sig).Some? && |Decode(sig).value| == 64 && Signs(c, a, i, Decode(sig).value)
      && (Strict(c, a) ==> LowerCase(sig) == sig)
  {
    hide ValidateGenesis, LinkError, ReplayBlocks, Decode, LowerCase, ComputeHash, FirstNonFinite, IsLowerHex;
    LinkedAt(c, a, i);
    assert a[i].(sig := a[i].sig) == a[i];
    if Decode(sig).Some? && |Decode(sig).value| == 64 {
      LowerTextOf(sig, 64);
    }
  }

  lemma LowerTextOf(sig: string, n: nat)
    requires Decode(sig).Some? && |Decode(sig).value| == n
    ensures IsLowerHex(sig, n) <==> LowerCase(sig) == sig
  {
    DecodeThenEncode(sig);
    RoundTrip(Decode(sig).value);
    if IsLowerHex(sig, n) {
      LowerHexIsItsOwnLowerCase(sig, n);
    }
  }

  /** Under the scoped format the head fixes every field exactly when each block's
      signature is the only one the scheme accepts for it. */
  lemma ScopedHeadFixesExactly(c: Primitives, a: seq<Block>)
    requires Valid(c, a) && Strict(c, a)
    ensures HeadFixes(c, a) <==>
      forall i, s :: 0 < i < |a| && |s| == 64 && Signs(c, a, i, s) ==> Some(s) == Decode(a[i].sig)
  {
    HeadFixesExactly(c, a);
    hide Valid, Strict, Accepts, Signs, Decode, LowerCase, Encode, HeadFixes;
    if HeadFixes(c, a) {
      forall i, s: seq<Byte> | 0 < i < |a| && |s| == 64 && Signs(c, a, i, s) ensures Some(s) == Decode(a[i].sig) {
        RoundTrip(s);
        LowerHexIsItsOwnLowerCase(Encode(s), 64);
        AcceptsMeans(c, a, i, Encode(s));
      }
    }
    if forall i, s :: 0 < i < |a| && |s| == 64 && Signs(c, a, i, s) ==> Some(s) == Decode(a[i].sig) {
      forall i, sig | 0 < i < |a| && Accepts(c, a, i, sig) ensures sig == a[i].sig {
        AcceptsMeans(c, a, i, sig);
        AcceptsMeans(c, a, i, a[i].sig);
        assert Some(Decode(sig).value) == Decode(a[i].sig);
        SameBytesUpToCase(sig, a[i].sig);
      }
    }
  }

  /** What two valid histories with one head can differ in: any signature bytes the
      scheme accepts for the block, in any spelling under the legacy format and in
      lower case under the scoped one. */
  lemma HeadLeavesSignaturesOpen(c: Primitives, a: seq<Block>, b: seq<Block>)
    requires Valid(c, a) && SameHistory(a, b)
    ensures Valid(c, b) <==> a[0] == b[0] && forall i :: 0 < i < |a| ==> Verifies(c, a, i, b[i].sig)
  {
    HeadSharersAreExact(c, a, b);
    hide Valid, Accepts, Verifies;
    forall i | 0 < i < |a| ensures Accepts(c, a, i, b[i].sig) <==> Verifies(c, a, i, b[i].sig) {
      AcceptsMeans(c, a, i, b[i].sig);
    }
  }

  /** The text names 64 bytes the scheme accepts, in lower case where that is asked. */
  predicate Verifies(c: Primitives, a: seq<Block>, i: nat, sig: string)
    requires i < |a|
  {
    && Decode(sig).Some? && |Decode(sig).value| == 64 && Signs(c, a, i, Decode(sig).value)
    && (Strict(c, a) ==> LowerCase(sig) == sig)
  }

  /** Without a collision, equal heads leave nothing else open. */
  lemma EqualHeadsDifferInSignatures(c: Primitives, a: seq<Block>, b: seq<Block>)
    requires Valid(c, a) && Valid(c, b) && !Collides(c, a, b)
    requires a[|a| - 1].hash == b[|b| - 1].hash
    ensures SameHistory(a, b) && a[0] == b[0]
    ensures forall i :: 0 < i < |a| ==> Verifies(c, a, i, b[i].sig) && Verifies(c, b, i, a[i].sig)
  {
    HeadCommitsToGraph(c, a, b);
    SameIsSymmetricHistory(a, b);
    hide Valid, Verifies, SameHistory, Collides;
    HeadLeavesSignaturesOpen(c, a, b);
    HeadLeavesSignaturesOpen(c, b, a);
  }

  lemma SameIsSymmetricHistory(a: seq<Block>, b: seq<Block>)
    requires SameHistory(a, b)
    ensures SameHistory(b, a) && |a| == |b|
  {
    forall i | 0 <= i < |b| ensures SameBlock(b[i], a[i]) {
      assert SameBlock(a[i], b[i]);
    }
  }

  /** Every respelling of a legacy history is valid. */
  lemma RespellingKeepsValid(c: Primitives, a: seq<Block>, b: seq<Block>)
    requires Valid(c, a) && !Strict(c, a) && SameHistory(a, b) && a[0] == b[0]
    requires forall i :: 0 < i < |a| ==> LowerCase(a[i].sig) == LowerCase(b[i].sig)
    ensures Valid(c, b)
  {
    HeadLeavesSignaturesOpen(c, a, b);
    hide Valid, Strict, Accepts, Decode, LowerCase;
    forall i | 0 < i < |a| ensures Verifies(c, a, i, b[i].sig) {
      AcceptsMeans(c, a, i, a[i].sig);
      SameBytesUpToCase(a[i].sig, b[i].sig);
    }
  }

  /** A second signature the scheme accepts gives a second valid history with the
      same head, in either format. */
  lemma SecondSignatureSecondHistory(c: Primitives, a: seq<Block>, i: nat, s: seq<Byte>) returns (b: seq<Block>)
    requires Valid(c, a) && 0 < i < |a| && |s| == 64 && Signs(c, a, i, s) && Some(s) != Decode(a[i].sig)
    ensures Valid(c, b) && SameHistory(a, b) && a != b && a[|a| - 1].hash == b[|b| - 1].hash
  {
    hide Valid, Strict, Accepts, Signs, Decode, LowerCase, Encode, SameHistory;
    b := a[i := a[i].(sig := Encode(s))];
    RoundTrip(s);
    LowerHexIsItsOwnLowerCase(Encode(s), 64);
    ReplacedSignature(a, i, Encode(s));
    HeadLeavesSignaturesOpen(c, a, b);
    forall j | 0 < j < |a| ensures Verifies(c, a, j, b[j].sig) {
      AcceptsMeans(c, a, j, a[j].sig);
    }
    assert b[i].sig == Encode(s);
  }

  /** Under the legacy format the head fixes every field exactly when each block has
      one signature the scheme accepts, and a text for it without letters. */
  lemma LegacyHeadFixesExactly(c: Primitives, a: seq<Block>)
    requires Valid(c, a) && !Strict(c, a)
    ensures HeadFixes(c, a) <==>
      && (forall i, s :: 0 < i < |a| && |s| == 64 && Signs(c, a, i, s) ==> Some(s) == Decode(a[i].sig))
      && (forall i :: 0 < i < |a| ==> NoLetters(a[i].sig))
  {
    HeadFixesExactly(c, a);
    hide Valid, Strict, Accepts, Signs, Decode, LowerCase, UpperCase, Encode, HeadFixes, NoLetters;
    if AcceptsOnlyItsOwn(c, a) {
      forall i | 0 < i < |a| ensures NoLetters(a[i].sig) {
        OwnSpellingOnly(c, a, i);
      }
      forall i, s: seq<Byte> | 0 < i < |a| && |s| == 64 && Signs(c, a, i, s) ensures Some(s) == Decode(a[i].sig) {
        RoundTrip(s);
        AcceptsMeans(c, a, i, Encode(s));
      }
    }
    if (forall i, s :: 0 < i < |a| && |s| == 64 && Signs(c, a, i, s) ==> Some(s) == Decode(a[i].sig))
       && (forall i :: 0 < i < |a| ==> NoLetters(a[i].sig)) {
      forall i, sig | 0 < i < |a| && Accepts(c, a, i, sig) ensures sig == a[i].sig {
        AcceptsMeans(c, a, i, sig);
        SameBytesUpToCase(sig, a[i].sig);
        NoLettersNoSpelling(a[i].sig, sig);
      }
    }
  }

  lemma OwnSpellingOnly(c: Primitives, a: seq<Block>, i: nat)
    requires Valid(c, a) && !Strict(c, a) && AcceptsOnlyItsOwn(c, a) && 0 < i < |a|
    ensures NoLetters(a[i].sig)
  {
    hide Valid, Strict, Accepts, Signs, Decode, LowerCase, UpperCase, NoLetters;
    var sig := a[i].sig;
    AcceptsMeans(c, a, i, sig);
    LowerCaseTwice(sig);
    UpperCaseIsRespelling(sig);
    LettersHaveTwoSpellings(sig);
    SameBytesUpToCase(sig, LowerCase(sig));
    SameBytesUpToCase(sig, UpperCase(sig));
    AcceptsMeans(c, a, i, LowerCase(sig));
    AcceptsMeans(c, a, i, UpperCase(sig));
  }

  // ------------------------------------------------------------------
  // a concrete pair of histories
  // ------------------------------------------------------------------

  const AUTHOR := Identity("A", [])
  const FIRST_OPS := [AddNode(1, "point", Pos(Finite(0.0), Finite(0.0)))]

  function FirstBlock(c: Primitives): Block {
    Seal(c, LegacyGenesis(c), FIRST_OPS, "first", AUTHOR, 0)
  }

  lemma LegacyHistoryIsValid(c: Primitives)
    requires SignatureLaws(c)
    ensures Valid(c, [LegacyGenesis(c)]) && Valid(c, [LegacyGenesis(c), FirstBlock(c)])
    ensures !Strict(c, [LegacyGenesis(c), FirstBlock(c)])
  {
    var g := LegacyGenesis(c);
    assert [g][..0] == [] && ReplayBlocks([g]) == Ok(EMPTY);
    assert FIRST_OPS[..0] == [] && Replays(EMPTY, FIRST_OPS);
    AppendIsExact(c, [g], FIRST_OPS, "first", AUTHOR, 0);
    assert [g] + [FirstBlock(c)] == [g, FirstBlock(c)];
  }

  /** The counterexample to the claim that a head fixes the whole history, under
      every scheme whose signature of the first block has a letter in its text: one
      head, all covered fields equal, two spellings. */
  lemma HeadLeavesSpellingOpen(c: Primitives) returns (a: seq<Block>, b: seq<Block>)
    requires SignatureLaws(c) && !NoLetters(FirstBlock(c).sig)
    ensures Valid(c, a) && Valid(c, b) && SameHistory(a, b) && a != b
    ensures |a| == |b| == 2 && a[1].hash == b[1].hash
  {
    hide Valid, Strict, LowerCase, UpperCase, NoLetters, SignatureLaws, LegacyGenesis, FirstBlock;
    LegacyHistoryIsValid(c);
    var g, first := LegacyGenesis(c), FirstBlock(c);
    a := [g, first];
    LowerCaseTwice(first.sig);
    UpperCaseIsRespelling(first.sig);
    LettersHaveTwoSpellings(first.sig);
    var sig := if LowerCase(first.sig) != first.sig then LowerCase(first.sig) else UpperCase(first.sig);
    b := [g, first.(sig := sig)];
    RespellingKeepsValid(c, a, b);
    assert a[1].sig != b[1].sig;
  }

  lemma SealedSignature(c: Primitives, head: Block) returns (digest: seq<Byte>)
    ensures Seal(c, head, FIRST_OPS, "first", AUTHOR, 0).sig == Encode(c.sign(AUTHOR.secret, digest))
  {
    hide Encode, Decode, SignableJson, PublicHex;
    var b := Block(head.index + 1, head.hash, 0, AUTHOR.name, PublicHex(c, AUTHOR), "first", FIRST_OPS, "", "");
    digest := c.sha256(SignableJson(c, b));
    RoundTrip(digest);
  }

  lemma FirstLetter(bytes: seq<Byte>)
    requires bytes != [] && bytes[0] == 0xaa
    ensures Encode(bytes) != [] && Encode(bytes)[0] == 'a'
  {
  }

  /** Such a scheme exists. */
  lemma ToySignatureHasLetters()
    ensures SignatureLaws(ToyPrimitives()) && !NoLetters(FirstBlock(ToyPrimitives()).sig)
  {
    LawsCanBeMet();
    hide LegacyGenesis, Seal, Encode, SignatureLaws;
    var c := ToyPrimitives();
    var digest := SealedSignature(c, LegacyGenesis(c));
    FirstLetter(c.sign(AUTHOR.secret, digest));
    assert IsLetter(FirstBlock(c).sig[0]);
  }
}
