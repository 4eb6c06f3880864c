/** Blocks, the bytes they commit to, and the checks one block must pass. The
    hash and the signature scheme are arguments: nothing here assumes more about
    them than a theorem's own `requires` says. */
module Blocks {
  import opened Common
  import opened Hex
  import opened GraphModel

  /** The fields a block hash covers, with every number as JSON prints it. */
  datatype Record = Record(
    index: nat, prevHash: string, timestamp: nat, author: string, authorPk: string,
    message: string, ops: seq<GraphOp>)

  datatype Block = Block(
    index: nat, prevHash: string, timestamp: nat, author: string, authorPk: string,
    message: string, ops: seq<GraphOp>, hash: string, sig: string)

  /** The library code the chain calls: the JSON text of a record's fields, SHA-256
      (section 6.2 of FIPS 180-4), and Ed25519 (section 5.1 of RFC 8032). */
  datatype Primitives = Primitives(
    fields: Record -> string,
    sha256: string -> seq<Byte>,
    keyOk: seq<Byte> -> bool,
    verifies: (seq<Byte>, seq<Byte>, seq<Byte>) -> bool,
    publicKey: seq<Byte> -> seq<Byte>,
    sign: (seq<Byte>, seq<Byte>) -> seq<Byte>)

  datatype Identity = Identity(name: string, secret: seq<Byte>)

  datatype ChainError =
    | Empty
    | BadIndex(at: nat)
    | BadPrevHash(at: nat)
    | BadHash(at: nat)
    | BadSignature(at: nat)
    | BadOps(block: nat, op: nat, error: GraphError)
    | Diverged(atIndex: nat)
    | EmptyOps
    | BadKey
    | BadChainId
    | NonFinite(block: nat, op: nat)

  datatype GenesisKind = Legacy | Scoped(chainId: string)

  /** SHA-256 digests have 32 bytes. */
  ghost predicate DigestLaw(c: Primitives) {
    forall t :: |c.sha256(t)| == 32
  }

  /** A signature made with a key verifies under its public key. */
  ghost predicate SignatureLaws(c: Primitives) {
    && (forall k :: |c.publicKey(k)| == 32 && c.keyOk(c.publicKey(k)))
    && (forall k, m :: |c.sign(k, m)| == 64 && c.verifies(c.publicKey(k), m, c.sign(k, m)))
  }

  /** `n` copies of one byte. */
  function Bytes(n: nat, b: Byte): (s: seq<Byte>)
    ensures |s| == n && forall i :: 0 <= i < n ==> s[i] == b
  {
    seq(n, _ => b)
  }

  /** A toy scheme: digests tell the genesis from the other blocks and nothing
      else, and every message has the one signature 0xaa, 0xaa, ... */
  function ToyPrimitives(): Primitives {
    Primitives(
      (r: Record) => if r.index == 0 then "" else "+",
      (t: string) => Bytes(32, if |t| <= 2 then 0 else 1),
      (k: seq<Byte>) => true,
      (k: seq<Byte>, m: seq<Byte>, s: seq<Byte>) => s == Bytes(64, 0xaa),
      (k: seq<Byte>) => Bytes(32, 0),
      (k: seq<Byte>, m: seq<Byte>) => Bytes(64, 0xaa))
  }

  /** The laws the theorems ask for can be met together. */
  lemma LawsCanBeMet()
    ensures DigestLaw(ToyPrimitives()) && SignatureLaws(ToyPrimitives())
  {
  }

  // ------------------------------------------------------------------
  // text and hash
  // ------------------------------------------------------------------

  /** JSON has no NaN and no infinity: all of them print as `null`, for which NaN
      stands here. */
  function PrintFloat(f: Float): Float {
    if IsFinite(f) then f else NaN
  }

  function PrintPos(p: Pos): Pos {
    Pos(PrintFloat(p.x), PrintFloat(p.y))
  }

  function PrintOp(op: GraphOp): GraphOp {
    match op
    case AddNode(id, typeName, pos) => AddNode(id, typeName, PrintPos(pos))
    case MoveNode(id, pos) => MoveNode(id, PrintPos(pos))
    case SetParam(id, key, Number(n)) => SetParam(id, key, Number(PrintFloat(n)))
    case _ => op
  }

  function RecordOf(b: Block): Record {
    Record(b.index, b.prevHash, b.timestamp, b.author, b.authorPk, b.message,
           seq(|b.ops|, i requires 0 <= i < |b.ops| => PrintOp(b.ops[i])))
  }

  function SignableJson(c: Primitives, b: Block): string {
    "{" + c.fields(RecordOf(b)) + "}"
  }

  function ComputeHash(c: Primitives, b: Block): string {
    Encode(c.sha256(SignableJson(c, b)))
  }

  /** JSON of a block whose hash and signature are hexadecimal, so that they need
      no escaping. */
  function BlockJson(c: Primitives, b: Block): string {
    "{" + c.fields(RecordOf(b)) + ",\"hash\":\"" + b.hash + "\",\"sig\":\"" + b.sig + "\"}"
  }

  /** Finite operations are what the record says they are. */
  lemma FiniteOpsPrintFaithfully(b: Block)
    requires FiniteOps(b.ops)
    ensures RecordOf(b).ops == b.ops
  {
    forall i | 0 <= i < |b.ops| ensures PrintOp(b.ops[i]) == b.ops[i] {
      assert FiniteOp(b.ops[i]);
    }
  }

  /** Why finiteness is checked before a hash is trusted: two different operations
      with one hash, under every digest. */
  lemma NonFiniteOpsShareOneHash(c: Primitives, b: Block, id: NodeId, key: string)
    ensures var nan := b.(ops := [SetParam(id, key, Number(NaN))]);
            var inf := b.(ops := [SetParam(id, key, Number(Infinite(false)))]);
            nan.ops != inf.ops && ComputeHash(c, nan) == ComputeHash(c, inf)
  {
    var nan := b.(ops := [SetParam(id, key, Number(NaN))]);
    var inf := b.(ops := [SetParam(id, key, Number(Infinite(false)))]);
    assert RecordOf(nan).ops == RecordOf(inf).ops;
  }

  // ------------------------------------------------------------------
  // identities
  // ------------------------------------------------------------------

  function PublicHex(c: Primitives, id: Identity): string {
    Encode(c.publicKey(id.secret))
  }

  function SignHashHex(c: Primitives, id: Identity, hashHex: string): string {
    match Decode(hashHex)
    case Some(raw) => Encode(c.sign(id.secret, raw))
    case None => ""
  }

  // ------------------------------------------------------------------
  // one block against its predecessor
  // ------------------------------------------------------------------

  function VerifySig(c: Primitives, b: Block, at: nat, strictHex: bool): Option<ChainError> {
    if strictHex && !IsLowerHex(b.authorPk, 32) then Some(BadKey)
    else
      match Decode(b.authorPk)
      case None => Some(BadKey)
      case Some(key) =>
        if |key| != 32 || !c.keyOk(key) then Some(BadKey)
        else if strictHex && !IsLowerHex(b.sig, 64) then Some(BadSignature(at))
        else
          match Decode(b.sig)
          case None => Some(BadSignature(at))
          case Some(sig) =>
            if |sig| != 64 then Some(BadSignature(at))
            else
              match Decode(b.hash)
              case None => Some(BadHash(at))
              case Some(raw) => if c.verifies(key, raw, sig) then None else Some(BadSignature(at))
  }

  function FirstNonFinite(ops: seq<GraphOp>): (r: Option<nat>)
    ensures r.None? <==> FiniteOps(ops)
    ensures r.Some? ==> r.value < |ops| && !FiniteOp(ops[r.value]) && FiniteOps(ops[..r.value])
  {
    if ops == [] then None
    else
      var init := ops[..|ops| - 1];
      match FirstNonFinite(init)
      case Some(i) =>
        assert ops[i] == init[i] && ops[..i] == init[..i];
        Some(i)
      case None =>
        assert forall i :: 0 <= i < |init| ==> FiniteOp(init[i]) && init[i] == ops[i];
        if FiniteOp(ops[|ops| - 1]) then None else Some(|ops| - 1)
  }

  lemma {:induction false} FirstNonFiniteIs(ops: seq<GraphOp>, k: nat)
    requires k < |ops| && FiniteOps(ops[..k]) && !FiniteOp(ops[k])
    ensures FirstNonFinite(ops) == Some(k)
    decreases |ops|
  {
    if k < |ops| - 1 {
      assert ops[..|ops| - 1][..k] == ops[..k];
      FirstNonFiniteIs(ops[..|ops| - 1], k);
    }
  }

  function VerifyLinked(c: Primitives, b: Block, prev: Block, at: nat, strictHex: bool): Option<ChainError> {
    if prev.index + 1 != b.index then Some(BadIndex(at))
    else if b.prevHash != prev.hash then Some(BadPrevHash(at))
    else if b.ops == [] then Some(EmptyOps)
    else
      match FirstNonFinite(b.ops)
      case Some(op) => Some(NonFinite(at, op))
      case None =>
        if b.hash != ComputeHash(c, b) then Some(BadHash(at)) else VerifySig(c, b, at, strictHex)
  }

  // ------------------------------------------------------------------
  // genesis
  // ------------------------------------------------------------------

  function Zeros(n: nat): (s: string)
    ensures |s| == n && forall i :: 0 <= i < n ==> s[i] == '0'
  {
    if n == 0 then "" else Zeros(n - 1) + "0"
  }

  /** `prev_hash` of the genesis block. */
  const GENESIS_PREV_HASH := Zeros(64)

  const GENESIS_AUTHOR := "genesis"
  const GENESIS_MESSAGE := "MantisCAD genesis"
  const SCOPED_PREFIX := "MantisCAD genesis v2:"

  function GenesisBlock(c: Primitives, message: string): Block {
    var b := Block(0, GENESIS_PREV_HASH, 0, GENESIS_AUTHOR, "", message, [], "", "");
    b.(hash := ComputeHash(c, b))
  }

  function LegacyGenesis(c: Primitives): Block {
    GenesisBlock(c, GENESIS_MESSAGE)
  }

  function ScopedGenesis(c: Primitives, chainId: string): Block {
    GenesisBlock(c, SCOPED_PREFIX + chainId)
  }

  function ValidateGenesis(c: Primitives, g: Block): Result<GenesisKind, ChainError> {
    if g.index != 0 then Err(BadIndex(0))
    else if g.prevHash != GENESIS_PREV_HASH then Err(BadPrevHash(0))
    else if g.sig != "" then Err(BadSignature(0))
    else if g.message == GENESIS_MESSAGE then
      if g == LegacyGenesis(c) then Ok(Legacy) else Err(BadHash(0))
    else if SCOPED_PREFIX <= g.message then
      var chainId := g.message[|SCOPED_PREFIX|..];
      if !IsLowerHex(chainId, 32) then Err(BadChainId)
      else if g == ScopedGenesis(c, chainId) then Ok(Scoped(chainId))
      else Err(BadHash(0))
    else Err(BadHash(0))
  }

  /** A block follows another exactly when it has the next index, names the other's
      hash, holds operations, all of them finite, carries its own hash, and a key of
      32 bytes the scheme accepts has signed that hash with 64 bytes, both spelled
      in lower case where that is asked. */
  lemma FollowsExactly(c: Primitives, b: Block, prev: Block, at: nat, strictHex: bool)
    ensures VerifyLinked(c, b, prev, at, strictHex).None? <==>
      && b.index == prev.index + 1 && b.prevHash == prev.hash
      && b.ops != [] && (forall i :: 0 <= i < |b.ops| ==> FiniteOp(b.ops[i]))
      && b.hash == ComputeHash(c, b)
      && (exists key, sig, digest ::
            && Decode(b.authorPk) == Some(key) && |key| == 32 && c.keyOk(key)
            && Decode(b.sig) == Some(sig) && |sig| == 64
            && Decode(b.hash) == Some(digest) && c.verifies(key, digest, sig))
      && (strictHex ==> IsLowerHex(b.authorPk, 32) && IsLowerHex(b.sig, 64))
  {
    hide Decode, IsLowerHex, ComputeHash;
  }

  /** The first check that fails decides the error. */
  lemma RefusalNamesCheck(c: Primitives, b: Block, prev: Block, at: nat, strictHex: bool)
    ensures var r := VerifyLinked(c, b, prev, at, strictHex);
            && (r == Some(BadIndex(at)) <==> b.index != prev.index + 1)
            && (r == Some(BadPrevHash(at)) <==> b.index == prev.index + 1 && b.prevHash != prev.hash)
            && (r == Some(EmptyOps) <==> b.index == prev.index + 1 && b.prevHash == prev.hash && b.ops == [])
            && (forall op: nat :: r == Some(NonFinite(at, op)) <==>
                  && b.index == prev.index + 1 && b.prevHash == prev.hash
                  && op < |b.ops| && !FiniteOp(b.ops[op]) && FiniteOps(b.ops[..op]))
            && (r.Some? ==> r.value in {BadIndex(at), BadPrevHash(at), EmptyOps, BadHash(at), BadKey, BadSignature(at)}
                            || exists op: nat :: r == Some(NonFinite(at, op)))
  {
    hide Decode, IsLowerHex, ComputeHash, FirstNonFinite;
    forall op: nat | op < |b.ops| && !FiniteOp(b.ops[op]) && FiniteOps(b.ops[..op])
      ensures FirstNonFinite(b.ops) == Some(op)
    {
      FirstNonFiniteIs(b.ops, op);
    }
  }

  /** Which blocks open a chain: the constants of the two formats, their own hash,
      and in the scoped one a message that names 32 bytes in lower case. */
  lemma GenesisIsExact(c: Primitives, g: Block)
    ensures ValidateGenesis(c, g).Ok? <==>
      && g.index == 0 && g.prevHash == Zeros(64) && g.timestamp == 0 && g.author == "genesis" && g.authorPk == ""
      && g.ops == [] && g.sig == "" && g.hash == ComputeHash(c, g)
      && (g.message == "MantisCAD genesis"
          || exists id :: IsLowerHex(id, 32) && g.message == "MantisCAD genesis v2:" + id)
    ensures ValidateGenesis(c, g).Ok? ==>
      match ValidateGenesis(c, g).value
      case Legacy => g.message == "MantisCAD genesis"
      case Scoped(id) => IsLowerHex(id, 32) && g.message == "MantisCAD genesis v2:" + id
  {
    hide IsLowerHex, ComputeHash, Zeros;
    GenesisOwn(c, g);
    ScopedMessage(g.message);
    LegacyIsNotScoped();
  }

  lemma LegacyIsNotScoped()
    ensures !(SCOPED_PREFIX <= GENESIS_MESSAGE)
  {
  }

  lemma ScopedMessage(message: string)
    ensures SCOPED_PREFIX <= message ==> message == SCOPED_PREFIX + message[|SCOPED_PREFIX|..]
    ensures forall id :: message == SCOPED_PREFIX + id ==> SCOPED_PREFIX <= message && message[|SCOPED_PREFIX|..] == id
  {
  }

  lemma GenesisOwn(c: Primitives, g: Block)
    ensures g == GenesisBlock(c, g.message) <==>
      && g.index == 0 && g.prevHash == GENESIS_PREV_HASH && g.timestamp == 0 && g.author == GENESIS_AUTHOR
      && g.authorPk == "" && g.ops == [] && g.sig == "" && g.hash == ComputeHash(c, g)
  {
    var b := Block(0, GENESIS_PREV_HASH, 0, GENESIS_AUTHOR, "", g.message, [], "", "");
    if g == b.(hash := g.hash) {
      assert RecordOf(g) == RecordOf(b);
    }
    GenesisHashIsItsOwn(c, g.message);
  }

  lemma GenesisHashIsItsOwn(c: Primitives, message: string)
    ensures var g := GenesisBlock(c, message); g.hash == ComputeHash(c, g)
  {
    var g := GenesisBlock(c, message);
    assert RecordOf(g) == RecordOf(g.(hash := ""));
  }

  /** The two genesis formats are domain separated: a valid genesis is fixed by
      its kind, and the kinds of two different messages never coincide. */
  lemma GenesisIsCanonical(c: Primitives, g: Block, h: Block)
    requires ValidateGenesis(c, g).Ok? && ValidateGenesis(c, h).Ok?
    ensures ValidateGenesis(c, g) == ValidateGenesis(c, h) <==> g == h
    ensures g == h <==> g.message == h.message
  {
    assert g == GenesisBlock(c, g.message) && h == GenesisBlock(c, h.message) by {
      assert forall b: Block :: SCOPED_PREFIX <= b.message ==>
          b.message == SCOPED_PREFIX + b.message[|SCOPED_PREFIX|..];
    }
  }
}
