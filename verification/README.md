# MantisCAD, modelled and proved in Dafny

MantisCAD keeps a document as a signed, hash-linked log of graph edits. Everything on
screen must be derivable from that log again, peers exchange the log block by block, and
the key that signs it must never be lost to a failed save. This project models the log,
the editing session on top of it, the sync protocol, the save-durability rule, and four
graph algorithms, and proves what each of them is for.

| module | what it holds |
|---|---|
| `Common`, `Paths` | options and results, least elements, pigeonhole; paths, cycles, reachability, longest paths |
| `Hex` | the hexadecimal helpers, as a round trip |
| `GraphModel` | nodes, wires, operations, `Apply`/`ApplyAll`, the cycle check |
| `Blocks`, `History` | blocks and their covered text, per-block checks, genesis; valid histories, append, extension |
| `OpLog` | the class `Chain`: loops over blocks, proved equal to the functions of `History` |
| `Commitment`, `Signatures` | what a head hash commits to and what it leaves open; peers that exchange whole histories |
| `Ledger`, `Sizes` | gestures, undo and redo books, rebasing; size measurements and when they may be reused |
| `Session` | the class `Document` with every editing method and its invariant `Valid` |
| `PushChunks`, `Sync`, `Peer` | chunk building, push progress and page rules, the application's sync handlers |
| `Durability` | the class `CatalogDurability` and `Keeper`, which adds storage as an environment |
| `Topology`, `ImportPlans`, `RecipeLayout`, `Skyline` | dependency order, import pruning, recipe depths, skyline placement |

How to read it:

* **Functions are specifications.** `Apply`, `Validate`, `AppendOutcome`, `CryptoTail`,
  `ExtendOutcome`, `Rebased`, `Undone`, `Measured` say what one call computes; the methods
  of the classes are loops and field updates proved equal to them; the lemmas say what
  those functions are good for.
* **Sessions are all runs.** `Session.Document.Valid` holds after the constructors and is
  kept by every method, whatever the arguments. It contains: the history validates from
  its genesis; replaying it and then the pending operations succeeds and gives the working
  graph, up to the gesture in flight and, once a gesture has ended on the other zero, up to
  the signs of zeros; undo offsets strictly increase below the pending
  length and pending followed by all redo batches replays; a time-travel view is the replay
  through its block; a clean evaluation was made from the graph on display; the size cache
  is a recount of some hash-linked history that ends in its head hash.
* **The environment is part of the state machine.** In `Peer` the server's replies are
  arbitrary arguments and local commits are a step. In `Durability` the storage engine's
  steps (a load ends, the oldest transaction commits, any transaction aborts) are methods
  beside the application's, so the invariant covers every interleaving.
* **Cryptography is an argument.** `Primitives` carries the JSON text of the covered
  fields, SHA-256 (section 6.2 of FIPS 180-4) and Ed25519 (sections 5.1.6 and 5.1.7 of
  RFC 8032). `SignatureLaws` (a signature verifies under the signer's key) and `DigestLaw`
  (digests have 32 bytes) are hypotheses of the theorems that need them, and
  `Blocks.LawsCanBeMet` gives a scheme that meets both. Nothing assumes that a message has
  only one signature: Ed25519 accepts many, because verification does not check how the
  nonce was chosen. Neither the serializer nor the digest is assumed injective: results
  about equal hashes hold unless two of the blocks at hand collide, that is, have different
  covered fields and one digest.

Results worth knowing before using the code:

* The audit type's comment says the head hash commits to the complete ordered history
  (`crates/mantis-chain/src/lib.rs:126-128`). The code commits to every field except the
  text of the signatures. `Signatures.HeadLeavesSignaturesOpen` says exactly what a head
  leaves open: any accepted signature bytes for each block, and under the legacy format any
  spelling of them. A key holder can therefore make any number of valid histories with one
  head (`SecondSignatureSecondHistory`), and anyone can respell a legacy one
  (`RespellingKeepsValid`, with the witness `HeadLeavesSpellingOpen`). And the code commits
  to operations only because finiteness is checked before a hash is trusted:
  `Blocks.NonFiniteOpsShareOneHash` gives two different operations with one hash.
* The mark that a Pull is adopting (`crates/mantis-app/src/app.rs:883`) survives a Pull
  that fails before its first page is taken. A later Pull that does not adopt, because the
  remote now reports our own genesis or none, asks for the missing suffix and then refuses
  every page of it. `HandlePullInfo` states exactly when, and `Peer.FailedAdoptionStalls`
  runs into it from a fresh session.
* A gesture that ends on the other zero, such as a slider dragged from 0 to -0, records
  nothing, because IEEE equality sees no change (`crates/mantis-app/src/state.rs:537`). The
  log then rebuilds the working graph up to the signs of zeros only
  (`Session.DragAcrossZero`, `Ledger.GestureLosesNothing`, `Session.ReplayMatches`).
* An accepted Pull page need not make progress. It does exactly when it carries a block
  the chain lacks (`Sync.AcceptedPageMoves`); `Sync.RepeatedPageStalls` gives the family
  that is accepted and appends nothing, after which the same page is requested again.
* A server reply never rewrites local work: `Peer.App.Process` keeps the old history as a
  prefix, unless a document that is still a bare genesis adopts a remote history.
* Replay inside undo, redo, merge and time travel cannot fail, so the error paths the
  code keeps for it are dead.

## Model

| member | source | states |
|---|---|---|
| Hex.RoundTrip | crates/mantis-chain/src/lib.rs:53-89 | decoding the encoding of any bytes gives them back, and encodings are canonical lowercase |
| Hex.EncodeInjective | crates/mantis-chain/src/lib.rs:53-61 | different bytes never share a text |
| Hex.SameBytesUpToCase | crates/mantis-chain/src/lib.rs:65-83 | two texts decode to the same bytes exactly when they differ in letter case only |
| Hex.DecodesExactly | crates/mantis-chain/src/lib.rs:65-83 | exactly the texts of hexadecimal digits in pairs decode |
| GraphModel.ApplyEach | crates/mantis-graph/src/graph.rs:266-271 | the loop stops at the first operation that fails and names it |
| GraphModel.ReachesByStack | crates/mantis-graph/src/graph.rs:274-292 | the depth-first search answers true exactly when a path exists |
| GraphModel.ApplyAllConcat | crates/mantis-graph/src/graph.rs:266-271 | replaying a concatenation is replaying its halves in turn |
| GraphModel.ErrorStops | crates/mantis-graph/src/graph.rs:264-271 | a failing prefix decides the outcome of the whole batch |
| GraphModel.ErrorIsLocated | crates/mantis-graph/src/graph.rs:266-271 | the reported position is the first that fails: everything before it replays and it fails there with the reported error, and only then |
| GraphModel.AcceptedExactly | crates/mantis-graph/src/graph.rs:196-263 | which operations are accepted, for every kind |
| GraphModel.RefusalNamesCause | crates/mantis-graph/src/graph.rs:196-263 | a refusal names what is wrong with the graph or the operation |
| GraphModel.SubjectHolds | crates/mantis-graph/src/graph.rs:196-263 | an added node has the given type and position and no parameter; a move changes the position only; a set parameter reads back and the others stay |
| GraphModel.WiresLeft | crates/mantis-graph/src/graph.rs:212-252 | a connection takes over its input and leaves every other wire, a disconnection cuts one wire, a removal cuts those of its node |
| GraphModel.NodeStandsWherePut | crates/mantis-graph/src/graph.rs:266-271 | in any replayed batch a node stands where the last operation that placed it put it |
| GraphModel.NodeKeepsType | crates/mantis-graph/src/graph.rs:266-271 | and keeps the type it was added with |
| GraphModel.ParamKeepsLastValue | crates/mantis-graph/src/graph.rs:266-271 | a parameter holds the last value it was set to |
| GraphModel.WireStands | crates/mantis-graph/src/graph.rs:266-271 | a wire stands until it is cut, its input taken over, or one of its nodes removed |
| GraphModel.FiniteMeans | crates/mantis-graph/src/graph.rs:121-131 | finite operations are those that carry no NaN and no infinity |
| GraphModel.OperationsAreLocal | crates/mantis-graph/src/graph.rs:106-263 | an operation changes no node but its subject and no wire that does not touch it |
| GraphModel.AddThenRemove | crates/mantis-graph/src/graph.rs:196-219 | removing a node just added restores the graph |
| GraphModel.ConnectThenDisconnect | crates/mantis-graph/src/graph.rs:220-252 | disconnecting a wire just connected to a free input restores the graph |
| GraphModel.LastParamWins | crates/mantis-graph/src/graph.rs:253-258 | a later parameter value overwrites an earlier one as if it had been the only one |
| GraphModel.ApplyUnsigned | crates/mantis-graph/src/graph.rs:196-263 | applying an operation never depends on the sign of a zero |
| GraphModel.SameApplyAll | crates/mantis-graph/src/graph.rs:266-271 | graphs equal up to the signs of zeros accept the same batches, and stay equal that far |
| GraphModel.ApplyKeepsWellFormed | crates/mantis-graph/src/graph.rs:182-263 | every accepted operation keeps wires between existing nodes, one wire per input, no cycle |
| GraphModel.ReplayedGraphsAreWellFormed | crates/mantis-graph/src/graph.rs:182-271 | so does every replayed history, whatever it holds |
| GraphModel.CycleErrorIsExact | crates/mantis-graph/src/graph.rs:210-236 | a connection is refused as a cycle exactly when its wire added to the present ones, the one it would replace included, closes a cycle |
| Blocks.FiniteOpsPrintFaithfully | crates/mantis-chain/src/lib.rs:146-178 | the covered record of a finite block determines its operations |
| Blocks.NonFiniteOpsShareOneHash | crates/mantis-chain/src/lib.rs:430-441 | without the finiteness check two different operations share one hash, under any digest |
| Blocks.FirstNonFinite | crates/mantis-chain/src/lib.rs:434-441 | none exactly for finite batches, otherwise the least offending position |
| Blocks.FollowsExactly | crates/mantis-chain/src/lib.rs:413-467 | a block follows another exactly when it has the next index, names its hash, holds operations, all finite, carries its own hash, and an accepted 32-byte key has signed that hash with 64 bytes, in lower case where asked |
| Blocks.RefusalNamesCheck | crates/mantis-chain/src/lib.rs:445-467 | which check an error stands for, in the order they are made |
| Blocks.GenesisIsExact | crates/mantis-chain/src/lib.rs:477-507 | which blocks open a chain, field by field, and the kind each stands for |
| Blocks.GenesisIsCanonical | crates/mantis-chain/src/lib.rs:187-220 | a valid genesis is fixed by its kind; the legacy and scoped formats never coincide |
| History.PrefixIsValid | crates/mantis-chain/src/lib.rs:631-639 | every non-empty prefix of a valid history validates and replays |
| History.LinkedAt | crates/mantis-chain/src/lib.rs:445-507 | in a validated history block i has index i, its own hash, finite operations, at least one of them unless it is the genesis, and a checked predecessor |
| History.LinksHold | crates/mantis-chain/src/lib.rs:631-639 | the links of a history hold exactly when every block follows its predecessor |
| History.FirstBrokenLink | crates/mantis-chain/src/lib.rs:631-639 | otherwise the first block that does not decides the error |
| History.FailedReplayIsLocated | crates/mantis-chain/src/lib.rs:738-754 | a failed replay names the block and operation it failed at: the blocks before replay, and that block fails there |
| History.ValidationOrder | crates/mantis-chain/src/lib.rs:624-639 | the genesis is reported before the links, and the links before the replay |
| History.AppendRefusalNamesCause | crates/mantis-chain/src/lib.rs:576-619 | why an append is refused: no operations, then the first not finite, then the first that does not replay |
| History.ReplayIsApplyAll | crates/mantis-chain/src/lib.rs:738-754 | replaying blocks is replaying all their operations in order |
| History.SealedBlockVerifies | crates/mantis-chain/src/lib.rs:594-617 | a block sealed with any key passes the checks made on foreign blocks, in the strict format too |
| History.AppendIsExact | crates/mantis-chain/src/lib.rs:570-619 | on a valid history append succeeds exactly for non-empty, finite, replayable operations, and the result validates to the old graph followed by them and carries the given author, key, message and time |
| History.OfferIsExact | crates/mantis-chain/src/lib.rs:650-688 | one more offered block is accepted exactly when the first copies still form a linked history and every repeat matches |
| History.CryptoTailIsExact | crates/mantis-chain/src/lib.rs:650-688 | the incremental pass accepts exactly the offers that extend the history, and selects the first copy of each new index |
| History.SelectedByIndex | crates/mantis-chain/src/lib.rs:711-729 | picking new blocks by index alone, as the second pass does, finds the blocks the first pass verified |
| History.ExtensionRefinesValidation | crates/mantis-chain/src/lib.rs:690-733 | the trusted path succeeds exactly when full validation and replay of old blocks plus first copies would and repeats match, with the same graph |
| OpLog.Chain.NewScoped | crates/mantis-chain/src/lib.rs:526-533 | rejects every text that is not a canonical chain id; otherwise the chain validates to the empty graph and reports its own id |
| OpLog.Chain.Replay | crates/mantis-chain/src/lib.rs:738-754 | rebuilds the graph through a block, clamped to the head, or names the failing operation |
| OpLog.Chain.ValidateAndReplay | crates/mantis-chain/src/lib.rs:624-639 | genesis, links, then replay, with the first error in block order; a block without operations is refused |
| OpLog.Chain.Append | crates/mantis-chain/src/lib.rs:576-619 | the checks in the order the code makes them; on error the blocks are unchanged |
| OpLog.Chain.VerifyExtensionCrypto | crates/mantis-chain/src/lib.rs:650-688 | equals the per-block specification for overlapping, duplicated and unknown offers |
| OpLog.Chain.CheckOffered | crates/mantis-chain/src/lib.rs:655-686 | one offered block is a repeat, a new block or the error the specification names |
| OpLog.Chain.StepNewBlocks | crates/mantis-chain/src/lib.rs:711-729 | stepping only the new blocks gives the replay of the whole extension, or its very error |
| OpLog.Chain.TryExtendTrusted | crates/mantis-chain/src/lib.rs:697-733 | atomic fast-forward: chain, graph and count are those of the extension, or nothing changed |
| OpLog.Chain.TryExtend | crates/mantis-chain/src/lib.rs:756-764 | the same after revalidating the whole history, which stays valid |
| Commitment.CollisionIsDigestCollision | crates/mantis-chain/src/lib.rs:146-178 | where the serializer tells two blocks apart, colliding means that two texts have one digest |
| Commitment.HeadCommitsToHistory | crates/mantis-chain/src/lib.rs:124-178 | equal head hashes mean equal histories in all but signature text, or two of the compared blocks have different fields and one digest |
| Commitment.HeadCommitsToGraph | crates/mantis-chain/src/lib.rs:124-178 | and then both chains validate to one graph |
| Signatures.HeadSharersAreExact | crates/mantis-chain/src/lib.rs:413-467 | the valid histories that share all covered fields with a valid one are those with its genesis whose signatures verify |
| Signatures.AcceptsMeans | crates/mantis-chain/src/lib.rs:413-428 | a signature text is accepted exactly when it decodes to 64 bytes the scheme accepts, and under the scoped format is in lower case |
| Signatures.HeadFixesExactly | crates/mantis-chain/src/lib.rs:124-128 | a head fixes every field exactly when each block accepts no signature text but its own |
| Signatures.ScopedHeadFixesExactly | crates/mantis-chain/src/lib.rs:124-128 | under the scoped format: exactly when each block has only one signature the scheme accepts |
| Signatures.HeadLeavesSignaturesOpen | crates/mantis-chain/src/lib.rs:413-467 | the valid histories that share all covered fields: same genesis, and each signature names 64 bytes the scheme accepts for that block, in lower case if scoped |
| Signatures.EqualHeadsDifferInSignatures | crates/mantis-chain/src/lib.rs:124-128 | valid histories with one head and no collision are related exactly like that |
| Signatures.RespellingKeepsValid | crates/mantis-chain/src/lib.rs:413-428 | every change of letter case in the signatures of a legacy history keeps it valid |
| Signatures.SecondSignatureSecondHistory | crates/mantis-chain/src/lib.rs:413-428 | in either format a second accepted signature for a block gives a second valid history with the same head |
| Signatures.LegacyHeadFixesExactly | crates/mantis-chain/src/lib.rs:124-128 | under the legacy format the head fixes every field exactly when each block has one accepted signature and a text for it without letters |
| Signatures.HeadLeavesSpellingOpen | crates/mantis-chain/src/lib.rs:124-128 | under every scheme whose signature of the first legacy block has a letter: two valid histories, all covered fields and heads equal, two spellings |
| Commitment.ExchangeIsExact | crates/mantis-chain/src/lib.rs:650-764 | offering a whole chain succeeds exactly when one hash sequence is a prefix of the other; the longer one results |
| Commitment.UnrelatedHistoriesDiffer | crates/mantis-chain/src/lib.rs:650-688 | a first differing index exists exactly when neither hash sequence is a prefix of the other |
| Commitment.DivergenceIsLocated | crates/mantis-chain/src/lib.rs:650-688 | a refused exchange reports the first index at which the histories differ |
| Commitment.ExchangeIsIdempotent | crates/mantis-chain/src/lib.rs:756-764 | offering what is already held changes nothing |
| Commitment.ExchangeConverges | crates/mantis-chain/src/lib.rs:756-764 | two prefix-related peers that exchange chains end with the same history and graph |
| Commitment.ExchangeSettles | crates/mantis-chain/src/lib.rs:756-764 | a second round appends nothing on either side |
| Ledger.MovesReachDraggedGraph | crates/mantis-app/src/state.rs:592-613 | the recorded moves turn the graph the drag began with into the dragged one, if no coordinate ended on the other zero |
| Ledger.GestureLosesNothing | crates/mantis-app/src/state.rs:488-622 | replaying the coalesced operations of any gesture reproduces the graph it left on screen up to the signs of zeros, and exactly that graph exactly when the gesture did not end on the other zero |
| Ledger.UnchangedRecordsNothing | crates/mantis-app/src/state.rs:523-613 | a gesture that leaves the graph as it found it records nothing, unless it holds a NaN; one that records nothing has left it so up to the signs of zeros |
| Ledger.MovesAreExact | crates/mantis-app/src/state.rs:592-613 | a drag records one move for each node that ended elsewhere, to where it ended, in ascending order |
| Ledger.UndoThenRedo | crates/mantis-app/src/state.rs:414-462 | undo keeps the books replayable and redo takes it back exactly |
| Ledger.RedoThenUndo | crates/mantis-app/src/state.rs:414-462 | redo keeps the books replayable and undo takes it back exactly |
| Ledger.UndosThenRedos | crates/mantis-app/src/state.rs:403-462 | k undos succeed exactly up to the undo depth, and k redos then restore pending and both histories |
| Ledger.UndoTakesBackEdit | crates/mantis-app/src/state.rs:342-462 | one Undo takes back one whole edit and nothing else, and Redo holds exactly that edit |
| Ledger.RebaseConserves | crates/mantis-app/src/state.rs:668-682 | kept and set-aside operations are the two halves of one order-preserving selection |
| Ledger.PickSplits | crates/mantis-app/src/state.rs:668-682 | the two halves of a selection partition the operations |
| Ledger.SetAsideMeansFailed | crates/mantis-app/src/state.rs:668-682 | an operation is set aside exactly when it fails on the graph built so far |
| Ledger.RebaseReplays | crates/mantis-app/src/state.rs:668-682 | what is kept replays to the merged graph |
| Ledger.CleanRebaseKeepsAll | crates/mantis-app/src/state.rs:668-682 | nothing is set aside exactly when all pending operations still replay |
| Sizes.JoinedJsonLength | crates/mantis-app/src/state.rs:223-228 | block bytes plus commas account for every byte of the serialized list |
| Sizes.BlockSizeIs | crates/mantis-app/src/state.rs:201-221 | a block's text is its covered text with hash and signature let in |
| Sizes.SameHeadSameSizes | crates/mantis-app/src/state.rs:201-221 | a cache whose head is the chain's head equals a recount, unless two blocks collide |
| Sizes.RefreshedHistory | crates/mantis-app/src/state.rs:201-221 | continuing the cache measures a hash-linked history that ends in the chain's head |
| Session.SettlingKeepsConsistent | crates/mantis-app/src/state.rs:523-622 | recording the gesture in flight keeps the session invariant with the graph untouched |
| Session.DragFrameKeepsConsistent | crates/mantis-app/src/state.rs:488-519 | a later frame of a parameter drag overwrites the earlier one |
| Session.MoveFrameKeepsConsistent | crates/mantis-app/src/state.rs:582-589 | a frame of a node drag succeeds and stays within the overlay |
| Session.ViewKeepsConsistent | crates/mantis-app/src/state.rs:252-280 | replay through any earlier block succeeds and is the view shown |
| Session.ViewSurvivesGrowth | crates/mantis-app/src/state.rs:252-280 | a view stays the replay of its block after the chain grew |
| Session.CommitKeepsConsistent | crates/mantis-app/src/state.rs:634-657 | sealing what is pending succeeds exactly when it is non-empty and finite, and the longer chain rebuilds the graph as faithfully as chain and pending did |
| Session.MergeKeepsConsistent | crates/mantis-app/src/state.rs:662-695 | the replay after an extension cannot fail and the kept operations restore the invariant |
| Session.AdoptedIsConsistent | crates/mantis-app/src/state.rs:699-724 | an adopted history with empty books satisfies the invariant |
| Session.Document.WithChain | crates/mantis-app/src/state.rs:89-123 | a new document satisfies the invariant |
| Session.Document.Snapshot | crates/mantis-app/src/state.rs:140-164 | so does one over a replayed snapshot |
| Session.Document.Restore | crates/mantis-app/src/state.rs:127-164 | succeeds exactly for a valid chain on which the pending operations replay; never a partial document |
| Session.Document.SetView | crates/mantis-app/src/state.rs:252-280 | enters time travel strictly below the head, leaves it otherwise, and settles the gesture first |
| Session.Document.Evaluate | crates/mantis-app/src/state.rs:287-294 | afterwards the output is that of the graph on display |
| Session.Document.InvalidateForEach | crates/mantis-app/src/state.rs:331-386 | an evaluation left clean after a batch is the one of the batch's result |
| Session.Document.ApplyOp | crates/mantis-app/src/state.rs:315-326 | settles the gesture, then applies and records one undo step, or reports the graph error and records nothing |
| Session.Document.SetParamOnce | crates/mantis-app/src/state.rs:552-558 | succeeds exactly for an existing node in the present, and the value is then read back |
| Session.Document.ApplyOps | crates/mantis-app/src/state.rs:331-351 | all or nothing, one undo step; a failing batch keeps even the gesture |
| Session.Document.UndoPending | crates/mantis-app/src/state.rs:414-436 | takes the books one undo back and rebuilds the graph; the replay cannot fail |
| Session.Document.RedoPending | crates/mantis-app/src/state.rs:439-462 | takes the books one redo forward and rebuilds the graph; the replay cannot fail |
| Session.Document.ReplayPending | crates/mantis-app/src/state.rs:464-473 | chain replay followed by the given operations |
| Session.Document.ParamDrag | crates/mantis-app/src/state.rs:488-519 | the value shows at once, nothing is recorded, another gesture is settled first |
| Session.Document.EndParamDrag | crates/mantis-app/src/state.rs:523-549 | one operation if the value changed and the node still exists, else none |
| Session.Document.BeginMove | crates/mantis-app/src/state.rs:565-579 | settles any gesture and remembers start positions of existing nodes |
| Session.Document.MoveLive | crates/mantis-app/src/state.rs:582-589 | moves exactly the dragged nodes, unrecorded |
| Session.Document.CollectMoves | crates/mantis-app/src/state.rs:592-606 | one move per node that ended elsewhere, in id order |
| Session.Document.EndMove | crates/mantis-app/src/state.rs:592-613 | records those moves as one undo step |
| Session.Document.EndGesture | crates/mantis-app/src/state.rs:616-622 | whatever the gesture, the books become the settled ones and the invariant holds |
| Session.Document.Commit | crates/mantis-app/src/state.rs:634-657 | seals everything pending exactly when it is non-empty and finite, under the author, key, time and message given, a blank message replaced; the new chain rebuilds the graph, the graph stays and the books are empty |
| Session.Document.RebasePending | crates/mantis-app/src/state.rs:668-682 | the loop that re-applies pending operations computes the rebase |
| Session.Document.MergeRemote | crates/mantis-app/src/state.rs:662-695 | extension, rebase, growing recovery; on error only the gesture has been settled |
| Session.Document.AdoptRemote | crates/mantis-app/src/state.rs:699-724 | succeeds exactly for a pristine document and a valid remote history |
| Session.Document.MeasureRest | crates/mantis-app/src/state.rs:201-221 | measuring only the uncovered blocks completes the recount |
| Session.Document.CacheChainSizes | crates/mantis-app/src/state.rs:201-221 | the refreshed cache is a recount of the chain, or two blocks collide |
| Session.Document.ChainByteSize | crates/mantis-app/src/state.rs:223-228 | the length of the chain's serialized text |
| Session.Document.ChainTotalOps | crates/mantis-app/src/state.rs:230-233 | the number of operations in the chain |
| Session.Document.BlockByteSize | crates/mantis-app/src/state.rs:235-243 | the length of one block's serialized text |
| Session.SessionGraphsAreWellFormed | crates/mantis-graph/src/graph.rs:182-263 | in every state of a session the edited and the displayed graph have no dangling wire, no doubly used input and no cycle |
| Session.ReplayMatches | crates/mantis-app/src/state.rs:47-60 | chain replay followed by pending is the working graph up to the signs of zeros, and exactly unless a gesture has ended on the other zero since the graph was last rebuilt |
| Session.DragAcrossZero | crates/mantis-app/src/state.rs:523-549 | the input on which it is not exact: a number dragged from positive to negative zero records nothing |
| Session.UndoAndRedo | crates/mantis-app/src/state.rs:414-462 | k undos and then k redos restore pending and both histories with the gesture in flight recorded, and the graph up to the signs of zeros, exactly unless a gesture ended on the other zero |
| Session.EditThenUndo | crates/mantis-app/src/state.rs:331-436 | applying a batch and undoing once gives back pending, undo history and graph as they were settled, with the batch alone to redo |
| Session.FinishThenUndo | crates/mantis-app/src/state.rs:414-613 | finishing a gesture and undoing once takes back all it recorded |
| Session.ShapeIsAllButLayout | crates/mantis-app/src/state.rs:366-386 | evaluation sees everything except where nodes stand |
| Session.CommitMessageMeans | crates/mantis-app/src/state.rs:644-648 | a message with a visible character is kept as it is, a blank one becomes "(no message)" |
| Session.DisplayedMeans | crates/mantis-app/src/state.rs:171-178 | on display is the working graph, or in time travel, which cannot be edited, the replay through the block looked at |
| Session.PristineMeans | crates/mantis-app/src/state.rs:247-249 | a document is pristine when it is a bare genesis with nothing pending |
| PushChunks.BodyGrows | crates/mantis-app/src/sync.rs:316-338 | the request text grows with the prefix, which justifies the binary search |
| PushChunks.FittingIsDownwardClosed | crates/mantis-app/src/sync.rs:272-354 | a shorter prefix of one that fits fits too |
| PushChunks.LimitsAre | crates/mantis-app/src/sync.rs:94-96 | at most 256 blocks and 50000 operations, and less than 32 MiB of text |
| PushChunks.BodyTellsItsParts | crates/mantis-app/src/sync.rs:316-338 | a request determines its base length, its base head and the text of its blocks |
| PushChunks.CountCandidates | crates/mantis-app/src/sync.rs:288-314 | the longest prefix within the block and operation limits, or the reason there is none |
| PushChunks.SearchBody | crates/mantis-app/src/sync.rs:326-348 | the longest candidate prefix strictly below the byte limit; the bounds never underflow |
| PushChunks.BuildPushChunk | crates/mantis-app/src/sync.rs:272-354 | the largest prefix that meets all three limits; it fails only on an illegal range or when the first block alone does not fit |
| Sync.IdentityIsExact | crates/mantis-app/src/app.rs:829-868 | a reply is of our project and history exactly when it names the requested project or none, has our genesis or none unless we are pristine, and with our genesis has our format and chain id |
| Sync.PushProgress.Begin | crates/mantis-app/src/sync.rs:165-179 | progress starts exactly at a local checkpoint, with the present length as frozen target; the two refusals are told apart |
| Sync.PushProgress.SurvivesGrowth | crates/mantis-app/src/sync.rs:155-195 | local commits during a push disturb nothing |
| Sync.PushProgress.MarkInflight | crates/mantis-app/src/sync.rs:197-206 | one chunk in flight, non-empty and within the target |
| Sync.PushProgress.Acknowledge | crates/mantis-app/src/sync.rs:211-247 | advances exactly on the chunk's end with the local head and the exact count; accepted chunks are contiguous and their total is acknowledged minus base |
| Sync.AcceptedPageMoves | crates/mantis-app/src/app.rs:1048-1085 | no accepted page passes the frozen target, and a page progresses exactly when it holds a block the chain lacks |
| Sync.ContiguousPageProgresses | crates/mantis-app/src/app.rs:1048-1085 | an accepted page that starts at the requested index strictly shrinks the distance to the target |
| Sync.RepeatedPageStalls | crates/mantis-app/src/app.rs:1048-1085 | pages of known blocks are accepted and append nothing |
| Peer.App.LocalCommit | crates/mantis-app/src/state.rs:634-657 | a commit between two replies succeeds exactly as a commit does, adds its block, and keeps the transfer's invariant |
| Peer.App.StartPull | crates/mantis-app/src/sync.rs:532-537 | a Pull starts only from idle |
| Peer.App.StartPush | crates/mantis-app/src/app.rs:1380-1390 | a Push starts only from idle and forgets an earlier one |
| Peer.App.HandlePullInfo | crates/mantis-app/src/app.rs:870-913 | it goes on exactly when the reply is of our project and history and there is something to fetch, from the start for a bare genesis and from our length otherwise; every report has its own condition; the page requested is the one the page handler expects, exactly unless the mark of a failed adoption is set and this Pull does not adopt |
| Peer.App.FetchOrSettle | crates/mantis-app/src/app.rs:883-912 | up to date, ahead or divergent exactly as the checkpoints say |
| Peer.App.HandlePullBlocks | crates/mantis-app/src/app.rs:1017-1103 | the chain stays valid and within the target; a page is refused, rejected or taken as its start and the history it leads to decide, and always refused if the remote has changed; success exactly at the target's length and head |
| Peer.App.HandlePage | crates/mantis-app/src/app.rs:1028-1103 | a page is refused, rejected or taken, exactly as its start and the history it leads to decide |
| Peer.StaleAdoptionStalls | crates/mantis-app/src/app.rs:870-1046 | with that mark set, a Pull of a remote that is merely ahead asks for the missing suffix and refuses every page of it |
| Peer.FailedAdoptionStalls | crates/mantis-app/src/app.rs:870-1046 | how the mark is left: from a fresh session, an adopting Pull loses its connection and the next Pull, of a remote with our own genesis and more blocks, refuses its page |
| Peer.SliceExtends | crates/mantis-chain/src/lib.rs:650-733 | the next slice of a valid history is accepted and appended whole |
| Peer.PullToEnd | crates/mantis-app/src/app.rs:1017-1103 | against a server that answers each request with the next non-empty slice of one valid history, the Pull opens it after at most one page for each missing block |
| Peer.PullAll | crates/mantis-app/src/app.rs:870-1103 | the same from the click on, for a Pull that adopts and one that merges |
| Peer.App.FinishPage | crates/mantis-app/src/app.rs:1074-1102 | continues exactly when the server points at the local length short of the target, reports success exactly at the target |
| Peer.App.TakePage | crates/mantis-app/src/app.rs:1061-1073 | adopts a whole valid history into a bare genesis with nothing pending, or merges; wholly or not at all |
| Peer.App.HandlePushInfo | crates/mantis-app/src/app.rs:915-972 | a Push starts exactly when the reply is of our project and history, grants write access, is a local checkpoint short of our length, and the next block fits; every report has its own condition |
| Peer.App.ComparePush | crates/mantis-app/src/app.rs:927-971 | the part of that decision made by comparing lengths and heads |
| Peer.App.BeginPush | crates/mantis-app/src/app.rs:956-971 | a push begins exactly when the next block fits, with the present length frozen and its first chunk in flight; otherwise nothing of it remains |
| Peer.App.PostNextPushChunk | crates/mantis-app/src/app.rs:1130-1155 | a request goes out exactly when the next block fits; it continues the acknowledged prefix, holds exactly those local blocks and as many as fit |
| Peer.App.HandlePushOk | crates/mantis-app/src/app.rs:974-1015 | a reply is refused exactly when it is not the end of the chunk in flight with our head and count; an accepted one completes exactly at the target with the right total, and short of it sends the next chunk exactly when a block fits |
| Peer.PushToEnd | crates/mantis-app/src/app.rs:974-1015 | against a server that acknowledges every chunk, a Push whose blocks each fit ends at the target after at most one chunk for each block |
| Peer.PushAll | crates/mantis-app/src/app.rs:915-1015 | the same from the click on |
| Peer.App.Process | crates/mantis-app/src/app.rs:698-797 | every event is handled by the handler of its flow, with that handler's whole outcome; the local history stays a prefix, except that a bare genesis may be replaced by adoption; a failure or conflict ends the flow, drops a Push, keeps the mark of a Pull and leaves the document alone; other replies are ignored |
| Durability.OldestCommits | crates/mantis-app/src/workspace.rs:338-343 | when transactions commit in issue order, a report of the newest required save means the store holds the current key |
| Durability.OneAborts | crates/mantis-app/src/workspace.rs:345-349 | losing any transaction keeps that meaning |
| Durability.Keeper.PersistNow | crates/mantis-app/src/app.rs:470-486 | a save carries the current key in a new generation, or changes nothing when storage is off |
| Durability.Keeper.ProcessNext | crates/mantis-app/src/app.rs:242-293 | every event keeps the invariant; which key, readiness, recovery, disablement, confirmation and required generation result |
| Durability.Keeper.HandleLoad | crates/mantis-app/src/app.rs:242-278 | a readable catalog is installed and confirmed; an unreadable one blocks saving |
| Durability.Keeper.ImportKey | crates/mantis-app/src/app.rs:1905-1918 | an imported key is unconfirmed until a save that carries it is durable |
| Durability.Keeper.Save | crates/mantis-app/src/app.rs:2196-2210 | the legacy copy is erased only when the store holds a catalog with the current key, before and after |
| Durability.Keeper.QuietStoreIsConfirmed | crates/mantis-app/src/app.rs:2295-2310 | once all outcomes are processed and none failed, the next save does erase it |
| Topology.GreedyIsLexLeast | crates/mantis-app/src/design_panel.rs:59-72 | no topological order is lexicographically smaller |
| Topology.ListedIsNotBelowCycle | crates/mantis-app/src/design_panel.rs:59-72 | no sorted node has a cycle at or above it |
| Topology.UnlistedIsBelowCycle | crates/mantis-app/src/design_panel.rs:73-80 | every node left over has one |
| Topology.LongestPathStep | crates/mantis-app/src/design_panel.rs:61-65 | the longest path to a node is one more than the longest to one of its sources |
| Topology.LoopStep | crates/mantis-app/src/design_panel.rs:59-72 | one round keeps greedy order, exact counters, exact worklist and exact depths |
| Topology.OrderedMeans | crates/mantis-app/src/design_panel.rs:27-81 | a greedy order that stopped has sorted exactly the nodes below no cycle; for acyclic graphs it is the least topological order |
| Topology.HistoryOrderIsTopological | crates/mantis-app/src/design_panel.rs:27-81 | for the graph of every valid history the whole order is the least topological order with longest-path depths |
| Topology.DisplayedOrderIsTopological | crates/mantis-app/src/design_panel.rs:206 | so it is for whatever a document displays, gestures in flight and earlier blocks included |
| Topology.Wire | crates/mantis-app/src/design_panel.rs:33-46 | source and target sets, parallel wires counted once |
| Topology.Release | crates/mantis-app/src/design_panel.rs:61-71 | each target's counter drops once and never underflows, its depth is raised, and it is ready at zero |
| Topology.SortByReadiness | crates/mantis-app/src/design_panel.rs:47-72 | the worklist loop ends with the greedy order, nothing ready, final depths |
| Topology.Navigator.Refresh | crates/mantis-app/src/design_panel.rs:27-81 | whatever was cached: every node once, the sorted part exactly the nodes below no cycle with longest-path depths, the rest ascending; acyclic graphs get the least topological order; the neighbours shown are all sources and targets |
| ImportPlans.Prune | crates/mantis-app/src/grasshopper.rs:822-850 | the exclusion loop ends with the greatest self-contained set of plans |
| ImportPlans.PruningIgnoresOrder | crates/mantis-app/src/grasshopper.rs:822-850 | that set does not depend on the order of the plans |
| ImportPlans.SelfContainedMeans | crates/mantis-app/src/grasshopper.rs:822-850 | a set of plans stands on its own exactly when every wire source of its plans is an endpoint at a node one of them adds |
| ImportPlans.SurvivorsAreWired | crates/mantis-app/src/grasshopper.rs:855-863 | after pruning the lookup of every wire source succeeds |
| ImportPlans.WiresStartAtSurvivors | crates/mantis-app/src/grasshopper.rs:855-863 | and every wire starts at a node a surviving plan adds |
| ImportPlans.Assemble | crates/mantis-app/src/grasshopper.rs:852-881 | roots, operations and then wires of the surviving plans, each in plan order, exactly if there are any and they replay on an empty graph |
| ImportPlans.SurvivorsKeepOrder | crates/mantis-app/src/grasshopper.rs:852-855 | the survivors of two lists are those of the first followed by those of the second |
| ImportPlans.RootsKeepOrder | crates/mantis-app/src/grasshopper.rs:855-864 | and so are their roots |
| ImportPlans.OpsKeepOrder | crates/mantis-app/src/grasshopper.rs:855-864 | and their operations |
| ImportPlans.WiresKeepOrder | crates/mantis-app/src/grasshopper.rs:856-865 | and their wires |
| ImportPlans.OnePlanYields | crates/mantis-app/src/grasshopper.rs:855-864 | one plan yields its root and its operations |
| ImportPlans.OnePlanWires | crates/mantis-app/src/grasshopper.rs:856-861 | and each of its wires, connected from the endpoint of its source to its own input |
| RecipeLayout.PassCoversMore | crates/mantis-app/src/commands.rs:524-540 | each pass accounts for paths one wire longer |
| RecipeLayout.RelaxedIsLongest | crates/mantis-app/src/commands.rs:521-540 | as many passes as nodes, or a stable one, reach the longest path on every acyclic recipe, and each wire then descends |
| RecipeLayout.CellsAreDistinct | crates/mantis-app/src/commands.rs:547-555 | rows handed out in operation order give every node a cell of its own |
| RecipeLayout.CellsAreApart | crates/mantis-app/src/commands.rs:547-555 | columns are 240 apart and rows 155 |
| RecipeLayout.CountIsExact | crates/mantis-app/src/commands.rs:547-555 | a row is the number of earlier operations that add a node in that column |
| RecipeLayout.InternalArcsAre | crates/mantis-app/src/commands.rs:526-529 | the wires that count are those between added nodes |
| RecipeLayout.Relax | crates/mantis-app/src/commands.rs:521-540 | the bounded loop computes those depths; on cyclic recipes every depth is still some path's length |
| RecipeLayout.Place | crates/mantis-app/src/commands.rs:547-555 | column by depth, row by the earlier additions in that column, no two added nodes in one cell |
| RecipeLayout.RightOf | crates/mantis-app/src/commands.rs:541-546 | the least column at or right of the origin clear of every document node |
| RecipeLayout.Recipe.Layout | crates/mantis-app/src/commands.rs:521-556 | only positions change; each node in the column of its longest path, in operation order, in a cell of its own, right of the document |
| Skyline.SortedIsInOrder | crates/mantis-app/src/cad_io.rs:1016-1021 | the layout order is sorted by row, column and id, negative zero first, and holds the same nodes |
| Skyline.ClearedSpotRests | crates/mantis-app/src/cad_io.rs:1027-1032 | clearing the skyline in every covered column clears exactly the earlier nodes that share one |
| Skyline.RaisedSkylineIsExact | crates/mantis-app/src/cad_io.rs:1040-1042 | raising the covered columns keeps the skyline the lowest foot over each column |
| Skyline.Drop | crates/mantis-app/src/cad_io.rs:1027-1042 | one node lands at its scaled top or on a level it covers, and raises exactly its columns |
| Skyline.Lay | crates/mantis-app/src/cad_io.rs:1022-1045 | every node lies at the highest legal place, and the result map reports it |
| Skyline.ImportPositions | crates/mantis-app/src/cad_io.rs:1000-1045 | succeeds exactly for positions in range, with a laid-out result |
| Skyline.NothingOverlaps | crates/mantis-app/src/cad_io.rs:1016-1045 | where spans meet the later node starts the earlier one's height and the margin below it; no node is above its scaled place |
| Skyline.HeightIsExact | crates/mantis-app/src/cad_io.rs:1033-1039 | 60 plus 20 for each port and 42 for a slider's control, but at least 110 |
| Skyline.ScalingKeepsPicture | crates/mantis-app/src/cad_io.rs:1022-1026 | distances grow by one half and the outermost nodes lie on zero |
| Skyline.ColumnIsExact | crates/mantis-app/src/cad_io.rs:1027-1029 | columns are 120 wide, starting from zero |
| Skyline.RangeIsExact | crates/mantis-app/src/cad_io.rs:1011-1015 | positions in range are the finite ones up to a thousand million either way |
| Skyline.LaidIsUnique | crates/mantis-app/src/cad_io.rs:1016-1045 | these promises determine every position |
| Skyline.SharedColumnIsNear | crates/mantis-app/src/cad_io.rs:1027-1032 | nodes a full column apart never push each other |
| Skyline.ReportedIdsAreTheAdded | crates/mantis-app/src/cad_io.rs:1000-1045 | the returned map holds exactly the added ids |
| Skyline.ReportedPositionsAreClear | crates/mantis-app/src/cad_io.rs:1016-1045 | two returned positions whose spans meet differ by at least the least height and the margin |

## Left out

- Integer widths: indexes and counters are unbounded naturals, except the wrapping revision counter; the checked additions and conversions that guard 64-bit overflow are not modelled.
- Rounding: layout, skyline and recipe positions are reals; single-precision rounding is not modelled.
- Cryptography and JSON internals: SHA-256, Ed25519 and the text of the covered fields are arguments constrained only by the laws a theorem names; a character is a byte.
- Evaluation: the evaluator is any pure function of the graph without positions, and its argument stands for its output; its dirty tracking per node and the scene refresh flag are not modelled.
- Error texts: errors carry their kind, position and cause, not their wording.
- Dead branches: the code's handling of a failed replay inside undo, redo, merge and time travel, and of a refused start of push progress in the push handler, is not written out, because the model proves it cannot be reached.
- RecipeLayout.Recipe.Layout: takes the finite columns of the document's nodes, so it does not model a document holding a non-finite position.
- Durability.Keeper.ImportKey: requires that storage has been read and is not waiting for recovery, which the interface enforces by hiding everything else behind the recovery screen.
- Durability storage: one process, transactions that commit in issue order, and loads that report the present contents or an error; saves issued before the database has opened are not modelled, because none is issued before the first load report.
- Peer.App.Process: preflight, project listing, background checks and the busy interlock only choose which flow starts; they are not modelled.
- Server: an arbitrary responder; its own checks and the admin tool are outside.
- Audit, chain id display, author activity, key backup, catalogs and workspace switching: reports and plumbing over the modelled parts.
- GHX text, registries and the building of plans from objects: only pruning and assembly of plans are modelled, over any plans and endpoints.
- Viewport, command parsing, node drawing, geometry kernel, file dialogs and scripts: interface code and library calls.
