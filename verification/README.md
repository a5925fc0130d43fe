# ActiveChain: a verified model of its proof-carrying core

This project models the parts of ActiveChain where a small piece of byte-level or stateful code carries a large
promise, and proves the promise for every input, every run or every reachable state.

- **Accumulators** (`Keys`, `Digests`, `SparseSet`, `ReferenceSet`, `History`, `ReferenceHistory`, `ByteHashes`). The
  root-only client of the 384-level sparse set and of the 32-level header history, and the reference structures that
  serve it. The hash is a parameter. Soundness needs only that it does not collide on the finitely many byte strings
  of the check at hand: tagged preimages never coincide, so `ByteHashes` carries every theorem over to the byte hash.
- **Evidence settlement ledger** (`Ledger`, `LedgerAnswers`, `LedgerHistory`, `LedgerRestore`, `LedgerRuns`, `Codecs`,
  `LedgerCodec`, `LedgerLayout`, `LedgerFiles`, `LedgerObjects`, `OrderedMaps`). One settle transition and when it
  gives each answer, the coherence every reachable ledger has, the restore checks, the canonical bytes of a snapshot,
  and the durable wrapper with write failures before and after the rename and with restarts. A codec is put together
  from rows of integers, judged values, pairs and counted lists, and each way of putting them together keeps it exact:
  reading undoes writing, and nothing but what was written is read.
- **Attempt journal** (`Journal`, `JournalCodec`, `JournalRuns`, `JournalDecisions`, `JournalObjects`). The dispatch
  journal of the nTZS connector, its byte snapshot, and what it decides over every interleaving of prepare, mark, bind,
  failed saves and restarts.
- **Execution proof** (`Execution`, `Air`, `BlockCodec`, `Receipts`, `ReceiptReader`, `PublicElements`). The
  constraint system against plain execution of a block, the strict codecs of blocks and receipts, and the embedding of
  public inputs into field elements.
- **Independent verifier** (`Scopes`, `Capabilities`, `Policies`, `Lengths`, `Envelopes`). Capability attenuation over
  bit-prefix scopes, the deny-overrides policy evaluator, and the canonical length and envelope framing, with the
  second length decoder written in Python.
- **Amounts and surfaces** (`Decimals`, `NtzsAmounts`, `ThunesAmounts`, `Interfaces`, `Surfaces`). Two decimal
  converters that were written apart, and the validation of agent-drawn surfaces: the JSON they carry, their
  components, and the depth of the graph those form.

Shared helpers are in `Octets`, `Widths`, `Arithmetic`, `Sequences` and `Options`. Code that updates state in place is a
class or a method with loops, proved equal to a function on values; the theorems are about that function.

Two round trips that one would expect do not hold for all values. Each has a lemma with a concrete value that fails
and a lemma with the exact condition: a journal whose snapshot its own decoder refuses (`ZeroRequestIsRefused`,
`SnapshotRoundTrip`: exactly when a request commitment is zero), and a structurally valid receipt whose bytes the
decoder refuses (`OtherVersionIsRefused`, `ReceiptRoundTrip`: exactly when the header's codec version is not 1).

`dafny verify dfyconfig.toml` checks the whole project. No proof depends on Dafny's automatic induction.

## Model

| member | source | states |
|---|---|---|
| Keys.MaskIsShift | crates/accumulator/src/lib.rs:161-187 | the tables of one-bit and leading-bits masks are the shifts of the source |
| Keys.KeyPrefixBits | crates/accumulator/src/lib.rs:161-174 | clearing a key byte by byte and mask by mask after a depth keeps exactly the first depth bits and zeroes the rest |
| Keys.ToggleKeyBitBits | crates/accumulator/src/lib.rs:176-178 | the byte-level toggle changes exactly one of the 384 bits |
| Keys.SetKeyBitBits | crates/accumulator/src/lib.rs:180-187 | the byte-level set or clear writes exactly one of the 384 bits |
| Keys.KeyBitsInjective | crates/accumulator/src/lib.rs:366-368 | a key is determined by the bits that the path walk reads |
| Digests.EncodeInjective | crates/accumulator/src/lib.rs:374-421 | the tagged byte strings of leaves, nodes, empty leaves and roots never coincide: equal bytes mean equal kind, domain, depth, count and digests |
| Digests.DomainNumbers | crates/accumulator/src/lib.rs:32-40 | the five domains are numbered from one in their order |
| Digests.EmptySetLeafLayout | crates/accumulator/src/lib.rs:374-376 | the bytes hashed for an empty set leaf |
| Digests.SetLeafLayout | crates/accumulator/src/lib.rs:378-380 | the bytes hashed for a set leaf, by their offsets |
| Digests.SetNodeLayout | crates/accumulator/src/lib.rs:382-390 | the bytes hashed for a set node, left before right, by their offsets |
| Digests.SetRootLayout | crates/accumulator/src/lib.rs:392-394 | the bytes hashed for a set root, by their offsets |
| Digests.EmptyHistoryLeafLayout | crates/accumulator/src/lib.rs:396-398 | the bytes hashed for an empty history leaf |
| Digests.HistoryLeafLayout | crates/accumulator/src/lib.rs:400-402 | the bytes hashed for a history leaf, by their offsets |
| Digests.HistoryNodeLayout | crates/accumulator/src/lib.rs:404-406 | the bytes hashed for a history node, left before right, by their offsets |
| Digests.HistoryRootLayout | crates/accumulator/src/lib.rs:408-410 | the bytes hashed for a history root, by their offsets |
| Digests.KindsDiffer | crates/accumulator/src/lib.rs:374-421 | preimages of two different kinds never have the same bytes, whatever they carry |
| Digests.TaggedDigestCollisionFree | crates/accumulator/src/lib.rs:412-421 | a byte hash without collisions on the encodings of some preimages gives a digest without collisions on the preimages |
| SparseSet.FoldKey | crates/accumulator/src/lib.rs:311-320 | the fold loop computes the root of the key's path from a leaf and 384 siblings |
| SparseSet.CommitmentInsert | crates/accumulator/src/lib.rs:63-83 | the client's insert is the transition InsertSpec, with every refusal in its order |
| SparseSet.SubtreeEmpty | crates/accumulator/src/lib.rs:348-355 | a subtree without keys has the digest of the empty table at its depth |
| SparseSet.SubtreeFrame | crates/accumulator/src/lib.rs:133-158 | inserting a key changes no node off its path |
| SparseSet.FoldHonest | crates/accumulator/src/lib.rs:311-320 | folding up the tree's own siblings gives every node of the path, before and after the key is in |
| SparseSet.HonestWitnessAccepted | crates/accumulator/src/lib.rs:63-83 | for every set and every absent non-zero key the generated witness is accepted and leads to the commitment of the larger set |
| SparseSet.MatchingFoldIsHonest | crates/accumulator/src/lib.rs:311-320 | any siblings that fold to the committed root are the tree's own, and the key is absent |
| SparseSet.AcceptedInsertIsSound | crates/accumulator/src/lib.rs:63-83 | a witness with any siblings that is accepted against the commitment of a set is the honest one for that key and proves it absent, and the client moves to exactly the commitment of the set with the key |
| SparseSet.InsertAnswers | crates/accumulator/src/lib.rs:63-83 | each answer of an insert against the commitment of a set has its own condition: a witness for another key, a zero key or too few siblings; a present key or siblings that are not the tree's; a full count; otherwise success |
| SparseSet.ReplayRejected | crates/accumulator/src/lib.rs:63-83 | no witness whatever inserts a key that is already in |
| SparseSet.ClientRunIsSound | crates/accumulator/src/lib.rs:63-83 | over every accepted run of insertions the client's commitment is that of the keys inserted, and none was inserted twice |
| SparseSet.OrderIndependent | crates/accumulator/src/lib.rs:133-158 | two accepted runs with the same keys end in the same commitment, in whatever order |
| SparseSet.HonestRunAccepted | crates/accumulator/src/lib.rs:114-131 | distinct non-zero keys can be inserted in any order with generated witnesses, and client and reference agree |
| ByteHashes.HashedInsertIsSound | crates/accumulator/src/lib.rs:63-83 | for the digest made from a byte hash, an insertion accepted with any siblings is sound when the hash has no collision among the finitely many byte strings of that check |
| ByteHashes.HashedRunIsSound | crates/accumulator/src/lib.rs:63-83 | every accepted run is sound when the byte hash has no collision among the strings of each of its checks |
| ReferenceSets.SetEmptyHashes | crates/accumulator/src/lib.rs:348-355 | the table filled from the leaf upward holds the empty digest of every depth |
| ReferenceSets.ReferenceSet.constructor | crates/accumulator/src/lib.rs:103-107 | a new reference set is valid, empty, and has the commitment of the empty set |
| ReferenceSets.ReferenceSet.SiblingOf | crates/accumulator/src/lib.rs:114-131 | a cached or defaulted sibling is the full recomputation of that subtree |
| ReferenceSets.ReferenceSet.WitnessFor | crates/accumulator/src/lib.rs:114-131 | a witness is refused for a zero or present key and otherwise is the honest one |
| ReferenceSets.ReferenceSet.Insert | crates/accumulator/src/lib.rs:133-158 | an insert keeps every cached node equal to full recomputation, every missing node an empty subtree, and the commitment that of the key set; a duplicate changes nothing |
| ReferenceSets.ReferenceSet.Commitment | crates/accumulator/src/lib.rs:110-112 | the commitment handed out is that of the key set |
| ReferenceSets.InsertInLockstep | crates/accumulator/src/lib.rs:114-158 | over every list of keys, repeated and zero ones included, a root-only client fed with the reference's witnesses stays at the reference's commitment, which is that of the keys taken |
| History.FoldHistory | crates/accumulator/src/lib.rs:322-331 | the fold loop computes the root of the index's path |
| History.CommitmentAppend | crates/accumulator/src/lib.rs:209-232 | the client's append is the transition AppendSpec, with every refusal in its order |
| History.CommitmentVerify | crates/accumulator/src/lib.rs:234-250 | the client's check of a proof is VerifySpec, with every refusal in its order |
| History.AbsenceWitnessAccepted | crates/accumulator/src/lib.rs:209-232 | the generated absence witness lets the client append, ending in the recomputed commitment |
| History.ArchivedProofAccepted | crates/accumulator/src/lib.rs:234-250 | the generated proof of every archived index is accepted |
| History.AcceptedProofIsSound | crates/accumulator/src/lib.rs:234-250 | a proof with any siblings that is accepted names exactly the header stored at its index |
| History.VerifyAnswers | crates/accumulator/src/lib.rs:234-250 | a proof is out of bounds, has a wrong root, or verifies exactly when it has the archived header and that index's own siblings |
| History.AcceptedAppendIsSound | crates/accumulator/src/lib.rs:209-232 | an append accepted with any absence witness moves to the commitment of the history with that header at its end |
| History.AppendAnswers | crates/accumulator/src/lib.rs:209-232 | each answer of an append against the commitment of an archive has its own condition, and it succeeds exactly on the first free place's own siblings while the index fits |
| History.HistoryRunIsSound | crates/accumulator/src/lib.rs:209-232 | over every accepted run the client's commitment is that of the headers appended, in order |
| History.RunThenProof | crates/accumulator/src/lib.rs:234-250 | after any accepted run, an accepted proof names the header that was appended at that index |
| ByteHashes.HashedProofIsSound | crates/accumulator/src/lib.rs:234-250 | an accepted proof names the archived header when the byte hash has no collision among the strings of that check |
| ByteHashes.HashedAppendIsSound | crates/accumulator/src/lib.rs:209-232 | an accepted append moves to the history with that header, under the same condition on its check |
| ByteHashes.HashedRunThenProof | crates/accumulator/src/lib.rs:209-250 | after any accepted run of appends an accepted proof names the header appended at its index, under that condition on each check |
| ReferenceHistories.HistoryEmptyHashes | crates/accumulator/src/lib.rs:357-364 | the table filled from the leaf upward holds the empty digest of every depth |
| ReferenceHistories.SliceIsPartitioned | crates/accumulator/src/lib.rs:333-346 | the slice that is split at a level is always partitioned by that level's index bit |
| ReferenceHistories.LeafSliceIsSingle | crates/accumulator/src/lib.rs:333-346 | at depth 32 the slice holds at most one entry |
| ReferenceHistories.SubtreeIsTree | crates/accumulator/src/lib.rs:333-346 | splitting the sorted slice level by level recomputes the tree of the headers |
| ReferenceHistories.ProofFor | crates/accumulator/src/lib.rs:289-309 | narrowing the candidates level by level yields the siblings of the index's path |
| ReferenceHistories.ReferenceHistory.Append | crates/accumulator/src/lib.rs:280-286 | an append puts the header at the end; a zero header or a full history changes nothing |
| ReferenceHistories.ReferenceHistory.Commitment | crates/accumulator/src/lib.rs:260-268 | the recomputed commitment is that of the headers |
| ReferenceHistories.ReferenceHistory.AbsenceWitness | crates/accumulator/src/lib.rs:270-273 | the absence witness is the path of the next free index |
| ReferenceHistories.ReferenceHistory.Proof | crates/accumulator/src/lib.rs:275-278 | a proof is given for every archived index and for no other |
| ReferenceHistories.AppendInLockstep | crates/accumulator/src/lib.rs:260-286 | over every list of headers, zero ones and ones past the last index included, a root-only client fed with absence witnesses stays at the commitment of the reference, and accepts its proof of every header archived |
| Ledger.ErrorsAndRepeatsChangeNothing | crates/application-primitives/src/evidence_settlement.rs:687-806 | every error and every repeat leaves the whole ledger as it was |
| Ledger.SettleConserves | crates/application-primitives/src/evidence_settlement.rs:687-806 | a settlement leaves the mathematical total of all balances and the set of accounts unchanged |
| LedgerAnswers.FinalityWellFormedExactly | crates/application-primitives/src/evidence_settlement.rs:60-101 | a finality reference is accepted exactly when none of its nine fields is zero and it refers to the statement for its own evidence |
| LedgerAnswers.InstructionWellFormedExactly | crates/application-primitives/src/evidence_settlement.rs:195-240 | an instruction is accepted exactly when none of its fields is zero, payer and executor differ, and the amount fits |
| LedgerAnswers.FindsFirstEvent | crates/application-primitives/src/evidence_settlement.rs:727-737 | the search for an event succeeds exactly when the settlement has one, and gives the first |
| LedgerAnswers.DeniedExactly | crates/application-primitives/src/evidence_settlement.rs:694-719 | the authority is denied exactly when caller, instruction, chain or unit is not the ledger's, and the finality is invalid exactly when then a proof, the statement, or one of chain, genesis, revisions, transaction, height and block is not the instruction's |
| LedgerAnswers.RefusedExactly | crates/application-primitives/src/evidence_settlement.rs:739-766 | capacity, unknown account, insufficient balance and overflow, each exactly when, told from balances, counts and widths |
| LedgerAnswers.RepeatedExactly | crates/application-primitives/src/evidence_settlement.rs:720-738 | conflict, invalid state and duplicate, each exactly when, told from the digest of evidence, agreement and policy version; a duplicate answers with the stored record and the first event |
| LedgerAnswers.SucceedsExactly | crates/application-primitives/src/evidence_settlement.rs:687-806 | value moves exactly when the caller is entitled, the evidence proven, the triple free, and room, accounts, balance and widths suffice; no other error exists |
| LedgerAnswers.FirstSettlementMoves | crates/application-primitives/src/evidence_settlement.rs:739-806 | a first settlement takes the amount from the payer, gives it to the executor, touches no other account, indexes the triple, and adds one record and one event |
| LedgerAnswers.FirstSettlementRecords | crates/application-primitives/src/evidence_settlement.rs:767-800 | every field of the new record and of the new event, in terms of the call and of the ledgers before and after |
| LedgerHistory.SettleKeepsCoherent | crates/application-primitives/src/evidence_settlement.rs:687-806 | every settle call keeps the ledger coherent: some opening balances from which the records replay to the present ones, with each before and after value and commitment |
| LedgerHistory.RecordsExact | crates/application-primitives/src/evidence_settlement.rs:909-973 | in a coherent ledger the stored settlements are exactly the records of the history, each under its own id |
| LedgerHistory.IndexExact | crates/application-primitives/src/evidence_settlement.rs:909-973 | every entry of a coherent ledger's idempotency index is the pair of ids of one of its records |
| LedgerHistory.HistoryConserves | crates/application-primitives/src/evidence_settlement.rs:839-843 | the total of the present balances equals the total of the opening ones |
| LedgerHistory.NewStateCoherent | crates/application-primitives/src/evidence_settlement.rs:654-684 | a newly opened ledger is coherent |
| LedgerRestore.StateOfSnapshotOf | crates/application-primitives/src/evidence_settlement.rs:882-897 | collecting the ordered entries of a snapshot gives the ledger's maps back |
| LedgerRestore.SnapshotOfStateOf | crates/application-primitives/src/evidence_settlement.rs:1080-1119 | a strictly ordered snapshot is the snapshot of the ledger it is read as |
| LedgerRestore.UndoSound | crates/application-primitives/src/evidence_settlement.rs:909-973 | when undoing the records from the last to the first succeeds, replaying them from what is left reproduces every balance and commitment |
| LedgerRestore.UndoComplete | crates/application-primitives/src/evidence_settlement.rs:909-973 | the records of a real history can always be undone |
| LedgerRestore.UndoRecords | crates/application-primitives/src/evidence_settlement.rs:909-973 | the undo loop over a mutable balance map is the undo function |
| LedgerRestore.ValidateRestoredState | crates/application-primitives/src/evidence_settlement.rs:909-973 | the validation accepts exactly the states whose sorted records are numbered for the ledger and can be undone to the first |
| LedgerRestore.AcceptedIsCoherent | crates/application-primitives/src/evidence_settlement.rs:903-973 | every accepted snapshot is a replayable history with its index exact and its events one to one with its records |
| LedgerRestore.CoherentIsAccepted | crates/application-primitives/src/evidence_settlement.rs:903-973 | every strictly ordered snapshot that reads as a coherent ledger is accepted, so AcceptedIsCoherent is exact |
| LedgerRestore.Restore | crates/application-primitives/src/evidence_settlement.rs:1080-1119 | a decoded snapshot becomes a ledger if and only if it is the ordered listing of a replayable history, and is an invalid state otherwise |
| LedgerRestore.SnapshotRestores | crates/application-primitives/src/evidence_settlement.rs:882-907 | the snapshot of a coherent ledger is accepted, and gives back the same ledger |
| LedgerRestore.RestoredIsReplayable | crates/application-primitives/src/evidence_settlement.rs:903-973 | for whatever restore accepts there are opening balances from which the records in sequence order produce the present ones, with equal totals |
| LedgerRuns.RunKeepsCoherent | crates/application-primitives/src/evidence_settlement.rs:687-806 | every ledger reached by any sequence of settle calls from a coherent one is coherent, with the same total |
| LedgerRuns.ReachedLedgerRestores | crates/application-primitives/src/evidence_settlement.rs:882-907 | the snapshot of every ledger reached from a new one by settle calls is accepted and gives back that ledger |
| LedgerRuns.HeldEverAfter | crates/application-primitives/src/evidence_settlement.rs:687-806 | a settlement once made is held by every later ledger of the run |
| LedgerRuns.ExactlyOnce | crates/application-primitives/src/evidence_settlement.rs:242-256 | over any run, each triple of evidence, agreement and policy version moves value at most once; exact repeats that are entitled and proven return the original record and event, and others conflict |
| LedgerRuns.EveryRecordWasProven | crates/application-primitives/src/evidence_settlement.rs:687-806 | in any run each record that was not there at the start was the answer to a call of the ledger's authority whose evidence was proven |
| LedgerRuns.CreatedIsSound | crates/application-primitives/src/evidence_settlement.rs:1220-1231 | what creating leaves, a coherent ledger and the file of its snapshot, is where durable runs start |
| LedgerRuns.RestartNeverFails | crates/application-primitives/src/evidence_settlement.rs:1233-1238 | in any reachable state of the durable ledger the file can be opened again |
| LedgerRuns.DurableAnswers | crates/application-primitives/src/evidence_settlement.rs:1244-1257 | for every machine, call and write outcome: an error leaves the memory alone, a refused settlement or a failure before the rename leaves the whole machine alone, an answer is given exactly when the write succeeded, and a failure after the rename leaves the settlement in the file only |
| LedgerRuns.RetryAfterFailedSync | crates/application-primitives/src/evidence_settlement.rs:1244-1276 | after a failure behind the rename, the same call without a restart is answered as a first attempt is, and after a restart as a duplicate of the settlement that was refused |
| LedgerRuns.StepKeepsSound | crates/application-primitives/src/evidence_settlement.rs:1244-1276 | a durable settle with any write outcome, or a restart, keeps memory and file both replayable histories over the run's instructions, with the same total |
| LedgerRuns.AcknowledgedIsAnswer | crates/application-primitives/src/evidence_settlement.rs:1244-1257 | the acknowledged outcomes of a run are exactly the successful answers of the durable settle |
| LedgerRuns.AcknowledgedSurvives | crates/application-primitives/src/evidence_settlement.rs:1244-1276 | in any run of durable settles, failed writes and restarts, every acknowledged settlement is in memory and on disk ever after |
| LedgerRuns.AcknowledgedOnce | crates/application-primitives/src/evidence_settlement.rs:1244-1257 | of two acknowledged answers for one triple in such a run the second repeats the first one's record and event |
| Codecs.ReadLength | crates/canonical-codec/src/lib.rs:311-332 | the loop of the Rust length decoder, with its early test of the fifth byte, takes exactly the lengths that the Go decoder takes, within the maximum |
| Codecs.ReadItems | crates/application-primitives/src/evidence_settlement.rs:1159-1178 | the item loops are the list decoder |
| Codecs.RowIsExact | crates/canonical-codec/src/lib.rs:161-308 | a row of big-endian integers is read back from its bytes, and nothing else is read as a row |
| Codecs.ShapedIsExact | crates/application-primitives/src/evidence_settlement.rs:139-168 | a value that is built from parts and judged is coded exactly when its parts are |
| Codecs.BothIsExact | crates/application-primitives/src/evidence_settlement.rs:300-316 | a pair of exact codecs is exact |
| Codecs.ListIsExact | crates/application-primitives/src/evidence_settlement.rs:1131-1178 | a length prefix and that many items are coded exactly when the items are |
| Codecs.BodyInExactly | crates/canonical-codec/src/lib.rs:380-402 | an input is inspected to a body if and only if it is the envelope of that body within the maximum |
| Codecs.DecodesExactly | crates/canonical-codec/src/lib.rs:405-438 | with an exact codec an input decodes to a value if and only if the value can be written and the input is its envelope |
| LedgerCodec.InstructionIsExact | crates/application-primitives/src/evidence_settlement.rs:139-337 | finality references and instructions are coded exactly, field by field |
| LedgerCodec.RecordIsExact | crates/application-primitives/src/evidence_settlement.rs:485-535 | records are coded exactly |
| LedgerCodec.EventIsExact | crates/application-primitives/src/evidence_settlement.rs:586-626 | reputation events are coded exactly |
| LedgerCodec.SnapshotIsExact | crates/application-primitives/src/evidence_settlement.rs:1126-1189 | snapshots are coded exactly |
| LedgerLayout.FinalityFields | crates/application-primitives/src/evidence_settlement.rs:139-151 | a finality reference is written as its nine fields in their widths and order |
| LedgerLayout.InstructionFields | crates/application-primitives/src/evidence_settlement.rs:300-316 | an instruction is written as its finality reference and its twelve terms in their widths and order |
| LedgerLayout.RecordFields | crates/application-primitives/src/evidence_settlement.rs:485-498 | a record is written as two ids, its instruction and seven numbers |
| LedgerLayout.EventFields | crates/application-primitives/src/evidence_settlement.rs:586-598 | a reputation event is written as its nine fields in their widths and order |
| LedgerLayout.SnapshotFields | crates/application-primitives/src/evidence_settlement.rs:1126-1152 | a snapshot is written as chain, unit, authority, accounts, settlements, index, events and sequence |
| LedgerCodec.SnapshotOk | crates/application-primitives/src/evidence_settlement.rs:1126-1152 | the snapshots that can be written are those whose fields fit their widths and whose lists are within the limits |
| LedgerCodec.SnapshotAtMost | crates/application-primitives/src/evidence_settlement.rs:1197-1210 | no such snapshot is longer than the declared maximum, so the encoder's bound is never hit |
| LedgerCodec.SnapshotFilesAreLossless | crates/application-primitives/src/evidence_settlement.rs:899-907 | each file is read as the one snapshot it is the file of, or not at all |
| LedgerCodec.RestoresExactly | crates/application-primitives/src/evidence_settlement.rs:903-907 | bytes restore to a ledger if and only if the ledger is a replayable history that fits and the bytes are its snapshot; no other bytes do |
| LedgerFiles.SettleKeepsSized | crates/application-primitives/src/evidence_settlement.rs:739-806 | settling keeps every field of ledger, record and event within the width of its type |
| LedgerFiles.SettledTypesFit | crates/application-primitives/src/evidence_settlement.rs:899-901 | so the snapshot of a settled ledger within the limits always fits in a file |
| LedgerFiles.SnapshotFilesTakeAll | crates/application-primitives/src/evidence_settlement.rs:899-907 | the canonical files lose nothing and take every ledger of the source's types within the limits |
| LedgerFiles.FileRestores | crates/application-primitives/src/evidence_settlement.rs:899-907 | the bytes of a coherent ledger's snapshot restore to that ledger |
| LedgerFiles.FileHoldsAcknowledged | crates/application-primitives/src/evidence_settlement.rs:1233-1276 | at any time in any run of durable settles, failed writes and restarts, the bytes of the file restore, to a ledger with the same total that holds every settlement acknowledged before |
| LedgerObjects.OpenAccounts | crates/application-primitives/src/evidence_settlement.rs:668-673 | opening accounts are taken exactly when all have the unit and no owner comes twice, and then each owner has its own balance |
| LedgerObjects.EvidenceSettlementLedger.New | crates/application-primitives/src/evidence_settlement.rs:654-684 | a ledger is opened exactly on non-zero identities and good accounts within the limit, and is coherent |
| LedgerObjects.EvidenceSettlementLedger.Settle | crates/application-primitives/src/evidence_settlement.rs:687-806 | the in-place settle is the settle transition, every field included; when it answers what is LedgerAnswers |
| LedgerObjects.EvidenceSettlementLedger.SettleFirst | crates/application-primitives/src/evidence_settlement.rs:739-806 | a first settlement writes accounts, sequence, index, record and event together, or nothing |
| LedgerObjects.EvidenceSettlementLedger.Repeated | crates/application-primitives/src/evidence_settlement.rs:720-738 | an indexed instruction gets its stored outcome, a conflict or an invalid-state error, and nothing is written |
| LedgerObjects.EvidenceSettlementLedger.TotalBalance | crates/application-primitives/src/evidence_settlement.rs:839-843 | the checked sum is the mathematical total, or an overflow exactly when that does not fit |
| LedgerObjects.DurableEvidenceSettlementLedger.Create | crates/application-primitives/src/evidence_settlement.rs:1220-1231 | creating refuses a path that exists, writes the first file, and answers exactly when that is in place; the bytes left behind in each case |
| LedgerObjects.DurableEvidenceSettlementLedger.Open | crates/application-primitives/src/evidence_settlement.rs:1233-1238 | opening restores the bytes read, to a coherent ledger whose file they are; an unreadable file is a persistence error and bytes that do not restore an invalid state |
| LedgerObjects.DurableEvidenceSettlementLedger.Settle | crates/application-primitives/src/evidence_settlement.rs:1244-1257 | the durable settle on ledger and bytes is the durable transition; that memory moves only once the write has succeeded is DurableAnswers |
| LedgerObjects.DurableEvidenceSettlementLedger.Persist | crates/application-primitives/src/evidence_settlement.rs:1259-1276 | a snapshot over the limits is an encoding error; otherwise a write fails before the rename, fails after it, or succeeds, and the file changes in the last two |
| Journal.LookupExact | connectors/ntzs/src/attempt.rs:231-246 | the search finds an attempt exactly when the sorted records hold it, and returns that record |
| Journal.DecisionExact | connectors/ntzs/src/attempt.rs:139-149 | for sorted records the decision is Ready, Reconcile or Complete exactly when the attempt's record is there and is prepared, marked or bound, and the attempt is unknown exactly when there is no record |
| Journal.CompleteHasReference | connectors/ntzs/src/attempt.rs:139-156 | in a well-formed journal the decision is Complete exactly for an attempt with a provider reference |
| Journal.PrepareAnswers | connectors/ntzs/src/attempt.rs:195-229 | a prepare conflicts, is over capacity, repeats, or adds exactly one prepared record without reference, each exactly when |
| Journal.MarkAnswers | connectors/ntzs/src/attempt.rs:91-106 | a mark succeeds exactly on a prepared attempt and replaces exactly that record; unknown and invalid exactly otherwise |
| Journal.BindAnswers | connectors/ntzs/src/attempt.rs:108-137 | a bind changes exactly a marked attempt without reference, repeats exactly on the same reference, and each refusal has its condition |
| Journal.PrepareAdvances | connectors/ntzs/src/attempt.rs:195-229 | a successful prepare keeps the journal well formed, takes no attempt back, and leaves the attempt recorded with that endpoint and request, a new one as prepared |
| Journal.MarkAdvances | connectors/ntzs/src/attempt.rs:91-106 | marking moves one prepared attempt forward and no attempt back |
| Journal.BindAdvances | connectors/ntzs/src/attempt.rs:108-137 | binding fixes a non-zero reference once, starts from a marked or bound attempt, ends bound, and moves no attempt back |
| JournalCodec.EntryRoundTrip | connectors/ntzs/src/attempt.rs:248-270 | one entry decodes to the record it encodes, but for a zero request commitment |
| JournalCodec.EntryCanonical | connectors/ntzs/src/attempt.rs:288-334 | the only bytes accepted for an entry are the ones its record encodes to |
| JournalCodec.EntryOffsets | connectors/ntzs/src/attempt.rs:248-270 | every field of an entry stands at its byte offset, endpoints and phases under their numbers |
| JournalCodec.SnapshotRoundTrip | connectors/ntzs/src/attempt.rs:248-341 | decoding the snapshot of a well-formed journal gives it back if and only if no request commitment is zero |
| JournalCodec.ZeroRequestIsRefused | connectors/ntzs/src/attempt.rs:312-314 | a concrete well-formed journal whose snapshot is refused |
| JournalCodec.SnapshotCanonical | connectors/ntzs/src/attempt.rs:272-341 | accepted snapshot bytes are exactly the encoding of the journal they decode to |
| JournalCodec.SnapshotOffsets | connectors/ntzs/src/attempt.rs:248-270 | magic, count, and entry i at byte 12 + 147 i |
| JournalCodec.LoadSavedExactly | connectors/ntzs/src/attempt.rs:158-193 | loading a saved file gives the journal that was saved if and only if no request commitment is zero, and is refused otherwise |
| JournalCodec.SavedLoaded | connectors/ntzs/src/attempt.rs:183-193 | a file that loads is the file that saving its journal writes |
| JournalCodec.WriteSnapshot | connectors/ntzs/src/attempt.rs:248-270 | the writing loop produces the snapshot bytes |
| JournalCodec.ReadSnapshot | connectors/ntzs/src/attempt.rs:272-341 | the reading loop with its cursor is the snapshot decoder, errors included |
| JournalRuns.SnapshotStoreIsFaithful | connectors/ntzs/src/attempt.rs:158-193 | the tagged snapshot file is a store as the run theorems need it |
| JournalRuns.StepKeepsSound | connectors/ntzs/src/attempt.rs:75-193 | every step, with any request, save outcome or restart, keeps the file a saved journal ahead of the memory |
| JournalRuns.StepMovesAhead | connectors/ntzs/src/attempt.rs:75-193 | no step takes back an attempt that memory and file hold |
| JournalRuns.RunMovesAhead | connectors/ntzs/src/attempt.rs:75-193 | over any run from any such journal, what is held once is held ever after, advanced at most |
| JournalRuns.JournalIsNeverLost | connectors/ntzs/src/attempt.rs:183-193 | with readable files and request commitments other than zero every restart of a run brings the journal back |
| JournalRuns.NewJournalIsNeverLost | connectors/ntzs/src/attempt.rs:75-193 | every sequence of steps from a new journal without a file is such a run, and loses nothing under the same terms |
| JournalRuns.MarkedIsNeverReady | connectors/ntzs/src/attempt.rs:139-149 | once a mark is acknowledged, the dispatch decision for that attempt is Reconcile or Complete ever after, across failures and restarts |
| JournalRuns.MarkedAtMostOnce | connectors/ntzs/src/attempt.rs:91-106 | in any run at most one mark of an attempt succeeds |
| JournalRuns.ReferenceIsImmutable | connectors/ntzs/src/attempt.rs:108-137 | an acknowledged provider reference is the attempt's reference ever after |
| JournalRuns.RequestIsImmutable | connectors/ntzs/src/attempt.rs:195-229 | an acknowledged attempt keeps its endpoint and request commitment ever after |
| JournalDecisions.CommitAnswers | connectors/ntzs/src/attempt.rs:75-137 | an error or a failure before the rename leaves the memory alone, a change is acknowledged exactly when its save succeeded, and a failure after the rename changes the file only |
| JournalDecisions.MarkAfterFailedSync | connectors/ntzs/src/attempt.rs:91-106 | a mark whose save fails after the rename leaves the attempt Ready in memory and, after a restart, to be reconciled |
| JournalDecisions.OthersUntouched | connectors/ntzs/src/attempt.rs:75-137 | no call changes the record of another attempt |
| JournalDecisions.StandsWhileQuiet | connectors/ntzs/src/attempt.rs:75-193 | over any run a record that memory and file hold stays exactly as it is until a call that moves it on gets as far as the rename |
| JournalDecisions.PreparedIsReady | connectors/ntzs/src/attempt.rs:139-149 | in any run an attempt is Ready from the acknowledgement of its first prepare until a mark reaches the rename |
| JournalDecisions.MarkedIsReconciled | connectors/ntzs/src/attempt.rs:139-149 | in any run an attempt is to be reconciled from the acknowledgement of its mark until a bind reaches the rename |
| JournalDecisions.BoundIsComplete | connectors/ntzs/src/attempt.rs:139-149 | in any run an attempt is Complete ever after the acknowledgement of its reference |
| JournalObjects.PlaceIsUnique | connectors/ntzs/src/attempt.rs:231-246 | in a sorted journal only one search result is right |
| JournalObjects.BinarySearch | connectors/ntzs/src/attempt.rs:231-246 | the halving loop finds the attempt or its insertion point |
| JournalObjects.PrepareNext | connectors/ntzs/src/attempt.rs:195-229 | with the search and the insertion in place, prepare is the transition on records, errors included |
| JournalObjects.BindNext | connectors/ntzs/src/attempt.rs:108-137 | with the search and the update in place, bind is the transition on records, errors included |
| JournalObjects.NtzsAttemptJournal.Adopt | connectors/ntzs/src/attempt.rs:75-137 | a changed clone is saved first and adopted only then; an unchanged one is neither |
| JournalObjects.NtzsAttemptJournal.PrepareDurable | connectors/ntzs/src/attempt.rs:75-89 | the in-place prepare with save is the prepare step of the machine: memory advances only with a successful save |
| JournalObjects.NtzsAttemptJournal.MarkMayHaveReachedProviderDurable | connectors/ntzs/src/attempt.rs:91-106 | the in-place mark with save is the mark step of the machine |
| JournalObjects.NtzsAttemptJournal.BindProviderReferenceDurable | connectors/ntzs/src/attempt.rs:108-137 | the in-place bind with save is the bind step of the machine |
| JournalObjects.NtzsAttemptJournal.SaveAtomic | connectors/ntzs/src/attempt.rs:158-181 | a save leaves the old file or the whole new one |
| JournalObjects.LoadJournal | connectors/ntzs/src/attempt.rs:183-193 | loading reads, checks length and tag, then decodes; an unreadable file is a persistence error, everything else refused an invalid snapshot |
| Execution.RunBlock | p060-execution-proof/src/model.rs:96-107 | the execution loop computes the block's effect on a canonical state; otherwise the error is the number of actions, the first operand that is not a field element, or the pre-state, in that order |
| Execution.TraceLengthBounds | p060-execution-proof/src/suite.rs:52-55 | the trace length is the least power of two that is at least eight and more than the number of actions, and at most 2048 for blocks within the limit |
| Air.NewAir | p060-execution-proof/src/air.rs:84-108 | the zero-filled columns overwritten action by action are the padded columns |
| Air.GetAssertions | p060-execution-proof/src/air.rs:131-141 | the assertion list pins both boundary states and every opcode and operand cell |
| Air.TransitionIsAction | p060-execution-proof/src/air.rs:110-129 | after a row that holds an action, both constraints vanish if and only if the next state is that action's result |
| Air.PaddingKeepsState | p060-execution-proof/src/air.rs:148-158 | padding rows never change the state |
| Air.SatisfiedMeansExecuted | p060-execution-proof/src/air.rs:84-141 | any trace that satisfies the system ends in the executed post-state |
| Air.BuildTrace | p060-execution-proof/src/prover.rs:112-141 | for every block, whatever its operands, the built table satisfies the system of the executed post-state; only a pre-state that is not a field element is refused |
| Air.BuiltTraceSatisfies | p060-execution-proof/src/prover.rs:112-141 | the built trace meets every assertion and constraint |
| Air.SatisfiableIffExecuted | p060-execution-proof/src/air.rs:84-158 | for every block a satisfying trace exists if and only if the post-state is the executed one |
| BlockCodec.BlockRoundTrip | p060-execution-proof/src/model.rs:110-167 | a valid block decodes from its own bytes |
| BlockCodec.BlockCanonical | p060-execution-proof/src/model.rs:125-167 | accepted block bytes are the encoding of the valid block they decode to |
| BlockCodec.ActionOffsets | p060-execution-proof/src/model.rs:110-123 | opcode, seven zeros and operand of an action at their byte offsets |
| BlockCodec.ActionAnswers | p060-execution-proof/src/model.rs:152-165 | the condition of each answer for the sixteen bytes of an action |
| BlockCodec.HeaderAnswers | p060-execution-proof/src/model.rs:125-151 | the condition of each refusal of the block header |
| BlockCodec.FirstBadAction | p060-execution-proof/src/model.rs:152-165 | under a good header a block is refused for its first bad action, with that action's error |
| BlockCodec.WriteBlock | p060-execution-proof/src/model.rs:110-123 | the writing loop produces the block bytes, or the validation error |
| BlockCodec.ReadBlock | p060-execution-proof/src/model.rs:125-167 | the reading loop is the block decoder, errors included |
| Receipts.BindingsExact | p060-execution-proof/src/codec.rs:64-87 | the bindings are good exactly when no flag is set and the four header digests are those of the program, the state before, the block and the state after; which error otherwise |
| Receipts.StructureExact | p060-execution-proof/src/codec.rs:219-232 | a structure is good exactly when the proof length is permitted and the bindings are good |
| Receipts.HeaderDeterminesInputs | p060-execution-proof/src/codec.rs:64-87 | two structurally valid receipts with one header are about the same states and block, when the hashes do not collide on them |
| Receipts.HeaderOffsets | p060-execution-proof/src/codec.rs:164-187 | the fixed header is read field by field at its byte offsets |
| Receipts.ReceiptAnswers | p060-execution-proof/src/codec.rs:151-203 | each refusal of the receipt decoder up to the announced lengths, by byte offsets |
| Receipts.ReceiptBodyAnswers | p060-execution-proof/src/codec.rs:204-217 | past the lengths the answer is that for the public inputs, and the bytes after them are the proof |
| Receipts.PublicInputAnswers | p060-execution-proof/src/codec.rs:253-272 | the condition of each answer of the public-input decoder, by byte offsets |
| Receipts.SizeAnswers | p060-execution-proof/src/codec.rs:117-149 | the two size errors of the encoder, each exactly when |
| Receipts.PublicInputsRoundTrip | p060-execution-proof/src/codec.rs:234-272 | public inputs decode from their own bytes |
| Receipts.PublicInputsCanonical | p060-execution-proof/src/codec.rs:253-272 | accepted public-input bytes are the encoding of what they decode to |
| Receipts.ValidReceiptsEncode | p060-execution-proof/src/codec.rs:117-149 | for a structurally valid receipt the public-input and receipt size errors are unreachable |
| Receipts.ReceiptRoundTrip | p060-execution-proof/src/codec.rs:117-217 | the bytes of a structurally valid receipt decode to it if and only if its codec version is 1 |
| Receipts.OtherVersionIsRefused | p060-execution-proof/src/codec.rs:177-179 | a concrete structurally valid receipt whose bytes are refused |
| Receipts.ReceiptCanonical | p060-execution-proof/src/codec.rs:151-217 | an accepted receipt that encodes again gives the same bytes |
| ReceiptReader.Decoder.Take | p060-execution-proof/src/codec.rs:285-296 | the cursor hands out the next bytes or refuses without moving |
| ReceiptReader.Decoder.Int | p060-execution-proof/src/codec.rs:298-308 | the cursor reads a big-endian integer of the given width |
| ReceiptReader.ReadPublicInputs | p060-execution-proof/src/codec.rs:253-272 | reading with the cursor is the public-input decoder |
| ReceiptReader.TakeHeader | p060-execution-proof/src/codec.rs:165-176 | reading the fixed header field by field with the cursor is the header decoder |
| ReceiptReader.ReadReceipt | p060-execution-proof/src/codec.rs:151-217 | reading with the cursor is the receipt decoder, errors in their order |
| PublicElements.AppendDigestElements | p060-execution-proof/src/air.rs:63-70 | the chunk loop appends the digest's seven-byte chunks as elements |
| PublicElements.ChunkElementsInjective | p060-execution-proof/src/air.rs:63-70 | different digests give different elements: no chunk wraps in the field |
| PublicElements.ChunkAt | p060-execution-proof/src/air.rs:63-70 | element j of a digest is the little-endian value of its bytes 7j to 7j + 7, or of what is left of them |
| PublicElements.CollectElements | p060-execution-proof/src/air.rs:36-60 | the element list is built from all public inputs in order |
| PublicElements.ElementOffsets | p060-execution-proof/src/air.rs:36-60 | the place of every number, digest, state and count in the list, with the actions after them |
| PublicElements.ToElementsInjective | p060-execution-proof/src/air.rs:36-60 | public inputs of valid blocks with the same elements are the same |
| Scopes.CheckNormalizedPrefix | tools/go-verifier/capability.go:199-214 | the loop decides whether everything after the prefix is zero |
| Scopes.PrefixDecodesExactly | tools/go-verifier/capability.go:166-214 | a prefix is decoded exactly when it is a proper one and every bit after it is zero |
| Scopes.HighBitsIsShift | tools/go-verifier/apl.go:537-552 | the table of leading bits is the shift of the source |
| Scopes.ContainsIsCovers | tools/go-verifier/apl.go:537-552 | the selector's byte-and-shift test holds exactly for the resources with the same leading bits |
| Scopes.ScopeSubsetIsInclusion | tools/go-verifier/capability.go:407-425 | the byte-and-mask subset test holds if and only if every one of the 2^384 resources of the child is one of the parent |
| Scopes.DecodedScopeIsCanonical | tools/go-verifier/capability.go:166-214 | decoded scopes that contain the same resources are equal |
| Capabilities.CompareIsNumeric | tools/go-verifier/capability.go:427-432 | comparing equal-length bytes compares the big-endian numbers |
| Capabilities.CompareOrders | tools/go-verifier/capability.go:427-429 | comparing bytes is a total order on strings of any length, a proper prefix first |
| Capabilities.ActionsCovered | tools/go-verifier/capability.go:441-452 | the nested search decides inclusion of the action lists |
| Capabilities.VerifyCapabilityAttenuation | tools/go-verifier/capability.go:434-475 | the check with its early returns is the predicate Attenuates |
| Capabilities.AttenuatesIsTightening | tools/go-verifier/capability.go:434-475 | the check accepts exactly the children issued by the parent's holder, deeper, with the inherited terms, whose actions, resources, spendings, uses and heights of validity are all among the parent's |
| Capabilities.UsesAreFewer | tools/go-verifier/capability.go:430-432 | the comparison of optional counts is inclusion of the counts admitted |
| Capabilities.LifeIsShorter | tools/go-verifier/capability.go:462-467 | the two comparisons of validity bounds are inclusion of the heights at which a capability is valid |
| Capabilities.AttenuatesExactly | tools/go-verifier/capability.go:434-475 | among children with the right lineage and inherited terms the check accepts exactly those with which nothing can be done that the parent does not permit |
| Capabilities.ChainNarrows | tools/go-verifier/capability.go:434-475 | in a chain of attenuations every later capability lies inside every earlier one in actions, both scopes, both amounts, uses and validity window |
| Capabilities.ChainPermitsLess | tools/go-verifier/capability.go:434-475 | in a chain of attenuations whatever a later capability permits, every earlier one permits |
| Capabilities.ChainInherits | tools/go-verifier/capability.go:455-473 | rate window, constraint and revocation are inherited along a chain, and each hop uses up depth |
| Capabilities.ChainIsBounded | tools/go-verifier/capability.go:395-403 | a chain has at most as many hops as the first capability's depth and repeats no capability |
| Capabilities.ChainOfCustody | tools/go-verifier/capability.go:434-440 | every link is issued by the holder above it, and no delegated link is a bearer capability |
| Policies.ConditionMeans | tools/go-verifier/apl.go:492-526 | each of the twelve conditions holds exactly when what it says is true of the request: amounts and heights as numbers, selectors as sets of resources, digests in their own list, an approval by the first entry of its role |
| Policies.ApprovedExactly | tools/go-verifier/apl.go:381-395 | where no role comes twice, as the request decoder demands, any approval of the role with the count decides |
| Policies.HeightsAreThresholds | tools/go-verifier/apl.go:504-507 | a minimum height that holds keeps holding at every later height and fails at every height below it, and a maximum the other way round |
| Policies.CredentialsAreNotCapabilities | tools/go-verifier/apl.go:508-511 | presenting a credential decides conditions on credentials only, and presenting a capability conditions on capabilities only |
| Policies.MatchRule | tools/go-verifier/apl.go:465-477 | the inner loop matches exactly when every condition holds, and counts a step for the rule and for each condition |
| Policies.EvaluateApl | tools/go-verifier/apl.go:465-490 | the one pass over the rules computes the counts cut to their widths, the result and the obligations |
| Policies.CountersWrap | tools/go-verifier/apl.go:465-490 | for any policy the counters are the true counts up to multiples of 256 and 65536, and the result follows the wrapped ones |
| Policies.NoCounterWraps | tools/go-verifier/apl.go:266-328 | for a decoded policy no counter wraps: they are the true counts, within 32 and 544 |
| Policies.PermitsExactly | tools/go-verifier/apl.go:465-490 | a decoded policy permits if and only if everything some permitting rule says is true of the request, and of no forbidding rule |
| Policies.CountersExact | tools/go-verifier/apl.go:465-490 | the reported counters are the numbers of rules that apply, and the steps the number of rules and conditions |
| Policies.ObligationsExactly | tools/go-verifier/apl.go:478-489 | an obligation is returned exactly when the request is permitted and a permitting rule that applies carries it |
| Policies.CollectedInOrder | tools/go-verifier/apl.go:478-481 | obligations come in the order of the rules |
| Policies.OrderDoesNotMatter | tools/go-verifier/apl.go:465-490 | reordering the rules changes neither result nor counters, and the obligations only in order |
| Policies.ForbidNeverGrants | tools/go-verifier/apl.go:465-490 | a forbidding rule put anywhere never turns a denial into a permission |
| Policies.DecisionPassesChecks | tools/go-verifier/apl.go:421-463 | the decision on a decoded policy meets every check of the decision decoder, its body limit included |
| Lengths.EncodeCanonicalLength | tools/go-verifier/credential.go:434-447 | the encoding loop produces the canonical bytes |
| Lengths.EncodedWidth | tools/go-verifier/main.go:55-68 | the width table is the length of the encoding |
| Lengths.DecodeLength | tools/go-verifier/main.go:70-90 | the decoding loop is the Go decoder's function, errors included |
| Lengths.Decoder.Length | scripts/probe-kanalen-rpc.py:78-94 | the decoding loop over the moving offset is the Python decoder's function, errors included |
| Lengths.DecodeEncoded | tools/go-verifier/main.go:70-90 | decoding undoes encoding for every 32-bit value and any trailing bytes |
| Lengths.EncodeDecoded | tools/go-verifier/main.go:70-90 | the only bytes accepted for a value are its encoding |
| Lengths.DecodersAgree | scripts/probe-kanalen-rpc.py:78-94 | the two decoders agree on every string in value, width and error, up to the bound that one of them takes |
| Envelopes.InspectAcceptsExactlyEnvelopes | tools/go-verifier/main.go:92-123 | an input is accepted if and only if it is header, canonical length and a body of that length within the limits |
| Envelopes.FramedRefusals | tools/go-verifier/main.go:92-123 | for every header with a canonical length and any bytes after it, which refusal is given |
| Envelopes.UnframedRefusals | tools/go-verifier/main.go:92-123 | too long, too short and a bad length, each exactly when |
| Envelopes.RebuildKeepsEnvelopes | tools/go-verifier/credential.go:449-453 | a rebuilt envelope is accepted exactly when the new body keeps within the limits, and frames that body |
| Envelopes.RebuildOwnBody | tools/go-verifier/credential.go:449-453 | rebuilding with its own body gives the input back |
| NtzsAmounts.ScanByte | connectors/ntzs/src/amount.rs:45-69 | one byte of the scan: the coefficient stays the number read so far, and its checked arithmetic does not overflow |
| NtzsAmounts.CheckedStepFits | connectors/ntzs/src/amount.rs:58-62 | within 38 digits multiply and add stay below 2^128 |
| NtzsAmounts.Normalize | connectors/ntzs/src/amount.rs:80-83 | the loop drops exactly the trailing zeros after the point |
| NtzsAmounts.Parse | connectors/ntzs/src/amount.rs:34-85 | the parser is the function Parsed, each error on its own condition |
| NtzsAmounts.ParseIsExact | connectors/ntzs/src/amount.rs:34-85 | a text parses to an amount if and only if it is parsable and the amount is the normal form of its exact value |
| NtzsAmounts.ParseErrorsExact | connectors/ntzs/src/amount.rs:34-85 | overflow, syntax, precision and zero, each exactly when, told from the text |
| NtzsAmounts.NormalIsUnique | connectors/ntzs/src/amount.rs:80-83 | equal values in normal form are equal amounts |
| NtzsAmounts.ParsedIsRepresentable | connectors/ntzs/src/amount.rs:34-85 | a parsed amount is in normal form with at most 38 digits, one of them whole |
| NtzsAmounts.PrintThenParse | connectors/ntzs/src/amount.rs:97-112 | printing and parsing again gives the same amount |
| NtzsAmounts.CheckedPow10 | connectors/ntzs/src/amount.rs:124-130 | the loop gives the power of ten, or an overflow exactly when it does not fit |
| NtzsAmounts.ToAtomicUnits | connectors/ntzs/src/amount.rs:114-121 | the conversion is the function AtomicUnits, each error on its own condition |
| NtzsAmounts.AtomicUnitsExact | connectors/ntzs/src/amount.rs:114-121 | the conversion gives n if and only if n atomic units are exactly the amount and n and the decimals fit |
| NtzsAmounts.AtomicErrorsExact | connectors/ntzs/src/amount.rs:114-121 | a precision error exactly when no whole number of units is the amount or the decimals are above 38, an overflow exactly when that number does not fit |
| ThunesAmounts.ParseOutcome | connectors/thunes/src/amount.rs:19-62 | the outcome for every text and precision, free of the intermediate checks |
| ThunesAmounts.ParseDecimalIsExact | connectors/thunes/src/amount.rs:19-62 | a text gives n if and only if its exact value is n units at that precision and everything fits: never a rounding, never a refusal of an exact value |
| ThunesAmounts.ConnectorsAgree | connectors/thunes/src/amount.rs:19-62 | whenever the nTZS parser and conversion give n, the Thunes parser gives n for the same text |
| ThunesAmounts.ConnectorsAgreeBack | connectors/thunes/src/amount.rs:19-62 | on texts the nTZS parser takes, it gives n whenever the Thunes parser does |
| Interfaces.ValidateJson | crates/agent-interfaces/src/lib.rs:280-307 | the recursion with its loops is the function JsonVerdict, the first error met included |
| Interfaces.JsonCheckIsExact | crates/agent-interfaces/src/lib.rs:280-307 | a JSON value is accepted if and only if every value inside it, by whatever path, is within the bounds on texts, members and keys and nested at most sixteen deep |
| Interfaces.JsonErrorIsFirst | crates/agent-interfaces/src/lib.rs:280-307 | the error of a refused value is the first of all its faults, outermost and leftmost first |
| Interfaces.IdentifierIsText | crates/agent-interfaces/src/lib.rs:233-244 | an identifier is one to 128 digits, letters, dots, underscores, hyphens and colons |
| Interfaces.CommitmentIsHex | crates/agent-interfaces/src/lib.rs:246-252 | a commitment is 96 hexadecimal digits |
| Interfaces.WidthIsLeast | crates/agent-interfaces/src/lib.rs:280-287 | the byte length of a text counts for each character the fewest UTF-8 bytes its code point fits in |
| Surfaces.ValidateDepth | crates/agent-interfaces/src/lib.rs:309-327 | the recursion over the shared active set is the predicate Passes, restores the set whenever it succeeds, and on resolved references fails only by the limit |
| Surfaces.DepthCheckIsExact | crates/agent-interfaces/src/lib.rs:309-327 | with unique ids and resolved references the check succeeds if and only if every walk from the root has at most twelve components |
| Surfaces.AcceptedIsAcyclic | crates/agent-interfaces/src/lib.rs:309-327 | in an accepted surface no component reachable from the root reaches itself |
| Surfaces.BindingIsSegments | crates/agent-interfaces/src/lib.rs:267-279 | a binding path is accepted if and only if it is short enough and a list of segments, each after a slash, non-empty and without slashes or dots |
| Surfaces.ComponentErrorsExact | crates/agent-interfaces/src/lib.rs:190-214 | a component passes, or has each of its four errors, exactly when: id, kind and children, bound text, and an action that is a button's, one of three, and on the surface's intent |
| Surfaces.AllowedActOnIntent | crates/agent-interfaces/src/lib.rs:200-213 | in accepted components every action is a button's and on the intent that was reviewed, and no id comes twice |
| Surfaces.CollectIds | crates/agent-interfaces/src/lib.rs:190-214 | the loop collects the ids exactly when every component passes its own checks and none repeats an id; otherwise the error is that of the first component that does not |
| Surfaces.CheckReferences | crates/agent-interfaces/src/lib.rs:218-224 | the nested loops accept exactly when every reference names a component |
| Surfaces.ValidateComponents | crates/agent-interfaces/src/lib.rs:190-226 | components are accepted if and only if each passes its checks, root and references resolve, and every walk from the root has at most twelve components; the first of these to fail gives the error |
| Surfaces.ValidateHead | crates/agent-interfaces/src/lib.rs:170-188 | the checks before the components accept exactly the known versions, an identifier, a hexadecimal commitment, one to 64 components and a data model that is an object, short enough and bounded throughout, with each error in its order |
| Surfaces.HeadErrorsExact | crates/agent-interfaces/src/lib.rs:170-188 | the condition of each error of the head, the first fault of the data model included |
| Surfaces.Validate | crates/agent-interfaces/src/lib.rs:170-226 | a surface is accepted if and only if its head and its components are, and an error is that of the first check to fail |

## Left out

- SHAKE256, SHA-256, HMAC, ML-DSA and the proof system itself: hashes and commitments are function parameters, and
  whether an anchor proof verifies is a boolean of the call.
- LedgerRuns.ExactlyOnce: it and the other run theorems of the ledger take the commitment function to separate the
  finitely many instructions of that run, and the four values that each settlement of it commits to not to have the
  zero digest.
- LedgerFiles.FileHoldsAcknowledged: it and the file theorems take commitments to be 48 bytes and the fields of
  instructions to be within their widths, as the types of the source have it.
- Ledger.SettleConserves: takes payer and executor to be different, which the constructor of instructions enforces
  (crates/application-primitives/src/evidence_settlement.rs:195-240) and the settle transition relies on.
- The moment of a decoder's refusal: the checks on an instruction, a record or an event come after the last byte of
  the snapshot, not after the value's own; every refusal is the same error.
- Digests in the ledger and the journal are numbers with the order of their big-endian bytes; in the accumulators and
  scopes they are 48 bytes.
- File input and output: a save has three outcomes, before the rename, after it, and done.
- The statement text rules of anchor evidence: the ledger uses one constant domain, which satisfies them.
- Bit operations on integers: a bitwise or of disjoint bits is an addition and an index mask a binary digit (length
  codecs, history indices).
- partition_id, the fixtures and the hexadecimal printing of the accumulator crate: easy members only.
- The byte decoders of capabilities, policies, requests and decisions: their structural rules are modelled on decoded
  values; signature suites and offsets are not.
- The JSON text of a surface: its parser is left out, and the length of a value's text is a parameter. Requests of the
  tool interface are left out, easy members only.
- The external-unit wrappers of the nTZS amounts and the JSON front of the Thunes parser: plumbing around the modelled
  parsers.
- AnchorRegistry, the jurisdiction, holder and controller registries, corporate actions, the recovery and action
  tables: transitions live elsewhere or are small phase tables.
- Renderers, request builders, response parsers, clients, deployment and vector-mutation helpers.
