# Routing service: verified core

This project models the parts of a local routing service that are hardest to get right, and proves
what they promise. The service edits the configuration files of two coding tools, sends their
requests on to providers, and records what happened.

- **Replacing a configuration file** (`Directory`, `ManagedFile`). A directory is a map from names to
  inodes; every call that can fail may fail, the process may die between any two steps, and another
  process may work on the file while it is read and until the rename is issued. `Directory.history`
  lists every state in which a crash can leave the disk. Which calls fail is given by their places in
  the program, so that the outcome for every set of failing calls can be told.
- **The Claude settings file** (`Json*`, `Claude*`). JSON is read by a parser over positions, which is
  proved to read exactly the texts that the grammar of RFC 8259 spells, as what they mean. Owned values
  and the unrelated rest form a lens over the document. When possible the text is edited byte by byte, so that giving the settings
  back restores every byte. Applying, restoring and reconciling run over the managed file and survive
  crashes anywhere, in the recovery too; `Recoveries` follows one stored intent through any number of
  starts of the program.
- **The Codex configuration file** (`Codex*`). The same over TOML items, with changing provider keys
  and the "restore union" that gives a provider back while taking another one over. TOML text is read
  and printed by given functions, whose round trip is used for the documents that a text can hold.
  `CodexPaths` reads the edits off path by path.
- **Failover with circuit breakers** (`Circuits`, `CircuitHistories`, `RouteHealth`,
  `Failover`). The circuit of a provider under every interleaving of permits, told by the history of its
  attempts, and the loop over the members of a route plan.
- **Commitment** (`Sse*`, `Commitment`). Reading the start of a response until its fate is clear, and
  replaying what was read. The verdict on a stream is told from its events as they are written.
- **Admission and draining** (`Admission`, `AdmissionSteps`). One packed word changed by exchange loops, and all
  interleavings of its atomic steps.
- **Redaction, calendar and pricing** (`Redaction`, `RedactionProofs`, `PayloadRecording`,
  `Calendar`, `Timestamps`, `CatalogDecimals`, `Pricing`).

`dafny verify dfyconfig.toml` checks the whole project.

## Conditions

Some promises of the program hold only under a condition. Each of them is proved under its condition,
with an input that shows why one is needed; the condition is exact unless it is called sufficient.

- After a crash the first undisturbed start rolls back, but only if no start before it has put on
  record that recovery is required: such intents are not looked at again, so a single failed read
  leaves the settings of a dead application in place for good (`FirstUndisturbedRollsBack`,
  `FailedReadIsFinal`, `OneFailedRead`).
- Removing the managed `env` by its bytes gives the document of the tree edit exactly when `env`
  occurs once at the root (`RemoveMeansApply`, `DuplicateEnvExample`), and gives the original bytes
  exactly when the inserted value does not itself contain the member text (`RemoveInserted`,
  `EmbeddedMemberExample`). The values the service writes always meet the second condition.
- A Codex application that changes the provider key passes its own check exactly when the snapshot's
  unrelated part holds none of the owned fields, and no empty table, at the new key (`VerifyAgrees`,
  `TakenKeyIsRefused`). The check comes after the write: over a taken key the fields of the user's own
  provider are overwritten by then. Whatever a crash left, a reconciliation rolls it back exactly when
  nothing was written yet, or the key was free and no inline table with other contents is left where
  the provider fields from before have to go, or the application changed nothing to begin with
  (`RecoverableIffUndoable`, `ApplyThenReconcile`, `CrashesThenRecovery`); otherwise no start ever
  does (`NeverRollsBack`, `TakenKeyIsLost`, `InlineTableIsStuck`). A restore union can be taken back
  under a like condition (`UnionReturnsIff`, `UnionThenBack`, `InlineUnionIsStuck`).
- Putting a captured Codex state back loses an owned field that was written as a sub-table
  (`ApplyCaptured`, `SubTableIsLost`), and the way back from a restore union loses an empty table at
  the desired key (`WayBackRestores`, `EmptyTableIsLost`).
- The way back from a restore union confirms a file that already shows the state before only when both
  states have one provider key: the file is read under the expected key. Under another key it asks for
  recovery, and leaves the file alone (`RestoreUnionOrConfirmBefore`).
- A planned restore union fails over a missing file exactly when there is nothing to write: an empty
  file is left, and refused (`AtomicRestoreUnion`, `EmptyUnionOverNothing`).
- Reading a file that others write to can only give the version with the reported identity exactly
  when the file was steady meanwhile (`ReadsIffSteady`, `TornRead`); that edits show in the identity,
  as with modification times that only grow, is sufficient (`ReadAcross`, `GrowingTimesShow`).
- A permit from a closed phase that completes late can close an open circuit at once and can free the
  slot of a running probe. That none completes while a probe is in flight is exact for single flight
  (`SingleFlightIff`, `StaleSuccessDoublesProbes`); that none completes outside a closed phase is
  sufficient for the rest and the two probes before a circuit closes (`ReclosingTakesTwoProbes`,
  `StaleSuccessCloses`).
- A secret made of the masks' own bytes can show in a redacted payload (`SafeIffUnforgeable`,
  `StarsLeak`).
- A redaction added after payload bytes were dropped leaves a gap in the capture, in which the
  beginning of the secret shows (`AddRedaction`, `LateRedaction`). The recorder's interface allows this
  order; its callers today add every redaction while an attempt is prepared, before anything of a
  response is observed.

Where the program's behaviour is surprising the model follows it: a failed `fchmod` leaves an empty
temporary file; the request to remove the file has no effect when the file was expected to be missing;
an edit by another process that lands after the exchange is not protected.

## Model

| member | source | states |
|---|---|---|
| `ManagedFiles.ManagedFile.ReplaceWithMode` | crates/routing-service/src/config/managed_file.rs:275-464 | At every step, hence every crash point, and under any failing calls: the version the rename met is at the target or the temporary name, or the intended state stands in for it; the target shows the old version, the complete new one, or (only when removing) nothing; other names are untouched. Success: the displaced version had the expected identity, the target is exactly the flushed new file (or gone), no temporary name is left, the directory is synced. WriteFailed: the target is as the rename met it and no temporary file carries the new bytes (an empty one may stay). Without interference the outcome follows exactly from which calls fail; and when nothing fails, a target that somebody edited in place before the rename is put back as the rename met it |
| `ManagedFiles.ManagedFile.Replace` | crates/routing-service/src/config/managed_file.rs:251-258 | The same contract with the permissions of the replaced file, or 0600 for a new one |
| `ManagedFiles.ManagedFile.RecheckAndInstall` | crates/routing-service/src/config/managed_file.rs:324-376 | No lost update before the exchange: whatever another process did to the target up to the rename, success is reported only if the rename met the expected identity, and the version it met survives at the target or the temporary name otherwise |
| `ManagedFiles.ManagedFile.Exchange` | crates/routing-service/src/config/managed_file.rs:340-376 | After an exchange either both names hold what they should, or the exchange was taken back completely, or the temporary file is kept for recovery; which of them follows exactly from the identity the exchange met and the calls that fail, and a file edited in place is put back |
| `ManagedFiles.ManagedFile.Settle` | crates/routing-service/src/config/managed_file.rs:377-415 | Unlinking and syncing after a clean exchange, and the way back when the sync fails; how it ends follows exactly from the calls that fail |
| `ManagedFiles.ManagedFile.RollBackExchange` | crates/routing-service/src/config/managed_file.rs:356-369 | Exchanging back succeeds exactly when each of its calls does, and then both names hold what they held, durably |
| `ManagedFiles.ManagedFile.RollBackRemoval` | crates/routing-service/src/config/managed_file.rs:383-394 | The same for the file that was unlinked in between |
| `ManagedFiles.ManagedFile.RollBackNew` | crates/routing-service/src/config/managed_file.rs:433-450 | The same for a file that was installed where nothing was |
| `ManagedFiles.ExchangedTells` | crates/routing-service/src/config/managed_file.rs:351-376 | When nothing fails: the expected file is replaced, another version of it put back, another file kept for recovery |
| `Directories.IdentityIff` | crates/routing-service/src/config/managed_file.rs:570-581 | Versions are told apart by inode, modification time, length and permissions, and by nothing else |
| `ManagedFiles.OneFault` | crates/routing-service/src/config/managed_file.rs:275-464 | Which outcome each single failing call leads to; success when nothing fails |
| `ManagedFiles.ManagedFile.InstallNew` | crates/routing-service/src/config/managed_file.rs:418-457 | Installing where nothing was: never over an existing file, and back out when it cannot be made durable |
| `ManagedFiles.ManagedFile.InstallAndClean` | crates/routing-service/src/config/managed_file.rs:458-464 | Clean-up runs unless the temporary file must be kept; a failed clean-up overrides the result with RecoveryRequired |
| `ManagedFiles.ManagedFile.CleanupTemporary` | crates/routing-service/src/config/managed_file.rs:474-519 | Success means the name is gone and durably so; nothing but that name ever changes |
| `ManagedFiles.ManagedFile.PrepareTemporary` | crates/routing-service/src/config/managed_file.rs:297-323 | A ready temporary file has the exact bytes and mode, is flushed and was a new inode; a failed fchmod leaves an empty file behind |
| `ManagedFiles.ManagedFile.ReadAcross` | crates/routing-service/src/config/managed_file.rs:202-249 | Reading while others write, each call in an image of its own: a result is reported only if the name, the opened inode and its state after reading all had one identity; the bytes are those of the version that had it if the file was steady while it was read, and it was if edits show in the identity |
| `ManagedFiles.ReadsIffSteady` | crates/routing-service/src/config/managed_file.rs:226-241 | Reading piece by piece can only give certain bytes, wherever the pieces end, exactly when the file held nothing but beginnings of them meanwhile and all of them in the end |
| `ManagedFiles.GrowingTimesShow` | crates/routing-service/src/config/managed_file.rs:570-580 | Edits show in the identity when every change brings a later modification time |
| `ManagedFiles.TornRead` | crates/routing-service/src/config/managed_file.rs:226-241 | Without that, a read that mixes two versions passes every check |
| `ManagedFiles.ManagedFile.Read` | crates/routing-service/src/config/managed_file.rs:202-249 | With nobody else at work, identity and bytes are those of the file, and only a fault or a file that is not regular makes it fail |
| `ManagedFiles.Job.SettleIsSafe` | crates/routing-service/src/config/managed_file.rs:377-415 | Each image that settling an exchange can pass through loses nothing, and taking the exchange back restores the starting image |
| `ManagedFiles.Job.ExchangeIsSafe` | crates/routing-service/src/config/managed_file.rs:340-376 | The exchanged image loses nothing |
| `JsonRoundTrip.DocumentPrinted` | crates/routing-service/src/claude/config.rs:898-901 | What is printed, compactly or prettily, is read back as the same document |
| `JsonStability.ValueStable` | crates/routing-service/src/claude/config.rs:1075-1080 | A value's end and meaning depend only on its own bytes, so a value can be located inside a text and the text behind it rewritten |
| `JsonSpelling.Utf8Iff` | crates/routing-service/src/claude/config.rs:924 | The bytes an escape stands for are the one well-formed encoding of its character, told apart from it by decoding them |
| `JsonSpelling.StringSpelt` | crates/routing-service/src/claude/config.rs:924 | A string spelt with any mix of raw characters, letter escapes, `\u` escapes in either case and surrogate pairs is read as its text |
| `JsonNumerals.NumeralIsNumber` | crates/routing-service/src/claude/config.rs:924 | Every numeral of the grammar is read as a number |
| `JsonNumerals.SpellNumber` | crates/routing-service/src/claude/config.rs:924 | And nothing else is |
| `JsonGrammar.ValueSpelt` | crates/routing-service/src/claude/config.rs:924 | Any value in any spelling (white space, escapes, member order, repeated keys, of which the last counts) is read as what it means, wherever it stands in a text |
| `JsonReading.SpellValue` | crates/routing-service/src/claude/config.rs:924 | Whatever is read has such a spelling |
| `JsonReading.ReadIffSpelt` | crates/routing-service/src/claude/config.rs:915-940 | A text is read as a value exactly when it spells that value by the grammar of RFC 8259 |
| `ClaudeDocument.Document.ApplyOwned` | crates/routing-service/src/claude/config.rs:1126-1168 | The key-by-key edit computes `Applied` |
| `ClaudeDocument.AppliedTells` | crates/routing-service/src/claude/config.rs:1126-1168 | Each setting goes under its own name in `env`; no other member of the document changes, and an empty `env` is not left behind |
| `ClaudeDocument.UnrelatedTells` | crates/routing-service/src/claude/config.rs:1110-1124 | The projection is the document without these names in `env`, and nothing else is missing |
| `ClaudeDocument.CaptureTells` | crates/routing-service/src/claude/config.rs:1098-1108 | Captured is what stands under the names; the legacy ownership leaves the API key alone |
| `ClaudeDocument.CaptureAfterApply` | crates/routing-service/src/claude/config.rs:1098-1168 | Capture after apply gives the applied owned state |
| `ClaudeDocument.UnrelatedAfterApply` | crates/routing-service/src/claude/config.rs:1110-1168 | Apply leaves the unrelated projection unchanged |
| `ClaudeDocument.ApplyOverrides` | crates/routing-service/src/claude/config.rs:1126-1168 | A later application overrides an earlier one |
| `ClaudeDocument.ApplyCaptured` | crates/routing-service/src/claude/config.rs:1098-1168 | Applying the captured state back restores the document up to an empty `env` |
| `ClaudeDocument.PartsDetermineDocument` | crates/routing-service/src/claude/config.rs:1098-1124 | Owned state and unrelated projection together determine the document, up to an empty `env` |
| `ClaudeEnvEdit.ExactEnvValueStart` | crates/routing-service/src/claude/config.rs:1048-1066 | The cursor scan finds the value of an exactly spelled `env` key |
| `ClaudeEnvEdit.SkipJsonWhitespace` | crates/routing-service/src/claude/config.rs:1068-1073 | The cursor scan skips exactly the ASCII white space |
| `ClaudeEnvEditProofs.TextBounds` | crates/routing-service/src/claude/config.rs:1042-1046 | The braces found from the two ends of the text are those of the parsed root object |
| `ClaudeEnvEditProofs.InsertMeansApply` | crates/routing-service/src/claude/config.rs:992-1014 | For every JSON object text without a root `env`, the byte insertion parses to the document the tree edit produces |
| `ClaudeEnvRemoval.EnvIsLastMember` | crates/routing-service/src/claude/config.rs:1016-1040 | The `,"env":` found last, with only white space behind its value, stands before the last member of the root object, never inside a string or a nested value |
| `ClaudeEnvRemoval.RemoveMeansApply` | crates/routing-service/src/claude/config.rs:960-983 | When the byte removal applies, its result parses to what the tree edit produces exactly when `env` occurs once among the root members |
| `ClaudeEnvRoundTrip.RemoveInserted` | crates/routing-service/src/claude/config.rs:992-1040 | Removing an inserted member gives the original bytes back exactly when the document was empty or the inserted value does not itself contain `,"env":` |
| `ClaudeEnvRoundTrip.TextsContainNoMember` | crates/routing-service/src/claude/config.rs:487-546 | The values the service writes are strings, and no string, whatever it holds, prints to text containing `,"env":` |
| `ClaudeEnvRoundTrip.InsertThenRemove` | crates/routing-service/src/claude/config.rs:960-1040 | The whole cycle: insertion means the applied document, and the reversal restores every byte under that condition, which string values always meet |
| `ClaudeEnvRoundTrip.DuplicateEnvComesBack` | crates/routing-service/src/claude/config.rs:1016-1040 | With a second root `env` the removal uncovers the first one, so the result is not the applied document |
| `ClaudeEnvRoundTrip.DuplicateEnvExample` | crates/routing-service/src/claude/config.rs:960-1040 | A concrete document of that kind whose second `env` holds owned keys only, so that taking the settings away selects the byte removal, with a result that is not the applied document |
| `ClaudeEnvRoundTrip.EmbeddedMemberExample` | crates/routing-service/src/claude/config.rs:992-1014 | A concrete owned value (an object holding `env`) that defeats the byte-exact reversal |
| `ClaudeText.NextTextMeans` | crates/routing-service/src/claude/config.rs:890-901 | The bytes written next parse to the applied document exactly when the removal uncovers no earlier `env` |
| `ClaudeText.NextTextSpells` | crates/routing-service/src/claude/config.rs:890-901 | The same about texts alone: however the document was spelt before, the next text spells the applied document under that condition |
| `ClaudeText.NextTextEnvOnce` | crates/routing-service/src/claude/config.rs:960-983 | A text written to hold owned values has exactly one `env` at its root, so it can be taken back |
| `ClaudeCodec.ClaudeConfigCodec.ReadSnapshot` | crates/routing-service/src/claude/config.rs:915-957 | A snapshot is that of the file, and when reading works the answer, error kind included, is that of the text in it; invalid JSON, a root that is no object, and an `env` that is no object are refused |
| `ClaudeCodec.DocumentTells` | crates/routing-service/src/claude/config.rs:915-957 | Which texts are read, and how the others are refused, by the grammar of RFC 8259: no object at the root, or an `env` that is none |
| `ClaudeCodec.ClaudeConfigCodec.WriteOwned` | crates/routing-service/src/claude/config.rs:875-905 | Writes only over the expected snapshot; carries the file contract to the text that means the applied document |
| `ClaudeCodec.ClaudeConfigCodec.AtomicApply` | crates/routing-service/src/claude/config.rs:548-562 | Success means the file shows the desired owned state beside the unrelated part of the snapshot; durably so, and no temporary file is left; a file that is not the one the snapshot was taken of is not touched; every crash point is recoverable; without faults and interference it succeeds |
| `ClaudeCodec.ClaudeConfigCodec.Verify` | crates/routing-service/src/claude/config.rs:564-578 | Accepts exactly a file with the desired owned state and the snapshot's unrelated part |
| `ClaudeCodec.ClaudeConfigCodec.Restore` | crates/routing-service/src/claude/config.rs:623-658 | Success means the owned state from before is back beside the unrelated part found when the call began; a file that did not exist and would be empty is removed; a file without the expected owned state is not touched; every crash point stays recoverable |
| `ClaudeCodec.ClaudeConfigCodec.RestoreOrConfirmBefore` | crates/routing-service/src/claude/config.rs:660-680 | Success only when the file shows the state before; one that shows it already is confirmed and not written, and one that shows neither that nor the expected owned state is refused and not touched |
| `ClaudeCodec.ClaudeConfigCodec.MatchesBefore` | crates/routing-service/src/claude/config.rs:857-863 | True exactly when the file shows the state before (an unreadable file never matches) |
| `ClaudeCodec.ClaudeConfigCodec.ReconcileOne` | crates/routing-service/src/claude/config.rs:809-841 | RolledBack is recorded only when the file, whatever it held, shows the state before; a recoverable file stays so throughout, and when nothing fails the intent is rolled back; a file that shows the state before already, or anything but the desired state beside the same rest, is not touched; an unreadable file is left alone and recovery put on record |
| `Recoveries.SettledForGood` | crates/routing-service/src/state/recovery.rs:423-436 | Only pending intents are looked at: once a start has recorded a state, no later start changes the file or the record |
| `Recoveries.FirstUndisturbedRollsBack` | crates/routing-service/src/state/recovery.rs:423-466 | As long as the starts before it died or recorded nothing, the first undisturbed start rolls back, and the state before stays for good |
| `Recoveries.FailedReadIsFinal` | crates/routing-service/src/state/recovery.rs:423-466 | A start that cannot read the file and puts that on record is the last one to touch it: not even undisturbed starts after it roll back |
| `Recoveries.StaysRecoverable` | crates/routing-service/src/claude/config.rs:795-807 | The file stays recoverable through any number of starts that fail or die |
| `Recoveries.StoryEnds` | crates/routing-service/src/claude/config.rs:795-807 | Any such story told from its end: recoverable throughout, a roll-back on record only over the state before, and settled for good by the first undisturbed start that finds the intent pending, as it does when all starts before it died |
| `ClaudeCodec.StartUp` | crates/routing-service/src/claude/config.rs:795-841 | One start of the program on a stored intent is such a start, whether it dies in any of its steps, fails, or is undisturbed |
| `ClaudeCodec.CrashesThenRecovery` | crates/routing-service/src/claude/config.rs:548-562 | The whole story of one stored intent, from any crash point of an application through any number of starts: every image on the way is recoverable; the first undisturbed start that finds the intent pending rolls back to the owned state and unrelated content from before, for good; after a recorded failure nothing changes any more |
| `ClaudeCodec.OneFailedRead` | crates/routing-service/src/claude/config.rs:821-828 | Such a failure: one start cannot read the file, the clean start after it leaves the settings of the dead application in place |
| `ClaudeCodec.DeadApplication` | crates/routing-service/src/claude/config.rs:548-562 | A concrete file for it: settings written over a missing file |
| `ClaudeCodec.WrittenShows` | crates/routing-service/src/claude/config.rs:875-905 | A version holding the next text shows the applied owned state and the same unrelated part |
| `ClaudeCodec.ApplyKeepsRecoverable` | crates/routing-service/src/claude/config.rs:548-578 | Every image of an application shows the state before or the whole desired state |
| `ClaudeCodec.RestoreKeepsRecoverable` | crates/routing-service/src/claude/config.rs:623-658 | Every image of a restoration shows the desired state still or the state before already |
| `CodexApply.Document.ApplyOwned` | crates/routing-service/src/codex/config.rs:1706-1797 | The in-place edit, field by field, computes `Applied`, and fails exactly when that is undefined |
| `CodexApply.Document.ApplyProviderRestore` | crates/routing-service/src/codex/config.rs:1644-1704 | The in-place edit computes `Restored`, and fails exactly when that is undefined |
| `CodexApply.Document.RemoveProviderFields` | crates/routing-service/src/codex/config.rs:1711-1729 | The five owned fields go, and the provider with them when nothing else is left |
| `CodexApply.Document.SetProviderFields` | crates/routing-service/src/codex/config.rs:1750-1768 | Every one of the five fields is set or removed in a table made on the way; an inline table or a value in the way is an error |
| `CodexLaws.SetTopHolds` | crates/routing-service/src/codex/config.rs:1799-1816 | Setting a top-level key with a faithful text always goes through, gives exactly that key the stored meaning (and text, unless decor is kept) or removes it, and leaves every other key alone |
| `CodexPaths.AppliedTells` | crates/routing-service/src/codex/config.rs:1706-1797 | Path by path: model and selector are the given ones, the five fields of the provider are the given ones and no others, those of the previous provider are gone, and every other leaf is what it was |
| `CodexPaths.RestoredTells` | crates/routing-service/src/codex/config.rs:1644-1704 | Path by path: giving one provider back moves nothing but its five fields |
| `CodexPaths.UnrelatedTells` | crates/routing-service/src/codex/config.rs:1516-1558 | The unrelated part has exactly the leaves that stand at no owned path |
| `CodexPaths.CaptureTells` | crates/routing-service/src/codex/config.rs:1360-1416 | Captured is what stands at the owned paths as a value; a table in place of the model or the selector is a collision |
| `CodexPaths.DecorKept` | crates/routing-service/src/codex/config.rs:1799-1833 | With decor kept, a value that replaces a value stands between the same white space and comments |
| `CodexPaths.MeaningIff` | crates/routing-service/src/codex/config.rs:1516-1558 | Two items mean the same exactly when they are the same values, however written |
| `CodexLaws.CaptureAfterApply` | crates/routing-service/src/codex/config.rs:1360-1383 | Capture after apply gives the applied state: the same meaning, and the same text unless decor is kept |
| `CodexLaws.UnrelatedAfterApply` | crates/routing-service/src/codex/config.rs:1516-1558 | Under one provider key apply leaves the unrelated projection unchanged |
| `CodexLaws.UnrelatedAcrossKeys` | crates/routing-service/src/codex/config.rs:1516-1593 | Across provider keys it leaves alone all that is in neither provider's owned fields |
| `CodexOverride.ApplyOverrides` | crates/routing-service/src/codex/config.rs:1706-1797 | A later application overrides an earlier one |
| `CodexOverride.ApplyCaptured` | crates/routing-service/src/codex/config.rs:1360-1416 | Applying the captured state back restores the document up to empty tables exactly when every owned field was a value (a field written as a sub-table is lost) |
| `CodexOverride.SubTableIsLost` | crates/routing-service/src/codex/config.rs:1398-1416 | A concrete document for which it fails |
| `CodexTrees.StripsCommute` | crates/routing-service/src/codex/config.rs:1560-1593 | Stripping two providers' owned fields commutes |
| `CodexTrees.UnrelatedIsStrip` | crates/routing-service/src/codex/config.rs:1516-1593 | The projection of a document is the strip of its meaning |
| `CodexRestoreUnion.UnionSatisfiesChecks` | crates/routing-service/src/codex/config.rs:1595-1641 | For different keys a successful restore union passes all document checks of `restore_union_matches` exactly when the provider restore is one a capture can produce |
| `CodexRestoreUnion.WayBackRestores` | crates/routing-service/src/codex/config.rs:900-918 | From any document passing those checks the way back gives the snapshot's owned state, and its unrelated part exactly when that part had no empty table at the desired key |
| `CodexRestoreUnion.EmptyTableIsLost` | crates/routing-service/src/codex/config.rs:900-918 | A concrete union that passes its checks and whose way back goes through, but comes out without the empty table that the document had |
| `CodexCodec.UnrelatedMoves` | crates/routing-service/src/codex/config.rs:1516-1558 | Moving to another provider key strips that provider from the unrelated part, and nothing else |
| `CodexToml.Toml.AppliedPrintable` | crates/routing-service/src/codex/config.rs:1706-1797 | Applying a state whose texts parse to a document that was read gives one that can be printed and read back |
| `CodexToml.Toml.CapturePrintable` | crates/routing-service/src/codex/config.rs:1360-1416 | What is captured from a document that was read are texts that parse back to what they were taken from, exactly when they can stand on lines of their own |
| `CodexReturn.AppliedIffOpen` | crates/routing-service/src/codex/config.rs:1751-1768 | An application goes through exactly when it has no provider fields to set, or real tables (or none yet) to set them in |
| `CodexReturn.ReturnsIff` | crates/routing-service/src/codex/config.rs:1706-1797 | The state before can be applied again after an application exactly when that leaves nothing inline where its provider fields have to go, which the document before it shows |
| `CodexCodec.InlineTableIsStuck` | crates/routing-service/src/codex/config.rs:1752-1760 | A concrete document (a provider written as an inline table with one more field) whose application passes its check and cannot be taken back |
| `CodexCodec.VerifyAgrees` | crates/routing-service/src/codex/config.rs:938-955 | After an application `verify` finds the owned state always, and the unrelated part exactly when the snapshot's held none of the owned fields, and no empty table, at the desired key |
| `CodexCodec.FreeIffStripped` | crates/routing-service/src/codex/config.rs:1560-1593 | A projection is its own strip exactly when it holds none of the owned fields, and no empty table, at the key |
| `CodexChecks.SameMeaningTells` | crates/routing-service/src/codex/config.rs:1437-1451 | Owned states compare by key and, place by place, by meaning |
| `CodexChecks.RestoreTells` | crates/routing-service/src/codex/config.rs:1145-1192 | A provider is absent when none of its five fields is a value, and can be given back exactly when all of them are values of the kind the service writes |
| `CodexChecks.SelectedTells` | crates/routing-service/src/codex/config.rs:1134-1143 | Captured too is the provider in use, when it is another one and named by a text that is not blank |
| `CodexChecks.FileStateTells` | crates/routing-service/src/codex/config.rs:1469-1471 | Files compare by existence and permission bits |
| `CodexChecks.PlannedTells` | crates/routing-service/src/codex/config.rs:1633-1642 | The planned file state: no file when there was none and nothing is written, else the old permissions or 0600 |
| `CodexCodec.TakenKeyIsRefused` | crates/routing-service/src/codex/config.rs:655-662 | A concrete document whose own provider has the desired key: the application is written, the provider's own name is overwritten in it, and the check afterwards refuses it |
| `CodexCodec.CodexConfigCodec.AtomicApply` | crates/routing-service/src/codex/config.rs:655-662 | Success shows the desired state, written durably over the file the snapshot was taken of, any other file being left alone, and the file too when the edits do not go through; when nothing fails it succeeds exactly when its tables can be made and the desired key is free; every crash point is recoverable when the way back is open |
| `CodexCodec.CodexConfigCodec.Verify` | crates/routing-service/src/codex/config.rs:938-955 | Accepts exactly a file that means the desired state beside the snapshot's unrelated part |
| `CodexCodec.CodexConfigCodec.Restore` | crates/routing-service/src/codex/config.rs:787-819 | Success means exactly the captured owned texts are back, the unrelated part is kept, and a file that is left has the permissions of the one it replaced; from a restorable file it succeeds when nothing fails, with existence and permissions as before |
| `CodexCodec.CodexConfigCodec.MatchesBefore` | crates/routing-service/src/codex/config.rs:1042-1047 | True only when owned state, unrelated part, existence and permissions all match |
| `CodexCodec.CodexConfigCodec.ReconcileOne` | crates/routing-service/src/codex/config.rs:971-1031 | RolledBack is recorded only when the file shows the state before; recoverability is kept; a file that shows the state before already, or that cannot be rewritten, is not touched; an undisturbed reconciliation rolls back exactly the recoverable files |
| `CodexRecovery.RecoverableIffUndoable` | crates/routing-service/src/codex/config.rs:971-1031 | The file that an application wrote, checked or not, is recoverable exactly when the desired key was free and the way back open, or the application changed nothing; what is not recoverable is not rewritten either |
| `CodexRecovery.ShowsBeforeIff` | crates/routing-service/src/codex/config.rs:992-999 | From another key the written file shows the state before after all exactly when the desired provider already stood there with all its fields, the provider from before had none, and the top-level keys kept their texts |
| `CodexRecovery.TakenKeyIsLost` | crates/routing-service/src/codex/config.rs:1008-1031 | A concrete file of the taken document: once the application is written, nothing rolls it back |
| `CodexRecovery.NeverRollsBack` | crates/routing-service/src/codex/config.rs:957-1031 | What can be neither recovered nor rewritten stays as it is through any number of starts, and no roll-back is ever recorded |
| `CodexRecovery.ApplyThenReconcile` | crates/routing-service/src/codex/config.rs:655-662 | An undisturbed application and an undisturbed reconciliation: the first succeeds exactly when its tables can be made and the desired key is free; whether it succeeded, was refused after the write, or wrote nothing, the second rolls back exactly when nothing was written or the application is undoable, and otherwise leaves the file alone |
| `CodexRecovery.SameKeyReturns` | crates/routing-service/src/codex/config.rs:1706-1797 | Under one key a desired state with provider fields always finds the key free and the way back open |
| `CodexRecovery.CrashesThenRecovery` | crates/routing-service/src/codex/config.rs:655-662 | The whole story of one stored intent, for any application across two provider keys, from any crash point through any number of starts: what the crash left is recoverable exactly when nothing was written yet or the application is undoable; then the first undisturbed start rolls back for good, and otherwise none ever does |
| `CodexCodec.CodexConfigCodec.WriteOwned` | crates/routing-service/src/codex/config.rs:1049-1077 | Writes only over the expected snapshot; carries the file contract to the applied document |
| `CodexUnionCodec.AtomicRestoreUnion` | crates/routing-service/src/codex/config.rs:664-699 | Success passes every check including existence and permissions, durably; a file that is not the one the snapshot was taken of is not touched, nor is any file when the edits do not go through; every crash point shows the old version or a document that passes the checks; when nothing fails it succeeds, except exactly for an empty union over a missing file |
| `CodexUnionCodec.EmptyUnionOverNothing` | crates/routing-service/src/codex/config.rs:664-699 | Such a union |
| `CodexUnionCodec.VerifyRestoreUnion` | crates/routing-service/src/codex/config.rs:701-724 | Accepts exactly what the checks accept |
| `CodexUnionCodec.RestoreUnionOrConfirmBefore` | crates/routing-service/src/codex/config.rs:859-936 | Success only when the file shows the snapshot with its existence and permissions; a file that shows it already is confirmed exactly when both states have one provider key, and one that does not show the union is not touched; every crash point shows the union still or the owned state from before; when nothing fails it succeeds from a file that shows the union exactly when its edits go through and no empty table gets lost |
| `CodexUnionReturn.UnionReturnsIff` | crates/routing-service/src/codex/config.rs:900-918 | The edits of the way back go through exactly when the union left nothing inline where provider fields have to go back and the serialiser takes those of the desired provider; the document before the union shows both |
| `CodexUnionCodec.InlineUnionIsStuck` | crates/routing-service/src/codex/config.rs:900-918 | A concrete union that cannot be taken back |
| `CodexUnionCodec.UnionThenBack` | crates/routing-service/src/codex/config.rs:859-936 | An undisturbed union and way back restore the file exactly when that holds and no empty table stood under the desired key |
| `CodexUnionCodec.NothingLeft` | crates/routing-service/src/codex/config.rs:919-936 | When the file did not exist before, the way back leaves an empty document, so the file is removed again |
| `RouteHealth.RouteHealthRuntime.Admit` | crates/routing-service/src/model/router.rs:214-249 | Asking creates the circuit; a permit is handed out exactly in a closed phase, 60 seconds after opening, or half open with no probe under way |
| `RouteHealth.RouteHealthRuntime.Succeed` | crates/routing-service/src/model/router.rs:251-277 | One success on one circuit, every other circuit untouched, the permit used up; the observation has the new counters, and is degraded exactly at the first success of a half-open phase |
| `RouteHealth.RouteHealthRuntime.Fail` | crates/routing-service/src/model/router.rs:279-305 | One failure on one circuit, every other circuit untouched, the permit used up; unavailable is reported, and the circuit opened, exactly from half-open, at the fourth failure in a row, or from ten attempts on at 60 % failures |
| `RouteHealth.RouteHealthRuntime.Drop` | crates/routing-service/src/model/router.rs:329-343 | Dropping an unfinished permit frees the probe slot of a half-open circuit and nothing else |
| `Circuits.SucceedIsSound` | crates/routing-service/src/model/router.rs:251-277 | A success keeps the circuit invariant; "healthy" is reported exactly when the circuit is closed |
| `Circuits.FailIsSound` | crates/routing-service/src/model/router.rs:279-305 | A failure keeps the circuit invariant; "unavailable" means open since now; a closed circuit has at most 3 failures in a row and none, or fewer than 10 attempts, or a lifetime failure rate below 60 % |
| `Circuits.AdmitIsSound` | crates/routing-service/src/model/router.rs:214-249 | Admission keeps the circuit invariant; probes are exactly the permits given outside a closed phase |
| `CircuitHistories.CountersTellHistory` | crates/routing-service/src/model/router.rs:251-305 | In every run the counters are those of the history of completions: attempts, failures, and how many of one kind came last |
| `CircuitHistories.ClosedOpensIff` | crates/routing-service/src/model/router.rs:279-305 | In every run a closed circuit opens exactly by a failure after which the last four attempts failed, or at least 60 % of at least ten; it stays closed otherwise |
| `CircuitHistories.LastStepTells` | crates/routing-service/src/model/router.rs:214-343 | For every phase and every step, where the step leads, from the history and the clock alone |
| `CircuitHistories.ReportTells` | crates/routing-service/src/model/router.rs:279-305 | Unavailable is reported exactly for a failure that opens the circuit, healthy exactly for a success that leaves it closed |
| `CircuitHistories.AdmittedIff` | crates/routing-service/src/model/router.rs:214-249 | Who asks in a run is given a permit exactly in a closed phase, after 60 seconds of rest, or when no probe is under way |
| `CircuitHistories.PermitReturns` | crates/routing-service/src/model/router.rs:307-343 | A completion or drop uses up one permit of its kind, and needs one |
| `CircuitHistories.TwoProbesClose` | crates/routing-service/src/model/router.rs:214-277 | After 60 seconds of rest two probes that succeed close the circuit |
| `CircuitRuns.EveryRunIsSound` | crates/routing-service/src/model/router.rs:184-343 | The circuit invariant holds over every interleaving of requests, completions and drops |
| `CircuitRuns.StepKeepsSingleFlight` | crates/routing-service/src/model/router.rs:214-343 | One step keeps single flight exactly when it is not a closed-phase permit completing under a probe |
| `CircuitRuns.SingleFlightIff` | crates/routing-service/src/model/router.rs:214-343 | Over a whole run: `in_flight` holds exactly when one probe is outstanding, at every moment, if and only if no closed-phase permit completes while a probe is in flight |
| `CircuitRuns.ReclosingTakesTwoProbes` | crates/routing-service/src/model/router.rs:214-343 | When no closed-phase permit completes outside a closed phase, a circuit closes again only at least 60 seconds after it opened, by two successful probes with no completion between or before them since the opening |
| `CircuitRuns.StaleSuccessCloses` | crates/routing-service/src/model/router.rs:271-274 | Without that hypothesis: a run in which a stale success closes an open circuit at once |
| `CircuitRuns.StaleSuccessDoublesProbes` | crates/routing-service/src/model/router.rs:258-270 | And a run in which two probes are in flight together |
| `Failover.RoutePinnedPlan` | crates/routing-service/src/model/router.rs:369-492 | What is returned follows from the statuses of the attempts (`Settled`): 2xx that is not given up and every status outside 401, 403, 404, 408, 409, 429, 451 and 5xx but 501 ends the plan, the last of the others is kept in reserve. The loop computes the recursive account, whatever other requests do to the circuits between and during the attempts; every permit taken is completed or dropped exactly once; a circuit that others leave alone is in flight afterwards exactly if it was before |
| `Failover.PlanExplained` | crates/routing-service/src/model/router.rs:369-492 | Attempts and sendings are subsequences of the plan in order; nothing follows a final response or a terminal failure; the response is the final one, else the last retryable one, and none after a terminal failure; the failure is that of the last attempt |
| `Failover.ClosedAreAsked` | crates/routing-service/src/model/router.rs:369-492 | While the circuits are closed, exactly those members are asked before whom no answer ended the plan |
| `Failover.ObservationsTell` | crates/routing-service/src/model/router.rs:397-474 | The observations, attempt by attempt: a success, the kind of failure, or nothing for a status that is neither |
| `Failover.EndedTells` | crates/routing-service/src/model/router.rs:397-474 | The circuit counts an attempt the way it is observed: once or not at all, as a failure or not |
| `Failover.PlanLeavesNothingInFlight` | crates/routing-service/src/model/router.rs:369-492 | However the attempts end, a circuit that others leave alone is not left in flight by them |
| `Failover.EndedNotInFlight` | crates/routing-service/src/model/router.rs:329-343 | The moment an attempt is over its circuit is out of flight, whatever others made of it, unless a closed-phase permit is dropped unreported, which changes nothing |
| `RouteHealth.OthersKeep` | crates/routing-service/src/model/router.rs:214-343 | Any calls of other requests keep every circuit sound and touch only the circuits they work on |
| `RouteHealth.OthersWork` | crates/routing-service/src/model/router.rs:214-343 | What other requests do to a circuit is a run of its steps, in order |
| `Failover.Perform` | crates/routing-service/src/model/router.rs:397-474 | One admitted attempt: its verdict and what it reports to the circuit as it is by then |
| `Sse.NextEventStable` | crates/routing-service/src/model/commitment.rs:258-269 | A separator once found stays the first one, whatever bytes follow, with LF LF and CRLF CRLF mixed |
| `Sse.ScanNextEvent` | crates/routing-service/src/model/commitment.rs:258-269 | The scan over the tail finds the first separator |
| `SseText.NextEventIff` | crates/routing-service/src/model/commitment.rs:258-269 | An event ends where the first LF LF or CRLF CRLF stands |
| `SseEvents.EventTells` | crates/routing-service/src/model/commitment.rs:281-352 | The effect of an event as it is written, with any white space, comments, line ends and data over several lines: by the type in its data, else by its name, name by name of each dialect; a retry when the two disagree, when a name is empty or given twice, and when the data is neither `[DONE]` nor JSON |
| `SseVerdicts.FirstEventDecides` | crates/routing-service/src/model/commitment.rs:71-110 | A stream of events that merely announce a response, then one of another effect, then anything, cut into chunks in any way, in time and within 1 MiB: the verdict is that of the deciding event |
| `SseVerdicts.NothingDecides` | crates/routing-service/src/model/commitment.rs:71-110 | A stream in which no event decides is given up when it ends, and committed when time or room run out first |
| `SseVerdicts.RanOutIff` | crates/routing-service/src/model/commitment.rs:71-110 | They run out exactly when, before an error or the end, the timer fires or more than 1 MiB came |
| `SseVerdicts.CompressedTells` | crates/routing-service/src/model/commitment.rs:113-139 | A compressed stream gets the verdict of the events in it |
| `SseVerdicts.CompressedUndecided` | crates/routing-service/src/model/commitment.rs:113-139 | And is given up when none of them decides or it does not inflate |
| `SseVerdicts.JsonTells` | crates/routing-service/src/model/commitment.rs:141-231 | A JSON body is committed exactly when it spells an object without `error`, not of type `error`, and for Codex neither failed nor incomplete |
| `Sse.ClassifySseEvent` | crates/routing-service/src/model/commitment.rs:281-352 | The loop over the lines computes the class of an event |
| `Commitment.Response.PrimeSse` | crates/routing-service/src/model/commitment.rs:71-110 | The incremental verdict equals judging from scratch after every chunk; unless the response is given up its body is unchanged, item by item, on every path (event, timeout, size limit) |
| `Commitment.ChunkingDoesNotMatter` | crates/routing-service/src/model/commitment.rs:71-110 | For a stream of at most 1 MiB without error or timeout, cut in any way, the verdict is that of `classify_complete_sse` on all the bytes |
| `Commitment.SameBytesSameVerdict` | crates/routing-service/src/model/commitment.rs:71-110 | Two cuts of the same bytes get the same verdict |
| `Commitment.DecisiveStable` | crates/routing-service/src/model/commitment.rs:233-256 | A decision once made stands, whatever bytes follow |
| `Commitment.ClassifyCompleteSse` | crates/routing-service/src/model/commitment.rs:233-256 | The loop computes the class of a complete text |
| `Commitment.Response.CollectBounded` | crates/routing-service/src/model/commitment.rs:189-215 | The whole body, or a prefix that together with the rest is the body; which of them, or a failure, is decided by what comes first: the end, an error, or the limits of time and size |
| `Commitment.AllReadIff` | crates/routing-service/src/model/commitment.rs:189-215 | A body is collected whole exactly when it is without error, in time and within 1 MiB |
| `Commitment.Response.PrimeCompressedSse` | crates/routing-service/src/model/commitment.rs:113-139 | The verdict is that of the inflated stream as a whole, commitment when time or size run out, and retry on an error; the compressed bytes are replayed |
| `Commitment.Response.PrimeJson` | crates/routing-service/src/model/commitment.rs:141-187 | Commits exactly a body that decodes to a result without an error, or that exceeds time or size; the bytes are replayed |
| `Commitment.Response.PrimeResponse` | crates/routing-service/src/model/commitment.rs:34-69 | The verdict for every content type and encoding: a readable stream is judged chunk by chunk, a gzip one and JSON as a whole, an unknown encoding is committed, any other type retried; whatever is committed replays the upstream body |
| `Commitment.ReplayConservesBytes` | crates/routing-service/src/model/commitment.rs:354-367 | Replaying drops, repeats and reorders no byte, and ends in an error exactly when the body did |
| `Admission.ModelAdmission.BeginDraining` | crates/routing-service/src/model/server.rs:123-141 | The exchange loop, whatever others do in between: decided at one moment by the word as it is then |
| `Admission.ModelAdmission.Resume` | crates/routing-service/src/model/server.rs:143-157 | Only the reserve bit goes; every request stays |
| `Admission.ModelAdmission.TryBegin` | crates/routing-service/src/model/server.rs:690-708 | A guard exactly when the word is not reserved and can still grow |
| `AdmissionRuns.ReserveIdleDecides` | crates/routing-service/src/model/server.rs:117-121 | In any run, reserving an idle runtime succeeds exactly when no request is under way and nobody else holds the reservation |
| `AdmissionRuns.IdleReservationExcludes` | crates/routing-service/src/model/server.rs:117-121 | From then on no request is under way until the reservation is given back |
| `Admission.ModelAdmission.End` | crates/routing-service/src/model/server.rs:711-721 | The last guard of a reserved word, and only that one, notifies |
| `AdmissionRuns.EveryRunIsSound` | crates/routing-service/src/model/server.rs:96-193 | In every interleaving of the atomic steps: the word is twice the number of guards plus the reserve bit, there is at most one holder, a committed reservation has no request beside it, and a waiter at the bare reserve bit has a wake-up pending |
| `AdmissionRuns.ReservedNeverGrows` | crates/routing-service/src/model/server.rs:690-708 | While the word is reserved no step adds a request |
| `AdmissionRuns.ReserversKeepRequests` | crates/routing-service/src/model/server.rs:117-193 | No step of a reserver, giving the reservation back included, starts or ends a request |
| `AdmissionRuns.CommitIsFinal` | crates/routing-service/src/model/server.rs:177-193 | After a successful commit no request is under way then or in any later state |
| `AdmissionRuns.CommitDecides` | crates/routing-service/src/model/server.rs:177-185 | A commit succeeds exactly when no request is under way |
| `AdmissionRuns.StepKeepsWakeUp` | crates/routing-service/src/model/server.rs:159-168 | No wake-up is lost between the look at the word and the wait |
| `AdmissionSteps.BeginsIffOpen` | crates/routing-service/src/model/server.rs:690-708 | A request that nobody interferes with is let in exactly when nobody holds the reservation and there is room, and turned away at once otherwise |
| `AdmissionSteps.ReservesIffFree` | crates/routing-service/src/model/server.rs:123-141 | A reserver that nobody interferes with gets the reservation exactly when nobody else has it, whatever requests are under way |
| `AdmissionSteps.ResumesAtOnce` | crates/routing-service/src/model/server.rs:143-157 | Giving it back undisturbed leaves every request under way and nobody holding it |
| `AdmissionSteps.EndsAtOnce` | crates/routing-service/src/model/server.rs:711-721 | A request that ends is no longer under way |
| `AdmissionSteps.TaskStepTells` | crates/routing-service/src/model/server.rs:690-721 | What each atomic step of a request decides, told by the requests under way and the holder alone |
| `AdmissionSteps.ReserverStepTells` | crates/routing-service/src/model/server.rs:117-193 | What each atomic step of a reserver decides |
| `AdmissionSteps.DrainedGetsThrough` | crates/routing-service/src/model/server.rs:159-168 | When the last request is gone a waiter gets through in at most three steps |
| `AdmissionSteps.PermitTells` | crates/routing-service/src/model/server.rs:159-168 | A wake-up is left over exactly when one was given since the last was taken |
| `Redaction.Redact` | crates/routing-service/src/model/request_recorder.rs:732-758 | The nested loops compute `Redacted`, longest secret first |
| `Redaction.PassTells` | crates/routing-service/src/model/request_recorder.rs:739-754 | A pass replaces the first occurrence by its mask and goes on behind it; a text without one it leaves alone |
| `Redaction.MaskTells` | crates/routing-service/src/model/request_recorder.rs:739-745 | The mask letter by letter: stars, with `[REDACTED]` in front from ten bytes on |
| `Redaction.NoSecretRemains` | crates/routing-service/src/model/request_recorder.rs:732-758 | A secret that masks cannot forge does not show in the result, whatever the input and the other secrets |
| `Redaction.MarkerFreeIsUnforgeable` | crates/routing-service/src/model/request_recorder.rs:739-745 | Secrets without `*`, `[` and `]` are of that kind |
| `RedactionProofs.SafeIffUnforgeable` | crates/routing-service/src/model/request_recorder.rs:732-758 | Exactly those secrets are safe: for any other (that leaves some byte value unused) there are an input and a further secret that make it show |
| `RedactionProofs.OnlySecretsChange` | crates/routing-service/src/model/request_recorder.rs:732-758 | With secrets free of those bytes, only positions inside an occurrence of a secret in the input change |
| `RedactionProofs.StarsLeak` | crates/routing-service/src/model/request_recorder.rs:739-745 | The secret `**` and an input that shows it |
| `Redaction.LongestFirstOrders` | crates/routing-service/src/model/request_recorder.rs:734-738 | The order of the passes: all secrets that are not empty, longest first |
| `PayloadRecording.ResponseObservation.Observe` | crates/routing-service/src/model/request_recorder.rs:153-181 | What is kept, in either form, stays the beginning of what was observed as far as its limit goes, and is marked exactly when something was dropped; a successful response goes to the usage parser whole |
| `PayloadRecording.ResponseObservation.AddRedaction` | crates/routing-service/src/model/request_recorder.rs:137-151 | Raising the limit keeps the capture whole exactly when no payload bytes were dropped before; a compressed capture always stays whole |
| `PayloadRecording.LateRedaction` | crates/routing-service/src/model/request_recorder.rs:137-181 | A run with a gap: the beginning of the secret shows in the record, which an earlier redaction would have covered |
| `PayloadRecording.ResponseObservation.Finish` | crates/routing-service/src/model/request_recorder.rs:183-223 | A payload is stored exactly for an upstream error; it has at most 64 KiB and shows no safe secret; of a whole capture, compressed or not, it is the redacted beginning, marked as cut exactly when there was more or the inflation broke off |
| `PayloadRecording.ResponseObservation.FinishGzip` | crates/routing-service/src/model/request_recorder.rs:192-212 | What the payload and the usage parser get of a compressed body, whole, too large or broken |
| `PayloadRecording.ObserveAll` | crates/routing-service/src/model/request_recorder.rs:158-186 | The record does not depend on how the payload was cut |
| `PayloadRecording.SecretsAreCapturedWhole` | crates/routing-service/src/model/request_recorder.rs:114-137 | A secret that begins in the part that is kept is captured to its end |
| `Calendar.NextCountsOneMore` | crates/routing-service/src/native_usage.rs:524-533 | The successor of every valid date counts one more, over month ends, leap days and centuries |
| `Calendar.CountIsTrue` | crates/routing-service/src/native_usage.rs:524-533 | The date reached by going `n` days from any date counts `n` more |
| `Calendar.LaterIsReached` | crates/routing-service/src/native_usage.rs:524-533 | Every date is reached from every earlier one after as many days as they count apart |
| `Calendar.EpochIsZero` | crates/routing-service/src/native_usage.rs:524-533 | 1970-01-01 counts 0 |
| `Timestamps.ParseRfc3339Ms` | crates/routing-service/src/native_usage.rs:444-506 | Accepts exactly the texts of timestamps of section 5.6 of RFC 3339 with a second below 60 and an instant not before the epoch, and returns exactly that instant, cut to milliseconds; no checked operation can fail |
| `Timestamps.ParseDigits` | crates/routing-service/src/native_usage.rs:508-513 | A run of digits is read as its number, anything else refused |
| `Timestamps.ReadIsText` | crates/routing-service/src/native_usage.rs:444-506 | What is read is what is written |
| `Timestamps.TextIsRead` | crates/routing-service/src/native_usage.rs:444-506 | Every timestamp's text is read as that timestamp |
| `Timestamps.TextLooks` | crates/routing-service/src/native_usage.rs:444-506 | The text of a timestamp has the shape of RFC 3339, its fields where they belong |
| `Timestamps.NextSecondCountsOneMore` | crates/routing-service/src/native_usage.rs:484-506 | Every second counts one more than the one before it, over minutes, hours, days and years |
| `Timestamps.ZonesTell` | crates/routing-service/src/native_usage.rs:484-506 | The epoch counts 0; a time told east of it is an earlier instant, one told west of it a later one |
| `Timestamps.MillisAreTruncated` | crates/routing-service/src/native_usage.rs:478-482 | The fraction is cut, not rounded, however many digits it has |
| `Timestamps.EquivalentOffsets` | crates/routing-service/src/native_usage.rs:484-506 | Two timestamps on dates any number of days apart, in any two zones, give the same instant exactly when their clocks, offsets removed, are as far apart and their fractions cut to the same millisecond |
| `CatalogDecimals.NanoUsdIsExact` | crates/routing-service/src/native_usage.rs:590-613 | A plain decimal with at most nine places is converted exactly and refused exactly when it does not fit; nothing else is accepted |
| `Pricing.RatioPpm` | crates/routing-service/src/native_usage.rs:615-628 | The ratio rounded half up, refused exactly when the denominator is 0 or it does not fit |
| `Pricing.RatioIsClose` | crates/routing-service/src/native_usage.rs:615-628 | It is within half a part per million of the true ratio |
| `Pricing.PricingCatalog.Price` | crates/routing-service/src/request_history.rs:190-253 | The checked 128-bit computation answers as unbounded integers would: nothing when the cost rounds to 0, overflow exactly when it is positive and it or the timestamp exceeds the signed 64-bit range; the cost is within half a nano dollar of what the price list says of the four counts (`Dues`) |
| `Pricing.HalfUpIsNearest` | crates/routing-service/src/request_history.rs:230-233 | The cost is the exact one rounded half up |
| `Pricing.CostIsNearest` | crates/routing-service/src/request_history.rs:200-233 | The cost from the fields alone: input and output at their prices per million, cached tokens at their shares of the input price, to the nearest nano dollar |
| `Pricing.OverflowIsExpensive` | crates/routing-service/src/request_history.rs:218-233 | A sum that does not fit 128 bits costs more than could be stored anyway |
| `Pricing.SumChecked` | crates/routing-service/src/request_history.rs:200-229 | The loop gives the exact sum unless it cannot fit |
| `Pricing.FromDocument` | crates/routing-service/src/request_history.rs:143-171 | A catalog is loaded exactly when version and source are not blank, every field is in range and no model repeats; it then holds exactly the entries |

## Left out

- ManagedFiles.ManagedFile.ReplaceWithMode: another process is modelled up to the moment the rename is issued; edits after it can be discarded by the roll-back and are not protected by the program.
- The test hooks of the managed file, and the creation and identity check of its parent directory beyond one call that may fail.
- ClaudeCodec.ClaudeConfigCodec.ReconcileOne: intents without stored snapshots, which end in an error before the file is looked at. Several pending intents on one file, and the view that a record of required recovery changes.
- Fingerprints: SHA-256 over the canonical text is equality of the projected document.
- The JSON reader's nesting limit, the exact value of numbers (a number is its literal), and the UTF-8 validity of configuration text outside server-sent events.
- TOML syntax: a document is its items, without the order and decor of keys; a stored rendering is the item it parses to; datetimes are atoms. `CodexToml` says what is relied on: what was read can be printed, what can be printed is read back, and a value that the serialiser writes has the meaning it was given.
- `exact_rollback_restore_union`, preflight checks, shadow detection and the desired-state builders.
- Overflow of the circuit counters, which are unbounded here (the saturating products of the error rate are modelled).
- Failover.RoutePinnedPlan: a call that is given up at an await, when its permit is dropped. Building, sending and priming one attempt are given as its outcome.
- CodexCodec.CodexConfigCodec.AtomicApply: owned fields in an inline table whose surrounding white space and comments could not stand on a line, as TOML 1.1 allows over several lines. Their stored text does not parse back to what it was taken from, and recovery is stated for texts that do (`OnLines`).
- Gzip decoding, which is a given function; timers, which are a bound on the number of items read.
- Memory orderings: the admission word is one atomic, so its steps are interleaved.
- What the usage parsers make of the bytes they are given, and the recorder's queue; the escaped variants of a secret are part of the given list.
- `normalize_models_dev` and the session-log parsers, which mostly copy fields.
- Sockets, HTTP headers, the control protocol, the SQLite store, device authorization, the subscription bridge and the TypeScript control plane.
