# A verified model of the trust-list service

The service keeps a trust graph, trust lists, an M-of-K attested master list, a
revocation ledger and gated evidence documents. Every change is one line of an
append-only journal; a restart replays the journal. This project models that
store, every codec between it and the bytes of the journal, the verdicts it
computes, and the chunked-body decoder of its HTTP client, and proves what they
promise. `dafny verify dfyconfig.toml` verifies all of it.

## What is modelled

| Module | Models |
|---|---|
| `Text`, `Decimal`, `Lists` | the parts of `str`, `format!` and iterator chains that the codecs rely on |
| `Hex` | src/hex.rs |
| `Calendar`, `Rfc3339` | src/time.rs: civil-date arithmetic, the parser and the printer |
| `Json`, `JsonPrefix` | the value tree, its compact printing and parsing, and what becomes of a text that was cut |
| `Signatif` | the data the store keeps, and the crate functions it calls |
| `Wire`, `WireRoundTrip`, `Records` | src/wire.rs, and `AuditRecord::to_json`/`from_json` of src/store.rs |
| `WireForms` | the JSON forms member by member: what each reader accepts of any value |
| `Quorum`, `Master` | src/quorum.rs, and the master-list verdict of src/wire.rs |
| `State` | `apply_op` and the checks of the typed entry points, as functions |
| `Store` | `Store` as a class: fields, log and journal updated in place |
| `Histories`, `Stability` | what holds of every state that a run reaches |
| `Journal`, `Lives` | the journal as text, and what crashes, one after another, leave of it |
| `Restart`, `Seeding` | what a reopened store holds, its numbering, and when the fixtures are written |
| `Chunked`, `ChunkSizes` | the decoder and the read loops of src/httpc.rs, and what its headers announce |
| `RevocationView`, `TrustListView` | the pure part of two handlers of src/api.rs |

**Crate functions.** What the SIGNATIF crates compute is not visible in this
repository. Each such function is a field of `Signatif.Env`: signature
verification, key ids, the key directory, edge acceptance, canonical bytes,
identifier syntax, and the serde images of scopes and conditions. Each is total
and deterministic, and every theorem holds for all of them. The theorems about
verdicts over time need more and say so: `DirectoryFaithful` (the directory resolves an id exactly when
a node registers a key under it, to such a key) and `KeyIdsDistinguish` (no two
keys share an id). `add_node` is insert if absent, `add_edge` appends if
accepted, `declare` refuses a retroactive reason without an attestation and
otherwise appends.

**Typed and fitting values.** `TypedRecord` and its parts say what the Rust
types already guarantee of a value: well-formed identifiers, a key whose bytes
denote its suite, an ordered member set, 64-bit numbers. `RecordFits` and its parts are what a caller can look at before
writing: printable instants, ordered windows, signature lengths that suit the
suite, key ids derived from their keys. `RecordReadBack` is stated for all typed
records: a record comes back unchanged if it fits, and is refused otherwise.

**Runs.** `State.Apply` is `apply_op`, `State.Refusal` what an entry point
answers before it records anything, `State.Fold` the state that a list of
operations builds; an operation that fails to apply is logged all the same and
leaves the state alone, as in a replay. `State.Applied` lists the operations of a
log that were applied. In the class, `Valid` says that the live state is the fold
of the log and that the journal is the original text and the records written
since; `Clean` says that every record written since the opening was admitted when
it was written. The two-state predicate `Answers` says what each entry point does:
a refused call changes nothing; an admitted one is journaled, applied and logged
exactly once. The theorems of `Histories` and `Stability` hold of every list of
operations, hence of every log, also of one that a lossy journal was replayed to
(`Histories.LossLeavesUnapplied` shows that such logs are not histories);
`Restart.LedgerIsSafe`, `Restart.ReleasesAsRegistered` and
`Restart.ReleaseIsJustified` spell this out for a live store.

**The journal** is text. Reading it is splitting into lines, parsing JSON and
decoding the record; a crash cuts it at any character.

## What the proofs show of the code

- *Replay is exact, under a condition.* Reopening restores log and state exactly
  when nothing was written since the last start, or the journal ended a line when it
  was opened and every record written since fits the codec
  (`Restart.RestartRestores`). A record with an instant outside the years 0000 to
  9999 is accepted, applied and journaled, and its line is refused at the next
  start. The text `9999-12-31T23:59:59-00:01` leads there: `Rfc3339.OffsetLeavesRange`
  and, for every store, `Restart.UnprintableIsLost`.
- *A crash recovers a prefix, but the next write may lose a record.* `open`
  appends straight after a torn line (src/store.rs:457). The first record written
  then shares the line and the next start loses it; if only the newline was
  missing, it loses the record before as well (`Journal.TornTailSwallowsNext`).
  `Lives.LivesReplay` and `Restart.NextStartReplays` give the log that each start
  replays after any sequence of crashes.
- *The fixtures are never written again exactly if a complete line holds a record*
  (`Seeding.SeedsAtMostOnce`); told from what a session writes, in
  `Seeding.SessionEndsSeeding`. A crash midway through the first seeding leaves the
  fixtures that got through; if there is none the next start writes all of them, else
  none. Later starts never do exactly if a fitting fixture got through with its
  newline (`Seeding.CrashWhileSeeding`). Without it one further record can lead to a
  second seeding (`Seeding.SeedsTwice`), and a torn first line costs the first fixture
  (`Seeding.SeedingAfterTornStart`).
- *Numbers stop being fresh after an interior loss.* `seq` is the length of the log
  plus one (src/store.rs:637). After a restart the numbers are gap-free, and the next
  one exceeds those in use, exactly if no lost record was followed by a kept one
  (`Restart.NumberingAfterRestart`); after a record swallowed by a torn line, exactly if
  nothing is kept behind it (`Restart.SwallowedRepeatsNumber`).
- *Whether a verdict is quorate can be told from the log*: exactly which keys are
  registered, which of them on the quorum's own node, and that node's last kind decide
  it (`Stability.VerdictFromLog`, `Stability.VerdictOverRun`). So a quorate verdict can
  be lost, by a registration of the quorum's own node and in no other way:
  `Stability.ReRegistrationExact` says exactly when, `Stability.ReRegistrationRevokes`
  gives an instance, and `Stability.VerdictStable` a condition under which it is not.
- *Threshold against distinct witnesses.* `m` is compared with the length of the
  witness list before duplicates collapse (src/store.rs:559-566). The threshold
  is reachable exactly when the list names at least `m` distinct witnesses
  (`Master.ThresholdReachable`, `Master.RepeatedWitnessPasses`).
- *The window filter is not its description.* src/api.rs:848 promises declarations
  whose window overlaps the query; src/api.rs:912-926 tests the query's endpoints.
  `RevocationView.WindowFilterExact` says for every query which are missed. A query
  whose end lies before its start is accepted (src/api.rs:829-837) and read as if it
  were in order, so that it keeps declarations it shares no instant with
  (`RevocationView.KeptWithoutSharing`, `RevocationView.ReversedQueryKeeps`).
- *The decoder accepts more than section 7.1 of RFC 9112 allows.* It skips the two
  bytes after chunk data without looking at them (src/httpc.rs:243-246), and takes a
  size with a sign or blanks. `Chunked.DecodesExactly` gives the grammar that it
  accepts, `Chunked.ConformsExactly` which of those streams the section allows;
  `Chunked.UnclosedExample` and `Chunked.SignedSizeAccepted` are ones that it does not.
- *A chunk size can overflow the cursor* (src/httpc.rs:238): with overflow checks the
  addition panics, without them the wrapped sum makes the slice run backwards, which
  panics too. `Chunked.PanicsExactly` says on which bytes.

## Model

| member | source | states |
|---|---|---|
| `Hex.HexEncode` | src/hex.rs:8-14 | the loop writes two lower-case digits for each byte |
| `Hex.HexDecode` | src/hex.rs:18-50 | the index loop computes `Decode`: trimmed, one `0x` or `0X` dropped, pairs of digits, or an error |
| `Hex.DecodeCharacterised` | src/hex.rs:18-41 | a text decodes to given bytes if and only if its body in lower case is their encoding; nothing else is accepted |
| `Hex.DecodesSpelled` | src/hex.rs:18-41 | a text is accepted with given bytes if and only if it is blanks, at most one `0x` or `0X`, digits in either case that spell the bytes, and blanks |
| `Hex.EncodeTable` | src/hex.rs:8-14 | the two digits written for each byte are its high and its low one in `0123456789abcdef` |
| `Hex.RoundTrip` | src/hex.rs:8-41 | decoding any encoding gives the bytes back |
| `Calendar.DateRoundTrip` | src/time.rs:209-231 | every valid date survives the trip through its day number, negative eras included |
| `Calendar.DayRoundTrip` | src/time.rs:209-231 | every integer denotes a valid date, whose day number it is |
| `Calendar.CivilFromDaysCounts` | src/time.rs:220-231 | the closed form is the date reached by counting days one at a time from 1970-01-01, in either direction |
| `Calendar.NextIsOneMore` | src/time.rs:189-217 | the day number advances by one from each valid date to its successor under the leap-year and month-length rules |
| `Calendar.OrderAgrees` | src/time.rs:209-217 | day numbers are ordered as dates are, and only so |
| `Calendar.YearOfDay` | src/time.rs:223-226 | the division formula finds the March-based year that a day of the era lies in |
| `Rfc3339.Digits` | src/time.rs:175-187 | the accumulating loop reads the number denoted by exactly the given digits, and only inside the text |
| `Rfc3339.ReadDate` | src/time.rs:72-89 | the date at the front, if its month and day exist in that year |
| `Rfc3339.ReadClock` | src/time.rs:90-116 | the optional time of day, and where the cursor then stands |
| `Rfc3339.ReadFraction` | src/time.rs:110-115 | the cursor passes a fraction whatever its length, and never the end |
| `Rfc3339.ReadZone` | src/time.rs:118-142 | the zone must be the rest of the text; its offset |
| `Rfc3339.ParseTimestamp` | src/time.rs:69-147 | the cursor-style parser computes `Parse` on the bytes of the text, every index in range |
| `Rfc3339.ParseDenotes` | src/time.rs:69-147 | a text is accepted with an instant if and only if a stamp of the declarative grammar spells it and denotes that instant: local time minus offset, whatever the fraction |
| `Rfc3339.StampMeans` | src/time.rs:69-147 | the grammar number by number: ranges of year, month, day of that month, time and zone, the separators and marks, how a stamp is written and the instant it denotes |
| `Rfc3339.WrittenReads` | src/time.rs:69-147 | every stamp of the grammar parses to its instant |
| `Rfc3339.ParseBounds` | src/time.rs:117-146 | every result lies within 86340 seconds of the printable range |
| `Rfc3339.OffsetLeavesRange` | src/time.rs:117-146 | the text `9999-12-31T23:59:59-00:01` is accepted, with an instant one minute beyond the last printable one |
| `Rfc3339.CanonicalIsDisplayed` | src/time.rs:150-166 | for the years 0000 to 9999 the printed text is the stamp of the instant in UTC, 20 characters long |
| `Rfc3339.EpochText` | src/time.rs:150-166 | the epoch is printed as `1970-01-01T00:00:00Z` |
| `Rfc3339.DisplayRoundTrip` | src/time.rs:69-166 | parsing what was printed gives the instant back if it is in the years 0000 to 9999, and an error for every other |
| `Rfc3339.DisplayOrder` | src/time.rs:150-166 | text order of printed instants is time order |
| `Json.TextRoundTrip` | src/store.rs:472-474 | reading the printed form of any value tree gives the tree back |
| `JsonPrefix.PrintNoControl` | src/store.rs:642 | a printed value holds no control character, so a record is one line |
| `JsonPrefix.ValueExtends` | src/store.rs:472-474 | a value that the parser has read is read the same when more text follows, except exactly a number at the end of the text that goes on |
| `JsonPrefix.PrefixRefused` | src/store.rs:472-474 | no proper prefix of a printed object is a JSON text |
| `JsonPrefix.JoinedRefused` | src/store.rs:457-474 | a non-empty prefix of a printed object, whole or not, followed by whatever cut records leave is no JSON text |
| `JsonPrefix.CutContinues` | src/store.rs:457-474 | what a cut record leaves, alone or with more of its kind after it, never mends a cut before it |
| `Wire.ReadNode` | src/wire.rs:495-525 | each key is registered after its own checks, one by one; the node read has the given id and every listed key in its place, and the first key that fails its checks fails the node |
| `Wire.ReadWitnesses` | src/wire.rs:712-727 | the loop yields every listed witness in its place, repeated ids included, or fails if and only if some item is no witness or there is no list |
| `WireForms.RecordAccepted` | src/store.rs:233-412 | of any value, exactly which are journal records: a number below 2 to the 64, an instant, one of the nine names and a body that says its operation |
| `WireForms.BodyAccepted` | src/store.rs:252-406 | exactly which bodies say which operation under which name, absent members, defaults and nulls included |
| `WireForms.IntervalAccepted` | src/wire.rs:320-341 | a window is read if and only if its start parses and its end is absent, null, empty or an instant not before it; with exactly those instants |
| `WireForms.TrustEntryAccepted` | src/wire.rs:600-624 | a trust-list entry is read if and only if node and first instant are, and the last one is absent, null, empty or an instant |
| `WireForms.PublicAccepted` | src/wire.rs:47-71 | a key is read if and only if its bytes denote a suite and the declared one agrees with it letter by letter, whatever the case and the hyphens |
| `WireForms.SlotAccepted` | src/wire.rs:88-120 | a slot is read if and only if suite and key id are, and the signature is absent, null or as long as the suite demands |
| `WireForms.SubjectAccepted` | src/wire.rs:159-198 | exactly which values are which revoked subject |
| `WireForms.ReasonAccepted` | src/wire.rs:260-295 | exactly which values are which reason, token by token |
| `WireForms.QuorumAccepted` | src/wire.rs:355-382 | exactly which values are which attestation |
| `WireForms.RevocationAccepted` | src/wire.rs:399-427 | exactly which values are which revocation; its attestation may be absent or null |
| `WireForms.KindAccepted` | src/wire.rs:447-480 | exactly which values are which node kind; order and repetition of the listed members do not matter |
| `WireForms.OrderedIsSet` | src/wire.rs:468-475 | collecting members into the ordered set keeps exactly them, increasing and once each |
| `WireForms.KeyAccepted` | src/wire.rs:507-520 | a registered key is read if and only if its id is the one derived from the key |
| `WireForms.NodeAccepted` | src/wire.rs:495-525 | a node is read if and only if id and kind are, and its keys each in their place; anything but a list counts as no keys |
| `WireForms.EdgeAccepted` | src/wire.rs:541-572 | exactly which values are which delegation |
| `WireForms.AttestationAccepted` | src/wire.rs:653-670 | exactly which values are which witness attestation |
| `WireForms.MasterEntryAccepted` | src/wire.rs:679-696 | exactly which values are which master-list entry |
| `WireForms.WitnessAccepted` | src/wire.rs:712-727 | exactly which values are which witness |
| `WireForms.LabelAccepted` | src/wire.rs:201-227 | a label names a subject if and only if its kind, blanks aside, stands before the first colon and its id behind it |
| `WireForms.CollectReads` | src/wire.rs:373-376 | a list is read if and only if every item is, each in its place |
| `WireForms.Readers` | src/wire.rs:373-376 | the readers of list items are those of single values; a member is a text that is a node id |
| `WireForms.InForceMeans` | src/wire.rs:586-588 | an entry is in force from its first instant on until it is superseded |
| `WireForms.ShownInterval` | src/wire.rs:312-318 | `open` tells whether there is no end |
| `WireForms.ShownKey` | src/wire.rs:39-45 | `public_len` is the number of bytes |
| `WireForms.ShownSubject` | src/wire.rs:127-156 | `label` is the label of the subject |
| `WireForms.ShownReason` | src/wire.rs:235-256 | `retroactive` tells whether the reason is |
| `WireForms.ShownEntry` | src/wire.rs:591-598 | `in_force_at_as_of` tells whether the entry is in force then |
| `WireForms.ShownWitness` | src/wire.rs:698-710 | `key_id` is derived from the listed key |
| `WireRoundTrip.PublicRoundTrip` | src/wire.rs:39-71 | a public key survives the wire |
| `WireRoundTrip.SlotReadBack` | src/wire.rs:77-120 | a slot comes back if its signature is absent or as long as its suite demands, and is refused otherwise |
| `WireRoundTrip.SubjectRoundTrip` | src/wire.rs:127-198 | every revoked subject survives, the structured condition too |
| `WireRoundTrip.LabelRoundTrip` | src/wire.rs:201-227 | the label of a subject reads back as that subject, except that a condition's label is refused |
| `WireRoundTrip.ReasonReadBack` | src/wire.rs:235-295 | a reason comes back if its instant is printable, and is refused otherwise |
| `WireRoundTrip.IntervalReadBack` | src/wire.rs:312-341 | a window comes back if it is printable and ordered, and is refused otherwise |
| `WireRoundTrip.QuorumReadBack` | src/wire.rs:347-382 | an attestation comes back if all its slots fit, and is refused otherwise |
| `WireRoundTrip.RevocationReadBack` | src/wire.rs:388-427 | a revocation comes back if all its parts fit, and is refused otherwise |
| `WireRoundTrip.OrderedIncreasing` | src/wire.rs:468-475 | collecting an increasing member list into the ordered set changes nothing |
| `WireRoundTrip.KindRoundTrip` | src/wire.rs:433-480 | every node kind survives |
| `WireRoundTrip.KeyReadBack` | src/wire.rs:486-521 | a registered key comes back if its id is derived from the key, and is refused otherwise |
| `WireRoundTrip.NodeReadBack` | src/wire.rs:482-525 | a node, whatever keys it lists, comes back if the ids of its keys are derived, and is refused otherwise |
| `WireRoundTrip.EdgeReadBack` | src/wire.rs:527-572 | a delegation comes back if its slots fit, and is refused otherwise |
| `WireRoundTrip.AttestationReadBack` | src/wire.rs:645-670 | a witness attestation comes back if its instant and slot fit, and is refused otherwise |
| `WireRoundTrip.MasterEntryReadBack` | src/wire.rs:672-696 | a master-list entry comes back if its attestations fit, and is refused otherwise |
| `WireRoundTrip.WitnessRoundTrip` | src/store.rs:179-192 | a witness of a `set-witnesses` record survives |
| `WireRoundTrip.WitnessListingRoundTrip` | src/wire.rs:698-727 | reading the listing of the witness map gives each listed id with its key, in order |
| `WireRoundTrip.TrustEntryReadBack` | src/wire.rs:591-624 | a trust-list entry comes back if its instants are printable, and is refused otherwise |
| `Records.OpReadBack` | src/store.rs:151-406 | each of the nine operations comes back from its name and body if it fits, and is refused otherwise |
| `Records.RecordReadBack` | src/store.rs:151-412 | `from_json(to_json(r))` is `r` exactly when the record fits; otherwise it is an error, never another record |
| `Quorum.Judge` | src/quorum.rs:111-169 | the two loops compute the set-based verdict: distinct member key ids, group slot, asserted threshold |
| `Quorum.VerdictMeans` | src/quorum.rs:111-177 | all five parts of the verdict in terms of signatures: each slot is verified in the quorum domain, over the bytes of the statement, the quorum and the claimed threshold; members through the directory and outside the own keys, the group form under an own key and an asserted threshold |
| `Quorum.FindGroupSlot` | src/quorum.rs:125-135 | the loop with its break finds a group slot if and only if there is one |
| `Quorum.SlotOrderIrrelevant` | src/quorum.rs:111-169 | reordering or repeating slots does not change the verdict |
| `Quorum.FormsExclusive` | src/quorum.rs:125-154 | no slot counts both as group slot and as member slot |
| `Quorum.KeylessNodeCounts` | src/quorum.rs:103-105 | on a quorum node without keys, quorate is exactly: distinct verifying keys reach the threshold |
| `Quorum.ResolutionStable` | src/quorum.rs:149 | as keys are added, an id that resolved keeps resolving to the same key |
| `Quorum.VerdictGrows` | src/quorum.rs:111-169 | in a graph with more keys, but none on the quorum node that a slot names, the member count is no lower, the group form unchanged, and quorate stays quorate |
| `State.AdmittedApplies` | src/store.rs:646-651 | what an entry point admits, `apply_op` never refuses; but for the two evidence operations the checks coincide |
| `Histories.ReplayFailsAlike` | src/store.rs:496-624 | on a replay an operation fails exactly as its entry point would have refused it, with the same error, but for the checks only the evidence entry points make |
| `State.AdmittedSnoc` | src/store.rs:656-838 | a run of admitted operations extended by one is such a run if and only if the entry point admits that one in the state of that moment |
| `State.AppliedSuffice` | src/store.rs:481-484 | leaving out of a log the operations that failed to apply does not change the state it builds |
| `State.AppliedAll` | src/store.rs:481-484 | nothing was left out if and only if every operation applied |
| `Store.Store.constructor` | src/store.rs:437-463 | opening yields the replayed log, or the fixtures if that is empty and seeding is on; state and journal to match; nothing unadmitted since |
| `Store.Store.Replay` | src/store.rs:465-494 | the log is the records of the readable lines, in order, and the state is its fold |
| `Store.Store.SeedFixtures` | src/store.rs:626-631 | the fixtures are recorded once each, numbered from 1, and journaled |
| `Store.Store.ApplyOp` | src/store.rs:496-624 | the new state is that of `Apply`, with its error; a failing operation leaves the state as it was |
| `Store.Store.MergeInto` | src/store.rs:498-514 | insert or merge of a node, key by key; nothing else changes |
| `Store.Store.WriteEntry` | src/wire.rs:629-643 | the entry of the node takes both instants; other nodes keep theirs |
| `Store.Store.CheckWitnesses` | src/store.rs:576-585 | true if and only if every attestation names a registered witness |
| `Store.Store.CheckQuorum` | src/store.rs:589-607 | true if and only if the reason is prospective or an attestation is quorate now |
| `Store.Store.Record` | src/store.rs:634-654 | one line journaled, one operation applied, one record logged under the next number; the store stays valid |
| `Store.Store.RecordAdmitted` | src/store.rs:634-654 | recording an admitted operation applies it with success and keeps all records since the opening admitted |
| `Store.Store.RegisterNode` | src/store.rs:658-660 | always admitted; recorded exactly once |
| `Store.Store.AddEdge` | src/store.rs:662-674 | refused without any change, or recorded exactly once: the clone keeps validation from adding the edge twice |
| `Store.Store.RegisterTrustList` | src/store.rs:676-692 | a conflict without any change, or recorded exactly once |
| `Store.Store.UpsertTrustEntry` | src/store.rs:694-713 | not found without any change, or recorded exactly once |
| `Store.Store.SetWitnesses` | src/store.rs:715-734 | an invalid threshold or list is refused without any change; otherwise recorded exactly once |
| `Store.Store.UpsertMasterEntry` | src/store.rs:736-749 | an unregistered witness is refused without any change; otherwise recorded exactly once |
| `Store.Store.DeclareRevocation` | src/store.rs:751-782 | a retroactive reason without a quorate attestation is refused without any change; otherwise recorded exactly once |
| `Store.Store.RegisterEvidence` | src/store.rs:789-810 | a conflict or an empty field is refused without any change; otherwise recorded exactly once |
| `Store.Store.ReleaseEvidence` | src/store.rs:815-838 | the registered document under its own scope only, and a record of the release; a refusal leaves no record |
| `Histories.AdmittedIsApplied` | src/store.rs:634-654 | an operation that its entry point admitted was applied with success to the state that the log before it built |
| `Histories.LedgerIsDeclarations` | src/store.rs:589-611 | in any log, the ledger is the applied declarations, each once and in order |
| `Histories.RetroactiveSafety` | src/store.rs:589-611 | whatever operations a log holds, each revocation in its ledger was declared by it, and each retroactive one with an attestation quorate against the graph of its own prefix |
| `Histories.DeclaredStays` | src/store.rs:589-611 | a declaration applies if and only if it is prospective or quorate at its moment, and then stays in the ledger |
| `Histories.EvidenceKept` | src/store.rs:612-620 | registered evidence stays as registered, whatever follows |
| `Histories.EvidenceWasRegistered` | src/store.rs:612-620 | a held document is one that the log registered, under its own id |
| `Histories.ReleaseWasRegistered` | src/store.rs:815-838 | every admitted release in any log follows a registration of its id under the released scope, which still determines the content |
| `Histories.RegisteredOnce` | src/store.rs:612-620 | of two registrations of one id in a log the later one is a conflict, for the entry point and for a replay |
| `Histories.EvidenceMaterialises` | src/store.rs:612-620 | a document is held if and only if the log registers its id, and as first registered |
| `Histories.EvidenceRefusals` | src/store.rs:789-838 | what the evidence entry points answer, from the log alone, whatever log was replayed: a conflict for a held id, else invalid exactly if id or scope is blank or the content empty; a release not found, invalid or the document |
| `Histories.HeldAreProper` | src/store.rs:796-808 | what the entry points recorded holds no document with a blank id, a blank scope or no content |
| `Histories.OtherRefusals` | src/store.rs:658-782 | what the other entry points answer, from the log and the graph: exactly when an edge, a witness set, a master entry and a declaration are refused |
| `Histories.RetroactiveReasons` | src/store.rs:591 | the reasons that need an attestation, by their tokens |
| `Histories.ListsStayAligned` | src/store.rs:519-551 | in every state lists and frameworks share the same upper-case keys, each list under its own jurisdiction |
| `Histories.ListsMaterialise` | src/store.rs:519-533 | a list exists if and only if the log registers its jurisdiction in some case, with the spelling and framework of the first registration |
| `Histories.ListRefusals` | src/store.rs:676-713 | what the list entry points answer, from the log alone |
| `Histories.SameLetters` | src/store.rs:523 | spellings that differ only in the case of the 26 letters name one list |
| `Text.CaseTable` | src/store.rs:523 | upper and lower case are those of the 26 letters, and nothing else changes |
| `Text.TrimSplits` | src/store.rs:469 | trimming leaves what stands between the blanks at both ends |
| `Text.TrimIs` | src/store.rs:469 | and that is the only text that stands so |
| `Text.WhitespaceTable` | src/store.rs:469 | which characters are blanks |
| `Histories.TrustEntriesAreLast` | src/store.rs:534-551 | a trust list holds for each node the last entry written while the list was there, and no other |
| `Histories.MasterEntriesAreLast` | src/store.rs:552-588 | master entries are the last written that named only witnesses of their moment, across every replacement of the witness set |
| `Histories.WitnessesAreLast` | src/store.rs:552-575 | threshold and witness keys are those of the last well-formed replacement, or the initial empty ones |
| `Histories.EdgesAreCredentials` | src/store.rs:515-518 | in any log, the edges are the applied credentials, each once and in order |
| `Histories.NodesMaterialise` | src/store.rs:498-514 | in any log a node is present if and only if registered; its kind is the last asserted, its keys those of its first registration as they came and of later ones those whose ids were not yet there |
| `Histories.NodeKeysAreFirst` | src/store.rs:498-514 | if no registration lists a key id twice, the keys are all registered ones, the first of each id |
| `Histories.MergeTwice` | src/store.rs:507-511 | merging two lists one after the other is merging them at once |
| `Histories.MergeIsFirst` | src/store.rs:507-511 | merging key by key is the union by key id in order of first occurrence |
| `Histories.AppliedIsHistory` | src/store.rs:646-648 | a list of pre-validated operations without evidence, such as the fixtures, is a history |
| `Histories.LossLeavesUnapplied` | src/store.rs:477-484 | an entry whose list registration was lost is logged without being applied: such a log is no history, and its state is as if the entry had not been written |
| `Stability.VerdictStable` | src/quorum.rs:111-169 | over any run, verified members never become fewer, the group form is unchanged and quorate is never lost, unless the quorum node is registered again with a key that a slot names, or without its threshold |
| `Stability.ReRegistrationExact` | src/quorum.rs:111-169 | registering the quorum node again takes exactly the members whose keys it brings; the group form verifies afterwards if and only if it did or a brought key is endorsed; quorate afterwards if and only if the group form verifies under an asserted threshold or enough members are left |
| `Stability.VerdictFromLog` | src/quorum.rs:111-169 | at the end of any log: members, group form, asserted threshold and quorate, each if and only if the registrations in the log say so |
| `Stability.VerdictOverRun` | src/quorum.rs:111-169 | from any moment to the end of any run: which members are added and taken, and if and only if what the verdict is then quorate |
| `Stability.VerdictFromKeys` | src/quorum.rs:120-155 | over a graph whose keys are known, the members are the endorsed ids not on the quorum node, and the group form verifies if and only if an own key is endorsed |
| `Stability.KeysAreRegistered` | src/store.rs:498-514 | a graph holds exactly the keys that the log registered, and each node exactly those registered for it |
| `Stability.CertificationKeptExactly` | src/quorum.rs:125-137 | a verdict that rests on a group signature still does if and only if the new registration asserts the same threshold |
| `Stability.RetroactiveStaysQuorate` | src/store.rs:589-611 | under the same condition a retroactive declaration of any log is still quorate at its end |
| `Stability.ReRegistrationRevokes` | src/store.rs:499-506 | registering the quorum node again with a counted member's key takes back a verdict that just reached its threshold |
| `Stability.GraphGrows` | src/store.rs:498-518 | runs only add keys; under the same condition the quorum node keeps its keys, its threshold and the role of every slot |
| `Stability.KeysStayDerived` | src/wire.rs:515-520 | if registrations carry derived key ids, so does every graph that a run reaches |
| `Master.MasterEntryQuorate` | src/wire.rs:781-794 | the loop decides whether at least `m` distinct witnesses attest |
| `Master.QuorateMeans` | src/wire.rs:758-794 | the verdict in terms of signatures: a witness counts if an attestation naming it verifies under its registered key, in the master-list domain, over the entry's node and that attestation's instant |
| `Master.OnlyNamedWitnessesCount` | src/wire.rs:758-794 | the verdict depends only on the keys of the witnesses that the entry names |
| `Master.RepeatsDoNotCount` | src/wire.rs:786-793 | another attestation by a witness that already attests changes nothing |
| `Master.QuorateBounds` | src/api.rs:779-797 | quorate if and only if `m` is at most the distinct witnesses, which never exceed `k` or the verified count |
| `Master.CountsTrue` | src/api.rs:781 | the verified count is the number of attestations that verify |
| `Master.LastKeyInstalled` | src/store.rs:565 | of several keys listed for one witness the last is installed |
| `Master.WitnessMapKeys` | src/store.rs:565 | exactly the listed ids are installed |
| `Master.ThresholdReachable` | src/store.rs:559-566 | `m` is at most `k` if and only if the list names at least `m` distinct witnesses |
| `Master.UnreachableNeverQuorate` | src/store.rs:559-566 | otherwise no entry is ever quorate |
| `Master.RepeatedWitnessPasses` | src/store.rs:715-734 | one witness listed twice is admitted with a threshold of two |
| `Journal.WholeLine` | src/store.rs:467-484 | replaying a whole line gives its record if it fits, and nothing otherwise |
| `Journal.ReturnDropped` | src/store.rs:467 | a line may end in a carriage return and a newline |
| `Journal.WrittenReplays` | src/store.rs:465-494 | replaying what was written for a log gives exactly its fitting records, in order |
| `Journal.AppendReplays` | src/store.rs:457-494 | appending to a journal that ends a line adds exactly the fitting records |
| `Journal.ClosedRecords` | src/store.rs:467-492 | text that ends a line is replayed independently of what follows |
| `Journal.TornLine` | src/store.rs:486-490 | a cut inside a record's text leaves nothing of it |
| `Journal.CrashRecoversPrefix` | src/store.rs:465-494 | cutting the journal of any log anywhere and replaying recovers the fitting records of a prefix of the log |
| `Journal.WholeRecordsMaximal` | src/store.rs:465-494 | that prefix is the longest whose text lies within the cut, the last newline aside |
| `Journal.TornTailSwallowsNext` | src/store.rs:457 | writing on after a torn line loses the torn record and the first one written since, and no other fitting one |
| `Lives.GluedLine` | src/store.rs:467-490 | a line glued together by any number of crashes replays as a record if and only if it is one whole fitting record |
| `Lives.WriteHolds` | src/store.rs:634-645 | writing on after any crashes, cut anywhere, keeps the account of what is on complete lines and what is torn |
| `Lives.LivesReplay` | src/store.rs:437-494 | the log that a start replays after any number of lives, each cut at any character |
| `Lives.ClosedLinesKept` | src/store.rs:437-494 | complete lines keep what they hold, whatever is written and cut afterwards |
| `Lives.UncutLife` | src/store.rs:437-494 | a life that is not cut loses nothing that fits but a first record that shares a torn line |
| `Lives.LinesClosed` | src/store.rs:437-494 | what a cut life adds to the complete lines: the fitting records whose newlines it wrote, but for a first one that shares a torn line |
| `Lives.CutAnywhere` | src/store.rs:437-494 | a cut into what earlier lives wrote leaves what fewer lives would have left |
| `Restart.JournalReplays` | src/store.rs:437-494 | after any run, on a journal in whatever condition crashes left it, the next start reads back what the last start replayed and exactly the fitting records written since, but for a first one that shares a torn line and what that line held |
| `Restart.RestartRestores` | src/store.rs:437-494 | the log comes back if and only if nothing was written, or the journal ended a line when opened and every record written since fits; and with it the state |
| `Restart.JournalStaysClosed` | src/store.rs:634-654 | a run on a journal that ended a line leaves one that ends a line |
| `Restart.Reopen` | src/store.rs:437-463 | a store opened on the journal of such a run has its log, its state and its journal, again ends a line, and so can be reopened in turn |
| `Restart.CrashRestoresMoment` | src/store.rs:437-494 | a crash at any point of what was written since the opening, or anywhere in a journal that is wholly this service's own, restores the log as it stood at some earlier moment |
| `Restart.LedgerIsSafe` | src/store.rs:589-611 | whatever journal a store was opened on, every revocation in its ledger was declared by a record of its log, and every retroactive one was quorate at that point of the log |
| `Restart.ReleasesAsRegistered` | src/store.rs:815-838 | what a live store releases is what a record of its log registered under that id and scope |
| `Restart.ReleaseIsJustified` | src/store.rs:815-838 | each release that a store records follows a registration of that id and scope in its log |
| `Restart.NextStartReplays` | src/store.rs:437-494 | one life of a store, opened on whatever earlier crashes left and cut anywhere in what it wrote: the account of the disk carries on and gives the log that the next start replays |
| `Restart.UnprintableIsLost` | src/store.rs:694-713 | in every store an entry dated by an acceptable text is admitted, applied and journaled, and is not replayed |
| `Restart.TornRestartLoses` | src/store.rs:457 | a store opened on a torn line will have lost the first record it writes |
| `Restart.NumberingKept` | src/store.rs:637 | numbers continue those replayed, and are gap-free if and only if those are |
| `Restart.KeptNumbers` | src/store.rs:637 | what is kept of consecutive numbers is consecutive if and only if the losses come last; otherwise the last number kept exceeds the count |
| `Restart.NumberingAfterRestart` | src/store.rs:637 | after a restart on any such journal the numbers are gap-free, and the next one is fresh, if and only if no lost record was followed by a kept one |
| `Restart.SwallowedRepeatsNumber` | src/store.rs:637 | after a record swallowed by a torn line, glued by however many crashes, if and only if nothing is kept behind it |
| `Seeding.OpeningMeans` | src/store.rs:459-461 | an opening writes the fixtures if and only if seeding is on and nothing is replayed; then all of them, numbered from one |
| `Seeding.SessionsReplay` | src/store.rs:437-494 | the log that each start replays, over any alternation of openings with seeding, runs and crashes |
| `Seeding.SeedsAtMostOnce` | src/store.rs:459-461 | no sessions can follow after which the fixtures are written again, if and only if a complete line holds a record |
| `Seeding.SessionEndsSeeding` | src/store.rs:459-461 | the same told from what a session writes: if and only if a complete line held a record before, or the session completed the line of a fitting one that did not share a torn line |
| `Seeding.UncutSeedsOnce` | src/store.rs:459-461 | of two sessions at most one writes the fixtures, if the first was not cut, began on a complete line and wrote a fitting one |
| `Seeding.ClosedNeverSeeds` | src/store.rs:459-461 | once a complete line holds a record, no later session seeds, whatever crashes |
| `Seeding.UncutLeavesNoTail` | src/store.rs:459-461 | sessions that are not cut end every line |
| `Seeding.CrashWhileSeeding` | src/store.rs:459-461 | after a crash midway through seeding the next start replays the fixtures that got through, and writes all of them if there is none, else none; later starts never write them if and only if a fitting one got through with its newline |
| `Seeding.SeedsTwice` | src/store.rs:457-461 | a crash just before the first newline, and one record: the start after that seeds again |
| `Seeding.SeedingAfterTornStart` | src/store.rs:457-461 | after a torn first record the fixtures are written, and the next start has lost the first of them |
| `Chunked.FindsFirst` | src/httpc.rs:216-218 | what is found is the first occurrence, and nothing is found if and only if there is none |
| `Chunked.DecodeChunkedBody` | src/httpc.rs:222-248 | the cursor loop computes `Outcome`: the body of the chunks, an error, or a panic on overflow; its cursor moves on at every turn |
| `Chunked.AnswersAreFinal` | src/httpc.rs:172-174 | a success, or a header that cannot be read, is not changed by more bytes |
| `Chunked.ReadChunkedBody` | src/httpc.rs:170-186 | the read-and-retry loop returns what decoding the whole stream would, however it was split |
| `Chunked.ReadHead` | src/httpc.rs:122-138 | the header ends at the first blank line, however the stream was split |
| `Chunked.ReadChunkedResponse` | src/httpc.rs:122-186 | header and body together: the answer is a function of the bytes of the stream |
| `Chunked.DecodesExactly` | src/httpc.rs:222-248 | decoding succeeds with a body if and only if the bytes begin with a stream of chunks carrying it |
| `ChunkSizes.SizeExactly` | src/httpc.rs:229-233 | the size a header announces, exactly: UTF-8 text of blanks, at most one plus sign, hexadecimal digits in either case, blanks and whatever a semicolon opens; the number that the digits write, below 2 to the 64 |
| `ChunkSizes.ConformingIsRead` | src/httpc.rs:229-233 | every header that section 7.1 of RFC 9112 allows is read as the value of its digits, or refused beyond 64 bits |
| `ChunkSizes.ConformingExactly` | src/httpc.rs:229-233 | which headers the section allows, byte by byte: digits, and behind blanks whatever a semicolon opens |
| `ChunkSizes.FromUtf8Exactly` | src/httpc.rs:229-230 | bytes are read as a text if and only if they are its encoding |
| `Chunked.ConformsExactly` | src/httpc.rs:230-246 | of the accepted streams, those of section 7.1 of RFC 9112 are exactly the ones whose headers conform and whose chunks end in CRLF; there the strict decoder agrees |
| `Chunked.UnclosedAccepted` | src/httpc.rs:243-246 | any two bytes are accepted where CRLF should stand |
| `Chunked.UnclosedExample` | src/httpc.rs:243-246 | the shortest such stream |
| `Chunked.SignedSizeAccepted` | src/httpc.rs:232-233 | the size `+1` is accepted, which the section refuses |
| `Chunked.CanonicalConforms` | src/httpc.rs:230-246 | the encoding without extensions conforms |
| `Chunked.PanicsExactly` | src/httpc.rs:232-240 | decoding panics if and only if, after some whole chunks, a header announces a size that overflows the cursor |
| `Chunked.LargestSizePanics` | src/httpc.rs:232-240 | the largest size that parses does |
| `Chunked.OverflowIsFinal` | src/httpc.rs:238 | more bytes do not undo an overflow |
| `Chunked.DoneFits` | src/httpc.rs:238 | what decodes does not overflow |
| `Chunked.StreamScans` | src/httpc.rs:222-248 | every stream of valid chunks, extensions and line breaks in data included, decodes to its data whatever follows |
| `Chunked.PrefixIsIncomplete` | src/httpc.rs:226-245 | every proper prefix of such a stream asks for more bytes |
| `Chunked.ChunkedInversion` | src/httpc.rs:222-248 | decoding the encoding of any list of non-empty parts, followed by anything, yields their concatenation; every proper prefix is an error |
| `RevocationView.Revocations` | src/api.rs:891-977 | the loop computes the selected items under the running position |
| `RevocationView.ViewIsFiltered` | src/api.rs:894-977 | the view is `Filtered`: positions grow, each item is read at its own ledger position, and a declaration is listed if and only if it is selected |
| `RevocationView.AnswerMeans` | src/api.rs:894-977 | the items stand in ledger order, one for exactly the declarations that pass the three filters, and each tells of its own declaration whether it was known at the cutoff, voids, how it stands, and whether it is quorate now |
| `RevocationView.AskedFor` | src/api.rs:897-926 | a declaration is asked for if and only if it has the queried retroactivity, a label that begins with the queried subject, and a window in which an end of the queried one lies |
| `RevocationView.CutoffMonotone` | src/api.rs:927-938 | raising the cutoff only adds voids, and only of later declarations |
| `RevocationView.OverlapIsSharing` | src/api.rs:848 | sharing an instant is overlapping, for a query and a declaration in order; otherwise none is shared |
| `RevocationView.WindowFilterExact` | src/api.rs:912-926 | for every query, the filter keeps a declaration if and only if the query put in order overlaps its window and it is not one of the missed ones |
| `RevocationView.KeptWithoutSharing` | src/api.rs:829-926 | a declaration is kept without sharing an instant if and only if it is kept for a reversed query |
| `RevocationView.ReversedQueryKeeps` | src/api.rs:829-926 | a reversed query that keeps a declaration |
| `RevocationView.EnclosingQueryMisses` | src/api.rs:912-926 | a query that strictly encloses a bounded window misses it |
| `TrustListView.CollectListings` | src/api.rs:645-675 | the loop collects a listing for each key that passes both filters, and no other |
| `TrustListView.PlaceKeepsSorted` | src/api.rs:676-681 | placing a listing keeps the order and adds that listing only |
| `TrustListView.SortByJurisdiction` | src/api.rs:676-681 | the sorted listings are the given ones, in strictly increasing jurisdiction |
| `TrustListView.TrustLists` | src/api.rs:643-687 | the answer is strictly sorted and holds exactly the listings that pass the filters |
| `TrustListView.WantedMeans` | src/api.rs:646-675 | the lists whose jurisdiction is the queried one in whatever case and whose framework is the queried one, each with its own spelling, framework and entries |
| `TrustListView.IterationOrderIrrelevant` | src/api.rs:646-681 | such an answer is unique, so it does not depend on the hash map's iteration order |

## Left out

- HTTP: routing, handlers' request parsing, response headers, caching, the OpenAPI document, log paging, metadata listings and the admin token.
- Sockets, timeouts, file opening and failing journal writes: a write appends its characters.
- Invalid UTF-8 in a torn line, which makes `open` fail (src/store.rs:468): the journal is cut between characters.
- Response bodies that are not chunked, header parsing (src/httpc.rs:139-169) and lossy decoding of the header.
- Real cryptography, the keyring and the threshold ceremony: verification is a parameter.
- Scope algebra, trust-path resolution and `Revocation::voids`: not part of this repository; deterministic parameters. A scope or condition is its serde image, taken to survive serde.
- The concrete fixtures: seeding is proved for every list of operations.
- Error texts: an error is `None`, or one of three kinds in the store. Which of several checks fails first is kept only where it decides the kind.
- Nanoseconds: an instant is in whole seconds, and the core crate is taken to print it as src/time.rs does.
- 64-bit overflow: numbers are unbounded. `Rfc3339.ParseBounds` shows that parsed instants stay far below the limit.
- `usize` is taken to have 64 bits.
- Objects are lists of members in key order, which is how the JSON library keeps them.
- `HashMap` fields are maps; only `TrustListView` depends on iteration order, which is a parameter there.
- Wire.ReadNode: `DelegationNode::register` is not part of this model, and is taken to append.
- Stability.VerdictFromLog: asks that registered key ids are derived from their keys, which src/wire.rs:515-520 checks of every node that is read; a registration that skips it is not covered.
- A reason's retroactivity is that of the three reasons that void from the start; condition withdrawal is prospective.
- Json.TextRoundTrip: the text layer has no blanks between tokens, no surrogate-pair escapes, no duplicate members and no depth limit; none of them is ever written. It has no fractions or exponents either: the JSON library's default reader does not promise to restore every fraction, no member that this repository prints is one, and a scope's serde image is taken to hold none.
- Records.RecordReadBack: a `set-witnesses` line with a malformed node id is an error here, where src/store.rs:332-334 panics; such a line is never written.
- Chunked.ReadChunkedBody: the bytes of a response are fewer than 2 to the 64, as every `Vec<u8>` is.
- RevocationView.Revocations: an item holds the position, the declaration, the cutoff, the standing and the verdict; the rest of its JSON is computed from these. Query parsing is left out.
- TrustListView.TrustLists: the entries of a list are its map, and `in_force_at_as_of` is left to `Wire.InForceAt`.
- Restart.JournalReplays: the journal is one that this service wrote, after any crashes, behind text that ends a line; an unfinished line that another program left is not covered.
- Chunked.ConformsExactly: what an extension holds after its semicolon, and the trailer after the last header, are not looked at.
- Restart.CrashRestoresMoment: a cut inside text that another program put there need not replay to a prefix, so there the cut lies in what was written since.
