# nikon-fleet, modelled and proved

A Dafny model of the parts of nikon-fleet that hold state, run loops or define a format, with proofs of what they keep.
`dafny verify dfyconfig.toml` checks all of it.

Code that changes things step by step is a class or a method proved against a specification; the laws are lemmas about
that specification.

## The diagnostics recorder

`src/diag.rs` records spans and events behind a lock: a list of open spans, a bounded ring of completed entries with
priority eviction, an in-flight file rewritten before a span begins, and an append-only ring file compacted from memory.
A reader must later say from the files alone what became of the process.

| module | what it holds |
|---|---|
| `DiagRecords` | entries, open spans, fields, eviction ranks |
| `DiagRing` | the ring and its closed form |
| `DiagRecorder` | the recorder as a step machine: every interleaving of the calls of any number of threads is a list of steps, a `span` call being two (take a number; take the lock) |
| `DiagSpans` | what entries say: each span's story over whole runs, on the fields of the entries |
| `DiagFiles` | a directory of names, files and open handles, where any operation may fail or stop half-way, and the record of what was on disk after each one: every state a killed process can leave |
| `DiagRingFile`, `DiagLines` | what the ring file holds, in closed form when nothing has failed, and what becomes of a line over every state of the disk |
| `Diag` | the recorder itself, call by call, over that directory |
| `DiagReader`, `DiagRun` | the reader, and whole runs from start to verdict |
| `DiagReport` | the report's collapsing of runs of leaf spans |

The state invariant `Diag.Diag.Valid` is what every call keeps: the ring is the closed form of what was pushed and the
ring file is right about it (`RingFileOk`), the file has lost no line but those of evicted entries (`LinesKept`), the
in-flight file is right about the open spans (`InflightOk`), and, while nothing has failed, at every point at which the
process can be killed each span begun before the exit whose call has returned is in flight or its line has been on the
ring file by then (`KillSafe`). A line can leave the ring file again, when its entry has been evicted and the file is
rewritten; so what a killed process leaves of a span is that it is in flight, on the ring file, or evicted from the ring
by the pushes begun by then (`Accounted`). `DiagRun.Drive` states this for whole runs: it gives for every step the state
of the disk at which it ended, and the disk is exactly right there (`Timeline`). Whatever fails, and wherever the process
is killed, inside a call too, no reader is told of an exit that was not made (`AlwaysHonest`).

Three things the code does that its comments do not say:

* The exit entry does not stay. Entries recorded after the exit that rank as high push it out of the ring once there are
  as many as the ring holds; its line stays on the ring file until the file is next rewritten, at twice the capacity and
  then at every further multiple of the capacity, and from then on the files read as a killed process. `DiagRing.RetainedExactlyWhen`
  says which entries the ring keeps, `DiagRingFile.OnFileExactlyWhen` which lines the file keeps,
  `DiagRun.VerdictIsTrueExactlyWhen` when the verdict is the truth, and `DiagRun.ExitReadsAsKilled` carries out a run for
  which it is not.
* A torn append costs two entries: the one torn, and the next one, whose write succeeded, because its line is glued to what
  the torn one left. `DiagReader.ReadableExactlyWhen` says exactly which lines come back.
* The ring is not "the best `cap` entries": room is made before the new entry goes in, so the newest is always kept and
  only `cap - 1` earlier ones compete.

## Comparing lists and records

`Bytes`, `Iptc` and `IptcDiff` model `src/iptc.rs`, the hex of `src/extended.rs` and the IPTC half of
`src/extended_diff.rs`. That bytes which differ are never silent is a theorem across the three: it rests on the decoder
being strict, so that two records which decode alike are the same bytes. `FtpDiff` models the FTP half: cancellation,
what is common, pairing by name, and the report, of which `FtpReport` says exactly what is in it. `Unicode` says that
what the two codecs take for UTF-8 and UTF-16 is what encodes some list of scalar values. Where a list repeats a blob, cancelling leaves the last copy over while
the common list drops the first, so a list with one copy appended reads as reordered
(`FtpDiff.AppendedCopyReadsAsReordered`); `FtpDiff.OrderReportedExactlyWhen` says for any two lists when the order is
reported. And since the active profile is compared by name, moving it between two profiles of one name is silent
(`FtpDiff.ActiveSilentExactlyWhen`).

## Codecs and an evaluator

`PropDesc` is the property descriptor of `src/prop_sweep.rs` (ISO 15740, section 13.3.3), with `PropValues` saying what
a value of each type is; `FtpBlob` is the profile blob of `scripts/ptpip_read_ftp.py`, with `FtpProfile` saying which
bytes each field is; `CEnum`, `CEvaluator`, `CLiterals` and `CEnumReader` are the grammar, the expression evaluator and
the enum reader of `scripts/extract-maid-labels.py` (ISO C11, sections 6.5.3 to 6.5.12 and 6.7.2.2), with `CMeaning`
saying what an expression means by digits and bits. Each cursor is a class whose reads move one position.

The evaluator reads a literal with a leading zero as decimal where C reads octal, or no constant at all
(`CLiterals.LiteralAgreesExactlyWhen`: they agree exactly where all but the last digit are zeros and the last is octal).

## The property sweep

`Sweep` merges the blocks asked for and asks every code once, up to the first fatal failure or third unusable reply in a
row; `SweepDiff` compares two dumps over what both cover. A dump file's blocks are taken as they stand, so a file whose
blocks overlap has its codes counted more than once (`SweepDiff.CountIsSizeExactlyWhen`, `SweepDiff.OverlapCountsTwice`);
a dump made by a sweep has none.

## Publishing

`Firmware` is one archive directory under any number of ingests, with any step failing and a crash anywhere, a torn
metadata write included. `src/firmware.rs` says an existing `firmware.bin` is never replaced; it is, exactly when the
check for it fails and so answers "not there" and the ingest gets as far as its rename (`Firmware.Ingest`, with `Renames`
as the condition; `Firmware.UnseenBinIsReplaced` is such a run). A metadata write cut
short is not recovered from (`Firmware.RecoversExactlyWhen`).

`Publish` is any number of publishers of one name, their file-system operations interleaved in any order. With hard
links nothing published ever changes. Without them the checked rename can replace what another publisher has just
published (`Publish.FallbackRaces`); `Publish.SettledExactlyWhenClean` says exactly when.

`RangeAgree` is the agreement of two range values (`src/value_shape.rs`) over the reals.

## Model

| member | source | states |
|---|---|---|
| DiagRing.RingClosedForm | src/diag.rs:758-772 | after any run of pushes the ring is, in push order, exactly the newest entry and the best `cap - 1` earlier ones under rank and recency |
| DiagRing.ClosedFormIsUnique | src/diag.rs:758-772 | the closed form names one ring only |
| DiagRing.RetainedExactlyWhen | src/diag.rs:758-772 | an entry is still in the ring if and only if it is the newest or fewer than `cap - 1` earlier ones beat it |
| DiagRing.BurstEvictsAtMostOne | src/diag.rs:465-473 | a burst of any length of low-ranked entries evicts none above them when there is a free slot or a low one, else exactly the victim of its first push |
| DiagRing.PushConserves | src/diag.rs:758-772 | what was pushed is what is kept plus what was evicted, as multisets |
| DiagRing.RingLength | src/diag.rs:758-772 | the ring holds as many entries as were pushed, up to its capacity |
| DiagRing.BeatsOnFields | src/diag.rs:465-473 | who stays longer, by what the entries are: a command that did not succeed, then an event or an unsuccessful leaf, then a successful command, then a successful leaf, and of entries alike the newer |
| DiagRing.EveryPushMakesRoom | src/diag.rs:758-772 | over every run, a full ring makes room by the one that goes first: an unsuccessful command only where nothing else is, an incident only where no successful span is, a successful command only where no successful leaf is, and of those alike the oldest |
| DiagRing.UnsuccessfulCommandsStay | src/diag.rs:465-473 | an unsuccessful command is in the ring if and only if it is the newest or fewer than `cap - 1` others were recorded between it and the newest entry |
| DiagRing.IncidentsStay | src/diag.rs:465-473 | an event, such as the exit, is in the ring if and only if it is the newest or unsuccessful commands and later incidents before the newest entry number fewer than `cap - 1` |
| DiagRecords.FieldOfPutField | src/diag.rs:902-907 | setting a key makes that value the one found and leaves every other key's value |
| DiagRecords.PutAllKeepsLatest | src/diag.rs:852-871 | of several values given for one key the last is the one found |
| DiagRecords.PutFieldKeys | src/diag.rs:902-915 | distinct keys stay distinct, in their order, and only the one set can be new |
| DiagRecorder.EveryRunConserves | src/diag.rs:562-584 | in every interleaving each number issued is in exactly one place: waiting for the lock, open, or recorded |
| DiagRecorder.NumbersAreAccountedFor | src/diag.rs:758-772 | numbers issued = waiting + open + in the ring + evicted |
| DiagRecorder.CompletedAtMostOnce | src/diag.rs:837-849 | no span is recorded twice, nor recorded and still open, even when a shutdown races with its end |
| DiagRecorder.LateCallsOnlyCount | src/diag.rs:837-886 | an `end` or `set` on a span already recorded changes nothing but the count of unmatched calls |
| DiagRecorder.ExactlyOneExit | src/diag.rs:652-705 | the log holds exactly one exit entry, the first shutdown's, with its code and the number of spans open on other threads |
| DiagRecorder.ExitFieldsSay | src/diag.rs:652-705 | a reader of the exit entry's fields finds the code, and the cut-off count exactly when it is not zero |
| DiagSpans.BeginOpens | src/diag.rs:562-584 | a span begins as its caller said, its depth the number of spans its thread has open, with the last value given under each key |
| DiagSpans.EndRecords | src/diag.rs:837-871 | over every run, ending an open span takes out that one and records its number, class, subsystem, operation, depth and thread, the outcome given, and under each key the last value given now, else the one it had |
| DiagSpans.SetFieldSets | src/diag.rs:875-886 | setting a field changes the value under that key of that span, and nothing else |
| DiagSpans.EventRecords | src/diag.rs:611-632 | an event is recorded at once, as its caller said, at its thread's depth |
| DiagSpans.ShutdownRecords | src/diag.rs:652-705 | the first shutdown ends each open span, another thread's as abandoned, its own commands by the code and its own leaves as abandoned, then records the exit with the code, the cut-off spans, the failed writes and the entries evicted by then; a later one changes nothing |
| DiagSpans.EverySpanTellsItsStory | src/diag.rs:562-886 | over every run each recorded span was begun by a step as it is described and ended by a later one with its outcome, and under each key it holds the last value anyone gave it |
| DiagFiles.FileSystem.WriteAtomic | src/diag.rs:382-396 | no state on the way shows part of the new contents, the change happens once, and a failure leaves the file as it was |
| DiagFiles.FileSystem.WriteAll | src/diag.rs:746-755 | an append adds all of its line or, failing, nothing or a torn piece |
| DiagRingFile.FileIsRingThenLater | src/diag.rs:794-798 | with nothing failing the file is the ring at the last rewriting, then every later entry; rewritings fall at 2 * cap, 3 * cap, and so on |
| DiagRingFile.FileHoldsRing | src/diag.rs:758-835 | that file holds the ring in order, is under 2 * cap lines, and never has more lines than entries were recorded |
| DiagRingFile.OnFileExactlyWhen | src/diag.rs:794-835 | an entry's line is on it if and only if it is newer than the last rewriting or was in the ring then |
| DiagLines.LineLasts | src/diag.rs:801-835 | whatever fails, a line once on the file is on it in every later state until the pushes begun by then have made the ring evict its entry |
| DiagLines.OnlyRecorded | src/diag.rs:746-835 | whatever fails, the file never holds anything that is not of a recorded entry |
| DiagLines.RetainedLineStays | src/diag.rs:746-835 | whatever fails, an entry the ring still holds is on the file in every state since its line was |
| DiagRingFile.LineAppended | src/diag.rs:746-755 | a written line keeps the ring file right about the ring: handle, contents, bound and total written |
| DiagRingFile.LineMissed | src/diag.rs:746-755 | a failed append leaves every other retained entry on the file |
| DiagRingFile.Compacted | src/diag.rs:801-835 | a compaction leaves the ring's entries in the file, and the handle on the file at the ring path or none |
| DiagRingFile.NotCompacted | src/diag.rs:801-835 | a failed compaction keeps the old file and handle, with every retained entry whose write succeeded |
| Diag.Diag.Start | src/diag.rs:479-512 | a recorder begins with an empty ring file and nothing in flight, or not at all |
| Diag.Diag.RingPush | src/diag.rs:758-772 | the eviction loop refines the ring's specification, counts what it evicts, and the push is dated by the first state it can write; which entry makes room is said of the entries' fields |
| Diag.Diag.Push | src/diag.rs:758-798 | the invariant is kept under any failure and the push dated; the entry is on the file or a failure was counted, it is the only one that can newly be missing, and at most one line and a ring of lines are written; the ring makes room for the new entry by the one that goes first, said of the entries' fields |
| Diag.Diag.RingAppend | src/diag.rs:746-755 | the line is on the file at the ring path, or the append failed and its entry is the only one newly missing; no line is lost and one is written or none |
| Diag.Diag.Compact | src/diag.rs:801-835 | either the file is the ring line for line and nothing is missing, or it is as it was and a failure was counted; no line of a retained entry is lost |
| Diag.Diag.WriteInflight | src/diag.rs:707-743 | the in-flight file lists exactly the open spans, is absent, or (a removal having failed) is at least whole; a file that is there gives the role, the open spans and both counts as they are |
| Diag.Diag.BeginSpan | src/diag.rs:562-584 | a span that returned before shutdown is from then on, at every kill point, in flight or has had its line on the ring file |
| Diag.Diag.End | src/diag.rs:837-871 | the recorder's state follows the step machine, and the entry reaches the ring file before the span leaves the in-flight file; the span of that number is recorded with the outcome and the last values given, or a late call is counted |
| Diag.Diag.SetField | src/diag.rs:875-886 | the field is seen on the open span and in the in-flight file; a late call only counts |
| Diag.Diag.RecordEvent | src/diag.rs:611-629 | an event follows the step machine and keeps the invariant |
| Diag.Diag.TryEvent | src/diag.rs:598-609 | without the lock nothing is recorded and one failure is counted |
| Diag.Diag.Shutdown | src/diag.rs:652-705 | the spans open are closed, counted and recorded, then the exit; a second call changes nothing; what each span ends as and what the exit entry gives are said of the entries' fields |
| Diag.KillSafeReplaced | src/diag.rs:707-743 | replacing the in-flight file loses no span's evidence when what it drops is on the ring file |
| Diag.KillSafeAdded | src/diag.rs:562-584 | a span handed to its caller after the write is evidenced from that point on |
| Diag.ProtectedIsAccounted | src/diag.rs:707-835 | at a kill point a span whose line has been on the ring file is on it, or evicted by the pushes begun by then |
| DiagReader.ReadableExactlyWhen | src/diag.rs:1530-1587 | a line is read back if and only if what stands before it is a whole line or nothing, and it is whole or lacks only its newline at the end |
| DiagReader.TornWriteHidesNextEntry | src/diag.rs:746-755 | an entry written without a fault after a torn one is on the file and cannot be read back, nor can the torn one any more |
| DiagReader.SortIsAPermutation | src/diag.rs:1530-1587 | a loaded trace holds the readable entries, each once, by sequence number |
| DiagReader.EveryLineReadOrMalformed | src/diag.rs:1543-1567 | every line of a ring file is read back as one entry or counted as malformed |
| DiagReader.LastExitIsTheNewest | src/diag.rs:1296-1316 | the exit a reader goes by is the newest event named so of one of the three roles |
| DiagReader.CodeUnknownExactlyWhen | src/diag.rs:1296-1316 | the code is unknown if and only if nothing is in flight and the newest exit has no number for it |
| DiagReader.VerdictAgreesExactlyWhen | src/diag.rs:1296-1316 | the verdict on the files is the truth about the process if and only if no exit was recorded or its line is on the file |
| DiagRun.VerdictIsTrueExactlyWhen | src/diag.rs:1296-1316 | the same over what was recorded: if and only if no exit was, or it is newer than the last rewriting or was in the ring then; otherwise it reads as gone without an exit, or as running |
| DiagRun.LaterEntriesEvictExit | src/diag.rs:758-772 | as many later entries of the exit's rank as the ring holds push the exit out of the ring |
| DiagRun.ExitLostAtTwiceTheCapacity | src/diag.rs:794-835 | an exit followed by events only can be read until twice the capacity of entries have been recorded |
| DiagRun.NeverMisread | src/diag.rs:1296-1316 | at every kill point, inside a call too and whatever failed, the in-flight file is readable and an exit that is reported is the one made, with its code and cut-off count |
| DiagRun.ExitReadsAsKilled | src/diag.rs:794-835 | carried out where nothing fails, an exit at once and 2 * cap - 1 events: gone without an exit; one event fewer: exited cleanly |
| DiagRun.LaterEntriesLoseExit | src/diag.rs:794-835 | and once the file has been rewritten since, the exit can no longer be read |
| DiagRun.Drive | src/diag.rs:562-705 | any interleaving of steps carried out on the recorder ends in the step machine's state, with the invariant; each step's end is given, with the disk right there and the step's pushes before it; retained lines have stayed on the file and no exit is ever misread whatever failed, and with no failure every span begun before the shutdown is accounted for at every kill point from the end of its step on |
| DiagRun.RunAndRead | src/diag.rs:1530-1587 | for any run whose files did not fail the verdict is the truth, exit code and cut-off count or spans open or not, if and only if no exit was recorded or it can still be read, and is given where it is not the truth |
| DiagReport.Aggregated | src/diag.rs:1625-1643 | the lines are the entries cut into runs, none left out, split, or joined where two neighbours do not join |
| DiagReport.LinesAreDetermined | src/diag.rs:1625-1643 | the lines of a list of entries are determined by that |
| DiagReport.CutIsUnique | src/diag.rs:1625-1643 | there is one such cut |
| DiagReport.LinesCollapse | src/diag.rs:1625-1643 | a line for several entries stands for successful leaves of one subsystem, operation and thread, and two neighbouring lines are never alike so |
| Bytes.HexRoundTrip | src/extended.rs:253-270 | decoding what was encoded gives the bytes back, and encoding writes lower case |
| Bytes.HexIsInjective | src/extended.rs:253-270 | a lower-case text decodes to given bytes if and only if it is what they encode to |
| Bytes.HexIgnoresCase | src/extended.rs:253-270 | a text decodes to given bytes if and only if it is their encoding, letter by letter in either case |
| Unicode.Utf8ExactlyWhen | src/iptc.rs:98-145 | a byte string is accepted as UTF-8 if and only if it encodes a list of Unicode scalar values (RFC 3629, section 3) |
| Iptc.CodecIsABijection | src/iptc.rs:98-193 | bytes decode to a preset if and only if the preset encodes to those bytes |
| Iptc.DecodeThenEncode | src/iptc.rs:98-145 | entries that decode encode back to the same bytes |
| Iptc.EncodeThenDecode | src/iptc.rs:148-193 | entries that encode decode back to themselves |
| Iptc.EncodedIsInjective | src/iptc.rs:159-176 | an encoded list of entries has one reading |
| Iptc.EncodeEntries | src/iptc.rs:159-176 | the encoder's loop gives the specified bytes, or the first entry's error |
| Iptc.DecodeLoop | src/iptc.rs:98-145 | the decode loop ends, each entry taking at least four bytes, and gives what the specification reads, faults and offsets included |
| Iptc.DecodeIptcSlot | src/iptc.rs:98-145 | a slot is a preset, a record of another kind, or an error that says where |
| Iptc.SlotSays | src/iptc.rs:54-145 | when a slot is too short, of another kind, under another header, or has the wrong number of entries, by its bytes; a preset has the header spelt out and fourteen fields |
| Iptc.EntryRefusedExactlyWhen | src/iptc.rs:148-176 | a text is refused for a NUL in it, and otherwise only where its length with the NUL exceeds 32 bits |
| IptcDiff.IptcChanges | src/extended_diff.rs:164-241 | the report has an entry for an item exactly when the item differs, the entry says how, and the entries come once each, by pass, slot and field |
| IptcDiff.BySlot | src/extended_diff.rs:180-188 | each slot's first entry, and exactly the repeated slots with their counts |
| IptcDiff.PresetExactlyWhen | src/extended_diff.rs:214-229 | an entry is compared as the preset whose bytes its text writes, in either case, and as none otherwise |
| IptcDiff.DecodableExactlyWhen | src/extended_diff.rs:230-235 | an entry is decodable if and only if its text writes a preset's bytes or those of a record of another kind |
| IptcDiff.PassesAreExact | src/extended_diff.rs:190-240 | the three passes together miss nothing and add nothing |
| IptcDiff.NothingReportedExactlyWhen | src/extended_diff.rs:164-241 | nothing is reported if and only if no slot is listed twice and every slot has the same bytes on both sides |
| IptcDiff.LowerCaseStores | src/extended_diff.rs:206-237 | for lower-case hex: if and only if both hold the same slots with the same text |
| IptcDiff.SamePreset | src/extended_diff.rs:211-229 | presets equal in every field are the same bytes, because the decoder is strict |
| FtpDiff.CancelOut | src/extended_diff.rs:103-113 | the cancelling loop gives the specified leftovers, in order |
| FtpDiff.CancelLeavesDifferences | src/extended_diff.rs:103-113 | the leftovers are the two multiset differences |
| FtpDiff.CommonIsTheIntersection | src/extended_diff.rs:117-130 | both order lists hold the multiset intersection |
| FtpDiff.CancelLeavesLater | src/extended_diff.rs:103-113 | the leftovers are, of each blob, the copies after as many as the other side has, in order |
| FtpDiff.OrderReportedExactlyWhen | src/extended_diff.rs:114-134 | for any two lists, each order list drops as many first copies of a blob as that side has too many, and the order is reported if and only if what remains differs |
| FtpDiff.CommonKeepsOrder | src/extended_diff.rs:114-134 | where a side repeats nothing its order list is that side without what the other lacks |
| FtpDiff.AppendedCopyReadsAsReordered | src/extended_diff.rs:107-134 | with repeats the order lists differ for a list that only had a copy appended |
| FtpDiff.PartnersAreDistinct | src/extended_diff.rs:135-147 | no two leftovers of one side have the same partner |
| FtpDiff.UnpairedIsTheRest | src/extended_diff.rs:137-147 | what stays unpaired is exactly what is no one's partner |
| FtpDiff.PairsAndUnpaired | src/extended_diff.rs:137-150 | pairs and unpaired together are the leftovers of the second side |
| FtpReport.FtpChanges | src/extended_diff.rs:90-162 | for two stores, the report is the specified one pass by pass and holds exactly the entries for the order, each compared pair, each profile one side alone has, and the active profile; for other states nothing, or one entry with both |
| FtpReport.PartnerExactlyWhen | src/extended_diff.rs:135-147 | two leftovers are compared if and only if they have one name and neither side has another of that name |
| FtpReport.UnpairedAre | src/extended_diff.rs:137-142 | what stays unpaired is the second side's leftovers, in order, less those compared |
| FtpReport.PairSaid | src/extended_diff.rs:68-88 | a pair is reported by exactly its rows that differ, with both values unless one is a secret, or, with none and other bytes, by the two lengths |
| FtpReport.ListSaidExactly | src/extended_diff.rs:90-150 | an entry is in the report of two lists if and only if it is the order's, one of a pair, or one profile's that has no partner |
| FtpReport.PairedAreNotWhole | src/extended_diff.rs:138-150 | a profile that is compared is not also said to be on one side only |
| FtpReport.ActiveSaid | src/extended_diff.rs:151-161 | the active profile's entry is there if and only if the slots differ, all profiles have names and the names differ, and gives both names |
| FtpDiff.NothingReportedExactlyWhen | src/extended_diff.rs:90-150 | nothing is reported about the lists if and only if they hold the same blobs in the same order |
| FtpDiff.LeftoversAccountedFor | src/extended_diff.rs:135-150 | of each side, pairs and the entries for that side alone add up to its leftovers |
| FtpDiff.EveryLeftoverIsReported | src/extended_diff.rs:138-147 | each leftover of the first side, paired or not, gives at least one entry: none is silent |
| FtpDiff.ActiveSilentExactlyWhen | src/extended_diff.rs:151-161 | for any two stores, nothing is said of the active profile if and only if the slots are the same, or the active names are, or some profile has no name |
| FtpDiff.NamesakesAreNotToldApart | src/extended_diff.rs:151-161 | two profiles of one name: nothing is said when the active one changes from one to the other |
| FtpDiff.RowReported | src/extended_diff.rs:68-88 | a field that differs is reported under its caption |
| FtpDiff.SecretsAreNeverShown | src/extended_diff.rs:1-4 | a text in a report is one of the two values of a row that neither of two namesakes holds as a secret |
| CEvaluator.EvalCExpr | scripts/extract-maid-labels.py:106-169 | a token list evaluates to a value if and only if it spells a tree of that value, with every token used; and that is what the tree means, by the digits of its literals and the bits of its shifts and alternations |
| CEvaluator.Evaluator.Primary | scripts/extract-maid-labels.py:120-137 | a primary agrees with the grammar: value, tokens taken, and failure |
| CEvaluator.Evaluator.Muls | scripts/extract-maid-labels.py:139-144 | products associate to the left over primaries |
| CEvaluator.Evaluator.Adds | scripts/extract-maid-labels.py:146-150 | sums and differences associate to the left over products |
| CEvaluator.Evaluator.Shifts | scripts/extract-maid-labels.py:152-157 | shifts associate to the left over sums; a negative count has no value |
| CEvaluator.Evaluator.BitOrs | scripts/extract-maid-labels.py:159-164 | alternations associate to the left over shifts |
| CEnum.LevelSound | scripts/extract-maid-labels.py:120-164 | what is read at a precedence is a tree of the grammar, printed as the tokens taken, and nothing that could have been taken is left |
| CEnum.LevelComplete | scripts/extract-maid-labels.py:120-164 | every tree of the grammar is read back from its own tokens |
| CEnum.GrammarIsUnambiguous | scripts/extract-maid-labels.py:106-169 | a token list has at most one tree |
| CEnum.MinimalTokensEvaluate | scripts/extract-maid-labels.py:106-169 | a tree written with only the parentheses it needs evaluates to its own value |
| CEnum.FewestTokens | scripts/extract-maid-labels.py:106-169 | no way of writing a tree takes fewer tokens |
| CEnum.BitOrIsBitwise | scripts/extract-maid-labels.py:159-164 | the union of two integers' bits, negative ones in two's complement |
| CMeaning.ShiftIsBitwise | scripts/extract-maid-labels.py:152-157 | a shift has a value if and only if its count is not negative, and moves every bit up by the count with zeros below |
| CMeaning.BitsDetermine | scripts/extract-maid-labels.py:152-164 | numbers with the same bits are one, so a shift and an alternation are said in full by their bits |
| CMeaning.InBaseIsWrittenOut | scripts/extract-maid-labels.py:131-134 | a literal's value is the number whose digits in its base these are |
| CMeaning.ValueIsMeaning | scripts/extract-maid-labels.py:106-169 | a tree has a value if and only if that is what it means |
| CLiterals.LeadingZeroReadsAsDecimal | scripts/extract-maid-labels.py:133-134 | octal digits read as decimal keep their value if and only if all but the last are zeros, that is if it is below 8 |
| CLiterals.LiteralAgreesExactlyWhen | scripts/extract-maid-labels.py:131-134 | a literal is what C reads if and only if it has no leading zero, is hexadecimal, or is zeros and an octal digit |
| CLiterals.OctalIsMisread | scripts/extract-maid-labels.py:133-134 | 010 is read as ten and is eight in C |
| CLiterals.ValueIsCValue | scripts/extract-maid-labels.py:106-169 | a tree of such literals has the value it has with C's reading of them |
| CEnumReader.ParseCEnum | scripts/extract-maid-labels.py:172-200 | an enum is read if and only if it has a meaning, and as that meaning, whichever characters beyond ASCII belong to words |
| CEnumReader.EnumIsDetermined | scripts/extract-maid-labels.py:172-200 | an enum has at most one list of values |
| CEnumReader.NameExactlyWhen | scripts/extract-maid-labels.py:193-194 | a name in ASCII is letters, digits and underscores, and does not begin with a digit |
| PropDesc.ParsePropDesc | src/prop_sweep.rs:359-380 | the parse is the specified one, and a fault-free one is the descriptor these bytes spell |
| PropDesc.Reader.Take | src/prop_sweep.rs:267-277 | the next bytes, or a fault with offset and what was left; never past the end |
| PropDesc.Reader.ReadValue | src/prop_sweep.rs:324-357 | one value of the type, kept whole |
| PropDesc.Reader.ReadValues | src/prop_sweep.rs:400-412 | the announced number of values, or those before the fault |
| PropDesc.Reader.ReadForm | src/prop_sweep.rs:385-416 | the form, or what stopped it |
| PropDesc.ParseThenSerialise | src/prop_sweep.rs:359-416 | a fault-free parse serialises back to exactly the input |
| PropDesc.SerialiseThenParse | src/prop_sweep.rs:324-416 | a well-formed descriptor is what its own bytes parse to |
| PropDesc.PrefixIsFaulted | src/prop_sweep.rs:359-416 | no strict prefix of a dataset without trailing bytes passes for a whole one |
| PropDesc.LongerDataset | src/prop_sweep.rs:376-379 | a longer dataset parses to the same descriptor with the rest as trailing bytes |
| PropDesc.ValuesTakeBytes | src/prop_sweep.rs:395-399 | values take at least a byte each, so the count guard never turns away values that are all there |
| PropValues.ValueSaysItsType | src/prop_sweep.rs:291-357 | the value of each type, spelt out: the bytes it has, and for an integer of up to eight bytes the number in two's complement, lowest byte first, where it fits 64 bits with sign |
| PropValues.UnreadableTypes | src/prop_sweep.rs:341-356 | which types have no known element and which no known width |
| Sweep.Normalize | src/prop_sweep.rs:124-135 | the merged blocks cover exactly the codes asked, in order and with a gap between any two, up to 0xFFFF |
| Sweep.NormalIsUnique | src/prop_sweep.rs:122-135 | a set of codes has one such list |
| Sweep.CodesInOrder | src/prop_sweep.rs:671-673 | the codes of merged blocks are strictly ascending and exactly those covered |
| Sweep.SweepBody | src/prop_sweep.rs:655-720 | every covered code is asked once, in order, up to the first reply that ends the sweep; entries and counts are those of the codes asked |
| Sweep.NoteAnswer | src/prop_sweep.rs:643-704 | one answer's entry, counts and streak |
| Sweep.CountsAddUp | src/prop_sweep.rs:446-459 | asked = present + not supported + refused + failed |
| Sweep.CoverageIsWhatWasAnswered | src/prop_sweep.rs:517-529 | a dump covers the codes asked less the one it stopped at |
| Sweep.CoveredCodeHasItsAnswer | src/prop_sweep.rs:483-484 | a covered code has no entry if and only if the body said it is not supported, and otherwise the entry of its answer |
| Sweep.EntrySaysTheReply | src/prop_sweep.rs:643-694 | a covered code's entry is what its reply says, and the reply 0x200A alone leaves none |
| Sweep.HaltsExactlyWhen | src/prop_sweep.rs:646-703 | a reply ends the sweep if and only if it is a time-out, a poisoned session or a USB failure, or the third unusable one in a row |
| Sweep.StopsAtTheFirst | src/prop_sweep.rs:695-703 | a sweep stops at the first fatal failure or third unusable reply in a row |
| Sweep.NeverStopped | src/prop_sweep.rs:695-703 | and otherwise asks everything |
| SweepDiff.ChangeExactlyWhenAnswersDiffer | src/prop_sweep.rs:783-827 | no change if and only if both are absent, or have the same bytes and listing, the same refusal or the same failure tag |
| SweepDiff.ChangeReversed | src/prop_sweep.rs:783-827 | read the other way round, appeared and vanished are exchanged |
| SweepDiff.ChangesBetween | src/prop_sweep.rs:829-852 | the changes list, in order of code and once each, exactly what there is to report over the common coverage |
| SweepDiff.DiffSweeps | src/prop_sweep.rs:854-870 | each change is in exactly one of the two lists, and the noise dump says which; each says what its two answers are, in kind and in every detail that differs |
| SweepDiff.ChangeTells | src/prop_sweep.rs:783-827 | a change appeared, vanished or changed by which side has data; of two present answers it lists, in order and once each, exactly the fields that differ with the old value and the new one, or that just the bytes differ |
| SweepDiff.ChangesSayWhatBecame | src/prop_sweep.rs:783-870 | for two sweeps a listed change appeared if and only if the first body answered 0x200A and the second gave data, vanished if and only if the reverse, and changed otherwise |
| SweepDiff.SilentExactlyWhenAnswersMatch | src/prop_sweep.rs:783-852 | for two sweeps, a commonly covered code is unreported if and only if both bodies gave the same answer |
| SweepDiff.ComparedIsTheCommonCoverage | src/prop_sweep.rs:831-858 | for two sweeps, compared is the size of the common coverage and not compared that of the symmetric difference |
| SweepDiff.CountIsSizeExactlyWhen | src/prop_sweep.rs:833-834 | counting along blocks counts codes if and only if no counted code is in two blocks |
| SweepDiff.OverlapCountsTwice | src/prop_sweep.rs:833-834 | a file with overlapping blocks has a code counted twice |
| SweepDiff.SwappingDumps | src/prop_sweep.rs:829-852 | swapping the dumps lists the same codes with appeared and vanished exchanged |
| Firmware.Ingest | src/firmware.rs:228-326 | at every kill point firmware.bin is kept, and metadata is beside bytes of its digest, if and only if no rename goes over a file the check did not see; the end state follows, and with nothing failing the outcome is the specified one |
| Firmware.Stage | src/firmware.rs:280-308 | until the rename nothing but the part and the page changes; after it firmware.bin is the checked copy |
| Firmware.Adopt | src/firmware.rs:271-279 | an orphan is completed only if it has the digest being ingested, and is never written |
| Firmware.Compare | src/firmware.rs:249-262 | with metadata there, the digests decide and nothing is written |
| Firmware.Campaign | src/firmware.rs:212-227 | what is seen is the states of a campaign, each ingest beginning where the one before it ended or was killed |
| Firmware.CampaignsAreSafe | src/firmware.rs:212-227 | over every campaign with the look for firmware.bin answered, every state is sound and a firmware.bin is never another one later |
| Firmware.FirstIngestArchives | src/firmware.rs:280-325 | a fault-free ingest into nothing leaves the file's bytes and their metadata |
| Firmware.UnseenBinIsReplaced | src/firmware.rs:249-308 | a firmware.bin that is not reported as there is replaced by another file's bytes |
| Firmware.RecoversExactlyWhen | src/firmware.rs:212-227 | a fault-free ingest of the bytes already there succeeds if and only if the metadata is absent or whole and of this version |
| Publish.StepKeeps | src/snapshot.rs:188-218 | every operation of every publisher that replaces nothing, failing or not, keeps the invariant, and what the name reads stays |
| Publish.AtMostOnePublishes | src/snapshot.rs:180-187 | over every interleaving that replaces nothing at most one publisher is told it published, the name reads its whole bytes, and a file that was there is never replaced |
| Publish.SomeonePublishes | src/snapshot.rs:188-218 | over every interleaving that replaces nothing, when all finish and nothing fails, a free name is published |
| Publish.SettledExactlyWhenClean | src/snapshot.rs:168-178 | what is published never changes again if and only if no fallback rename goes over a file |
| Publish.LinksNeverReplace | src/snapshot.rs:162-166 | with links available none does |
| Publish.WithLinksAtMostOnePublishes | src/snapshot.rs:180-218 | with links available, over every interleaving, failure and death: one publisher at most, its whole bytes, never changing again, and no file that was there replaced |
| Publish.FallbackRaces | src/snapshot.rs:168-178 | without links two publishers can both be told they published, the first one's bytes gone |
| Publish.FinishedLeaveNothing | src/snapshot.rs:208-217 | over every interleaving that replaces nothing, with removals succeeding, every temporary left is an old one or an unfinished publisher's |
| Publish.OnlyItsOwnerTakesItAway | src/snapshot.rs:188-218 | over every interleaving a temporary goes only by its own publisher's removal, if that works, or rename |
| Publish.RenamedIsGone | src/snapshot.rs:168-178 | a rename takes the temporary's name away for good, whatever becomes of the removal after it |
| Publish.PublishNew | src/snapshot.rs:188-218 | the call undisturbed is one of these runs, ends, replaces nothing, and returns by whether the name was taken and what failed |
| Publish.LinkOrRename | src/snapshot.rs:168-178 | the link, or the check and the rename |
| Publish.OpenTemp | src/snapshot.rs:194-203 | the loop passes over names taken and ends with a new file or the error |
| FtpBlob.DecodeFtpProfile | scripts/ptpip_read_ftp.py:219-263 | a blob is accepted if and only if it is the layout spelt out with nothing left over, and the error otherwise is the first fault, with its offset |
| FtpProfile.ReadExactlyWhenWritten | scripts/ptpip_read_ftp.py:219-263 | a blob is read as a profile if and only if the profile is valid and the blob is its fields written out, byte for byte, each empty PTP string in either of its spellings |
| FtpProfile.FirstBadIsTheFirst | scripts/ptpip_read_ftp.py:201-216 | a text's error is at the end of its longest well-formed prefix |
| Unicode.Utf16ExactlyWhen | scripts/ptpip_read_ftp.py:175-199 | units are accepted as paired if and only if they encode a list of Unicode scalar values (RFC 2781, section 2) |
| FtpBlob.Reader.Take | scripts/ptpip_read_ftp.py:151-157 | the next bytes or an error at this offset; never past the end |
| FtpBlob.Reader.ReadPtpString | scripts/ptpip_read_ftp.py:175-199 | a counted string that ends in its only NUL and has no unpaired surrogate |
| FtpBlob.Reader.ReadUtf8 | scripts/ptpip_read_ftp.py:201-216 | a counted text, the error at its first bad byte |
| FtpBlob.ReadThenSpell | scripts/ptpip_read_ftp.py:219-263 | what was read spells the whole blob again |
| FtpBlob.SpellThenRead | scripts/ptpip_read_ftp.py:219-263 | whatever fits the layout is accepted and read as what it is |
| FtpBlob.FieldsLoseNothing | scripts/ptpip_read_ftp.py:219-263 | blobs with equal fields are equal piece by piece, but for the spelling of an empty PTP string |
| FtpBlob.NoEmptyStringsNoChoice | scripts/ptpip_read_ftp.py:219-263 | with no empty PTP string they are equal |
| FtpBlob.EmptyStringsAreSpeltTwice | scripts/ptpip_read_ftp.py:175-199 | each empty one does have two accepted spellings |
| RangeAgree.SameScaleAgreeExactly | src/value_shape.rs:134-144 | on one stepped scale two values agree if and only if they are at the same valid index |
| RangeAgree.AgreeExactlyWhen | src/value_shape.rs:113-144 | two ranges agree if and only if both hold a number, by position or value, and these are nearer than half a step of each that has steps, or than a millionth or a milliardth of the first |
| RangeAgree.ScaleRunsBetweenItsBounds | src/value_shape.rs:107-110 | a scale begins and ends at its bounds and its steps are alike |
| RangeAgree.AtMostOnePosition | src/value_shape.rs:134-144 | a value, of any scale or none, agrees with at most one position of a stepped scale |
| RangeAgree.SymmetricWhenStepped | src/value_shape.rs:134-144 | agreement is symmetric when either side is stepped |
| RangeAgree.ContinuousSymmetricExactlyWhen | src/value_shape.rs:136-144 | between continuous values it is symmetric if and only if they are not as far apart as the smaller one's tolerance and nearer than the larger one's |
| RangeAgree.SymmetricWhenSmall | src/value_shape.rs:134-144 | so always up to a magnitude of 1000 |
| RangeAgree.NotSymmetric | src/value_shape.rs:138-142 | but not between all continuous values |

## Left out

- DiagRun.RunAndRead: reads the files between two calls; at a kill point inside a call what is proved is the write-ahead property, that the in-flight file is whole, and that an exit is never misread, not that an exit being recorded is already read.
- Sweep.SweepBody: a body's answers are a function of the code, which is no restriction because a code is asked at most once; that a session dies while the device is identified is not modelled.
- Firmware.Ingest: the source file's reads are given values that may differ from one another; the check that model and version are plain path components is left out.
- Publish.PublishNew: writing and syncing go in one step each when nobody else is in between, and the look at the published name is answered; the interleaved runs write in pieces, and there the look may fail.
- Durations, timestamps, the uncompacted trace file and the warning line of the recorder: clocks and an output nothing reads back.
- Directory creation and pruning, process liveness and recycled process numbers: the reader is given whether the process is alive.
- A kill in the middle of one write to the ring file or to a temporary: a torn append is modelled as a failed write, with or without all of the line but its newline, and a temporary is never read.
- Files of another build: its unknown lines and unreadable spans; a reader is given files this recorder wrote.
- JSON and SHA-256: a record is its own line, and a digest is any function of the bytes.
- The words of reports: a report is the items and values it is about; labels, previews and error texts are left as data.
- Keys of a sweep file: an entry is under its code, so a file with keys that are not codes, which loading refuses, is not modelled.
- The text of a PTP string in a property descriptor: it is a function of the bytes kept.
- Decoding an FTP blob in the list comparison: a function of the blob, as the comparison uses it.
- Which characters beyond ASCII are word characters: given; and a literal's digits are taken to be ASCII, as its meaning is stated.
- Splitting an enum's source text into items and tokens, and stripping its comments: the reader starts from tokens.
- Floating point: range agreement is over the reals.
- The USB and PTP/IP sessions, SDK calls, the camera lock, the web view, HTML scraping and the command line: foreign calls and plumbing.
- Tables such as code policies and range policies: finite, and settled by looking.
