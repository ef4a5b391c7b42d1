# flatstream-rs: verified core

A Dafny model of the journal at the heart of flatstream-rs, with proofs of what
its documentation and tests promise.

A stream is a concatenation of frames `[4-byte LE length | SIZE-byte LE checksum |
payload]` with SIZE from 0 to 8. Framers write frames, deframers read them back,
`recover` scans a journal after a crash and decides whether, and where, it may be
truncated, and `StreamReader` reads messages into one reused buffer that an
optional memory policy may shrink.

## How it is built

| file | what it holds |
|---|---|
| `Types.dfy` | bytes, machine bounds, results and errors |
| `LittleEndian.dfy`, `Checksums.dfy` | integer fields, the width mask, verification |
| `Wire.dfy` | printer and parser over byte sequences, the scan of a stream |
| `Recovery.dfy` | the recovery contract on every byte string |
| `Corruption.dfy` | what recovery makes of a damaged frame, and of a deframer that does not match the writer |
| `Streams.dfy` | a device with an arbitrary schedule of answers, the counting reader, `read_exact`, the growable buffer |
| `Framing.dfy`, `Scanning.dfy` | framers and deframers as methods, proved against `Wire` |
| `RecoveryScan.dfy` | the scan loop and `recover_file` as methods, proved against `Recovery` |
| `Journal.dfy`, `JournalFile.dfy` | append, crash, recover, truncate, resume: all runs, and on a file |
| `Policies.dfy` | the memory policies as classes, and their meaning over a history of consults |
| `Reclamation.dfy` | the reader's buffer, deferred shrink and policy over a run of reads |
| `StreamReader.dfy` | the message reader as a class, tied to the parser and to `Reclamation` |
| `JournalReading.dfy` | the journal file and the message reader on one device |

Conventions. A checksum's `calculate` is an arbitrary function to 64-bit values;
nothing is assumed of it, not even that its values fit the field. A device answers
its first `read` calls by a finite schedule of events (deliver at most n bytes, or
fail with some kind) and delivers in full after that, which covers every finite
run of short reads, interruptions, faults and early ends of file. Contracts of
reading methods relate two moments of a device: `Told` is what it ended up saying
(undisturbed, end of file before the end, or a fault), `Shown` the bytes the
caller was told exist, `Asked` that it was asked at all, and `Paced` how many bytes
the answers used can have delivered. A custom policy is an arbitrary script of
answers. The clock reading of each consult, and the answers of a `process_all`
closure as a function of the payloads it has seen, are parameters.

## Findings

- **Reclaims per large read.** That each reclaim is paid for by a read above the
  baseline is not true of every run that starts at or below the baseline: growth
  that rounds up, as doubling does, can push the buffer over the baseline on a
  message that is under it (`Reclamation.RoundedGrowthThrashes`). There is at
  most one such extra reclaim (`Reclamation.NoThrash`), and none once a shrink has
  been applied (`Reclamation.NoThrashAfterShrink`). The exact conditions on the
  starting capacity and the bound are `Reclamation.NeverThrashesIff` for every
  allocator, where the reader must be built with the baseline as its capacity or
  with room for every message, and `Reclamation.NeverThrashesDoublingIff` for
  doubling growth, where a bound of half the baseline suffices unless the
  baseline is below the eight bytes a growing buffer is given at least
  (`Reclamation.HalfBaselineNeverThrashesIff`).
- **Corruption and misconfiguration.** `src/recover.rs:90-93` says that neither
  ever authorises truncation. Damage to a payload or to a checksum field does not
  (`Corruption.PayloadDamageIsAnError`, `Corruption.FieldDamageIsAnError`), and
  damage to a length field does, though `src/recover.rs:95-97` calls the report
  correct then: two intact frames are reported as a torn tail at offset 0 after one
  bit of a length flips (`Corruption.LengthDamageInput`).
  `Corruption.DamageVerdict` is the exact verdict on any damage within one frame,
  `Corruption.DamageTruncatesIff` says which damage authorises truncation anywhere,
  and no damage to frame i makes it a torn tail if and only if the reader's bound
  is no more than the bytes from that frame's payload to the end of the file, or
  those are more than a header can declare (`Corruption.DamageNeverTruncatesIff`).
  A checksum deframer over a journal of plain frames authorises truncating all of
  it if and only if fewer bytes follow the first frame than its checksum field is
  wide (`Corruption.WrongConfigurationVerdict`), so every journal of one plain
  frame is such an input (`Corruption.SinglePlainFrameIsTruncated`). The other way
  round nothing is noticed at the first frame, and a field of less than four bytes
  costs the end of the last payload (`Corruption.PlainMisreadsChecksummed`).
- **Device faults.** `src/recover.rs:90-93` says a device fault is an error.
  `read_header` and `read_payload` recognise an end of input by its error kind
  alone, so a fault of that kind is believed. On the first answer it makes any
  journal recover as empty and clean, where any other fault is the error
  (`RecoveryScan.FirstAnswerDecides`). After any number of bytes it acts as a crash
  there (`RecoveryScan.ClaimActsAsCrash`), and inside a frame of an intact journal
  it gives a torn tail whose truncation would remove that frame and all that follow
  (`RecoveryScan.ClaimInsideFrameIsTorn`). Conditions on the device's schedule
  alone: every fault met is reported, for all files and deframers, if and only if
  the first answer the read loops do not absorb is not such a fault
  (`RecoveryScan.FaultsReportedIff`); every verdict is on the whole file if and
  only if that answer is not an empty delivery either
  (`RecoveryScan.VerdictsTrustedIff`).
- **Repair on a device that claims its end early.** Which claims cost the journal
  nothing, by where they fall, is `Journal.ShownRepairHarmlessIff`. After a clean
  end inside the file the documented protocol resumes appending at the reported
  offset, where the next frame overwrites those it finds
  (`JournalFile.AppendInsideOverwrites`, `JournalFile.AppendInsideReplaces`);
  `JournalFile.File` withholds the right to append in that case, and only there
  departs from the protocol.
- **Order of checks.** Section 6 of the wire format document bounds the length
  before reading the checksum field; the checksum deframer's own `read_and_deframe`
  reads both first. `Wire.EntryPointsAgree` gives the one family of inputs on
  which its two entry points differ; recovery therefore calls an over-bound
  header with a torn checksum field a torn tail.
- **Adaptive policy.** The text at `src/policy.rs:176` says `capacity >` and the
  code tests `>=`; they differ exactly when a non-empty message meets a capacity
  equal to the product (`Policies.StrictReadingDiffersIff`). The text at
  `src/policy.rs:187` measures the cooldown from the last over-provisioned event
  and the code from the first of the unbroken run: three consults on which they
  disagree are in `Policies.CooldownRunsFromFirst`, and
  `Policies.CooldownReadingsDifferIff` says exactly when they do. The model follows
  the code.

## Model

| member | source | states |
|---|---|---|
| Checksums.MaskIsFieldMaximum | src/checksum.rs:62-68 | for every width 0..8 the mask is the largest value of the field |
| Checksums.WidthMasking | src/checksum.rs:30-31 | masking a 64-bit value with the width mask is reduction modulo 2^(8*SIZE) |
| Checksums.VerifyIsCongruence | src/checksum.rs:28-36 | default verification accepts exactly the values congruent modulo the field and otherwise reports both reduced; the `NoChecksum` override agrees with it at width 0 |
| Checksums.AlgorithmVerifies | src/checksum.rs:28-36 | for an algorithm of width w and function f: accepts exactly when the value expected and f of the payload leave the same remainder modulo 256^w, and the mismatch carries those two remainders; `NoChecksum` always accepts |
| Checksums.WriteBytes | src/checksum.rs:41-44 | the eight scratch bytes hold the value little-endian, nothing else in the array changes, and the slice returned is the first SIZE of them |
| Checksums.ReadBytes | src/checksum.rs:54-58 | the value of the first SIZE bytes, below the field's limit |
| Checksums.FieldRoundTrip | src/checksum.rs:38-58 | what `write_bytes` puts on the wire `read_bytes` returns modulo the width, and whole at width 8 |
| LittleEndian.ByteOrder | src/framing.rs:61-62 | byte i of an encoded length is its digit of weight 256^i: the wire is little-endian |
| LittleEndian.Canonical | src/checksum.rs:54-58 | every byte string is the one encoding, at its width, of the number it denotes |
| Framing.Framer.FrameAndWrite | src/framing.rs:51-126 | writes at the cursor exactly length, f of the payload at the algorithm's width, and payload (length and payload alone for the plain framer), or rejects a payload beyond 32 bits and writes nothing |
| Framing.AssembleHeader | src/framing.rs:107-124 | the twelve-byte scratch yields length then truncated checksum |
| Streams.Device.Read | src/recover.rs:72-78 | one call of the inner reader: the bytes delivered are those at the cursor, and the event decides between delivery, interruption, fault and end of file |
| Streams.CountingReader.Read | src/recover.rs:72-78 | the count grows by exactly the bytes delivered, and by nothing on an error |
| Streams.Reader.ReadExact | src/framing.rs:146-157 | under every schedule fills the range with the bytes at the cursor or fails; a non-empty request asks the device, interruptions and short reads change nothing, an empty request touches nothing |
| Framing.ReadHeader | src/framing.rs:145-158 | clean boundary, torn header, fault and full header are told apart by the bytes shown, and the device is asked |
| Framing.ReadPayload | src/framing.rs:179-189 | the front of the buffer is the payload; the buffer grows to the greatest length, never shrinks, and reallocates only when it must |
| Framing.Deframer.ReadAndDeframe | src/framing.rs:202-234 | on any stream and schedule the answer is that of the parser of the deframer's own format on the bytes shown, or the device's fault; a success consumes exactly 4 bytes, the checksum's width and the payload, the buffer starts with that payload, and the payload read attempted is the one the bytes taken declare, on faults too |
| Framing.Deframer.ReadLengthFirst | src/framing.rs:210-222 | the provided entry point answers what the length-first parser answers |
| Framing.Deframer.ReadAfterLength | src/framing.rs:272-366 | bound, then checksum field, then payload, for both deframers |
| Framing.Deframer.ReadMergedHeader | src/framing.rs:318-341 | the merged-header entry point answers what the header-first parser answers |
| Wire.EntryPointsAgree | src/framing.rs:318-366 | the two checksum entry points agree on an input if and only if it is not an over-bound length with a torn checksum field, and what each answers there |
| Wire.PlainAgreesEverywhere | src/framing.rs:270-282 | at width 0 both entry points answer what the plain deframer answers on every input |
| Wire.FrameFields | src/framing.rs:107-125 | the layout of a frame: length, checksum, payload, then whatever follows |
| Wire.FrameOfAlgorithm | src/framing.rs:51-126 | a frame in the algorithm's own width and function, and a plain frame |
| Wire.FrameParses | src/framing.rs:318-341 | every in-bound frame is read back, whatever follows it and whatever `calculate` is |
| Wire.ParsedIsCanonical | src/framing.rs:330-340 | bytes are accepted only as the canonical encoding of an in-bound payload, checksum field included |
| Wire.CutFrameVerdict | src/framing.rs:145-189 | every proper cut of a frame is a torn frame, unless it holds the complete header of an over-bound payload |
| Wire.VerdictPersists | src/framing.rs:318-341 | a frame, a bound error and a mismatch do not depend on later bytes |
| Wire.ScanSplits | src/framing.rs:202-234 | every byte string is the canonical encoding of the frames read from it followed by bytes on which reading stops |
| Wire.SplitDeterminesScan | src/framing.rs:202-234 | that split is unique |
| Wire.StreamRoundTrip | src/framing.rs:90-127 | reading the concatenated frames of any in-bound list returns exactly the list and then a clean end |
| Recovery.ExactAtEveryCut | src/recover.rs:106-141 | for every payload list, width, bound and cut: the error exactly when the cut holds the first over-bound header, and otherwise frames, offset and end |
| Recovery.WholeFramesMeaning | src/recover.rs:52-61 | the frame count is the number of frame ends at or before the cut |
| Recovery.ReportIsSound | src/recover.rs:106-141 | on arbitrary bytes a report's prefix is the encoding of the frames counted, the tail is torn exactly when bytes remain, and the truncated journal recovers clean with the same report |
| Recovery.OffsetIsSum | src/recover.rs:55-58 | the offset is the sum of header and payload lengths |
| Recovery.PrefixStability | src/recover.rs:106-141 | a journal that recovers does so at every cut, with the frames that end within it |
| Recovery.ErrorsPersist | src/recover.rs:127-138 | an error verdict keeps its reason under every extension of the bytes |
| Recovery.TornIsExtendable | src/framing.rs:145-189 | a torn plain tail can be completed to one more readable frame if and only if the least length its bytes can declare is within the bound |
| Recovery.WideBoundCompletesEveryTail | src/framing.rs:145-189 | with a bound of at least 2^24 - 1 that condition holds for every torn tail |
| Corruption.DamageVerdict | src/recover.rs:127-138 | any overwriting of one frame of an in-bound journal, exactly: a torn tail there if and only if the length now declared is in bound and beyond the end of the file; beyond the bound the error; otherwise the mismatch with both checksums, or, if they agree, the misread scan |
| Corruption.DamageTruncatesIff | src/recover.rs:90-93 | recovery reports a torn tail anywhere after such damage if and only if that is so, or the field stored agrees with what the new length declares and the rest ends torn when read from there |
| Corruption.DamageNeverTruncatesIff | src/recover.rs:95-101 | no damage to frame i makes recovery report a torn tail there if and only if the bound, or the greatest declarable length, is at most the bytes from its payload to the end of the file |
| Corruption.LengthDamageTruncatesIff | src/recover.rs:90-93 | a rewritten length field alone is taken for a torn tail at its frame if and only if it is in bound and beyond the end of the file |
| Corruption.LengthDamageInput | src/recover.rs:90-93 | the input: two intact frames, under any checksum, reported as a torn tail at offset 0 after one bit of a length flips |
| Corruption.PayloadDamageIsAnError | tests/recovery_tests.rs:86-101 | a replaced payload gives the mismatch with both reduced checksums exactly when they differ modulo the field, even before valid frames, and otherwise leaves the scan unchanged |
| Corruption.PayloadDamageDetectedIff | src/recover.rs:127-138 | for an algorithm of width w and function f: overwriting payload p by q is an error if and only if f(p) and f(q) differ modulo 256^w, and the mismatch carries the two remainders |
| Corruption.FieldDamageIsAnError | src/recover.rs:127-138 | every other value of a checksum field is the mismatch with both values |
| Corruption.WrongConfigurationVerdict | tests/recovery_tests.rs:154-173 | a checksum deframer over plain frames: the whole file is a torn tail if and only if fewer bytes follow the first frame than the field is wide; otherwise the mismatch, or, if the checksums happen to agree, the misread scan |
| Corruption.SinglePlainFrameIsTruncated | tests/recovery_tests.rs:154-173 | the input: every journal of one plain frame, under every deframer with a checksum field |
| Corruption.PlainMisreadsChecksummed | tests/wire_format_corpus.rs:82-112 | a plain deframer over checksummed frames takes a first payload of the right length that begins with the checksum field, and with a field of less than four bytes reports the end of a single frame as torn |
| RecoveryScan.Recover | src/recover.rs:106-141 | the loop terminates under every schedule, asks the device, takes no byte the answers used do not allow, and answers the contract on the bytes shown, or the device's fault; without a claim it reports only at the end of the file |
| RecoveryScan.ReportsEveryFrame | src/recover.rs:80-87 | an undisturbed scan of an in-bound journal by the deframer of the writer's format, plain or checksummed, reports every frame, the whole length and a clean end |
| RecoveryScan.RecoverFile | src/recover.rs:184-192 | scans from the beginning whatever the cursor, changes no byte, and leaves the cursor at the reported offset |
| RecoveryScan.ScheduleIndependence | src/recover.rs:72-78 | short reads and interruptions never change a file's verdict |
| RecoveryScan.FirstAnswerDecides | src/framing.rs:146-150 | on a device whose first answer is a fault or a claim of the end: a fault of another kind is the scan's error, one of the end-of-file kind makes any journal recover as empty and clean |
| RecoveryScan.ClaimActsAsCrash | src/framing.rs:146-157 | an end of file claimed after n bytes of a recoverable file gives the verdict on its first n bytes |
| RecoveryScan.ClaimInsideFrameIsTorn | src/recover.rs:88-93 | the destructive input: an end of file claimed inside frame k of an intact journal reports a torn tail at frame k, short of the file's end |
| RecoveryScan.FaultsReportedIff | src/recover.rs:88-93 | every scan under a schedule reports the fault it meets, for all files and deframers, if and only if the schedule's first answer that is not absorbed is no fault of the end-of-file kind |
| RecoveryScan.VerdictsTrustedIff | src/recover.rs:72-78 | every scan under a schedule gives the verdict on the whole file or an I/O error if and only if that answer is no claim of the end, by a fault or by an empty delivery |
| RecoveryScan.ClaimDeceives | src/recover.rs:106-141 | otherwise there is a journal, computed from the schedule, on which every scan reports a proper prefix |
| Journal.JournalSafety | src/recover.rs:143-192 | over every interleaving of appends, crashes at any byte and recoveries, on devices that claim their end early too, the journal is the encoding of the surviving payloads plus at most one torn frame |
| Journal.RepairVerdict | src/recover.rs:106-141 | exactly when recovery of such a journal succeeds (no payload, whole or declared in a complete torn header, is beyond the bound), and the report it then gives |
| Journal.RepairedReadsBack | src/recover.rs:146-151 | after a successful recovery a reader returns exactly the surviving payloads and a clean end |
| Journal.InBoundAlwaysRepairs | src/recover.rs:146-151 | if nothing beyond the reader's bound was ever appended, every recovery succeeds |
| Journal.ShownIsCrashThenRepair | src/recover.rs:165-180 | truncating on a torn tail found in only part of the file leaves what a crash there and a repair would leave |
| Journal.ShownRepairHarmlessIff | src/recover.rs:146-151 | by the bytes shown and the log alone: a repair keeps every payload exactly when it was shown all whole frames, ended on a boundary or saw the complete header of the first over-bound payload, and also lets appending resume exactly when it was shown more than the whole frames, or all bytes, and these are repairable |
| Journal.CrashRecoverResume | src/recover.rs:163-181 | crash at any byte, recover, append: a reader returns the payloads whose frames survived whole followed by those appended since |
| Journal.LogIsFromAppends | src/recover.rs:4-8 | each surviving payload has an append action of its own that put it there, and these are in order: nothing invented, reordered or duplicated |
| Journal.JournalIsItsAppends | src/recover.rs:163-165 | a journal that was only appended to is the frames of its appends, and ready for more |
| JournalFile.File.Append | src/recover.rs:179-180 | framing at the cursor is the journal's append step |
| JournalFile.File.Repair | src/recover.rs:165-180 | `recover_file` with truncation on a torn tail only, on any device: an I/O error exactly when a fault was met, and then no byte changes; a claim of the end gives the verdict on the bytes before it; otherwise it is the journal's repair step; on an undisturbed device it ends ready exactly on a repairable journal |
| JournalFile.AppendInsideReplaces | src/recover.rs:172-180 | a frame written at the boundary of frame k that ends on a later boundary, or past the end, leaves an intact journal from which the frames covered are gone |
| JournalFile.AppendInsideOverwrites | src/recover.rs:172-180 | whatever its length, a reader finds the frames before, the new one, and then what the uncovered bytes read as |
| JournalReading.ReadBack | tests/recovery_tests.rs:341-351 | `process_all` over the file of a ready journal, on a device that disturbs no read, hands on exactly the surviving payloads up to the first refusal, and ends well if there is none |
| JournalReading.CrashRecoverResume | tests/recovery_tests.rs:314-351 | on one file: crash keeping any bytes, recover, truncate on a torn tail, append and read to the end; with in-bound payloads and an undisturbed device appending resumes and the processor gets the surviving payloads and the new one |
| Policies.AdaptiveWatermarkPolicy.ShouldReset | src/policy.rs:265-317 | one consult of the adaptive policy is one step of its state machine, and one without the signal answers nothing and clears counter and timer |
| Policies.AdaptiveStateMeaning | src/policy.rs:283-313 | in every reachable state the counter is the length of the unbroken run, the timer is the reading at its first consult and is gone after a fire or a break, and the increment never saturates |
| Policies.AdaptiveMeaning | src/policy.rs:294-313 | fires if and only if an unbroken run since the last fire, of consults with a non-empty message and a capacity of at least ratio times it, is long enough or old enough; the time reason wins ties; a clock that goes backwards counts as standing still |
| Policies.OverIsSignal | src/policy.rs:270-278 | the test with the saturating product is the plain one: size above 0, and capacity at least ratio times size or the greatest word |
| Policies.NoSignalNoFire | src/policy.rs:277-294 | never fires on an empty message, or while the capacity is below ratio times the message and below the greatest word |
| Policies.SomeConsultFires | src/policy.rs:294-313 | out of any messages_to_wait consults in a row with a non-empty message and a capacity of at least ratio times it, one fires |
| Policies.StrictReadingDiffersIff | src/policy.rs:174-184 | the code's signal and the strict one of the description differ exactly when a non-empty message meets a capacity equal to ratio times its size, or to the greatest word below that, and a policy that waits for one message then fires |
| Policies.CooldownReadingsDifferIff | src/policy.rs:187 | the time trigger differs from a cooldown measured since the previous over-provisioned consult exactly when it has passed since the run's first consult and not since that one |
| Policies.CooldownRunsFromFirst | src/policy.rs:295-313 | three consults under a cooldown of 10 where the third fires on time, 5 after the second |
| Policies.SizeThresholdPolicy.ShouldReset | src/policy.rs:383-414 | one consult of the size policy is one step of its state machine |
| Policies.ThresholdStateMeaning | src/policy.rs:391-411 | armed means a large message since the last fire, the counter is zero unless armed and otherwise the trailing small run, and never saturates |
| Policies.ThresholdMeaning | src/policy.rs:391-411 | fires if and only if a message above grow_above_bytes came since the last fire and the last max(wait, 1) messages were all below shrink_below_bytes and not above grow_above_bytes |
| Reclamation.ReclaimAccounting | src/reader.rs:173-205 | reclaims are shrinks applied plus one if a shrink is pending |
| Reclamation.NoThrash | src/reader.rs:173-205 | for any policy, reclaims are at most the reads above the baseline, plus one only if the buffer started below the baseline and the allocator rounded growth past it |
| Reclamation.NoThrashAfterShrink | src/reader.rs:173-205 | once a shrink is applied, later reclaims are at most the later reads above the baseline, whatever the allocator |
| Reclamation.RoundedGrowthThrashes | src/reader.rs:185-205 | a run with doubling growth that reclaims although no read exceeded the default baseline |
| Reclamation.NeverThrashesIff | src/reader.rs:124-140 | exactly which starting capacities rule that out, for all runs, policies and allocators |
| Reclamation.NeverThrashesDoublingIff | src/reader.rs:124-140 | exactly which starting capacities, bounds and baselines rule it out for all runs and policies under doubling growth with a least allocation of eight bytes |
| Reclamation.HalfBaselineNeverThrashesIff | src/reader.rs:124-133 | under doubling growth an empty reader bounded by half the baseline never reclaims without a read above it, exactly if the baseline is at least eight bytes or no message has a byte |
| Reclamation.GrowsToHighest | src/framing.rs:176-189 | until a shrink is applied the buffer's length is the greatest length attempted, or its starting length |
| Reclamation.HighWaterSinceShrink | src/framing.rs:176-189 | the buffer's length is the greatest length attempted since the last shrink, on error runs too |
| Reclamation.NeverAboveBound | src/framing.rs:161-173 | the buffer's length never exceeds the accepted frame length |
| Reclamation.BoundedResponse | src/reader.rs:185-205 | out of any messages_to_wait wasteful reads in a row one schedules a reclaim, and the next read begins empty at the baseline |
| Reclamation.AdaptiveFollowsHistory | src/reader.rs:189-204 | reader and adaptive policy together: a read leaves a shrink pending, and reports it with the policy's reason and the consult's sizes, exactly when it was a consult at which the history of consults makes the policy fire |
| Reclamation.ThresholdFollowsHistory | src/reader.rs:189-204 | the same for reader and size policy together |
| Reclamation.ScriptFollowsConsults | src/reader.rs:185-205 | a caller's policy is asked once per consult, in order, its answer alone decides, and it hears every reclaim |
| Reclamation.ReclaimsAreDue | src/reader.rs:189-204 | over a whole run the reclaims are exactly those the adaptive history of consults makes due, in order |
| Reclamation.ReclaimsReportTruth | src/reader.rs:196-202 | for any policy each `on_reclaim` names the size of a message read, the capacity before, which is above the baseline, and the baseline; a caller's policy hears exactly these calls |
| StreamReader.StreamReader.ReadMessage | src/reader.rs:150-167 | the answer is the parser's whatever the policy does, and the returned slice is the frame's payload and survives a fire on this read; the policy is consulted exactly if the read succeeded and left the capacity above the baseline; a shrink is pending exactly if a reclaim of this size, capacity and baseline was reported, and exactly if the installed policy, adaptive, size or a caller's, answers by the consults since it was installed (`NoOp` never); a shrink pending before was applied first |
| StreamReader.StreamReader.ApplyPendingShrink | src/reader.rs:173-179 | the scheduled shrink replaces the buffer by an empty one at the baseline |
| StreamReader.StreamReader.EvaluateMemoryPolicy | src/reader.rs:185-205 | the policy is consulted only above its baseline and a positive answer schedules the shrink and is reported |
| StreamReader.StreamReader.WithMemoryPolicy | src/reader.rs:134-140 | the policy is installed with its own baseline cached, its configuration and its counters as they are in its fields |
| StreamReader.StreamReader.ProcessAll | src/reader.rs:219-228 | for any policy, the payloads handed on and the final status are those of the parser on the same bytes, stopping at the first error; the reads traced are one of its length for each payload, in order, and at most one more, whose attempt is what the bytes after the last frame declare |
| StreamReader.ProcessMeaning | src/reader.rs:219-228 | the payloads handed on are the first ones of the stream, all but perhaps the last accepted; a rejection ends it with the processor's error, and otherwise it got them all and the status is the stream's own |
| StreamReader.StreamReader.ReclaimsByPayloads | src/reader.rs:173-205 | the reclaims after a `process_all` are at most the earlier reads above the baseline, the payloads longer than it, and one for an error end or for rounded growth each |
| StreamReader.StreamReader.ReclaimsAreThoseDue | src/reader.rs:185-205 | the reclaims of a reader with a fresh adaptive policy are exactly those its consults make due |
| StreamReader.StreamReader.WasteIsReclaimed | src/reader.rs:185-205 | on the reader: if the last messages_to_wait consults all found at least ratio times a non-empty message, one of them fired and reported a reclaim more |
| StreamReader.StreamReader.HighWaterByPayloads | src/framing.rs:176-189 | after a `process_all` that ended well the buffer is as long as the longest payload since the last shrink, or as it was before |
| StreamReader.StreamReader.NoPolicyHoldsLongest | src/reader.rs:63-71 | without a policy the buffer ends as long as the longest payload read and nothing is reclaimed |
| StreamReader.StreamReader.JournalReadsBack | src/recover.rs:146-151 | `process_all` on a recovered journal hands on exactly the surviving payloads |
| StreamReader.StreamReader.BufferIsBounded | src/reader.rs:63-71 | a reader's buffer stays within the accepted frame length |
| StreamReader.StreamReader.ReclaimsArePaid | src/reader.rs:124-133 | the reclaim bound, for any reader in any reachable state |

## Left out

- The CRC-16, CRC-32 and XXH3 algorithms are not part of this model; `calculate` is an arbitrary function.
- `messages`, which forwards to `read_message`, and the typed readers on top of it.
- FlatBuffers building, verification and typed roots, and `DEFAULT_MAX_FRAME_LEN`, which comes from that library: the bound is a parameter.
- `StreamWriter` and its reclamation, which measures a builder whose growth is not visible; appends use the framers.
- Observer, bounded and validating adapters, which forward or test one predicate.
- Failing writes, `flush` and durability: a crash keeps any prefix of the bytes written, which is what a failed append leaves.
- Failing seeks, and counts beyond 64 bits: offsets and the byte count are unbounded.
- JournalFile.File.Repair: after a clean end short of the end of the file the documented protocol would resume appending, overwriting frames; the model ends the run there until a later recovery succeeds.
- `reserve`, `get_mut` and `into_inner` on the reader, and changing a policy's public fields between consults.
- Allocation: `Vec::with_capacity` is taken to be exact, and growth to happen only when the length exceeds the capacity, by any amount.
- Streams.Device.Read: a device with infinitely many interruptions before its next byte is not modelled; the source's loops would not end on it either.
