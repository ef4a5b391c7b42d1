/** The journal and the message reader on the same device. */
module JournalReading {
  import opened Types
  import opened Checksums
  import opened Wire
  import opened Streams
  import opened Framing
  import opened Recovery
  import opened RecoveryScan
  import Journal
  import JournalFile
  import R = StreamReader

  /** Reads a journal back from its beginning with `process_all` and returns the
      cursor to the end. On a device that disturbs no read, the processor gets
      exactly the journal's payloads, in order, up to its own first error; if it
      accepts them all it gets them all, and the reading ends well. */
  method ReadBack(file: JournalFile.File, processor: R.Processor, clock: nat -> nat)
    returns (r: Result<(), ErrorKind>, seen: seq<Payload>)
    requires file.Valid() && file.ready && AllAcceptable(file.deframer.maxFrameLen, file.log)
    modifies file.device
    ensures file.Valid() && file.device.bytes == old(file.device.bytes)
    ensures var events := old(file.device.schedule);
            FirstDisturbance(events, old(file.device.step)) == |events| ==>
              && (seen, r) == R.Process(processor, ScanOutcome(file.log, None), 0)
              && (R.AllAccepted(processor, file.log) ==> seen == file.log && r.Ok?)
  {
    hide EncodeAll, Scan, Told, Shown, Ran, Journal.Holds, R.Process, R.AllAccepted;
    hide R.StreamReader.Processed, R.StreamReader.ReadsTraced;
    ReadyIsLog(file.framer.Alg(), file.State(), file.log);
    var d := file.device;
    d.Seek(0);
    ghost var a := d.Now();
    var reader := new R.StreamReader(Direct(d), file.deframer, 0);
    r, seen := reader.ProcessAll(processor, clock);
    FileKept(reader, processor, a, d.Now(), seen, r);
    if FirstDisturbance(a.events, a.step) == |a.events| {
      UndisturbedProcess(reader, file.log, processor, a, d.Now(), seen, r);
    }
    d.Seek(|d.bytes|);
  }

  lemma ReadyIsLog(alg: Checksum, s: Journal.State, log: seq<Payload>)
    requires Journal.Holds(alg, U32_MAX, s, log) && s.ready
    ensures s.bytes == EncodeAll(alg, log)
  {
  }

  lemma FileKept(reader: R.StreamReader, processor: R.Processor, a: Moment, b: Moment, seen: seq<Payload>,
                 r: Result<(), ErrorKind>)
    requires reader.Processed(processor, a, b, seen, r)
    ensures b.bytes == a.bytes && b.events == a.events && b.Valid()
  {
  }

  lemma UndisturbedProcess(reader: R.StreamReader, log: seq<Payload>, processor: R.Processor, a: Moment, b: Moment,
                           seen: seq<Payload>, r: Result<(), ErrorKind>)
    requires reader.Processed(processor, a, b, seen, r)
    requires AllAcceptable(reader.deframer.maxFrameLen, log) && a.bytes == EncodeAll(reader.deframer.Alg(), log)
    requires a.pos == 0 && FirstDisturbance(a.events, a.step) == |a.events|
    ensures (seen, r) == R.Process(processor, ScanOutcome(log, None), 0)
    ensures R.AllAccepted(processor, log) ==> seen == log && r.Ok?
  {
    hide EncodeAll, Scan, Told, Shown;
    WholeFileShown(a, b);
    StreamRoundTrip(reader.deframer.Alg(), reader.deframer.maxFrameLen, log);
    if R.AllAccepted(processor, log) {
      R.AcceptedSoFar(processor, ScanOutcome(log, None), log, 0);
    }
  }

  /** The journal's promise on one file: a crash that keeps any `keep` bytes, a
      recovery, one more append, and a reading to the end. If nothing beyond the
      reader's bound was ever appended and the device disturbs no read, appending
      resumes, and the processor gets the payloads whose frames survived whole
      and then the new one. */
  method CrashRecoverResume(file: JournalFile.File, keep: nat, payload: Payload, processor: R.Processor,
                            clock: nat -> nat)
    returns (r: Result<(), ErrorKind>, seen: seq<Payload>)
    requires file.Valid() && Acceptable(file.deframer.maxFrameLen, payload)
    requires Journal.Holds(file.framer.Alg(), file.deframer.maxFrameLen, file.State(), file.log)
    modifies file, file.device
    ensures file.Valid()
    ensures var events := old(file.device.schedule);
            FirstDisturbance(events, old(file.device.step)) == |events| ==>
              var survived := old(file.log)[..WholeFrames(file.framer.Alg(), old(file.log), keep)];
              && file.ready && file.log == survived + [payload]
              && (seen, r) == R.Process(processor, ScanOutcome(survived + [payload], None), 0)
  {
    hide EncodeAll, WholeFrames, Journal.Holds, Journal.Repairable, Told, Scanned, R.Process;
    ghost var alg, max, before, log := file.framer.Alg(), file.deframer.maxFrameLen, file.State(), file.log;
    file.Crash(keep);
    Journal.StepKeeps(alg, max, max, before, log, Journal.Crash(keep));
    Journal.InBoundIsRepairable(alg, max, file.State(), file.log);
    var report; ghost var end;
    ghost var start := file.device.Now().(pos := 0);
    report, end := file.Repair();
    if FirstDisturbance(start.events, start.step) == |start.events| {
      StaysUndisturbed(start, end, report, file.deframer);
    }
    if !file.ready {
      return Err(if report.Err? then report.error else UnexpectedEof), [];
    }
    var appended := file.Append(payload);
    r, seen := ReadBack(file, processor, clock);
  }

  /** A device with no disturbance left to give has none after a scan either. */
  lemma StaysUndisturbed(a: Moment, b: Moment, r: Result<RecoveryReport, ErrorKind>, deframer: Deframer)
    requires Scanned(a, b, r, deframer) && FirstDisturbance(a.events, a.step) == |a.events|
    ensures b.Valid() && b.events == a.events && FirstDisturbance(b.events, b.step) == |b.events|
  {
    assert forall i :: a.step <= i < |a.events| ==> Absorbed(a.events[i]);
  }

  lemma WholeFileShown(a: Moment, b: Moment)
    requires Ran(a, b) && a.pos == 0 && FirstDisturbance(a.events, a.step) == |a.events|
    ensures Told(a, b) == Undisturbed && Shown(a, b) == a.bytes
  {
    HeardUpToDisturbance(a, b);
    assert a.bytes[0..] == a.bytes;
  }
}
