/** `src/recover.rs` as it runs: the scan loop over a counting reader, and the
    seek-scan-reposition protocol on a file, proved against the contract. */
module RecoveryScan {
  import opened Types
  import opened Checksums
  import opened Wire
  import opened Streams
  import opened Framing
  import opened Scanning
  import Recovery

  /** What a scan answers: the contract on the bytes shown, or the device's fault.
      The device is asked at least once, the bytes taken fit the answers used,
      and without a claim a report is made only at the end of the file. */
  ghost predicate Scanned(a: Moment, b: Moment, r: Result<Recovery.RecoveryReport, ErrorKind>, deframer: Deframer) {
    && Ran(a, b) && Asked(a, b) && Paced(a, b)
    && (r.Ok? && Told(a, b) == Undisturbed ==> b.pos == |b.bytes|)
    && match Told(a, b)
       case Fault(code) => r == Err(Io(Other(code)))
       case _ => r == Recovery.Recover(deframer.Alg(), deframer.maxFrameLen, Shown(a, b))
  }

  /** The stop of the loop decides the verdict of the whole scan. */
  lemma VerdictAtStop(deframer: Deframer, a: Moment, b: Moment, c: Moment, ps: seq<Payload>, contents: seq<byte>,
                      got: Result<Option<nat>, ErrorKind>)
    requires Progress(deframer, a, b, ps) && StepTaken(deframer, b, c, contents, got)
    requires got.Err? || got.value == None
    ensures Scanned(a, c, Report(got, |ps|, b.pos - a.pos), deframer)
  {
    hide Parse, Scan, EncodeAll, Shown, Told, Progress, Deframed, Paced;
    StepStops(deframer, a, b, c, ps, contents, got);
    OffsetAtStop(deframer, a, b, ps);
  }

  /** The report on a stop after `frames` frames ending at `offset`. */
  function Report(got: Result<Option<nat>, ErrorKind>, frames: nat, offset: nat)
    : Result<Recovery.RecoveryReport, ErrorKind>
  {
    match got
    case Ok(_) => Ok(Recovery.RecoveryReport(frames, offset, Recovery.CleanEof))
    case Err(UnexpectedEof) => Ok(Recovery.RecoveryReport(frames, offset, Recovery.TornTail))
    case Err(e) => Err(e)
  }

  /** Scans from the device's current position. Short reads and interruptions do
      not change the verdict, and the loop ends because every accepted frame
      consumes its header. */
  method Recover(inner: Device, deframer: Deframer) returns (r: Result<Recovery.RecoveryReport, ErrorKind>)
    requires inner.Valid()
    modifies inner
    ensures Scanned(old(inner.Now()), inner.Now(), r, deframer)
  {
    hide Parse, EncodeAll, Attempted, Told, Shown, Progress, Deframed, Scanned, Report, Recovery.Recover;
    var counter := new CountingReader(inner);
    var reader := Counting(counter);
    var buffer := new Vec(0);
    var frames, lastGoodOffset := 0, 0;
    ghost var a, ps := inner.Now(), [];
    NoProgress(deframer, a);
    while true
      invariant inner.Valid() && buffer.Valid() && fresh(buffer.data)
      invariant Progress(deframer, a, inner.Now(), ps)
      invariant frames == |ps| && lastGoodOffset == counter.count == inner.pos - a.pos
      decreases |inner.bytes| - inner.pos
    {
      ghost var b := inner.Now();
      var got; ghost var attempted;
      got, attempted := deframer.ReadAndDeframe(reader, buffer);
      ghost var c, contents := inner.Now(), buffer.Contents();
      if got.Ok? && got.value.Some? {
        StepAdvances(deframer, a, b, c, ps, contents, got.value.value);
        ps := ps + [contents[..got.value.value]];
        frames := frames + 1;
        lastGoodOffset := counter.count;
      } else {
        VerdictAtStop(deframer, a, b, c, ps, contents, got);
        return Report(got, frames, lastGoodOffset);
      }
    }
  }

  /** Scans a file from its beginning, whatever its cursor, and on success leaves
      the cursor at the reported offset, where appending may resume. */
  method RecoverFile(file: Device, deframer: Deframer) returns (r: Result<Recovery.RecoveryReport, ErrorKind>)
    requires file.Valid()
    modifies file
    ensures file.Valid() && file.bytes == old(file.bytes) && file.schedule == old(file.schedule)
    ensures r.Ok? ==> file.pos == r.value.lastGoodOffset
    ensures exists n: nat :: n <= |file.bytes|
              && Scanned(old(file.Now()).(pos := 0), file.Now().(pos := n), r, deframer)
  {
    hide Told, Shown, Recovery.Recover;
    file.Seek(0);
    ghost var start := file.Now();
    r := Recover(file, deframer);
    ghost var end := file.Now();
    if r.Ok? {
      ReportWithinFile(start, end, r, deframer);
      file.Seek(r.value.lastGoodOffset);
    }
    assert file.Now().(pos := end.pos) == end;
  }

  lemma ReportWithinFile(start: Moment, end: Moment, r: Result<Recovery.RecoveryReport, ErrorKind>, deframer: Deframer)
    requires Scanned(start, end, r, deframer) && r.Ok? && start.pos == 0
    ensures r.value.lastGoodOffset <= |end.bytes|
  {
    Recovery.ReportIsSound(deframer.Alg(), deframer.maxFrameLen, Shown(start, end));
  }

  /** Schedule independence: whatever the short reads and interruptions, a scan
      of a file answers what a direct scan of its bytes answers. */
  lemma ScheduleIndependence(start: Moment, end: Moment, r: Result<Recovery.RecoveryReport, ErrorKind>,
                             deframer: Deframer)
    requires start.pos == 0 && Scanned(start, end, r, deframer)
    requires forall e :: e in start.events[start.step..end.step] ==> Absorbed(e)
    ensures r == Recovery.Recover(deframer.Alg(), deframer.maxFrameLen, start.bytes)
  {
    if start.step < end.step {
      assert start.events[start.step..end.step][end.step - 1 - start.step] == start.events[end.step - 1];
    }
    assert start.bytes[0..] == start.bytes;
  }

  /** Each deframer reads its own format: an undisturbed scan of an in-bound journal,
      by the deframer that matches its writer, reports every frame and a clean
      end. */
  lemma ReportsEveryFrame(a: Moment, b: Moment, r: Result<Recovery.RecoveryReport, ErrorKind>, alg: Checksum,
                          max: nat, ps: seq<Payload>)
    requires || Scanned(a, b, r, ChecksumDeframer(alg, max))
             || (alg == NoChecksum && Scanned(a, b, r, DefaultDeframer(max)))
    requires AllAcceptable(max, ps) && a.bytes[a.pos..] == EncodeAll(alg, ps)
    requires FirstDisturbance(a.events, a.step) == |a.events|
    ensures r == Ok(Recovery.RecoveryReport(|ps|, |EncodeAll(alg, ps)|, Recovery.CleanEof)) && b.pos == |b.bytes|
  {
    hide EncodeAll, Scan, Parse;
    HeardUpToDisturbance(a, b);
    StreamRoundTrip(alg, max, ps);
  }

  lemma ParseIsNoIoError(alg: Checksum, max: nat, s: seq<byte>)
    ensures Parse(alg, max, s).Err? ==> !Parse(alg, max, s).error.Io?
  {
  }

  /** No bytes alone produce an I/O error. */
  lemma VerdictIsNoIoError(alg: Checksum, max: nat, s: seq<byte>)
    ensures Recovery.Recover(alg, max, s).Err? ==> !Recovery.Recover(alg, max, s).error.Io?
  {
    ScanSplits(alg, max, s);
    ParseIsNoIoError(alg, max, s[|EncodeAll(alg, Scan(alg, max, s).payloads)|..]);
  }

  /** A device that fails on its first answer: a fault of any kind but end of file
      is the scan's error, whatever the file; one whose kind is end of file, or an
      empty delivery, is believed, and any journal, however full, recovers as
      empty and clean. */
  lemma FirstAnswerDecides(a: Moment, b: Moment, r: Result<Recovery.RecoveryReport, ErrorKind>, deframer: Deframer)
    requires Scanned(a, b, r, deframer)
    requires a.step < |a.events| && !Absorbed(a.events[a.step])
    ensures b.step == a.step + 1 && b.pos == a.pos
    ensures r == if SaysEof(a.events[a.step]) then Ok(Recovery.RecoveryReport(0, 0, Recovery.CleanEof))
                 else Err(Io(Other(a.events[a.step].kind.code)))
  {
    HeardUpToDisturbance(a, b);
    assert Most(a.events, a.step, a.step) == 0;
    assert SaysEof(a.events[a.step]) ==> Shown(a, b) == [];
  }

  /** A claim is met by every scan of a recoverable file that holds more than the
      answers before the claim can deliver; the verdict is then on a proper prefix
      of the file, as long as those answers allow. */
  lemma ClaimIsMet(a: Moment, b: Moment, r: Result<Recovery.RecoveryReport, ErrorKind>, deframer: Deframer)
    requires Scanned(a, b, r, deframer)
    requires Recovery.Recover(deframer.Alg(), deframer.maxFrameLen, a.bytes[a.pos..]).Ok?
    requires var d := FirstDisturbance(a.events, a.step);
             d < |a.events| && SaysEof(a.events[d]) && Most(a.events, a.step, d) < |a.bytes| - a.pos
    ensures var d := FirstDisturbance(a.events, a.step);
            && b.step == d + 1
            && Least(a.events, a.step, d) <= b.pos - a.pos <= Most(a.events, a.step, d)
            && r == Recovery.Recover(deframer.Alg(), deframer.maxFrameLen, a.bytes[a.pos..b.pos])
  {
    hide Recovery.Recover;
    var d := FirstDisturbance(a.events, a.step);
    HeardUpToDisturbance(a, b);
    if Told(a, b) == Undisturbed {
      DeliveriesAdd(a.events, a.step, b.step, d);
    }
  }

  /** One byte per answer, and the claim after `n` of them. */
  predicate ClaimsAfter(events: seq<Event>, step: nat, n: nat) {
    && step + n < |events| && SaysEof(events[step + n])
    && forall i :: step <= i < step + n ==> events[i] == Limit(1)
  }

  lemma {:induction false} OneByteEach(events: seq<Event>, step: nat, n: nat)
    requires step + n <= |events| && forall i :: step <= i < step + n ==> events[i] == Limit(1)
    ensures Most(events, step, step + n) == n == Least(events, step, step + n)
  {
    if n > 0 {
      OneByteEach(events, step, n - 1);
    }
  }

  lemma {:induction false} DisturbanceAt(events: seq<Event>, step: nat, d: nat)
    requires step <= d < |events| && !Absorbed(events[d])
    requires forall i :: step <= i < d ==> Absorbed(events[i])
    ensures FirstDisturbance(events, step) == d
    decreases d - step
  {
    if step < d {
      DisturbanceAt(events, step + 1, d);
    }
  }

  /** A claim after any number of bytes acts as a crash there: whatever was
      recoverable is answered as if the file ended at the claim. */
  lemma ClaimActsAsCrash(a: Moment, b: Moment, r: Result<Recovery.RecoveryReport, ErrorKind>, deframer: Deframer,
                         n: nat)
    requires Scanned(a, b, r, deframer) && ClaimsAfter(a.events, a.step, n) && n < |a.bytes| - a.pos
    requires Recovery.Recover(deframer.Alg(), deframer.maxFrameLen, a.bytes[a.pos..]).Ok?
    ensures r == Recovery.Recover(deframer.Alg(), deframer.maxFrameLen, a.bytes[a.pos..a.pos + n])
    ensures b.pos == a.pos + n
  {
    hide Recovery.Recover;
    DisturbanceAt(a.events, a.step, a.step + n);
    OneByteEach(a.events, a.step, n);
    ClaimIsMet(a, b, r, deframer);
  }

  /** The destructive input. A journal of whole frames, and a device that claims
      its end inside frame `k`: the scan reports a torn tail at that frame, and
      truncating there would remove it and every frame after it. */
  lemma ClaimInsideFrameIsTorn(a: Moment, b: Moment, r: Result<Recovery.RecoveryReport, ErrorKind>, deframer: Deframer,
                               ps: seq<Payload>, k: nat, n: nat)
    requires Scanned(a, b, r, deframer) && ClaimsAfter(a.events, a.step, n)
    requires AllAcceptable(deframer.maxFrameLen, ps) && a.pos == 0 && a.bytes == EncodeAll(deframer.Alg(), ps)
    requires k < |ps|
    requires Recovery.Boundary(deframer.Alg(), ps, k) < n < Recovery.Boundary(deframer.Alg(), ps, k + 1)
    ensures r == Ok(Recovery.RecoveryReport(k, Recovery.Boundary(deframer.Alg(), ps, k), Recovery.TornTail))
    ensures r.value.lastGoodOffset < |a.bytes|
  {
    hide EncodeAll, Scanned, Recovery.Recover, Recovery.Boundary;
    Recovery.CutInsideFrame(deframer.Alg(), deframer.maxFrameLen, ps, k, n);
    assert a.bytes[0..] == a.bytes && a.bytes[0..n] == a.bytes[..n];
    ClaimActsAsCrash(a, b, r, deframer, n);
  }

  //--- Which schedules can be trusted ---

  /** The last answer used was a fault. */
  predicate FaultMet(a: Moment, b: Moment) {
    a.step < b.step <= |a.events| && a.events[b.step - 1].Fail? && a.events[b.step - 1].kind != Interrupted
  }

  /** Every scan under this schedule, of any file by any deframer, reports the
      fault it meets, if it meets one. */
  ghost predicate FaultsReported(events: seq<Event>, step: nat) {
    forall a, b, r, deframer :: Scanned(a, b, r, deframer) && a.events == events && a.step == step && FaultMet(a, b) ==>
      r.Err? && r.error.Io?
  }

  /** Every scan under this schedule, of any file by any deframer, gives the
      verdict on all the bytes of the file, or an I/O error. */
  ghost predicate VerdictsTrusted(events: seq<Event>, step: nat) {
    forall a, b, r, deframer :: Scanned(a, b, r, deframer) && a.events == events && a.step == step ==>
      || (r.Err? && r.error.Io?)
      || r == Recovery.Recover(deframer.Alg(), deframer.maxFrameLen, a.bytes[a.pos..])
  }

  /** A journal of `m + 1` empty plain frames, longer than `m` bytes. */
  function EmptyFrames(m: nat): (ps: seq<Payload>)
    ensures |ps| == m + 1 && AllAcceptable(0, ps)
  {
    seq(m + 1, _ => [])
  }

  /** The input on which a schedule that claims the end of the file deceives: more
      frames than the answers before the claim can deliver. */
  function Overlong(events: seq<Event>, step: nat): (a: Moment)
    requires step <= |events|
    ensures a.Valid() && a.events == events && a.step == step && a.pos == 0
  {
    Moment(EncodeAll(NoChecksum, EmptyFrames(Most(events, step, FirstDisturbance(events, step)))), 0, events, step)
  }

  /** Every scan of that input reports a proper prefix of the journal. */
  lemma ClaimDeceives(events: seq<Event>, step: nat, b: Moment, r: Result<Recovery.RecoveryReport, ErrorKind>)
    requires step <= |events| && Scanned(Overlong(events, step), b, r, DefaultDeframer(0))
    requires var d := FirstDisturbance(events, step); d < |events| && SaysEof(events[d])
    ensures b.step == FirstDisturbance(events, step) + 1
    ensures r.Ok? && r != Recovery.Recover(NoChecksum, 0, Overlong(events, step).bytes)
  {
    hide EncodeAll, Scanned, Recovery.Recover;
    var a, ps := Overlong(events, step), EmptyFrames(Most(events, step, FirstDisturbance(events, step)));
    OverlongRecovers(ps);
    assert a.bytes[0..] == a.bytes;
    ClaimIsMet(a, b, r, DefaultDeframer(0));
    PrefixIsNotAll(ps, b.pos);
  }

  lemma OverlongRecovers(ps: seq<Payload>)
    requires AllAcceptable(0, ps)
    ensures |EncodeAll(NoChecksum, ps)| >= |ps|
    ensures Recovery.Recover(NoChecksum, 0, EncodeAll(NoChecksum, ps)).Ok?
  {
    hide EncodeAll, Scan;
    Recovery.OffsetIsSum(NoChecksum, ps);
    StreamRoundTrip(NoChecksum, 0, ps);
  }

  /** The contract does admit an outcome on it: one where each answer before the
      claim delivers in full. */
  lemma OverlongIsScanned(events: seq<Event>, step: nat)
    returns (b: Moment, r: Result<Recovery.RecoveryReport, ErrorKind>)
    requires step <= |events|
    requires var d := FirstDisturbance(events, step); d < |events| && SaysEof(events[d])
    ensures Scanned(Overlong(events, step), b, r, DefaultDeframer(0))
  {
    hide EncodeAll, Recovery.Recover;
    var a, d := Overlong(events, step), FirstDisturbance(events, step);
    var m := Most(events, step, d);
    OverlongRecovers(EmptyFrames(m));
    LeastBelowMost(events, step, d);
    b := a.(pos := m, step := d + 1);
    HeardUpToDisturbance(a, b);
    r := Recovery.Recover(NoChecksum, 0, Shown(a, b));
  }

  lemma PrefixIsNotAll(ps: seq<Payload>, n: nat)
    requires AllAcceptable(0, ps) && n < |EncodeAll(NoChecksum, ps)|
    ensures var whole := EncodeAll(NoChecksum, ps);
            && Recovery.Recover(NoChecksum, 0, whole[0..n]).Ok?
            && Recovery.Recover(NoChecksum, 0, whole[0..n]) != Recovery.Recover(NoChecksum, 0, whole)
  {
    hide EncodeAll, Recovery.WholeFrames;
    var whole := EncodeAll(NoChecksum, ps);
    assert whole[0..n] == whole[..n];
    StreamRoundTrip(NoChecksum, 0, ps);
    Recovery.PrefixStability(NoChecksum, 0, whole, n);
    Recovery.WholeFramesMeaning(NoChecksum, ps, n);
  }

  /** Exactly which schedules keep the promise that a device fault is an error:
      those whose first answer that is not absorbed is no fault of the end-of-file
      kind. */
  lemma FaultsReportedIff(events: seq<Event>, step: nat)
    requires step <= |events|
    ensures var d := FirstDisturbance(events, step);
            FaultsReported(events, step) <==> !(d < |events| && events[d] == Fail(EndOfFile))
  {
    hide Recovery.Recover;
    var d := FirstDisturbance(events, step);
    if d < |events| && events[d] == Fail(EndOfFile) {
      var b, r := OverlongIsScanned(events, step);
      ClaimDeceives(events, step, b, r);
      assert FaultMet(Overlong(events, step), b) && r.Ok?;
    } else {
      forall a, b, r, deframer | Scanned(a, b, r, deframer) && a.events == events && a.step == step && FaultMet(a, b)
        ensures r.Err? && r.error.Io?
      {
        HeardUpToDisturbance(a, b);
      }
    }
  }

  /** And exactly which keep the promise that a verdict is on the whole file:
      those whose first answer that is not absorbed claims no end of file, be it
      by an empty delivery or by a fault of that kind. */
  lemma VerdictsTrustedIff(events: seq<Event>, step: nat)
    requires step <= |events|
    ensures var d := FirstDisturbance(events, step);
            VerdictsTrusted(events, step) <==> !(d < |events| && SaysEof(events[d]))
  {
    hide Recovery.Recover;
    var d := FirstDisturbance(events, step);
    if d < |events| && SaysEof(events[d]) {
      var a := Overlong(events, step);
      var b, r := OverlongIsScanned(events, step);
      ClaimDeceives(events, step, b, r);
      assert a.bytes[0..] == a.bytes;
    } else {
      forall a, b, r, deframer | Scanned(a, b, r, deframer) && a.events == events && a.step == step
        ensures || (r.Err? && r.error.Io?)
                || r == Recovery.Recover(deframer.Alg(), deframer.maxFrameLen, a.bytes[a.pos..])
      {
        HeardUpToDisturbance(a, b);
      }
    }
  }
}
