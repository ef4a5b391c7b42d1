/** The journal protocol on a real file: the framer at the cursor, the recovery
    scan, and truncation on a torn tail only. */
module JournalFile {
  import opened Types
  import opened Checksums
  import opened Wire
  import opened Streams
  import opened Framing
  import opened Recovery
  import opened RecoveryScan
  import Journal

  class File {
    const device: Device
    const framer: Framer
    const deframer: Deframer
    var ready: bool
    ghost var log: seq<Payload>

    ghost predicate Valid()
      reads this, device
    {
      && device.Valid()
      && framer.Alg() == deframer.Alg()
      && (ready ==> device.pos == |device.bytes|)
      && Journal.Holds(framer.Alg(), U32_MAX, State(), log)
    }

    ghost function State(): Journal.State
      reads this, device
    {
      Journal.State(device.bytes, ready)
    }

    constructor (framer: Framer, deframer: Deframer, events: seq<Event>)
      requires framer.Alg() == deframer.Alg()
      ensures Valid() && fresh(device) && device.schedule == events && device.step == 0
      ensures this.framer == framer && this.deframer == deframer
      ensures State() == Journal.EMPTY && ready && device.bytes == [] && log == []
    {
      this.framer, this.deframer := framer, deframer;
      device := new Device([], events);
      ready, log := true, [];
      new;
      Journal.JournalSafety(framer.Alg(), 0, U32_MAX, []);
    }

    method Append(payload: Payload) returns (r: Result<(), ErrorKind>)
      requires Valid() && ready
      modifies this`log, device`bytes, device`pos
      ensures Valid()
      ensures r.Ok? <==> Writable(payload)
      ensures r.Err? ==> r == Err(InvalidFrame(|payload|, U32_MAX)) && device.bytes == old(device.bytes)
      ensures State() == Journal.Step(framer.Alg(), deframer.maxFrameLen, old(State()), Journal.Append(payload))
      ensures log
           == Journal.LogStep(framer.Alg(), deframer.maxFrameLen, old(State()), old(log), Journal.Append(payload))
    {
      hide EncodeFrame, EncodeAll;
      ghost var before := State();
      r := framer.FrameAndWrite(device, payload);
      log := Journal.LogStep(framer.Alg(), deframer.maxFrameLen, before, log, Journal.Append(payload));
      Journal.StepKeeps(framer.Alg(), deframer.maxFrameLen, U32_MAX, before, old(log), Journal.Append(payload));
    }

    /** Only the first `keep` bytes survive; the process comes back with its
        cursor at the start and no right to append. */
    method Crash(keep: nat)
      requires Valid()
      modifies this, device
      ensures Valid() && device.schedule == old(device.schedule) && device.step == old(device.step)
      ensures State() == Journal.Step(framer.Alg(), deframer.maxFrameLen, old(State()), Journal.Crash(keep))
      ensures log == Journal.LogStep(framer.Alg(), deframer.maxFrameLen, old(State()), old(log), Journal.Crash(keep))
    {
      hide EncodeAll, WholeFrames;
      ghost var before := State();
      device.Seek(0);
      if keep < |device.bytes| {
        device.SetLen(keep);
      }
      ready := false;
      log := Journal.LogStep(framer.Alg(), deframer.maxFrameLen, before, log, Journal.Crash(keep));
      Journal.StepKeeps(framer.Alg(), deframer.maxFrameLen, U32_MAX, before, old(log), Journal.Crash(keep));
    }

    /** `recover_file`, then truncation on a torn tail only, on any device; `end` is
        where the scan stopped. It fails with an I/O error exactly when a fault was
        met, and then changes no byte; a device that claims its end gets the
        verdict on the bytes before the claim; otherwise this is the protocol's
        repair step. After a clean end short of the end of the file appending is
        not allowed: the cursor is inside the file, and the next frame would
        overwrite. */
    method Repair() returns (r: Result<RecoveryReport, ErrorKind>, ghost end: Moment)
      requires Valid()
      modifies this`ready, this`log, device
      ensures Valid() && device.schedule == old(device.schedule) && device.step == end.step
      ensures Scanned(old(device.Now()).(pos := 0), end, r, deframer)
      ensures r.Err? && r.error.Io? <==> Told(old(device.Now()).(pos := 0), end).Fault?
      ensures r.Err? ==> !ready && device.bytes == old(device.bytes) && log == old(log)
      ensures !(r.Err? && r.error.Io?) ==>
                var alg, max, claim := framer.Alg(), deframer.maxFrameLen, Claim(old(device.Now()).(pos := 0), end);
                && r == Recovery.Recover(alg, max, BytesShown(old(device.bytes), claim))
                && State() == Journal.Step(alg, max, old(State()), RepairAction(claim))
                && log == Journal.LogStep(alg, max, old(State()), old(log), RepairAction(claim))
      ensures ready ==> AllAcceptable(deframer.maxFrameLen, log)
      ensures FirstDisturbance(old(device.schedule), old(device.step)) == |old(device.schedule)| ==>
                && log == old(log) && !(r.Err? && r.error.Io?)
                && (ready <==> Journal.Repairable(framer.Alg(), deframer.maxFrameLen, old(device.bytes), old(log)))
    {
      hide EncodeAll, WholeFrames, Recovery.Recover, Told, Shown, Paced, Scanned, Journal.Step, Journal.LogStep;
      hide Journal.Repairable;
      ghost var before, alg, max := State(), framer.Alg(), deframer.maxFrameLen;
      ghost var start := device.Now().(pos := 0);
      r := RecoverFile(device, deframer);
      ghost var n: nat :| n <= |device.bytes| && Scanned(start, device.Now().(pos := n), r, deframer);
      end := device.Now().(pos := n);
      VerdictOnShown(start, end, r, deframer);
      ghost var after := RepairKeeps(alg, max, before, log, r, Claim(start, end));
      ready := r.Ok? && (r.value.end == TornTail || device.pos == |device.bytes|);
      if r.Ok? && r.value.end == TornTail {
        device.SetLen(r.value.lastGoodOffset);
      }
      assert State() == Journal.Repaired(before, r);
      log := after;
    }
  }

  /** Where the device claimed an end of file, if it did: there is a claim exactly
      when the first answer not absorbed was used and said so. */
  ghost function Claim(a: Moment, b: Moment): (claim: Option<nat>)
    requires Ran(a, b)
    ensures claim.Some? <==> a.step < b.step && SaysEof(a.events[b.step - 1])
    ensures claim.Some? ==> claim.value == b.pos && b.step - 1 == FirstDisturbance(a.events, a.step)
  {
    HeardUpToDisturbance(a, b);
    if Told(a, b) == EarlyEof then Some(b.pos) else None
  }

  function BytesShown(bytes: seq<byte>, claim: Option<nat>): seq<byte> {
    if claim == None then bytes else Journal.Front(bytes, claim.value)
  }

  /** The protocol's step for a repair that heard this claim, or none. */
  function RepairAction(claim: Option<nat>): Journal.Action {
    if claim == None then Journal.Repair else Journal.RepairShown(claim.value)
  }

  /** A scan from the start fails with an I/O error exactly when it met a fault, and
      otherwise its verdict is on the bytes before the claim, or on all of them. */
  lemma VerdictOnShown(start: Moment, end: Moment, r: Result<RecoveryReport, ErrorKind>, deframer: Deframer)
    requires Scanned(start, end, r, deframer) && start.pos == 0
    ensures Ran(start, end) && (r.Err? && r.error.Io? <==> Told(start, end).Fault?)
    ensures !Told(start, end).Fault? ==>
              r == Recovery.Recover(deframer.Alg(), deframer.maxFrameLen, BytesShown(start.bytes, Claim(start, end)))
    ensures FirstDisturbance(start.events, start.step) == |start.events| ==>
              !Told(start, end).Fault? && Claim(start, end) == None
  {
    hide Recovery.Recover;
    HeardUpToDisturbance(start, end);
    assert start.bytes[0..] == start.bytes && start.bytes[0..end.pos] == start.bytes[..end.pos];
    assert start.bytes[..|start.bytes|] == start.bytes;
    VerdictIsNoIoError(deframer.Alg(), deframer.maxFrameLen, Shown(start, end));
  }

  /** What the report does to a journal. A fault, like any error, only takes the
      right to append; anything else is the protocol's step, and a repair that was
      shown all the bytes ends ready exactly on a repairable journal. */
  lemma RepairKeeps(alg: Checksum, max: nat, s: Journal.State, log: seq<Payload>,
                    r: Result<RecoveryReport, ErrorKind>, claim: Option<nat>) returns (after: seq<Payload>)
    requires Journal.Holds(alg, U32_MAX, s, log)
    requires (r.Err? && r.error.Io?) || r == Recovery.Recover(alg, max, BytesShown(s.bytes, claim))
    ensures Journal.Holds(alg, U32_MAX, Journal.Repaired(s, r), after)
    ensures Journal.Repaired(s, r).ready ==> AllAcceptable(max, after)
    ensures r.Err? ==> after == log
    ensures r.Ok? ==> r.value.lastGoodOffset <= |s.bytes|
    ensures !(r.Err? && r.error.Io?) ==>
              && Journal.Repaired(s, r) == Journal.Step(alg, max, s, RepairAction(claim))
              && after == Journal.LogStep(alg, max, s, log, RepairAction(claim))
    ensures !(r.Err? && r.error.Io?) && claim == None ==>
              after == log && (Journal.Repaired(s, r).ready <==> Journal.Repairable(alg, max, s.bytes, log))
  {
    hide EncodeAll, WholeFrames, Recovery.Recover, Journal.Repairable;
    if r.Err? && r.error.Io? {
      Journal.NotReady(alg, U32_MAX, s, log);
      after := log;
    } else {
      after := Journal.LogStep(alg, max, s, log, RepairAction(claim));
      if r.Ok? {
        ReportIsSound(alg, max, BytesShown(s.bytes, claim));
      }
      if claim == None {
        Journal.RepairKeeps(alg, max, U32_MAX, s, log);
        Journal.RepairVerdict(alg, max, U32_MAX, s, log);
      } else {
        Journal.RepairShownKeeps(alg, max, U32_MAX, s, log, claim.value);
      }
    }
  }

  /** What a frame written at the boundary of frame `k` does not cover. */
  function Uncovered(alg: Checksum, ps: seq<Payload>, k: nat, x: Payload): seq<byte>
    requires k < |ps|
  {
    var left := EncodeAll(alg, ps[k..]);
    if FrameLen(alg, x) <= |left| then left[FrameLen(alg, x)..] else []
  }

  lemma AppendInsideLeaves(alg: Checksum, ps: seq<Payload>, k: nat, x: Payload)
    requires k < |ps|
    ensures Boundary(alg, ps, k) <= |EncodeAll(alg, ps)|
    ensures Overwritten(EncodeAll(alg, ps), Boundary(alg, ps, k), EncodeFrame(alg, x))
         == EncodeAll(alg, ps[..k] + [x]) + Uncovered(alg, ps, k, x)
  {
    hide EncodeAll, EncodeFrame;
    assert ps == ps[..k] + ps[k..];
    EncodeAllConcat(alg, ps[..k], ps[k..]);
    OverwriteTail(EncodeAll(alg, ps[..k]), EncodeAll(alg, ps[k..]), EncodeFrame(alg, x));
    EncodeSnoc(alg, ps[..k], x);
  }

  lemma OverwriteTail(a: seq<byte>, left: seq<byte>, d: seq<byte>)
    ensures Overwritten(a + left, |a|, d) == a + d + if |d| <= |left| then left[|d|..] else []
  {
  }

  /** Why a clean end inside the file must not be appended to: a reader then finds
      the frames before, the new one, and whatever the bytes it did not cover
      happen to read as. */
  lemma AppendInsideOverwrites(alg: Checksum, max: nat, ps: seq<Payload>, k: nat, x: Payload)
    requires k < |ps| && AllAcceptable(max, ps[..k] + [x])
    ensures Boundary(alg, ps, k) <= |EncodeAll(alg, ps)|
    ensures var rest := Scan(alg, max, Uncovered(alg, ps, k, x));
            Scan(alg, max, Overwritten(EncodeAll(alg, ps), Boundary(alg, ps, k), EncodeFrame(alg, x)))
            == ScanOutcome(ps[..k] + [x] + rest.payloads, rest.stop)
  {
    hide EncodeAll, EncodeFrame, Scan;
    AppendInsideLeaves(alg, ps, k, x);
    ScanAppends(alg, max, ps[..k] + [x], Uncovered(alg, ps, k, x));
  }

  /** When it ends on the boundary of a later frame `j`, or past the end, the
      frames it covered are gone from a journal that is intact. */
  lemma AppendInsideReplaces(alg: Checksum, ps: seq<Payload>, k: nat, j: nat, x: Payload)
    requires k < j <= |ps|
    requires var end := Boundary(alg, ps, k) + FrameLen(alg, x);
             end == Boundary(alg, ps, j) || (j == |ps| && end > Boundary(alg, ps, j))
    ensures Boundary(alg, ps, k) <= |EncodeAll(alg, ps)|
    ensures Overwritten(EncodeAll(alg, ps), Boundary(alg, ps, k), EncodeFrame(alg, x))
         == EncodeAll(alg, ps[..k] + [x] + ps[j..])
  {
    hide EncodeAll, EncodeFrame, Uncovered;
    AppendInsideLeaves(alg, ps, k, x);
    UncoveredAtBoundary(alg, ps, k, j, x);
    EncodeAllConcat(alg, ps[..k] + [x], ps[j..]);
  }

  lemma UncoveredAtBoundary(alg: Checksum, ps: seq<Payload>, k: nat, j: nat, x: Payload)
    requires k < j <= |ps|
    requires var end := Boundary(alg, ps, k) + FrameLen(alg, x);
             end == Boundary(alg, ps, j) || (j == |ps| && end > Boundary(alg, ps, j))
    ensures Uncovered(alg, ps, k, x) == EncodeAll(alg, ps[j..])
  {
    hide EncodeAll, EncodeFrame;
    assert ps[..j] == ps[..k] + ps[k..j] && ps[k..] == ps[k..j] + ps[j..];
    EncodeAllConcat(alg, ps[..k], ps[k..j]);
    EncodeAllConcat(alg, ps[k..j], ps[j..]);
    assert EncodeAll(alg, ps[k..])[|EncodeAll(alg, ps[k..j])|..] == EncodeAll(alg, ps[j..]);
    if j == |ps| {
      assert ps[j..] == [];
      NothingEncodes(alg);
    }
  }

  lemma NothingEncodes(alg: Checksum)
    ensures EncodeAll(alg, []) == []
  {
  }
}
