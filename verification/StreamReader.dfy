/** `src/reader.rs`: the message reader, its reused buffer and its deferred
    shrink. The payloads it returns are those of the parser, whatever the policy
    does; its memory follows the reclamation machine, whatever the bytes are. */
module StreamReader {
  import opened Types
  import opened Wire
  import opened Streams
  import opened Framing
  import opened Scanning
  import opened Policies
  import opened Reclamation
  import Journal

  datatype PolicySlot = PolicySlot(policy: Policy, baselineCapacity: nat)

  /** What a `FnMut` processor answers to the last of the payloads it has seen. */
  type Processor = seq<Payload> -> Result<(), ErrorKind>

  /** `process_all` over a parsed stream: the payloads handed to the processor and
      the final status. It stops at the first error, the processor's or the
      stream's. */
  function Process(processor: Processor, scan: ScanOutcome, k: nat): (seq<Payload>, Result<(), ErrorKind>)
    requires k <= |scan.payloads|
    decreases |scan.payloads| - k
  {
    if k == |scan.payloads| then
      (scan.payloads, if scan.stop == None then Ok(()) else Err(scan.stop.value))
    else
      match processor(scan.payloads[..k + 1])
      case Ok(_) => Process(processor, scan, k + 1)
      case Err(e) => (scan.payloads[..k + 1], Err(e))
  }

  ghost predicate AllAccepted(processor: Processor, ps: seq<Payload>) {
    forall i :: 0 < i <= |ps| ==> processor(ps[..i]).Ok?
  }

  lemma AcceptedSoFar(processor: Processor, scan: ScanOutcome, ps: seq<Payload>, k: nat)
    requires ps <= scan.payloads && AllAccepted(processor, ps) && k <= |ps|
    ensures Process(processor, scan, k) == Process(processor, scan, |ps|)
    decreases |ps| - k
  {
    if k < |ps| {
      assert scan.payloads[..k + 1] == ps[..k + 1];
      AcceptedSoFar(processor, scan, ps, k + 1);
    }
  }

  /** What `Process` means, with no recursion: the payloads handed on are the first
      ones of the stream, all but perhaps the last accepted; a rejection ends it
      with the processor's error, and otherwise it got them all and the status is
      the stream's own. */
  lemma ProcessMeaning(processor: Processor, scan: ScanOutcome, k: nat)
    requires k <= |scan.payloads| && forall i :: 0 < i <= k ==> processor(scan.payloads[..i]).Ok?
    ensures var (seen, r) := Process(processor, scan, k);
            && k <= |seen| <= |scan.payloads| && seen == scan.payloads[..|seen|]
            && (forall i :: 0 < i < |seen| ==> processor(scan.payloads[..i]).Ok?)
            && if seen != [] && processor(seen).Err? then r == processor(seen)
               else seen == scan.payloads && r == match scan.stop case None => Ok(()) case Some(e) => Err(e)
    decreases |scan.payloads| - k
  {
    if k == |scan.payloads| {
      assert scan.payloads[..k] == scan.payloads;
    } else if processor(scan.payloads[..k + 1]).Ok? {
      ProcessMeaning(processor, scan, k + 1);
    }
  }

  /** Each payload was one successful read of its length. */
  ghost predicate OnePerPayload(calls: seq<Read>, seen: seq<Payload>, clock: nat -> nat) {
    && |calls| == |seen|
    && forall i :: 0 <= i < |seen| ==>
         calls[i].ok && calls[i].attempted == Some(|seen[i]|) && calls[i].now == clock(i)
  }

  class StreamReader {
    const reader: Reader
    const deframer: Deframer
    var buffer: Vec
    var policy: Option<PolicySlot>
    var pendingShrink: bool
    // The memory when the policy was installed, every read since, and those of
    // them that were put to the policy.
    ghost var start: Machine
    ghost var trace: seq<Read>
    ghost var consults: seq<Consult>
    ghost var reclaims: seq<ReclamationInfo>
    ghost var shrinks: nat

    ghost function PolicyRepr(): set<object>
      reads this
    {
      if policy.Some? then policy.value.policy.Repr() else {}
    }

    ghost function Repr(): set<object>
      reads this, buffer
    {
      {this, buffer, buffer.data} + reader.Repr() + PolicyRepr()
    }

    /** The reader's memory as a state of the reclamation machine. */
    ghost function Memory(): Machine
      reads this, buffer, PolicyRepr()
    {
      Machine(Mem(buffer.len, buffer.Capacity(), pendingShrink),
              if policy.Some? then Some(Slot(policy.value.policy.State(), policy.value.baselineCapacity)) else None,
              reclaims, shrinks)
    }

    ghost predicate Valid()
      reads this, buffer, PolicyRepr(), reader.Dev()
    {
      && reader.Valid() && buffer.Valid() && Separate()
      && AllLegal(deframer.maxFrameLen, trace)
      && Memory() == Run(start, trace) && consults == Consults(start, trace)
    }

    /** The parts share no object. */
    ghost predicate Separate()
      reads this, buffer
    {
      && PolicyRepr() !! {this, buffer, buffer.data}
      && reader.Repr() !! PolicyRepr() + {this, buffer, buffer.data}
    }

    /** The buffer and its allocation may be replaced, by new ones only. */
    twostate predicate OldOrNew()
      reads this, buffer
    {
      && (buffer == old(buffer) || fresh(buffer))
      && (buffer.data == old(buffer.data) || fresh(buffer.data))
    }

    /** `new` is this with capacity 0. */
    constructor (reader: Reader, deframer: Deframer, capacity: nat)
      requires reader.Valid()
      ensures Valid() && fresh(buffer) && fresh(buffer.data)
      ensures this.reader == reader && this.deframer == deframer
      ensures start == Machine(Mem(0, capacity, false), None, [], 0) && trace == [] && consults == []
      ensures buffer.len == 0 && buffer.Capacity() == capacity && policy == None && !pendingShrink
    {
      this.reader, this.deframer := reader, deframer;
      buffer := new Vec(capacity);
      policy, pendingShrink := None, false;
      reclaims, shrinks, trace, consults := [], 0, [], [];
      start := Machine(Mem(0, capacity, false), None, [], 0);
    }

    /** Installs a policy, caching its baseline. */
    method WithMemoryPolicy(p: Policy)
      requires Valid()
      modifies this
      ensures Valid() && buffer == old(buffer)
      ensures policy == Some(PolicySlot(p, p.Baseline()))
      ensures start == Machine(old(Memory()).mem, Some(Slot(p.State(), p.Baseline())), [], 0)
      ensures reclaims == [] && trace == [] && consults == [] && pendingShrink == old(pendingShrink)
      ensures start.slot == Some(match p
                                 case NoOp => Slot(NoOpState, 16 * 1024)
                                 case Adaptive(q) =>
                                   Slot(Watermark(q.config, AdaptiveState(q.messagesSinceOver, q.lastOverSeenAt)),
                                        q.baselineCapacity)
                                 case Threshold(q) =>
                                   Slot(Sized(q.config, ThresholdState(q.largeEventSeen, q.smallSinceLarge)),
                                        q.baselineCapacity)
                                 case Custom(q) => Slot(Scripted(q.answers, q.reports), q.baselineCapacity))
      ensures policy.value.baselineCapacity == start.slot.value.baseline
    {
      policy := Some(PolicySlot(p, p.Baseline()));
      reclaims, shrinks, trace, consults := [], 0, [], [];
      start := Memory();
    }

    /** One read. Whatever the policy, the answer is the parser's on the bytes
        shown, and the front of the buffer is exactly the frame's payload, still
        intact when the policy fires on this very read. The policy is consulted
        exactly if the read succeeded and left the buffer above the baseline, and
        a shrink is left pending exactly if a reclaim of these sizes was reported;
        a shrink left pending before was applied first. What the policy answers is
        said below, of each built-in policy, in terms of the consults since it was
        installed fresh. */
    method ReadMessage(now: nat) returns (r: Result<Option<nat>, ErrorKind>)
      requires Valid()
      modifies Repr()
      ensures Valid() && policy == old(policy) && OldOrNew() && start == old(start)
      ensures reader.Kept()
      ensures StepTaken(deframer, old(reader.Now()), reader.Now(), buffer.Contents(), r)
      ensures exists rd: Read :: trace == old(trace) + [rd] && Recorded(rd, old(reader.Now()), reader.Now(), r, now)
      ensures consults == old(consults)
                          + if r.Ok? && r.value.Some? && policy.Some?
                               && buffer.Capacity() > policy.value.baselineCapacity
                            then [Consult(r.value.value, buffer.Capacity(), now)] else []
      ensures !pendingShrink ==> reclaims == old(reclaims)
      ensures pendingShrink ==>
                && |consults| > |old(consults)| && |reclaims| == |old(reclaims)| + 1 && old(reclaims) <= reclaims
                && reclaims[|old(reclaims)|]
                   == ReclamationInfo(reclaims[|old(reclaims)|].reason, r.value.value, buffer.Capacity(),
                                      policy.value.baselineCapacity)
      ensures old(pendingShrink) && policy.Some? && r.Ok? && r.value.Some? ==>
                && shrinks == old(shrinks) + 1 && buffer.len == r.value.value
                && (r.value.value <= policy.value.baselineCapacity ==>
                      buffer.Capacity() == policy.value.baselineCapacity)
      ensures AnswersDecide(old(consults), old(reclaims))
    {
      hide Parse, Attempted, Shown, Run, Deframed, StepTaken, Policy.State, Ran, Told, Evaluated, Begin, Resized;
      hide Consults, AnswersDecide;
      BeginRead();
      ghost var a := reader.Now();
      ghost var rd;
      r, rd := ReadFrame(now);
      FinishRead(r, now, rd);
      assert Recorded(rd, a, reader.Now(), r, now);
      ReadDecides(old(trace), rd, r, now, old(Memory()), old(consults));
    }

    /** A shrink is pending, and reported with this reason, exactly as a policy
        installed fresh answers the last consult: `NoOp` never does, and a caller's
        policy gives its answers in order and hears every reclaim. */
    ghost predicate AnswersDecide(consultsBefore: seq<Consult>, reclaimsBefore: seq<ReclamationInfo>)
      reads this, PolicyRepr()
    {
      var n := |consults| - 1;
      policy.Some? ==>
        match policy.value.policy
        case NoOp => start.slot == Some(Slot(NoOpState, policy.value.baselineCapacity)) ==> !pendingShrink
        case Adaptive(p) =>
          start.slot == Some(Slot(Watermark(p.config, AdaptiveState(0, None)), policy.value.baselineCapacity)) ==>
            && (pendingShrink <==> n >= |consultsBefore| && AdaptiveAnswer(p.config, consults, n).Some?)
            && (pendingShrink && |reclaimsBefore| < |reclaims| ==>
                  AdaptiveAnswer(p.config, consults, n) == Some(reclaims[|reclaimsBefore|].reason))
        case Threshold(p) =>
          start.slot == Some(Slot(Sized(p.config, ThresholdState(false, 0)), policy.value.baselineCapacity)) ==>
            && (pendingShrink <==> n >= |consultsBefore| && ThresholdAnswer(p.config, consults, n).Some?)
            && (pendingShrink && |reclaimsBefore| < |reclaims| ==>
                  ThresholdAnswer(p.config, consults, n) == Some(reclaims[|reclaimsBefore|].reason))
        case Custom(p) =>
          start.slot.Some? && start.slot.value.policy.Scripted? && start.slot.value.policy.reports == []
          && start.reclaims == [] ==>
            var answers := start.slot.value.policy.answers;
            && (pendingShrink <==> |consultsBefore| <= n < |answers| && answers[n].Some?)
            && p.reports == reclaims
    }

    /** The read itself, into the buffer as it stands. */
    method ReadFrame(now: nat) returns (r: Result<Option<nat>, ErrorKind>, ghost rd: Read)
      requires reader.Valid() && buffer.Valid() && Separate()
      modifies reader.Repr(), buffer, buffer.data
      ensures buffer.Valid() && Separate() && (buffer.data == old(buffer.data) || fresh(buffer.data))
      ensures reader.Kept()
      ensures StepTaken(deframer, old(reader.Now()), reader.Now(), buffer.Contents(), r)
      ensures Recorded(rd, old(reader.Now()), reader.Now(), r, now) && Legal(deframer.maxFrameLen, rd)
      ensures Memory() == old(Memory()).(mem := Resized(old(Memory()).mem, rd))
    {
      hide Parse, Attempted, Shown, Run, Deframed, Policy.State, Ran, Told;
      ghost var attempted;
      r, attempted := deframer.ReadAndDeframe(reader, buffer);
      rd := Read(attempted, r.Ok? && r.value.Some?,
                 if attempted.Some? then Max(buffer.Capacity(), attempted.value) else 0, now);
    }

    /** If a shrink was scheduled by a previous read, performs it now. */
    method BeginRead()
      requires buffer.Valid() && Separate()
      modifies this
      ensures buffer.Valid() && Separate() && (buffer == old(buffer) || (fresh(buffer) && fresh(buffer.data)))
      ensures Memory() == Begin(old(Memory()))
      ensures policy == old(policy) && start == old(start) && trace == old(trace) && consults == old(consults)
    {
      if pendingShrink {
        ApplyPendingShrink();
      }
    }

    /** A successful read is put to the policy, and every read is traced. */
    method FinishRead(r: Result<Option<nat>, ErrorKind>, now: nat, ghost rd: Read)
      requires reader.Valid() && buffer.Valid() && Separate()
      requires AllLegal(deframer.maxFrameLen, trace) && Legal(deframer.maxFrameLen, rd) && rd.now == now
      requires (rd.ok <==> r.Ok? && r.value.Some?) && (rd.ok ==> rd.attempted == r.value)
      requires var begun := Begin(Run(start, trace));
               Memory() == begun.(mem := Resized(begun.mem, rd))
      requires consults == Consults(start, trace)
      modifies this`pendingShrink, this`reclaims, this`trace, this`consults, PolicyRepr()
      ensures Valid() && trace == old(trace) + [rd]
    {
      hide Run, Policy.State, Evaluated, Begin, Resized, Consults, ConsultOf;
      if r.Ok? && r.value.Some? {
        EvaluateMemoryPolicy(r.value.value, now);
      }
      RunSnoc(start, trace, rd);
      consults := consults + ConsultOf(Run(start, trace), rd);
      trace := trace + [rd];
    }

    /** What a read decided, from the machine's step. */
    lemma ReadDecides(before: seq<Read>, rd: Read, r: Result<Option<nat>, ErrorKind>, now: nat, m: Machine,
                      consultsBefore: seq<Consult>)
      requires Valid() && trace == before + [rd]
      requires m == Run(start, before) && consultsBefore == Consults(start, before)
      requires (rd.ok <==> r.Ok? && r.value.Some?) && (rd.ok ==> rd.attempted == r.value) && rd.now == now
      ensures consults == consultsBefore
                          + if r.Ok? && r.value.Some? && policy.Some?
                               && buffer.Capacity() > policy.value.baselineCapacity
                            then [Consult(r.value.value, buffer.Capacity(), now)] else []
      ensures !pendingShrink ==> reclaims == m.reclaims
      ensures pendingShrink ==>
                && |consults| > |consultsBefore| && |reclaims| == |m.reclaims| + 1 && m.reclaims <= reclaims
                && reclaims[|m.reclaims|]
                   == ReclamationInfo(reclaims[|m.reclaims|].reason, r.value.value, buffer.Capacity(),
                                      policy.value.baselineCapacity)
      ensures m.mem.pendingShrink && policy.Some? && m.slot.Some? && r.Ok? && r.value.Some? ==>
                && shrinks == m.shrinks + 1 && buffer.len == r.value.value
                && (r.value.value <= m.slot.value.baseline ==> buffer.Capacity() == m.slot.value.baseline)
      ensures AnswersDecide(consultsBefore, m.reclaims)
    {
      hide Run, Step, Consults, ConsultOf, AdaptiveAnswer, ThresholdAnswer;
      RunSnoc(start, before, rd);
      StepReports(m, rd);
      StepResizes(m, rd);
      if policy.Some? {
        match policy.value.policy
        case NoOp => NoOpNeverAnswers(start, before, rd);
        case Adaptive(p) =>
          if start.slot == Some(Slot(Watermark(p.config, AdaptiveState(0, None)), policy.value.baselineCapacity)) {
            AdaptiveFollowsHistory(start, p.config, before, rd);
          }
        case Threshold(p) =>
          if start.slot == Some(Slot(Sized(p.config, ThresholdState(false, 0)), policy.value.baselineCapacity)) {
            ThresholdFollowsHistory(start, p.config, before, rd);
          }
        case Custom(p) =>
          if start.slot.Some? && start.slot.value.policy.Scripted? && start.slot.value.policy.reports == []
             && start.reclaims == [] {
            ScriptFollowsConsults(start, start.slot.value.policy.answers, trace);
            assert trace[..|trace| - 1] == before;
            assert policy.value.policy.State() == Scripted(p.answers, p.reports);
          }
      }
    }

    lemma NoOpNeverAnswers(m: Machine, trace: seq<Read>, rd: Read)
      ensures m.slot.Some? && m.slot.value.policy == NoOpState ==> !Run(m, trace + [rd]).mem.pendingShrink
    {
      if m.slot.Some? && m.slot.value.policy == NoOpState {
        ConsultDecides(m, trace, rd);
        NoOpRemembers(Consults(m, trace));
      }
    }

    /** What the trace says of a read. */
    ghost predicate Recorded(rd: Read, a: Moment, b: Moment, r: Result<Option<nat>, ErrorKind>, now: nat) {
      && Ran(a, b)
      && (rd.ok <==> r.Ok? && r.value.Some?)
      && (rd.ok ==> rd.attempted == r.value)
      && rd.now == now
      && (!Told(a, b).Fault? ==> rd.attempted == Attempted(deframer.Alg(), deframer.maxFrameLen, Shown(a, b)))
      && rd.attempted == Attempted(deframer.Alg(), deframer.maxFrameLen, Taken(a, b))
    }

    /** Performs the shrink a previous read scheduled. */
    method ApplyPendingShrink()
      requires buffer.Valid() && Separate() && pendingShrink
      modifies this
      ensures buffer.Valid() && Separate() && (buffer == old(buffer) || (fresh(buffer) && fresh(buffer.data)))
      ensures Memory() == Begin(old(Memory()))
      ensures policy == old(policy) && start == old(start) && trace == old(trace) && consults == old(consults)
    {
      if policy.Some? {
        buffer := new Vec(policy.value.baselineCapacity);
        shrinks := shrinks + 1;
      }
      pendingShrink := false;
    }

    /** Consults the policy after a successful read, only above its baseline, and
        schedules the shrink for the next read. */
    method EvaluateMemoryPolicy(lastMessageSize: nat, now: nat)
      modifies this`pendingShrink, this`reclaims, PolicyRepr()
      ensures Memory() == Evaluated(old(Memory()), lastMessageSize, now)
    {
      if policy == None {
        return;
      }
      var slot := policy.value;
      var capacity := buffer.Capacity();
      if capacity > slot.baselineCapacity {
        var verdict := slot.policy.ShouldReset(lastMessageSize, capacity, now);
        if verdict.Some? {
          pendingShrink := true;
          var info := ReclamationInfo(verdict.value, lastMessageSize, capacity, slot.baselineCapacity);
          slot.policy.OnReclaim(info);
          reclaims := reclaims + [info];
        }
      }
    }

    /** One read, as the loop below needs it. */
    method ReadTraced(now: nat) returns (r: Result<Option<nat>, ErrorKind>, ghost rd: Read)
      requires Valid()
      modifies Repr()
      ensures Valid() && policy == old(policy) && OldOrNew() && start == old(start)
      ensures StepTaken(deframer, old(reader.Now()), reader.Now(), buffer.Contents(), r)
      ensures trace == old(trace) + [rd] && Recorded(rd, old(reader.Now()), reader.Now(), r, now)
    {
      hide Run, Consults, StepTaken, Recorded, AnswersDecide, Policy.State, Told, Ran;
      ghost var a := reader.Now();
      r := ReadMessage(now);
      rd :| trace == old(trace) + [rd] && Recorded(rd, a, reader.Now(), r, now);
    }

    /** Reads to the end, handing each payload to the processor. The payloads and
        the final status are those of the parser on the same bytes; a device
        fault is reported after the payloads read before it. The reads traced are
        one for each payload and the one that ended it, if the stream did. */
    method ProcessAll(processor: Processor, clock: nat -> nat)
      returns (r: Result<(), ErrorKind>, seen: seq<Payload>)
      requires Valid()
      modifies Repr()
      ensures Valid() && policy == old(policy) && OldOrNew() && start == old(start)
      ensures Processed(processor, old(reader.Now()), reader.Now(), seen, r)
      ensures old(trace) <= trace
              && ReadsTraced(old(reader.Now()), reader.Now(), trace[|old(trace)|..], seen, r, processor, clock)
    {
      hide Parse, Shown, Run, EncodeAll, Deframed, Progress, Told, Ran, StepTaken, Processed, Policy.State, Taken;
      hide Attempted, Recorded, ReadsTraced, AnswersDecide, Consults;
      seen := [];
      ghost var a, calls: seq<Read> := reader.Now(), [];
      NoProgress(deframer, a);
      while true
        invariant Valid() && policy == old(policy) && OldOrNew() && start == old(start)
        invariant trace == old(trace) + calls && OnePerPayload(calls, seen, clock)
        invariant Progress(deframer, a, reader.Now(), seen) && AllAccepted(processor, seen)
        decreases |reader.Dev().bytes| - reader.Dev().pos
      {
        ghost var b := reader.Now();
        var got; ghost var rd;
        got, rd := ReadTraced(clock(|seen|));
        ghost var contents := buffer.Contents();
        assert trace == old(trace) + (calls + [rd]);
        if got.Err? || got.value == None {
          StopIsProcessed(processor, a, b, reader.Now(), seen, contents, got);
          StopIsTraced(processor, a, b, reader.Now(), seen, contents, got, calls, rd, clock);
          r := if got.Ok? then Ok(()) else Err(got.error);
          break;
        }
        StepAdvances(deframer, a, b, reader.Now(), seen, contents, got.value.value);
        OneMore(b, reader.Now(), calls, rd, seen, contents[..got.value.value], got, clock);
        calls := calls + [rd];
        ghost var before := seen;
        seen := seen + [buffer.data[..got.value.value]];
        assert buffer.data[..got.value.value] == contents[..got.value.value];
        assert seen[..|seen| - 1] == before;
        r := processor(seen);
        if r.Err? {
          ErrorIsProcessed(processor, a, reader.Now(), seen, r);
          ErrorIsTraced(processor, a, reader.Now(), seen, r, calls, clock);
          break;
        }
        AcceptedGrows(processor, seen);
      }
    }

    /** The reads of a `process_all` that led from `a` to `b`: one for each payload,
        and, unless the processor ended it, one more, whose attempt is what the
        bytes taken after the last frame declare. */
    ghost predicate ReadsTraced(a: Moment, b: Moment, calls: seq<Read>, seen: seq<Payload>, r: Result<(), ErrorKind>,
                                processor: Processor, clock: nat -> nat) {
      var n := |seen|;
      && n <= |calls| <= n + 1 && OnePerPayload(calls[..n], seen, clock)
      && (|calls| == n ==> n > 0 && r.Err? && r == processor(seen))
      && (|calls| > n ==>
            && !calls[n].ok && Ran(a, b) && EncodeAll(deframer.Alg(), seen) <= Taken(a, b)
            && calls[n].attempted == Attempted(deframer.Alg(), deframer.maxFrameLen,
                                               Taken(a, b)[|EncodeAll(deframer.Alg(), seen)|..])
            && (r.Ok? ==> calls[n].attempted == None))
    }

    lemma StopIsTraced(processor: Processor, a: Moment, b: Moment, c: Moment, seen: seq<Payload>, contents: seq<byte>,
                       got: Result<Option<nat>, ErrorKind>, calls: seq<Read>, rd: Read, clock: nat -> nat)
      requires Progress(deframer, a, b, seen) && StepTaken(deframer, b, c, contents, got)
      requires (got.Err? || got.value == None) && OnePerPayload(calls, seen, clock)
      requires Recorded(rd, b, c, got, clock(|seen|))
      ensures ReadsTraced(a, c, calls + [rd], seen, if got.Ok? then Ok(()) else Err(got.error), processor, clock)
    {
      hide Parse, EncodeAll, Shown, Told, Paced;
      InSequence(a, b, c);
      assert (calls + [rd])[..|seen|] == calls;
      if got.Ok? {
        assert Taken(b, c) == [];
      }
    }

    lemma ErrorIsTraced(processor: Processor, a: Moment, b: Moment, seen: seq<Payload>, r: Result<(), ErrorKind>,
                        calls: seq<Read>, clock: nat -> nat)
      requires |seen| > 0 && r.Err? && r == processor(seen) && OnePerPayload(calls, seen, clock)
      ensures ReadsTraced(a, b, calls, seen, r, processor, clock)
    {
      assert calls[..|seen|] == calls;
    }

    lemma OneMore(b: Moment, c: Moment, calls: seq<Read>, rd: Read, seen: seq<Payload>, p: Payload,
                  got: Result<Option<nat>, ErrorKind>, clock: nat -> nat)
      requires OnePerPayload(calls, seen, clock) && Recorded(rd, b, c, got, clock(|seen|)) && got == Ok(Some(|p|))
      ensures OnePerPayload(calls + [rd], seen + [p], clock)
    {
    }

    ghost predicate Processed(processor: Processor, a: Moment, b: Moment, seen: seq<Payload>,
                              r: Result<(), ErrorKind>)
    {
      && Ran(a, b)
      && match Told(a, b)
         case Fault(code) =>
           && r == Err(Io(Other(code)))
           && AllAccepted(processor, seen)
           && EncodeAll(deframer.Alg(), seen) <= a.bytes[a.pos..]
         case _ =>
           (seen, r) == Process(processor, Scan(deframer.Alg(), deframer.maxFrameLen, Shown(a, b)), 0)
    }

    lemma StopIsProcessed(processor: Processor, a: Moment, b: Moment, c: Moment, seen: seq<Payload>,
                          contents: seq<byte>, got: Result<Option<nat>, ErrorKind>)
      requires Progress(deframer, a, b, seen) && StepTaken(deframer, b, c, contents, got)
      requires (got.Err? || got.value == None) && AllAccepted(processor, seen)
      ensures Processed(processor, a, c, seen, if got.Ok? then Ok(()) else Err(got.error))
    {
      StepStops(deframer, a, b, c, seen, contents, got);
      hide Parse, EncodeAll, Shown, Deframed, Told, Scan;
      var scan := ScanOutcome(seen, if got.Ok? then None else Some(got.error));
      AcceptedSoFar(processor, scan, seen, 0);
      PrefixOfRest(a, b);
    }

    lemma PrefixOfRest(a: Moment, b: Moment)
      requires Ran(a, b)
      ensures Taken(a, b) <= a.bytes[a.pos..]
    {
    }

    lemma ErrorIsProcessed(processor: Processor, a: Moment, b: Moment, seen: seq<Payload>, r: Result<(), ErrorKind>)
      requires Progress(deframer, a, b, seen) && |seen| > 0
      requires r.Err? && r == processor(seen) && AllAccepted(processor, seen[..|seen| - 1])
      ensures Processed(processor, a, b, seen, r)
    {
      var alg, max := deframer.Alg(), deframer.maxFrameLen;
      var rest := a.bytes[b.pos..];
      assert Shown(a, b) == EncodeAll(alg, seen) + rest;
      ScanAppends(alg, max, seen, rest);
      hide Parse, EncodeAll, Scan;
      var scan := Scan(alg, max, Shown(a, b));
      assert scan.payloads[..|seen|] == seen;
      AcceptedSoFar(processor, scan, seen[..|seen| - 1], 0);
    }

    lemma AcceptedGrows(processor: Processor, seen: seq<Payload>)
      requires |seen| > 0 && AllAccepted(processor, seen[..|seen| - 1]) && processor(seen).Ok?
      ensures AllAccepted(processor, seen)
    {
      forall i | 0 < i <= |seen|
        ensures processor(seen[..i]).Ok?
      {
        if i < |seen| {
          assert seen[..i] == seen[..|seen| - 1][..i];
        } else {
          assert seen[..i] == seen;
        }
      }
    }

    /** The journal read to the end: after any history of appends, crashes and
        recoveries that ends with a successful recovery, an undisturbed
        `process_all` from the start of the file hands the processor exactly the
        payloads that should have survived, in order, and ends well. */
    lemma JournalReadsBack(actions: seq<Journal.Action>, processor: Processor,
                           a: Moment, b: Moment, seen: seq<Payload>, r: Result<(), ErrorKind>)
      requires Journal.Run(deframer.Alg(), deframer.maxFrameLen, actions + [Journal.Repair]).ready
      requires a.bytes == Journal.Run(deframer.Alg(), deframer.maxFrameLen, actions + [Journal.Repair]).bytes
      requires a.pos == 0
      requires Processed(processor, a, b, seen, r) && Told(a, b) == Undisturbed
      requires AllAccepted(processor, Journal.Log(deframer.Alg(), deframer.maxFrameLen, actions))
      ensures seen == Journal.Log(deframer.Alg(), deframer.maxFrameLen, actions) && r.Ok?
    {
      Journal.RepairedReadsBack(deframer.Alg(), deframer.maxFrameLen, actions);
      assert a.bytes[0..] == a.bytes;
      var log := Journal.Log(deframer.Alg(), deframer.maxFrameLen, actions);
      AcceptedSoFar(processor, ScanOutcome(log, None), log, 0);
    }

    /** The buffer never exceeds the accepted frame length, errors included. */
    lemma BufferIsBounded()
      requires Valid() && start.mem.len <= deframer.maxFrameLen
      ensures buffer.len <= deframer.maxFrameLen
    {
      NeverAboveBound(deframer.maxFrameLen, start, trace);
    }

    /** Reclaims are paid for by reads above the baseline. */
    lemma ReclaimsArePaid()
      requires Valid() && start.slot.Some?
      requires start == Fresh(start.mem.capacity, start.slot.value.policy, start.slot.value.baseline)
      requires start.mem.capacity <= start.slot.value.baseline
      ensures var baseline := start.slot.value.baseline;
              && |reclaims| <= Big(baseline, trace) + (if start.mem.capacity < baseline then 1 else 0)
              && |reclaims| == shrinks + (if pendingShrink then 1 else 0)
    {
      NoThrash(deframer.maxFrameLen, start.mem.capacity, start.slot.value.policy, start.slot.value.baseline, trace);
    }

    /** Every reclaim of a reader whose adaptive policy was installed fresh is due by
        the policy's history of consults, in order, and none is missing. */
    lemma ReclaimsAreThoseDue(p: AdaptiveWatermarkPolicy, baseline: nat)
      requires Valid() && start.slot == Some(Slot(Watermark(p.config, AdaptiveState(0, None)), baseline))
      requires start.reclaims == []
      ensures reclaims == ReportsDue(p.config, consults, baseline)
    {
      ReclaimsAreDue(start, p.config, trace);
    }

    /** Bounded response, on the reader: if the last `messages_to_wait` consults all
        found a capacity of at least `ratio` times a non-empty message, one of them
        fired, and reported a reclaim that the consults before them had not. */
    lemma WasteIsReclaimed(p: AdaptiveWatermarkPolicy, baseline: nat)
      requires Valid() && start.slot == Some(Slot(Watermark(p.config, AdaptiveState(0, None)), baseline))
      requires start.reclaims == [] && 1 <= p.config.messagesToWait <= |consults|
      requires forall j :: |consults| - p.config.messagesToWait <= j < |consults| ==>
                 consults[j].size > 0 && consults[j].capacity >= consults[j].size * p.config.sizeRatioThreshold
      ensures var from := |consults| - p.config.messagesToWait;
              && (exists j :: from <= j < |consults| && AdaptiveAnswer(p.config, consults, j).Some?)
              && |reclaims| > |ReportsDue(p.config, consults[..from], baseline)|
    {
      hide AdaptiveAnswer;
      var from := |consults| - p.config.messagesToWait;
      SomeConsultFires(p.config, consults);
      var j :| from <= j < |consults| && AdaptiveAnswer(p.config, consults, j).Some?;
      ReclaimsAreThoseDue(p, baseline);
      FiredIsReported(p.config, consults, baseline, from, j);
    }

    /** A `process_all` in the reader's life: the reclaims so far are paid for by
        the earlier reads above the baseline and by the payloads longer than it,
        and by one more at most if the stream ended in an error. */
    lemma ReclaimsByPayloads(before: seq<Read>, calls: seq<Read>, a: Moment, b: Moment, seen: seq<Payload>,
                             r: Result<(), ErrorKind>, processor: Processor, clock: nat -> nat)
      requires Valid() && trace == before + calls && ReadsTraced(a, b, calls, seen, r, processor, clock)
      requires start.slot.Some?
      requires start == Fresh(start.mem.capacity, start.slot.value.policy, start.slot.value.baseline)
      requires start.mem.capacity <= start.slot.value.baseline
      ensures var baseline := start.slot.value.baseline;
              |reclaims| <= Big(baseline, before) + Longer(baseline, seen)
                            + (if r.Err? then 1 else 0) + (if start.mem.capacity < baseline then 1 else 0)
    {
      var baseline := start.slot.value.baseline;
      ReclaimsArePaid();
      BigConcat(baseline, before, calls);
      CountedWithLast(baseline, 0, calls, seen);
    }

    /** The high-water mark of a `process_all` that ended well, by its payloads: if
        the last shrink was applied at its call `k`, the buffer is as long as the
        longest payload from there on; if none was applied during it, as the
        longest payload or as it was. */
    lemma HighWaterByPayloads(before: seq<Read>, calls: seq<Read>, a: Moment, b: Moment, seen: seq<Payload>,
                              r: Result<(), ErrorKind>, processor: Processor, clock: nat -> nat, k: nat)
      requires Valid() && trace == before + calls && ReadsTraced(a, b, calls, seen, r, processor, clock) && r.Ok?
      requires k <= |seen|
      requires forall j :: |before| + k < j < |trace| ==> !Run(start, trace[..j]).mem.pendingShrink
      ensures var at := Run(start, trace[..|before| + k]);
              && (at.mem.pendingShrink && at.slot.Some? ==> buffer.len == Longest(0, seen[k..]))
              && (!at.mem.pendingShrink ==> buffer.len == Longest(at.mem.len, seen[k..]))
    {
      hide Run, Highest, Longest;
      var at, tail := Run(start, trace[..|before| + k]), calls[k..];
      assert trace[|before| + k..] == tail;
      assert tail[..|seen| - k] == calls[..|seen|][k..];
      CountedWithLast(0, Begin(at).mem.len, tail, seen[k..]);
      GrowsFrom(start, trace, |before| + k);
    }

    /** Without a policy nothing is ever reclaimed: the buffer ends as long as the
        longest payload. */
    lemma NoPolicyHoldsLongest(calls: seq<Read>, a: Moment, b: Moment, seen: seq<Payload>, r: Result<(), ErrorKind>,
                               processor: Processor, clock: nat -> nat)
      requires Valid() && trace == calls && ReadsTraced(a, b, calls, seen, r, processor, clock) && r.Ok?
      requires start.slot == None && !start.mem.pendingShrink
      ensures buffer.len == Longest(start.mem.len, seen) && reclaims == start.reclaims
    {
      forall j | 0 <= j <= |trace|
        ensures !Run(start, trace[..j]).mem.pendingShrink && Run(start, trace[..j]).reclaims == start.reclaims
      {
        NoPolicyNoShrink(start, trace[..j]);
      }
      assert trace[..0] == [] && trace[..|trace|] == trace && [] + calls == trace && seen[0..] == seen;
      HighWaterByPayloads([], calls, a, b, seen, r, processor, clock, 0);
    }
  }

  //--- Memory by the payloads ---

  /** How many payloads are longer than the baseline. */
  function Longer(baseline: nat, ps: seq<Payload>): nat {
    if ps == [] then 0 else Longer(baseline, ps[..|ps| - 1]) + if |ps[|ps| - 1]| > baseline then 1 else 0
  }

  /** The length of the longest payload, or `low` if that is more. */
  function Longest(low: nat, ps: seq<Payload>): nat {
    if ps == [] then low else Max(Longest(low, ps[..|ps| - 1]), |ps[|ps| - 1]|)
  }

  ghost predicate SameLengths(calls: seq<Read>, ps: seq<Payload>) {
    |calls| == |ps| && forall i :: 0 <= i < |ps| ==> calls[i].attempted == Some(|ps[i]|)
  }

  lemma {:induction false} CountedByPayloads(baseline: nat, low: nat, calls: seq<Read>, ps: seq<Payload>)
    requires SameLengths(calls, ps)
    ensures Big(baseline, calls) == Longer(baseline, ps)
    ensures Highest(low, calls) == Longest(low, ps)
  {
    if ps != [] {
      CountedByPayloads(baseline, low, calls[..|calls| - 1], ps[..|ps| - 1]);
    }
  }

  /** The same with the read that ended the stream. */
  lemma CountedWithLast(baseline: nat, low: nat, calls: seq<Read>, ps: seq<Payload>)
    requires |ps| <= |calls| <= |ps| + 1 && SameLengths(calls[..|ps|], ps)
    ensures Big(baseline, calls) <= Longer(baseline, ps) + (|calls| - |ps|)
    ensures |calls| == |ps| || calls[|ps|].attempted == None ==>
              Big(baseline, calls) == Longer(baseline, ps) && Highest(low, calls) == Longest(low, ps)
  {
    CountedByPayloads(baseline, low, calls[..|ps|], ps);
    assert |calls| == |ps| ==> calls[..|ps|] == calls;
  }

  lemma RunSnoc(m: Machine, trace: seq<Read>, rd: Read)
    ensures Run(m, trace + [rd]) == Step(Run(m, trace), rd)
    ensures Consults(m, trace + [rd]) == Consults(m, trace) + ConsultOf(Run(m, trace), rd)
  {
    assert (trace + [rd])[..|trace|] == trace;
  }
}
