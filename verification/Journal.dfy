/** The journaling protocol `src/recover.rs` exists for: append, crash at any
    byte, recover, truncate on a torn tail only, resume appending. */
module Journal {
  import opened Types
  import opened LittleEndian
  import opened Checksums
  import opened Wire
  import opened Recovery

  /** The bytes of the journal, and whether appending is allowed: it is not after
      a crash until a recovery has succeeded. */
  datatype State = State(bytes: seq<byte>, ready: bool)

  datatype Action =
    | Append(payload: Payload)
    | Crash(keep: nat)  // only the first `keep` bytes reached the disk
    | Repair
    | RepairShown(shown: nat)  // the device claims its end after `shown` bytes

  const EMPTY := State([], true)

  function Front(bytes: seq<byte>, n: nat): seq<byte> {
    if n < |bytes| then bytes[..n] else bytes
  }

  function Step(alg: Checksum, max: nat, s: State, a: Action): State {
    match a
    case Append(p) =>
      if s.ready && Writable(p) then s.(bytes := s.bytes + EncodeFrame(alg, p)) else s
    case Crash(keep) =>
      State(Front(s.bytes, keep), false)
    case Repair => Repaired(s, Recover(alg, max, s.bytes))
    case RepairShown(shown) => Repaired(s, Recover(alg, max, Front(s.bytes, shown)))
  }

  /** Truncation on a torn tail only. After a clean end appending may resume where
      the scan stopped, if that is the end of the file. */
  function Repaired(s: State, r: Result<RecoveryReport, ErrorKind>): State {
    if r.Err? then State(s.bytes, false)
    else if r.value.end == TornTail then State(Front(s.bytes, r.value.lastGoodOffset), true)
    else State(s.bytes, r.value.lastGoodOffset >= |s.bytes|)
  }

  /** The payloads a journal should hold: appends add to the end, a crash keeps
      those whose frames lie wholly within the bytes kept, and so does a repair
      that was shown fewer bytes than there are and found a torn tail. */
  function LogStep(alg: Checksum, max: nat, s: State, log: seq<Payload>, a: Action): seq<Payload> {
    match a
    case Append(p) => if s.ready && Writable(p) then log + [p] else log
    case Crash(keep) => log[..WholeFrames(alg, log, keep)]
    case Repair => log
    case RepairShown(shown) =>
      var r := Recover(alg, max, Front(s.bytes, shown));
      if r.Ok? && r.value.end == TornTail then log[..WholeFrames(alg, log, shown)] else log
  }

  function Run(alg: Checksum, max: nat, actions: seq<Action>): State {
    if actions == [] then EMPTY
    else Step(alg, max, Run(alg, max, actions[..|actions| - 1]), actions[|actions| - 1])
  }

  function Log(alg: Checksum, max: nat, actions: seq<Action>): seq<Payload> {
    if actions == [] then []
    else
      var before := actions[..|actions| - 1];
      LogStep(alg, max, Run(alg, max, before), Log(alg, max, before), actions[|actions| - 1])
  }

  /** A possibly empty proper prefix of one frame whose payload is at most `bound`
      long. */
  ghost predicate TornOff(alg: Checksum, bound: nat, tail: seq<byte>) {
    tail == [] || exists q :: Acceptable(bound, q) && tail < EncodeFrame(alg, q)
  }

  /** The journal is the encoding of `log` followed by at most a torn frame, and
      by nothing while appending is allowed; no payload is longer than `bound`. */
  ghost predicate Holds(alg: Checksum, bound: nat, s: State, log: seq<Payload>) {
    && AllAcceptable(bound, log)
    && EncodeAll(alg, log) <= s.bytes
    && TornOff(alg, bound, s.bytes[|EncodeAll(alg, log)|..])
    && (s.ready ==> s.bytes == EncodeAll(alg, log))
  }

  lemma AppendKeeps(alg: Checksum, bound: nat, s: State, log: seq<Payload>, p: Payload)
    requires Holds(alg, bound, s, log) && s.ready && Acceptable(bound, p)
    ensures Holds(alg, bound, State(s.bytes + EncodeFrame(alg, p), true), log + [p])
  {
    hide EncodeAll, EncodeFrame;
    EncodeSnoc(alg, log, p);
    var body := EncodeAll(alg, log + [p]);
    assert body[|body|..] == [];
    assert forall q :: q in log + [p] ==> q in log || q == p;
  }

  lemma CrashKeeps(alg: Checksum, bound: nat, s: State, log: seq<Payload>, keep: nat)
    requires Holds(alg, bound, s, log) && keep <= |s.bytes|
    ensures Holds(alg, bound, State(s.bytes[..keep], false), log[..WholeFrames(alg, log, keep)])
  {
    hide EncodeAll, EncodeFrame, WholeFrames;
    var body, k := EncodeAll(alg, log), WholeFrames(alg, log, keep);
    assert AllAcceptable(bound, log[..k]);
    if keep <= |body| {
      CutSplits(alg, log, keep);
      assert s.bytes[..keep] == body[..keep];
      var tail := Remnant(alg, log, keep);
      assert s.bytes[..keep][|EncodeAll(alg, log[..k])|..] == tail;
      if k < |log| {
        assert Acceptable(bound, log[k]) && tail < EncodeFrame(alg, log[k]);
      }
    } else {
      CutBeyond(alg, log, keep);
      assert log[..k] == log;
      var tail := s.bytes[|body|..];
      var q :| Acceptable(bound, q) && tail < EncodeFrame(alg, q);
      assert s.bytes[..keep][|body|..] == tail[..keep - |body|];
    }
  }

  /** A journal seen as a cut of complete frames: the torn frame is completed. */
  lemma AsCut(alg: Checksum, bound: nat, s: State, log: seq<Payload>) returns (ps: seq<Payload>)
    requires Holds(alg, bound, s, log)
    ensures AllAcceptable(bound, ps) && log <= ps && |ps| <= |log| + 1
    ensures |s.bytes| <= |EncodeAll(alg, ps)| && s.bytes == EncodeAll(alg, ps)[..|s.bytes|]
    ensures WholeFrames(alg, ps, |s.bytes|) == |log|
    ensures Boundary(alg, ps, |log|) == |EncodeAll(alg, log)|
    ensures |ps| == |log| ==> s.bytes == EncodeAll(alg, log)
    ensures |ps| > |log| ==> s.bytes[|EncodeAll(alg, log)|..] < EncodeFrame(alg, ps[|log|])
  {
    hide EncodeAll, EncodeFrame, WholeFrames;
    var body := EncodeAll(alg, log);
    var tail := s.bytes[|body|..];
    assert s.bytes == body + tail;
    if tail == [] {
      ps := log;
      CutBeyond(alg, log, |body|);
    } else {
      var q :| Acceptable(bound, q) && tail < EncodeFrame(alg, q);
      ps := log + [q];
      EncodeSnoc(alg, log, q);
      BoundaryStep(alg, ps, |log|);
      assert ps[..|log|] == log;
      WholeFramesMeaning(alg, ps, |s.bytes|);
      assert !(Boundary(alg, ps, |log| + 1) <= |s.bytes|);
      assert forall p :: p in ps ==> p in log || p == q;
    }
  }

  /** Every payload is within the reader's bound, and the torn frame does not
      already declare, in a complete header, a payload beyond it. */
  ghost predicate Repairable(alg: Checksum, max: nat, bytes: seq<byte>, log: seq<Payload>)
    requires EncodeAll(alg, log) <= bytes
  {
    var tail := bytes[|EncodeAll(alg, log)|..];
    AllAcceptable(max, log) && (|tail| >= HeaderLen(alg) ==> FromLE(tail[..4]) <= max)
  }

  /** That is exactly when recovery succeeds on such a journal, and what it then
      reports. */
  lemma RepairVerdict(alg: Checksum, max: nat, bound: nat, s: State, log: seq<Payload>)
    requires Holds(alg, bound, s, log)
    ensures var off := |EncodeAll(alg, log)|;
            var tail := s.bytes[off..];
            var r := Recover(alg, max, s.bytes);
            && (r.Ok? <==> Repairable(alg, max, s.bytes, log))
            && (r.Ok? ==> r.value == RecoveryReport(|log|, off, if tail == [] then CleanEof else TornTail))
  {
    hide EncodeAll, EncodeFrame, WholeFrames, Recover, FromLE;
    var ps := AsCut(alg, bound, s, log);
    var f, off := FirstOver(max, ps), |EncodeAll(alg, log)|;
    var tail := s.bytes[off..];
    ExactAtEveryCut(alg, max, ps, |s.bytes|);
    WholeFramesMeaning(alg, ps, |s.bytes|);
    if f < |log| {
      assert !Acceptable(max, log[f]) && log[f] in log;
      BoundaryStep(alg, ps, f);
      assert Boundary(alg, ps, f + 1) <= |s.bytes|;
    } else {
      forall p | p in log
        ensures Acceptable(max, p)
      {
        var i :| 0 <= i < |log| && log[i] == p;
        assert ps[i] == p && p in ps;
      }
      if |ps| > |log| && |tail| >= HeaderLen(alg) {
        DeclaredLength(alg, ps[|log|], tail);
      }
    }
  }

  /** A journal that holds nothing beyond the reader's bound is repairable. */
  lemma InBoundIsRepairable(alg: Checksum, max: nat, s: State, log: seq<Payload>)
    requires Holds(alg, max, s, log)
    ensures Repairable(alg, max, s.bytes, log)
  {
    hide EncodeAll, EncodeFrame;
    var tail := s.bytes[|EncodeAll(alg, log)|..];
    if |tail| >= HeaderLen(alg) {
      var q :| Acceptable(max, q) && tail < EncodeFrame(alg, q);
      DeclaredLength(alg, q, tail);
    }
  }

  lemma DeclaredLength(alg: Checksum, q: Payload, tail: seq<byte>)
    requires Writable(q) && tail <= EncodeFrame(alg, q) && |tail| >= 4
    ensures FromLE(tail[..4]) == |q|
  {
    LengthFieldReadsBack(q);
    assert tail[..4] == EncodeFrame(alg, q)[..4] == ToLE(|q|, 4);
  }

  lemma RepairKeeps(alg: Checksum, max: nat, bound: nat, s: State, log: seq<Payload>)
    requires Holds(alg, bound, s, log)
    ensures Holds(alg, bound, Step(alg, max, s, Repair), log)
    ensures Step(alg, max, s, Repair).ready ==> AllAcceptable(max, log)
  {
    RepairVerdict(alg, max, bound, s, log);
    hide EncodeAll, Recover;
    var body := EncodeAll(alg, log);
    assert body[|body|..] == [];
  }

  lemma NotReady(alg: Checksum, bound: nat, s: State, log: seq<Payload>)
    requires Holds(alg, bound, s, log)
    ensures Holds(alg, bound, s.(ready := false), log)
  {
  }

  /** No append writes a payload longer than `bound`. */
  predicate AppendsWithin(bound: nat, actions: seq<Action>) {
    forall i :: 0 <= i < |actions| && actions[i].Append? && Writable(actions[i].payload) ==>
      |actions[i].payload| <= bound
  }

  /** Whole-run safety. Over any interleaving of appends, crashes that keep any
      prefix of the bytes, and recoveries, the journal is the encoding of the
      payloads that should have survived, followed by at most a torn frame. */
  lemma {:induction false} JournalSafety(alg: Checksum, max: nat, bound: nat, actions: seq<Action>)
    requires AppendsWithin(bound, actions)
    ensures Holds(alg, bound, Run(alg, max, actions), Log(alg, max, actions))
  {
    if actions == [] {
      assert EncodeAll(alg, []) == [];
    } else {
      var before, a := actions[..|actions| - 1], actions[|actions| - 1];
      assert forall i :: 0 <= i < |before| ==> before[i] == actions[i];
      JournalSafety(alg, max, bound, before);
      StepKeeps(alg, max, bound, Run(alg, max, before), Log(alg, max, before), a);
    }
  }

  lemma StepKeeps(alg: Checksum, max: nat, bound: nat, s: State, log: seq<Payload>, a: Action)
    requires Holds(alg, bound, s, log) && (a.Append? && Writable(a.payload) ==> |a.payload| <= bound)
    ensures Holds(alg, bound, Step(alg, max, s, a), LogStep(alg, max, s, log, a))
  {
    match a
    case Append(p) =>
      if s.ready && Writable(p) {
        AppendKeeps(alg, bound, s, log, p);
      }
    case Crash(keep) => AnyCrashKeeps(alg, bound, s, log, keep);
    case Repair => RepairKeeps(alg, max, bound, s, log);
    case RepairShown(shown) => RepairShownKeeps(alg, max, bound, s, log, shown);
  }

  lemma AnyCrashKeeps(alg: Checksum, bound: nat, s: State, log: seq<Payload>, keep: nat)
    requires Holds(alg, bound, s, log)
    ensures Holds(alg, bound, State(Front(s.bytes, keep), false), log[..WholeFrames(alg, log, keep)])
  {
    if keep < |s.bytes| {
      CrashKeeps(alg, bound, s, log, keep);
    } else {
      CrashKeeps(alg, bound, s, log, |s.bytes|);
      CutBeyond(alg, log, keep);
      CutBeyond(alg, log, |s.bytes|);
      assert s.bytes[..|s.bytes|] == s.bytes;
    }
  }

  /** A repair that was shown only part of the file does what a crash there and an
      honest repair would do, when it finds a torn tail. */
  lemma ShownIsCrashThenRepair(alg: Checksum, max: nat, s: State, log: seq<Payload>, shown: nat)
    requires var r := Recover(alg, max, Front(s.bytes, shown)); r.Ok? && r.value.end == TornTail
    ensures Step(alg, max, s, RepairShown(shown)) == Step(alg, max, Step(alg, max, s, Crash(shown)), Repair)
    ensures LogStep(alg, max, s, log, RepairShown(shown)) == LogStep(alg, max, s, log, Crash(shown))
  {
    hide EncodeAll, Recover, Scan, WholeFrames;
    var v := Front(s.bytes, shown);
    var off := Recover(alg, max, v).value.lastGoodOffset;
    ReportIsSound(alg, max, v);
    assert Front(v, off) == Front(s.bytes, off);
  }

  lemma RepairShownKeeps(alg: Checksum, max: nat, bound: nat, s: State, log: seq<Payload>, shown: nat)
    requires Holds(alg, bound, s, log)
    ensures Holds(alg, bound, Step(alg, max, s, RepairShown(shown)), LogStep(alg, max, s, log, RepairShown(shown)))
    ensures Step(alg, max, s, RepairShown(shown)).ready ==>
              AllAcceptable(max, LogStep(alg, max, s, log, RepairShown(shown)))
  {
    hide EncodeAll, Recover;
    var r := Recover(alg, max, Front(s.bytes, shown));
    if r.Ok? && r.value.end == TornTail {
      ShownIsCrashThenRepair(alg, max, s, log, shown);
      AnyCrashKeeps(alg, bound, s, log, shown);
      RepairKeeps(alg, max, bound, State(Front(s.bytes, shown), false), log[..WholeFrames(alg, log, shown)]);
    } else {
      NotReady(alg, bound, s, log);
      if r.Ok? {
        ReportIsSound(alg, max, Front(s.bytes, shown));
        RepairKeeps(alg, max, bound, s, log);
      }
    }
  }

  /** Exactly when such a repair is harmless. With `k` whole frames shown it keeps
      every payload if and only if it was shown all of them, or ended on a
      boundary, or saw the complete header of the first payload over the bound;
      and it also lets appending resume if and only if it was shown all the bytes,
      or more than the whole frames, and those bytes are repairable. */
  lemma ShownRepairHarmlessIff(alg: Checksum, max: nat, bound: nat, s: State, log: seq<Payload>, shown: nat)
    requires Holds(alg, bound, s, log)
    ensures var k, f, frames := WholeFrames(alg, log, shown), FirstOver(max, log), |EncodeAll(alg, log)|;
            var kept := LogStep(alg, max, s, log, RepairShown(shown)) == log;
            && (kept <==> || shown >= frames
                          || shown == Boundary(alg, log, k)
                          || (f < |log| && shown >= Boundary(alg, log, f) + HeaderLen(alg)))
            && (kept && Step(alg, max, s, RepairShown(shown)).ready
                <==> && (shown >= |s.bytes| || shown > frames)
                     && Repairable(alg, max, Front(s.bytes, shown), log))
  {
    hide EncodeAll, Recover, WholeFrames, FirstOver;
    var v, frames := Front(s.bytes, shown), |EncodeAll(alg, log)|;
    if shown >= frames {
      CutBeyond(alg, log, shown);
      AnyCrashKeeps(alg, bound, s, log, shown);
      RepairVerdict(alg, max, bound, State(v, false), log);
      assert log[..|log|] == log;
    } else {
      assert v == EncodeAll(alg, log)[..shown];
      ExactAtEveryCut(alg, max, log, shown);
      ShortOfFrames(alg, log, shown);
      if Recover(alg, max, v).Ok? {
        ReportIsSound(alg, max, v);
      }
    }
  }

  lemma ShortOfFrames(alg: Checksum, log: seq<Payload>, shown: nat)
    requires shown < |EncodeAll(alg, log)|
    ensures var k := WholeFrames(alg, log, shown);
            k < |log| && log[..k] != log && Boundary(alg, log, k) <= shown
  {
    WholeFramesMeaning(alg, log, shown);
    assert log[..|log|] == log;
  }

  /** What a reader finds: after any run that leaves the journal ready, exactly
      the payloads that should be there, in order, then a clean end, provided
      they are within its bound. */
  lemma ReadsExactlyTheLog(alg: Checksum, max: nat, actions: seq<Action>)
    requires Run(alg, max, actions).ready && AllAcceptable(max, Log(alg, max, actions))
    ensures Scan(alg, max, Run(alg, max, actions).bytes) == ScanOutcome(Log(alg, max, actions), None)
  {
    JournalSafety(alg, max, U32_MAX, actions);
    StreamRoundTrip(alg, max, Log(alg, max, actions));
  }

  /** A recovery that succeeds establishes that proviso by itself. */
  lemma RepairedReadsBack(alg: Checksum, max: nat, actions: seq<Action>)
    requires Run(alg, max, actions + [Repair]).ready
    ensures AllAcceptable(max, Log(alg, max, actions))
    ensures Scan(alg, max, Run(alg, max, actions + [Repair]).bytes) == ScanOutcome(Log(alg, max, actions), None)
  {
    var all := actions + [Repair];
    assert all[..|all| - 1] == actions;
    JournalSafety(alg, max, U32_MAX, actions);
    RepairKeeps(alg, max, U32_MAX, Run(alg, max, actions), Log(alg, max, actions));
    ReadsExactlyTheLog(alg, max, all);
  }

  /** And when no payload was ever appended beyond the reader's bound, every
      recovery succeeds, whatever the history of crashes: a journal is never
      stuck. */
  lemma InBoundAlwaysRepairs(alg: Checksum, max: nat, actions: seq<Action>)
    requires AppendsWithin(max, actions)
    ensures Run(alg, max, actions + [Repair]).ready
    ensures Scan(alg, max, Run(alg, max, actions + [Repair]).bytes) == ScanOutcome(Log(alg, max, actions), None)
  {
    var all, s, log := actions + [Repair], Run(alg, max, actions), Log(alg, max, actions);
    assert all[..|all| - 1] == actions;
    JournalSafety(alg, max, max, actions);
    RepairVerdict(alg, max, max, s, log);
    InBoundIsRepairable(alg, max, s, log);
    RepairedReadsBack(alg, max, actions);
  }

  lemma LogGrowsByAppends(alg: Checksum, max: nat, s: State, log: seq<Payload>, a: Action)
    ensures var after := LogStep(alg, max, s, log, a);
            if |after| > |log| then a.Append? && after == log + [a.payload] else after <= log
  {
    hide Recover;
  }

  /** `at` gives, in order, an append of its own for each payload of `log`. */
  predicate PlacedBy(at: seq<nat>, log: seq<Payload>, actions: seq<Action>) {
    && |at| == |log|
    && (forall i, j :: 0 <= i < j < |at| ==> at[i] < at[j])
    && (forall i :: 0 <= i < |at| ==> at[i] < |actions| && actions[at[i]] == Append(log[i]))
  }

  lemma PlaceNext(at: seq<nat>, log: seq<Payload>, actions: seq<Action>, p: Payload)
    requires PlacedBy(at, log, actions)
    ensures PlacedBy(at + [|actions|], log + [p], actions + [Append(p)])
  {
  }

  lemma KeepPlaces(at: seq<nat>, log: seq<Payload>, actions: seq<Action>, a: Action, k: nat)
    requires PlacedBy(at, log, actions) && k <= |log|
    ensures PlacedBy(at[..k], log[..k], actions + [a])
  {
  }

  lemma {:induction false} PlaceLog(alg: Checksum, max: nat, actions: seq<Action>) returns (at: seq<nat>)
    ensures |at| == |Log(alg, max, actions)| && PlacedBy(at, Log(alg, max, actions), actions)
  {
    hide LogStep, Step, Run, PlacedBy;
    if actions == [] {
      at := [];
      NothingPlaced();
    } else {
      var before, a := actions[..|actions| - 1], actions[|actions| - 1];
      at := PlaceLog(alg, max, before);
      var s, log, after := Run(alg, max, before), Log(alg, max, before), Log(alg, max, actions);
      LogGrowsByAppends(alg, max, s, log, a);
      assert before + [a] == actions;
      if |after| > |log| {
        PlaceNext(at, log, before, a.payload);
        at := at + [|before|];
      } else {
        assert after == log[..|after|];
        KeepPlaces(at, log, before, a, |after|);
        at := at[..|after|];
      }
    }
  }

  lemma NothingPlaced()
    ensures PlacedBy([], [], [])
  {
  }

  /** Nothing is invented, reordered or duplicated: each payload that survives any
      history was put there by an append of its own, and these are in order. */
  lemma LogIsFromAppends(alg: Checksum, max: nat, actions: seq<Action>) returns (at: seq<nat>)
    ensures var log := Log(alg, max, actions);
            && |at| == |log|
            && (forall i, j :: 0 <= i < j < |at| ==> at[i] < at[j])
            && (forall i :: 0 <= i < |at| ==> at[i] < |actions| && actions[at[i]] == Append(log[i]))
  {
    at := PlaceLog(alg, max, actions);
  }

  function Appends(qs: seq<Payload>): (actions: seq<Action>)
    ensures |actions| == |qs|
  {
    seq(|qs|, i requires 0 <= i < |qs| => Append(qs[i]))
  }

  lemma {:induction false} AppendsAdd(alg: Checksum, max: nat, actions: seq<Action>, qs: seq<Payload>)
    requires Run(alg, max, actions).ready && AllWritable(qs)
    ensures Run(alg, max, actions + Appends(qs)).ready
    ensures Log(alg, max, actions + Appends(qs)) == Log(alg, max, actions) + qs
  {
    hide Run, Log, Step, LogStep, EncodeFrame;
    if qs == [] {
      assert actions + Appends(qs) == actions;
      assert Log(alg, max, actions) + qs == Log(alg, max, actions);
    } else {
      var front, q := qs[..|qs| - 1], qs[|qs| - 1];
      AppendsAdd(alg, max, actions, front);
      assert actions + Appends(qs) == actions + Appends(front) + [Append(q)];
      assert qs == front + [q];
      ConcatAssociates(Log(alg, max, actions), front, [q]);
      AppendAdds(alg, max, actions + Appends(front), q);
    }
  }

  /** A journal that was only ever appended to is the frames of its appends. */
  lemma JournalIsItsAppends(alg: Checksum, max: nat, qs: seq<Payload>)
    requires AllWritable(qs)
    ensures Run(alg, max, Appends(qs)) == State(EncodeAll(alg, qs), true)
  {
    AppendsAdd(alg, max, [], qs);
    assert [] + Appends(qs) == Appends(qs) && Log(alg, max, []) + qs == qs;
    JournalSafety(alg, max, U32_MAX, Appends(qs));
  }

  lemma AppendAdds(alg: Checksum, max: nat, actions: seq<Action>, q: Payload)
    requires Run(alg, max, actions).ready && Writable(q)
    ensures Run(alg, max, actions + [Append(q)]).ready
    ensures Log(alg, max, actions + [Append(q)]) == Log(alg, max, actions) + [q]
  {
    assert (actions + [Append(q)])[..|actions|] == actions;
  }

  /** The journal story: after any history, a crash that keeps any prefix, a
      recovery that succeeds and any further appends, a reader returns the
      payloads whose frames survived whole followed by those appended since. */
  lemma CrashRecoverResume(alg: Checksum, max: nat, actions: seq<Action>, keep: nat, qs: seq<Payload>)
    requires Run(alg, max, actions + [Crash(keep), Repair]).ready && AllAcceptable(max, qs)
    ensures var log := Log(alg, max, actions);
            Scan(alg, max, Run(alg, max, actions + [Crash(keep), Repair] + Appends(qs)).bytes)
            == ScanOutcome(log[..WholeFrames(alg, log, keep)] + qs, None)
  {
    var crashed, repaired := actions + [Crash(keep)], actions + [Crash(keep), Repair];
    assert crashed[..|crashed| - 1] == actions;
    assert repaired == crashed + [Repair] && repaired[..|repaired| - 1] == crashed;
    RepairedReadsBack(alg, max, crashed);
    AppendsAdd(alg, max, repaired, qs);
    var log := Log(alg, max, repaired + Appends(qs));
    assert log == Log(alg, max, crashed) + qs;
    ReadsExactlyTheLog(alg, max, repaired + Appends(qs));
  }
}
