/** `src/policy.rs`: the memory policies as they run, and what their counters and
    timers mean over the history of consults. */
module Policies {
  import opened Types

  type U32 = n: int | 0 <= n <= 0xFFFF_FFFF

  const DEFAULT_BASELINE_CAPACITY: nat := 16 * 1024

  datatype Reason = MessageCount | TimeCooldown | SizeThreshold

  datatype ReclamationInfo =
    ReclamationInfo(reason: Reason, lastMessageSize: nat, capacityBefore: nat, capacityAfter: nat)

  /** One call of `should_reset`, with the clock reading of that moment. */
  datatype Consult = Consult(size: nat, capacity: nat, now: nat)

  function SaturatingIncrement(n: U32): U32 {
    if n == 0xFFFF_FFFF then n else n + 1
  }

  function SaturatingProduct(a: nat, b: nat): nat {
    if a * b <= USIZE_MAX then a * b else USIZE_MAX
  }

  function SaturatingDifference(a: nat, b: nat): nat {
    if a < b then 0 else a - b
  }

  //--- The adaptive watermark policy ---

  datatype AdaptiveConfig = AdaptiveConfig(sizeRatioThreshold: nat, messagesToWait: U32, cooldown: Option<nat>)

  /** The signal in plain numbers: a non-empty message, and a capacity of at least
      `ratio` times its size, or as large as a machine word can say. */
  predicate Signals(cfg: AdaptiveConfig, c: Consult) {
    && c.size > 0
    && (c.capacity >= c.size * cfg.sizeRatioThreshold || c.capacity >= 0xFFFF_FFFF_FFFF_FFFF)
  }

  datatype AdaptiveState = AdaptiveState(messagesSinceOver: U32, lastOverSeenAt: Option<nat>)

  const ADAPTIVE_START := AdaptiveState(0, None)

  /** The buffer counts as over-provisioned for a non-empty message. */
  predicate Over(cfg: AdaptiveConfig, c: Consult) {
    c.size != 0 && c.capacity >= SaturatingProduct(c.size, cfg.sizeRatioThreshold)
  }

  function AdaptiveStep(cfg: AdaptiveConfig, st: AdaptiveState, c: Consult): (AdaptiveState, Option<Reason>) {
    if !Over(cfg, c) then (ADAPTIVE_START, None)
    else
      var count := SaturatingIncrement(st.messagesSinceOver);
      var since := if st.lastOverSeenAt == None && cfg.cooldown.Some? then Some(c.now) else st.lastOverSeenAt;
      var timeOk := cfg.cooldown.Some? && since.Some?
                    && SaturatingDifference(c.now, since.value) >= cfg.cooldown.value;
      if timeOk then (ADAPTIVE_START, Some(TimeCooldown))
      else if count >= cfg.messagesToWait then (ADAPTIVE_START, Some(MessageCount))
      else (AdaptiveState(count, since), None)
  }

  class AdaptiveWatermarkPolicy {
    const config: AdaptiveConfig
    const baselineCapacity: nat
    var messagesSinceOver: U32
    var lastOverSeenAt: Option<nat>

    function State(): AdaptiveState
      reads this
    {
      AdaptiveState(messagesSinceOver, lastOverSeenAt)
    }

    constructor (config: AdaptiveConfig, baselineCapacity: nat)
      ensures this.config == config && this.baselineCapacity == baselineCapacity
      ensures State() == ADAPTIVE_START && messagesSinceOver == 0 && lastOverSeenAt == None
    {
      this.config, this.baselineCapacity := config, baselineCapacity;
      messagesSinceOver, lastOverSeenAt := 0, None;
    }

    /** `should_reset`. The clock reading is used only when a cooldown is set. */
    method ShouldReset(lastMessageSize: nat, currentCapacity: nat, reading: nat) returns (r: Option<Reason>)
      modifies this
      ensures (State(), r) == AdaptiveStep(config, old(State()), Consult(lastMessageSize, currentCapacity, reading))
      ensures !Signals(config, Consult(lastMessageSize, currentCapacity, reading)) ==>
                r == None && messagesSinceOver == 0 && lastOverSeenAt == None
    {
      if lastMessageSize == 0 {
        messagesSinceOver, lastOverSeenAt := 0, None;
        return None;
      }
      var overprovisioned := currentCapacity >= SaturatingProduct(lastMessageSize, config.sizeRatioThreshold);
      var now := if config.cooldown.Some? then Some(reading) else None;
      if overprovisioned {
        messagesSinceOver := SaturatingIncrement(messagesSinceOver);
        if lastOverSeenAt == None {
          lastOverSeenAt := now;
        }
      } else {
        messagesSinceOver, lastOverSeenAt := 0, None;
      }
      var countOk := overprovisioned && messagesSinceOver >= config.messagesToWait;
      var timeOk := config.cooldown.Some? && lastOverSeenAt.Some? && now.Some?
                    && SaturatingDifference(now.value, lastOverSeenAt.value) >= config.cooldown.value;
      if countOk || timeOk {
        messagesSinceOver, lastOverSeenAt := 0, None;
        return Some(if timeOk then TimeCooldown else MessageCount);
      }
      return None;
    }
  }

  function AdaptiveRun(cfg: AdaptiveConfig, h: seq<Consult>): AdaptiveState {
    if h == [] then ADAPTIVE_START
    else AdaptiveStep(cfg, AdaptiveRun(cfg, h[..|h| - 1]), h[|h| - 1]).0
  }

  /** What the policy answers at consult `n` of a history. */
  function AdaptiveAnswer(cfg: AdaptiveConfig, h: seq<Consult>, n: nat): Option<Reason>
    requires n < |h|
  {
    AdaptiveStep(cfg, AdaptiveRun(cfg, h[..n]), h[n]).1
  }

  predicate Monotone(h: seq<Consult>) {
    forall i, j :: 0 <= i <= j < |h| ==> h[i].now <= h[j].now
  }

  /** `i` begins the unbroken run of over-provisioned consults that reaches `n`:
      none of them fired before `n`, and the one before `i` fired or broke it. */
  ghost predicate RunReaches(cfg: AdaptiveConfig, h: seq<Consult>, i: nat, n: nat)
    requires n < |h|
  {
    && i <= n
    && (forall j :: i <= j <= n ==> Signals(cfg, h[j]))
    && (forall j :: i <= j < n ==> AdaptiveAnswer(cfg, h, j) == None)
    && (i == 0 || !Signals(cfg, h[i - 1]) || AdaptiveAnswer(cfg, h, i - 1).Some?)
  }

  /** The cooldown has passed from consult `i` to consult `n`; a clock that went
      backwards counts as one that stood still. */
  ghost predicate Elapsed(cfg: AdaptiveConfig, h: seq<Consult>, i: nat, n: nat)
    requires i < |h| && n < |h|
  {
    cfg.cooldown.Some? && (cfg.cooldown.value == 0 || h[n].now >= h[i].now + cfg.cooldown.value)
  }

  /** Where the run that consult `n` would extend begins. */
  function RunStart(cfg: AdaptiveConfig, h: seq<Consult>, n: nat): (i: nat)
    requires n <= |h|
    ensures i <= n
  {
    if n == 0 || !Signals(cfg, h[n - 1]) || AdaptiveAnswer(cfg, h, n - 1).Some? then n
    else RunStart(cfg, h, n - 1)
  }

  lemma {:induction false} RunStartReaches(cfg: AdaptiveConfig, h: seq<Consult>, n: nat)
    requires n < |h| && Signals(cfg, h[n])
    ensures RunReaches(cfg, h, RunStart(cfg, h, n), n)
  {
    if RunStart(cfg, h, n) != n {
      RunStartReaches(cfg, h, n - 1);
    }
  }

  lemma {:induction false} RunStartIsOnly(cfg: AdaptiveConfig, h: seq<Consult>, i: nat, n: nat)
    requires n < |h| && RunReaches(cfg, h, i, n)
    ensures i == RunStart(cfg, h, n)
  {
    if i < n {
      assert AdaptiveAnswer(cfg, h, n - 1) == None;
      RunStartIsOnly(cfg, h, i, n - 1);
    }
  }

  /** The reachable states: the counter is the length of the current run, so its
      saturating increment never saturates, and the timer is the reading at the
      run's first consult, so it never survives a fire or a broken run. */
  lemma {:induction false} AdaptiveStateMeaning(cfg: AdaptiveConfig, h: seq<Consult>, n: nat)
    requires n <= |h|
    ensures var st := AdaptiveRun(cfg, h[..n]);
            var i := RunStart(cfg, h, n);
            && st.messagesSinceOver == n - i
            && st.messagesSinceOver < Max(cfg.messagesToWait, 1)
            && SaturatingIncrement(st.messagesSinceOver) == st.messagesSinceOver + 1
            && st.lastOverSeenAt == if i < n && cfg.cooldown.Some? then Some(h[i].now) else None
  {
    if n > 0 {
      AdaptiveStateMeaning(cfg, h, n - 1);
      assert h[..n][..n - 1] == h[..n - 1];
      OverIsSignal(cfg, h[n - 1]);
    }
  }

  /** The policy refines its history meaning: it fires exactly at the end of a run
      that is long enough or old enough, and reports the time when both hold. */
  lemma AdaptiveMeaning(cfg: AdaptiveConfig, h: seq<Consult>, n: nat)
    requires n < |h|
    ensures AdaptiveAnswer(cfg, h, n) == Some(TimeCooldown)
       <==> exists i :: RunReaches(cfg, h, i, n) && Elapsed(cfg, h, i, n)
    ensures AdaptiveAnswer(cfg, h, n).Some?
       <==> exists i :: RunReaches(cfg, h, i, n) && (n - i + 1 >= cfg.messagesToWait || Elapsed(cfg, h, i, n))
    ensures AdaptiveAnswer(cfg, h, n) in {None, Some(TimeCooldown), Some(MessageCount)}
  {
    AdaptiveStateMeaning(cfg, h, n);
    var i := RunStart(cfg, h, n);
    OverIsSignal(cfg, h[n]);
    if Signals(cfg, h[n]) {
      RunStartReaches(cfg, h, n);
    }
    forall k | RunReaches(cfg, h, k, n)
      ensures k == i
    {
      RunStartIsOnly(cfg, h, k, n);
    }
  }

  /** The saturating product tests the plain signal, for capacities of any size. */
  lemma OverIsSignal(cfg: AdaptiveConfig, c: Consult)
    ensures Over(cfg, c) <==> Signals(cfg, c)
  {
  }

  /** A policy never fires at a consult whose message is empty, or whose capacity is
      below `ratio` times the message and below the greatest word. */
  lemma NoSignalNoFire(cfg: AdaptiveConfig, h: seq<Consult>, n: nat)
    requires n < |h|
    requires h[n].size == 0 || h[n].capacity < h[n].size * cfg.sizeRatioThreshold
    requires h[n].size == 0 || h[n].capacity < 0xFFFF_FFFF_FFFF_FFFF
    ensures AdaptiveAnswer(cfg, h, n) == None
  {
    OverIsSignal(cfg, h[n]);
  }

  /** It fires at one at least of any `messages_to_wait` consults in a row whose
      message is not empty and whose capacity is `ratio` times as large. */
  lemma SomeConsultFires(cfg: AdaptiveConfig, h: seq<Consult>)
    requires 1 <= cfg.messagesToWait <= |h|
    requires forall j :: |h| - cfg.messagesToWait <= j < |h| ==>
               h[j].size > 0 && h[j].capacity >= h[j].size * cfg.sizeRatioThreshold
    ensures exists j :: |h| - cfg.messagesToWait <= j < |h| && AdaptiveAnswer(cfg, h, j).Some?
  {
    var n, first := |h| - 1, |h| - cfg.messagesToWait;
    forall j | first <= j < |h|
      ensures Signals(cfg, h[j])
    {
    }
    var i := RunStart(cfg, h, n);
    RunStartReaches(cfg, h, n);
    AdaptiveMeaning(cfg, h, n);
    if i > first {
      assert AdaptiveAnswer(cfg, h, i - 1).Some?;
    }
  }

  /** Code and description, which says strictly above, differ on a consult exactly
      when the message is not empty and the capacity is exactly the product, or
      the greatest word below it; a policy that waits for one message fires
      there. */
  lemma StrictReadingDiffersIff(cfg: AdaptiveConfig, c: Consult)
    ensures var product := c.size * cfg.sizeRatioThreshold;
            var bound := if product <= 0xFFFF_FFFF_FFFF_FFFF then product else 0xFFFF_FFFF_FFFF_FFFF;
            var differ := Over(cfg, c) != (c.size > 0 && c.capacity > bound);
            && (differ <==> c.size > 0 && c.capacity == bound)
            && (differ && cfg.messagesToWait <= 1 && cfg.cooldown == None ==>
                  AdaptiveAnswer(cfg, [c], 0) == Some(MessageCount))
  {
    assert [c][..0] == [];
  }

  /** The cooldown as its field's description words it: measured from the last
      over-provisioned consult before this one, in a run that `i` began. */
  ghost predicate ElapsedSinceLast(cfg: AdaptiveConfig, h: seq<Consult>, i: nat, n: nat)
    requires i <= n < |h|
  {
    Elapsed(cfg, h, if i < n then n - 1 else n, n)
  }

  /** Code and description disagree about the time trigger of a run exactly when
      the cooldown has passed since the run's first consult but not since the
      previous one. */
  lemma CooldownReadingsDifferIff(cfg: AdaptiveConfig, h: seq<Consult>, i: nat, n: nat)
    requires n < |h| && Monotone(h) && RunReaches(cfg, h, i, n) && cfg.cooldown.Some?
    ensures (AdaptiveAnswer(cfg, h, n) == Some(TimeCooldown)) != ElapsedSinceLast(cfg, h, i, n)
       <==> i < n && h[i].now + cfg.cooldown.value <= h[n].now < h[n - 1].now + cfg.cooldown.value
  {
    AdaptiveMeaning(cfg, h, n);
    RunStartIsOnly(cfg, h, i, n);
    forall k | RunReaches(cfg, h, k, n)
      ensures k == i
    {
      RunStartIsOnly(cfg, h, k, n);
    }
  }

  /** Three consults at times 0, 6 and 11 under a cooldown of 10: the third fires
      on time, although only 5 have passed since the second. */
  lemma CooldownRunsFromFirst()
    ensures var cfg := AdaptiveConfig(1, 100, Some(10));
            var h := [Consult(1, 8, 0), Consult(1, 8, 6), Consult(1, 8, 11)];
            && Monotone(h) && RunReaches(cfg, h, 0, 2)
            && AdaptiveAnswer(cfg, h, 2) == Some(TimeCooldown)
            && !ElapsedSinceLast(cfg, h, 0, 2)
  {
    var cfg := AdaptiveConfig(1, 100, Some(10));
    var h := [Consult(1, 8, 0), Consult(1, 8, 6), Consult(1, 8, 11)];
    assert h[..0] == [] && h[..1][..0] == h[..0] && h[..2][..1] == h[..1];
    assert AdaptiveRun(cfg, h[..1]) == AdaptiveState(1, Some(0));
    assert AdaptiveRun(cfg, h[..2]) == AdaptiveState(2, Some(0));
  }

  //--- The size threshold policy ---

  datatype ThresholdConfig = ThresholdConfig(growAboveBytes: nat, shrinkBelowBytes: nat, messagesToWait: U32)

  datatype ThresholdState = ThresholdState(largeEventSeen: bool, smallSinceLarge: U32)

  const THRESHOLD_START := ThresholdState(false, 0)

  predicate Large(cfg: ThresholdConfig, c: Consult) {
    c.size > cfg.growAboveBytes
  }

  predicate Small(cfg: ThresholdConfig, c: Consult) {
    !Large(cfg, c) && c.size < cfg.shrinkBelowBytes
  }

  function ThresholdStep(cfg: ThresholdConfig, st: ThresholdState, c: Consult): (ThresholdState, Option<Reason>) {
    if Large(cfg, c) then (ThresholdState(true, 0), None)
    else if !st.largeEventSeen then (st, None)
    else if !Small(cfg, c) then (ThresholdState(true, 0), None)
    else
      var count := SaturatingIncrement(st.smallSinceLarge);
      if count >= cfg.messagesToWait then (THRESHOLD_START, Some(SizeThreshold))
      else (ThresholdState(true, count), None)
  }

  class SizeThresholdPolicy {
    const config: ThresholdConfig
    const baselineCapacity: nat
    var largeEventSeen: bool
    var smallSinceLarge: U32

    function State(): ThresholdState
      reads this
    {
      ThresholdState(largeEventSeen, smallSinceLarge)
    }

    constructor (config: ThresholdConfig, baselineCapacity: nat)
      ensures this.config == config && this.baselineCapacity == baselineCapacity
      ensures State() == THRESHOLD_START && !largeEventSeen && smallSinceLarge == 0
    {
      this.config, this.baselineCapacity := config, baselineCapacity;
      largeEventSeen, smallSinceLarge := false, 0;
    }

    method ShouldReset(lastMessageSize: nat, currentCapacity: nat, reading: nat) returns (r: Option<Reason>)
      modifies this
      ensures (State(), r) == ThresholdStep(config, old(State()), Consult(lastMessageSize, currentCapacity, reading))
    {
      if lastMessageSize > config.growAboveBytes {
        largeEventSeen, smallSinceLarge := true, 0;
        return None;
      }
      if !largeEventSeen {
        return None;
      }
      if lastMessageSize < config.shrinkBelowBytes {
        smallSinceLarge := SaturatingIncrement(smallSinceLarge);
        if smallSinceLarge >= config.messagesToWait {
          largeEventSeen, smallSinceLarge := false, 0;
          return Some(SizeThreshold);
        }
      } else {
        smallSinceLarge := 0;
      }
      return None;
    }
  }

  function ThresholdRun(cfg: ThresholdConfig, h: seq<Consult>): ThresholdState {
    if h == [] then THRESHOLD_START
    else ThresholdStep(cfg, ThresholdRun(cfg, h[..|h| - 1]), h[|h| - 1]).0
  }

  function ThresholdAnswer(cfg: ThresholdConfig, h: seq<Consult>, n: nat): Option<Reason>
    requires n < |h|
  {
    ThresholdStep(cfg, ThresholdRun(cfg, h[..n]), h[n]).1
  }

  /** A large message came before consult `n`, and no fire since. */
  ghost predicate Armed(cfg: ThresholdConfig, h: seq<Consult>, n: nat)
    requires n <= |h|
  {
    exists l :: 0 <= l < n && Large(cfg, h[l]) && forall j :: l <= j < n ==> ThresholdAnswer(cfg, h, j) == None
  }

  /** How many of the consults before `n` end in an unbroken run of small ones. */
  function TrailingSmall(cfg: ThresholdConfig, h: seq<Consult>, n: nat): (k: nat)
    requires n <= |h|
    ensures k <= n
  {
    if n == 0 || !Small(cfg, h[n - 1]) then 0 else 1 + TrailingSmall(cfg, h, n - 1)
  }

  lemma {:induction false} TrailingSmallMeaning(cfg: ThresholdConfig, h: seq<Consult>, n: nat, w: nat)
    requires n <= |h|
    ensures TrailingSmall(cfg, h, n) >= w <==> w <= n && forall j :: n - w <= j < n ==> Small(cfg, h[j])
  {
    if n > 0 && w > 0 {
      TrailingSmallMeaning(cfg, h, n - 1, w - 1);
    }
  }

  /** The reachable states: armed means what it says, the counter is zero unless
      armed and otherwise the length of the trailing run of small messages, so
      it never saturates. */
  lemma {:induction false} ThresholdStateMeaning(cfg: ThresholdConfig, h: seq<Consult>, n: nat)
    requires n <= |h|
    ensures var st := ThresholdRun(cfg, h[..n]);
            && (st.largeEventSeen <==> Armed(cfg, h, n))
            && st.smallSinceLarge == (if st.largeEventSeen then TrailingSmall(cfg, h, n) else 0)
            && st.smallSinceLarge < Max(cfg.messagesToWait, 1)
            && SaturatingIncrement(st.smallSinceLarge) == st.smallSinceLarge + 1
  {
    if n > 0 {
      ThresholdStateMeaning(cfg, h, n - 1);
      assert h[..n][..n - 1] == h[..n - 1];
      ArmedStep(cfg, h, n - 1);
    }
  }

  lemma ArmedStep(cfg: ThresholdConfig, h: seq<Consult>, n: nat)
    requires n < |h|
    ensures Armed(cfg, h, n + 1) <==>
              ThresholdAnswer(cfg, h, n) == None && (Large(cfg, h[n]) || Armed(cfg, h, n))
  {
    if ThresholdAnswer(cfg, h, n) == None {
      if Armed(cfg, h, n) {
        var l :| 0 <= l < n && Large(cfg, h[l]) && forall j :: l <= j < n ==> ThresholdAnswer(cfg, h, j) == None;
        assert forall j :: l <= j < n + 1 ==> ThresholdAnswer(cfg, h, j) == None;
      }
    }
  }

  /** The policy refines its history meaning, on the sizes alone: it fires exactly
      when a message above the upper size came since the last fire and the last
      `max(messages_to_wait, 1)` messages, this one included, were all below the
      lower size, and not above the upper one. */
  lemma ThresholdMeaning(cfg: ThresholdConfig, h: seq<Consult>, n: nat)
    requires n < |h|
    ensures var w := if cfg.messagesToWait == 0 then 1 else cfg.messagesToWait;
            ThresholdAnswer(cfg, h, n).Some? <==>
              && (exists l :: 0 <= l < n && h[l].size > cfg.growAboveBytes
                              && forall j :: l <= j < n ==> ThresholdAnswer(cfg, h, j) == None)
              && w <= n + 1
              && forall j :: n + 1 - w <= j <= n ==> h[j].size < cfg.shrinkBelowBytes && h[j].size <= cfg.growAboveBytes
    ensures ThresholdAnswer(cfg, h, n) in {None, Some(SizeThreshold)}
  {
    ThresholdStateMeaning(cfg, h, n);
    TrailingSmallMeaning(cfg, h, n + 1, Max(cfg.messagesToWait, 1));
  }

  //--- Any policy ---

  /** A policy written by the caller: its successive answers, whatever rule
      produced them, and the reclaims it was told about. Every finite run of a
      deterministic or arbitrary policy is such a script. */
  class CustomPolicy {
    const baselineCapacity: nat
    var answers: seq<Option<Reason>>
    var reports: seq<ReclamationInfo>

    constructor (answers: seq<Option<Reason>>, baselineCapacity: nat)
      ensures this.answers == answers && this.baselineCapacity == baselineCapacity && reports == []
    {
      this.answers, this.baselineCapacity, reports := answers, baselineCapacity, [];
    }
  }

  /** A policy's state as a value. */
  datatype PolicyState =
    | NoOpState
    | Watermark(adaptiveConfig: AdaptiveConfig, adaptive: AdaptiveState)
    | Sized(thresholdConfig: ThresholdConfig, threshold: ThresholdState)
    | Scripted(answers: seq<Option<Reason>>, reports: seq<ReclamationInfo>)

  function Consulted(ps: PolicyState, c: Consult): (PolicyState, Option<Reason>) {
    match ps
    case NoOpState => (ps, None)
    case Watermark(cfg, st) => var (st', r) := AdaptiveStep(cfg, st, c); (Watermark(cfg, st'), r)
    case Sized(cfg, st) => var (st', r) := ThresholdStep(cfg, st, c); (Sized(cfg, st'), r)
    case Scripted(answers, reports) =>
      if answers == [] then (ps, None) else (Scripted(answers[1..], reports), answers[0])
  }

  /** `on_reclaim`: a no-op unless the caller's policy records it. */
  function Notified(ps: PolicyState, info: ReclamationInfo): PolicyState {
    if ps.Scripted? then Scripted(ps.answers, ps.reports + [info]) else ps
  }

  datatype Policy =
    | NoOp
    | Adaptive(adaptivePolicy: AdaptiveWatermarkPolicy)
    | Threshold(thresholdPolicy: SizeThresholdPolicy)
    | Custom(customPolicy: CustomPolicy)
  {
    function Baseline(): nat {
      match this
      case NoOp => DEFAULT_BASELINE_CAPACITY
      case Adaptive(p) => p.baselineCapacity
      case Threshold(p) => p.baselineCapacity
      case Custom(p) => p.baselineCapacity
    }

    ghost function Repr(): set<object> {
      match this
      case NoOp => {}
      case Adaptive(p) => {p}
      case Threshold(p) => {p}
      case Custom(p) => {p}
    }

    ghost function State(): PolicyState
      reads Repr()
    {
      match this
      case NoOp => NoOpState
      case Adaptive(p) => Watermark(p.config, p.State())
      case Threshold(p) => Sized(p.config, p.State())
      case Custom(p) => Scripted(p.answers, p.reports)
    }

    method ShouldReset(lastMessageSize: nat, currentCapacity: nat, reading: nat) returns (r: Option<Reason>)
      modifies Repr()
      ensures (State(), r) == Consulted(old(State()), Consult(lastMessageSize, currentCapacity, reading))
      ensures NoOp? ==> r == None
    {
      match this {
        case NoOp => r := None;
        case Adaptive(p) => r := p.ShouldReset(lastMessageSize, currentCapacity, reading);
        case Threshold(p) => r := p.ShouldReset(lastMessageSize, currentCapacity, reading);
        case Custom(p) =>
          if p.answers == [] {
            r := None;
          } else {
            r := p.answers[0];
            p.answers := p.answers[1..];
          }
      }
    }

    method OnReclaim(info: ReclamationInfo)
      modifies Repr()
      ensures State() == Notified(old(State()), info)
    {
      if Custom? {
        customPolicy.reports := customPolicy.reports + [info];
      }
    }
  }
}
