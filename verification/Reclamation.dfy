/** The memory of `src/reader.rs`: how the buffer's length and capacity, the
    deferred shrink and the installed policy evolve over a run of reads. */
module Reclamation {
  import opened Types
  import opened Policies

  datatype Mem = Mem(len: nat, capacity: nat, pendingShrink: bool)

  datatype Slot = Slot(policy: PolicyState, baseline: nat)

  /** `reclaims` are the `on_reclaim` calls so far, `shrinks` the buffers actually
      replaced. */
  datatype Machine = Machine(mem: Mem, slot: Option<Slot>, reclaims: seq<ReclamationInfo>, shrinks: nat)

  /** One `read_message`: the in-bound length whose payload read was attempted, if
      any, whether the read succeeded, the capacity the allocator would choose if
      the buffer had to grow, and the clock reading of a consult. */
  datatype Read = Read(attempted: Option<nat>, ok: bool, grown: nat, now: nat)

  predicate Legal(max: nat, rd: Read) {
    && (rd.ok ==> rd.attempted.Some?)
    && (rd.attempted.Some? ==> rd.attempted.value <= max && rd.attempted.value <= rd.grown)
  }

  predicate AllLegal(max: nat, trace: seq<Read>) {
    forall i :: 0 <= i < |trace| ==> Legal(max, trace[i])
  }

  function Fresh(capacity: nat, policy: PolicyState, baseline: nat): Machine {
    Machine(Mem(0, capacity, false), Some(Slot(policy, baseline)), [], 0)
  }

  /** `apply_pending_shrink`: the buffer is replaced by an empty one at baseline. */
  function Begin(m: Machine): Machine {
    if !m.mem.pendingShrink then m
    else
      match m.slot
      case Some(slot) => m.(mem := Mem(0, slot.baseline, false), shrinks := m.shrinks + 1)
      case None => m.(mem := m.mem.(pendingShrink := false))
  }

  /** `read_payload`: the buffer grows to the length attempted, if that is new. */
  function Resized(mem: Mem, rd: Read): Mem {
    if rd.attempted == None || rd.attempted.value <= mem.len then mem
    else
      var n := rd.attempted.value;
      Mem(n, if n > mem.capacity then rd.grown else mem.capacity, mem.pendingShrink)
  }

  /** `evaluate_memory_policy`: above its baseline the policy is consulted, and a
      positive answer schedules the shrink and is reported. */
  function Evaluated(m: Machine, size: nat, now: nat): Machine {
    if m.slot == None || m.mem.capacity <= m.slot.value.baseline then m
    else
      var slot := m.slot.value;
      var (policy, verdict) := Consulted(slot.policy, Consult(size, m.mem.capacity, now));
      match verdict
      case None => m.(slot := Some(Slot(policy, slot.baseline)))
      case Some(reason) =>
        var info := ReclamationInfo(reason, size, m.mem.capacity, slot.baseline);
        Machine(m.mem.(pendingShrink := true), Some(Slot(Notified(policy, info), slot.baseline)),
                m.reclaims + [info], m.shrinks)
  }

  function Step(m: Machine, rd: Read): Machine {
    var begun := Begin(m);
    var grown := begun.(mem := Resized(begun.mem, rd));
    if rd.ok && rd.attempted.Some? then Evaluated(grown, rd.attempted.value, rd.now) else grown
  }

  function Run(m: Machine, trace: seq<Read>): Machine {
    if trace == [] then m else Step(Run(m, trace[..|trace| - 1]), trace[|trace| - 1])
  }

  lemma RunStep(m: Machine, trace: seq<Read>, k: nat)
    requires k < |trace|
    ensures Run(m, trace[..k + 1]) == Step(Run(m, trace[..k]), trace[k])
  {
    assert trace[..k + 1][..k] == trace[..k];
  }

  //--- No thrash ---

  /** Reads that attempted an in-bound length above the baseline. */
  function Big(baseline: nat, trace: seq<Read>): (n: nat)
    ensures n <= |trace|
  {
    if trace == [] then 0
    else
      var last := trace[|trace| - 1];
      Big(baseline, trace[..|trace| - 1])
      + if last.attempted.Some? && last.attempted.value > baseline then 1 else 0
  }

  /** The allocator never turns a need within the baseline into more than it. */
  predicate NoOvershoot(baseline: nat, trace: seq<Read>) {
    forall i :: 0 <= i < |trace| ==>
      trace[i].attempted.Some? && trace[i].attempted.value <= baseline ==> trace[i].grown <= baseline
  }

  /** Each scheduled reclaim is one shrink, applied or pending, and the slot keeps
      its baseline. */
  lemma {:induction false} ReclaimAccounting(m: Machine, trace: seq<Read>)
    requires !m.mem.pendingShrink && |m.reclaims| == m.shrinks
    ensures var end := Run(m, trace);
            && |end.reclaims| == end.shrinks + (if end.mem.pendingShrink then 1 else 0)
            && (end.mem.pendingShrink ==> end.slot.Some? && end.mem.capacity > end.slot.value.baseline)
            && end.slot.Some? == m.slot.Some?
            && (m.slot.Some? ==> end.slot.value.baseline == m.slot.value.baseline)
  {
    if trace != [] {
      ReclaimAccounting(m, trace[..|trace| - 1]);
    }
  }

  /** What a run may still charge against the reads above the baseline. */
  function Charge(m: Machine, baseline: nat): nat {
    |m.reclaims|
    + (if m.mem.capacity > baseline && !m.mem.pendingShrink then 1 else 0)
    + (if m.mem.capacity < baseline then 1 else 0)
  }

  lemma {:induction false} ChargeIsPaid(max: nat, m: Machine, baseline: nat, trace: seq<Read>, slack: nat)
    requires m.slot.Some? && m.slot.value.baseline == baseline
    requires !m.mem.pendingShrink && |m.reclaims| == m.shrinks
    requires m.mem.capacity <= baseline && AllLegal(max, trace)
    requires m.mem.capacity == baseline || slack >= 1
    ensures Charge(Run(m, trace), baseline) <= |m.reclaims| + Big(baseline, trace) + slack
  {
    if trace != [] {
      var before := trace[..|trace| - 1];
      ChargeIsPaid(max, m, baseline, before, slack);
      ReclaimAccounting(m, before);
      assert Legal(max, trace[|trace| - 1]);
    }
  }

  lemma {:induction false} WithoutOvershoot(max: nat, m: Machine, baseline: nat, trace: seq<Read>)
    requires m.slot.Some? && m.slot.value.baseline == baseline
    requires !m.mem.pendingShrink && m.reclaims == [] && m.shrinks == 0
    requires m.mem.capacity <= baseline && AllLegal(max, trace) && NoOvershoot(baseline, trace)
    ensures var end := Run(m, trace);
            |end.reclaims| + (if end.mem.capacity > baseline && !end.mem.pendingShrink then 1 else 0)
            <= Big(baseline, trace)
  {
    if trace != [] {
      var before := trace[..|trace| - 1];
      assert forall i :: 0 <= i < |before| ==> before[i] == trace[i];
      WithoutOvershoot(max, m, baseline, before);
      ReclaimAccounting(m, before);
      assert Legal(max, trace[|trace| - 1]);
    }
  }

  /** No thrash, for any policy and any run that starts at or below the baseline:
      a reclaim is paid for by a read above the baseline, except that an
      allocator that rounds growth up may cause one more, before the first
      shrink, when the buffer did not start exactly at the baseline. */
  lemma NoThrash(max: nat, capacity: nat, policy: PolicyState, baseline: nat, trace: seq<Read>)
    requires capacity <= baseline && AllLegal(max, trace)
    ensures var end := Run(Fresh(capacity, policy, baseline), trace);
            && |end.reclaims| <= Big(baseline, trace) + (if capacity < baseline then 1 else 0)
            && (NoOvershoot(baseline, trace) ==> |end.reclaims| <= Big(baseline, trace))
            && |end.reclaims| == end.shrinks + (if end.mem.pendingShrink then 1 else 0)
  {
    var m := Fresh(capacity, policy, baseline);
    ChargeIsPaid(max, m, baseline, trace, if capacity < baseline then 1 else 0);
    ReclaimAccounting(m, trace);
    if NoOvershoot(baseline, trace) {
      WithoutOvershoot(max, m, baseline, trace);
    }
  }

  /** The extra one cannot come later: from any read `k` that applies a shrink on,
      reclaims are at most the reads above the baseline, whatever the allocator. */
  lemma NoThrashAfterShrink(max: nat, capacity: nat, policy: PolicyState, baseline: nat, trace: seq<Read>, k: nat)
    requires AllLegal(max, trace) && k < |trace|
    requires Run(Fresh(capacity, policy, baseline), trace[..k]).mem.pendingShrink
    ensures var m := Fresh(capacity, policy, baseline);
            |Run(m, trace).reclaims| <= |Run(m, trace[..k]).reclaims| + Big(baseline, trace[k..])
  {
    var m := Fresh(capacity, policy, baseline);
    ReclaimAccounting(m, trace[..k]);
    ResumeFrom(m, trace, k);
    assert forall i :: 0 <= i < |trace[k..]| ==> trace[k..][i] == trace[k + i];
    ChargeIsPaid(max, Begin(Run(m, trace[..k])), baseline, trace[k..], 0);
  }

  /** The extra reclaim is real: from an empty buffer, doubling growth takes two
      messages below the default baseline above it, and a policy that fires at
      once reclaims although no read exceeded the baseline. */
  lemma RoundedGrowthThrashes()
    ensures var policy := Watermark(AdaptiveConfig(1, 1, None), ADAPTIVE_START);
            var trace := [Read(Some(10000), true, 10000, 0), Read(Some(12000), true, 20000, 0)];
            && AllLegal(12000, trace)
            && Big(DEFAULT_BASELINE_CAPACITY, trace) == 0
            && |Run(Fresh(0, policy, DEFAULT_BASELINE_CAPACITY), trace).reclaims| == 1
  {
    var policy := Watermark(AdaptiveConfig(1, 1, None), ADAPTIVE_START);
    var trace := [Read(Some(10000), true, 10000, 0), Read(Some(12000), true, 20000, 0)];
    var m := Fresh(0, policy, DEFAULT_BASELINE_CAPACITY);
    assert trace[..1] == [trace[0]] && trace[..1][..0] == [];
    assert Run(m, trace[..1]).mem == Mem(10000, 10000, false);
    assert Big(DEFAULT_BASELINE_CAPACITY, trace[..1]) == 0;
  }

  ghost predicate NeverThrashes(max: nat, capacity: nat, baseline: nat) {
    forall policy, trace :: AllLegal(max, trace) ==>
      |Run(Fresh(capacity, policy, baseline), trace).reclaims| <= Big(baseline, trace)
  }

  /** Exactly when every run, whatever the policy and the allocator, reclaims at
      most once per read above the baseline: the buffer starts at the baseline, or
      is already large enough for every in-bound message. */
  lemma NeverThrashesIff(max: nat, capacity: nat, baseline: nat)
    requires capacity <= baseline
    ensures NeverThrashes(max, capacity, baseline) <==> capacity == baseline || max <= capacity
  {
    if capacity == baseline {
      forall policy, trace | AllLegal(max, trace)
        ensures |Run(Fresh(capacity, policy, baseline), trace).reclaims| <= Big(baseline, trace)
      {
        NoThrash(max, capacity, policy, baseline, trace);
      }
    } else if max <= capacity {
      forall policy, trace | AllLegal(max, trace)
        ensures |Run(Fresh(capacity, policy, baseline), trace).reclaims| <= Big(baseline, trace)
      {
        NeverGrows(max, Fresh(capacity, policy, baseline), trace);
      }
    } else {
      var policy := Scripted([Some(MessageCount)], []);
      var rd := Read(Some(capacity + 1), true, baseline + 1, 0);
      assert [rd][..0] == [];
      assert Run(Fresh(capacity, policy, baseline), [rd]) == Step(Fresh(capacity, policy, baseline), rd);
      assert AllLegal(max, [rd]) && Big(baseline, [rd]) == 0;
      assert |Run(Fresh(capacity, policy, baseline), [rd]).reclaims| == 1;
    }
  }

  lemma {:induction false} NeverGrows(max: nat, m: Machine, trace: seq<Read>)
    requires m.slot.Some? && !m.mem.pendingShrink && m.reclaims == []
    requires max <= m.mem.capacity <= m.slot.value.baseline && AllLegal(max, trace)
    ensures var end := Run(m, trace);
            end.mem.capacity == m.mem.capacity && !end.mem.pendingShrink && end.reclaims == [] && end.slot == m.slot
  {
    if trace != [] {
      NeverGrows(max, m, trace[..|trace| - 1]);
      assert Legal(max, trace[|trace| - 1]);
    }
  }

  /** The least capacity a growing buffer of bytes is given. */
  const MIN_GROWN: nat := 8

  /** The allocator doubles: a buffer that must grow takes twice its capacity, or
      what is needed if that is more, and never less than the minimum. */
  ghost predicate Doubles(m: Machine, trace: seq<Read>) {
    forall i :: 0 <= i < |trace| ==> GrewByDoubling(Run(m, trace[..i]), trace[i])
  }

  predicate GrewByDoubling(m: Machine, rd: Read) {
    var capacity := Begin(m).mem.capacity;
    rd.attempted.Some? && rd.attempted.value > capacity ==> rd.grown == Doubled(capacity, rd.attempted.value)
  }

  function Doubled(capacity: nat, n: nat): nat {
    Max(MIN_GROWN, Max(2 * capacity, n))
  }

  ghost predicate NeverThrashesDoubling(max: nat, capacity: nat, baseline: nat) {
    forall policy, trace :: AllLegal(max, trace) && Doubles(Fresh(capacity, policy, baseline), trace) ==>
      |Run(Fresh(capacity, policy, baseline), trace).reclaims| <= Big(baseline, trace)
  }

  /** From this capacity doubling cannot pass the baseline on a message within it.
      With `top` the longest message at or below the baseline, while some such
      message still needs more: neither the minimum nor twice the capacity is
      past the baseline, nor can the buffer first grow to a length that doubles
      past it. */
  predicate DoublesSafely(max: nat, capacity: nat, baseline: nat) {
    var top := if max < baseline then max else baseline;
    capacity < top ==>
      && MIN_GROWN <= baseline && 2 * capacity <= baseline
      && (Doubled(capacity, 0) < top ==> 2 * (top - 1) <= baseline)
  }

  /** Exactly which starting capacities never thrash under doubling growth. */
  lemma NeverThrashesDoublingIff(max: nat, capacity: nat, baseline: nat)
    requires capacity <= baseline
    ensures NeverThrashesDoubling(max, capacity, baseline)
       <==> capacity == baseline || DoublesSafely(max, capacity, baseline)
  {
    if capacity == baseline || DoublesSafely(max, capacity, baseline) {
      forall policy, trace | AllLegal(max, trace) && Doubles(Fresh(capacity, policy, baseline), trace)
        ensures |Run(Fresh(capacity, policy, baseline), trace).reclaims| <= Big(baseline, trace)
      {
        DoublingIsPaid(max, Fresh(capacity, policy, baseline), baseline, trace);
      }
    } else {
      DoublingOvershoots(max, capacity, baseline);
    }
  }

  /** In particular an empty reader bounded by half the baseline never thrashes,
      exactly if the baseline is not below the least allocation, or no message
      has a byte. */
  lemma HalfBaselineNeverThrashesIff(max: nat, baseline: nat)
    requires 2 * max <= baseline
    ensures NeverThrashesDoubling(max, 0, baseline) <==> max == 0 || 8 <= baseline
  {
    NeverThrashesDoublingIff(max, 0, baseline);
  }

  /** Doubling on a message within the baseline stays within it, and stays safe. */
  lemma GrowsSafely(max: nat, capacity: nat, baseline: nat, n: nat)
    requires capacity < n <= max && n <= baseline && DoublesSafely(max, capacity, baseline)
    ensures Doubled(capacity, n) <= baseline && DoublesSafely(max, Doubled(capacity, n), baseline)
  {
  }

  /** Reclaims so far, and one more if the buffer is above the baseline, are within
      what was paid; below the baseline it is at a safe capacity. */
  predicate PaidFor(max: nat, m: Machine, baseline: nat, paid: nat) {
    && m.slot.Some? && m.slot.value.baseline == baseline
    && |m.reclaims| + (if m.mem.capacity > baseline && !m.mem.pendingShrink then 1 else 0) <= paid
    && (m.mem.capacity < baseline ==> DoublesSafely(max, m.mem.capacity, baseline))
    && (m.mem.pendingShrink ==> m.mem.capacity > baseline)
  }

  lemma DoublingStep(max: nat, m: Machine, baseline: nat, paid: nat, rd: Read)
    requires PaidFor(max, m, baseline, paid) && Legal(max, rd) && GrewByDoubling(m, rd)
    ensures PaidFor(max, Step(m, rd), baseline,
                    paid + if rd.attempted.Some? && rd.attempted.value > baseline then 1 else 0)
  {
    hide DoublesSafely, Doubled, Consulted, Notified;
    var capacity := Begin(m).mem.capacity;
    if rd.attempted.Some? && capacity < rd.attempted.value <= baseline {
      GrowsSafely(max, capacity, baseline, rd.attempted.value);
    }
  }

  lemma {:induction false} DoublingIsPaid(max: nat, m: Machine, baseline: nat, trace: seq<Read>)
    requires PaidFor(max, m, baseline, 0) && AllLegal(max, trace) && Doubles(m, trace)
    ensures PaidFor(max, Run(m, trace), baseline, Big(baseline, trace))
  {
    hide PaidFor, GrewByDoubling, Step;
    if trace != [] {
      var before, last := trace[..|trace| - 1], trace[|trace| - 1];
      forall i | 0 <= i < |before|
        ensures GrewByDoubling(Run(m, before[..i]), before[i])
      {
        assert before[..i] == trace[..i];
      }
      DoublingIsPaid(max, m, baseline, before);
      assert Legal(max, last) && GrewByDoubling(Run(m, before), last);
      DoublingStep(max, Run(m, before), baseline, Big(baseline, before), last);
    }
  }

  lemma DoublingOvershoots(max: nat, capacity: nat, baseline: nat)
    requires capacity < baseline && !DoublesSafely(max, capacity, baseline)
    ensures !NeverThrashesDoubling(max, capacity, baseline)
  {
    hide Step;
    var top := if max < baseline then max else baseline;
    var m := Fresh(capacity, Scripted([Some(MessageCount)], []), baseline);
    var trace;
    if MIN_GROWN > baseline || 2 * capacity > baseline {
      trace := [Read(Some(capacity + 1), true, Doubled(capacity, capacity + 1), 0)];
      assert trace[..0] == [];
      FiresPast(m, trace[0]);
    } else {
      trace := [Read(Some(top - 1), true, top - 1, 0), Read(Some(top), true, 2 * (top - 1), 0)];
      SkipFirst(m, trace);
      FiresPast(Run(m, trace[..1]), trace[1]);
      assert Big(baseline, trace[..1]) == 0;
    }
    assert AllLegal(max, trace) && Doubles(m, trace);
    assert Big(baseline, trace) == 0;
    assert |Run(m, trace).reclaims| == 1;
  }

  /** A policy about to fire does so when the buffer grows past the baseline. */
  lemma FiresPast(m: Machine, rd: Read)
    requires m.slot.Some? && m.slot.value.policy == Scripted([Some(MessageCount)], [])
    requires !m.mem.pendingShrink && m.reclaims == [] && rd.ok && rd.attempted.Some?
    requires Max(m.mem.capacity, m.mem.len) < rd.attempted.value && m.slot.value.baseline < rd.grown
    ensures |Step(m, rd).reclaims| == 1
  {
  }

  /** A first read that grows the buffer to no more than the baseline. */
  lemma SkipFirst(m: Machine, trace: seq<Read>)
    requires |trace| == 2 && m.slot.Some? && !m.mem.pendingShrink && m.mem.len == 0
    requires var rd := trace[0];
             rd.attempted.Some? && m.mem.capacity < rd.attempted.value <= m.slot.value.baseline
             && rd.grown == rd.attempted.value
    ensures trace[..0] == [] && trace[..1] == [trace[0]]
    ensures Run(m, trace[..1]) == m.(mem := Mem(trace[0].grown, trace[0].grown, false))
    ensures Run(m, trace) == Step(Run(m, trace[..1]), trace[1])
  {
    assert trace[..1][..0] == [];
    assert Run(m, trace[..1]) == Step(m, trace[0]);
  }

  //--- High-water mark ---

  function Highest(low: nat, trace: seq<Read>): (h: nat)
    ensures h >= low
  {
    if trace == [] then low
    else
      var h, last := Highest(low, trace[..|trace| - 1]), trace[|trace| - 1];
      if last.attempted.Some? then Max(h, last.attempted.value) else h
  }

  lemma {:induction false} HighestBounded(max: nat, low: nat, trace: seq<Read>)
    requires AllLegal(max, trace) && low <= max
    ensures Highest(low, trace) <= max
  {
    if trace != [] {
      HighestBounded(max, low, trace[..|trace| - 1]);
      assert Legal(max, trace[|trace| - 1]);
    }
  }

  /** A stretch of reads during which no shrink was applied. */
  ghost predicate NoShrink(m: Machine, trace: seq<Read>) {
    forall k :: 0 <= k < |trace| ==> !Run(m, trace[..k]).mem.pendingShrink
  }

  lemma {:induction false} GrowsToHighest(m: Machine, trace: seq<Read>)
    requires NoShrink(m, trace)
    ensures Run(m, trace).mem.len == Highest(m.mem.len, trace)
  {
    if trace != [] {
      var before := trace[..|trace| - 1];
      forall k | 0 <= k < |before|
        ensures !Run(m, before[..k]).mem.pendingShrink
      {
        assert before[..k] == trace[..k];
      }
      GrowsToHighest(m, before);
    }
  }

  /** From read `k` on, with no shrink applied after it began, the buffer grows
      from what it began with. */
  lemma GrowsFrom(m: Machine, trace: seq<Read>, k: nat)
    requires k < |trace| && forall j :: k < j < |trace| ==> !Run(m, trace[..j]).mem.pendingShrink
    requires !Begin(Run(m, trace[..k])).mem.pendingShrink
    ensures Run(m, trace).mem.len == Highest(Begin(Run(m, trace[..k])).mem.len, trace[k..])
  {
    var start, tail := Begin(Run(m, trace[..k])), trace[k..];
    ResumeFrom(m, trace, k);
    forall j | 0 <= j < |tail|
      ensures !Run(start, tail[..j]).mem.pendingShrink
    {
      if j > 0 {
        ResumeFrom(m, trace[..k + j], k);
        assert trace[..k + j][..k] == trace[..k];
        assert trace[..k + j][k..] == tail[..j];
      }
    }
    GrowsToHighest(start, tail);
  }

  /** The high-water mark: over any run, errors included, the buffer's length is
      the greatest length attempted since read `k`, at which the last shrink was
      applied. */
  lemma HighWaterSinceShrink(m: Machine, trace: seq<Read>, k: nat)
    requires k < |trace| && Run(m, trace[..k]).mem.pendingShrink && Run(m, trace[..k]).slot.Some?
    requires forall j :: k < j < |trace| ==> !Run(m, trace[..j]).mem.pendingShrink
    ensures Run(m, trace).mem.len == Highest(0, trace[k..])
  {
    GrowsFrom(m, trace, k);
  }

  /** A run resumes from the machine at read `k` with its pending shrink applied. */
  lemma {:induction false} ResumeFrom(m: Machine, trace: seq<Read>, k: nat)
    requires k < |trace|
    ensures Run(m, trace) == Run(Begin(Run(m, trace[..k])), trace[k..])
  {
    var tail := trace[k..];
    if |tail| == 1 {
      assert tail[..0] == [] && trace[..|trace| - 1] == trace[..k];
    } else {
      ResumeFrom(m, trace[..|trace| - 1], k);
      assert trace[..|trace| - 1][..k] == trace[..k];
      assert trace[..|trace| - 1][k..] == tail[..|tail| - 1];
    }
  }

  lemma {:induction false} NoPolicyNoShrink(m: Machine, trace: seq<Read>)
    requires m.slot == None && !m.mem.pendingShrink
    ensures var end := Run(m, trace);
            end.slot == None && !end.mem.pendingShrink && end.reclaims == m.reclaims
  {
    if trace != [] {
      NoPolicyNoShrink(m, trace[..|trace| - 1]);
    }
  }

  lemma {:induction false} BigConcat(baseline: nat, s: seq<Read>, t: seq<Read>)
    ensures Big(baseline, s + t) == Big(baseline, s) + Big(baseline, t)
  {
    if t == [] {
      assert s + t == s;
    } else {
      assert (s + t)[..|s + t| - 1] == s + t[..|t| - 1];
      BigConcat(baseline, s, t[..|t| - 1]);
    }
  }

  /** From an empty buffer the length never exceeds the accepted frame length. */
  lemma {:induction false} NeverAboveBound(max: nat, m: Machine, trace: seq<Read>)
    requires m.mem.len <= max && AllLegal(max, trace)
    ensures Run(m, trace).mem.len <= max
  {
    if trace != [] {
      NeverAboveBound(max, m, trace[..|trace| - 1]);
      assert Legal(max, trace[|trace| - 1]);
    }
  }

  //--- Bounded response ---

  /** A successful read of a non-empty message that finds the buffer above the
      baseline and at least `ratio` times the message. */
  predicate Wasteful(m: Machine, rd: Read, ratio: nat) {
    var mem := Resized(Begin(m).mem, rd);
    && rd.ok && rd.attempted.Some? && rd.attempted.value > 0
    && m.slot.Some? && mem.capacity > m.slot.value.baseline
    && rd.attempted.value * ratio <= mem.capacity
  }

  /** An adaptive policy with this ratio and wait is installed, whatever its
      cooldown. */
  ghost predicate Adapts(m: Machine, ratio: nat, wait: U32) {
    && m.slot.Some? && m.slot.value.policy.Watermark?
    && m.slot.value.policy.adaptiveConfig.sizeRatioThreshold == ratio
    && m.slot.value.policy.adaptiveConfig.messagesToWait == wait
  }

  lemma WastefulStep(m: Machine, rd: Read, ratio: nat, wait: U32)
    requires Adapts(m, ratio, wait) && Wasteful(m, rd, ratio)
    ensures var end := Step(m, rd);
            && Adapts(end, ratio, wait)
            && end.slot.value.baseline == m.slot.value.baseline
            && (end.mem.pendingShrink ==> Begin(end).mem == Mem(0, m.slot.value.baseline, false))
            && (end.mem.pendingShrink
                || m.slot.value.policy.adaptive.messagesSinceOver
                   < end.slot.value.policy.adaptive.messagesSinceOver < wait)
  {
    var begun := Begin(m);
    assert begun.slot == m.slot && !begun.mem.pendingShrink;
  }

  /** Bounded response: with `messages_to_wait` = W, out of any W wasteful reads in
      a row, from any state and with or without a cooldown, one schedules a
      reclaim, and the read after that one begins with an empty buffer at the
      baseline. */
  lemma BoundedResponse(m: Machine, trace: seq<Read>, ratio: nat, wait: U32)
    requires Adapts(m, ratio, wait) && |trace| == wait >= 1
    requires forall k :: 0 <= k < wait ==> Wasteful(Run(m, trace[..k]), trace[k], ratio)
    ensures exists k :: 1 <= k <= wait
              && Run(m, trace[..k]).mem.pendingShrink
              && Begin(Run(m, trace[..k])).mem == Mem(0, m.slot.value.baseline, false)
  {
    var k := CountOrFire(m, trace, ratio, wait, wait);
  }

  lemma {:induction false} CountOrFire(m: Machine, trace: seq<Read>, ratio: nat, wait: U32, n: nat) returns (k: nat)
    requires Adapts(m, ratio, wait) && 1 <= n <= |trace|
    requires forall i :: 0 <= i < n ==> Wasteful(Run(m, trace[..i]), trace[i], ratio)
    ensures var end := Run(m, trace[..n]);
            Adapts(end, ratio, wait) && end.slot.value.baseline == m.slot.value.baseline
    ensures 1 <= k <= n
    ensures Run(m, trace[..k]).mem.pendingShrink ==>
              Begin(Run(m, trace[..k])).mem == Mem(0, m.slot.value.baseline, false)
    ensures || Run(m, trace[..k]).mem.pendingShrink
            || n <= Run(m, trace[..n]).slot.value.policy.adaptive.messagesSinceOver < wait
  {
    hide Step, Wasteful, Begin;
    RunStep(m, trace, n - 1);
    if n == 1 {
      assert trace[..0] == [];
      WastefulStep(m, trace[0], ratio, wait);
      k := 1;
    } else {
      k := CountOrFire(m, trace, ratio, wait, n - 1);
      hide Run;
      WastefulStep(Run(m, trace[..n - 1]), trace[n - 1], ratio, wait);
      if !Run(m, trace[..k]).mem.pendingShrink {
        k := n;
      }
    }
  }

  //--- What the installed policy sees ---

  /** The consults of a run: successful reads that found the buffer above the
      baseline. */
  function Consults(m: Machine, trace: seq<Read>): seq<Consult> {
    if trace == [] then []
    else
      var before, last := trace[..|trace| - 1], trace[|trace| - 1];
      Consults(m, before) + ConsultOf(Run(m, before), last)
  }

  function ConsultOf(m: Machine, rd: Read): (c: seq<Consult>)
    ensures |c| <= 1
  {
    var capacity := Resized(Begin(m).mem, rd).capacity;
    if rd.ok && rd.attempted.Some? && m.slot.Some? && capacity > m.slot.value.baseline
    then [Consult(rd.attempted.value, capacity, rd.now)]
    else []
  }

  /** What a policy remembers of its consults alone. */
  function Remembered(ps: PolicyState, h: seq<Consult>): PolicyState {
    if h == [] then ps else Consulted(Remembered(ps, h[..|h| - 1]), h[|h| - 1]).0
  }

  lemma RememberedSnoc(ps: PolicyState, h: seq<Consult>, c: Consult)
    ensures Remembered(ps, h + [c]) == Consulted(Remembered(ps, h), c).0
  {
    hide Consulted;
    assert (h + [c])[..|h|] == h;
  }

  /** One read, for any policy that does not itself record reclaims. */
  lemma OneRead(m: Machine, rd: Read)
    requires m.slot.Some? && !m.slot.value.policy.Scripted?
    ensures var end, c := Step(m, rd), ConsultOf(m, rd);
            && (c == [] ==> end.slot == m.slot && !end.mem.pendingShrink && end.reclaims == m.reclaims)
            && (c != [] ==>
                  var (next, verdict) := Consulted(m.slot.value.policy, c[0]);
                  && end.slot == Some(Slot(next, m.slot.value.baseline))
                  && !next.Scripted?
                  && (end.mem.pendingShrink <==> verdict.Some?)
                  && end.reclaims == m.reclaims + ReportOf(verdict, c, m.slot.value.baseline))
  {
    hide AdaptiveStep, ThresholdStep;
  }

  /** The report a consult owes when it is answered `answer`. */
  function ReportOf(answer: Option<Reason>, c: seq<Consult>, baseline: nat): seq<ReclamationInfo> {
    if answer.Some? && c != [] then [ReclamationInfo(answer.value, c[0].size, c[0].capacity, baseline)] else []
  }

  /** A built-in policy's state in a run is the one its consults determine: the
      reads at which the gate skips it leave no trace. */
  lemma {:induction false} PolicyFollowsConsults(m: Machine, trace: seq<Read>)
    requires m.slot.Some? && !m.slot.value.policy.Scripted?
    ensures var end := Run(m, trace);
            && end.slot == Some(Slot(Remembered(m.slot.value.policy, Consults(m, trace)), m.slot.value.baseline))
            && !end.slot.value.policy.Scripted?
  {
    hide Consulted, Step, ConsultOf;
    if trace != [] {
      var before, last := trace[..|trace| - 1], trace[|trace| - 1];
      PolicyFollowsConsults(m, before);
      var h, c := Consults(m, before), ConsultOf(Run(m, before), last);
      OneRead(Run(m, before), last);
      if c == [] {
        assert h + c == h;
      } else {
        assert c == [c[0]];
        RememberedSnoc(m.slot.value.policy, h, c[0]);
      }
    }
  }

  lemma {:induction false} RememberedAdaptive(cfg: AdaptiveConfig, h: seq<Consult>)
    ensures Remembered(Watermark(cfg, ADAPTIVE_START), h) == Watermark(cfg, AdaptiveRun(cfg, h))
  {
    hide AdaptiveStep;
    if h != [] {
      RememberedAdaptive(cfg, h[..|h| - 1]);
    }
  }

  lemma {:induction false} RememberedThreshold(cfg: ThresholdConfig, h: seq<Consult>)
    ensures Remembered(Sized(cfg, THRESHOLD_START), h) == Sized(cfg, ThresholdRun(cfg, h))
  {
    hide ThresholdStep;
    if h != [] {
      RememberedThreshold(cfg, h[..|h| - 1]);
    }
  }

  lemma {:induction false} NoOpRemembers(h: seq<Consult>)
    ensures Remembered(NoOpState, h) == NoOpState
  {
    if h != [] {
      NoOpRemembers(h[..|h| - 1]);
    }
  }

  /** The answer a read's consult gets, and what follows from it. */
  lemma ConsultDecides(m: Machine, trace: seq<Read>, rd: Read)
    requires m.slot.Some? && !m.slot.value.policy.Scripted?
    ensures var h, c := Consults(m, trace), ConsultOf(Run(m, trace), rd);
            var answer := if c == [] then None else Consulted(Remembered(m.slot.value.policy, h), c[0]).1;
            var end := Run(m, trace + [rd]);
            && (end.mem.pendingShrink <==> answer.Some?)
            && end.reclaims == Run(m, trace).reclaims + ReportOf(answer, c, m.slot.value.baseline)
  {
    hide Consulted, Remembered, ConsultOf, Step;
    PolicyFollowsConsults(m, trace);
    OneRead(Run(m, trace), rd);
    assert (trace + [rd])[..|trace|] == trace;
  }

  /** Reader and adaptive policy together: a read leaves a shrink pending, and
      reports it with the policy's reason and the consult's sizes, exactly when
      it was a consult at which the history of consults makes the policy fire. */
  lemma AdaptiveFollowsHistory(m: Machine, cfg: AdaptiveConfig, trace: seq<Read>, rd: Read)
    requires m.slot.Some? && m.slot.value.policy == Watermark(cfg, ADAPTIVE_START)
    ensures var h, c := Consults(m, trace), ConsultOf(Run(m, trace), rd);
            var answer := if c == [] then None else AdaptiveAnswer(cfg, h + c, |h|);
            var end := Run(m, trace + [rd]);
            && (end.mem.pendingShrink <==> answer.Some?)
            && end.reclaims == Run(m, trace).reclaims + ReportOf(answer, c, m.slot.value.baseline)
  {
    hide AdaptiveStep, AdaptiveRun, Remembered, ConsultOf, Step, Run, Consults;
    var h, c := Consults(m, trace), ConsultOf(Run(m, trace), rd);
    ConsultDecides(m, trace, rd);
    RememberedAdaptive(cfg, h);
    assert (h + c)[..|h|] == h;
  }

  /** The same for the size threshold policy. */
  lemma ThresholdFollowsHistory(m: Machine, cfg: ThresholdConfig, trace: seq<Read>, rd: Read)
    requires m.slot.Some? && m.slot.value.policy == Sized(cfg, THRESHOLD_START)
    ensures var h, c := Consults(m, trace), ConsultOf(Run(m, trace), rd);
            var answer := if c == [] then None else ThresholdAnswer(cfg, h + c, |h|);
            var end := Run(m, trace + [rd]);
            && (end.mem.pendingShrink <==> answer.Some?)
            && end.reclaims == Run(m, trace).reclaims + ReportOf(answer, c, m.slot.value.baseline)
  {
    hide ThresholdStep, ThresholdRun, Remembered, ConsultOf, Step, Run, Consults;
    var h, c := Consults(m, trace), ConsultOf(Run(m, trace), rd);
    ConsultDecides(m, trace, rd);
    RememberedThreshold(cfg, h);
    assert (h + c)[..|h|] == h;
  }

  /** One read under a caller's policy. */
  lemma ScriptStep(m: Machine, rd: Read)
    requires m.slot.Some? && m.slot.value.policy.Scripted?
    ensures var end, c, ps := Step(m, rd), ConsultOf(m, rd), m.slot.value.policy;
            && (end.mem.pendingShrink <==> c != [] && ps.answers != [] && ps.answers[0].Some?)
            && |m.reclaims| <= |end.reclaims|
            && end.slot == Some(Slot(Scripted(if c == [] || ps.answers == [] then ps.answers else ps.answers[1..],
                                              ps.reports + end.reclaims[|m.reclaims|..]),
                                     m.slot.value.baseline))
  {
    var was, end := m.reclaims, Step(m, rd);
    assert m.slot.value.policy.reports + [] == m.slot.value.policy.reports;
    if end.mem.pendingShrink {
      assert end.reclaims[|was|..] == [end.reclaims[|was|]];
    } else {
      assert end.reclaims[|was|..] == [];
    }
  }

  /** The answers left after the first `n`. */
  function Left(answers: seq<Option<Reason>>, n: nat): seq<Option<Reason>> {
    if n <= |answers| then answers[n..] else []
  }

  lemma LeftStep(answers: seq<Option<Reason>>, n: nat)
    ensures Left(answers, 0) == answers
    ensures if n < |answers| then Left(answers, n) == [answers[n]] + Left(answers, n + 1)
            else Left(answers, n) == [] == Left(answers, n + 1)
  {
  }

  lemma ScriptReads(m: Machine, rd: Read, answers: seq<Option<Reason>>, n: nat, baseline: nat)
    requires m.slot == Some(Slot(Scripted(Left(answers, n), m.reclaims), baseline))
    ensures var end, c := Step(m, rd), ConsultOf(m, rd);
            && end.slot == Some(Slot(Scripted(Left(answers, n + |c|), end.reclaims), baseline))
            && (end.mem.pendingShrink <==> c != [] && n < |answers| && answers[n].Some?)
  {
    hide Step, ConsultOf, Left;
    LeftStep(answers, n);
    ScriptStep(m, rd);
    StepReports(m, rd);
    var end, c := Step(m, rd), ConsultOf(m, rd);
    assert m.reclaims + end.reclaims[|m.reclaims|..] == end.reclaims;
    if c != [] && n < |answers| {
      assert Left(answers, n)[1..] == Left(answers, n + 1);
    }
  }

  /** A caller's policy gives its answers in order, one for each consult, and hears
      of every reclaim. */
  lemma {:induction false} ScriptFollowsConsults(m: Machine, answers: seq<Option<Reason>>, trace: seq<Read>)
    requires m.slot.Some? && m.slot.value.policy == Scripted(answers, []) && m.reclaims == []
    ensures var end, n := Run(m, trace), |Consults(m, trace)|;
            && end.slot == Some(Slot(Scripted(Left(answers, n), end.reclaims), m.slot.value.baseline))
            && (trace != [] ==>
                  var k := |Consults(m, trace[..|trace| - 1])|;
                  (end.mem.pendingShrink <==> k < n && k < |answers| && answers[k].Some?))
  {
    hide Step, ConsultOf, Left;
    LeftStep(answers, 0);
    if trace != [] {
      var before, last := trace[..|trace| - 1], trace[|trace| - 1];
      ScriptFollowsConsults(m, answers, before);
      ScriptReads(Run(m, before), last, answers, |Consults(m, before)|, m.slot.value.baseline);
    }
  }

  /** What one read does, whatever the policy: it is a consult if and only if it
      succeeded and left the buffer above the baseline, and it leaves a shrink
      pending if and only if it reported one, of exactly these sizes. */
  lemma StepReports(m: Machine, rd: Read)
    ensures var end, c := Step(m, rd), ConsultOf(m, rd);
            && c == (if rd.ok && rd.attempted.Some? && end.slot.Some? && end.mem.capacity > end.slot.value.baseline
                     then [Consult(rd.attempted.value, end.mem.capacity, rd.now)] else [])
            && (!end.mem.pendingShrink ==> end.reclaims == m.reclaims)
            && (end.mem.pendingShrink ==>
                  && c != [] && |end.reclaims| == |m.reclaims| + 1
                  && end.reclaims[..|m.reclaims|] == m.reclaims
                  && end.reclaims[|m.reclaims|]
                     == ReclamationInfo(end.reclaims[|m.reclaims|].reason, c[0].size, c[0].capacity,
                                        end.slot.value.baseline))
  {
    hide Consulted, Notified;
  }

  /** The buffer after one read: a pending shrink was applied first. */
  lemma StepResizes(m: Machine, rd: Read)
    ensures var end, n := Step(m, rd), if rd.attempted.Some? then rd.attempted.value else 0;
            && (m.mem.pendingShrink && m.slot.Some? ==>
                  && end.shrinks == m.shrinks + 1 && end.mem.len == n
                  && (n <= m.slot.value.baseline ==> end.mem.capacity == m.slot.value.baseline))
            && (!m.mem.pendingShrink ==>
                  && end.shrinks == m.shrinks && end.mem.len == Max(m.mem.len, n)
                  && (end.mem.len == m.mem.len || n <= m.mem.capacity ==> end.mem.capacity == m.mem.capacity))
  {
    hide Consulted, Notified;
  }

  /** The reports an adaptive policy's history of consults makes due. */
  function ReportsDue(cfg: AdaptiveConfig, h: seq<Consult>, baseline: nat): seq<ReclamationInfo> {
    if h == [] then []
    else
      var n := |h| - 1;
      ReportsDue(cfg, h[..n], baseline) + ReportOf(AdaptiveAnswer(cfg, h, n), [h[n]], baseline)
  }

  /** Over a whole run the reclaims are those, and no others. */
  lemma {:induction false} ReclaimsAreDue(m: Machine, cfg: AdaptiveConfig, trace: seq<Read>)
    requires m.slot.Some? && m.slot.value.policy == Watermark(cfg, ADAPTIVE_START)
    ensures Run(m, trace).reclaims == m.reclaims + ReportsDue(cfg, Consults(m, trace), m.slot.value.baseline)
  {
    hide AdaptiveStep, AdaptiveAnswer, ConsultOf, Step, ReportOf, ReportsDue;
    if trace == [] {
      NothingDue(m, cfg);
    } else {
      var before, last := trace[..|trace| - 1], trace[|trace| - 1];
      ReclaimsAreDue(m, cfg, before);
      AdaptiveFollowsHistory(m, cfg, before, last);
      assert before + [last] == trace;
      hide Run;
      DueSnoc(cfg, Consults(m, before), ConsultOf(Run(m, before), last), m.slot.value.baseline);
    }
  }

  lemma NothingDue(m: Machine, cfg: AdaptiveConfig)
    ensures m.slot.Some? ==> m.reclaims + ReportsDue(cfg, [], m.slot.value.baseline) == m.reclaims
  {
  }

  lemma DueSnoc(cfg: AdaptiveConfig, h: seq<Consult>, c: seq<Consult>, baseline: nat)
    requires |c| <= 1
    ensures ReportsDue(cfg, h + c, baseline)
         == ReportsDue(cfg, h, baseline)
            + ReportOf(if c == [] then None else AdaptiveAnswer(cfg, h + c, |h|), c, baseline)
  {
    hide AdaptiveAnswer;
    if c == [] {
      assert h + c == h;
    } else {
      assert c == [c[0]] && (h + c)[..|h|] == h;
    }
  }

  /** Each consult that fired has its report, so more were due than before it. */
  lemma {:induction false} FiredIsReported(cfg: AdaptiveConfig, h: seq<Consult>, baseline: nat, from: nat, j: nat)
    requires from <= j < |h| && AdaptiveAnswer(cfg, h, j).Some?
    ensures |ReportsDue(cfg, h, baseline)| > |ReportsDue(cfg, h[..from], baseline)|
  {
    hide AdaptiveStep, AdaptiveRun;
    var n := |h| - 1;
    if j == n {
      DueGrows(cfg, h[..n], baseline, from);
      assert h[..n][..from] == h[..from];
    } else {
      assert h[..n][..j] == h[..j];
      FiredIsReported(cfg, h[..n], baseline, from, j);
      assert h[..n][..from] == h[..from];
    }
  }

  lemma {:induction false} DueGrows(cfg: AdaptiveConfig, h: seq<Consult>, baseline: nat, from: nat)
    requires from <= |h|
    ensures |ReportsDue(cfg, h[..from], baseline)| <= |ReportsDue(cfg, h, baseline)|
  {
    if from == |h| {
      assert h[..from] == h;
    } else {
      DueGrows(cfg, h[..|h| - 1], baseline, from);
      assert h[..|h| - 1][..from] == h[..from];
    }
  }

  /** What `on_reclaim` reports is true, for any policy: each call names the
      baseline as the capacity to come, a larger capacity as the one before, and
      the size of a message read that fitted it. A caller's policy hears exactly
      these calls, in order. */
  lemma {:induction false} ReclaimsReportTruth(max: nat, policy: PolicyState, capacity: nat, baseline: nat,
                                               trace: seq<Read>)
    requires AllLegal(max, trace)
    ensures var end := Run(Fresh(capacity, policy, baseline), trace);
            && end.slot.Some? && end.slot.value.baseline == baseline
            && end.slot.value.policy.Scripted? == policy.Scripted?
            && (policy.Scripted? ==> end.slot.value.policy.reports == policy.reports + end.reclaims)
            && end.mem.len <= end.mem.capacity
            && forall info :: info in end.reclaims ==>
                 && info.capacityAfter == baseline < info.capacityBefore
                 && info.lastMessageSize <= info.capacityBefore
                 && exists rd :: rd in trace && rd.ok && rd.attempted == Some(info.lastMessageSize)
  {
    if trace != [] {
      ReclaimsReportTruth(max, policy, capacity, baseline, trace[..|trace| - 1]);
      assert forall rd :: rd in trace[..|trace| - 1] ==> rd in trace;
      assert trace[|trace| - 1] in trace;
      assert Legal(max, trace[|trace| - 1]);
    }
  }
}
