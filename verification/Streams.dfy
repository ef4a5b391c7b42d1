/** The byte streams under the framing layer: a device that answers `read` as it
    likes, the counting reader of `src/recover.rs`, `read_exact`, and the
    growable buffer the deframers fill. */
module Streams {
  import opened Types

  /** One answer of a device to a `read` call: at most `n` bytes (none at all is
      an end-of-file answer), or an error of some kind. */
  datatype Event = Limit(n: nat) | Fail(kind: IoKind)

  /** An answer the read loops absorb: some bytes, or an interruption. */
  predicate Absorbed(e: Event) {
    match e
    case Limit(n) => n > 0
    case Fail(kind) => kind == Interrupted
  }

  /** An answer the read loops take for the end of the input. */
  predicate SaysEof(e: Event) {
    e == Limit(0) || e == Fail(EndOfFile)
  }

  /** What the answers given during a call amount to. */
  datatype Heard = Undisturbed | EarlyEof | Fault(code: int)

  /** A device at one moment. The contracts below relate two such moments. */
  datatype Moment = Moment(bytes: seq<byte>, pos: nat, events: seq<Event>, step: nat)
  {
    ghost predicate Valid() {
      pos <= |bytes| && step <= |events|
    }
  }

  /** The index of the first answer from `lo` on that the read loops do not absorb,
      or the end of the schedule. */
  function FirstDisturbance(events: seq<Event>, lo: nat): (d: nat)
    requires lo <= |events|
    ensures lo <= d <= |events|
    ensures forall i :: lo <= i < d ==> Absorbed(events[i])
    ensures d < |events| ==> !Absorbed(events[d])
    decreases |events| - lo
  {
    if lo == |events| || !Absorbed(events[lo]) then lo else FirstDisturbance(events, lo + 1)
  }

  /** The most bytes the answers from `lo` up to `hi` can deliver. */
  function Most(events: seq<Event>, lo: nat, hi: nat): nat
    requires hi <= |events|
  {
    if lo >= hi then 0
    else Most(events, lo, hi - 1) + if events[hi - 1].Limit? then events[hi - 1].n else 0
  }

  /** The fewest bytes they deliver while the file has more: one for each answer
      that allows any. */
  function Least(events: seq<Event>, lo: nat, hi: nat): nat
    requires hi <= |events|
  {
    if lo >= hi then 0
    else Least(events, lo, hi - 1) + if events[hi - 1].Limit? && events[hi - 1].n > 0 then 1 else 0
  }

  lemma {:induction false} DeliveriesAdd(events: seq<Event>, lo: nat, mid: nat, hi: nat)
    requires lo <= mid <= hi <= |events|
    ensures Most(events, lo, hi) == Most(events, lo, mid) + Most(events, mid, hi)
    ensures Least(events, lo, hi) == Least(events, lo, mid) + Least(events, mid, hi)
  {
    if mid < hi {
      DeliveriesAdd(events, lo, mid, hi - 1);
    }
  }

  lemma {:induction false} LeastBelowMost(events: seq<Event>, lo: nat, hi: nat)
    requires hi <= |events|
    ensures Least(events, lo, hi) <= Most(events, lo, hi)
  {
    if lo < hi {
      LeastBelowMost(events, lo, hi - 1);
    }
  }

  /** A call led from `a` to `b`: the file is as it was, the cursor advanced, and
      every answer but possibly the last was absorbed. */
  ghost predicate Ran(a: Moment, b: Moment) {
    && a.Valid() && b.Valid()
    && b.bytes == a.bytes && b.events == a.events
    && a.pos <= b.pos && a.step <= b.step
    && forall i :: a.step <= i < b.step - 1 ==> Absorbed(a.events[i])
  }

  /** A loop stops at the first answer it does not absorb, so that answer, if
      any, is the last one given. */
  ghost function Told(a: Moment, b: Moment): Heard
    requires Ran(a, b)
  {
    if a.step == b.step || Absorbed(a.events[b.step - 1]) then Undisturbed
    else if SaysEof(a.events[b.step - 1]) then EarlyEof
    else Fault(a.events[b.step - 1].kind.code)
  }

  /** A call that asks for bytes is answered: it uses up an event, unless the
      schedule is exhausted. */
  predicate Asked(a: Moment, b: Moment) {
    a.step < b.step || a.step == |a.events|
  }

  /** The bytes taken fit the answers used: no more than they allow, as long as
      only scheduled answers were used, and at least one for each that allows
      any, unless the file ended. */
  ghost predicate Paced(a: Moment, b: Moment)
    requires Ran(a, b)
  {
    && (b.step < |a.events| || Told(a, b) != Undisturbed ==> b.pos - a.pos <= Most(a.events, a.step, b.step))
    && (b.pos == |b.bytes| || Least(a.events, a.step, b.step) <= b.pos - a.pos)
  }

  ghost function Taken(a: Moment, b: Moment): seq<byte>
    requires Ran(a, b)
  {
    a.bytes[a.pos..b.pos]
  }

  /** The bytes the caller has been told exist from `a` on. */
  ghost function Shown(a: Moment, b: Moment): (shown: seq<byte>)
    requires Ran(a, b)
    ensures |shown| == if Told(a, b) == EarlyEof then b.pos - a.pos else |a.bytes| - a.pos
  {
    if Told(a, b) == EarlyEof then Taken(a, b) else a.bytes[a.pos..]
  }

  /** Two calls in a row, the first undisturbed, have been shown what the first
      took followed by what the second was shown. */
  lemma InSequence(a: Moment, b: Moment, c: Moment)
    requires Ran(a, b) && Ran(b, c) && Told(a, b) == Undisturbed
    ensures Ran(a, c) && Told(a, c) == Told(b, c)
    ensures Shown(a, c) == Taken(a, b) + Shown(b, c)
    ensures Taken(a, c) == Taken(a, b) + Taken(b, c)
    ensures Asked(a, b) || Asked(b, c) ==> Asked(a, c)
    ensures Paced(a, b) && Paced(b, c) ==> Paced(a, c)
  {
    DeliveriesAdd(a.events, a.step, b.step, c.step);
    forall i | a.step <= i < b.step
      ensures Absorbed(a.events[i])
    {
    }
  }

  lemma NothingRan(a: Moment)
    requires a.Valid()
    ensures Ran(a, a) && Told(a, a) == Undisturbed && Taken(a, a) == [] && Paced(a, a)
  {
  }

  /** Where a call stops hearing: it uses no answer past the first one it does not
      absorb, and is disturbed exactly when it used that one. */
  lemma HeardUpToDisturbance(a: Moment, b: Moment)
    requires Ran(a, b)
    ensures var d := FirstDisturbance(a.events, a.step);
            && (Told(a, b) == Undisturbed <==> b.step <= d)
            && (Told(a, b) != Undisturbed <==> d < |a.events| && b.step == d + 1)
  {
    var d := FirstDisturbance(a.events, a.step);
    if b.step > d {
      assert !Absorbed(a.events[d]);
    }
  }

  /** The outcomes of one `read` call for `n` bytes: one event of the schedule is
      used, if any is left, and it decides between an error and a delivery; an
      empty delivery is the end of the file, or the device's claim of it. */
  ghost predicate Answered(a: Moment, b: Moment, r: Result<nat, IoKind>, n: nat) {
    && Ran(a, b)
    && b.step == (if a.step < |a.events| then a.step + 1 else a.step)
    && (r.Err? ==> b.pos == a.pos)
    && (r.Ok? ==> r.value <= n && b.pos == a.pos + r.value)
    && (n > 0 ==> Paced(a, b))
    && match Told(a, b)
       case Fault(code) => r == Err(Other(code))
       case EarlyEof => r == Err(EndOfFile) || r == Ok(0)
       case Undisturbed =>
         || (r == Err(Interrupted) && a.step < b.step)
         || (r.Ok? && (r.value == 0 < n ==> b.pos == |b.bytes|))
  }

  /** A seekable file with a cursor. The first calls to `Read` are answered by
      `schedule`, one event each; when it is exhausted the device delivers all
      it is asked for. Every finite run of a device is such a schedule. */
  class Device {
    var bytes: seq<byte>
    var pos: nat
    var schedule: seq<Event>
    var step: nat

    ghost predicate Valid()
      reads this
    {
      pos <= |bytes| && step <= |schedule|
    }

    ghost function Now(): Moment
      reads this
    {
      Moment(bytes, pos, schedule, step)
    }

    constructor (contents: seq<byte>, events: seq<Event>)
      ensures Valid()
      ensures bytes == contents && pos == 0 && schedule == events && step == 0
    {
      bytes, pos, schedule, step := contents, 0, events, 0;
    }

    method Read(buf: array<byte>, lo: nat, hi: nat) returns (r: Result<nat, IoKind>)
      requires Valid() && lo <= hi <= buf.Length
      modifies this`pos, this`step, buf
      ensures Answered(old(Now()), Now(), r, hi - lo)
      ensures var room := if |bytes| - old(pos) < hi - lo then |bytes| - old(pos) else hi - lo;
              r == if old(step) == |schedule| then Ok(room)
                   else match schedule[old(step)]
                        case Fail(kind) => Err(kind)
                        case Limit(n) => Ok(if n < room then n else room)
      ensures r.Err? ==> buf[..] == old(buf[..])
      ensures r.Ok? ==> forall i :: lo <= i < lo + r.value ==> buf[i] == Now().bytes[old(Now().pos) + (i - lo)]
      ensures forall i :: 0 <= i < buf.Length && !(lo <= i < hi) ==> buf[i] == old(buf[i])
    {
      var limit := hi - lo;
      if step < |schedule| {
        var event := schedule[step];
        step := step + 1;
        match event {
          case Fail(kind) => return Err(kind);
          case Limit(n) => limit := if n < limit then n else limit;
        }
      }
      var n := if |bytes| - pos < limit then |bytes| - pos else limit;
      forall i | 0 <= i < n {
        buf[lo + i] := bytes[pos + i];
      }
      pos := pos + n;
      r := Ok(n);
    }

    /** `write_all` at the cursor: overwrites what is there, extends the rest. */
    method WriteAll(data: seq<byte>)
      requires Valid()
      modifies this`bytes, this`pos
      ensures Valid()
      ensures bytes == Overwritten(old(bytes), old(pos), data)
      ensures pos == old(pos) + |data|
    {
      bytes, pos := Overwritten(bytes, pos, data), pos + |data|;
    }

    method Seek(offset: nat)
      requires Valid() && offset <= |bytes|
      modifies this`pos
      ensures Valid() && pos == offset
    {
      pos := offset;
    }

    /** Truncates the file to `len` bytes, below which the cursor must be. */
    method SetLen(len: nat)
      requires Valid() && pos <= len <= |bytes|
      modifies this`bytes
      ensures Valid() && bytes == old(bytes)[..len]
    {
      bytes := bytes[..len];
    }
  }

  function Overwritten(s: seq<byte>, at: nat, data: seq<byte>): (r: seq<byte>)
    requires at <= |s|
    ensures |r| >= at + |data| && r[..at] == s[..at] && r[at..at + |data|] == data
    ensures at == |s| ==> r == s + data
  {
    s[..at] + data + if at + |data| <= |s| then s[at + |data|..] else []
  }

  /** A reader in front of a device whose count advances with the device's cursor. */
  class CountingReader {
    const inner: Device
    var count: nat

    constructor (inner: Device)
      ensures this.inner == inner && count == 0
    {
      this.inner, count := inner, 0;
    }

    /** Reads from the inner device and counts what it delivered. */
    method Read(buf: array<byte>, lo: nat, hi: nat) returns (r: Result<nat, IoKind>)
      requires inner.Valid() && lo <= hi <= buf.Length
      modifies this, inner, buf
      ensures Answered(old(inner.Now()), inner.Now(), r, hi - lo)
      ensures count == old(count) + if r.Ok? then r.value else 0
      ensures r.Err? ==> buf[..] == old(buf[..])
      ensures r.Ok? ==>
                forall i :: lo <= i < lo + r.value ==> buf[i] == inner.Now().bytes[old(inner.Now().pos) + (i - lo)]
      ensures forall i :: 0 <= i < buf.Length && !(lo <= i < hi) ==> buf[i] == old(buf[i])
    {
      r := inner.Read(buf, lo, hi);
      if r.Ok? {
        count := count + r.value;
      }
    }
  }

  /** The two readers the deframers run over: a device as it is, or behind the
      counting wrapper. */
  datatype Reader = Direct(device: Device) | Counting(counter: CountingReader)
  {
    function Dev(): Device {
      match this
      case Direct(d) => d
      case Counting(c) => c.inner
    }

    ghost function Repr(): set<object>
      ensures Dev() in Repr()
    {
      match this
      case Direct(d) => {d}
      case Counting(c) => {c, c.inner}
    }

    ghost predicate Valid()
      reads Dev()
    {
      Dev().Valid()
    }

    /** Bytes consumed so far: the counter, or the cursor when nothing counts. */
    ghost function Consumed(): nat
      reads Repr()
    {
      match this
      case Direct(d) => d.pos
      case Counting(c) => c.count
    }

    ghost function Now(): Moment
      reads Repr()
    {
      Dev().Now()
    }

    /** What every call on a reader keeps: the count advances with the cursor. */
    twostate predicate Kept()
      reads Repr()
    {
      Valid() && Consumed() - old(Consumed()) == Dev().pos - old(Dev().pos)
    }

    method Read(buf: array<byte>, lo: nat, hi: nat) returns (r: Result<nat, IoKind>)
      requires Valid() && lo <= hi <= buf.Length
      modifies Repr(), buf
      ensures Kept() && Answered(old(Now()), Now(), r, hi - lo)
      ensures r.Err? ==> buf[..] == old(buf[..])
      ensures r.Ok? ==> forall i :: lo <= i < lo + r.value ==> buf[i] == Now().bytes[old(Now().pos) + (i - lo)]
      ensures forall i :: 0 <= i < buf.Length && !(lo <= i < hi) ==> buf[i] == old(buf[i])
    {
      match this {
        case Direct(d) => r := d.Read(buf, lo, hi);
        case Counting(c) => r := c.Read(buf, lo, hi);
      }
    }

    /** The standard `read_exact`: fills `buf[lo..hi]` or fails. Short reads and
        interruptions are absorbed, an empty request touches nothing, and an end
        of file, real or claimed, consumes what was there. */
    method ReadExact(buf: array<byte>, lo: nat, hi: nat) returns (r: Result<(), IoKind>)
      requires Valid() && lo <= hi <= buf.Length
      modifies Repr(), buf
      ensures Kept() && Ran(old(Now()), Now())
      ensures ExactRead(old(Now()), Now(), r, hi - lo)
      ensures r.Ok? ==> buf[lo..hi] == Taken(old(Now()), Now())
      ensures if lo == hi then r.Ok? && Now() == old(Now()) else Asked(old(Now()), Now())
      ensures forall i :: 0 <= i < buf.Length && !(lo <= i < hi) ==> buf[i] == old(buf[i])
    {
      hide Told, Shown, Paced, Most, Least;
      ghost var a := Now();
      NothingRan(a);
      var at := lo;
      while at < hi
        invariant lo <= at <= hi && (lo == hi ==> Now() == a)
        invariant Kept() && Ran(a, Now()) && Told(a, Now()) == Undisturbed && Paced(a, Now())
        invariant at == lo || Asked(a, Now())
        invariant Now().pos == a.pos + (at - lo)
        invariant forall i :: lo <= i < at ==> buf[i] == a.bytes[a.pos + (i - lo)]
        invariant forall i :: 0 <= i < buf.Length && !(lo <= i < hi) ==> buf[i] == old(buf[i])
        decreases |Now().events| - Now().step, hi - at
      {
        ghost var b := Now();
        var n := Read(buf, at, hi);
        InSequence(a, b, Now());
        match n {
          case Ok(k) =>
            if k == 0 {
              return Err(EndOfFile);
            }
            at := at + k;
          case Err(kind) =>
            if kind != Interrupted {
              return Err(kind);
            }
        }
      }
      r := Ok(());
    }
  }

  /** The outcomes of an exact read of `n` bytes, decided by the bytes shown and
      by what the device said. Without a claim, only the end of the file ends it
      short. */
  ghost predicate ExactRead(a: Moment, b: Moment, r: Result<(), IoKind>, n: nat)
    requires Ran(a, b)
  {
    && Paced(a, b)
    && (r.Err? ==> b.pos < a.pos + n)
    && match Told(a, b)
       case Fault(code) => r == Err(Other(code))
       case heard =>
         && (if n <= |Shown(a, b)| then r.Ok? else r == Err(EndOfFile))
         && (r.Ok? ==> heard == Undisturbed && b.pos == a.pos + n)
         && (r.Err? && heard == Undisturbed ==> b.pos == |b.bytes|)
  }

  /** The buffer a deframer fills: `len` initialised bytes at the front of an
      allocation, whose size is the capacity. */
  class Vec {
    var data: array<byte>
    var len: nat

    ghost predicate Valid()
      reads this
    {
      len <= data.Length
    }

    function Capacity(): nat
      reads this
    {
      data.Length
    }

    ghost function Contents(): seq<byte>
      requires Valid()
      reads this, data
    {
      data[..len]
    }

    /** `Vec::with_capacity`, taken to allocate exactly what is asked. */
    constructor (capacity: nat)
      ensures Valid() && fresh(data)
      ensures len == 0 && Capacity() == capacity
    {
      data := new byte[capacity];
      len := 0;
    }

    /** `Vec::resize(n, 0)` upwards: zeroes the growth only, and reallocates only
        when the capacity does not suffice, by an amount left to the allocator. */
    method Resize(n: nat)
      requires Valid() && n > len
      modifies this, data
      ensures Valid() && len == n
      ensures Contents() == old(Contents()) + seq(n - old(len), _ => 0)
      ensures n <= old(Capacity()) ==> data == old(data)
      ensures n > old(Capacity()) ==> fresh(data) && Capacity() >= n
    {
      if n > data.Length {
        var capacity: nat :| capacity >= n;
        var grown := new byte[capacity];
        forall i | 0 <= i < len {
          grown[i] := data[i];
        }
        data := grown;
      }
      forall i | len <= i < n {
        data[i] := 0;
      }
      len := n;
    }
  }
}
