/** `src/recover.rs`, the contract: what a recovery scan answers on every byte
    string, and what that answer authorises. */
module Recovery {
  import opened Types
  import opened LittleEndian
  import opened Checksums
  import opened Wire

  datatype RecoveryEnd = CleanEof | TornTail

  datatype RecoveryReport = RecoveryReport(frames: nat, lastGoodOffset: nat, end: RecoveryEnd)

  /** The verdict on the bytes of a journal. Only an end of input inside a frame
      becomes a torn tail; every other stop is an error that keeps its reason. */
  function Recover(alg: Checksum, max: nat, s: seq<byte>): Result<RecoveryReport, ErrorKind> {
    var r := Scan(alg, max, s);
    Verdict(alg, r.payloads, r.stop)
  }

  function Verdict(alg: Checksum, ps: seq<Payload>, stop: Option<ErrorKind>): Result<RecoveryReport, ErrorKind> {
    match stop
    case None => Ok(RecoveryReport(|ps|, |EncodeAll(alg, ps)|, CleanEof))
    case Some(UnexpectedEof) => Ok(RecoveryReport(|ps|, |EncodeAll(alg, ps)|, TornTail))
    case Some(e) => Err(e)
  }

  /** The offset one past frame `k - 1`. */
  function Boundary(alg: Checksum, ps: seq<Payload>, k: nat): nat
    requires k <= |ps|
  {
    |EncodeAll(alg, ps[..k])|
  }

  /** How many whole frames of `ps` lie within the first `cut` bytes. */
  function WholeFrames(alg: Checksum, ps: seq<Payload>, cut: nat): (k: nat)
    ensures k <= |ps|
  {
    if ps == [] || cut < FrameLen(alg, ps[0]) then 0
    else 1 + WholeFrames(alg, ps[1..], cut - FrameLen(alg, ps[0]))
  }

  lemma BoundaryShift(alg: Checksum, ps: seq<Payload>, k: nat)
    requires 0 < k <= |ps|
    ensures Boundary(alg, ps, k) == FrameLen(alg, ps[0]) + Boundary(alg, ps[1..], k - 1)
  {
    assert ps[..k][1..] == ps[1..][..k - 1];
  }

  /** `WholeFrames` counts the frame ends at or before the cut: boundaries grow
      strictly, and the cut lies between the `k`-th and the next. */
  lemma {:induction false} WholeFramesMeaning(alg: Checksum, ps: seq<Payload>, cut: nat)
    ensures var k := WholeFrames(alg, ps, cut);
            forall j :: 0 <= j <= |ps| ==> (Boundary(alg, ps, j) <= cut <==> j <= k)
  {
    var k := WholeFrames(alg, ps, cut);
    forall j | 0 <= j <= |ps|
      ensures Boundary(alg, ps, j) <= cut <==> j <= k
    {
      if j > 0 {
        BoundaryShift(alg, ps, j);
        if cut >= FrameLen(alg, ps[0]) {
          WholeFramesMeaning(alg, ps[1..], cut - FrameLen(alg, ps[0]));
        }
      }
    }
  }

  lemma {:induction false} BoundaryStep(alg: Checksum, ps: seq<Payload>, k: nat)
    requires k < |ps|
    ensures Boundary(alg, ps, k + 1) == Boundary(alg, ps, k) + FrameLen(alg, ps[k])
  {
    assert ps[..k + 1] == ps[..k] + [ps[k]];
    EncodeSnoc(alg, ps[..k], ps[k]);
  }

  lemma BoundaryOrder(alg: Checksum, ps: seq<Payload>, i: nat, j: nat)
    requires i <= j <= |ps|
    ensures Boundary(alg, ps, i) + 4 * (j - i) <= Boundary(alg, ps, j)
    decreases j - i
  {
    if i < j {
      BoundaryStep(alg, ps, i);
      BoundaryOrder(alg, ps, i + 1, j);
    }
  }

  lemma CutMiddle<T>(a: seq<T>, b: seq<T>, c: seq<T>, cut: nat)
    requires |a| <= cut <= |a| + |b|
    ensures (a + (b + c))[..cut] == a + b[..cut - |a|]
  {
  }

  lemma SplitAround(alg: Checksum, ps: seq<Payload>, i: nat)
    requires i < |ps|
    ensures EncodeAll(alg, ps)
         == EncodeAll(alg, ps[..i]) + (EncodeFrame(alg, ps[i]) + EncodeAll(alg, ps[i + 1..]))
  {
    assert ps == ps[..i] + ([ps[i]] + ps[i + 1..]);
    EncodeAllConcat(alg, ps[..i], [ps[i]] + ps[i + 1..]);
    assert ([ps[i]] + ps[i + 1..])[1..] == ps[i + 1..];
  }

  /** What a cut leaves after its whole frames: a proper prefix of the next one. */
  function Remnant(alg: Checksum, ps: seq<Payload>, cut: nat): (tail: seq<byte>)
    requires cut <= |EncodeAll(alg, ps)|
    ensures var k := WholeFrames(alg, ps, cut);
            && |tail| == cut - Boundary(alg, ps, k)
            && (k == |ps| ==> tail == [])
            && (k < |ps| ==> tail < EncodeFrame(alg, ps[k]))
  {
    var k := WholeFrames(alg, ps, cut);
    WholeFramesMeaning(alg, ps, cut);
    assert Boundary(alg, ps, k) <= cut;
    if k == |ps| then
      assert ps[..k] == ps;
      []
    else
      BoundaryStep(alg, ps, k);
      assert !(Boundary(alg, ps, k + 1) <= cut);
      EncodeFrame(alg, ps[k])[..cut - Boundary(alg, ps, k)]
  }

  lemma CutSplits(alg: Checksum, ps: seq<Payload>, cut: nat)
    requires cut <= |EncodeAll(alg, ps)|
    ensures EncodeAll(alg, ps)[..cut]
         == EncodeAll(alg, ps[..WholeFrames(alg, ps, cut)]) + Remnant(alg, ps, cut)
  {
    var k := WholeFrames(alg, ps, cut);
    var tail := Remnant(alg, ps, cut);
    if k == |ps| {
      assert ps[..k] == ps;
    } else {
      SplitAround(alg, ps, k);
      CutMiddle(EncodeAll(alg, ps[..k]), EncodeFrame(alg, ps[k]), EncodeAll(alg, ps[k + 1..]), cut);
    }
  }

  /** The first payload over the bound, or the length of the list. */
  function FirstOver(max: nat, ps: seq<Payload>): (f: nat)
    ensures f <= |ps|
    ensures forall i :: 0 <= i < f ==> |ps[i]| <= max
    ensures f < |ps| ==> ps[f] in ps && |ps[f]| > max
  {
    if ps == [] || |ps[0]| > max then 0 else 1 + FirstOver(max, ps[1..])
  }

  /** Exact recovery at every cut of every journal, for every width and bound: an
      error exactly when the cut holds the complete header of the first payload
      over the bound, and otherwise the number of whole frames, the last
      boundary at or before the cut, and a clean end exactly on a boundary. */
  lemma ExactAtEveryCut(alg: Checksum, max: nat, ps: seq<Payload>, cut: nat)
    requires AllWritable(ps) && cut <= |EncodeAll(alg, ps)|
    ensures var f := FirstOver(max, ps);
            var k := WholeFrames(alg, ps, cut);
            Recover(alg, max, EncodeAll(alg, ps)[..cut])
            == if f < |ps| && cut >= Boundary(alg, ps, f) + HeaderLen(alg)
               then Err(InvalidFrame(|ps[f]|, max))
               else Ok(RecoveryReport(k, Boundary(alg, ps, k),
                                      if cut == Boundary(alg, ps, k) then CleanEof else TornTail))
  {
    var f := FirstOver(max, ps);
    if f < |ps| && cut >= Boundary(alg, ps, f) + HeaderLen(alg) {
      OverBoundIsReported(alg, max, ps, cut, f);
    } else {
      CutBeforeOverBound(alg, max, ps, cut);
    }
  }

  lemma CutBeforeOverBound(alg: Checksum, max: nat, ps: seq<Payload>, cut: nat)
    requires AllWritable(ps) && cut <= |EncodeAll(alg, ps)|
    requires var f := FirstOver(max, ps);
             f < |ps| ==> cut < Boundary(alg, ps, f) + HeaderLen(alg)
    ensures var k := WholeFrames(alg, ps, cut);
            && Scan(alg, max, EncodeAll(alg, ps)[..cut])
               == ScanOutcome(ps[..k], if cut == Boundary(alg, ps, k) then None else Some(UnexpectedEof))
            && Recover(alg, max, EncodeAll(alg, ps)[..cut])
               == Ok(RecoveryReport(k, Boundary(alg, ps, k),
                                    if cut == Boundary(alg, ps, k) then CleanEof else TornTail))
  {
    var k := WholeFrames(alg, ps, cut);
    WholeFramesBeforeOverBound(alg, max, ps, cut);
    CutSplits(alg, ps, cut);
    var tail := Remnant(alg, ps, cut);
    hide Parse, Scan, EncodeAll, EncodeFrame, WholeFrames;
    if tail == [] {
      CleanIffEmpty(alg, max, tail);
      ScanOfSplit(alg, max, ps[..k], tail, None);
    } else {
      assert tail == EncodeFrame(alg, ps[k])[..|tail|];
      CutFrameVerdict(alg, max, ps[k], |tail|);
      ScanOfSplit(alg, max, ps[..k], tail, Some(UnexpectedEof));
    }
  }

  lemma WholeFramesBeforeOverBound(alg: Checksum, max: nat, ps: seq<Payload>, cut: nat)
    requires AllWritable(ps)
    requires var f := FirstOver(max, ps);
             f < |ps| ==> cut < Boundary(alg, ps, f) + HeaderLen(alg)
    ensures var k := WholeFrames(alg, ps, cut);
            && AllAcceptable(max, ps[..k])
            && (k < |ps| && |ps[k]| > max ==> cut < Boundary(alg, ps, k) + HeaderLen(alg))
  {
    hide EncodeAll, EncodeFrame;
    var f, k := FirstOver(max, ps), WholeFrames(alg, ps, cut);
    if f < k {
      WholeFramesMeaning(alg, ps, cut);
      assert Boundary(alg, ps, f + 1) <= cut;
      BoundaryStep(alg, ps, f);
    }
  }

  /** A cut strictly inside a frame of an in-bound journal: a torn tail at that
      frame, short of the end. */
  lemma CutInsideFrame(alg: Checksum, max: nat, ps: seq<Payload>, k: nat, n: nat)
    requires AllAcceptable(max, ps) && k < |ps|
    requires Boundary(alg, ps, k) < n < Boundary(alg, ps, k + 1)
    ensures n < |EncodeAll(alg, ps)|
    ensures Recover(alg, max, EncodeAll(alg, ps)).Ok?
    ensures Recover(alg, max, EncodeAll(alg, ps)[..n]) == Ok(RecoveryReport(k, Boundary(alg, ps, k), TornTail))
  {
    hide EncodeAll, WholeFrames;
    BoundaryOrder(alg, ps, k + 1, |ps|);
    assert ps[..|ps|] == ps;
    WholeFramesMeaning(alg, ps, n);
    StreamRoundTrip(alg, max, ps);
    CutBeforeOverBound(alg, max, ps, n);
  }

  lemma OverBoundIsReported(alg: Checksum, max: nat, ps: seq<Payload>, cut: nat, f: nat)
    requires AllWritable(ps) && f < |ps| && AllAcceptable(max, ps[..f]) && |ps[f]| > max
    requires Boundary(alg, ps, f) + HeaderLen(alg) <= cut <= |EncodeAll(alg, ps)|
    ensures Recover(alg, max, EncodeAll(alg, ps)[..cut]) == Err(InvalidFrame(|ps[f]|, max))
  {
    var head := EncodeAll(alg, ps[..f]);
    var frame, later := EncodeFrame(alg, ps[f]), EncodeAll(alg, ps[f + 1..]);
    SplitAround(alg, ps, f);
    var tail := (frame + later)[..cut - |head|];
    CutAfter(head, frame + later, cut);
    var c := cut - |head|;
    if c < |frame| {
      assert tail == frame[..c];
      CutFrameVerdict(alg, max, ps[f], c);
    } else {
      assert tail == frame + later[..c - |frame|];
      OverBoundFrame(alg, max, ps[f], later[..c - |frame|]);
    }
    ScanOfSplit(alg, max, ps[..f], tail, Some(InvalidFrame(|ps[f]|, max)));
  }

  lemma CutAfter<T>(a: seq<T>, b: seq<T>, cut: nat)
    requires |a| <= cut <= |a| + |b|
    ensures (a + b)[..cut] == a + b[..cut - |a|]
  {
  }

  /** Soundness on arbitrary bytes. Whatever the input, a report's prefix is the
      canonical encoding of the frames counted, the tail is torn exactly when
      bytes remain, and truncating there leaves a journal that recovers clean
      with the same count and offset. */
  lemma ReportIsSound(alg: Checksum, max: nat, s: seq<byte>)
    requires Recover(alg, max, s).Ok?
    ensures var rep := Recover(alg, max, s).value;
            var ps := Scan(alg, max, s).payloads;
            && rep.frames == |ps|
            && AllAcceptable(max, ps)
            && rep.lastGoodOffset == |EncodeAll(alg, ps)| <= |s|
            && s[..rep.lastGoodOffset] == EncodeAll(alg, ps)
            && (rep.end == TornTail <==> rep.lastGoodOffset < |s|)
            && Scan(alg, max, s[..rep.lastGoodOffset]) == ScanOutcome(ps, None)
            && Recover(alg, max, s[..rep.lastGoodOffset])
               == Ok(RecoveryReport(rep.frames, rep.lastGoodOffset, CleanEof))
  {
    ScanSplits(alg, max, s);
    CleanIffEmpty(alg, max, TailOf(alg, max, s));
    hide Parse, Scan, EncodeAll;
    StreamRoundTrip(alg, max, Scan(alg, max, s).payloads);
  }

  /** The offset is the sum of the frame lengths. */
  lemma {:induction false} OffsetIsSum(alg: Checksum, ps: seq<Payload>)
    ensures |EncodeAll(alg, ps)| == HeaderLen(alg) * |ps| + TotalPayload(ps)
  {
    if ps != [] {
      OffsetIsSum(alg, ps[1..]);
      assert HeaderLen(alg) * |ps| == HeaderLen(alg) * (|ps| - 1) + HeaderLen(alg);
    }
  }

  function TotalPayload(ps: seq<Payload>): nat {
    if ps == [] then 0 else |ps[0]| + TotalPayload(ps[1..])
  }

  /** Prefix stability: a journal that recovers does so at every cut, and the
      frames found there are the whole frames of the full scan. */
  lemma PrefixStability(alg: Checksum, max: nat, s: seq<byte>, cut: nat)
    requires Recover(alg, max, s).Ok? && cut <= |s|
    ensures var ps := Scan(alg, max, s).payloads;
            var k := WholeFrames(alg, ps, cut);
            Recover(alg, max, s[..cut])
            == Ok(RecoveryReport(k, Boundary(alg, ps, k),
                                 if cut == Boundary(alg, ps, k) then CleanEof else TornTail))
  {
    hide Parse, Scan, EncodeAll;
    ScanSplits(alg, max, s);
    var ps := Scan(alg, max, s).payloads;
    if cut <= |EncodeAll(alg, ps)| {
      assert s[..cut] == EncodeAll(alg, ps)[..cut];
      CutBeforeOverBound(alg, max, ps, cut);
    } else {
      CleanIffEmpty(alg, max, TailOf(alg, max, s));
      CutInTail(alg, max, ps, TailOf(alg, max, s), cut);
    }
  }

  lemma CutInTail(alg: Checksum, max: nat, ps: seq<Payload>, tail: seq<byte>, cut: nat)
    requires AllAcceptable(max, ps) && Parse(alg, max, tail) == Err(UnexpectedEof)
    requires |EncodeAll(alg, ps)| < cut <= |EncodeAll(alg, ps)| + |tail|
    ensures WholeFrames(alg, ps, cut) == |ps| && Boundary(alg, ps, |ps|) == |EncodeAll(alg, ps)|
    ensures Recover(alg, max, (EncodeAll(alg, ps) + tail)[..cut])
         == Ok(RecoveryReport(|ps|, |EncodeAll(alg, ps)|, TornTail))
  {
    hide Parse, Scan, EncodeAll;
    var c := cut - |EncodeAll(alg, ps)|;
    CutBeyond(alg, ps, cut);
    TornTailCutIsTorn(alg, max, tail, c);
    ScanOfSplit(alg, max, ps, tail[..c], Some(UnexpectedEof));
    CutAfter(EncodeAll(alg, ps), tail, cut);
  }

  lemma TornTailCutIsTorn(alg: Checksum, max: nat, tail: seq<byte>, c: nat)
    requires Parse(alg, max, tail) == Err(UnexpectedEof) && 0 < c <= |tail|
    ensures Parse(alg, max, tail[..c]) == Err(UnexpectedEof)
  {
    assert tail[..c] + tail[c..] == tail;
    if Parse(alg, max, tail[..c]) != Err(UnexpectedEof) {
      VerdictPersists(alg, max, tail[..c], tail[c..]);
    }
  }

  lemma CutBeyond(alg: Checksum, ps: seq<Payload>, cut: nat)
    requires |EncodeAll(alg, ps)| <= cut
    ensures WholeFrames(alg, ps, cut) == |ps| && Boundary(alg, ps, |ps|) == |EncodeAll(alg, ps)|
  {
    assert ps[..|ps|] == ps;
    WholeFramesMeaning(alg, ps, cut);
  }

  /** An error verdict, reason included, persists under every extension: no
      later write can turn corruption into a truncation point. */
  lemma ErrorsPersist(alg: Checksum, max: nat, s: seq<byte>, t: seq<byte>)
    requires Recover(alg, max, s).Err?
    ensures Recover(alg, max, s + t) == Recover(alg, max, s)
  {
    hide Parse, Scan, EncodeAll;
    ScanSplits(alg, max, s);
    var r := Scan(alg, max, s);
    var body := EncodeAll(alg, r.payloads);
    var tail := s[|body|..];
    CleanIffEmpty(alg, max, tail);
    VerdictPersists(alg, max, tail, t);
    ScanOfSplit(alg, max, r.payloads, tail + t, r.stop);
    assert s + t == body + (tail + t);
  }

  /** The bytes after the last frame read. */
  function TailOf(alg: Checksum, max: nat, s: seq<byte>): (tail: seq<byte>)
    ensures s == EncodeAll(alg, Scan(alg, max, s).payloads) + tail
  {
    ScanSplits(alg, max, s);
    s[|EncodeAll(alg, Scan(alg, max, s).payloads)|..]
  }

  /** The least length a torn length field can still be completed to. */
  function LeastLength(tail: seq<byte>): nat {
    if |tail| >= 4 then FromLE(tail[..4]) else FromLE(tail)
  }

  /** `tail` is a proper prefix of a frame that, completed, is read after `ps`. */
  ghost predicate CompletesTo(max: nat, ps: seq<Payload>, tail: seq<byte>, p: Payload) {
    && tail < EncodeFrame(NoChecksum, p)
    && Scan(NoChecksum, max, EncodeAll(NoChecksum, ps) + EncodeFrame(NoChecksum, p)) == ScanOutcome(ps + [p], None)
  }

  /** Torn means extendable, for the plain format: a torn tail can be completed
      to one more readable frame exactly when the least length its bytes can
      declare is within the bound. */
  lemma TornIsExtendable(max: nat, s: seq<byte>)
    requires Scan(NoChecksum, max, s).stop == Some(UnexpectedEof)
    ensures LeastLength(TailOf(NoChecksum, max, s)) <= max
       <==> exists p :: CompletesTo(max, Scan(NoChecksum, max, s).payloads, TailOf(NoChecksum, max, s), p)
  {
    ScanSplits(NoChecksum, max, s);
    var ps, tail := Scan(NoChecksum, max, s).payloads, TailOf(NoChecksum, max, s);
    assert Parse(NoChecksum, max, tail) == Err(UnexpectedEof);
    if LeastLength(tail) <= max {
      var p := Completion(max, tail);
      EncodeSnoc(NoChecksum, ps, p);
      StreamRoundTrip(NoChecksum, max, ps + [p]);
      assert CompletesTo(max, ps, tail, p);
    }
    forall p | CompletesTo(max, ps, tail, p)
      ensures LeastLength(tail) <= max
    {
      CompletionWithinBound(max, ps, tail, p);
    }
  }

  lemma CompletionWithinBound(max: nat, ps: seq<Payload>, tail: seq<byte>, p: Payload)
    requires CompletesTo(max, ps, tail, p)
    ensures LeastLength(tail) <= max
  {
    ScanSplits(NoChecksum, max, EncodeAll(NoChecksum, ps) + EncodeFrame(NoChecksum, p));
    assert p in ps + [p];
    LengthFieldReadsBack(p);
    var field := ToLE(|p|, 4);
    if |tail| < 4 {
      assert tail == field[..|tail|];
      assert field == tail + field[|tail|..];
      PaddingIsLeast(tail, field[|tail|..]);
    } else {
      assert tail[..4] == field;
    }
  }

  /** Builds the payload that completes a torn plain frame. */
  lemma Completion(max: nat, tail: seq<byte>) returns (p: Payload)
    requires Parse(NoChecksum, max, tail) == Err(UnexpectedEof) && LeastLength(tail) <= max
    ensures Acceptable(max, p) && tail < EncodeFrame(NoChecksum, p) && tail != []
  {
    var field := if |tail| >= 4 then tail[..4] else tail + Zeros(4 - |tail|);
    if |tail| < 4 {
      ZeroPadding(tail, 4 - |tail|);
    }
    var n := FromLE(field);
    FromLEBound(field);
    PowersOf256();
    Canonical(field);
    var body := if |tail| >= 4 then tail[4..] else [];
    p := body + Zeros(n - |body|);
    var frame := EncodeFrame(NoChecksum, p);
    assert frame == field + p;
    assert tail == frame[..|tail|];
  }

  /** With a bound of at least 2^24 - 1 every torn tail can be completed. */
  lemma WideBoundCompletesEveryTail(max: nat, s: seq<byte>)
    requires max >= 0xFF_FFFF
    requires Scan(NoChecksum, max, s).stop == Some(UnexpectedEof)
    ensures LeastLength(TailOf(NoChecksum, max, s)) <= max
  {
    ScanSplits(NoChecksum, max, s);
    var tail := TailOf(NoChecksum, max, s);
    FromLEBound(tail);
    PowersOf256();
    if |tail| == 1 || |tail| == 2 || |tail| == 3 {
      assert FromLE(tail) <= 0xFF_FFFF;
    }
  }
}
