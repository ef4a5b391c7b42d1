/** What a loop of deframing calls has achieved so far, shared by the recovery
    scan and the message reader. */
module Scanning {
  import opened Types
  import opened Checksums
  import opened Wire
  import opened Streams
  import opened Framing

  /** From `a` to `b` exactly the frames of `ps` were taken, undisturbed. */
  ghost predicate Progress(deframer: Deframer, a: Moment, b: Moment, ps: seq<Payload>) {
    && Ran(a, b) && Told(a, b) == Undisturbed && Paced(a, b)
    && AllAcceptable(deframer.maxFrameLen, ps)
    && Taken(a, b) == EncodeAll(deframer.Alg(), ps)
  }

  /** One deframing call led from `b` to `c`. */
  ghost predicate StepTaken(deframer: Deframer, b: Moment, c: Moment, contents: seq<byte>,
                            got: Result<Option<nat>, ErrorKind>) {
    && Ran(b, c) && Asked(b, c)
    && Deframed(b, c, got, contents, deframer.Header(), Parse(deframer.Alg(), deframer.maxFrameLen, Shown(b, c)))
  }

  lemma NoProgress(deframer: Deframer, a: Moment)
    requires a.Valid()
    ensures Progress(deframer, a, a, [])
  {
    NothingRan(a);
  }

  /** A successful call takes one more frame, and the front of the buffer is its
      payload. */
  lemma StepAdvances(deframer: Deframer, a: Moment, b: Moment, c: Moment, ps: seq<Payload>,
                     contents: seq<byte>, n: nat)
    requires Progress(deframer, a, b, ps) && StepTaken(deframer, b, c, contents, Ok(Some(n)))
    ensures n <= |contents| && Progress(deframer, a, c, ps + [contents[..n]])
    ensures b.pos + 4 <= c.pos && c.bytes == b.bytes == a.bytes && a.pos <= c.pos
  {
    hide Parse, EncodeAll, EncodeFrame, Shown, Told, Paced;
    InSequence(a, b, c);
    FrameTaken(deframer.Alg(), deframer.maxFrameLen, b, c, n);
    FrameAdded(deframer, Taken(a, b), ps, contents[..n]);
  }

  lemma FrameAdded(deframer: Deframer, taken: seq<byte>, ps: seq<Payload>, p: Payload)
    requires AllAcceptable(deframer.maxFrameLen, ps) && Acceptable(deframer.maxFrameLen, p)
    requires taken == EncodeAll(deframer.Alg(), ps)
    ensures AllAcceptable(deframer.maxFrameLen, ps + [p])
    ensures taken + EncodeFrame(deframer.Alg(), p) == EncodeAll(deframer.Alg(), ps + [p])
  {
    EncodeSnoc(deframer.Alg(), ps, p);
  }

  lemma FrameTaken(alg: Checksum, max: nat, b: Moment, c: Moment, n: nat)
    requires Ran(b, c) && Told(b, c) == Undisturbed && c.pos == b.pos + HeaderLen(alg) + n
    requires Parse(alg, max, Shown(b, c)) == Ok(Some(n))
    ensures var p := b.bytes[b.pos + HeaderLen(alg)..c.pos];
            Acceptable(max, p) && Taken(b, c) == EncodeFrame(alg, p)
  {
    hide Parse, EncodeFrame;
    var h := HeaderLen(alg);
    ParsedIsCanonical(alg, max, Shown(b, c), n);
    SliceOfSlice(b.bytes, b.pos, h, h + n);
    SliceOfSlice(b.bytes, b.pos, 0, h + n);
  }

  /** A call that is no frame ends the scan of everything shown since `a`. */
  lemma StepStops(deframer: Deframer, a: Moment, b: Moment, c: Moment, ps: seq<Payload>, contents: seq<byte>,
                  got: Result<Option<nat>, ErrorKind>)
    requires Progress(deframer, a, b, ps) && StepTaken(deframer, b, c, contents, got)
    requires got.Err? || got.value == None
    ensures Ran(a, c) && Told(a, c) == Told(b, c) && Asked(a, c) && Paced(a, c)
    ensures got.Ok? || got.error == UnexpectedEof ==> Told(a, c) != Undisturbed || c.pos == |c.bytes|
    ensures match Told(a, c)
            case Fault(code) => got == Err(Io(Other(code)))
            case _ => Scan(deframer.Alg(), deframer.maxFrameLen, Shown(a, c))
                      == ScanOutcome(ps, if got.Ok? then None else Some(got.error))
  {
    hide Parse, Scan, EncodeAll, Paced;
    InSequence(a, b, c);
    if !Told(b, c).Fault? {
      CleanIffEmpty(deframer.Alg(), deframer.maxFrameLen, Shown(b, c));
      ScanOfSplit(deframer.Alg(), deframer.maxFrameLen, ps, Shown(b, c), if got.Ok? then None else Some(got.error));
    }
  }

  lemma OffsetAtStop(deframer: Deframer, a: Moment, b: Moment, ps: seq<Payload>)
    requires Progress(deframer, a, b, ps)
    ensures b.pos - a.pos == |EncodeAll(deframer.Alg(), ps)|
  {
  }
}
