/** The wire format as a printer and a parser over byte sequences: what
    `src/framing.rs` writes, and what each deframer entry point answers on the
    bytes in front of it. */
module Wire {
  import opened Types
  import opened LittleEndian
  import opened Checksums

  type Payload = seq<byte>

  /** Bytes before the payload. */
  function HeaderLen(alg: Checksum): nat {
    4 + alg.Size()
  }

  function FrameLen(alg: Checksum, p: Payload): nat {
    HeaderLen(alg) + |p|
  }

  function EncodeFrame(alg: Checksum, p: Payload): (s: seq<byte>)
    ensures |s| == FrameLen(alg, p)
  {
    ToLE(|p|, 4) + ToLE(alg.Calculate(p), alg.Size()) + p
  }

  function EncodeAll(alg: Checksum, ps: seq<Payload>): seq<byte> {
    if ps == [] then [] else EncodeFrame(alg, ps[0]) + EncodeAll(alg, ps[1..])
  }

  /** The 32-bit length field can express `p`. */
  predicate Writable(p: Payload) {
    |p| <= U32_MAX
  }

  /** A frame the writer can produce and a reader bounded by `max` accepts. */
  predicate Acceptable(max: nat, p: Payload) {
    Writable(p) && |p| <= max
  }

  predicate AllWritable(ps: seq<Payload>) {
    forall p :: p in ps ==> Writable(p)
  }

  predicate AllAcceptable(max: nat, ps: seq<Payload>) {
    forall p :: p in ps ==> Acceptable(max, p)
  }

  //--- Parsing ---

  /** `ChecksumDeframer::read_and_deframe`: the whole header first, then the
      bound. `Ok(Some(n))` means the payload is the `n` bytes after the header. */
  function Parse(alg: Checksum, max: nat, s: seq<byte>): Result<Option<nat>, ErrorKind> {
    var h := HeaderLen(alg);
    if s == [] then Ok(None)
    else if |s| < h then Err(UnexpectedEof)
    else
      var n := FromLE(s[..4]);
      if n > max then Err(InvalidFrame(n, max))
      else if |s| < h + n then Err(UnexpectedEof)
      else Checked(alg, FieldOf(alg, s[4..h]), s[h..h + n])
  }

  /** The value of a checksum field. */
  function FieldOf(alg: Checksum, field: seq<byte>): (v: U64)
    requires |field| == alg.Size()
    ensures v == FromLE(field)
  {
    FromLEBound(field);
    PowBelowWord(alg.Size());
    FromLE(field)
  }

  function Checked(alg: Checksum, expected: U64, payload: Payload): Result<Option<nat>, ErrorKind> {
    match alg.Verify(expected, payload)
    case Ok(_) => Ok(Some(|payload|))
    case Err(e) => Err(e)
  }

  /** The provided `Deframer::read_and_deframe`: four length bytes, then
      `read_after_length`. */
  function ParseLengthFirst(alg: Checksum, max: nat, s: seq<byte>): Result<Option<nat>, ErrorKind> {
    if s == [] then Ok(None)
    else if |s| < 4 then Err(UnexpectedEof)
    else ParseAfterLength(alg, max, FromLE(s[..4]), s[4..])
  }

  /** `read_after_length`: the bound first, then the checksum field. */
  function ParseAfterLength(alg: Checksum, max: nat, n: nat, t: seq<byte>): Result<Option<nat>, ErrorKind> {
    var w := alg.Size();
    if n > max then Err(InvalidFrame(n, max))
    else if |t| < w then Err(UnexpectedEof)
    else if |t| < w + n then Err(UnexpectedEof)
    else Checked(alg, FieldOf(alg, t[..w]), t[w..w + n])
  }

  /** The in-bound payload length whose payload read is attempted, if any: what
      the reader's buffer is sized from. */
  function Attempted(alg: Checksum, max: nat, s: seq<byte>): Option<nat> {
    if |s| < HeaderLen(alg) then None
    else if FromLE(s[..4]) > max then None
    else Some(FromLE(s[..4]))
  }

  /** Before a complete header there is only a clean or a torn end. */
  lemma BeforeHeader(alg: Checksum, max: nat, s: seq<byte>)
    ensures |s| < HeaderLen(alg) ==>
              Parse(alg, max, s) == (if s == [] then Ok(None) else Err(UnexpectedEof)) && Attempted(alg, max, s) == None
    ensures |s| < 4 ==>
              ParseLengthFirst(alg, max, s) == (if s == [] then Ok(None) else Err(UnexpectedEof))
  {
  }

  /** What remains to be decided once a complete header has been read. */
  lemma AfterHeader(alg: Checksum, max: nat, header: seq<byte>, rest: seq<byte>)
    requires |header| == HeaderLen(alg)
    ensures var n := FromLE(header[..4]);
            && Attempted(alg, max, header + rest) == (if n <= max then Some(n) else None)
            && Parse(alg, max, header + rest)
               == if n > max then Err(InvalidFrame(n, max))
                  else if |rest| < n then Err(UnexpectedEof)
                  else Checked(alg, FieldOf(alg, header[4..]), rest[..n])
  {
    var s, h, n := header + rest, HeaderLen(alg), FromLE(header[..4]);
    assert s[..4] == header[..4];
    if n <= |rest| {
      assert s[4..h] == header[4..] && s[h..h + n] == rest[..n];
    }
  }

  lemma AfterLength(alg: Checksum, max: nat, len: seq<byte>, rest: seq<byte>)
    requires |len| == 4
    ensures ParseLengthFirst(alg, max, len + rest) == ParseAfterLength(alg, max, FromLE(len), rest)
    ensures Attempted(alg, max, len + rest)
         == if FromLE(len) <= max && alg.Size() <= |rest| then Some(FromLE(len)) else None
  {
    assert (len + rest)[..4] == len && (len + rest)[4..] == rest;
  }

  lemma AfterField(alg: Checksum, max: nat, n: nat, field: seq<byte>, rest: seq<byte>)
    requires |field| == alg.Size() && n <= max
    ensures ParseAfterLength(alg, max, n, field + rest)
         == if |rest| < n then Err(UnexpectedEof) else Checked(alg, FieldOf(alg, field), rest[..n])
  {
    var t, w := field + rest, alg.Size();
    assert t[..w] == field;
    if n <= |rest| {
      assert t[w..w + n] == rest[..n];
    }
  }

  /** The two entry points of the checksum deframer agree on every input except
      one: an over-bound length whose checksum field is torn. */
  lemma EntryPointsAgree(alg: Checksum, max: nat, s: seq<byte>)
    ensures Parse(alg, max, s) == ParseLengthFirst(alg, max, s)
       <==> !(4 <= |s| < HeaderLen(alg) && FromLE(s[..4]) > max)
    ensures 4 <= |s| < HeaderLen(alg) && FromLE(s[..4]) > max ==>
              && Parse(alg, max, s) == Err(UnexpectedEof)
              && ParseLengthFirst(alg, max, s) == Err(InvalidFrame(FromLE(s[..4]), max))
  {
    var h := HeaderLen(alg);
    if 4 <= |s| {
      var n := FromLE(s[..4]);
      if h + n <= |s| {
        assert s[4..][..alg.Size()] == s[4..h];
        assert s[4..][alg.Size()..alg.Size() + n] == s[h..h + n];
      }
    }
  }

  /** With no checksum field there is no exception left, and a zero-width
      algorithm reads exactly what the plain deframer reads. */
  lemma PlainAgreesEverywhere(alg: Checksum, max: nat, s: seq<byte>)
    requires alg.Size() == 0
    ensures Parse(alg, max, s) == Parse(NoChecksum, max, s)
         == ParseLengthFirst(NoChecksum, max, s) == ParseLengthFirst(alg, max, s)
  {
    EntryPointsAgree(alg, max, s);
    EntryPointsAgree(NoChecksum, max, s);
    if 4 <= |s| && 4 + FromLE(s[..4]) <= |s| {
      VerifyIsCongruence(alg, FieldOf(alg, s[4..4]), s[4..4 + FromLE(s[..4])]);
      assert Pow256(0) == 1;
    }
  }

  //--- One frame ---

  lemma LengthFieldReadsBack(p: Payload)
    requires Writable(p)
    ensures FromLE(ToLE(|p|, 4)) == |p|
  {
    PowersOf256();
    SmallReadsBack(|p|, 4);
  }

  /** What a frame is, on an algorithm's own width and function. */
  lemma FrameOfAlgorithm(w: Width, f: seq<byte> -> U64, p: Payload)
    ensures EncodeFrame(Algorithm(w, f), p) == ToLE(|p|, 4) + ToLE(f(p), w) + p
    ensures EncodeFrame(NoChecksum, p) == ToLE(|p|, 4) + p
  {
    assert ToLE(0, 0) == [];
  }

  /** Splits the front of an encoded frame into its fields. */
  lemma FrameFields(alg: Checksum, p: Payload, t: seq<byte>)
    ensures var s := EncodeFrame(alg, p) + t;
            var h := HeaderLen(alg);
            && s[..4] == ToLE(|p|, 4)
            && s[4..h] == ToLE(alg.Calculate(p), alg.Size())
            && s[h..h + |p|] == p
            && s[h + |p|..] == t
  {
    FourParts(ToLE(|p|, 4), ToLE(alg.Calculate(p), alg.Size()), p, t);
  }

  lemma FourParts<T>(a: seq<T>, b: seq<T>, c: seq<T>, d: seq<T>)
    ensures var s := a + b + c + d;
            && s[..|a|] == a
            && s[|a|..|a| + |b|] == b
            && s[|a| + |b|..|a| + |b| + |c|] == c
            && s[|a| + |b| + |c|..] == d
  {
  }

  /** The reader undoes the writer, whatever follows and whatever `calculate`
      is, even a function wider than its field. */
  lemma FrameParses(alg: Checksum, max: nat, p: Payload, t: seq<byte>)
    requires Acceptable(max, p)
    ensures Parse(alg, max, EncodeFrame(alg, p) + t) == Ok(Some(|p|))
  {
    var s := EncodeFrame(alg, p) + t;
    var h := HeaderLen(alg);
    FrameFields(alg, p, t);
    LengthFieldReadsBack(p);
    ReadsBackModuloWidth(alg.Calculate(p), alg.Size());
    var field := FieldOf(alg, s[4..h]);
    assert field % Pow256(alg.Size()) == alg.Calculate(p) % Pow256(alg.Size()) by {
      SameFieldIffCongruent(field, alg.Calculate(p), alg.Size());
      Canonical(s[4..h]);
    }
    VerifyIsCongruence(alg, field, p);
  }

  /** A frame is accepted only in its canonical encoding, checksum included. */
  lemma ParsedIsCanonical(alg: Checksum, max: nat, s: seq<byte>, n: nat)
    requires Parse(alg, max, s) == Ok(Some(n))
    ensures HeaderLen(alg) + n <= |s|
    ensures var p := s[HeaderLen(alg)..HeaderLen(alg) + n];
            Acceptable(max, p) && s[..HeaderLen(alg) + n] == EncodeFrame(alg, p)
  {
    var h := HeaderLen(alg);
    var p, field := s[h..h + n], s[4..h];
    assert FromLE(s[..4]) == n;
    FieldIsCanonical(alg, field, p);
    LengthIsCanonical(s[..4]);
    assert s[..h + n] == s[..4] + field + p;
  }

  lemma LengthIsCanonical(len: seq<byte>)
    requires |len| == 4
    ensures ToLE(FromLE(len), 4) == len && FromLE(len) <= U32_MAX
  {
    Canonical(len);
    FromLEBound(len);
    PowersOf256();
  }

  /** The one field value, at its width, that verification accepts. */
  lemma FieldIsCanonical(alg: Checksum, field: seq<byte>, p: Payload)
    requires |field| == alg.Size() && Checked(alg, FieldOf(alg, field), p).Ok?
    ensures field == ToLE(alg.Calculate(p), alg.Size())
  {
    VerifyIsCongruence(alg, FieldOf(alg, field), p);
    Canonical(field);
    SameFieldIffCongruent(FieldOf(alg, field), alg.Calculate(p), alg.Size());
  }

  /** Every proper non-empty cut of a writable frame is torn, unless it already
      holds the complete header of a payload over the bound. */
  lemma CutFrameVerdict(alg: Checksum, max: nat, p: Payload, c: nat)
    requires Writable(p) && 0 < c < FrameLen(alg, p)
    ensures Parse(alg, max, EncodeFrame(alg, p)[..c])
         == if |p| > max && c >= HeaderLen(alg) then Err(InvalidFrame(|p|, max)) else Err(UnexpectedEof)
  {
    var s := EncodeFrame(alg, p)[..c];
    LengthFieldReadsBack(p);
    if c >= HeaderLen(alg) {
      assert s[..4] == ToLE(|p|, 4);
    }
  }

  lemma OverBoundFrame(alg: Checksum, max: nat, p: Payload, t: seq<byte>)
    requires Writable(p) && |p| > max
    ensures Parse(alg, max, EncodeFrame(alg, p) + t) == Err(InvalidFrame(|p|, max))
  {
    FrameFields(alg, p, t);
    LengthFieldReadsBack(p);
  }

  /** A clean end is reported on no bytes and on nothing else. */
  lemma CleanIffEmpty(alg: Checksum, max: nat, s: seq<byte>)
    ensures Parse(alg, max, s) == Ok(None) <==> s == []
  {
  }

  /** A verdict other than an end of input depends only on bytes already seen, so
      it survives every extension. */
  lemma VerdictPersists(alg: Checksum, max: nat, s: seq<byte>, t: seq<byte>)
    requires s != [] && Parse(alg, max, s) != Err(UnexpectedEof)
    ensures Parse(alg, max, s + t) == Parse(alg, max, s)
  {
    var h := HeaderLen(alg);
    var n := FromLE(s[..4]);
    assert (s + t)[..4] == s[..4];
    if n <= max {
      assert (s + t)[4..h] == s[4..h];
      assert (s + t)[h..h + n] == s[h..h + n];
    }
  }

  //--- Streams ---

  /** The frames a reader takes off the front of `s`, and why it stopped:
      `None` is a clean end at a frame boundary. */
  datatype ScanOutcome = ScanOutcome(payloads: seq<Payload>, stop: Option<ErrorKind>)

  function Scan(alg: Checksum, max: nat, s: seq<byte>): ScanOutcome
    decreases |s|
  {
    match Parse(alg, max, s)
    case Ok(None) => ScanOutcome([], None)
    case Err(e) => ScanOutcome([], Some(e))
    case Ok(Some(n)) =>
      ParsedIsCanonical(alg, max, s, n);
      var h := HeaderLen(alg);
      var rest := Scan(alg, max, s[h + n..]);
      ScanOutcome([s[h..h + n]] + rest.payloads, rest.stop)
  }

  /** One step of the scan on an accepted frame. */
  lemma ScanStep(alg: Checksum, max: nat, p: Payload, t: seq<byte>)
    requires Acceptable(max, p)
    ensures var rest := Scan(alg, max, t);
            Scan(alg, max, EncodeFrame(alg, p) + t) == ScanOutcome([p] + rest.payloads, rest.stop)
  {
    FrameParses(alg, max, p, t);
    FrameFields(alg, p, t);
  }

  lemma ConcatAssociates<T>(a: seq<T>, b: seq<T>, c: seq<T>)
    ensures a + (b + c) == (a + b) + c
  {
  }

  /** Reading resumes where the writer's frames end: the scan of frames followed
      by anything is those frames followed by the scan of that rest. */
  lemma {:induction false} ScanAppends(alg: Checksum, max: nat, ps: seq<Payload>, t: seq<byte>)
    requires AllAcceptable(max, ps)
    ensures var rest := Scan(alg, max, t);
            Scan(alg, max, EncodeAll(alg, ps) + t) == ScanOutcome(ps + rest.payloads, rest.stop)
  {
    if ps == [] {
      assert EncodeAll(alg, ps) + t == t;
      assert ps + Scan(alg, max, t).payloads == Scan(alg, max, t).payloads;
    } else {
      var p, qs := ps[0], ps[1..];
      assert ps == [p] + qs;
      ScanAppends(alg, max, qs, t);
      ScanStep(alg, max, p, EncodeAll(alg, qs) + t);
      ConcatAssociates(EncodeFrame(alg, p), EncodeAll(alg, qs), t);
      ConcatAssociates([p], qs, Scan(alg, max, t).payloads);
    }
  }

  /** The parser's answer on the bytes after the last frame read. */
  function StopVerdict(stop: Option<ErrorKind>): Result<Option<nat>, ErrorKind> {
    match stop
    case None => Ok(None)
    case Some(e) => Err(e)
  }

  /** `s` is the frames of `ps`, each in its canonical encoding, followed by
      bytes that begin no frame and on which the parser stops with `stop`. */
  ghost predicate Splits(alg: Checksum, max: nat, s: seq<byte>, r: ScanOutcome) {
    && AllAcceptable(max, r.payloads)
    && EncodeAll(alg, r.payloads) <= s
    && Parse(alg, max, s[|EncodeAll(alg, r.payloads)|..]) == StopVerdict(r.stop)
  }

  lemma SplitsStep(alg: Checksum, max: nat, p: Payload, s: seq<byte>, r: ScanOutcome)
    requires Acceptable(max, p) && Splits(alg, max, s, r)
    ensures Splits(alg, max, EncodeFrame(alg, p) + s, ScanOutcome([p] + r.payloads, r.stop))
  {
    var frame, body := EncodeFrame(alg, p), EncodeAll(alg, r.payloads);
    assert ([p] + r.payloads)[1..] == r.payloads;
    DropConcat(frame, s, |body|);
    ConcatAssociates(frame, body, s[|body|..]);
    assert body + s[|body|..] == s;
  }

  lemma DropConcat<T>(a: seq<T>, b: seq<T>, k: nat)
    requires k <= |b|
    ensures (a + b)[|a| + k..] == b[k..]
  {
  }

  /** Scanning is exactly this split: every input, valid or not, is the
      canonical encoding of what is read from it up to where reading stops. */
  lemma {:induction false} ScanSplits(alg: Checksum, max: nat, s: seq<byte>)
    ensures Splits(alg, max, s, Scan(alg, max, s))
    decreases |s|
  {
    hide Parse, EncodeAll, EncodeFrame, Splits;
    var verdict := Parse(alg, max, s);
    if verdict.Ok? && verdict.value.Some? {
      var h, n := HeaderLen(alg), verdict.value.value;
      ParsedIsCanonical(alg, max, s, n);
      var p, t := s[h..h + n], s[h + n..];
      ScanSplits(alg, max, t);
      SplitsStep(alg, max, p, t, Scan(alg, max, t));
      assert s == s[..h + n] + t;
    } else {
      SplitsAtOnce(alg, max, s, Scan(alg, max, s).stop);
    }
  }

  lemma SplitsAtOnce(alg: Checksum, max: nat, s: seq<byte>, stop: Option<ErrorKind>)
    requires Parse(alg, max, s) == StopVerdict(stop)
    ensures Splits(alg, max, s, ScanOutcome([], stop))
  {
    assert s[0..] == s;
  }

  /** ... and the split is unique, so it determines the scan. */
  lemma SplitDeterminesScan(alg: Checksum, max: nat, s: seq<byte>, r: ScanOutcome)
    requires Splits(alg, max, s, r)
    ensures Scan(alg, max, s) == r
  {
    hide Parse, EncodeAll, EncodeFrame;
    var tail := s[|EncodeAll(alg, r.payloads)|..];
    ScanAppends(alg, max, r.payloads, tail);
    assert EncodeAll(alg, r.payloads) + tail == s;
    assert Scan(alg, max, tail) == ScanOutcome([], r.stop);
    assert r.payloads + [] == r.payloads;
  }

  lemma ScanOfSplit(alg: Checksum, max: nat, ps: seq<Payload>, tail: seq<byte>, stop: Option<ErrorKind>)
    requires AllAcceptable(max, ps) && Parse(alg, max, tail) == StopVerdict(stop)
    ensures Scan(alg, max, EncodeAll(alg, ps) + tail) == ScanOutcome(ps, stop)
  {
    var s := EncodeAll(alg, ps) + tail;
    assert s[|EncodeAll(alg, ps)|..] == tail;
    SplitDeterminesScan(alg, max, s, ScanOutcome(ps, stop));
  }

  /** Stream round trip: the frames written are the payloads read, and the reader
      then reports a clean end. */
  lemma StreamRoundTrip(alg: Checksum, max: nat, ps: seq<Payload>)
    requires AllAcceptable(max, ps)
    ensures Scan(alg, max, EncodeAll(alg, ps)) == ScanOutcome(ps, None)
  {
    ScanOfSplit(alg, max, ps, [], None);
    assert EncodeAll(alg, ps) + [] == EncodeAll(alg, ps);
  }

  lemma SliceOfSlice<T>(s: seq<T>, at: nat, i: nat, j: nat)
    requires at <= |s| && i <= j <= |s| - at
    ensures s[at..][i..j] == s[at + i..at + j]
    ensures s[..at + j] == s[..at] + s[at..][..j]
  {
  }

  lemma {:induction false} EncodeAllConcat(alg: Checksum, ps: seq<Payload>, qs: seq<Payload>)
    ensures EncodeAll(alg, ps + qs) == EncodeAll(alg, ps) + EncodeAll(alg, qs)
  {
    if ps == [] {
      assert ps + qs == qs;
    } else {
      assert (ps + qs)[1..] == ps[1..] + qs;
      EncodeAllConcat(alg, ps[1..], qs);
      ConcatAssociates(EncodeFrame(alg, ps[0]), EncodeAll(alg, ps[1..]), EncodeAll(alg, qs));
    }
  }

  lemma EncodeSnoc(alg: Checksum, ps: seq<Payload>, p: Payload)
    ensures EncodeAll(alg, ps + [p]) == EncodeAll(alg, ps) + EncodeFrame(alg, p)
  {
    EncodeAllConcat(alg, ps, [p]);
    assert EncodeAll(alg, [p]) == EncodeFrame(alg, p) + EncodeAll(alg, []);
  }
}
