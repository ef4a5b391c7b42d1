/** `src/framing.rs`: the framers and deframers as they run, over a device and a
    reused buffer, proved against the wire format. */
module Framing {
  import opened Types
  import opened LittleEndian
  import opened Checksums
  import opened Wire
  import opened Streams

  datatype Framer = DefaultFramer | ChecksumFramer(checksumAlg: Checksum)
  {
    /** The plain framer writes what a checksum framer of width 0 would. */
    function Alg(): Checksum {
      if DefaultFramer? then NoChecksum else checksumAlg
    }

    method FrameAndWrite(writer: Device, payload: Payload) returns (r: Result<(), ErrorKind>)
      requires writer.Valid()
      modifies writer`bytes, writer`pos
      ensures writer.Valid()
      ensures !Writable(payload) ==>
                && r == Err(InvalidFrame(|payload|, U32_MAX))
                && writer.bytes == old(writer.bytes) && writer.pos == old(writer.pos)
      ensures Writable(payload) ==>
                && r.Ok?
                && writer.bytes == Overwritten(old(writer.bytes), old(writer.pos), EncodeFrame(Alg(), payload))
                && writer.pos == old(writer.pos) + FrameLen(Alg(), payload)
                && writer.pos <= |writer.bytes|
                && writer.bytes[old(writer.pos)..writer.pos]
                   == match this {
                        case ChecksumFramer(Algorithm(w, f)) => ToLE(|payload|, 4) + ToLE(f(payload), w) + payload
                        case _ => ToLE(|payload|, 4) + payload
                      }
    {
      if |payload| > U32_MAX {
        return Err(InvalidFrame(|payload|, U32_MAX));
      }
      ghost var bytes, at := writer.bytes, writer.pos;
      match this {
        case DefaultFramer =>
          writer.WriteAll(ToLE(|payload|, 4));
          writer.WriteAll(payload);
          assert ToLE(|payload|, 4) + payload == EncodeFrame(NoChecksum, payload);
          OverwriteTwice(bytes, at, ToLE(|payload|, 4), payload);
        case ChecksumFramer(alg) =>
          var head := AssembleHeader(alg, payload);
          writer.WriteAll(head);
          writer.WriteAll(payload);
          OverwriteTwice(bytes, at, head, payload);
      }
      if ChecksumFramer? && checksumAlg.Algorithm? {
        FrameOfAlgorithm(checksumAlg.width, checksumAlg.calculate, payload);
      } else {
        FrameOfAlgorithm(0, _ => 0, payload);
      }
      r := Ok(());
    }
  }

  /** Assembles `[length | checksum]` in a 12-byte scratch array, so that the
      header is written at once. */
  method AssembleHeader(alg: Checksum, payload: Payload) returns (head: seq<byte>)
    ensures head == ToLE(|payload|, 4) + ToLE(alg.Calculate(payload), alg.Size())
  {
    var header := new byte[12](_ => 0);
    var len := ToLE(|payload|, 4);
    forall i | 0 <= i < 4 {
      header[i] := len[i];
    }
    var checksum := alg.Calculate(payload);
    assert header[..4] == len;
    var field := WriteBytes(alg, checksum, header, 4);
    assert header[..4] == len;
    head := header[..4 + alg.Size()];
    assert head == header[..4] + field;
  }

  lemma OverwriteTwice(s: seq<byte>, at: nat, a: seq<byte>, b: seq<byte>)
    requires at <= |s|
    ensures Overwritten(Overwritten(s, at, a), at + |a|, b) == Overwritten(s, at, a + b)
  {
    var once, both := Overwritten(s, at, a), Overwritten(s, at, a + b);
    assert once[..at + |a|] == s[..at] + a;
    if at + |a| + |b| <= |s| {
      assert once[at + |a| + |b|..] == s[at + |a| + |b|..];
    }
  }

  /** Fills `header` up to `len`, telling a clean frame boundary (`Ok(None)`)
      from a torn header by a one-byte probe before the rest. */
  method ReadHeader(reader: Reader, header: array<byte>, len: nat) returns (r: Result<Option<()>, ErrorKind>)
    requires reader.Valid() && 0 < len <= header.Length
    modifies reader.Repr(), header
    ensures reader.Kept() && Ran(old(reader.Now()), reader.Now())
    ensures HeaderRead(old(reader.Now()), reader.Now(), r, len)
    ensures r.Ok? && r.value.Some? ==> header[..len] == Taken(old(reader.Now()), reader.Now())
  {
    ghost var a := reader.Now();
    var probe := reader.ReadExact(header, 0, 1);
    if probe.Err? {
      return if probe.error == EndOfFile then Ok(None) else Err(Io(probe.error));
    }
    ghost var b, first := reader.Now(), header[0];
    assert header[0..1] == [first];
    var rest := reader.ReadExact(header, 1, len);
    InSequence(a, b, reader.Now());
    if rest.Err? {
      return Err(if rest.error == EndOfFile then UnexpectedEof else Io(rest.error));
    }
    assert header[..len] == [first] + header[1..len];
    r := Ok(Some(()));
  }

  ghost predicate HeaderRead(a: Moment, b: Moment, r: Result<Option<()>, ErrorKind>, len: nat)
    requires Ran(a, b)
  {
    && Asked(a, b) && Paced(a, b)
    && (r.Err? ==> b.pos < a.pos + len)
    && match Told(a, b)
       case Fault(code) => r == Err(Io(Other(code)))
       case heard =>
         var n := |Shown(a, b)|;
         && (n < len && heard == Undisturbed ==> b.pos == |b.bytes|)
         && if n == 0 then r == Ok(None) && b.pos == a.pos
            else if n < len then r == Err(UnexpectedEof)
            else r.Ok? && r.value.Some? && heard == Undisturbed && b.pos == a.pos + len
  }

  /** The bound on a declared length, tested while the buffer is still as it was. */
  function CheckFrameLen(payloadLen: nat, max: nat): Result<(), ErrorKind> {
    if payloadLen > max then Err(InvalidFrame(payloadLen, max)) else Ok(())
  }

  /** How a deframing call leaves the reused buffer: it grows to the length whose
      payload read was attempted, never shrinks, and reallocates only when the
      capacity does not suffice. */
  twostate predicate Grown(buffer: Vec, new attempted: Option<nat>)
    requires old(buffer.Valid())
    reads buffer
  {
    && buffer.Valid()
    && (fresh(buffer.data) || buffer.data == old(buffer.data))
    && match attempted {
         case None => buffer.len == old(buffer.len) && buffer.data == old(buffer.data)
         case Some(n) =>
           && buffer.len == Max(old(buffer.len), n)
           && (n <= old(buffer.Capacity()) ==> buffer.Capacity() == old(buffer.Capacity()))
           && (n > old(buffer.Capacity()) ==> buffer.Capacity() >= n)
       }
  }

  /** Takes a payload of `n` bytes. A buffer that is already as long is reused as it
      is, and one that is shorter becomes exactly as long. */
  method ReadPayload(reader: Reader, buffer: Vec, n: nat) returns (r: Result<(), ErrorKind>)
    requires reader.Valid() && buffer.Valid()
    modifies reader.Repr(), buffer, buffer.data
    ensures reader.Kept() && Ran(old(reader.Now()), reader.Now())
    ensures Grown(buffer, Some(n))
    ensures PayloadRead(old(reader.Now()), reader.Now(), r, n)
    ensures r.Ok? ==> buffer.Contents()[..n] == Taken(old(reader.Now()), reader.Now())
  {
    if n > buffer.len {
      buffer.Resize(n);
    }
    var got := reader.ReadExact(buffer.data, 0, n);
    match got {
      case Ok(_) =>
        assert buffer.Contents()[..n] == buffer.data[0..n];
        r := Ok(());
      case Err(kind) =>
        r := Err(if kind == EndOfFile then UnexpectedEof else Io(kind));
    }
  }

  ghost predicate PayloadRead(a: Moment, b: Moment, r: Result<(), ErrorKind>, n: nat)
    requires Ran(a, b)
  {
    && Paced(a, b)
    && match Told(a, b)
       case Fault(code) => r == Err(Io(Other(code)))
       case heard =>
         && (if n <= |Shown(a, b)| then r.Ok? else r == Err(UnexpectedEof))
         && (r.Ok? ==> heard == Undisturbed && b.pos == a.pos + n)
         && (r.Err? && heard == Undisturbed ==> b.pos == |b.bytes|)
  }

  /** The outcome of a deframing call: a device fault is reported as such, and
      anything else is the parser's `verdict` on the bytes shown. A success has
      taken exactly `header` bytes and the payload, which is what `contents`
      starts with; a clean end has taken nothing; and without a claim only the
      end of the file tears a frame. */
  ghost predicate Deframed(a: Moment, b: Moment, r: Result<Option<nat>, ErrorKind>, contents: seq<byte>,
                           header: nat, verdict: Result<Option<nat>, ErrorKind>)
    requires Ran(a, b)
  {
    && Paced(a, b)
    && match Told(a, b)
       case Fault(code) => r == Err(Io(Other(code)))
       case heard =>
         && r == verdict
         && (r == Ok(None) ==> b.pos == a.pos)
         && (r == Err(UnexpectedEof) && heard == Undisturbed ==> b.pos == |b.bytes|)
         && (r.Ok? && r.value.Some? ==> heard == Undisturbed && TookFrame(a, b, contents, header, r.value.value))
  }

  /** The call took `header` bytes and a payload of `n`, which `contents` starts
      with. */
  ghost predicate TookFrame(a: Moment, b: Moment, contents: seq<byte>, header: nat, n: nat)
    requires Ran(a, b)
  {
    b.pos == a.pos + header + n && n <= |contents| && contents[..n] == a.bytes[a.pos + header..b.pos]
  }

  datatype Deframer =
    | DefaultDeframer(maxFrameLen: nat)
    | ChecksumDeframer(checksumAlg: Checksum, maxFrameLen: nat)
  {
    function Alg(): Checksum {
      if DefaultDeframer? then NoChecksum else checksumAlg
    }

    function Header(): nat {
      HeaderLen(Alg())
    }

    /** The full contract of `read_and_deframe`, against a parser. The payload read
        attempted, if any, is the one the bytes taken declare, faults included. */
    ghost predicate FrameRead(a: Moment, b: Moment, r: Result<Option<nat>, ErrorKind>, contents: seq<byte>,
                              attempted: Option<nat>, verdict: Result<Option<nat>, ErrorKind>)
      requires Ran(a, b)
    {
      && Deframed(a, b, r, contents, Header(), verdict)
      && Asked(a, b)
      && (!Told(a, b).Fault? ==> attempted == Attempted(Alg(), maxFrameLen, Shown(a, b)))
      && attempted == Attempted(Alg(), maxFrameLen, Taken(a, b))
      && (attempted.Some? ==> attempted.value <= maxFrameLen)
      && (r.Ok? && r.value.Some? ==> attempted == r.value)
    }

    /** A header that is not complete decides the frame by itself. */
    lemma HeaderDecides(a: Moment, b: Moment, head: Result<Option<()>, ErrorKind>, len: nat, contents: seq<byte>)
      requires Ran(a, b) && HeaderRead(a, b, head, len) && (head.Err? || head.value == None)
      ensures var r := if head.Err? then Err(head.error) else Ok(None);
              && (len == Header() ==> FrameRead(a, b, r, contents, None, Parse(Alg(), maxFrameLen, Shown(a, b))))
              && (len == 4 ==> FrameRead(a, b, r, contents, None, ParseLengthFirst(Alg(), maxFrameLen, Shown(a, b))))
    {
      hide Parse, ParseLengthFirst, Attempted, Told;
      BeforeHeader(Alg(), maxFrameLen, Shown(a, b));
      BeforeHeader(Alg(), maxFrameLen, Taken(a, b));
    }

    /** What the bytes after a complete merged header deserve. */
    function BodyVerdict(header: seq<byte>, rest: seq<byte>): Result<Option<nat>, ErrorKind>
      requires |header| == Header()
    {
      var n := FromLE(header[..4]);
      if n > maxFrameLen then Err(InvalidFrame(n, maxFrameLen))
      else if |rest| < n then Err(UnexpectedEof)
      else Checked(Alg(), FieldOf(Alg(), header[4..]), rest[..n])
    }

    /** Header and body make the frame. */
    lemma MergedFrame(a: Moment, b: Moment, c: Moment, r: Result<Option<nat>, ErrorKind>, contents: seq<byte>,
                      attempted: Option<nat>)
      requires Ran(a, b) && Ran(b, c) && Told(a, b) == Undisturbed && Asked(a, b) && Paced(a, b)
      requires |Taken(a, b)| == Header()
      requires Deframed(b, c, r, contents, 0, BodyVerdict(Taken(a, b), Shown(b, c)))
      requires attempted == if FromLE(Taken(a, b)[..4]) <= maxFrameLen then Some(FromLE(Taken(a, b)[..4])) else None
      requires r.Ok? ==> r.value == attempted
      ensures Ran(a, c) && FrameRead(a, c, r, contents, attempted, Parse(Alg(), maxFrameLen, Shown(a, c)))
    {
      hide Parse, Attempted, Checked, FromLE, Told, Shown, Paced;
      InSequence(a, b, c);
      AfterHeader(Alg(), maxFrameLen, Taken(a, b), Shown(b, c));
      AfterHeader(Alg(), maxFrameLen, Taken(a, b), Taken(b, c));
    }

    /** Length header and remainder make the frame. */
    lemma LengthFirstFrame(a: Moment, b: Moment, c: Moment, r: Result<Option<nat>, ErrorKind>, contents: seq<byte>,
                           attempted: Option<nat>)
      requires Ran(a, b) && Ran(b, c) && Told(a, b) == Undisturbed && Asked(a, b) && Paced(a, b)
      requires |Taken(a, b)| == 4
      requires AfterLengthRead(b, c, r, contents, attempted, FromLE(Taken(a, b)))
      ensures Ran(a, c) && FrameRead(a, c, r, contents, attempted, ParseLengthFirst(Alg(), maxFrameLen, Shown(a, c)))
    {
      hide ParseLengthFirst, ParseAfterLength, Attempted, FromLE, Told, Shown, Paced;
      InSequence(a, b, c);
      AfterLength(Alg(), maxFrameLen, Taken(a, b), Shown(b, c));
      AfterLength(Alg(), maxFrameLen, Taken(a, b), Taken(b, c));
    }

    /** The full contract of `read_after_length`. */
    ghost predicate AfterLengthRead(a: Moment, b: Moment, r: Result<Option<nat>, ErrorKind>, contents: seq<byte>,
                                    attempted: Option<nat>, n: nat)
      requires Ran(a, b)
    {
      && Deframed(a, b, r, contents, Alg().Size(), ParseAfterLength(Alg(), maxFrameLen, n, Shown(a, b)))
      && r != Ok(None) && (r.Ok? ==> attempted == r.value)
      && (attempted.Some? ==> attempted.value == n)
      && (attempted.Some? <==> n <= maxFrameLen && Alg().Size() <= |Taken(a, b)|)
      && (!Told(a, b).Fault? ==> (attempted.Some? <==> n <= maxFrameLen && Alg().Size() <= |Shown(a, b)|))
    }

    /** Checksum field and payload make the remainder. */
    lemma FieldThenPayload(a: Moment, b: Moment, c: Moment, r: Result<Option<nat>, ErrorKind>, contents: seq<byte>,
                           n: nat)
      requires Ran(a, b) && Ran(b, c) && Told(a, b) == Undisturbed && Paced(a, b)
      requires |Taken(a, b)| == Alg().Size() && n <= maxFrameLen && (r.Ok? ==> r == Ok(Some(n)))
      requires var rest := Shown(b, c);
               Deframed(b, c, r, contents, 0,
                        if |rest| < n then Err(UnexpectedEof)
                        else Checked(Alg(), FieldOf(Alg(), Taken(a, b)), rest[..n]))
      ensures Ran(a, c) && AfterLengthRead(a, c, r, contents, Some(n), n)
    {
      hide ParseAfterLength, Checked, FieldOf, Told, Shown, Paced;
      InSequence(a, b, c);
      AfterField(Alg(), maxFrameLen, n, Taken(a, b), Shown(b, c));
    }

    /** A result that needs no further byte is reached without a call. */
    lemma DecidedAtOnce(a: Moment, r: Result<Option<nat>, ErrorKind>, contents: seq<byte>, header: nat)
      requires a.Valid() && r != Err(UnexpectedEof)
      requires r.Ok? && r.value.Some? ==> header + r.value.value == 0
      ensures Ran(a, a) && Deframed(a, a, r, contents, header, r)
    {
      NothingRan(a);
    }

    /** `read_and_deframe` as each deframer implements it. */
    method ReadAndDeframe(reader: Reader, buffer: Vec)
      returns (r: Result<Option<nat>, ErrorKind>, ghost attempted: Option<nat>)
      requires reader.Valid() && buffer.Valid()
      modifies reader.Repr(), buffer, buffer.data
      ensures reader.Kept() && Ran(old(reader.Now()), reader.Now())
      ensures Grown(buffer, attempted)
      ensures var a, b := old(reader.Now()), reader.Now();
              FrameRead(a, b, r, buffer.Contents(), attempted, Parse(Alg(), maxFrameLen, Shown(a, b)))
      ensures var a, b := old(reader.Now()), reader.Now();
              match this
              case DefaultDeframer(max) =>
                && (!Told(a, b).Fault? ==> r == Parse(NoChecksum, max, Shown(a, b)))
                && (r.Ok? && r.value.Some? ==> b.pos == a.pos + 4 + r.value.value)
              case ChecksumDeframer(alg, max) =>
                && (!Told(a, b).Fault? ==> r == Parse(alg, max, Shown(a, b)))
                && (r.Ok? && r.value.Some? ==> b.pos == a.pos + 4 + alg.Size() + r.value.value)
    {
      match this {
        case DefaultDeframer(max) =>
          r, attempted := ReadLengthFirst(reader, buffer);
          PlainAgreesEverywhere(NoChecksum, max, Shown(old(reader.Now()), reader.Now()));
        case ChecksumDeframer(alg, max) =>
          r, attempted := ReadMergedHeader(reader, buffer);
      }
    }

    /** The provided `read_and_deframe`: four length bytes, then the rest. */
    method ReadLengthFirst(reader: Reader, buffer: Vec)
      returns (r: Result<Option<nat>, ErrorKind>, ghost attempted: Option<nat>)
      requires reader.Valid() && buffer.Valid()
      modifies reader.Repr(), buffer, buffer.data
      ensures reader.Kept() && Ran(old(reader.Now()), reader.Now())
      ensures Grown(buffer, attempted)
      ensures var a, b := old(reader.Now()), reader.Now();
              FrameRead(a, b, r, buffer.Contents(), attempted, ParseLengthFirst(Alg(), maxFrameLen, Shown(a, b)))
    {
      hide Parse, ParseLengthFirst, FromLE, Told, Shown, Ran, Paced, FrameRead, AfterLengthRead;
      attempted := None;
      ghost var a := reader.Now();
      var lenBytes := new byte[4];
      var head := ReadHeader(reader, lenBytes, 4);
      ghost var b := reader.Now();
      if head.Err? || head.value == None {
        r := if head.Err? then Err(head.error) else Ok(None);
        HeaderDecides(a, b, head, 4, buffer.Contents());
      } else {
        assert lenBytes[..] == lenBytes[..4];
        r, attempted := ReadAfterLength(reader, buffer, FromLE(lenBytes[..]));
        LengthFirstFrame(a, b, reader.Now(), r, buffer.Contents(), attempted);
      }
    }

    /** `read_after_length`: the bound, then the checksum field, then the
        payload. */
    method ReadAfterLength(reader: Reader, buffer: Vec, payloadLen: nat)
      returns (r: Result<Option<nat>, ErrorKind>, ghost attempted: Option<nat>)
      requires reader.Valid() && buffer.Valid()
      modifies reader.Repr(), buffer, buffer.data
      ensures reader.Kept() && Ran(old(reader.Now()), reader.Now())
      ensures Grown(buffer, attempted)
      ensures AfterLengthRead(old(reader.Now()), reader.Now(), r, buffer.Contents(), attempted, payloadLen)
    {
      hide FieldOf, FromLE, Told, Shown, Ran, Checked, Paced;
      attempted := None;
      ghost var a := reader.Now();
      var bound := CheckFrameLen(payloadLen, maxFrameLen);
      if bound.Err? {
        DecidedAtOnce(a, Err(bound.error), buffer.Contents(), Alg().Size());
        return Err(bound.error), None;
      }
      var field := ReadField(reader);
      if field.Err? {
        return Err(field.error), None;
      }
      ghost var b := reader.Now();
      attempted := Some(payloadLen);
      r := ReadChecked(reader, buffer, payloadLen, field.value);
      FieldThenPayload(a, b, reader.Now(), r, buffer.Contents(), payloadLen);
    }

    /** Reads the checksum field, when the format has one. With the length already
        taken, even an end of input before its first byte tears the frame. */
    method ReadField(reader: Reader) returns (r: Result<U64, ErrorKind>)
      requires reader.Valid()
      modifies reader.Repr()
      ensures reader.Kept() && Ran(old(reader.Now()), reader.Now())
      ensures FieldRead(old(reader.Now()), reader.Now(), r)
    {
      if DefaultDeframer? {
        NothingRan(reader.Now());
        return Ok(0);
      }
      var checksumBytes := new byte[8](_ => 0);
      var got := reader.ReadExact(checksumBytes, 0, Alg().Size());
      if got.Err? {
        return Err(if got.error == EndOfFile then UnexpectedEof else Io(got.error));
      }
      var v := ReadBytes(Alg(), checksumBytes[..]);
      assert checksumBytes[..][..Alg().Size()] == checksumBytes[0..Alg().Size()];
      r := Ok(v);
    }

    ghost predicate FieldRead(a: Moment, b: Moment, r: Result<U64, ErrorKind>)
      requires Ran(a, b)
    {
      && Paced(a, b)
      && (r.Err? ==> |Taken(a, b)| < Alg().Size())
      && match Told(a, b)
         case Fault(code) => r == Err(Io(Other(code)))
         case heard =>
           && (if Alg().Size() <= |Shown(a, b)| then r.Ok? else r == Err(UnexpectedEof))
           && (r.Ok? ==> heard == Undisturbed && |Taken(a, b)| == Alg().Size()
                         && r.value == FieldOf(Alg(), Taken(a, b)))
           && (r.Err? && heard == Undisturbed ==> b.pos == |b.bytes|)
    }

    /** The last two steps of either entry point: the payload, then `verify`. */
    method ReadChecked(reader: Reader, buffer: Vec, n: nat, expected: U64) returns (r: Result<Option<nat>, ErrorKind>)
      requires reader.Valid() && buffer.Valid()
      modifies reader.Repr(), buffer, buffer.data
      ensures reader.Kept() && Ran(old(reader.Now()), reader.Now())
      ensures Grown(buffer, Some(n))
      ensures r.Ok? ==> r == Ok(Some(n))
      ensures var a, b := old(reader.Now()), reader.Now();
              var shown := Shown(a, b);
              Deframed(a, b, r, buffer.Contents(), 0,
                       if |shown| < n then Err(UnexpectedEof) else Checked(Alg(), expected, shown[..n]))
    {
      ghost var a := reader.Now();
      var body := ReadPayload(reader, buffer, n);
      if body.Err? {
        return Err(body.error);
      }
      assert buffer.data[..n] == buffer.Contents()[..n] == Shown(a, reader.Now())[..n];
      var verdict := Alg().Verify(expected, buffer.data[..n]);
      r := if verdict.Ok? then Ok(Some(n)) else Err(verdict.error);
    }

    /** The checksum deframer's own `read_and_deframe`: length and checksum field
        as one header, then the bound, then the payload. */
    method ReadMergedHeader(reader: Reader, buffer: Vec)
      returns (r: Result<Option<nat>, ErrorKind>, ghost attempted: Option<nat>)
      requires reader.Valid() && buffer.Valid()
      modifies reader.Repr(), buffer, buffer.data
      ensures reader.Kept() && Ran(old(reader.Now()), reader.Now())
      ensures Grown(buffer, attempted)
      ensures var a, b := old(reader.Now()), reader.Now();
              FrameRead(a, b, r, buffer.Contents(), attempted, Parse(Alg(), maxFrameLen, Shown(a, b)))
    {
      hide Parse, Checked, FieldOf, FromLE, Told, Shown, Ran, Paced, FrameRead, Deframed;
      attempted := None;
      ghost var a := reader.Now();
      var header := new byte[12](_ => 0);
      var head := ReadHeader(reader, header, Header());
      ghost var b := reader.Now();
      if head.Err? || head.value == None {
        r := if head.Err? then Err(head.error) else Ok(None);
        HeaderDecides(a, b, head, Header(), buffer.Contents());
      } else {
        var payloadLen := FromLE(header[..4]);
        assert header[..4] == Taken(a, b)[..4];
        var bound := CheckFrameLen(payloadLen, maxFrameLen);
        if bound.Err? {
          r := Err(bound.error);
          DecidedAtOnce(b, r, buffer.Contents(), 0);
        } else {
          var expected := ReadBytes(Alg(), header[4..Header()]);
          assert header[4..Header()][..Alg().Size()] == Taken(a, b)[4..];
          attempted := Some(payloadLen);
          r := ReadChecked(reader, buffer, payloadLen, expected);
        }
        MergedFrame(a, b, reader.Now(), r, buffer.Contents(), attempted);
      }
    }
  }
}
