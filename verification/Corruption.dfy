/** Which corruption and which wrong configuration `src/recover.rs` reports as an
    error, and which it takes for a torn tail: any damage to one frame, and a
    deframer that does not match the writer. */
module Corruption {
  import opened Types
  import opened LittleEndian
  import opened Checksums
  import opened Wire
  import opened Recovery

  /** What reading makes of bytes that hold a complete header: an error beyond the
      bound, torn beyond the end of the input, and otherwise the field stored
      decides between an error and taking the payload and going on. */
  lemma ScanFromHeader(alg: Checksum, max: nat, ps: seq<Payload>, s: seq<byte>)
    requires AllAcceptable(max, ps) && |s| >= HeaderLen(alg)
    ensures var h, n := HeaderLen(alg), FromLE(s[..4]);
            var field, body := FieldOf(alg, s[4..h]), s[h..];
            var r := Scan(alg, max, EncodeAll(alg, ps) + s);
            && (n > max ==> r == ScanOutcome(ps, Some(InvalidFrame(n, max))))
            && (n <= max && |body| < n ==> r == ScanOutcome(ps, Some(UnexpectedEof)))
            && (n <= max && n <= |body| ==>
                  var got := Reduced(alg.Calculate(body[..n]), alg.Size());
                  && (field != got ==> r == ScanOutcome(ps, Some(ChecksumMismatch(field, got))))
                  && (field == got ==>
                        var rest := Scan(alg, max, body[n..]);
                        r == ScanOutcome(ps + [body[..n]] + rest.payloads, rest.stop)))
  {
    var h, n := HeaderLen(alg), FromLE(s[..4]);
    var field, body := FieldOf(alg, s[4..h]), s[h..];
    assert s == s[..h] + body && s[..h][..4] == s[..4] && s[..h][4..] == s[4..h];
    AfterHeader(alg, max, s[..h], body);
    if n <= max && n <= |body| {
      FieldVerdict(alg, s[4..h], body[..n]);
    }
    StepOfScan(alg, max, ps, s);
  }

  /** The field stored is compared with the checksum found, at the field's width. */
  lemma FieldVerdict(alg: Checksum, stored: seq<byte>, x: Payload)
    requires |stored| == alg.Size()
    ensures var field, got := FieldOf(alg, stored), Reduced(alg.Calculate(x), alg.Size());
            Checked(alg, field, x) == if field == got then Ok(Some(|x|)) else Err(ChecksumMismatch(field, got))
  {
    FromLEBound(stored);
    DivModUnique(FromLE(stored), Pow256(alg.Size()), 0, FromLE(stored));
    VerifyIsCongruence(alg, FieldOf(alg, stored), x);
  }

  lemma StepOfScan(alg: Checksum, max: nat, ps: seq<Payload>, s: seq<byte>)
    requires AllAcceptable(max, ps) && s != []
    ensures var verdict, r := Parse(alg, max, s), Scan(alg, max, EncodeAll(alg, ps) + s);
            && (verdict.Err? ==> r == ScanOutcome(ps, Some(verdict.error)))
            && (verdict.Ok? ==>
                  && verdict.value.Some? && HeaderLen(alg) + verdict.value.value <= |s|
                  && var n, t := verdict.value.value, s[HeaderLen(alg)..];
                     var rest := Scan(alg, max, t[n..]);
                     r == ScanOutcome(ps + [t[..n]] + rest.payloads, rest.stop))
  {
    hide Parse, Scan, EncodeAll, EncodeFrame;
    CleanIffEmpty(alg, max, s);
    var verdict, h := Parse(alg, max, s), HeaderLen(alg);
    if verdict.Err? {
      ScanOfSplit(alg, max, ps, s, Some(verdict.error));
    } else {
      var n := verdict.value.value;
      ParsedIsCanonical(alg, max, s, n);
      var x, t := s[h..][..n], s[h..][n..];
      assert x == s[h..h + n] && s == s[..h + n] + t;
      ScanAppends(alg, max, ps, s);
      ScanStep(alg, max, x, t);
      ConcatAssociates(ps, [x], Scan(alg, max, t).payloads);
    }
  }

  //--- Damage to one frame ---

  function Patched(s: seq<byte>, at: nat, data: seq<byte>): seq<byte>
    requires at + |data| <= |s|
  {
    s[..at] + data + s[at + |data|..]
  }

  lemma PatchMiddle(a: seq<byte>, b: seq<byte>, d: seq<byte>, c: seq<byte>)
    requires |b| == |d|
    ensures Patched(a + (b + c), |a|, d) == a + (d + c)
  {
  }

  /** The journal of `ps` with frame `i` overwritten by `g`. */
  function Damaged(alg: Checksum, ps: seq<Payload>, i: nat, g: seq<byte>): seq<byte>
    requires i < |ps| && |g| == FrameLen(alg, ps[i])
  {
    SplitAround(alg, ps, i);
    Patched(EncodeAll(alg, ps), Boundary(alg, ps, i), g)
  }

  /** The bytes after the header of the damaged frame. */
  function DamagedBody(alg: Checksum, ps: seq<Payload>, i: nat, g: seq<byte>): (body: seq<byte>)
    requires i < |ps| && |g| == FrameLen(alg, ps[i])
    ensures |body| == |ps[i]| + |EncodeAll(alg, ps[i + 1..])|
  {
    g[HeaderLen(alg)..] + EncodeAll(alg, ps[i + 1..])
  }

  lemma DamagedSplits(alg: Checksum, ps: seq<Payload>, i: nat, g: seq<byte>)
    requires i < |ps| && |g| == FrameLen(alg, ps[i])
    ensures Damaged(alg, ps, i, g) == EncodeAll(alg, ps[..i]) + (g + EncodeAll(alg, ps[i + 1..]))
  {
    SplitAround(alg, ps, i);
    PatchMiddle(EncodeAll(alg, ps[..i]), EncodeFrame(alg, ps[i]), g, EncodeAll(alg, ps[i + 1..]));
  }

  lemma HeaderOfDamage(alg: Checksum, ps: seq<Payload>, i: nat, g: seq<byte>)
    requires i < |ps| && |g| == FrameLen(alg, ps[i])
    ensures var h, s := HeaderLen(alg), g + EncodeAll(alg, ps[i + 1..]);
            s[..4] == g[..4] && s[4..h] == g[4..h] && s[h..] == DamagedBody(alg, ps, i, g)
  {
  }

  /** Any damage to one frame of an in-bound journal, exactly. It is a torn tail at
      that frame if and only if the length it now declares is within the bound
      and beyond the end of the file; beyond the bound it is an error; and
      otherwise the field stored decides between an error and misreading on. */
  lemma DamageVerdict(alg: Checksum, max: nat, ps: seq<Payload>, i: nat, g: seq<byte>)
    requires AllAcceptable(max, ps) && i < |ps| && |g| == FrameLen(alg, ps[i])
    ensures var s, body := Damaged(alg, ps, i, g), DamagedBody(alg, ps, i, g);
            var r, n, field := Recover(alg, max, s), FromLE(g[..4]), FieldOf(alg, g[4..HeaderLen(alg)]);
            && (r == Ok(RecoveryReport(i, Boundary(alg, ps, i), TornTail)) <==> |body| < n <= max)
            && (n > max ==> r == Err(InvalidFrame(n, max)))
            && (n <= max && n <= |body| ==>
                  var got := Reduced(alg.Calculate(body[..n]), alg.Size());
                  && (field != got ==> r == Err(ChecksumMismatch(field, got)))
                  && (field == got ==>
                        var rest := Scan(alg, max, body[n..]);
                        Scan(alg, max, s) == ScanOutcome(ps[..i] + [body[..n]] + rest.payloads, rest.stop)))
  {
    var h, c := HeaderLen(alg), EncodeAll(alg, ps[i + 1..]);
    hide Scan, EncodeAll, EncodeFrame, ToLE, Reduced, Damaged, DamagedBody, Parse;
    DamagedSplits(alg, ps, i, g);
    ScanFromHeader(alg, max, ps[..i], g + c);
    HeaderOfDamage(alg, ps, i, g);
  }

  /** Truncation anywhere: also when the field stored agrees with the payload the
      new length declares, and what follows that ends torn when read from there. */
  lemma DamageTruncatesIff(alg: Checksum, max: nat, ps: seq<Payload>, i: nat, g: seq<byte>)
    requires AllAcceptable(max, ps) && i < |ps| && |g| == FrameLen(alg, ps[i])
    ensures var r, body := Recover(alg, max, Damaged(alg, ps, i, g)), DamagedBody(alg, ps, i, g);
            var n, field := FromLE(g[..4]), FieldOf(alg, g[4..HeaderLen(alg)]);
            r.Ok? && r.value.end == TornTail
            <==> || |body| < n <= max
                 || (&& n <= max && n <= |body|
                     && field == Reduced(alg.Calculate(body[..n]), alg.Size())
                     && Scan(alg, max, body[n..]).stop == Some(UnexpectedEof))
  {
    hide Scan, EncodeAll, Reduced, Damaged, DamagedBody, FromLE;
    DamageVerdict(alg, max, ps, i, g);
  }

  ghost predicate DamageNeverTruncates(alg: Checksum, max: nat, ps: seq<Payload>, i: nat)
    requires i < |ps|
  {
    forall g :: |g| == FrameLen(alg, ps[i]) ==>
      Recover(alg, max, Damaged(alg, ps, i, g)) != Ok(RecoveryReport(i, Boundary(alg, ps, i), TornTail))
  }

  /** Exactly when no damage to frame `i` can authorise truncating it: the bound,
      or the greatest length a header can declare, is no more than the bytes
      from its payload to the end of the file. */
  lemma DamageNeverTruncatesIff(alg: Checksum, max: nat, ps: seq<Payload>, i: nat)
    requires AllAcceptable(max, ps) && i < |ps|
    ensures var remaining := |ps[i]| + |EncodeAll(alg, ps[i + 1..])|;
            DamageNeverTruncates(alg, max, ps, i) <==> max <= remaining || U32_MAX <= remaining
  {
    hide Recover, Damaged, EncodeAll;
    var h, remaining := HeaderLen(alg), |ps[i]| + |EncodeAll(alg, ps[i + 1..])|;
    forall g | |g| == FrameLen(alg, ps[i])
      ensures FromLE(g[..4]) <= U32_MAX
      ensures Recover(alg, max, Damaged(alg, ps, i, g)) == Ok(RecoveryReport(i, Boundary(alg, ps, i), TornTail))
         <==> remaining < FromLE(g[..4]) <= max
    {
      LengthIsCanonical(g[..4]);
      DamageVerdict(alg, max, ps, i, g);
    }
    if remaining < max && remaining < U32_MAX {
      var g := ToLE(remaining + 1, 4) + EncodeFrame(alg, ps[i])[4..];
      assert g[..4] == ToLE(remaining + 1, 4);
      PowersOf256();
      SmallReadsBack(remaining + 1, 4);
    }
  }

  /** Damage to the length field alone. */
  lemma LengthDamageTruncatesIff(alg: Checksum, max: nat, ps: seq<Payload>, i: nat, n: nat)
    requires AllAcceptable(max, ps) && i < |ps| && n <= U32_MAX
    ensures Recover(alg, max, Damaged(alg, ps, i, ToLE(n, 4) + EncodeFrame(alg, ps[i])[4..]))
            == Ok(RecoveryReport(i, Boundary(alg, ps, i), TornTail))
       <==> |ps[i]| + |EncodeAll(alg, ps[i + 1..])| < n <= max
  {
    hide Recover, Damaged, EncodeAll;
    var g := ToLE(n, 4) + EncodeFrame(alg, ps[i])[4..];
    assert g[..4] == ToLE(n, 4);
    PowersOf256();
    SmallReadsBack(n, 4);
    DamageVerdict(alg, max, ps, i, g);
  }

  /** The input: two intact frames, under any checksum, of which one length bit
      flip takes both, though nothing of the file is missing. */
  lemma LengthDamageInput(alg: Checksum)
    ensures var ps := [[7], [7]];
            var s := Damaged(alg, ps, 0, ToLE(0x101, 4) + EncodeFrame(alg, ps[0])[4..]);
            && |s| == |EncodeAll(alg, ps)| == 2 * FrameLen(alg, [7])
            && Recover(alg, 0x200, s) == Ok(RecoveryReport(0, 0, TornTail))
  {
    hide Recover, Damaged;
    var ps: seq<Payload> := [[7], [7]];
    var g := ToLE(0x101, 4) + EncodeFrame(alg, ps[0])[4..];
    OffsetIsSum(alg, ps);
    OffsetIsSum(alg, ps[1..]);
    DamagedSplits(alg, ps, 0, g);
    LengthDamageTruncatesIff(alg, 0x200, ps, 0, 0x101);
  }

  /** Damage to a payload never authorises truncation. Recovery fails with both
      checksums, reduced to the field, exactly when they differ there, even when
      valid frames follow; if they collide the scan is otherwise unchanged. */
  lemma PayloadDamageIsAnError(alg: Checksum, max: nat, ps: seq<Payload>, i: nat, q: Payload)
    requires AllAcceptable(max, ps) && i < |ps| && |q| == |ps[i]|
    ensures var want, got := Reduced(alg.Calculate(ps[i]), alg.Size()), Reduced(alg.Calculate(q), alg.Size());
            var s := Damaged(alg, ps, i, EncodeFrame(alg, ps[i])[..HeaderLen(alg)] + q);
            && (want != got ==> Recover(alg, max, s) == Err(ChecksumMismatch(want, got)))
            && (want == got ==>
                  && Scan(alg, max, s) == ScanOutcome(ps[i := q], None)
                  && Recover(alg, max, s) == Recover(alg, max, EncodeAll(alg, ps)))
  {
    var c := EncodeAll(alg, ps[i + 1..]);
    var g := EncodeFrame(alg, ps[i])[..HeaderLen(alg)] + q;
    assert Acceptable(max, ps[i]);
    HeaderFields(alg, ps[i], g);
    DamageVerdict(alg, max, ps, i, g);
    assert DamagedBody(alg, ps, i, g) == q + c && (q + c)[..|q|] == q && (q + c)[|q|..] == c;
    hide Scan, EncodeAll, EncodeFrame, Reduced, Damaged, DamagedBody, Recover;
    CollisionKeepsReport(alg, max, ps, i, q, Damaged(alg, ps, i, g));
  }

  lemma CollisionKeepsReport(alg: Checksum, max: nat, ps: seq<Payload>, i: nat, q: Payload, s: seq<byte>)
    requires AllAcceptable(max, ps) && i < |ps| && |q| == |ps[i]|
    ensures var rest := Scan(alg, max, EncodeAll(alg, ps[i + 1..]));
            Scan(alg, max, s) == ScanOutcome(ps[..i] + [q] + rest.payloads, rest.stop) ==>
              && Scan(alg, max, s) == ScanOutcome(ps[i := q], None)
              && Recover(alg, max, s) == Recover(alg, max, EncodeAll(alg, ps))
  {
    hide Scan, EncodeAll;
    assert forall x :: x in ps[i + 1..] ==> x in ps;
    StreamRoundTrip(alg, max, ps[i + 1..]);
    assert ps[..i] + [q] + ps[i + 1..] == ps[i := q];
    StreamRoundTrip(alg, max, ps);
    OffsetIsSum(alg, ps);
    OffsetIsSum(alg, ps[i := q]);
    TotalUnchanged(ps, i, q);
  }

  /** On an algorithm's own width and function: the damage is the mismatch, with the
      two remainders, if and only if they differ. */
  lemma PayloadDamageDetectedIff(w: Width, f: seq<byte> -> U64, max: nat, ps: seq<Payload>, i: nat, q: Payload)
    requires AllAcceptable(max, ps) && i < |ps| && |q| == |ps[i]|
    ensures var alg, m := Algorithm(w, f), Pow256(w);
            var r := Recover(alg, max, Damaged(alg, ps, i, ToLE(|q|, 4) + ToLE(f(ps[i]), w) + q));
            && (r.Err? <==> f(ps[i]) % m != f(q) % m)
            && (r.Err? ==> && r.error.ChecksumMismatch?
                           && r.error.expected == f(ps[i]) % m && r.error.calculated == f(q) % m)
  {
    var alg := Algorithm(w, f);
    FrameOfAlgorithm(w, f, ps[i]);
    assert EncodeFrame(alg, ps[i])[..4 + w] == ToLE(|q|, 4) + ToLE(f(ps[i]), w);
    hide Recover, Damaged, EncodeAll, EncodeFrame, Scan, ToLE;
    PayloadDamageIsAnError(alg, max, ps, i, q);
    JournalRecovers(alg, max, ps);
  }

  lemma JournalRecovers(alg: Checksum, max: nat, ps: seq<Payload>)
    requires AllAcceptable(max, ps)
    ensures Recover(alg, max, EncodeAll(alg, ps)).Ok?
  {
    hide EncodeAll, Scan;
    StreamRoundTrip(alg, max, ps);
  }

  /** What the header of `p`'s frame declares and stores. */
  lemma HeaderFields(alg: Checksum, p: Payload, g: seq<byte>)
    requires Writable(p) && |g| >= HeaderLen(alg)
    ensures g[..4] == EncodeFrame(alg, p)[..4] ==> FromLE(g[..4]) == |p|
    ensures g[4..HeaderLen(alg)] == EncodeFrame(alg, p)[4..HeaderLen(alg)] ==>
              FieldOf(alg, g[4..HeaderLen(alg)]) == Reduced(alg.Calculate(p), alg.Size())
  {
    FrameFields(alg, p, []);
    assert EncodeFrame(alg, p) + [] == EncodeFrame(alg, p);
    LengthFieldReadsBack(p);
    ReadsBackModuloWidth(alg.Calculate(p), alg.Size());
  }

  lemma {:induction false} TotalUnchanged(ps: seq<Payload>, i: nat, q: Payload)
    requires i < |ps| && |q| == |ps[i]|
    ensures TotalPayload(ps[i := q]) == TotalPayload(ps)
  {
    if i == 0 {
      assert ps[i := q][1..] == ps[1..];
    } else {
      assert ps[i := q][1..] == ps[1..][i - 1 := q];
      TotalUnchanged(ps[1..], i - 1, q);
    }
  }

  /** Damage to the checksum field never authorises truncation either: any other
      value is an error. */
  lemma FieldDamageIsAnError(alg: Checksum, max: nat, ps: seq<Payload>, i: nat, field: seq<byte>)
    requires AllAcceptable(max, ps) && i < |ps|
    requires |field| == alg.Size() && field != ToLE(alg.Calculate(ps[i]), alg.Size())
    ensures Recover(alg, max, Damaged(alg, ps, i, ToLE(|ps[i]|, 4) + field + ps[i]))
         == Err(ChecksumMismatch(FieldOf(alg, field), Reduced(alg.Calculate(ps[i]), alg.Size())))
  {
    var p, h, c := ps[i], HeaderLen(alg), EncodeAll(alg, ps[i + 1..]);
    var g := ToLE(|p|, 4) + field + p;
    assert g[..4] == ToLE(|p|, 4) && g[4..h] == field && g[h..] == p;
    assert Acceptable(max, p);
    LengthFieldReadsBack(p);
    Canonical(field);
    ReadsBackModuloWidth(alg.Calculate(p), alg.Size());
    Canonical(ToLE(alg.Calculate(p), alg.Size()));
    DamageVerdict(alg, max, ps, i, g);
    assert (p + c)[..|p|] == p;
  }

  //--- A deframer that does not match the writer ---

  /** A checksum deframer over a journal of plain frames, exactly: it authorises
      truncating the whole file if and only if fewer bytes follow the first frame
      than its field is wide; otherwise the bytes it takes for a field decide
      between an error and misreading on. */
  lemma WrongConfigurationVerdict(alg: Checksum, max: nat, ps: seq<Payload>)
    requires alg.Size() > 0 && AllAcceptable(max, ps) && ps != []
    ensures var w, n, s, after := alg.Size(), |ps[0]|, EncodeAll(NoChecksum, ps), EncodeAll(NoChecksum, ps[1..]);
            var body, r := ps[0] + after, Recover(alg, max, s);
            && (r == Ok(RecoveryReport(0, 0, TornTail)) <==> |after| < w)
            && (|after| >= w ==>
                  var field, got := FieldOf(alg, body[..w]), Reduced(alg.Calculate(body[w..w + n]), w);
                  && (field != got ==> r == Err(ChecksumMismatch(field, got)))
                  && (field == got ==>
                        var rest := Scan(alg, max, body[w + n..]);
                        Scan(alg, max, s) == ScanOutcome([body[w..w + n]] + rest.payloads, rest.stop)))
  {
    hide Scan, Reduced, EncodeAll, EncodeFrame, ToLE, FromLE, Parse;
    var w, h, n, s := alg.Size(), HeaderLen(alg), |ps[0]|, EncodeAll(NoChecksum, ps);
    var after := EncodeAll(NoChecksum, ps[1..]);
    FrontOfJournal(NoChecksum, max, ps);
    assert Acceptable(max, ps[0]) && s[4..] == ps[0] + after;
    NothingBefore(alg, s);
    if |s| < h {
      BeforeHeader(alg, max, s);
      ScanOfSplit(alg, max, [], s, Some(UnexpectedEof));
    } else {
      ScanFromHeader(alg, max, [], s);
      assert s[4..h] == s[4..][..w] && s[h..] == s[4..][w..];
      if |after| >= w {
        assert s[4..][w..][..n] == s[4..][w..w + n] && s[4..][w..][n..] == s[4..][w + n..];
      }
    }
  }

  lemma NothingBefore(alg: Checksum, s: seq<byte>)
    ensures EncodeAll(alg, []) + s == s && |EncodeAll(alg, [])| == 0
  {
  }

  lemma EmptyField(alg: Checksum, field: seq<byte>, x: Payload)
    requires alg.Size() == 0 && field == []
    ensures FieldOf(alg, field) == 0 == Reduced(alg.Calculate(x), 0)
  {
    assert Pow256(0) == 1;
  }

  lemma TakeFront<T>(a: seq<T>, b: seq<T>, c: seq<T>, d: seq<T>)
    ensures (a + b + c + d)[..|a|] == a && (a + b + c + d)[|a|..] == b + c + d
  {
  }

  /** A journal begins with its first payload's length, field and bytes. */
  lemma FrontOfJournal(alg: Checksum, max: nat, ps: seq<Payload>)
    requires AllAcceptable(max, ps) && ps != []
    ensures var s := EncodeAll(alg, ps);
            && |s| >= 4 && FromLE(s[..4]) == |ps[0]|
            && s[4..] == ToLE(alg.Calculate(ps[0]), alg.Size()) + ps[0] + EncodeAll(alg, ps[1..])
  {
    hide ToLE, FromLE;
    var p := ps[0];
    assert Acceptable(max, p);
    LengthFieldReadsBack(p);
    TakeFront(ToLE(|p|, 4), ToLE(alg.Calculate(p), alg.Size()), p, EncodeAll(alg, ps[1..]));
  }

  /** The input: any journal of a single plain frame, under any deframer with a
      checksum field. */
  lemma SinglePlainFrameIsTruncated(alg: Checksum, max: nat, p: Payload)
    requires alg.Size() > 0 && Acceptable(max, p)
    ensures Recover(alg, max, EncodeAll(NoChecksum, [p])) == Ok(RecoveryReport(0, 0, TornTail))
  {
    hide Recover;
    WrongConfigurationVerdict(alg, max, [p]);
  }

  /** The other direction is not even noticed: a plain deframer takes a frame of
      the right length whose first bytes are the checksum field, and under a field
      of less than four bytes truncates the end of the last payload. */
  lemma PlainMisreadsChecksummed(alg: Checksum, max: nat, ps: seq<Payload>)
    requires AllAcceptable(max, ps) && ps != []
    ensures var n, body := |ps[0]|, EncodeAll(alg, ps)[4..];
            var rest := Scan(NoChecksum, max, body[n..]);
            && body[..n] == (ToLE(alg.Calculate(ps[0]), alg.Size()) + ps[0])[..n]
            && Scan(NoChecksum, max, EncodeAll(alg, ps)) == ScanOutcome([body[..n]] + rest.payloads, rest.stop)
    ensures |ps| == 1 && 0 < alg.Size() < 4 ==>
              Recover(NoChecksum, max, EncodeAll(alg, ps)) == Ok(RecoveryReport(1, 4 + |ps[0]|, TornTail))
  {
    hide Scan, EncodeAll, EncodeFrame, ToLE, FromLE, Parse;
    var n, s := |ps[0]|, EncodeAll(alg, ps);
    FrontOfJournal(alg, max, ps);
    assert Acceptable(max, ps[0]);
    NothingBefore(NoChecksum, s);
    ScanFromHeader(NoChecksum, max, [], s);
    assert s[4..][..n] == (ToLE(alg.Calculate(ps[0]), alg.Size()) + ps[0])[..n];
    EmptyField(NoChecksum, s[4..4], s[4..][..n]);
    if |ps| == 1 && 0 < alg.Size() < 4 {
      NothingBefore(alg, ps[0]);
      assert ps[1..] == [];
      BeforeHeader(NoChecksum, max, s[4..][n..]);
      ScanOfSplit(NoChecksum, max, [], s[4..][n..], Some(UnexpectedEof));
      NothingBefore(NoChecksum, s[4..][n..]);
      OffsetIsSum(NoChecksum, [s[4..][..n]]);
      assert [s[4..][..n]] + [] == [s[4..][..n]];
    }
  }
}
