/** `src/checksum.rs`: the width-masked comparison and the `SIZE`-byte field. */
module Checksums {
  import opened Types
  import opened LittleEndian

  type Width = w: nat | w <= 8

  function Pow2(k: nat): (r: nat)
    ensures r > 0
  {
    if k == 0 then 1 else 2 * Pow2(k - 1)
  }

  /** Bitwise AND of two non-negative integers. */
  function BitAnd(x: nat, y: nat): (r: nat)
    ensures r <= x && r <= y
    decreases x
  {
    if x == 0 || y == 0 then 0
    else (x % 2) * (y % 2) + 2 * BitAnd(x / 2, y / 2)
  }

  /** `(1u64 << (8 * size)) - 1`, with the full word special-cased as in the
      source, where the shift by 64 would overflow. */
  function WidthMask(size: Width): U64 {
    if size >= 8 then 0xFFFF_FFFF_FFFF_FFFF
    else
      Pow2Of8(size);
      PowBelowWord(size);
      Pow2(8 * size) - 1
  }

  lemma {:induction false} Pow2Of8(w: nat)
    ensures Pow2(8 * w) == Pow256(w)
  {
    if w != 0 {
      var k := 8 * w;
      assert Pow2(k) == 2 * Pow2(k - 1);
      assert Pow2(k - 1) == 2 * Pow2(k - 2);
      assert Pow2(k - 2) == 2 * Pow2(k - 3);
      assert Pow2(k - 3) == 2 * Pow2(k - 4);
      assert Pow2(k - 4) == 2 * Pow2(k - 5);
      assert Pow2(k - 5) == 2 * Pow2(k - 6);
      assert Pow2(k - 6) == 2 * Pow2(k - 7);
      assert Pow2(k - 7) == 2 * Pow2(k - 8);
      Pow2Of8(w - 1);
    }
  }

  lemma PowersOf256()
    ensures Pow256(1) == 0x100
    ensures Pow256(2) == 0x1_0000
    ensures Pow256(3) == 0x100_0000
    ensures Pow256(4) == 0x1_0000_0000
    ensures Pow256(5) == 0x100_0000_0000
    ensures Pow256(6) == 0x1_0000_0000_0000
    ensures Pow256(7) == 0x100_0000_0000_0000
    ensures Pow256(8) == 0x1_0000_0000_0000_0000
  {
    assert Pow256(0) == 1;
    assert Pow256(1) == 256 * Pow256(0);
    assert Pow256(2) == 256 * Pow256(1);
    assert Pow256(3) == 256 * Pow256(2);
    assert Pow256(4) == 256 * Pow256(3);
    assert Pow256(5) == 256 * Pow256(4);
    assert Pow256(6) == 256 * Pow256(5);
    assert Pow256(7) == 256 * Pow256(6);
    assert Pow256(8) == 256 * Pow256(7);
  }

  lemma PowBelowWord(size: Width)
    ensures Pow256(size) <= 0x1_0000_0000_0000_0000
  {
    PowersOf256();
    assert Pow256(0) == 1;
  }

  /** For every width the mask is one below the number of field values. */
  lemma MaskIsFieldMaximum(size: Width)
    ensures WidthMask(size) == Pow256(size) - 1
  {
    PowersOf256();
    Pow2Of8(size);
  }

  /** Masking with `2^k - 1` is reduction modulo `2^k`. */
  lemma {:induction false} MaskingIsModulo(x: nat, k: nat)
    ensures BitAnd(x, Pow2(k) - 1) == x % Pow2(k)
  {
    hide BitAnd;
    if x == 0 || k == 0 {
      BitAndZero(x, Pow2(k) - 1);
      DivModUnique(x, Pow2(k), if x == 0 then 0 else x, 0);
    } else {
      MaskingIsModulo(x / 2, k - 1);
      DoubledModulo(x, Pow2(k - 1));
      BitAndOdd(x, Pow2(k) - 1);
    }
  }

  lemma BitAndZero(x: nat, y: nat)
    requires x == 0 || y == 0
    ensures BitAnd(x, y) == 0
  {
  }

  lemma BitAndOdd(x: nat, y: nat)
    requires x > 0 && y % 2 == 1
    ensures BitAnd(x, y) == x % 2 + 2 * BitAnd(x / 2, y / 2)
  {
    assert (x % 2) * (y % 2) == x % 2;
  }

  lemma DoubledModulo(x: nat, half: nat)
    requires half > 0
    ensures x % (2 * half) == x % 2 + 2 * ((x / 2) % half)
    ensures (2 * half - 1) / 2 == half - 1 && (2 * half - 1) % 2 == 1
  {
    var q, r := x / 2 / half, (x / 2) % half;
    assert x / 2 == half * q + r;
    assert x == (2 * half) * q + (2 * r + x % 2);
    DivModUnique(x, 2 * half, q, 2 * r + x % 2);
  }

  lemma WidthMasking(x: nat, size: Width)
    ensures BitAnd(x, WidthMask(size)) == x % Pow256(size)
  {
    MaskIsFieldMaximum(size);
    Pow2Of8(size);
    MaskingIsModulo(x, 8 * size);
  }

  /** A checksum strategy. `calculate` is an arbitrary function: nothing is
      assumed of it, not even that its values fit the field. `NoChecksum`
      overrides `verify` in the source, so it is a case of its own. */
  datatype Checksum =
    | NoChecksum
    | Algorithm(width: Width, calculate: seq<byte> -> U64)
  {
    function Size(): Width {
      if NoChecksum? then 0 else width
    }

    function Calculate(payload: seq<byte>): U64 {
      if NoChecksum? then 0 else calculate(payload)
    }

    function Verify(expected: U64, payload: seq<byte>): Result<(), ErrorKind> {
      if NoChecksum? then Ok(())
      else
        var mask := WidthMask(Size());
        var want, got := BitAnd(expected, mask), BitAnd(Calculate(payload), mask);
        if got == want then Ok(()) else Err(ChecksumMismatch(want, got))
    }
  }

  /** What survives of `v` in a `size`-byte field. */
  function Reduced(v: U64, size: Width): U64 {
    ModIsSmaller(v, Pow256(size));
    v % Pow256(size)
  }

  lemma ModIsSmaller(v: nat, m: nat)
    requires m > 0
    ensures 0 <= v % m <= v
  {
    if v < m {
      DivModUnique(v, m, 0, v);
    }
  }

  /** The default comparison accepts exactly the values congruent modulo the
      field, and reports both of them reduced. `NoChecksum` is no exception:
      its override agrees with the default at width 0. */
  lemma VerifyIsCongruence(alg: Checksum, expected: U64, payload: seq<byte>)
    ensures var size := alg.Size();
            alg.Verify(expected, payload)
            == if expected % Pow256(size) == alg.Calculate(payload) % Pow256(size) then Ok(())
               else Err(ChecksumMismatch(Reduced(expected, size), Reduced(alg.Calculate(payload), size)))
  {
    if alg.NoChecksum? {
      assert Pow256(0) == 1;
    } else {
      WidthMasking(expected, alg.Size());
      WidthMasking(alg.Calculate(payload), alg.Size());
    }
  }

  /** The same law on an algorithm's own width and function. */
  lemma AlgorithmVerifies(w: Width, f: seq<byte> -> U64, expected: U64, payload: seq<byte>)
    ensures var r, m := Algorithm(w, f).Verify(expected, payload), Pow256(w);
            && (r.Ok? <==> expected % m == f(payload) % m)
            && (r.Err? ==> && r.error.ChecksumMismatch?
                           && r.error.expected == expected % m && r.error.calculated == f(payload) % m)
    ensures NoChecksum.Verify(expected, payload).Ok?
  {
    VerifyIsCongruence(Algorithm(w, f), expected, payload);
  }

  /** Stages `value` in the eight bytes of `out` from `at`, and returns its wire
      form: the first `Size()` of them, which carry it at the field's width. */
  method WriteBytes(alg: Checksum, value: U64, out: array<byte>, at: nat) returns (wire: seq<byte>)
    requires at + 8 <= out.Length
    modifies out
    ensures out[at..at + 8] == ToLE(value, 8)
    ensures wire == out[at..at + alg.Size()] == ToLE(value, alg.Size())
    ensures forall i :: 0 <= i < out.Length && !(at <= i < at + 8) ==> out[i] == old(out[i])
  {
    var word := ToLE(value, 8);
    forall i | 0 <= i < 8 {
      out[at + i] := word[i];
    }
    NarrowIsPrefix(value, alg.Size(), 8);
    wire := out[at..at + alg.Size()];
    assert out[at..at + 8][..alg.Size()] == wire;
  }

  /** Parses the first `Size()` bytes of a field through a zeroed eight-byte
      scratch array. */
  method ReadBytes(alg: Checksum, bytes: seq<byte>) returns (v: U64)
    requires alg.Size() <= |bytes|
    ensures v == FromLE(bytes[..alg.Size()])
    ensures v < Pow256(alg.Size())
  {
    var size := alg.Size();
    var buf := new byte[8](_ => 0);
    forall i | 0 <= i < size {
      buf[i] := bytes[i];
    }
    assert buf[..] == bytes[..size] + Zeros(8 - size);
    ZeroPadding(bytes[..size], 8 - size);
    FromLEBound(bytes[..size]);
    PowBelowWord(size);
    v := FromLE(buf[..]);
  }

  /** What `write_bytes` puts on the wire, `read_bytes` returns modulo the width. */
  lemma FieldRoundTrip(v: U64, size: Width)
    ensures FromLE(ToLE(v, 8)[..size]) == v % Pow256(size)
    ensures size == 8 ==> FromLE(ToLE(v, 8)[..size]) == v
  {
    hide ToLE, FromLE, Pow256;
    NarrowIsPrefix(v, size, 8);
    ReadsBackModuloWidth(v, size);
    if size == 8 {
      WholeWord(v);
    }
  }

  lemma WholeWord(v: U64)
    ensures FromLE(ToLE(v, 8)) == v
  {
    PowersOf256();
    SmallReadsBack(v, 8);
  }
}
