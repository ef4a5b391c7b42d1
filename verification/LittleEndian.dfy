/** Fixed-width little-endian integers: the meaning of `to_le_bytes` and
    `from_le_bytes`, and the facts the wire format rests on. */
module LittleEndian {
  import opened Types

  /** The number of values a `w`-byte field can carry. */
  function Pow256(w: nat): (r: nat)
    ensures r > 0
  {
    if w == 0 then 1 else 256 * Pow256(w - 1)
  }

  /** The low `w` bytes of `v`, least significant first. */
  function ToLE(v: nat, w: nat): (s: seq<byte>)
    ensures |s| == w
  {
    if w == 0 then [] else [v % 256] + ToLE(v / 256, w - 1)
  }

  function FromLE(s: seq<byte>): nat {
    if s == [] then 0 else s[0] + 256 * FromLE(s[1..])
  }

  lemma {:induction false} FromLEBound(s: seq<byte>)
    ensures FromLE(s) < Pow256(|s|)
  {
    if s != [] {
      FromLEBound(s[1..]);
    }
  }

  /** A field that was written is read back modulo its width. */
  lemma {:induction false} ReadsBackModuloWidth(v: nat, w: nat)
    ensures FromLE(ToLE(v, w)) == v % Pow256(w)
  {
    if w == 0 {
      DivModUnique(v, 1, v, 0);
    } else {
      var rest := ToLE(v / 256, w - 1);
      assert ToLE(v, w)[1..] == rest;
      ReadsBackModuloWidth(v / 256, w - 1);
      ModSplit(v, Pow256(w - 1));
    }
  }

  lemma ModSplit(v: nat, m: nat)
    requires m > 0
    ensures v % (256 * m) == v % 256 + 256 * ((v / 256) % m)
  {
    var q, r := v / 256 / m, (v / 256) % m;
    assert v / 256 == q * m + r;
    assert v == (256 * m) * q + (256 * r + v % 256);
    assert 256 * r + v % 256 < 256 * m;
    DivModUnique(v, 256 * m, q, 256 * r + v % 256);
  }

  lemma DivModUnique(v: nat, d: nat, q: nat, r: nat)
    requires v == d * q + r && r < d
    ensures v / d == q && v % d == r
  {
    var q', r' := v / d, v % d;
    assert v == d * q' + r';
    if q > q' {
      MulGap(d, q, q');
    } else if q < q' {
      MulGap(d, q', q);
    }
  }

  lemma {:induction false} MulGap(d: nat, a: nat, b: nat)
    requires a > b
    ensures d * a >= d * b + d
  {
    assert d * a == d * (a - 1) + d;
    if a - 1 > b {
      MulGap(d, a - 1, b);
    }
  }

  /** Every byte string is the canonical encoding of the number it denotes. */
  lemma {:induction false} Canonical(s: seq<byte>)
    ensures ToLE(FromLE(s), |s|) == s
  {
    if s != [] {
      Canonical(s[1..]);
      DivModUnique(FromLE(s), 256, FromLE(s[1..]), s[0]);
      assert s == [s[0]] + s[1..];
    }
  }

  lemma {:induction false} SmallReadsBack(v: nat, w: nat)
    requires v < Pow256(w)
    ensures FromLE(ToLE(v, w)) == v
  {
    ReadsBackModuloWidth(v, w);
    DivModUnique(v, Pow256(w), 0, v);
  }

  /** The byte order: byte `i` carries the digit of weight 256^i. */
  lemma {:induction false} ByteOrder(v: nat, w: nat, i: nat)
    requires i < w
    ensures ToLE(v, w)[i] == v / Pow256(i) % 256
  {
    if i > 0 {
      ByteOrder(v / 256, w - 1, i - 1);
      DivTwice(v, Pow256(i - 1));
    } else {
      assert Pow256(0) == 1;
    }
  }

  lemma DivTwice(v: nat, m: nat)
    requires m > 0
    ensures v / 256 / m == v / (256 * m)
  {
    var q, r := v / 256 / m, (v / 256) % m;
    assert v / 256 == q * m + r;
    assert v == (256 * m) * q + (256 * r + v % 256);
    DivModUnique(v, 256 * m, q, 256 * r + v % 256);
  }

  /** The narrow field is the front of the wide one: truncation keeps low bytes. */
  lemma {:induction false} NarrowIsPrefix(v: nat, w: nat, wide: nat)
    requires w <= wide
    ensures ToLE(v, wide)[..w] == ToLE(v, w)
  {
    if w != 0 {
      NarrowIsPrefix(v / 256, w - 1, wide - 1);
      assert ToLE(v, wide)[..w] == [v % 256] + ToLE(v / 256, wide - 1)[..w - 1];
    }
  }

  /** Two values share a `w`-byte field exactly when they agree modulo its width. */
  lemma {:induction false} SameFieldIffCongruent(u: nat, v: nat, w: nat)
    ensures ToLE(u, w) == ToLE(v, w) <==> u % Pow256(w) == v % Pow256(w)
  {
    ReadsBackModuloWidth(u, w);
    ReadsBackModuloWidth(v, w);
    Canonical(ToLE(u, w));
    Canonical(ToLE(v, w));
  }

  function Zeros(n: nat): (s: seq<byte>)
    ensures |s| == n
  {
    seq(n, _ => 0)
  }

  /** High-order zero bytes do not change the value. */
  lemma {:induction false} ZeroPadding(s: seq<byte>, n: nat)
    ensures FromLE(s + Zeros(n)) == FromLE(s)
  {
    if s != [] {
      assert (s + Zeros(n))[1..] == s[1..] + Zeros(n);
      ZeroPadding(s[1..], n);
    } else if n != 0 {
      assert (s + Zeros(n))[1..] == s + Zeros(n - 1);
      ZeroPadding(s, n - 1);
    }
  }

  /** Padding with zeros is the least way to complete a partial field. */
  lemma {:induction false} PaddingIsLeast(s: seq<byte>, t: seq<byte>)
    ensures FromLE(s) <= FromLE(s + t)
  {
    if s != [] {
      assert (s + t)[1..] == s[1..] + t;
      PaddingIsLeast(s[1..], t);
    }
  }
}
