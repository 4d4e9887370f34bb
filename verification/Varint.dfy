/**
 QUIC variable-length integers (section 16 of RFC 9000): the two high bits of
 the first byte give the length 1, 2, 4 or 8; the remaining bits are the value,
 most significant byte first.
 */
module Varint {
  import opened Bytes

  const LIMIT: u64 := 0x4000_0000_0000_0000

  function Len(v: u64): (n: nat)
    ensures n in {1, 2, 4, 8}
  {
    if v <= 63 then 1
    else if v <= 16383 then 2
    else if v <= 1_073_741_823 then 4
    else 8
  }

  // `(v >> 8k) as u8` for k = n-1 down to 0.
  function LowBytes(v: nat, n: nat): (s: seq<byte>)
    ensures |s| == n
  {
    if n == 0 then [] else LowBytes(v / 256, n - 1) + [v % 256]
  }

  // The two-bit length prefix of an encoding of `n` bytes.
  function Prefix(n: nat): (p: byte)
    requires n in {1, 2, 4, 8}
  {
    if n == 1 then 0 else if n == 2 then 1 else if n == 4 then 2 else 3
  }

  // `x | prefix << 6`.  A value that selects prefix 1 or 2 leaves the two high
  // bits of `x` clear, and prefix 3 sets both whatever they were, so the bitwise
  // or replaces the two high bits.
  function Tagged(x: byte, prefix: byte): (r: byte)
    requires prefix < 4
  {
    prefix * 64 + x % 64
  }

  // The bytes of `v` as `put_varint` and `put_varint_slice` lay them out.
  function Encode(v: u64): (s: seq<byte>)
    ensures |s| == Len(v)
  {
    var raw := LowBytes(v, Len(v));
    [Tagged(raw[0], Prefix(Len(v)))] + raw[1..]
  }

  // `1 << (first >> 6)`
  function DeclaredLen(first: byte): (n: nat)
    ensures n in {1, 2, 4, 8}
  {
    if first < 64 then 1 else if first < 128 then 2 else if first < 192 then 4 else 8
  }

  // The value of `s` read as further base-256 digits after `acc`.
  function Digits(acc: nat, s: seq<byte>): (r: nat)
  {
    if s == [] then acc else Digits(acc, s[..|s| - 1]) * 256 + s[|s| - 1]
  }

  function Decode(buf: seq<byte>): (r: Option<(nat, nat)>)
  {
    if buf == [] then None
    else
      var n := DeclaredLen(buf[0]);
      if |buf| < n then None else Some((Digits(buf[0] % 64, buf[1..n]), n))
  }

  // ---------- buffers ----------

  /** A growable byte buffer. */
  class BytesMut {
    var data: seq<byte>

    constructor ()
      ensures data == []
    {
      data := [];
    }

    method PutU8(b: byte)
      modifies this
      ensures data == old(data) + [b]
    {
      data := data + [b];
    }
  }

  lemma LowBytes2(v: nat)
    ensures LowBytes(v, 2) == [v / 0x100 % 0x100, v % 0x100]
  {
    assert LowBytes(v / 256, 1) == [v / 256 % 256];
  }

  lemma LowBytes4(v: nat)
    ensures LowBytes(v, 4) == [v / 0x100_0000 % 0x100, v / 0x1_0000 % 0x100, v / 0x100 % 0x100, v % 0x100]
  {
    LowBytes2(v / 256 / 256);
    assert LowBytes(v / 256, 3) == LowBytes(v / 256 / 256, 2) + [v / 256 % 256];
  }

  lemma LowBytes8(v: nat)
    ensures LowBytes(v, 8) ==
      [v / 0x100_0000_0000_0000 % 0x100, v / 0x1_0000_0000_0000 % 0x100,
       v / 0x100_0000_0000 % 0x100, v / 0x1_0000_0000 % 0x100,
       v / 0x100_0000 % 0x100, v / 0x1_0000 % 0x100, v / 0x100 % 0x100, v % 0x100]
  {
    Pow256Values();
    LowBytesSplit(v, 8);
    LowBytesSplit(v, 7);
    LowBytesSplit(v, 6);
    LowBytesSplit(v, 5);
    LowBytes4(v);
  }

  // The bytes each branch of `put_varint` and `put_varint_slice` writes, shift by shift.
  function Written(v: u64): (s: seq<byte>) {
    if v <= 63 then [v]
    else if v <= 16383 then [Tagged(v / 0x100 % 0x100, 1), v % 0x100]
    else if v <= 1_073_741_823 then
      [Tagged(v / 0x100_0000 % 0x100, 2), v / 0x1_0000 % 0x100, v / 0x100 % 0x100, v % 0x100]
    else
      [Tagged(v / 0x100_0000_0000_0000 % 0x100, 3), v / 0x1_0000_0000_0000 % 0x100,
       v / 0x100_0000_0000 % 0x100, v / 0x1_0000_0000 % 0x100,
       v / 0x100_0000 % 0x100, v / 0x1_0000 % 0x100, v / 0x100 % 0x100, v % 0x100]
  }

  lemma WrittenIsEncode(v: u64)
    ensures Written(v) == Encode(v)
  {
    if v <= 63 {
      assert LowBytes(v, 1) == [v];
    } else if v <= 16383 {
      LowBytes2(v);
    } else if v <= 1_073_741_823 {
      LowBytes4(v);
    } else {
      LowBytes8(v);
    }
  }

  method Put(buf: BytesMut, v: u64)
    modifies buf
    ensures buf.data == old(buf.data) + Encode(v)
  {
    WrittenIsEncode(v);
    ghost var e := Encode(v);
    if v <= 63 {
      buf.PutU8(v);
    } else if v <= 16383 {
      buf.PutU8(Tagged(v / 0x100 % 0x100, 1));
      buf.PutU8(v % 0x100);
    } else if v <= 1_073_741_823 {
      buf.PutU8(Tagged(v / 0x100_0000 % 0x100, 2));
      buf.PutU8(v / 0x1_0000 % 0x100);
      buf.PutU8(v / 0x100 % 0x100);
      buf.PutU8(v % 0x100);
    } else {
      buf.PutU8(Tagged(v / 0x100_0000_0000_0000 % 0x100, 3));
      buf.PutU8(v / 0x1_0000_0000_0000 % 0x100);
      buf.PutU8(v / 0x100_0000_0000 % 0x100);
      buf.PutU8(v / 0x1_0000_0000 % 0x100);
      assert buf.data == old(buf.data) + e[..4];
      buf.PutU8(v / 0x100_0000 % 0x100);
      buf.PutU8(v / 0x1_0000 % 0x100);
      buf.PutU8(v / 0x100 % 0x100);
      buf.PutU8(v % 0x100);
    }
  }

  // Two four-byte writes in a row are one eight-byte write.
  lemma TwoWrites(was: seq<byte>, at: nat, x: seq<byte>, y: seq<byte>)
    requires at + 8 <= |was| && |x| == |y| == 4
    ensures var half := was[..at] + x + was[at + 4..];
            half[..at + 4] + y + half[at + 8..] == was[..at] + (x + y) + was[at + 8..]
  {
  }

  method PutFour(buf: array<byte>, at: nat, a: byte, b: byte, c: byte, d: byte)
    requires at + 4 <= buf.Length
    modifies buf
    ensures buf[..] == old(buf[..at]) + [a, b, c, d] + old(buf[at + 4..])
  {
    buf[at] := a;
    buf[at + 1] := b;
    buf[at + 2] := c;
    buf[at + 3] := d;
  }

  /** Writes the varint at offset `at` of `buf` (the front of the slice `buf[at..]`). */
  method PutSlice(buf: array<byte>, at: nat, v: u64) returns (n: nat)
    requires at + Len(v) <= buf.Length
    modifies buf
    ensures n == Len(v)
    ensures buf[..] == old(buf[..at]) + Encode(v) + old(buf[at + n..])
  {
    WrittenIsEncode(v);
    if v <= 63 {
      buf[at] := v;
      n := 1;
    } else if v <= 16383 {
      buf[at] := Tagged(v / 0x100 % 0x100, 1);
      buf[at + 1] := v % 0x100;
      n := 2;
    } else if v <= 1_073_741_823 {
      PutFour(buf, at, Tagged(v / 0x100_0000 % 0x100, 2), v / 0x1_0000 % 0x100, v / 0x100 % 0x100, v % 0x100);
      n := 4;
    } else {
      ghost var was := buf[..];
      PutFour(buf, at, Tagged(v / 0x100_0000_0000_0000 % 0x100, 3), v / 0x1_0000_0000_0000 % 0x100,
              v / 0x100_0000_0000 % 0x100, v / 0x1_0000_0000 % 0x100);
      PutFour(buf, at + 4, v / 0x100_0000 % 0x100, v / 0x1_0000 % 0x100, v / 0x100 % 0x100, v % 0x100);
      ghost var e := Written(v);
      TwoWrites(was, at, e[..4], e[4..]);
      assert e == e[..4] + e[4..];
      n := 8;
    }
  }

  method Get(buf: seq<byte>) returns (r: Option<(nat, nat)>)
    ensures r == Decode(buf)
  {
    if |buf| == 0 {
      return None;
    }
    var first := buf[0];
    var len := DeclaredLen(first);
    if |buf| < len {
      return None;
    }
    var val: nat := first % 64;
    for i := 1 to len
      invariant val == Digits(first % 64, buf[1..i])
    {
      val := val * 256 + buf[i];
      assert buf[1..i + 1][..i - 1] == buf[1..i];
    }
    r := Some((val, len));
  }

  // ---------- coherence ----------

  function Pow256(n: nat): (p: nat)
    ensures p >= 1
  {
    if n == 0 then 1 else 256 * Pow256(n - 1)
  }

  // Reading back the low `n` bytes of `v` under the digits of `acc`.
  lemma {:induction false} DigitsOfLowBytes(acc: nat, v: nat, n: nat)
    ensures Digits(acc, LowBytes(v, n)) == acc * Pow256(n) + v % Pow256(n)
  {
    if n > 0 {
      var s := LowBytes(v, n);
      assert s[..n - 1] == LowBytes(v / 256, n - 1);
      DigitsOfLowBytes(acc, v / 256, n - 1);
      var p := Pow256(n - 1);
      SplitLowByte(v, p);
      ScaleDigits(acc, p, v / 256 % p, v % 256);
    }
  }

  lemma ScaleDigits(acc: nat, p: nat, d: nat, r: nat)
    ensures (acc * p + d) * 256 + r == acc * (256 * p) + (d * 256 + r)
  {
  }

  lemma SplitLowByte(v: nat, p: nat)
    requires p >= 1
    ensures v % (256 * p) == v / 256 % p * 256 + v % 256
  {
    var q, d := v / 256 / p, v / 256 % p;
    assert v / 256 == q * p + d;
    var r := d * 256 + v % 256;
    assert v == (256 * p) * q + r by {
      assert 256 * (q * p) == (256 * p) * q;
    }
    assert r < 256 * p;
    ModUnique(v, 256 * p, q, r);
  }

  lemma ModUnique(v: nat, m: nat, q: nat, r: nat)
    requires 0 <= r < m && v == m * q + r
    ensures v % m == r
  {
    var k := v / m - q;
    assert m * k == r - v % m by {
      assert v == m * (v / m) + v % m;
      assert m * (v / m) - m * q == m * k;
    }
    assert k >= 1 ==> m * k >= m;
    assert k <= -1 ==> m * k <= m * -1;
  }

  lemma Pow256Values()
    ensures Pow256(0) == 1 && Pow256(1) == 0x100 && Pow256(2) == 0x1_0000 && Pow256(3) == 0x100_0000
    ensures Pow256(4) == 0x1_0000_0000 && Pow256(5) == 0x100_0000_0000
    ensures Pow256(6) == 0x1_0000_0000_0000 && Pow256(7) == 0x100_0000_0000_0000
  {
  }

  // Everything of `LowBytes(v, n)` after the first byte.
  lemma {:induction false} LowBytesSplit(v: nat, n: nat)
    requires n >= 1
    ensures LowBytes(v, n) == [v / Pow256(n - 1) % 256] + LowBytes(v, n - 1)
  {
    if n == 1 {
      assert LowBytes(v, 1) == [v % 256];
    } else {
      LowBytesSplit(v / 256, n - 1);
      var p := Pow256(n - 2);
      assert v / 256 / p == v / (256 * p) by {
        DivDiv(v, p);
      }
    }
  }

  lemma DivDiv(v: nat, p: nat)
    requires p >= 1
    ensures v / 256 / p == v / (256 * p)
  {
    SplitLowByte(v, p);
    var q := v / 256 / p;
    assert v / 256 == q * p + v / 256 % p;
    assert v == (256 * p) * q + v % (256 * p) by {
      assert 256 * (q * p) == (256 * p) * q;
    }
    var k := v / (256 * p) - q;
    assert (256 * p) * k == 0 by {
      assert v == (256 * p) * (v / (256 * p)) + v % (256 * p);
      assert (256 * p) * (v / (256 * p)) - (256 * p) * q == (256 * p) * k;
    }
  }

  lemma TaggedFields(x: byte, n: nat)
    requires n in {1, 2, 4, 8}
    ensures DeclaredLen(Tagged(x, Prefix(n))) == n
    ensures Tagged(x, Prefix(n)) % 64 == x % 64
  {
  }

  lemma HighPart(a: nat, b: nat, p: nat)
    requires b < 64
    ensures (64 * a + b) * p == (64 * p) * a + b * p
    ensures b * p <= 63 * p
  {
  }

  // The low six bits above `p`, then the digits below it, are `v` modulo 64p.
  lemma SplitHigh(v: nat, p: nat)
    requires p >= 1
    ensures v / p % 64 * p + v % p == v % (64 * p)
  {
    var (h, l) := (v / p, v % p);
    var (a, b) := (h / 64, h % 64);
    HighPart(a, b, p);
    assert v == h * p + l && h == 64 * a + b;
    ModUnique(v, 64 * p, a, b * p + l);
  }

  lemma EncodeShape(v: u64, rest: seq<byte>)
    ensures (Encode(v) + rest)[0] == Tagged(v / Pow256(Len(v) - 1) % 256, Prefix(Len(v)))
    ensures (Encode(v) + rest)[1..Len(v)] == LowBytes(v, Len(v) - 1)
  {
    LowBytesSplit(v, Len(v));
  }

  lemma HighBits(x: nat)
    ensures x % 256 % 64 == x % 64
  {
  }

  // Decoding a buffer of which the tag and the digits are known.
  lemma DecodeParts(buf: seq<byte>, h: nat, n: nat)
    requires n in {1, 2, 4, 8} && n <= |buf| && buf[0] == Tagged(h % 256, Prefix(n))
    ensures Decode(buf) == Some((Digits(h % 64, buf[1..n]), n))
  {
    TaggedFields(h % 256, n);
    HighBits(h);
  }

  lemma ValueOfParts(v: nat, n: nat)
    ensures Digits(v / Pow256(n) % 64, LowBytes(v, n)) == v % (64 * Pow256(n))
  {
    DigitsOfLowBytes(v / Pow256(n) % 64, v, n);
    SplitHigh(v, Pow256(n));
  }

  // The encoding read as a tag over `h` and the low digits of `v`.
  lemma DecodeTagged(v: u64, h: nat, rest: seq<byte>)
    requires h == v / Pow256(Len(v) - 1)
    ensures Decode(Encode(v) + rest) == Some((Digits(h % 64, LowBytes(v, Len(v) - 1)), Len(v)))
  {
    EncodeShape(v, rest);
    DecodeParts(Encode(v) + rest, h, Len(v));
  }

  lemma ValueOfTagged(v: u64, h: nat)
    requires h == v / Pow256(Len(v) - 1)
    ensures Digits(h % 64, LowBytes(v, Len(v) - 1)) == v % LIMIT
  {
    ValueOfParts(v, Len(v) - 1);
    WithinLen(v);
  }

  /** Decoding reads back the value modulo 2^62 and the exact length, whatever follows. */
  lemma DecodeEncode(v: u64, rest: seq<byte>)
    ensures Decode(Encode(v) + rest) == Some((v % LIMIT, Len(v)))
  {
    var h := v / Pow256(Len(v) - 1);
    DecodeTagged(v, h, rest);
    ValueOfTagged(v, h);
  }

  lemma WithinLen(v: u64)
    ensures v % (64 * Pow256(Len(v) - 1)) == v % LIMIT
  {
    Pow256Values();
  }

  /** The round trip is exact for precisely the values below 2^62. */
  lemma RoundTripIff(v: u64, rest: seq<byte>)
    ensures Decode(Encode(v) + rest) == Some((v, Len(v))) <==> v < LIMIT
  {
    DecodeEncode(v, rest);
    BelowLimit(v);
  }

  lemma BelowLimit(v: u64)
    ensures v % LIMIT == v <==> v < LIMIT
  {
  }

  /** A decoded prefix decides the result; every shorter prefix is undecided. */
  lemma DecodePrefix(buf: seq<byte>, k: nat)
    requires k <= |buf|
    ensures Decode(buf[..k]) == (if Decode(buf).Some? && Decode(buf).value.1 <= k then Decode(buf) else None)
  {
    if k > 0 {
      var n := DeclaredLen(buf[0]);
      if n <= k {
        assert buf[..k][1..n] == buf[1..n];
      }
    }
  }

  lemma DecodeExtend(buf: seq<byte>, rest: seq<byte>)
    ensures Decode(buf).Some? ==> Decode(buf + rest) == Decode(buf)
  {
    assert (buf + rest)[..|buf|] == buf;
    DecodePrefix(buf + rest, |buf|);
  }

  lemma StrictPrefixUndecided(v: u64, k: nat)
    requires k < Len(v)
    ensures Decode(Encode(v)[..k]) == None
  {
    DecodeEncode(v, []);
    assert Encode(v) + [] == Encode(v);
    DecodePrefix(Encode(v), k);
  }

  lemma {:induction false} DigitsBound(acc: nat, s: seq<byte>)
    ensures acc * Pow256(|s|) <= Digits(acc, s) < (acc + 1) * Pow256(|s|)
  {
    if s != [] {
      DigitsBound(acc, s[..|s| - 1]);
      var p := Pow256(|s| - 1);
      assert (acc + 1) * Pow256(|s|) == (acc + 1) * p * 256;
      assert acc * Pow256(|s|) == acc * p * 256;
    }
  }

  lemma {:induction false} DigitsInjective(a: nat, s: seq<byte>, b: nat, t: seq<byte>)
    requires |s| == |t| && Digits(a, s) == Digits(b, t)
    ensures a == b && s == t
  {
    if s != [] {
      DigitsInjective(a, s[..|s| - 1], b, t[..|t| - 1]);
      assert s == s[..|s| - 1] + [s[|s| - 1]] && t == t[..|t| - 1] + [t[|t| - 1]];
    }
  }

  /** Decoded values are below 2^62, and an encoding is never shorter than the minimal one. */
  lemma DecodeBounds(buf: seq<byte>)
    requires Decode(buf).Some?
    ensures var (v, n) := Decode(buf).value; v < LIMIT && Len(v) <= n <= |buf|
  {
    var n := DeclaredLen(buf[0]);
    DigitsBound(buf[0] % 64, buf[1..n]);
    Pow256Values();
    assert (buf[0] % 64 + 1) * Pow256(n - 1) <= 64 * Pow256(n - 1);
  }

  /** An encoding of minimal length is the one `put_varint` writes. */
  lemma MinimalIsCanonical(buf: seq<byte>)
    requires Decode(buf).Some?
    requires var (v, n) := Decode(buf).value; v < LIMIT && n == Len(v)
    ensures var (v, n) := Decode(buf).value; n <= |buf| && buf[..n] == Encode(v)
  {
    var (v, n) := Decode(buf).value;
    var e := Encode(v);
    DecodeEncode(v, []);
    BelowLimit(v);
    assert e + [] == e;
    SameDecoding(buf, e);
  }

  // Two buffers that decode alike agree on the encoding.
  lemma SameDecoding(a: seq<byte>, b: seq<byte>)
    requires Decode(a).Some? && Decode(a) == Decode(b)
    ensures var n := Decode(a).value.1; n <= |a| && n <= |b| && a[..n] == b[..n]
  {
    var n := Decode(a).value.1;
    DigitsInjective(a[0] % 64, a[1..n], b[0] % 64, b[1..n]);
    assert a[..n] == [a[0]] + a[1..n] && b[..n] == [b[0]] + b[1..n];
  }
}
