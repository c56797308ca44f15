/**
 * Numeric codec: big-endian byte sequences, two's complement, the tag
 * byte's XOR tests and the JavaScript integer operators the packer uses.
 */
module Numbers {
  import opened PackTypes

  /**
   * Byte k of a byte array, or 0 past its end: indexing a typed array out of
   * bounds gives `undefined`, and `undefined & 0xff` is 0.
   */
  function At(bytes: seq<byte>, k: nat): byte
  {
    if k < |bytes| then bytes[k] else 0
  }

  /** 256^k. */
  function Pow256(k: nat): (r: nat)
    ensures r >= 1
  {
    if k == 0 then 1 else 256 * Pow256(k - 1)
  }

  lemma Pow256Values()
    ensures Pow256(1) == 0x100
    ensures Pow256(2) == 0x1_0000
    ensures Pow256(4) == 0x1_0000_0000
    ensures Pow256(8) == 0x1_0000_0000_0000_0000
  {
    assert Pow256(2) == 0x1_0000;
    assert Pow256(4) == 0x1_0000_0000 by {
      assert Pow256(3) == 0x100_0000;
    }
    assert Pow256(8) == 0x1_0000_0000_0000_0000 by {
      assert Pow256(5) == 0x100_0000_0000;
      assert Pow256(6) == 0x1_0000_0000_0000;
      assert Pow256(7) == 0x100_0000_0000_0000;
    }
  }

  /**
   * The k low-order bytes of n, most significant first: the two's-complement
   * encoding of n modulo 256^k. Dafny's `/` and `%` are Euclidean, so a
   * negative n gives its two's-complement bytes.
   */
  function ToBigEndian(n: int, k: nat): (r: seq<byte>)
    ensures |r| == k
  {
    seq(k, i requires 0 <= i < k => (n / Pow256(k - 1 - i)) % 256)
  }

  /** The unsigned number a big-endian byte sequence denotes: ((b0 * 256 + b1) * 256 + b2) ... */
  function FromBigEndian(s: seq<byte>): (r: nat)
    ensures r < Pow256(|s|)
  {
    if s == [] then 0
    else
      var p := FromBigEndian(s[..|s| - 1]);
      assert p <= Pow256(|s| - 1) - 1;
      assert p * 256 <= Pow256(|s| - 1) * 256 - 256;
      p * 256 + s[|s| - 1]
  }

  lemma MulAtLeast(d: int, a: int)
    requires d > 0 && a >= 1
    ensures d * a >= d
  {
    assert d * a == d * (a - 1) + d;
    assert d * (a - 1) >= 0;
  }

  /** Euclidean division is determined by any decomposition n == d * q + x with 0 <= x < d. */
  lemma DivModUnique(n: int, d: int, q: int, x: int)
    requires d > 0 && 0 <= x < d && n == d * q + x
    ensures n / d == q && n % d == x
  {
    var q', x' := n / d, n % d;
    assert n == d * q' + x';
    if q' > q {
      MulAtLeast(d, q' - q);
      assert false;
    } else if q' < q {
      MulAtLeast(d, q - q');
      assert false;
    }
  }

  /** Dividing by 256 and then by m is dividing by 256 * m; the remainders combine. */
  lemma DivModStep(n: int, m: nat)
    requires m >= 1
    ensures (n / 256) / m == n / (256 * m)
    ensures (n / 256) % m * 256 + n % 256 == n % (256 * m)
  {
    var q, r := n / 256, n % 256;
    var a, b := q / m, q % m;
    assert n == 256 * (m * a + b) + r;
    assert n == (256 * m) * a + (256 * b + r);
    assert 256 * b + r < 256 * m by {
      assert b <= m - 1;
      assert 256 * b <= 256 * m - 256;
    }
    DivModUnique(n, 256 * m, a, 256 * b + r);
  }

  /** The k bytes of n are the k - 1 bytes of n / 256 followed by the low byte of n. */
  lemma ToBigEndianStep(n: int, k: nat)
    requires k > 0
    ensures ToBigEndian(n, k) == ToBigEndian(n / 256, k - 1) + [n % 256]
  {
    var s, t := ToBigEndian(n, k), ToBigEndian(n / 256, k - 1) + [n % 256];
    forall i | 0 <= i < k
      ensures s[i] == t[i]
    {
      if i < k - 1 {
        DivModStep(n, Pow256(k - 2 - i));
        assert Pow256(k - 1 - i) == 256 * Pow256(k - 2 - i);
      } else {
        assert Pow256(k - 1 - i) == 1;
      }
    }
  }

  /** Decoding the bytes written for n gives n modulo 256^k. */
  lemma {:induction false} FromToBigEndian(n: int, k: nat)
    ensures FromBigEndian(ToBigEndian(n, k)) == n % Pow256(k)
    decreases k
  {
    if k > 0 {
      var s := ToBigEndian(n, k);
      ToBigEndianStep(n, k);
      assert s[..k - 1] == ToBigEndian(n / 256, k - 1);
      FromToBigEndian(n / 256, k - 1);
      DivModStep(n, Pow256(k - 1));
    }
  }

  /** Writing the number a byte sequence denotes gives back the same bytes. */
  lemma {:induction false} ToFromBigEndian(s: seq<byte>)
    ensures ToBigEndian(FromBigEndian(s), |s|) == s
  {
    if s != [] {
      var p := s[..|s| - 1];
      var b := s[|s| - 1];
      var n := FromBigEndian(s);
      assert n == 256 * FromBigEndian(p) + b;
      DivModUnique(n, 256, FromBigEndian(p), b);
      ToFromBigEndian(p);
      ToBigEndianStep(n, |s|);
      assert s == p + [b];
    }
  }

  /** A big-endian number grows by one byte at a time: ((b0 * 256 + b1) * 256 + b2) ... */
  lemma FromBigEndianPrefix(s: seq<byte>, k: nat)
    requires k < |s|
    ensures FromBigEndian(s[..k + 1]) == FromBigEndian(s[..k]) * 256 + s[k]
  {
    assert s[..k + 1][..k] == s[..k];
  }

  lemma FromBigEndian2(s: seq<byte>)
    requires |s| == 2
    ensures FromBigEndian(s) == (s[0] as int) * 256 + s[1]
  {
    FromBigEndianPrefix(s, 0);
    FromBigEndianPrefix(s, 1);
    assert s[..2] == s;
  }

  lemma FromBigEndian4(s: seq<byte>)
    requires |s| == 4
    ensures FromBigEndian(s) == (((s[0] as int) * 256 + s[1]) * 256 + s[2]) * 256 + s[3]
  {
    FromBigEndianPrefix(s, 0);
    FromBigEndianPrefix(s, 1);
    FromBigEndianPrefix(s, 2);
    FromBigEndianPrefix(s, 3);
    assert s[..4] == s;
  }

  lemma FromBigEndian8(s: seq<byte>)
    requires |s| == 8
    ensures FromBigEndian(s)
            == (((((((s[0] as int) * 256 + s[1]) * 256 + s[2]) * 256 + s[3]) * 256 + s[4]) * 256 + s[5]) * 256 + s[6])
               * 256 + s[7]
  {
    var h := s[..4];
    FromBigEndian4(h);
    assert h[0] == s[0] && h[1] == s[1] && h[2] == s[2] && h[3] == s[3];
    FromBigEndianPrefix(s, 4);
    FromBigEndianPrefix(s, 5);
    FromBigEndianPrefix(s, 6);
    FromBigEndianPrefix(s, 7);
    assert s[..8] == s;
  }

  lemma ToBigEndianMod(n: int, m: int, k: nat)
    requires n % Pow256(k) == m % Pow256(k)
    ensures ToBigEndian(n, k) == ToBigEndian(m, k)
  {
    FromToBigEndian(n, k);
    FromToBigEndian(m, k);
    ToFromBigEndian(ToBigEndian(n, k));
    ToFromBigEndian(ToBigEndian(m, k));
  }

  /** The a + b bytes of n are the a bytes of n / 256^b followed by the b bytes of n. */
  lemma {:induction false} ToBigEndianSplit(n: int, a: nat, b: nat)
    ensures ToBigEndian(n, a + b) == ToBigEndian(n / Pow256(b), a) + ToBigEndian(n, b)
    decreases b
  {
    if b > 0 {
      ToBigEndianSplit(n / 256, a, b - 1);
      DivModStep(n, Pow256(b - 1));
      ToBigEndianStep(n, a + b);
      ToBigEndianStep(n, b);
    } else {
      assert ToBigEndian(n, 0) == [];
    }
  }

  /** 2^k. */
  function Pow2(k: nat): (r: nat)
    ensures r >= 1
  {
    if k == 0 then 1 else 2 * Pow2(k - 1)
  }

  /** The exclusive-or of the k low-order bits of a and b, bit by bit from the lowest. */
  function XorBits(a: nat, b: nat, k: nat): (r: nat)
    ensures r < Pow2(k)
  {
    if k == 0 then 0 else XorBits(a / 2, b / 2, k - 1) * 2 + (a % 2 + b % 2) % 2
  }

  /** The bitwise exclusive-or of two bytes, as JavaScript's `^` computes it on them. */
  function Xor(a: byte, b: byte): byte
  {
    assert Pow2(8) == 0x100;
    XorBits(a, b, 8)
  }

  /** The exclusive-or of two k-bit numbers is 0 exactly when they are equal. */
  lemma {:induction false} XorBitsZeroIff(a: nat, b: nat, k: nat)
    requires a < Pow2(k) && b < Pow2(k)
    ensures XorBits(a, b, k) == 0 <==> a == b
  {
    if k > 0 {
      XorBitsZeroIff(a / 2, b / 2, k - 1);
    }
  }

  /** Xoring with an even number keeps the lowest bit and xors the rest with half of it. */
  lemma XorBitsEven(a: nat, b: nat, c: nat, n: nat)
    requires n > 0 && b == 2 * c
    ensures XorBits(a, b, n) == XorBits(a / 2, c, n - 1) * 2 + a % 2
  {
    assert b / 2 == c && b % 2 == 0;
  }

  /** Halving a byte four or five times takes it apart into its high bits and its low bits. */
  lemma ByteHalves(t: byte)
    ensures t / 2 / 2 / 2 / 2 == t / 0x10
    ensures (t / 2 / 2 / 2 % 2) * 8 + (t / 2 / 2 % 2) * 4 + (t / 2 % 2) * 2 + t % 2 == t % 0x10
    ensures t / 2 / 2 / 2 / 2 / 2 == t / 0x20
    ensures (t / 2 / 2 / 2 / 2 % 2) * 0x10 + (t / 2 / 2 / 2 % 2) * 8 + (t / 2 / 2 % 2) * 4 + (t / 2 % 2) * 2 + t % 2
            == t % 0x20
  {
    var a1 := t / 2;
    var a2 := a1 / 2;
    var a3 := a2 / 2;
    var a4 := a3 / 2;
    var a5 := a4 / 2;
    assert t == 2 * a1 + t % 2 && a1 == 2 * a2 + a1 % 2 && a2 == 2 * a3 + a2 % 2 && a3 == 2 * a4 + a3 % 2;
    assert a4 == 2 * a5 + a4 % 2;
    DivModUnique(t, 0x10, a4, (a3 % 2) * 8 + (a2 % 2) * 4 + (a1 % 2) * 2 + t % 2);
    DivModUnique(t, 0x20, a5, (a4 % 2) * 0x10 + (a3 % 2) * 8 + (a2 % 2) * 4 + (a1 % 2) * 2 + t % 2);
  }

  /** Xoring a byte with c in its high nibble: t's high nibble is xored with c, its low nibble is kept. */
  lemma XorHigh4(t: byte, c: nat)
    requires c < 0x10
    ensures Xor(t, 0x10 * c) == XorBits(t / 0x10, c, 4) * 0x10 + t % 0x10
  {
    var a1 := t / 2;
    var a2 := a1 / 2;
    var a3 := a2 / 2;
    XorBitsEven(t, 0x10 * c, 8 * c, 8);
    XorBitsEven(a1, 8 * c, 4 * c, 7);
    XorBitsEven(a2, 4 * c, 2 * c, 6);
    XorBitsEven(a3, 2 * c, c, 5);
    ByteHalves(t);
  }

  /** Xoring a byte with c in its three high bits: those bits are xored with c, the five low bits are kept. */
  lemma XorHigh3(t: byte, c: nat)
    requires c < 8
    ensures Xor(t, 0x20 * c) == XorBits(t / 0x20, c, 3) * 0x20 + t % 0x20
  {
    var a1 := t / 2;
    var a2 := a1 / 2;
    var a3 := a2 / 2;
    var a4 := a3 / 2;
    XorBitsEven(t, 0x20 * c, 0x10 * c, 8);
    XorBitsEven(a1, 0x10 * c, 8 * c, 7);
    XorBitsEven(a2, 8 * c, 4 * c, 6);
    XorBitsEven(a3, 4 * c, 2 * c, 5);
    XorBitsEven(a4, 2 * c, c, 4);
    ByteHalves(t);
  }

  /*
   * The XOR tests of the decoder are range tests: `(t ^ base) < width` holds
   * exactly when t lies in the aligned block [base, base + width), and then
   * `t ^ base` is the offset of t in that block.
   */

  lemma XorE0(t: byte)
    ensures Xor(t, 0xe0) < 0x20 <==> 0xe0 <= t
    ensures Xor(t, 0xe0) < 0x10 <==> 0xe0 <= t <= 0xef
    ensures 0xe0 <= t ==> Xor(t, 0xe0) == t - 0xe0
  {
    XorHigh3(t, 7);
    XorBitsZeroIff(t / 0x20, 7, 3);
  }

  lemma XorC0(t: byte)
    ensures Xor(t, 0xc0) < 0x20 <==> 0xc0 <= t <= 0xdf
    ensures 0xc0 <= t <= 0xdf ==> Xor(t, 0xc0) == t - 0xc0
  {
    XorHigh3(t, 6);
    XorBitsZeroIff(t / 0x20, 6, 3);
  }

  lemma XorB0(t: byte)
    ensures Xor(t, 0xb0) <= 0x0f <==> 0xb0 <= t <= 0xbf
    ensures 0xb0 <= t <= 0xbf ==> Xor(t, 0xb0) == t - 0xb0
  {
    XorHigh4(t, 11);
    XorBitsZeroIff(t / 0x10, 11, 4);
  }

  lemma XorA0(t: byte)
    ensures Xor(t, 0xa0) <= 0x0f <==> 0xa0 <= t <= 0xaf
    ensures 0xa0 <= t <= 0xaf ==> Xor(t, 0xa0) == t - 0xa0
  {
    XorHigh4(t, 10);
    XorBitsZeroIff(t / 0x10, 10, 4);
  }

  lemma Xor90(t: byte)
    ensures Xor(t, 0x90) <= 0x0f <==> 0x90 <= t <= 0x9f
    ensures 0x90 <= t <= 0x9f ==> Xor(t, 0x90) == t - 0x90
  {
    XorHigh4(t, 9);
    XorBitsZeroIff(t / 0x10, 9, 4);
  }

  lemma Xor80(t: byte)
    ensures Xor(t, 0x80) <= 0x0f <==> 0x80 <= t <= 0x8f
    ensures 0x80 <= t <= 0x8f ==> Xor(t, 0x80) == t - 0x80
  {
    XorHigh4(t, 8);
    XorBitsZeroIff(t / 0x10, 8, 4);
  }

  /** All the XOR tests of the decoder, on one tag byte. */
  lemma XorRanges(t: byte)
    ensures Xor(t, 0xe0) < 0x20 <==> 0xe0 <= t
    ensures Xor(t, 0xa0) <= 0x0f <==> 0xa0 <= t <= 0xaf
    ensures Xor(t, 0xb0) <= 0x0f <==> 0xb0 <= t <= 0xbf
    ensures Xor(t, 0x90) <= 0x0f <==> 0x90 <= t <= 0x9f
    ensures Xor(t, 0x80) <= 0x0f <==> 0x80 <= t <= 0x8f
    ensures Xor(t, 0xc0) < 0x20 <==> 0xc0 <= t <= 0xdf
    ensures Xor(t, 0xe0) < 0x10 <==> 0xe0 <= t <= 0xef
    ensures 0xe0 <= t ==> Xor(t, 0xe0) == t - 0xe0
    ensures 0xa0 <= t <= 0xaf ==> Xor(t, 0xa0) == t - 0xa0
    ensures 0xb0 <= t <= 0xbf ==> Xor(t, 0xb0) == t - 0xb0
    ensures 0x90 <= t <= 0x9f ==> Xor(t, 0x90) == t - 0x90
    ensures 0x80 <= t <= 0x8f ==> Xor(t, 0x80) == t - 0x80
  {
    XorE0(t);
    XorC0(t);
    XorB0(t);
    XorA0(t);
    Xor90(t);
    Xor80(t);
  }

  /** JavaScript's `%` on integers: the remainder takes the sign of the dividend. */
  function JsRem(n: int, d: int): int
    requires d > 0
  {
    if n >= 0 then n % d else -((-n) % d)
  }

  /** JavaScript's remainder and Dafny's differ by a multiple of the divisor. */
  lemma JsRemMod(n: int, d: int)
    requires d > 0
    ensures JsRem(n, d) % d == n % d
  {
    if n < 0 {
      var q, x := (-n) / d, (-n) % d;
      if x == 0 {
        DivModUnique(n, d, -q, 0);
      } else {
        DivModUnique(n, d, -q - 1, d - x);
        DivModUnique(-x, d, -1, d - x);
      }
    }
  }

  /** `Math.trunc(n / d)`, the integer a JavaScript `ToInt32` keeps of the quotient n / d. */
  function JsTruncDiv(n: int, d: int): (r: int)
    requires d > 0
    ensures n >= 0 ==> 0 <= d * r <= n < d * r + d
    ensures n < 0 ==> d * r - d < n <= d * r <= 0
    // for non-negative n it is the floored quotient, which `pack_uint64`'s 8-byte form needs
    ensures n >= 0 ==> r == n / d
  {
    if n >= 0 then FloorDivBounds(n, d); n / d
    else FloorDivBounds(-n, d); -((-n) / d)
  }

  /** The floored quotient of a natural number leaves a remainder below the divisor. */
  lemma FloorDivBounds(m: nat, d: int)
    requires d > 0
    ensures 0 <= d * (m / d) <= m < d * (m / d) + d
  {
    assert m == d * (m / d) + m % d;
  }

  /** The truncated quotient and JavaScript's remainder make up the dividend, as the high and low words of `pack_uint64` do. */
  lemma JsDivRem(n: int, d: int)
    requires d > 0
    ensures n == d * JsTruncDiv(n, d) + JsRem(n, d)
    ensures n >= 0 ==> 0 <= JsRem(n, d) < d
    ensures n < 0 ==> -d < JsRem(n, d) <= 0
  {
    if n < 0 {
      assert -n == d * ((-n) / d) + (-n) % d;
    }
  }

  lemma Int32Wrap(n: int)
    ensures ((n + 0x8000_0000) % 0x1_0000_0000 - 0x8000_0000) % 0x1_0000_0000 == n % 0x1_0000_0000
  {
    var m := (n + 0x8000_0000) % 0x1_0000_0000;
    var q := (n + 0x8000_0000) / 0x1_0000_0000;
    if m < 0x8000_0000 {
      DivModUnique(m - 0x8000_0000, 0x1_0000_0000, -1, m + 0x8000_0000);
      DivModUnique(n, 0x1_0000_0000, q - 1, m + 0x8000_0000);
    } else {
      DivModUnique(m - 0x8000_0000, 0x1_0000_0000, 0, m - 0x8000_0000);
      DivModUnique(n, 0x1_0000_0000, q, m - 0x8000_0000);
    }
  }

  /** `ToInt32(n)`: n modulo 2^32, read as a signed 32-bit integer. */
  function ToInt32(n: int): (r: int)
    ensures -0x8000_0000 <= r < 0x8000_0000
    ensures r % 0x1_0000_0000 == n % 0x1_0000_0000
  {
    Int32Wrap(n);
    (n + 0x8000_0000) % 0x1_0000_0000 - 0x8000_0000
  }

  /**
   * Byte j of n, counted from the least significant one: what the packer's
   * masks and shifts, `(n & (0xff << 8j)) >>> 8j`, compute for j < 4.
   */
  function ByteOf(n: int, j: nat): byte
    requires j < 4
  {
    if j == 0 then n % 0x100
    else if j == 1 then n / 0x100 % 0x100
    else if j == 2 then n / 0x1_0000 % 0x100
    else n / 0x100_0000 % 0x100
  }

  /** The one big-endian byte of n is its low byte. */
  lemma BigEndian1(n: int)
    ensures ToBigEndian(n, 1) == [n % 0x100]
  {
    assert Pow256(0) == 1;
  }

  /** The two big-endian bytes of n are its bytes 1 and 0. */
  lemma BigEndian2(n: int)
    ensures ToBigEndian(n, 2) == [ByteOf(n, 1), ByteOf(n, 0)]
  {
    Pow256Values();
  }

  /** The four big-endian bytes of n are its bytes 3, 2, 1 and 0. */
  lemma BigEndian4(n: int)
    ensures ToBigEndian(n, 4) == [ByteOf(n, 3), ByteOf(n, 2), ByteOf(n, 1), ByteOf(n, 0)]
  {
    Pow256Values();
    assert Pow256(3) == 0x100_0000;
  }

  /** `n >> 8` keeps byte 1 of n in its low byte. */
  lemma ShiftRight8(n: int)
    ensures (ToInt32(n) / 0x100) % 0x100 == ByteOf(n, 1)
  {
    Pow256Values();
    ToBigEndianMod(ToInt32(n), n, 4);
    BigEndian4(n);
    BigEndian4(ToInt32(n));
  }

  /** The eight bytes written as a high and a low 32-bit half are the eight big-endian bytes of n. */
  lemma BigEndian8(n: int)
    ensures ToBigEndian(n / 0x1_0000_0000, 4) + ToBigEndian(JsRem(n, 0x1_0000_0000), 4) == ToBigEndian(n, 8)
  {
    Pow256Values();
    ToBigEndianSplit(n, 4, 4);
    JsRemMod(n, 0x1_0000_0000);
    ToBigEndianMod(JsRem(n, 0x1_0000_0000), n, 4);
  }
}
