/**
 * Text codec. Encoding follows `TextEncoder.encode()`: the string is first
 * converted to Unicode scalar values the way Web IDL converts a USVString
 * (a surrogate pair combines, a lone surrogate half becomes U+FFFD), then
 * each scalar value is written as UTF-8 (section 3 of RFC 3629).
 * Decoding is the hand-written walk of `unpack_string`, with its quirks.
 */
module Utf8 {
  import opened PackTypes
  import opened Numbers

  predicate IsHighSurrogate(u: int) {
    0xD800 <= u <= 0xDBFF
  }

  predicate IsLowSurrogate(u: int) {
    0xDC00 <= u <= 0xDFFF
  }

  /** A Unicode scalar value: a code point that is not a surrogate. */
  type Scalar = c: int | 0 <= c <= 0x10FFFF && !(0xD800 <= c <= 0xDFFF)

  /** s[i] is a surrogate half that is not part of a high-low pair. */
  predicate IsLone(s: JsString, i: nat)
    requires i < |s|
  {
    || (IsHighSurrogate(s[i]) && !(i + 1 < |s| && IsLowSurrogate(s[i + 1])))
    || (IsLowSurrogate(s[i]) && !(0 < i && IsHighSurrogate(s[i - 1])))
  }

  /** A string without lone surrogates: it denotes a sequence of scalar values exactly. */
  predicate IsWellFormed(s: JsString) {
    forall i | 0 <= i < |s| :: !IsLone(s, i)
  }

  /** Web IDL conversion of a JavaScript string to scalar values (USVString). */
  function ToScalars(s: JsString): seq<Scalar>
    decreases |s|
  {
    if s == [] then []
    else if IsHighSurrogate(s[0]) && |s| > 1 && IsLowSurrogate(s[1]) then
      [0x10000 + (s[0] - 0xD800) * 0x400 + (s[1] - 0xDC00)] + ToScalars(s[2..])
    else if IsHighSurrogate(s[0]) || IsLowSurrogate(s[0]) then
      [0xFFFD] + ToScalars(s[1..])
    else
      [s[0]] + ToScalars(s[1..])
  }

  /** The UTF-8 bytes of one scalar value (section 3 of RFC 3629). */
  function EncodeScalar(c: Scalar): (r: seq<byte>)
    ensures 1 <= |r| <= 4
  {
    if c < 0x80 then [c]
    else if c < 0x800 then [0xC0 + c / 0x40, 0x80 + c % 0x40]
    else if c < 0x1_0000 then [0xE0 + c / 0x1000, 0x80 + c / 0x40 % 0x40, 0x80 + c % 0x40]
    else [0xF0 + c / 0x4_0000, 0x80 + c / 0x1000 % 0x40, 0x80 + c / 0x40 % 0x40, 0x80 + c % 0x40]
  }

  function EncodeScalars(cps: seq<Scalar>): seq<byte>
  {
    if cps == [] then [] else EncodeScalar(cps[0]) + EncodeScalars(cps[1..])
  }

  /** `TextEncoder.encode(s)`. */
  function Encode(s: JsString): seq<byte>
  {
    EncodeScalars(ToScalars(s))
  }

  /** The UTF-16 code units of a code point: one unit below 0x10000, else a surrogate pair. */
  function Units(code: int): (r: JsString)
    requires 0 <= code <= 0x10FFFF
  {
    if code < 0x1_0000 then [code]
    else [0xD800 + (code - 0x1_0000) / 0x400, 0xDC00 + (code - 0x1_0000) % 0x400]
  }

  /** `String.fromCodePoint(code)`: a RangeError above 0x10FFFF. */
  function FromCodePoint(code: int): Result<JsString>
  {
    if 0 <= code <= 0x10FFFF then Ok(Units(code)) else Err(InvalidCodePoint(code))
  }

  /** The JavaScript string of a sequence of scalar values. */
  function ToUtf16(cps: seq<Scalar>): JsString
  {
    if cps == [] then [] else Units(cps[0]) + ToUtf16(cps[1..])
  }

  /** The string that comes back after s has been encoded and decoded. */
  function ToWellFormed(s: JsString): JsString
  {
    ToUtf16(ToScalars(s))
  }

  /**
   * One step of the decoder's walk at i: the code it assembles and the number
   * of bytes it consumes. The lead byte alone picks the width: below 0xa0 one
   * byte (so a stray continuation byte 0x80..0x9f is taken as a character),
   * 0xc0..0xdf two, 0xe0..0xef three, and everything else (0xa0..0xbf and
   * 0xf0..0xff) four. The source tells the widths apart with the tests
   * `(c ^ 0xc0) < 0x20` and `(c ^ 0xe0) < 0x10`, which are these range tests
   * (`Numbers.XorC0`, `Numbers.XorE0`). Bits are joined with `+` where the
   * source uses `|`: the fields do not overlap.
   */
  function Step(bytes: seq<byte>, i: nat): (r: (int, nat))
    requires i < |bytes|
    ensures 1 <= r.1 <= 4 && 0 <= r.0 < 0x20_0000
  {
    var c := bytes[i];
    if c < 0xa0 then
      (c, 1)
    else if 0xc0 <= c <= 0xdf then
      ((c % 0x20) * 0x40 + At(bytes, i + 1) % 0x40, 2)
    else if 0xe0 <= c <= 0xef then
      ((c % 0x10) * 0x1000 + (At(bytes, i + 1) % 0x40) * 0x40 + At(bytes, i + 2) % 0x40, 3)
    else
      ((c % 0x08) * 0x4_0000 + (At(bytes, i + 1) % 0x40) * 0x1000
       + (At(bytes, i + 2) % 0x40) * 0x40 + At(bytes, i + 3) % 0x40, 4)
  }

  /** The walk of `unpack_string` from position i of the payload. */
  function WalkFrom(bytes: seq<byte>, i: nat): Result<JsString>
    decreases |bytes| - i
  {
    if i >= |bytes| then Ok([])
    else
      var (code, width) := Step(bytes, i);
      var units :- FromCodePoint(code);
      var rest :- WalkFrom(bytes, i + width);
      Ok(units + rest)
  }

  /** The string `unpack_string` builds from a payload. */
  function Decode(bytes: seq<byte>): Result<JsString>
  {
    WalkFrom(bytes, 0)
  }

  // ---------------------------------------------------------------------
  // Decoding inverts encoding.

  lemma Split64(c: int)
    requires 0 <= c
    ensures c == (c / 0x40) * 0x40 + c % 0x40
    ensures c == (c / 0x1000) * 0x1000 + (c / 0x40 % 0x40) * 0x40 + c % 0x40
    ensures c == (c / 0x4_0000) * 0x4_0000 + (c / 0x1000 % 0x40) * 0x1000
               + (c / 0x40 % 0x40) * 0x40 + c % 0x40
  {
    var a := c / 0x40;
    var b := a / 0x40;
    var d := b / 0x40;
    assert c == a * 0x40 + c % 0x40;
    assert a == b * 0x40 + a % 0x40;
    assert b == d * 0x40 + b % 0x40;
    DivModUnique(c, 0x1000, b, (a % 0x40) * 0x40 + c % 0x40);
    DivModUnique(c, 0x4_0000, d, (b % 0x40) * 0x1000 + (a % 0x40) * 0x40 + c % 0x40);
    DivModUnique(a, 0x40, b, a % 0x40);
    assert c / 0x1000 == b;
    assert c / 0x4_0000 == d;
    assert c / 0x1000 % 0x40 == b % 0x40 by {
      DivModUnique(c / 0x1000, 0x40, d, b % 0x40);
    }
  }

  lemma StepTwo(bytes: seq<byte>, i: nat, c: Scalar)
    requires 0x80 <= c < 0x800 && i + 2 <= |bytes|
    requires bytes[i] == 0xC0 + c / 0x40 && bytes[i + 1] == 0x80 + c % 0x40
    ensures Step(bytes, i) == (c, 2)
  {
    assert (0xC0 + c / 0x40) % 0x20 == c / 0x40;
    assert c == (c / 0x40) * 0x40 + c % 0x40;
  }

  lemma StepThree(bytes: seq<byte>, i: nat, c: Scalar)
    requires 0x800 <= c < 0x1_0000 && i + 3 <= |bytes|
    requires bytes[i] == 0xE0 + c / 0x1000
    requires bytes[i + 1] == 0x80 + c / 0x40 % 0x40 && bytes[i + 2] == 0x80 + c % 0x40
    ensures Step(bytes, i) == (c, 3)
  {
    var a, b, d := c / 0x1000, c / 0x40 % 0x40, c % 0x40;
    DivModUnique(bytes[i], 0x10, 0x0E, a);
    DivModUnique(bytes[i + 1], 0x40, 2, b);
    DivModUnique(bytes[i + 2], 0x40, 2, d);
    Split64(c);
    assert Step(bytes, i).0 == a * 0x1000 + b * 0x40 + d;
  }

  lemma StepFour(bytes: seq<byte>, i: nat, c: Scalar)
    requires 0x1_0000 <= c && i + 4 <= |bytes|
    requires bytes[i] == 0xF0 + c / 0x4_0000 && bytes[i + 1] == 0x80 + c / 0x1000 % 0x40
    requires bytes[i + 2] == 0x80 + c / 0x40 % 0x40 && bytes[i + 3] == 0x80 + c % 0x40
    ensures Step(bytes, i) == (c, 4)
  {
    var a, b, d, e := c / 0x4_0000, c / 0x1000 % 0x40, c / 0x40 % 0x40, c % 0x40;
    DivModUnique(bytes[i], 0x08, 0x1E, a);
    DivModUnique(bytes[i + 1], 0x40, 2, b);
    DivModUnique(bytes[i + 2], 0x40, 2, d);
    DivModUnique(bytes[i + 3], 0x40, 2, e);
    Split64(c);
    assert Step(bytes, i).0 == a * 0x4_0000 + b * 0x1000 + d * 0x40 + e;
  }

  /** The walk reads back one scalar value from its UTF-8 bytes. */
  lemma StepEncoded(bytes: seq<byte>, i: nat, c: Scalar)
    requires i + |EncodeScalar(c)| <= |bytes|
    requires bytes[i..i + |EncodeScalar(c)|] == EncodeScalar(c)
    ensures Step(bytes, i) == (c, |EncodeScalar(c)|)
  {
    var e := EncodeScalar(c);
    assert bytes[i] == e[0];
    if c < 0x80 {
    } else if c < 0x800 {
      assert bytes[i + 1] == e[1];
      StepTwo(bytes, i, c);
    } else if c < 0x1_0000 {
      assert bytes[i + 1] == e[1] && bytes[i + 2] == e[2];
      StepThree(bytes, i, c);
    } else {
      assert bytes[i + 1] == e[1] && bytes[i + 2] == e[2] && bytes[i + 3] == e[3];
      StepFour(bytes, i, c);
    }
  }

  lemma {:induction false} WalkEncoded(bytes: seq<byte>, i: nat, cps: seq<Scalar>)
    requires i <= |bytes| && bytes[i..] == EncodeScalars(cps)
    ensures WalkFrom(bytes, i) == Ok(ToUtf16(cps))
    decreases cps
  {
    if cps != [] {
      var e := EncodeScalar(cps[0]);
      assert bytes[i..][..|e|] == e;
      assert bytes[i..i + |e|] == e;
      StepEncoded(bytes, i, cps[0]);
      assert bytes[i + |e|..] == bytes[i..][|e|..];
      WalkEncoded(bytes, i + |e|, cps[1..]);
    }
  }

  /** Unpacking a packed string gives the string with its lone surrogates replaced. */
  lemma DecodeEncode(s: JsString)
    ensures Decode(Encode(s)) == Ok(ToWellFormed(s))
  {
    WalkEncoded(Encode(s), 0, ToScalars(s));
  }

  // ---------------------------------------------------------------------
  // What comes back: the string with each lone surrogate replaced by U+FFFD,
  // as `String.prototype.toWellFormed` describes it.

  lemma UnitsOfPair(h: CodeUnit, l: CodeUnit)
    requires IsHighSurrogate(h) && IsLowSurrogate(l)
    ensures Units(0x10000 + (h - 0xD800) * 0x400 + (l - 0xDC00)) == [h, l]
  {
    var c := 0x10000 + (h - 0xD800) * 0x400 + (l - 0xDC00);
    DivModUnique(c - 0x1_0000, 0x400, h - 0xD800, l - 0xDC00);
  }

  /** r is s with each lone surrogate replaced by U+FFFD. */
  predicate LoneReplaced(s: JsString, r: JsString)
  {
    |r| == |s| && forall i | 0 <= i < |s| :: r[i] == if IsLone(s, i) then 0xFFFD else s[i]
  }

  /** A leading surrogate pair is kept, and the rest is replaced on its own. */
  lemma PairReplaced(s: JsString)
    requires |s| > 1 && IsHighSurrogate(s[0]) && IsLowSurrogate(s[1])
    requires LoneReplaced(s[2..], ToWellFormed(s[2..]))
    ensures LoneReplaced(s, ToWellFormed(s))
  {
    var r, t := ToWellFormed(s), s[2..];
    UnitsOfPair(s[0], s[1]);
    assert r == [s[0], s[1]] + ToWellFormed(t);
    forall i | 2 <= i < |s|
      ensures r[i] == if IsLone(s, i) then 0xFFFD else s[i]
    {
      assert r[i] == ToWellFormed(t)[i - 2];
      assert IsLone(t, i - 2) == IsLone(s, i);
    }
  }

  /** A leading unit that does not start a pair is kept or replaced, and the rest is replaced on its own. */
  lemma SingleReplaced(s: JsString)
    requires |s| > 0 && !(|s| > 1 && IsHighSurrogate(s[0]) && IsLowSurrogate(s[1]))
    requires LoneReplaced(s[1..], ToWellFormed(s[1..]))
    ensures LoneReplaced(s, ToWellFormed(s))
  {
    var r, t := ToWellFormed(s), s[1..];
    var u := if IsHighSurrogate(s[0]) || IsLowSurrogate(s[0]) then 0xFFFD else s[0];
    assert r == [u] + ToWellFormed(t);
    forall i | 1 <= i < |s|
      ensures r[i] == if IsLone(s, i) then 0xFFFD else s[i]
    {
      assert r[i] == ToWellFormed(t)[i - 1];
      assert IsLone(t, i - 1) == IsLone(s, i);
    }
  }

  lemma {:induction false} ToWellFormedAt(s: JsString)
    ensures |ToWellFormed(s)| == |s|
    ensures forall i | 0 <= i < |s| ::
              ToWellFormed(s)[i] == if IsLone(s, i) then 0xFFFD else s[i]
    decreases |s|
  {
    if s != [] {
      if |s| > 1 && IsHighSurrogate(s[0]) && IsLowSurrogate(s[1]) {
        ToWellFormedAt(s[2..]);
        PairReplaced(s);
      } else {
        ToWellFormedAt(s[1..]);
        SingleReplaced(s);
      }
    }
  }

  /** A string comes back unchanged exactly when it has no lone surrogate. */
  lemma ToWellFormedUnchanged(s: JsString)
    ensures ToWellFormed(s) == s <==> IsWellFormed(s)
  {
    ToWellFormedAt(s);
    if !IsWellFormed(s) {
      var i :| 0 <= i < |s| && IsLone(s, i);
      assert ToWellFormed(s)[i] != s[i];
    }
  }

  /** What comes back has no lone surrogate. */
  lemma ToWellFormedIsWellFormed(s: JsString)
    ensures IsWellFormed(ToWellFormed(s))
  {
    ToWellFormedAt(s);
    var r := ToWellFormed(s);
    forall i | 0 <= i < |r|
      ensures !IsLone(r, i)
    {
      if IsHighSurrogate(r[i]) {
        assert !IsLone(s, i + 1);
      } else if IsLowSurrogate(r[i]) {
        assert !IsLone(s, i - 1);
      }
    }
  }

  // ---------------------------------------------------------------------
  // The walk on bytes that are not UTF-8.

  lemma DecodeOne(bytes: seq<byte>, code: CodeUnit)
    requires |bytes| > 0 && Step(bytes, 0).0 == code && Step(bytes, 0).1 >= |bytes|
    ensures Decode(bytes) == Ok([code])
  {
    assert WalkFrom(bytes, Step(bytes, 0).1) == Ok([]);
    var u: JsString := [code];
    assert u + [] == u;
  }

  /** A stray continuation byte below 0xa0 is read as a one-byte character. */
  lemma StrayContinuation(bytes: seq<byte>)
    requires |bytes| == 1 && 0x80 <= bytes[0] < 0xa0
    ensures Decode(bytes) == Ok([bytes[0]])
  {
    DecodeOne(bytes, bytes[0]);
  }

  /** A two-byte lead at the end of the payload is completed with zero bits. */
  lemma TruncatedSequence(bytes: seq<byte>)
    requires |bytes| == 1 && 0xc0 <= bytes[0] <= 0xdf
    ensures Decode(bytes) == Ok([(bytes[0] as int - 0xc0) * 0x40])
  {
    DecodeOne(bytes, (bytes[0] as int - 0xc0) * 0x40);
  }

  /** A continuation byte from 0xa0 on is taken as the lead of a four-byte sequence. */
  lemma HighContinuation(bytes: seq<byte>, i: nat)
    requires i < |bytes| && 0xa0 <= bytes[i] <= 0xbf
    ensures Step(bytes, i).1 == 4
  {
  }

  /** A four-byte sequence above U+10FFFF makes `String.fromCodePoint` throw, and the walk with it. */
  lemma BeyondUnicode(bytes: seq<byte>, i: nat)
    requires i + 1 < |bytes| && bytes[i] == 0xf4 && 0x90 <= bytes[i + 1] <= 0xbf
    ensures Step(bytes, i).0 > 0x10FFFF
    ensures WalkFrom(bytes, i) == Err(InvalidCodePoint(Step(bytes, i).0))
  {
    DivModUnique(bytes[i], 0x08, 0x1E, 4);
    DivModUnique(bytes[i + 1], 0x40, 2, bytes[i + 1] as int - 0x80);
    var code := Step(bytes, i).0;
    assert code >= 0x10_0000 + (bytes[i + 1] as int - 0x80) * 0x1000;
    assert FromCodePoint(code) == Err(InvalidCodePoint(code));
  }
}
