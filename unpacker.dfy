/**
 * The decoder: what `unpack` reads from a byte array, as functions of the
 * bytes and a start position (`DecodeAt` and the functions it uses), and
 * `Unpacker`, which moves its cursor over the same bytes one read at a time,
 * as the source's class does.
 */
module Unpacking {
  import opened PackTypes
  import opened Numbers
  import Utf8

  /** A decoded value and the position just after its bytes. */
  datatype Decoded = Decoded(value: Value, next: nat)

  /** A decoded key-value pair, the key converted to a property name, and the position after the value. */
  datatype Property = Property(name: JsString, value: Value, next: nat)

  /** The number of bytes from position i on; 0 once i is at or past the end. */
  function Remaining(data: seq<byte>, i: nat): nat
  {
    if i < |data| then |data| - i else 0
  }

  /** `read(n)` at position i: the n bytes there, or an out-of-range failure when fewer remain. */
  function ReadAt(data: seq<byte>, i: nat, n: nat): (r: Result<seq<byte>>)
    ensures r.Ok? <==> i + n <= |data|
    ensures r.Ok? ==> |r.value| == n && data[..i] + r.value + data[i + n..] == data
    ensures r.Err? ==> r.error == OutOfRange
  {
    if i + n <= |data| then
      assert data[..i] + data[i..i + n] + data[i + n..] == data;
      Ok(data[i..i + n])
    else
      Err(OutOfRange)
  }

  /** `unpack_uint16`, `unpack_uint32`, `unpack_uint64`: n bytes read as an unsigned big-endian number. */
  function UintAt(data: seq<byte>, i: nat, n: nat): (r: Result<nat>)
    ensures r.Ok? <==> i + n <= |data|
    ensures r.Ok? ==> r.value < Pow256(n) && ToBigEndian(r.value, n) == data[i..i + n]
    ensures r.Err? ==> r.error == OutOfRange
  {
    var bytes :- ReadAt(data, i, n);
    ToFromBigEndian(bytes);
    Ok(FromBigEndian(bytes))
  }

  /** The signed readers: an unsigned number u of a width whose sign bit is `half`, in two's complement. */
  function Signed(u: int, half: int): int
  {
    if u < half then u else u - 2 * half
  }

  /**
   * The binary64 pattern of the number `unpack_float` computes from the word
   * u: `(-1)^s * (m | 2^23) * 2^(e - 150)` for u's sign bit s, exponent field
   * e and fraction field m. That number is always a normal double with the
   * same sign, the exponent rebiased by 1023 - 127 = 896 and the fraction
   * shifted left by 52 - 23 = 29 bits, so the arithmetic is exact. (For e = 0
   * and e = 255 this is not the IEEE-754 widening: the source does not treat
   * zeros, subnormals, infinities and NaNs apart.)
   */
  function WidenFloat(u: nat): Bits64
  {
    var sign := u / 0x8000_0000 % 2;
    var exp := u / 0x80_0000 % 0x100;
    var fraction := u % 0x80_0000;
    ToBigEndian(sign * 0x8000_0000_0000_0000 + (exp + 896) * 0x10_0000_0000_0000 + fraction * 0x2000_0000, 8)
  }

  /**
   * The binary64 pattern of the number `unpack_double` computes from the
   * high and low words of a pattern: `(-1)^s * (hfrac * 2^(e - 1043) +
   * l32 * 2^(e - 1075))` for the sign bit s, the exponent field e and
   * `hfrac` the top 20 fraction bits with bit 20 set.
   * - For e from 1 to 0x7fe both products and their sum are exact, and the
   *   number is the pattern's own: the pattern comes back unchanged.
   * - For e = 0x7ff, `hfrac * 2^1004` overflows, so every infinity and every
   *   NaN comes back as an infinity of the same sign.
   * - For e = 0, `2^-1075` is 0 as a double, the low word is lost, and
   *   `hfrac * 2^-1043` is the subnormal whose fraction is `hfrac * 2^31`.
   */
  function DoubleOf(h32: nat, l32: nat): Bits64
  {
    var sign := h32 / 0x8000_0000 % 2;
    var exp := h32 / 0x10_0000 % 0x800;
    if exp == 0x7ff then
      ToBigEndian(sign * 0x8000_0000_0000_0000 + 0x7ff0_0000_0000_0000, 8)
    else if exp == 0 then
      ToBigEndian(sign * 0x8000_0000_0000_0000 + (h32 % 0x10_0000 + 0x10_0000) * 0x8000_0000, 8)
    else
      ToBigEndian(h32 * 0x1_0000_0000 + l32, 8)
  }

  /** The decimal digits of n, as `Number.prototype.toString` writes an integer. */
  function Digits(n: nat): (r: JsString)
    ensures |r| >= 1 && forall k | 0 <= k < |r| :: 0x30 <= r[k] <= 0x39
    decreases n
  {
    if n < 10 then [0x30 + n] else Digits(n / 10) + [0x30 + n % 10]
  }

  /** The number a string of decimal digits denotes. */
  function DigitsValue(s: JsString): int
  {
    if s == [] then 0 else DigitsValue(s[..|s| - 1]) * 10 + (s[|s| - 1] as int - 0x30)
  }

  /** An integer written in decimal, with a leading '-' when negative. */
  function Decimal(n: int): JsString
  {
    if n < 0 then [0x2d] + Digits(-n) else Digits(n)
  }

  /** A string literal of the source, as code units. */
  function Text(s: string): JsString
  {
    seq(|s|, k requires 0 <= k < |s| => if s[k] as int < 0x1_0000 then s[k] as int else 0xFFFD)
  }

  /**
   * The property key `map[key] = ...` uses for a decoded key: JavaScript's
   * `ToPropertyKey`. Numbers other than integers, arrays and objects are keys
   * whose conversion is not modelled.
   */
  function PropertyKey(key: Value): Result<JsString>
  {
    match key
    case Str(s) => Ok(s)
    case Int(n) => Ok(Decimal(n))
    case Null => Ok(Text("null"))
    case Undefined => Ok(Text("undefined"))
    case Bool(b) => Ok(if b then Text("true") else Text("false"))
    case Bin(_) => Ok(Text("[object ArrayBuffer]"))
    case _ => Err(KeyNotModelled)
  }

  /** The keys of the properties, in order. */
  function Keys(entries: seq<Entry>): seq<JsString>
  {
    if entries == [] then [] else [entries[0].key] + Keys(entries[1..])
  }

  /** `obj[key]`: the value of the first own property with the key; Undefined when the object has no own property with the key (inherited properties are not modelled). */
  function Lookup(entries: seq<Entry>, key: JsString): Value
  {
    if entries == [] then Undefined
    else if entries[0].key == key then entries[0].value
    else Lookup(entries[1..], key)
  }

  /** No key occurs twice. */
  predicate UniqueKeys(entries: seq<Entry>)
  {
    forall a, b | 0 <= a < b < |entries| :: entries[a].key != entries[b].key
  }

  /**
   * `map[key] = value` on an object with the properties `entries`: an
   * existing property keeps its place and takes the new value; a new one is
   * added at the end. (The order is creation order for every key; JavaScript
   * enumerates array-index keys before the others, which is not modelled.)
   */
  function Assign(entries: seq<Entry>, key: JsString, value: Value): seq<Entry>
  {
    if entries == [] then [Entry(key, value)]
    else if entries[0].key == key then [Entry(key, value)] + entries[1..]
    else [entries[0]] + Assign(entries[1..], key, value)
  }

  /** The keys of a property list are read in place: one key per property. */
  lemma {:induction false} KeysAt(entries: seq<Entry>)
    ensures |Keys(entries)| == |entries|
    ensures forall k | 0 <= k < |entries| :: Keys(entries)[k] == entries[k].key
    decreases |entries|
  {
    if entries != [] {
      KeysAt(entries[1..]);
    }
  }

  /** After `obj[key] = value`, `obj[key]` is value. */
  lemma {:induction false} AssignLookup(entries: seq<Entry>, key: JsString, value: Value)
    ensures Lookup(Assign(entries, key, value), key) == value
    decreases |entries|
  {
    if entries != [] && entries[0].key != key {
      var a := Assign(entries, key, value);
      assert a[1..] == Assign(entries[1..], key, value);
      AssignLookup(entries[1..], key, value);
    }
  }

  /** `obj[key] = value` leaves every other property's value as it was. */
  lemma {:induction false} AssignOther(entries: seq<Entry>, key: JsString, value: Value, other: JsString)
    requires other != key
    ensures Lookup(Assign(entries, key, value), other) == Lookup(entries, other)
    decreases |entries|
  {
    if entries != [] && entries[0].key != key && entries[0].key != other {
      var a := Assign(entries, key, value);
      assert a[1..] == Assign(entries[1..], key, value);
      AssignOther(entries[1..], key, value, other);
    } else if entries != [] && entries[0].key == key {
      var a := Assign(entries, key, value);
      assert a[1..] == entries[1..];
    }
  }

  /** `obj[key] = value` keeps the keys in creation order, and adds key at the end when it is new. */
  lemma {:induction false} AssignKeys(entries: seq<Entry>, key: JsString, value: Value)
    ensures Keys(Assign(entries, key, value)) == if key in Keys(entries) then Keys(entries) else Keys(entries) + [key]
    decreases |entries|
  {
    if entries != [] {
      var a := Assign(entries, key, value);
      if entries[0].key == key {
        assert a[1..] == entries[1..];
      } else {
        assert a[1..] == Assign(entries[1..], key, value);
        AssignKeys(entries[1..], key, value);
        assert key in Keys(entries) <==> key in Keys(entries[1..]);
        AppendAssoc([entries[0].key], Keys(entries[1..]), [key]);
      }
    }
  }

  /** An object never holds two properties with the same key, however often a key is assigned. */
  lemma AssignUnique(entries: seq<Entry>, key: JsString, value: Value)
    requires UniqueKeys(entries)
    ensures UniqueKeys(Assign(entries, key, value))
  {
    var a := Assign(entries, key, value);
    AssignKeys(entries, key, value);
    KeysAt(entries);
    KeysAt(a);
  }

  /** `unpack_raw(size)` at position i: the size bytes there, as a byte array; the position moves by size. */
  function DecodeRaw(data: seq<byte>, i: nat, size: nat): (r: Result<Decoded>)
    ensures r.Ok? <==> i + size <= |data|
    ensures r.Err? ==> r.error == OutOfRange
    ensures r.Ok? ==> r.value.next == i + size && r.value.value.Bin? && |r.value.value.bytes| == size
    ensures r.Ok? ==> data[..i] + r.value.value.bytes + data[i + size..] == data
  {
    var bytes :- ReadAt(data, i, size);
    Ok(Decoded(Bin(bytes), i + size))
  }

  /** `unpack_string(size)` at position i: the walk over the size bytes there; the position moves by size. */
  function DecodeString(data: seq<byte>, i: nat, size: nat): Result<Decoded>
  {
    var bytes :- ReadAt(data, i, size);
    var s :- Utf8.Decode(bytes);
    Ok(Decoded(Str(s), i + size))
  }

  /**
   * `unpack()` at position i: the tag byte, then what it announces. The
   * fixints come first; every other tag goes to `DecodeSizedTag`.
   */
  function DecodeAt(data: seq<byte>, i: nat): (r: Result<Decoded>)
    ensures r.Ok? ==> r.value.next > i
    decreases Remaining(data, i), 3
  {
    var t := At(data, i);
    if t < 0x80 then Ok(Decoded(Int(t), i + 1))
    else if 0xe0 <= t then Ok(Decoded(Int(t - 0x100), i + 1))
    else DecodeSizedTag(data, i)
  }

  /**
   * The formats whose tag carries the size, for the tag byte at position i;
   * every other tag goes to `DecodeSwitch`. The source's XOR tests
   * `(type ^ base) <= width` are the range tests written here
   * (`Numbers.XorRanges`), and `type ^ base` is then `type - base`.
   */
  function DecodeSizedTag(data: seq<byte>, i: nat): (r: Result<Decoded>)
    ensures r.Ok? ==> r.value.next > i
    decreases Remaining(data, i), 2
  {
    var t := At(data, i);
    var j := i + 1;
    if 0xa0 <= t <= 0xaf then DecodeRaw(data, j, t - 0xa0)
    else if 0xb0 <= t <= 0xbf then DecodeString(data, j, t - 0xb0)
    else if 0x90 <= t <= 0x9f then DecodeItems(data, j, t - 0x90, [])
    else if 0x80 <= t <= 0x8f then DecodeEntries(data, j, t - 0x80, [])
    else DecodeSwitch(data, i)
  }

  /** The `switch (type)` of `unpack()`, for the tag byte at position i. */
  function DecodeSwitch(data: seq<byte>, i: nat): (r: Result<Decoded>)
    ensures r.Ok? ==> r.value.next > i
    decreases Remaining(data, i), 1
  {
    var t := At(data, i);
    var j := i + 1;
    if t == 0xc0 then Ok(Decoded(Null, j))
    else if t == 0xc2 then Ok(Decoded(Bool(false), j))
    else if t == 0xc3 then Ok(Decoded(Bool(true), j))
    else if t == 0xca then
      var u :- UintAt(data, j, 4);
      Ok(Decoded(Float(WidenFloat(u)), j + 4))
    else if t == 0xcb then
      var h32 :- UintAt(data, j, 4);
      var l32 :- UintAt(data, j + 4, 4);
      Ok(Decoded(Float(DoubleOf(h32, l32)), j + 8))
    else if t == 0xcc then Ok(Decoded(Int(At(data, j)), j + 1))
    else if t == 0xcd then var u :- UintAt(data, j, 2); Ok(Decoded(Int(u), j + 2))
    else if t == 0xce then var u :- UintAt(data, j, 4); Ok(Decoded(Int(u), j + 4))
    else if t == 0xcf then var u :- UintAt(data, j, 8); Ok(Decoded(Int(u), j + 8))
    else if t == 0xd0 then Ok(Decoded(Int(Signed(At(data, j), 0x80)), j + 1))
    else if t == 0xd1 then var u :- UintAt(data, j, 2); Ok(Decoded(Int(Signed(u, 0x8000)), j + 2))
    else if t == 0xd2 then var u :- UintAt(data, j, 4); Ok(Decoded(Int(Signed(u, 0x8000_0000)), j + 4))
    else if t == 0xd3 then
      var u :- UintAt(data, j, 8);
      Ok(Decoded(Int(Signed(u, 0x8000_0000_0000_0000)), j + 8))
    // 0xc1 and 0xd4..0xd7 return undefined; 0xc4..0xc9 fall off the switch
    else if t < 0xd8 then Ok(Decoded(Undefined, j))
    else DecodeSized(data, i)
  }

  /** The cases of `unpack()`'s switch from 0xd8 on: a size field, then the sized value. */
  function DecodeSized(data: seq<byte>, i: nat): (r: Result<Decoded>)
    ensures r.Ok? ==> r.value.next > i
    decreases Remaining(data, i), 0
  {
    var t := At(data, i);
    var j := i + 1;
    if t == 0xd8 then var n :- UintAt(data, j, 2); DecodeString(data, j + 2, n)
    else if t == 0xd9 then var n :- UintAt(data, j, 4); DecodeString(data, j + 4, n)
    else if t == 0xda then var n :- UintAt(data, j, 2); DecodeRaw(data, j + 2, n)
    else if t == 0xdb then var n :- UintAt(data, j, 4); DecodeRaw(data, j + 4, n)
    else if t == 0xdc then var n :- UintAt(data, j, 2); DecodeItems(data, j + 2, n, [])
    else if t == 0xdd then var n :- UintAt(data, j, 4); DecodeItems(data, j + 4, n, [])
    else if t == 0xde then var n :- UintAt(data, j, 2); DecodeEntries(data, j + 2, n, [])
    else if t == 0xdf then var n :- UintAt(data, j, 4); DecodeEntries(data, j + 4, n, [])
    // tags from 0xe0 on are negative fixints, caught before the switch
    else Ok(Decoded(Undefined, j))
  }

  /** A tag from 0xc0 to 0xdf is none of the formats with the value or the size in the tag. */
  lemma DecodeAtSwitch(data: seq<byte>, i: nat)
    requires 0xc0 <= At(data, i) < 0xe0
    ensures DecodeAt(data, i) == DecodeSwitch(data, i)
  {
  }

  /** `unpack_array`'s loop: n more elements from position i, after the elements acc already read. */
  function DecodeItems(data: seq<byte>, i: nat, n: nat, acc: seq<Value>): (r: Result<Decoded>)
    ensures r.Ok? ==> r.value.next >= i
    decreases Remaining(data, i), 4, n
  {
    if n == 0 then Ok(Decoded(Arr(acc), i))
    else
      var item :- DecodeAt(data, i);
      DecodeItems(data, item.next, n - 1, acc + [item.value])
  }

  /** `unpack_map`'s loop: n more key-value pairs from position i, assigned in turn to the properties acc. */
  function DecodeEntries(data: seq<byte>, i: nat, n: nat, acc: seq<Entry>): (r: Result<Decoded>)
    ensures r.Ok? ==> r.value.next >= i
    decreases Remaining(data, i), 4, n
  {
    if n == 0 then Ok(Decoded(Map(acc), i))
    else
      var prop :- DecodeProperty(data, i);
      DecodeEntries(data, prop.next, n - 1, Assign(acc, prop.name, prop.value))
  }

  /** One round of `unpack_map`'s loop: a key, its value, and the key as a property name. */
  function DecodeProperty(data: seq<byte>, i: nat): (r: Result<Property>)
    ensures r.Ok? ==> r.value.next >= i
    decreases Remaining(data, i), 4, 0
  {
    var key :- DecodeAt(data, i);
    var value :- DecodeAt(data, key.next);
    var name :- PropertyKey(key.value);
    Ok(Property(name, value.value, value.next))
  }

  /** The decimal text of a natural number denotes that number: integer keys keep their value as text. */
  lemma {:induction false} DigitsValueOf(n: nat)
    ensures DigitsValue(Digits(n)) == n
    decreases n
  {
    var s := Digits(n);
    if n >= 10 {
      assert s[..|s| - 1] == Digits(n / 10);
      DigitsValueOf(n / 10);
    }
  }

  // ---------------------------------------------------------------------
  // What the decoder does with tags and input it was not written for.

  /** Tags 0xc1, 0xc4 to 0xc9 and 0xd4 to 0xd7 read as undefined, with nothing after the tag. */
  lemma UndefinedTags(data: seq<byte>, i: nat)
    requires At(data, i) == 0xc1 || 0xc4 <= At(data, i) <= 0xc9 || 0xd4 <= At(data, i) <= 0xd7
    ensures DecodeAt(data, i) == Ok(Decoded(Undefined, i + 1))
  {
    DecodeAtSwitch(data, i);
  }

  /** The number of bytes of a tag's fixed-width field (a number, or a 16- or 32-bit size): 0 for tags without one. */
  function FieldWidth(t: byte): nat
  {
    if t == 0xcd || t == 0xd1 || t == 0xd8 || t == 0xda || t == 0xdc || t == 0xde then 2
    else if t == 0xca || t == 0xce || t == 0xd2 || t == 0xd9 || t == 0xdb || t == 0xdd || t == 0xdf then 4
    else if t == 0xcb || t == 0xcf || t == 0xd3 then 8
    else 0
  }

  /** A fixed-width field cut short by the end of the bytes fails: `read(n)` is bounds-checked. */
  lemma TruncatedField(data: seq<byte>, i: nat)
    requires FieldWidth(At(data, i)) > 0 && |data| < i + 1 + FieldWidth(At(data, i))
    ensures DecodeAt(data, i) == Err(OutOfRange)
  {
    DecodeAtSwitch(data, i);
  }

  /**
   * The one-byte fields of 0xcc (uint8) and 0xd0 (int8) are read by the
   * unchecked `unpack_uint8`: cut short, they read 0 and the cursor still
   * moves past both bytes.
   */
  lemma TruncatedByteField(data: seq<byte>, i: nat)
    requires i + 1 == |data| && (data[i] == 0xcc || data[i] == 0xd0)
    ensures DecodeAt(data, i) == Ok(Decoded(Int(0), i + 2))
  {
    DecodeAtSwitch(data, i);
  }

  /** A byte array or string whose size is in its tag, cut short by the end of the bytes, fails. */
  lemma TruncatedPayload(data: seq<byte>, i: nat)
    requires 0xa0 <= At(data, i) <= 0xbf && |data| < i + 1 + At(data, i) % 0x10
    ensures DecodeAt(data, i) == Err(OutOfRange)
  {
  }

  /** Past the end of the bytes, `unpack_uint8` reads 0, so `unpack()` reads the fixint 0. */
  lemma PastEnd(data: seq<byte>, i: nat)
    requires |data| <= i
    ensures DecodeAt(data, i) == Ok(Decoded(Int(0), i + 1))
  {
  }

  /** n zeros. */
  function Zeros(n: nat): seq<Value>
  {
    seq(n, _ => Int(0))
  }

  /** Elements read past the end of the bytes are zeros, one position each. */
  lemma {:induction false} ItemsPastEnd(data: seq<byte>, i: nat, n: nat, acc: seq<Value>)
    requires |data| <= i
    ensures DecodeItems(data, i, n, acc) == Ok(Decoded(Arr(acc + Zeros(n)), i + n))
    decreases n
  {
    if n == 0 {
      assert acc + Zeros(0) == acc;
    } else {
      PastEnd(data, i);
      ItemsPastEnd(data, i + 1, n - 1, acc + [Int(0)]);
      assert (acc + [Int(0)]) + Zeros(n - 1) == acc + Zeros(n);
    }
  }

  /** A fixarray tag with nothing after it reads as that many zeros: truncation inside an array does not fail. */
  lemma TruncatedArray(data: seq<byte>)
    requires |data| == 1 && 0x90 <= data[0] <= 0x9f
    ensures Decode(data) == Ok(Arr(Zeros(data[0] - 0x90)))
  {
    ItemsPastEnd(data, 1, data[0] - 0x90, []);
    assert DecodeSizedTag(data, 0) == DecodeItems(data, 1, data[0] - 0x90, []);
    assert [] + Zeros(data[0] - 0x90) == Zeros(data[0] - 0x90);
  }

  /** `unpack(data)`: the value at the start of the bytes; bytes after it are ignored. */
  function Decode(data: seq<byte>): Result<Value>
  {
    var d :- DecodeAt(data, 0);
    Ok(d.value)
  }

  /** A method's result paired with the cursor it leaves, to compare with the functions above. */
  function Positioned(r: Result<Value>, index: nat): Result<Decoded>
  {
    if r.Ok? then Ok(Decoded(r.value, index)) else Err(r.error)
  }

  /** The string walked so far in front of the rest of the walk. */
  function Prefixed(prefix: JsString, rest: Result<JsString>): Result<JsString>
  {
    if rest.Ok? then Ok(prefix + rest.value) else rest
  }

  /**
   * One round of the walk: a failing `String.fromCodePoint` is the walk's
   * failure; otherwise the string walked so far grows by its code units.
   */
  lemma WalkStepped(bytes: seq<byte>, i: nat, next: nat, code: int, str: JsString)
    requires i < |bytes| && Utf8.Step(bytes, i) == (code, next - i)
    ensures Utf8.FromCodePoint(code).Err? ==> Utf8.WalkFrom(bytes, i) == Utf8.FromCodePoint(code)
    ensures Utf8.FromCodePoint(code).Ok? ==>
              Prefixed(str + Utf8.FromCodePoint(code).value, Utf8.WalkFrom(bytes, next)) == Prefixed(str, Utf8.WalkFrom(bytes, i))
  {
    if Utf8.FromCodePoint(code).Ok? && Utf8.WalkFrom(bytes, next).Ok? {
      AppendAssoc(str, Utf8.FromCodePoint(code).value, Utf8.WalkFrom(bytes, next).value);
    }
  }

  class Unpacker {
    /** `dataView`: the bytes being decoded. */
    const data: seq<byte>
    /** `length`: their number. */
    const length: nat
    /** `index`: the cursor. */
    var index: nat

    ghost predicate Valid()
    {
      length == |data|
    }

    constructor(data: seq<byte>)
      ensures Valid() && this.data == data && index == 0
    {
      this.data := data;
      length := |data|;
      index := 0;
    }

    /** `unpack()`: dispatch on the tag byte. */
    method Unpack() returns (r: Result<Value>)
      requires Valid()
      modifies this
      ensures Positioned(r, index) == DecodeAt(data, old(index))
      decreases Remaining(data, index), 3
    {
      var t := UnpackUint8();
      if t < 0x80 {
        return Ok(Int(t));
      }
      XorE0(t);
      if Xor(t, 0xe0) < 0x20 {
        return Ok(Int(Xor(t, 0xe0) - 0x20));
      }
      r := UnpackSizedTag(t);
    }

    /**
     * The rest of `unpack()` for a tag t from 0x80 to 0xdf just read: the
     * tags that carry a size, then the switch.
     */
    method UnpackSizedTag(t: byte) returns (r: Result<Value>)
      requires Valid() && index > 0 && t == At(data, index - 1) && 0x80 <= t < 0xe0
      modifies this
      ensures Positioned(r, index) == DecodeSizedTag(data, old(index) - 1)
      decreases Remaining(data, index - 1), 2
    {
      var size := Xor(t, 0xa0);
      XorA0(t);
      if size <= 0x0f {
        r := UnpackRaw(size);
        return;
      }
      size := Xor(t, 0xb0);
      XorB0(t);
      if size <= 0x0f {
        r := UnpackString(size);
        return;
      }
      size := Xor(t, 0x90);
      Xor90(t);
      if size <= 0x0f {
        r := UnpackArray(size);
        return;
      }
      size := Xor(t, 0x80);
      Xor80(t);
      if size <= 0x0f {
        r := UnpackMap(size);
        return;
      }
      r := UnpackSwitch(t);
    }

    /** The `switch (type)` of `unpack()`, for the tag t just read. */
    method UnpackSwitch(t: byte) returns (r: Result<Value>)
      requires Valid() && index > 0 && t == At(data, index - 1)
      modifies this
      ensures Positioned(r, index) == DecodeSwitch(data, old(index) - 1)
      decreases Remaining(data, index - 1), 1
    {
      if t == 0xc0 {
        r := Ok(Null);
      } else if t == 0xc2 {
        r := Ok(Bool(false));
      } else if t == 0xc3 {
        r := Ok(Bool(true));
      } else if t == 0xca {
        r := UnpackFloat();
      } else if t == 0xcb {
        r := UnpackDouble();
      } else if t == 0xcc {
        var u := UnpackUint8();
        r := Ok(Int(u));
      } else if t == 0xcd {
        var u :- UnpackUint16();
        r := Ok(Int(u));
      } else if t == 0xce {
        var u :- UnpackUint32();
        r := Ok(Int(u));
      } else if t == 0xcf {
        var u :- UnpackUint64();
        r := Ok(Int(u));
      } else if t == 0xd0 {
        var n := UnpackInt8();
        r := Ok(Int(n));
      } else if t == 0xd1 {
        var n :- UnpackInt16();
        r := Ok(Int(n));
      } else if t == 0xd2 {
        var n :- UnpackInt32();
        r := Ok(Int(n));
      } else if t == 0xd3 {
        var n :- UnpackInt64();
        r := Ok(Int(n));
      } else if t < 0xd8 {
        r := Ok(Undefined);
      } else {
        r := UnpackSized(t);
      }
    }

    /** The cases of `unpack()`'s switch from 0xd8 on: a size field, then the sized value. */
    method UnpackSized(t: byte) returns (r: Result<Value>)
      requires Valid() && index > 0 && t == At(data, index - 1)
      modifies this
      ensures Positioned(r, index) == DecodeSized(data, old(index) - 1)
      decreases Remaining(data, index - 1), 0
    {
      if t == 0xd8 {
        var n :- UnpackUint16();
        r := UnpackString(n);
      } else if t == 0xd9 {
        var n :- UnpackUint32();
        r := UnpackString(n);
      } else if t == 0xda {
        var n :- UnpackUint16();
        r := UnpackRaw(n);
      } else if t == 0xdb {
        var n :- UnpackUint32();
        r := UnpackRaw(n);
      } else if t == 0xdc {
        var n :- UnpackUint16();
        r := UnpackArray(n);
      } else if t == 0xdd {
        var n :- UnpackUint32();
        r := UnpackArray(n);
      } else if t == 0xde {
        var n :- UnpackUint16();
        r := UnpackMap(n);
      } else if t == 0xdf {
        var n :- UnpackUint32();
        r := UnpackMap(n);
      } else {
        r := Ok(Undefined);
      }
    }

    /** `unpack_uint8()`: unchecked; past the end the byte reads as 0, and the cursor still moves. */
    method UnpackUint8() returns (r: byte)
      modifies this
      ensures r == At(data, old(index)) && index == old(index) + 1
    {
      r := if index < |data| then data[index] else 0;
      index := index + 1;
    }

    /** `unpack_uint16()`. */
    method UnpackUint16() returns (r: Result<nat>)
      requires Valid()
      modifies this
      ensures r == UintAt(data, old(index), 2)
      ensures index == if r.Ok? then old(index) + 2 else old(index)
    {
      var bytes :- Read(2);
      FromBigEndian2(bytes);
      r := Ok((bytes[0] as int) * 256 + bytes[1]);
      index := index + 2;
    }

    /** `unpack_uint32()`. */
    method UnpackUint32() returns (r: Result<nat>)
      requires Valid()
      modifies this
      ensures r == UintAt(data, old(index), 4)
      ensures index == if r.Ok? then old(index) + 4 else old(index)
    {
      var bytes :- Read(4);
      FromBigEndian4(bytes);
      r := Ok((((bytes[0] as int) * 256 + bytes[1]) * 256 + bytes[2]) * 256 + bytes[3]);
      index := index + 4;
    }

    /** `unpack_uint64()`, with exact integers. */
    method UnpackUint64() returns (r: Result<nat>)
      requires Valid()
      modifies this
      ensures r == UintAt(data, old(index), 8)
      ensures index == if r.Ok? then old(index) + 8 else old(index)
    {
      var bytes :- Read(8);
      FromBigEndian8(bytes);
      r := Ok((((((((bytes[0] as int) * 256 + bytes[1]) * 256 + bytes[2]) * 256 + bytes[3]) * 256 + bytes[4])
                 * 256 + bytes[5]) * 256 + bytes[6]) * 256 + bytes[7]);
      index := index + 8;
    }

    /** `unpack_int8()`. */
    method UnpackInt8() returns (r: int)
      modifies this
      ensures r == Signed(At(data, old(index)), 0x80) && index == old(index) + 1
    {
      var u := UnpackUint8();
      r := if u < 0x80 then u else u as int - 0x100;
    }

    /** `unpack_int16()`. */
    method UnpackInt16() returns (r: Result<int>)
      requires Valid()
      modifies this
      ensures r.Ok? <==> UintAt(data, old(index), 2).Ok?
      ensures r.Ok? ==> r.value == Signed(UintAt(data, old(index), 2).value, 0x8000) && index == old(index) + 2
      ensures r.Err? ==> r.error == OutOfRange && index == old(index)
    {
      var u :- UnpackUint16();
      r := Ok(if u < 0x8000 then u else u as int - 0x1_0000);
    }

    /** `unpack_int32()`. */
    method UnpackInt32() returns (r: Result<int>)
      requires Valid()
      modifies this
      ensures r.Ok? <==> UintAt(data, old(index), 4).Ok?
      ensures r.Ok? ==> r.value == Signed(UintAt(data, old(index), 4).value, 0x8000_0000) && index == old(index) + 4
      ensures r.Err? ==> r.error == OutOfRange && index == old(index)
    {
      var u :- UnpackUint32();
      r := Ok(if u < 0x8000_0000 then u else u as int - 0x1_0000_0000);
    }

    /** `unpack_int64()`, with exact integers. */
    method UnpackInt64() returns (r: Result<int>)
      requires Valid()
      modifies this
      ensures r.Ok? <==> UintAt(data, old(index), 8).Ok?
      ensures r.Ok? ==> r.value == Signed(UintAt(data, old(index), 8).value, 0x8000_0000_0000_0000)
                        && index == old(index) + 8
      ensures r.Err? ==> r.error == OutOfRange && index == old(index)
    {
      var u :- UnpackUint64();
      r := Ok(if u < 0x8000_0000_0000_0000 then u else u as int - 0x1_0000_0000_0000_0000);
    }

    /** `unpack_raw(size)`: checked against `length`; the cursor moves only on success. */
    method UnpackRaw(size: nat) returns (r: Result<Value>)
      requires Valid()
      modifies this
      ensures Positioned(r, index) == DecodeRaw(data, old(index), size)
      ensures r.Err? ==> index == old(index)
    {
      if length < index + size {
        return Err(OutOfRange);
      }
      var buf := data[index..index + size];
      index := index + size;
      r := Ok(Bin(buf));
    }

    /**
     * `unpack_string(size)`: the walk runs over the size bytes read, one
     * sequence at a time, and may step past their end; the cursor then moves
     * by exactly size.
     */
    method UnpackString(size: nat) returns (r: Result<Value>)
      requires Valid()
      modifies this
      ensures Positioned(r, index) == DecodeString(data, old(index), size)
      ensures r.Err? ==> index == old(index)
    {
      var bytes :- Read(size);
      var i := 0;
      var str: JsString := [];
      if Utf8.Decode(bytes).Ok? {
        assert [] + Utf8.Decode(bytes).value == Utf8.Decode(bytes).value;
      }
      while i < size
        invariant index == old(index)
        invariant Prefixed(str, Utf8.WalkFrom(bytes, i)) == Utf8.Decode(bytes)
        decreases size - i
      {
        var code, i0 := 0, i;
        code, i := WalkStep(bytes, i);
        WalkStepped(bytes, i0, i, code, str);
        var units :- Utf8.FromCodePoint(code);
        str := str + units;
      }
      assert str + [] == str;
      index := index + size;
      r := Ok(Str(str));
    }

    /**
     * One round of `unpack_string`'s loop up to `String.fromCodePoint`: the
     * lead byte at i picks the width, and the code is assembled from the
     * bytes there; a byte past the end reads as 0.
     */
    method WalkStep(bytes: seq<byte>, i: nat) returns (code: int, next: nat)
      requires i < |bytes|
      ensures Utf8.Step(bytes, i) == (code, next - i)
    {
      var c := bytes[i];
      XorC0(c);
      XorE0(c);
      if c < 0xa0 {
        code := c;
        next := i + 1;
      } else if Xor(c, 0xc0) < 0x20 {
        code := (c % 0x20) * 0x40 + At(bytes, i + 1) % 0x40;
        next := i + 2;
      } else if Xor(c, 0xe0) < 0x10 {
        code := (c % 0x10) * 0x1000 + (At(bytes, i + 1) % 0x40) * 0x40 + At(bytes, i + 2) % 0x40;
        next := i + 3;
      } else {
        code := (c % 0x08) * 0x4_0000 + (At(bytes, i + 1) % 0x40) * 0x1000
                + (At(bytes, i + 2) % 0x40) * 0x40 + At(bytes, i + 3) % 0x40;
        next := i + 4;
      }
    }

    /** `unpack_array(size)`: size elements, each unpacked in turn. */
    method UnpackArray(size: nat) returns (r: Result<Value>)
      requires Valid()
      modifies this
      ensures Positioned(r, index) == DecodeItems(data, old(index), size, [])
      decreases Remaining(data, index), 4, size
    {
      var objects: seq<Value> := [];
      for i := 0 to size
        invariant index >= old(index)
        invariant DecodeItems(data, index, size - i, objects) == DecodeItems(data, old(index), size, [])
      {
        var item :- Unpack();
        objects := objects + [item];
      }
      r := Ok(Arr(objects));
    }

    /** `unpack_map(size)`: size pairs, each a key unpacked and then its value. */
    method UnpackMap(size: nat) returns (r: Result<Value>)
      requires Valid()
      modifies this
      ensures Positioned(r, index) == DecodeEntries(data, old(index), size, [])
      decreases Remaining(data, index), 4, size
    {
      var props: seq<Entry> := [];
      for i := 0 to size
        invariant index >= old(index)
        invariant DecodeEntries(data, index, size - i, props) == DecodeEntries(data, old(index), size, [])
      {
        var prop :- UnpackProperty();
        props := Assign(props, prop.name, prop.value);
      }
      r := Ok(Map(props));
    }

    /** One round of `unpack_map`'s loop: unpack a key, then its value, and convert the key. */
    method UnpackProperty() returns (r: Result<Property>)
      requires Valid()
      modifies this
      ensures r == DecodeProperty(data, old(index))
      ensures r.Ok? ==> index == r.value.next
      decreases Remaining(data, index), 4, 0
    {
      var key :- Unpack();
      var value :- Unpack();
      var name :- PropertyKey(key);
      r := Ok(Property(name, value, index));
    }

    /** `unpack_float()`: a 32-bit word, widened as `WidenFloat` describes. */
    method UnpackFloat() returns (r: Result<Value>)
      requires Valid()
      modifies this
      ensures Positioned(r, index) == (var u :- UintAt(data, old(index), 4); Ok(Decoded(Float(WidenFloat(u)), old(index) + 4)))
    {
      var u :- UnpackUint32();
      r := Ok(Float(WidenFloat(u)));
    }

    /** `unpack_double()`: the high word, then the low word, combined as `DoubleOf` describes. */
    method UnpackDouble() returns (r: Result<Value>)
      requires Valid()
      modifies this
      ensures Positioned(r, index)
              == (var h32 :- UintAt(data, old(index), 4);
                  var l32 :- UintAt(data, old(index) + 4, 4);
                  Ok(Decoded(Float(DoubleOf(h32, l32)), old(index) + 8)))
    {
      var h32 :- UnpackUint32();
      var l32 :- UnpackUint32();
      r := Ok(Float(DoubleOf(h32, l32)));
    }

    /** `read(n)`: the n bytes at the cursor, which does not move; out of range past `length`. */
    method Read(n: nat) returns (r: Result<seq<byte>>)
      requires Valid()
      ensures r == ReadAt(data, index, n)
    {
      var j := index;
      if j + n <= length {
        r := Ok(data[j..j + n]);
      } else {
        r := Err(OutOfRange);
      }
    }
  }

  /** `unpack(data)`: a fresh unpacker, unpacked once. */
  method Unpack(data: seq<byte>) returns (r: Result<Value>)
    ensures r == Decode(data)
  {
    var unpacker := new Unpacker(data);
    r := unpacker.Unpack();
  }
}
