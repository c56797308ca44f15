/**
 * What `unpack(pack(v))` gives: the decoder reads back every encoding the
 * encoder writes, with the changes the codec makes on the way
 * (`Canonical`), and nothing more.
 */
module RoundTrip {
  import opened PackTypes
  import opened Numbers
  import Utf8
  import opened Packing
  import opened Unpacking

  /** The bytes at position p of data are `bytes`. */
  predicate HasAt(data: seq<byte>, p: nat, bytes: seq<byte>)
  {
    p + |bytes| <= |data| && data[p..p + |bytes|] == bytes
  }

  /** Bytes written one after another can be found one after another. */
  lemma HasAtSplit(data: seq<byte>, p: nat, a: seq<byte>, b: seq<byte>)
    requires HasAt(data, p, a + b)
    ensures HasAt(data, p, a) && HasAt(data, p + |a|, b)
  {
    assert data[p..p + |a|] == (a + b)[..|a|];
    assert data[p + |a|..p + |a| + |b|] == (a + b)[|a|..];
  }

  lemma HasAtFirst(data: seq<byte>, p: nat, bytes: seq<byte>)
    requires HasAt(data, p, bytes) && |bytes| > 0
    ensures At(data, p) == bytes[0]
  {
    assert data[p..p + |bytes|][0] == data[p];
  }

  /** A word read where a byte sequence s was written is the number s denotes. */
  lemma UintAtBytes(data: seq<byte>, p: nat, s: seq<byte>)
    requires HasAt(data, p, s)
    ensures UintAt(data, p, |s|) == Ok(FromBigEndian(s))
  {
    var u := UintAt(data, p, |s|).value;
    ToFromBigEndian(s);
    FromToBigEndian(u, |s|);
    DivModUnique(u, Pow256(|s|), 0, u);
  }

  /** A word read where n was written in k bytes is n modulo 256^k. */
  lemma UintAtWritten(data: seq<byte>, p: nat, n: int, k: nat)
    requires HasAt(data, p, ToBigEndian(n, k))
    ensures UintAt(data, p, k) == Ok(n % Pow256(k))
  {
    UintAtBytes(data, p, ToBigEndian(n, k));
    FromToBigEndian(n, k);
  }

  /** What the decoder reads after a header for n elements of a kind, at position q. */
  function Payload(kind: Kind, data: seq<byte>, q: nat, n: nat): Result<Decoded>
  {
    match kind
    case BinKind => DecodeRaw(data, q, n)
    case StrKind => DecodeString(data, q, n)
    case ArrKind => DecodeItems(data, q, n, [])
    case MapKind => DecodeEntries(data, q, n, [])
  }

  lemma FixHeaderDecoded(kind: Kind, n: nat, data: seq<byte>, p: nat)
    requires n <= 0x0f && HasAt(data, p, Header(kind, n).value)
    ensures DecodeAt(data, p) == Payload(kind, data, p + 1, n)
  {
    HasAtFirst(data, p, Header(kind, n).value);
  }

  lemma Header16Decoded(kind: Kind, n: nat, data: seq<byte>, p: nat)
    requires 0x0f < n <= 0xffff && HasAt(data, p, Header(kind, n).value)
    ensures DecodeAt(data, p) == Payload(kind, data, p + 3, n)
  {
    var h := Header(kind, n).value;
    HasAtFirst(data, p, h);
    HasAtSplit(data, p, [Tag16(kind)], ToBigEndian(n, 2));
    UintAtWritten(data, p + 1, n, 2);
    Pow256Values();
    DivModUnique(n, 0x1_0000, 0, n);
    DecodeAtSwitch(data, p);
  }

  lemma Header32Decoded(kind: Kind, n: nat, data: seq<byte>, p: nat)
    requires 0xffff < n <= 0xffff_ffff && HasAt(data, p, Header(kind, n).value)
    ensures DecodeAt(data, p) == Payload(kind, data, p + 5, n)
  {
    var h := Header(kind, n).value;
    HasAtFirst(data, p, h);
    HasAtSplit(data, p, [Tag32(kind)], ToBigEndian(n, 4));
    UintAtWritten(data, p + 1, n, 4);
    Pow256Values();
    DivModUnique(n, 0x1_0000_0000, 0, n);
    DecodeAtSwitch(data, p);
  }

  /**
   * The size classes are read back: after any header `pack` writes for n
   * elements, `unpack` reads a payload of n elements of the same kind, right
   * after the header.
   */
  lemma HeaderDecoded(kind: Kind, n: nat, data: seq<byte>, p: nat)
    requires Header(kind, n).Ok? && HasAt(data, p, Header(kind, n).value)
    ensures DecodeAt(data, p) == Payload(kind, data, p + |Header(kind, n).value|, n)
  {
    if n <= 0x0f {
      FixHeaderDecoded(kind, n, data, p);
    } else if n <= 0xffff {
      Header16Decoded(kind, n, data, p);
    } else {
      Header32Decoded(kind, n, data, p);
    }
  }

  // ---------------------------------------------------------------------
  // Integers.

  /**
   * The integer `unpack` returns for the integer n that `pack` wrote. The
   * int64 branch takes 2^63, whose bytes read back as -2^63, and the uint64
   * branch takes 2^64, whose bytes are all zero; every other n comes back.
   */
  function IntBack(n: int): int
  {
    if n == 0x8000_0000_0000_0000 then -0x8000_0000_0000_0000
    else if n == 0x1_0000_0000_0000_0000 then 0
    else n
  }

  /** A two's-complement word read back as a signed number. */
  lemma SignedBack(n: int, half: nat)
    requires half > 0 && -(half as int) <= n < half
    ensures Signed(n % (2 * half), half) == n
  {
    if n < 0 {
      DivModUnique(n, 2 * half, -1, n + 2 * half);
    } else {
      DivModUnique(n, 2 * half, 0, n);
    }
  }

  lemma FixnumDecoded(n: int, data: seq<byte>, p: nat)
    requires FormOf(n).Fixnum? && HasAt(data, p, EncodeInteger(n).value)
    ensures ValueAt(data, p, Int(n), p + 1)
  {
    HasAtFirst(data, p, EncodeInteger(n).value);
    if n < 0 {
      DivModUnique(n, 0x100, -1, n + 0x100);
    } else {
      DivModUnique(n, 0x100, 0, n);
    }
  }

  lemma Tagged1Decoded(n: int, data: seq<byte>, p: nat)
    requires FormOf(n).Tagged? && FormOf(n).width == 1 && HasAt(data, p, EncodeInteger(n).value)
    ensures ValueAt(data, p, Int(n), p + 2)
  {
    var tag := FormOf(n).tag;
    HasAtFirst(data, p, EncodeInteger(n).value);
    HasAtSplit(data, p, [tag], ToBigEndian(n, 1));
    BigEndian1(n);
    HasAtFirst(data, p + 1, ToBigEndian(n, 1));
    DecodeAtSwitch(data, p);
    if tag == 0xd0 {
      SignedBack(n, 0x80);
    } else {
      DivModUnique(n, 0x100, 0, n);
    }
  }

  lemma TaggedWordDecoded(n: int, data: seq<byte>, p: nat)
    requires FormOf(n).Tagged? && (FormOf(n).width == 2 || FormOf(n).width == 4) && HasAt(data, p, EncodeInteger(n).value)
    ensures ValueAt(data, p, Int(n), p + 1 + FormOf(n).width)
  {
    var tag, k := FormOf(n).tag, FormOf(n).width;
    HasAtFirst(data, p, EncodeInteger(n).value);
    HasAtSplit(data, p, [tag], ToBigEndian(n, k));
    UintAtWritten(data, p + 1, n, k);
    Pow256Values();
    DecodeAtSwitch(data, p);
    if tag == 0xd1 {
      SignedBack(n, 0x8000);
    } else if tag == 0xd2 {
      SignedBack(n, 0x8000_0000);
    } else if tag == 0xcd {
      DivModUnique(n, 0x1_0000, 0, n);
    } else {
      DivModUnique(n, 0x1_0000_0000, 0, n);
    }
  }

  lemma Tagged8Decoded(n: int, data: seq<byte>, p: nat)
    requires FormOf(n).Tagged? && FormOf(n).width == 8 && HasAt(data, p, EncodeInteger(n).value)
    ensures ValueAt(data, p, Int(IntBack(n)), p + 9)
  {
    var tag := FormOf(n).tag;
    HasAtFirst(data, p, EncodeInteger(n).value);
    HasAtSplit(data, p, [tag], ToBigEndian(n, 8));
    UintAtWritten(data, p + 1, n, 8);
    Pow256Values();
    DecodeAtSwitch(data, p);
    if tag == 0xd3 {
      if n == 0x8000_0000_0000_0000 {
        DivModUnique(n, 0x1_0000_0000_0000_0000, 0, n);
      } else {
        SignedBack(n, 0x8000_0000_0000_0000);
      }
    } else if n == 0x1_0000_0000_0000_0000 {
      DivModUnique(n, 0x1_0000_0000_0000_0000, 1, 0);
    } else {
      DivModUnique(n, 0x1_0000_0000_0000_0000, 0, n);
    }
  }

  /**
   * Integer decoding inverts integer encoding, in every width class: the
   * bytes `pack_integer` writes for n are read back as n (but for 2^63 and
   * 2^64, see `IntBack`), and the cursor ends just after them.
   */
  lemma IntegerDecoded(n: int, data: seq<byte>, p: nat)
    requires EncodeInteger(n).Ok? && HasAt(data, p, EncodeInteger(n).value)
    ensures ValueAt(data, p, Int(IntBack(n)), p + |EncodeInteger(n).value|)
  {
    match FormOf(n)
    case Fixnum => FixnumDecoded(n, data, p);
    case Tagged(tag, width) =>
      if width == 1 {
        Tagged1Decoded(n, data, p);
      } else if width == 8 {
        Tagged8Decoded(n, data, p);
      } else {
        TaggedWordDecoded(n, data, p);
      }
  }

  /** `pack_integer` accepts exactly the integers from -2^63 to 2^64. */
  lemma EncodeIntegerDomain(n: int)
    ensures EncodeInteger(n).Ok? <==> -0x8000_0000_0000_0000 <= n <= 0x1_0000_0000_0000_0000
  {
  }
  // ---------------------------------------------------------------------
  // Values.

  /**
   * The value `unpack(pack(v))` returns for a value v that `pack` accepts:
   * undefined becomes null; integers come back but for 2^63 and 2^64; a
   * double comes back as `unpack_double` rebuilds it from its two words;
   * strings lose their lone surrogates, as `TextEncoder` replaces them; a
   * date is its text; a typed-array view is its window of bytes; array
   * elements come back in order; and the properties of an object are
   * assigned in order to a fresh object, so a later duplicate key overwrites
   * an earlier one in its place.
   */
  function Canonical(v: Value): Value
    decreases v
  {
    match v
    case Null => Null
    case Undefined => Null
    case Bool(_) => v
    case Int(n) => Int(IntBack(n))
    case Float(bits) => Float(DoubleOf(FromBigEndian(bits[..4]), FromBigEndian(bits[4..])))
    case Str(s) => Str(Utf8.ToWellFormed(s))
    case Bin(_) => v
    case Arr(items) => Arr(CanonicalItems(items))
    case Map(entries) => Map(CanonicalEntries([], entries))
    case Date(text) => Str(Utf8.ToWellFormed(text))
    case View(_, window, _) => Bin(window)
    case Unsupported(_) => v
  }

  function CanonicalItems(items: seq<Value>): seq<Value>
    decreases items
  {
    if items == [] then [] else [Canonical(items[0])] + CanonicalItems(items[1..])
  }

  /** The properties `entries` assigned in order to an object that has the properties acc. */
  function CanonicalEntries(acc: seq<Entry>, entries: seq<Entry>): seq<Entry>
    decreases entries
  {
    if entries == [] then acc
    else
      var e := entries[0];
      CanonicalEntries(Assign(acc, Utf8.ToWellFormed(e.key), Canonical(e.value)), entries[1..])
  }

  /** The bytes of an array's elements are the first element's bytes followed by the rest's. */
  lemma {:induction false} EncodeItemsFront(items: seq<Value>)
    requires items != [] && EncodeItems(items).Ok?
    ensures Encode(items[0]).Ok? && EncodeItems(items[1..]).Ok?
    ensures EncodeItems(items).value == Encode(items[0]).value + EncodeItems(items[1..]).value
    decreases |items|
  {
    var front, last := items[..|items| - 1], items[|items| - 1];
    if |items| == 1 {
      assert front == [] && items[1..] == [];
    } else {
      EncodeItemsFront(front);
      var rest := items[1..];
      assert rest[..|rest| - 1] == front[1..] && rest[|rest| - 1] == last;
      assert front[0] == items[0];
      AppendAssoc(Encode(items[0]).value, EncodeItems(front[1..]).value, Encode(last).value);
    }
  }

  /** The bytes of an object's properties are the first property's bytes followed by the rest's. */
  lemma {:induction false} EncodeEntriesFront(entries: seq<Entry>)
    requires entries != [] && EncodeEntries(entries).Ok?
    ensures EncodeEntry(entries[0]).Ok? && EncodeEntries(entries[1..]).Ok?
    ensures EncodeEntries(entries).value == EncodeEntry(entries[0]).value + EncodeEntries(entries[1..]).value
    decreases |entries|
  {
    var front, last := entries[..|entries| - 1], entries[|entries| - 1];
    if |entries| == 1 {
      assert front == [] && entries[1..] == [];
    } else {
      EncodeEntriesFront(front);
      var rest := entries[1..];
      assert rest[..|rest| - 1] == front[1..] && rest[|rest| - 1] == last;
      assert front[0] == entries[0];
      AppendAssoc(EncodeEntry(entries[0]).value, EncodeEntries(front[1..]).value, EncodeEntry(last).value);
    }
  }

  /** A string is read back with its lone surrogates replaced. */
  lemma StringDecoded(s: JsString, data: seq<byte>, p: nat)
    requires EncodeString(s).Ok? && HasAt(data, p, EncodeString(s).value)
    ensures ValueAt(data, p, Str(Utf8.ToWellFormed(s)), p + |EncodeString(s).value|)
  {
    var bytes := Utf8.Encode(s);
    var h := Header(StrKind, |bytes|).value;
    HasAtSplit(data, p, h, bytes);
    HeaderDecoded(StrKind, |bytes|, data, p);
    Utf8.DecodeEncode(s);
  }

  /** A byte array is read back as the same bytes. */
  lemma BinaryDecoded(bytes: seq<byte>, data: seq<byte>, p: nat)
    requires EncodeBinary(bytes).Ok? && HasAt(data, p, EncodeBinary(bytes).value)
    ensures ValueAt(data, p, Bin(bytes), p + |EncodeBinary(bytes).value|)
  {
    var h := Header(BinKind, |bytes|).value;
    HasAtSplit(data, p, h, bytes);
    HeaderDecoded(BinKind, |bytes|, data, p);
  }

  /** A double is read back from its high and low words. */
  lemma FloatDecoded(bits: Bits64, data: seq<byte>, p: nat)
    requires HasAt(data, p, [0xcb] + bits)
    ensures ValueAt(data, p, Canonical(Float(bits)), p + 9)
  {
    HasAtFirst(data, p, [0xcb] + bits);
    HasAtSplit(data, p, [0xcb], bits);
    assert bits == bits[..4] + bits[4..];
    HasAtSplit(data, p + 1, bits[..4], bits[4..]);
    UintAtBytes(data, p + 1, bits[..4]);
    UintAtBytes(data, p + 5, bits[4..]);
    DecodeAtSwitch(data, p);
  }

  /** A value without payload is read back from its one tag byte. */
  lemma ConstantDecoded(v: Value, data: seq<byte>, p: nat)
    requires v.Null? || v.Undefined? || v.Bool?
    requires HasAt(data, p, Encode(v).value)
    ensures ValueAt(data, p, Canonical(v), p + 1)
  {
    HasAtFirst(data, p, Encode(v).value);
    DecodeAtSwitch(data, p);
  }

  /*
   * The statements below about what the decoder reads are phrased through
   * the predicates ValueAt, ItemsAt, PropertyAt and EntriesAt, and the steps
   * of `unpack_array`'s and `unpack_map`'s loops through ItemsCons and
   * EntriesCons, so that each proof unfolds the decoder one level only.
   */

  /** `unpack()` at position p reads v and leaves the cursor at next. */
  predicate ValueAt(data: seq<byte>, p: nat, v: Value, next: nat)
  {
    DecodeAt(data, p) == Ok(Decoded(v, next))
  }

  /** n elements read after the elements acc give the elements items, ending at next. */
  predicate ItemsAt(data: seq<byte>, p: nat, n: nat, acc: seq<Value>, items: seq<Value>, next: nat)
  {
    DecodeItems(data, p, n, acc) == Ok(Decoded(Arr(items), next))
  }

  /** One key and its value read at p as the property prop. */
  predicate PropertyAt(data: seq<byte>, p: nat, prop: Property)
  {
    DecodeProperty(data, p) == Ok(prop)
  }

  /** n properties read and assigned to the properties acc give the properties m, ending at next. */
  predicate EntriesAt(data: seq<byte>, p: nat, n: nat, acc: seq<Entry>, m: seq<Entry>, next: nat)
  {
    DecodeEntries(data, p, n, acc) == Ok(Decoded(Map(m), next))
  }

  /** One round of `unpack_array`'s loop: an element, then the rest. */
  lemma ItemsCons(data: seq<byte>, p: nat, n: nat, acc: seq<Value>, v: Value, q: nat, items: seq<Value>, next: nat)
    requires n > 0 && ValueAt(data, p, v, q) && ItemsAt(data, q, n - 1, acc + [v], items, next)
    ensures ItemsAt(data, p, n, acc, items, next)
  {
  }

  /** A key followed by its value is one property. */
  lemma PropertyCons(data: seq<byte>, p: nat, name: JsString, q: nat, v: Value, next: nat)
    requires ValueAt(data, p, Str(name), q) && ValueAt(data, q, v, next)
    ensures PropertyAt(data, p, Property(name, v, next))
  {
  }

  /** One round of `unpack_map`'s loop: a property assigned, then the rest. */
  lemma EntriesCons(data: seq<byte>, p: nat, n: nat, acc: seq<Entry>, name: JsString, v: Value, q: nat,
                    m: seq<Entry>, next: nat)
    requires n > 0 && PropertyAt(data, p, Property(name, v, q))
    requires EntriesAt(data, q, n - 1, Assign(acc, name, v), m, next)
    ensures EntriesAt(data, p, n, acc, m, next)
  {
  }

  /**
   * Decoding inverts encoding: where `pack` wrote the bytes of v, `unpack`
   * reads `Canonical(v)` and its cursor ends right after those bytes.
   */
  lemma {:induction false} ValueDecoded(v: Value, data: seq<byte>, p: nat)
    requires Encode(v).Ok? && HasAt(data, p, Encode(v).value)
    ensures ValueAt(data, p, Canonical(v), p + |Encode(v).value|)
    decreases v, 0
  {
    match v
    case Null => ConstantDecoded(v, data, p);
    case Undefined => ConstantDecoded(v, data, p);
    case Bool(_) => ConstantDecoded(v, data, p);
    case Int(n) => IntegerDecoded(n, data, p);
    case Float(bits) => FloatDecoded(bits, data, p);
    case Str(s) => StringDecoded(s, data, p);
    case Date(text) => StringDecoded(text, data, p);
    case Bin(bytes) => BinaryDecoded(bytes, data, p);
    case View(_, window, _) => BinaryDecoded(window, data, p);
    case Arr(items) => ArrayDecoded(items, data, p);
    case Map(entries) => MapDecoded(entries, data, p);
  }

  /** An array is read back element by element. */
  lemma {:induction false} ArrayDecoded(items: seq<Value>, data: seq<byte>, p: nat)
    requires EncodeArray(items).Ok? && HasAt(data, p, EncodeArray(items).value)
    ensures ValueAt(data, p, Arr(CanonicalItems(items)), p + |EncodeArray(items).value|)
    decreases items, 2
  {
    var h := Header(ArrKind, |items|).value;
    HasAtSplit(data, p, h, EncodeItems(items).value);
    HeaderDecoded(ArrKind, |items|, data, p);
    ItemsDecoded(items, data, p + |h|, []);
    assert [] + CanonicalItems(items) == CanonicalItems(items);
  }

  /** An object is read back property by property. */
  lemma {:induction false} MapDecoded(entries: seq<Entry>, data: seq<byte>, p: nat)
    requires EncodeMap(entries).Ok? && HasAt(data, p, EncodeMap(entries).value)
    ensures ValueAt(data, p, Map(CanonicalEntries([], entries)), p + |EncodeMap(entries).value|)
    decreases entries, 2
  {
    var h := Header(MapKind, |entries|).value;
    HasAtSplit(data, p, h, EncodeEntries(entries).value);
    HeaderDecoded(MapKind, |entries|, data, p);
    EntriesDecoded(entries, data, p + |h|, []);
  }

  /** One property is read back: its key as a well-formed string, then its value. */
  lemma {:induction false} EntryDecoded(e: Entry, data: seq<byte>, p: nat)
    requires EncodeEntry(e).Ok? && HasAt(data, p, EncodeEntry(e).value)
    ensures PropertyAt(data, p, Property(Utf8.ToWellFormed(e.key), Canonical(e.value), p + |EncodeEntry(e).value|))
    decreases e
  {
    var k, w := EncodeString(e.key).value, Encode(e.value).value;
    assert EncodeEntry(e).value == k + w;
    HasAtSplit(data, p, k, w);
    StringDecoded(e.key, data, p);
    ValueDecoded(e.value, data, p + |k|);
    PropertyCons(data, p, Utf8.ToWellFormed(e.key), p + |k|, Canonical(e.value), p + |k| + |w|);
  }

  /** `unpack_array`'s loop reads back the elements `pack_array` wrote, in order. */
  lemma {:induction false} ItemsDecoded(items: seq<Value>, data: seq<byte>, p: nat, acc: seq<Value>)
    requires EncodeItems(items).Ok? && HasAt(data, p, EncodeItems(items).value)
    ensures ItemsAt(data, p, |items|, acc, acc + CanonicalItems(items), p + |EncodeItems(items).value|)
    decreases items, 1
  {
    if items == [] {
      assert acc + [] == acc;
    } else {
      var v, rest := items[0], items[1..];
      ItemsStep(items, data, p);
      var c, q := Canonical(v), p + |Encode(v).value|;
      ItemsDecoded(rest, data, q, acc + [c]);
      ItemsCons(data, p, |items|, acc, c, q, (acc + [c]) + CanonicalItems(rest), q + |EncodeItems(rest).value|);
      AppendAssoc(acc, [c], CanonicalItems(rest));
    }
  }

  /** The first element of items is read back, and the rest were written right after it. */
  lemma {:induction false} ItemsStep(items: seq<Value>, data: seq<byte>, p: nat)
    requires items != [] && EncodeItems(items).Ok? && HasAt(data, p, EncodeItems(items).value)
    ensures Encode(items[0]).Ok? && EncodeItems(items[1..]).Ok?
    ensures |EncodeItems(items).value| == |Encode(items[0]).value| + |EncodeItems(items[1..]).value|
    ensures HasAt(data, p + |Encode(items[0]).value|, EncodeItems(items[1..]).value)
    ensures ValueAt(data, p, Canonical(items[0]), p + |Encode(items[0]).value|)
    decreases items, 0
  {
    EncodeItemsFront(items);
    HasAtSplit(data, p, Encode(items[0]).value, EncodeItems(items[1..]).value);
    ValueDecoded(items[0], data, p);
  }

  /** `unpack_map`'s loop reads back the properties `pack_object` wrote and assigns them in order. */
  lemma {:induction false} EntriesDecoded(entries: seq<Entry>, data: seq<byte>, p: nat, acc: seq<Entry>)
    requires EncodeEntries(entries).Ok? && HasAt(data, p, EncodeEntries(entries).value)
    ensures EntriesAt(data, p, |entries|, acc, CanonicalEntries(acc, entries), p + |EncodeEntries(entries).value|)
    decreases entries, 1
  {
    if entries != [] {
      var e, rest := entries[0], entries[1..];
      EntriesStep(entries, data, p);
      var name, c, q := Utf8.ToWellFormed(e.key), Canonical(e.value), p + |EncodeEntry(e).value|;
      var acc' := Assign(acc, name, c);
      var m, next := CanonicalEntries(acc, entries), p + |EncodeEntries(entries).value|;
      assert m == CanonicalEntries(acc', rest) && next == q + |EncodeEntries(rest).value|;
      EntriesDecoded(rest, data, q, acc');
      EntriesCons(data, p, |entries|, acc, name, c, q, m, next);
    } else {
      assert EncodeEntries(entries) == Ok([]);
    }
  }

  /** The first property of entries is read back, and the rest were written right after it. */
  lemma {:induction false} EntriesStep(entries: seq<Entry>, data: seq<byte>, p: nat)
    requires entries != [] && EncodeEntries(entries).Ok? && HasAt(data, p, EncodeEntries(entries).value)
    ensures EncodeEntry(entries[0]).Ok? && EncodeEntries(entries[1..]).Ok?
    ensures |EncodeEntries(entries).value| == |EncodeEntry(entries[0]).value| + |EncodeEntries(entries[1..]).value|
    ensures HasAt(data, p + |EncodeEntry(entries[0]).value|, EncodeEntries(entries[1..]).value)
    ensures PropertyAt(data, p, Property(Utf8.ToWellFormed(entries[0].key), Canonical(entries[0].value),
                                         p + |EncodeEntry(entries[0]).value|))
    decreases entries, 0
  {
    EncodeEntriesFront(entries);
    HasAtSplit(data, p, EncodeEntry(entries[0]).value, EncodeEntries(entries[1..]).value);
    EntryDecoded(entries[0], data, p);
  }

  /** `unpack(pack(v))` is `Canonical(v)` for every value `pack` accepts. */
  lemma RoundTrip(v: Value)
    requires Encode(v).Ok?
    ensures Decode(Encode(v).value) == Ok(Canonical(v))
  {
    ValueDecoded(v, Encode(v).value, 0);
  }

  /** The decoded object has each key once: a later duplicate key overwrites the earlier value in its place. */
  lemma {:induction false} CanonicalUnique(acc: seq<Entry>, entries: seq<Entry>)
    requires UniqueKeys(acc)
    ensures UniqueKeys(CanonicalEntries(acc, entries))
    decreases entries
  {
    if entries != [] {
      var e := entries[0];
      AssignUnique(acc, Utf8.ToWellFormed(e.key), Canonical(e.value));
      CanonicalUnique(Assign(acc, Utf8.ToWellFormed(e.key), Canonical(e.value)), entries[1..]);
    }
  }

  // ---------------------------------------------------------------------
  // Particular values.

  /** The fixints are single bytes (5 is 0x05, -1 is 0xff, -32 is 0xe0), and each reads back. */
  lemma FixintBytes(n: int)
    requires -0x20 <= n <= 0x7f
    ensures Encode(Int(n)) == Ok([if n < 0 then n + 0x100 else n])
    ensures Decode(Encode(Int(n)).value) == Ok(Int(n))
  {
    if n < 0 {
      DivModUnique(n, 0x100, -1, n + 0x100);
    } else {
      DivModUnique(n, 0x100, 0, n);
    }
    RoundTrip(Int(n));
  }

  /**
   * The literal 0x7fffffffffffffff is the double 2^63, which the int64 range
   * admits: it is written as 0xd3 0x80 0x00 ... 0x00 and reads back as -2^63.
   */
  lemma Int64Bound()
    ensures Encode(Int(0x8000_0000_0000_0000)) == Ok([0xd3, 0x80, 0, 0, 0, 0, 0, 0, 0])
    ensures Decode([0xd3, 0x80, 0, 0, 0, 0, 0, 0, 0]) == Ok(Int(-0x8000_0000_0000_0000))
  {
    var s: seq<byte> := [0x80, 0, 0, 0, 0, 0, 0, 0];
    FromBigEndian8(s);
    ToFromBigEndian(s);
    assert [0xd3] + s == [0xd3, 0x80, 0, 0, 0, 0, 0, 0, 0];
    RoundTrip(Int(0x8000_0000_0000_0000));
  }

  /** The empty string is the single byte 0xb0, and reads back empty. */
  lemma EmptyString()
    ensures Encode(Str([])) == Ok([0xb0])
    ensures Decode([0xb0]) == Ok(Str([]))
  {
    assert Utf8.Encode([]) == [];
    assert Header(StrKind, 0) == Ok([0xb0]);
    assert [0xb0] + [] == [0xb0];
    RoundTrip(Str([]));
  }

  /**
   * Strings read back with their lone surrogates replaced by U+FFFD; a
   * string without lone surrogates, astral characters included, reads back
   * unchanged.
   */
  lemma StringRoundTrip(s: JsString)
    requires EncodeString(s).Ok?
    ensures Decode(Encode(Str(s)).value) == Ok(Str(Utf8.ToWellFormed(s)))
    ensures Utf8.IsWellFormed(s) ==> Decode(Encode(Str(s)).value) == Ok(Str(s))
  {
    RoundTrip(Str(s));
    Utf8.ToWellFormedUnchanged(s);
  }
}
