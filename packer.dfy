/**
 * The encoder: the wire format as functions of the value (`Encode` and the
 * functions it uses), and `Packer`, which writes the same bytes into a
 * `BufferBuilder` one append at a time, as `pack` does.
 */
module Packing {
  import opened PackTypes
  import opened Numbers
  import Utf8
  import opened BufferBuilders

  /** The four payload kinds that share the three size classes. */
  datatype Kind = BinKind | StrKind | ArrKind | MapKind

  /** Tag of the short form: the length goes in the low nibble. */
  function FixTag(kind: Kind): byte
  {
    match kind
    case BinKind => 0xa0
    case StrKind => 0xb0
    case ArrKind => 0x90
    case MapKind => 0x80
  }

  /** Tag followed by a 16-bit length. */
  function Tag16(kind: Kind): byte
  {
    match kind
    case BinKind => 0xda
    case StrKind => 0xd8
    case ArrKind => 0xdc
    case MapKind => 0xde
  }

  /** Tag followed by a 32-bit length. */
  function Tag32(kind: Kind): byte
  {
    match kind
    case BinKind => 0xdb
    case StrKind => 0xd9
    case ArrKind => 0xdd
    case MapKind => 0xdf
  }

  /** The tag and length that start a payload of `length` elements; "Invalid length" above 2^32 - 1. */
  function Header(kind: Kind, length: nat): (r: Result<seq<byte>>)
    ensures r.Ok? <==> length <= 0xffff_ffff
    ensures r.Ok? ==> 1 <= |r.value| <= 5
  {
    if length <= 0x0f then Ok([FixTag(kind) + length])
    else if length <= 0xffff then Ok([Tag16(kind)] + ToBigEndian(length, 2))
    else if length <= 0xffff_ffff then Ok([Tag32(kind)] + ToBigEndian(length, 4))
    else Err(InvalidLength)
  }

  /** How `pack_integer` writes an integer: in the tag byte itself, or as a tag followed by `width` bytes. */
  datatype IntegerForm = Fixnum | Tagged(tag: byte, width: nat) | TooWide

  /**
   * The first range that holds n picks the form. The bounds of the last two
   * ranges are the double values of the literals 0x7fffffffffffffff and
   * 0xffffffffffffffff, i.e. 2^63 and 2^64.
   */
  function FormOf(n: int): IntegerForm
  {
    if -0x20 <= n <= 0x7f then Fixnum
    else if 0 <= n <= 0xff then Tagged(0xcc, 1)
    else if -0x80 <= n <= 0x7f then Tagged(0xd0, 1)
    else if 0 <= n <= 0xffff then Tagged(0xcd, 2)
    else if -0x8000 <= n <= 0x7fff then Tagged(0xd1, 2)
    else if 0 <= n <= 0xffff_ffff then Tagged(0xce, 4)
    else if -0x8000_0000 <= n <= 0x7fff_ffff then Tagged(0xd2, 4)
    else if -0x8000_0000_0000_0000 <= n <= 0x8000_0000_0000_0000 then Tagged(0xd3, 8)
    else if 0 <= n <= 0x1_0000_0000_0000_0000 then Tagged(0xcf, 8)
    else TooWide
  }

  /** The bytes `pack_integer` writes: the tag and n's two's-complement bytes, or "Invalid integer". */
  function EncodeInteger(n: int): Result<seq<byte>>
  {
    match FormOf(n)
    case Fixnum => Ok([n % 0x100])
    case Tagged(tag, width) => Ok([tag] + ToBigEndian(n, width))
    case TooWide => Err(InvalidInteger)
  }

  /** The bytes `pack_bin` writes: header, then the bytes themselves. */
  function EncodeBinary(bytes: seq<byte>): Result<seq<byte>>
  {
    var h :- Header(BinKind, |bytes|);
    Ok(h + bytes)
  }

  /** The bytes `pack_string` writes: header with the UTF-8 length, then the UTF-8 bytes. */
  function EncodeString(s: JsString): Result<seq<byte>>
  {
    var encoded := Utf8.Encode(s);
    var h :- Header(StrKind, |encoded|);
    Ok(h + encoded)
  }

  /** The bytes `pack` writes for a value. */
  function Encode(v: Value): Result<seq<byte>>
    decreases v
  {
    match v
    case Null => Ok([0xc0])
    case Undefined => Ok([0xc0])
    case Bool(b) => Ok([if b then 0xc3 else 0xc2])
    case Int(n) => EncodeInteger(n)
    case Float(bits) => Ok([0xcb] + bits)
    case Str(s) => EncodeString(s)
    case Bin(bytes) => EncodeBinary(bytes)
    case Arr(items) => EncodeArray(items)
    case Map(entries) => EncodeMap(entries)
    case Date(text) => EncodeString(text)
    case View(_, window, _) => EncodeBinary(window)
    case Unsupported(kind) => Err(UnsupportedType(kind))
  }

  /** The bytes `pack_array` writes: header with the number of elements, then each element. */
  function EncodeArray(items: seq<Value>): Result<seq<byte>>
    decreases items, 1
  {
    var h :- Header(ArrKind, |items|);
    var body :- EncodeItems(items);
    Ok(h + body)
  }

  /** The elements of an array, packed one after another; the first failure wins. */
  function EncodeItems(items: seq<Value>): Result<seq<byte>>
    decreases items, 0
  {
    if items == [] then Ok([])
    else
      var front :- EncodeItems(items[..|items| - 1]);
      var last :- Encode(items[|items| - 1]);
      Ok(front + last)
  }

  /** The bytes `pack_object` writes: header with the number of properties, then each key and its value. */
  function EncodeMap(entries: seq<Entry>): Result<seq<byte>>
    decreases entries, 1
  {
    var h :- Header(MapKind, |entries|);
    var body :- EncodeEntries(entries);
    Ok(h + body)
  }

  /** One property: its key packed as a string, then its value. */
  function EncodeEntry(e: Entry): Result<seq<byte>>
    decreases e
  {
    var k :- EncodeString(e.key);
    var v :- Encode(e.value);
    Ok(k + v)
  }

  function EncodeEntries(entries: seq<Entry>): Result<seq<byte>>
    decreases entries, 0
  {
    if entries == [] then Ok([])
    else
      var front :- EncodeEntries(entries[..|entries| - 1]);
      var last :- EncodeEntry(entries[|entries| - 1]);
      Ok(front + last)
  }

  /** The outcome of a packing step that writes the bytes e, or throws e's error. */
  function Outcome(e: Result<seq<byte>>): Result<()>
  {
    if e.Ok? then Ok(()) else Err(e.error)
  }

  class Packer {
    /** `_bufferBuilder`. */
    const builder: BufferBuilder

    ghost predicate Valid()
      reads this, builder
    {
      builder.Valid()
    }

    constructor()
      ensures Valid() && fresh(builder)
      ensures builder.appended == [] && builder.pieces == []
    {
      builder := new BufferBuilder();
    }

    /** `getBuffer()`: the builder's chunks, joined. */
    method GetBuffer() returns (r: seq<byte>)
      requires Valid()
      ensures builder.pieces == [] ==> r == builder.appended
    {
      r := builder.ToArrayBuffer();
    }

    /** `pack(value)`: dispatch on the kind of value, then flush. */
    method Pack(value: Value) returns (r: Result<()>)
      requires Valid()
      modifies builder
      ensures Valid()
      ensures r == Outcome(Encode(value))
      ensures r.Ok? ==> builder.appended == old(builder.appended) + Encode(value).value
      ensures r.Ok? ==> builder.pieces == []
      decreases value, 1
    {
      r := Ok(());
      match value {
        case Str(s) =>
          r := PackString(s);
        case Int(n) =>
          r := PackInteger(n);
        case Float(bits) =>
          PackDouble(bits);
        case Bool(b) =>
          builder.Append(Number(if b then 0xc3 else 0xc2));
        case Undefined =>
          builder.Append(Number(0xc0));
        case Null =>
          builder.Append(Number(0xc0));
        case Arr(items) =>
          r := PackArray(items);
        case Bin(bytes) =>
          r := PackBin(bytes);
        case View(before, window, after) =>
          // the window of the backing buffer that the view exposes
          var buffer := ViewBuffer(value);
          var offset := ViewOffset(value);
          assert buffer[offset..offset + |window|] == window;
          r := PackBin(buffer[offset..offset + |window|]);
        case Date(text) =>
          r := PackString(text);
        case Map(entries) =>
          r := PackObject(entries);
        case Unsupported(kind) =>
          r := Err(UnsupportedType(kind));
      }
      if r.Err? {
        return;
      }
      builder.Flush();
    }

    /** The tag and length of a payload, as `pack_bin`, `pack_string`, `pack_array` and `pack_object` write them. */
    method PackHeader(kind: Kind, length: nat) returns (r: Result<()>)
      requires Valid()
      modifies builder
      ensures Valid()
      ensures r == Outcome(Header(kind, length))
      ensures r.Ok? ==> builder.appended == old(builder.appended) + Header(kind, length).value
      ensures r.Err? ==> builder.appended == old(builder.appended)
    {
      if length <= 0x0f {
        PackUint8(FixTag(kind) + length);
        BigEndian1(FixTag(kind) + length);
      } else if length <= 0xffff {
        builder.Append(Number(Tag16(kind)));
        PackUint16(length);
        AppendAssoc(old(builder.appended), [Tag16(kind)], ToBigEndian(length, 2));
      } else if length <= 0xffff_ffff {
        builder.Append(Number(Tag32(kind)));
        PackUint32(length);
        AppendAssoc(old(builder.appended), [Tag32(kind)], ToBigEndian(length, 4));
      } else {
        return Err(InvalidLength);
      }
      r := Ok(());
    }

    /** `pack_bin(blob)`. */
    method PackBin(blob: seq<byte>) returns (r: Result<()>)
      requires Valid()
      modifies builder
      ensures Valid()
      ensures r == Outcome(EncodeBinary(blob))
      ensures r.Ok? ==> builder.appended == old(builder.appended) + EncodeBinary(blob).value
      ensures r.Err? ==> builder.appended == old(builder.appended)
    {
      r := PackHeader(BinKind, |blob|);
      if r.Err? {
        return;
      }
      builder.AppendBuffer(blob);
      AppendAssoc(old(builder.appended), Header(BinKind, |blob|).value, blob);
    }

    /** `pack_string(str)`: the length counted is that of the UTF-8 bytes. */
    method PackString(str: JsString) returns (r: Result<()>)
      requires Valid()
      modifies builder
      ensures Valid()
      ensures r == Outcome(EncodeString(str))
      ensures r.Ok? ==> builder.appended == old(builder.appended) + EncodeString(str).value
      ensures r.Err? ==> builder.appended == old(builder.appended)
    {
      var encoded := Utf8.Encode(str);
      r := PackHeader(StrKind, |encoded|);
      if r.Err? {
        return;
      }
      builder.AppendBuffer(encoded);
      AppendAssoc(old(builder.appended), Header(StrKind, |encoded|).value, encoded);
    }

    /** `pack_array(ary)`: header, then every element packed in order. */
    method PackArray(items: seq<Value>) returns (r: Result<()>)
      requires Valid()
      modifies builder
      ensures Valid()
      ensures r == Outcome(EncodeArray(items))
      ensures r.Ok? ==> builder.appended == old(builder.appended) + EncodeArray(items).value
      decreases Arr(items), 0
    {
      r := PackHeader(ArrKind, |items|);
      if r.Err? {
        return;
      }
      ghost var start := builder.appended;
      var i := 0;
      while i < |items|
        invariant 0 <= i <= |items|
        invariant Valid()
        invariant r == Ok(())
        invariant EncodeItems(items[..i]).Ok?
        invariant builder.appended == start + EncodeItems(items[..i]).value
        decreases |items| - i
      {
        assert items[..i + 1][..i] == items[..i];
        r := Pack(items[i]);
        if r.Err? {
          EncodeItemsFails(items, i + 1);
          return;
        }
        AppendAssoc(start, EncodeItems(items[..i]).value, Encode(items[i]).value);
        i := i + 1;
      }
      assert items[..i] == items;
      assert EncodeArray(items).value == Header(ArrKind, |items|).value + EncodeItems(items).value;
    }

    /** `pack_object(obj)`: header with the number of keys, then each key and its value. */
    method PackObject(entries: seq<Entry>) returns (r: Result<()>)
      requires Valid()
      modifies builder
      ensures Valid()
      ensures r == Outcome(EncodeMap(entries))
      ensures r.Ok? ==> builder.appended == old(builder.appended) + EncodeMap(entries).value
      decreases Map(entries), 0
    {
      r := PackHeader(MapKind, |entries|);
      if r.Err? {
        return;
      }
      ghost var start := builder.appended;
      var i := 0;
      while i < |entries|
        invariant 0 <= i <= |entries|
        invariant Valid()
        invariant r == Ok(())
        invariant EncodeEntries(entries[..i]).Ok?
        invariant builder.appended == start + EncodeEntries(entries[..i]).value
        decreases |entries| - i
      {
        assert entries[..i + 1][..i] == entries[..i];
        r := PackProperty(entries[i]);
        if r.Err? {
          EncodeEntriesFails(entries, i + 1);
          return;
        }
        AppendAssoc(start, EncodeEntries(entries[..i]).value, EncodeEntry(entries[i]).value);
        i := i + 1;
      }
      assert entries[..i] == entries;
    }

    /** One round of `pack_object`'s loop: `this.pack(prop)` on the key, then `this.pack(obj[prop])`. */
    method PackProperty(e: Entry) returns (r: Result<()>)
      requires Valid()
      modifies builder
      ensures Valid()
      ensures r == Outcome(EncodeEntry(e))
      ensures r.Ok? ==> builder.appended == old(builder.appended) + EncodeEntry(e).value
      decreases e, 2
    {
      r := PackString(e.key);
      if r.Err? {
        return;
      }
      builder.Flush();
      r := Pack(e.value);
      if r.Ok? {
        AppendAssoc(old(builder.appended), EncodeString(e.key).value, Encode(e.value).value);
      }
    }

    /** `pack_integer(num)`: the first range that holds num picks the form. */
    method PackInteger(num: int) returns (r: Result<()>)
      requires Valid()
      modifies builder
      ensures Valid()
      ensures r == Outcome(EncodeInteger(num))
      ensures r.Ok? ==> builder.appended == old(builder.appended) + EncodeInteger(num).value
      ensures r.Err? ==> builder.appended == old(builder.appended)
    {
      r := Ok(());
      if num >= -0x20 && num <= 0x7f {
        builder.Append(Number(num % 0x100));  // the low byte of num
      } else if num >= 0x00 && num <= 0xff {
        builder.Append(Number(0xcc));
        PackUint8(num);
        AppendAssoc(old(builder.appended), [0xcc], ToBigEndian(num, 1));
      } else if num >= -0x80 && num <= 0x7f {
        builder.Append(Number(0xd0));
        PackInt8(num);
        AppendAssoc(old(builder.appended), [0xd0], ToBigEndian(num, 1));
      } else if num >= 0x0000 && num <= 0xffff {
        builder.Append(Number(0xcd));
        PackUint16(num);
        AppendAssoc(old(builder.appended), [0xcd], ToBigEndian(num, 2));
      } else if num >= -0x8000 && num <= 0x7fff {
        builder.Append(Number(0xd1));
        PackInt16(num);
        AppendAssoc(old(builder.appended), [0xd1], ToBigEndian(num, 2));
      } else if num >= 0x0000_0000 && num <= 0xffff_ffff {
        builder.Append(Number(0xce));
        PackUint32(num);
        AppendAssoc(old(builder.appended), [0xce], ToBigEndian(num, 4));
      } else if num >= -0x8000_0000 && num <= 0x7fff_ffff {
        builder.Append(Number(0xd2));
        PackInt32(num);
        AppendAssoc(old(builder.appended), [0xd2], ToBigEndian(num, 4));
      } else if num >= -0x8000_0000_0000_0000 && num <= 0x8000_0000_0000_0000 {
        builder.Append(Number(0xd3));
        PackInt64(num);
        AppendAssoc(old(builder.appended), [0xd3], ToBigEndian(num, 8));
      } else if num >= 0 && num <= 0x1_0000_0000_0000_0000 {
        builder.Append(Number(0xcf));
        PackUint64(num);
        AppendAssoc(old(builder.appended), [0xcf], ToBigEndian(num, 8));
      } else {
        r := Err(InvalidInteger);
      }
    }

    /**
     * `pack_double(num)`, for the number whose binary64 bit pattern is `bits`:
     * the tag, then the high and the low 32-bit halves of the pattern.
     */
    method PackDouble(bits: Bits64)
      requires Valid()
      modifies builder
      ensures Valid()
      ensures builder.appended == old(builder.appended) + [0xcb] + bits
    {
      var h32 := FromBigEndian(bits[..4]);
      var l32 := FromBigEndian(bits[4..]);
      builder.Append(Number(0xcb));
      PackInt32(h32);
      PackInt32(l32);
      ToFromBigEndian(bits[..4]);
      ToFromBigEndian(bits[4..]);
      assert bits == bits[..4] + bits[4..];
    }

    /**
     * The four appends that `pack_uint32`, `pack_uint64`, `pack_int32` and
     * `pack_int64` each write out for a 32-bit word n: its four bytes, each
     * masked out and shifted down, most significant first (`pack_int32`
     * shifts before it masks for the first one, which gives the same byte).
     */
    method AppendWord(n: int)
      requires Valid()
      modifies builder
      ensures Valid()
      ensures builder.appended == old(builder.appended) + ToBigEndian(n, 4)
    {
      builder.Append(Number(ByteOf(n, 3)));
      builder.Append(Number(ByteOf(n, 2)));
      builder.Append(Number(ByteOf(n, 1)));
      builder.Append(Number(ByteOf(n, 0)));
      BigEndian4(n);
    }

    /** `pack_uint8(num)`. */
    method PackUint8(num: int)
      requires Valid()
      modifies builder
      ensures Valid()
      ensures builder.appended == old(builder.appended) + ToBigEndian(num, 1)
    {
      builder.Append(Number(num));
      BigEndian1(num);
    }

    /** `pack_uint16(num)`: num shifted down by a byte, then its low byte. */
    method PackUint16(num: int)
      requires Valid()
      modifies builder
      ensures Valid()
      ensures builder.appended == old(builder.appended) + ToBigEndian(num, 2)
    {
      builder.Append(Number(ToInt32(num) / 0x100));
      builder.Append(Number(num % 0x100));
      ShiftRight8(num);
      BigEndian2(num);
    }

    /** `pack_uint32(num)`: the four bytes of num's low 32 bits, most significant first. */
    method PackUint32(num: int)
      requires Valid()
      modifies builder
      ensures Valid()
      ensures builder.appended == old(builder.appended) + ToBigEndian(num, 4)
    {
      var n := ToInt32(num);
      AppendWord(n);
      Pow256Values();
      ToBigEndianMod(n, num, 4);
    }

    /** `pack_uint64(num)`: the truncated quotient by 2^32, then the remainder, as 32-bit halves. */
    method PackUint64(num: int)
      requires Valid()
      modifies builder
      ensures Valid()
      ensures builder.appended == old(builder.appended)
                                  + ToBigEndian(JsTruncDiv(num, 0x1_0000_0000), 4)
                                  + ToBigEndian(JsRem(num, 0x1_0000_0000), 4)
      ensures num >= 0 ==> builder.appended == old(builder.appended) + ToBigEndian(num, 8)
    {
      var high := JsTruncDiv(num, 0x1_0000_0000);
      var low := JsRem(num, 0x1_0000_0000);
      AppendWord(high);
      AppendWord(low);
      if num >= 0 {
        BigEndian8(num);
        AppendAssoc(old(builder.appended), ToBigEndian(high, 4), ToBigEndian(low, 4));
      }
    }

    /** `pack_int8(num)`: the low byte of num. */
    method PackInt8(num: int)
      requires Valid()
      modifies builder
      ensures Valid()
      ensures builder.appended == old(builder.appended) + ToBigEndian(num, 1)
    {
      builder.Append(Number(ByteOf(num, 0)));
      BigEndian1(num);
    }

    /** `pack_int16(num)`: byte 1 of num, then its low byte. */
    method PackInt16(num: int)
      requires Valid()
      modifies builder
      ensures Valid()
      ensures builder.appended == old(builder.appended) + ToBigEndian(num, 2)
    {
      builder.Append(Number(ByteOf(num, 1)));
      builder.Append(Number(ByteOf(num, 0)));
      BigEndian2(num);
    }

    /** `pack_int32(num)`: the four bytes of num's two's complement, most significant first. */
    method PackInt32(num: int)
      requires Valid()
      modifies builder
      ensures Valid()
      ensures builder.appended == old(builder.appended) + ToBigEndian(num, 4)
    {
      AppendWord(num);
    }

    /** `pack_int64(num)`: the floored quotient by 2^32, then the remainder, as 32-bit halves. */
    method PackInt64(num: int)
      requires Valid()
      modifies builder
      ensures Valid()
      ensures builder.appended == old(builder.appended) + ToBigEndian(num, 8)
    {
      var high := num / 0x1_0000_0000;  // the floored quotient
      var low := JsRem(num, 0x1_0000_0000);
      AppendWord(high);
      AppendWord(low);
      BigEndian8(num);
      AppendAssoc(old(builder.appended), ToBigEndian(high, 4), ToBigEndian(low, 4));
    }
  }

  /** If a prefix of the elements fails to pack, so do all of them. */
  lemma {:induction false} EncodeItemsFails(items: seq<Value>, k: nat)
    requires k <= |items| && EncodeItems(items[..k]).Err?
    ensures EncodeItems(items) == EncodeItems(items[..k])
    decreases |items| - k
  {
    if k < |items| {
      assert items[..k + 1][..k] == items[..k];
      EncodeItemsFails(items, k + 1);
    } else {
      assert items[..k] == items;
    }
  }

  lemma {:induction false} EncodeEntriesFails(entries: seq<Entry>, k: nat)
    requires k <= |entries| && EncodeEntries(entries[..k]).Err?
    ensures EncodeEntries(entries) == EncodeEntries(entries[..k])
    decreases |entries| - k
  {
    if k < |entries| {
      assert entries[..k + 1][..k] == entries[..k];
      EncodeEntriesFails(entries, k + 1);
    } else {
      assert entries[..k] == entries;
    }
  }

  /** `pack(data)`: a fresh packer packs the value, and its buffer is the result. */
  method Pack(data: Value) returns (r: Result<seq<byte>>)
    ensures r == Encode(data)
  {
    var packer := new Packer();
    var outcome := packer.Pack(data);
    if outcome.Err? {
      return Err(outcome.error);
    }
    var bytes := packer.GetBuffer();
    assert [] + Encode(data).value == Encode(data).value;
    r := Ok(bytes);
  }
}
