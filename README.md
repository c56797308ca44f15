# js-binarypack in Dafny

A model of the binary codec of js-binarypack (`lib/binarypack.ts`) and of the byte
accumulator it writes into (`lib/bufferbuilder.ts`), with proofs about both.

The wire format is an early MessagePack-style layout:
- Fixints sit in the tag byte: 0x00-0x7f, and 0xe0-0xff for -32..-1.
- Byte arrays, strings, arrays and maps come in three size classes. A short form keeps the length in the tag's low nibble (0xa0/0xb0/0x90/0x80). Longer forms carry a 16-bit or a 32-bit big-endian length.
- Integers go to the first of nine width classes that holds them.
- Doubles are 0xcb followed by their 8-byte pattern.
- null and undefined are 0xc0; false and true are 0xc2 and 0xc3.

The model is in the source's own imperative form:
- `BufferBuilders.BufferBuilder` is a class with the fields `pieces` and `parts`. A ghost field records every byte appended so far. The invariant `Valid()` says that the parts followed by the pending pieces are exactly those bytes.
- `Packing.Packer` appends byte by byte into its builder, as `pack` does. Every method is proved to append exactly the bytes of the pure encoder function: `Encode`, `EncodeInteger`, `Header`, and so on.
- `Unpacking.Unpacker` moves its cursor `index` over the bytes. Every method is proved to return the value, and leave the cursor, that the pure decoder `DecodeAt` gives for the old cursor. This includes the XOR tag tests, the unchecked `unpack_uint8`, the bounds-checked `read`, and the hand-written UTF-8 walk of `unpack_string`.
- `Utf8` replaces the foreign `TextEncoder`. A string is first converted to scalar values the way Web IDL converts a `USVString`: a surrogate pair combines, and a lone surrogate becomes U+FFFD. Each scalar value is then written as UTF-8, as section 3 of RFC 3629 defines. The same module models the decoder's walk, with its quirks:
  - a lead byte below 0xa0 is one unit;
  - 0xa0-0xbf and 0xf0-0xff go to the four-byte branch;
  - missing continuation bytes read as 0;
  - code points above 0x10FFFF make `String.fromCodePoint` throw.
- `RoundTrip` proves `unpack(pack(v)) == Canonical(v)` for every value that `pack` accepts. `Canonical` states what the codec changes on the way:
  - undefined becomes null;
  - 2^63 comes back as -2^63, and 2^64 as 0;
  - lone surrogates become U+FFFD;
  - a Date becomes its text;
  - a typed-array view becomes its window of bytes;
  - a double is rebuilt from its two words;
  - object properties are assigned in order, so a later duplicate key overwrites an earlier one in place.

Values are the closed datatype `PackTypes.Value`. Numbers are exact integers (`Int`) or binary64 bit patterns (`Float`). Strings are sequences of UTF-16 code units. `Date`, `View` and `Unsupported` are accepted by the encoder only. Thrown errors become `Err` results of the `Error` datatype.

## Model

| member | source | states |
|---|---|---|
| BufferBuilders.FlushKeepsBytes | lib/bufferbuilder.ts:18-24 | A flush keeps every byte: the joined parts after it are the old parts followed by the pending pieces. |
| BufferBuilders.BufferBuilder.constructor | lib/bufferbuilder.ts:4-7 | A new builder has no pieces, no parts and no bytes appended. |
| BufferBuilders.BufferBuilder.Append | lib/bufferbuilder.ts:9-16 | A number is pushed onto the pieces (as the byte Uint8Array keeps) and the parts are unchanged. Any other data first flushes, then becomes one new part. Either way the bytes appended grow by exactly that data, and the invariant is kept. |
| BufferBuilders.BufferBuilder.AppendBuffer | lib/binarypack.ts:359 | `append_buffer` adds the chunk as a part of its own after a flush, and keeps the invariant. |
| BufferBuilders.BufferBuilder.Flush | lib/bufferbuilder.ts:18-24 | Pending pieces become exactly one more part, in order, and the pieces are empty. With no pieces nothing changes, so a second flush changes nothing. The bytes appended are unchanged. |
| BufferBuilders.BufferBuilder.GetBuffer | lib/bufferbuilder.ts:26-29 | Flushes, then returns every byte appended, in order; the pieces are empty afterwards. |
| BufferBuilders.BufferBuilder.ToArrayBuffer | lib/binarypack.ts:296 | The joined parts followed by the pending pieces are all bytes appended; with no pieces pending, the result is all of them. |
| Numbers.FromToBigEndian | lib/binarypack.ts:471-528 | Reading back the k big-endian bytes written for n gives n modulo 256^k. |
| Numbers.ToFromBigEndian | lib/binarypack.ts:137-166 | Bytes read as a big-endian number and written back are the same bytes. |
| Numbers.XorRanges | lib/binarypack.ts:50-65 | Each XOR tag test `(t ^ base) <= width` holds exactly for the tag range it selects, and `t ^ base` is then `t - base`. |
| Numbers.ToInt32 | lib/binarypack.ts:481 | `num & 0xffffffff` is the signed 32-bit number congruent to num modulo 2^32. |
| Numbers.JsTruncDiv | lib/binarypack.ts:489 | The quotient that the bitwise operators keep of `num / 2 ** 32` is truncated toward zero: d * r lies within d of n, on the side of zero. |
| Numbers.JsDivRem | lib/binarypack.ts:489-490 | The truncated quotient and JavaScript's remainder make up the dividend, and the remainder has the dividend's sign and is smaller than the divisor. |
| Numbers.BigEndian8 | lib/binarypack.ts:517-528 | The floored high word followed by the low word is the 8-byte big-endian form of n. |
| Utf8.EncodeScalar | lib/binarypack.ts:363 | One scalar value takes one to four UTF-8 bytes. |
| Utf8.Step | lib/binarypack.ts:207-238 | One round of the walk reads a code below 2^21 and advances one to four bytes. |
| Utf8.StepEncoded | lib/binarypack.ts:215-238 | On the UTF-8 bytes of a scalar value, one round of the walk reads that scalar value and advances by its byte length. |
| Utf8.WalkEncoded | lib/binarypack.ts:207-240 | The walk over the UTF-8 bytes of scalar values yields exactly their UTF-16 code units. |
| Utf8.DecodeEncode | lib/binarypack.ts:200-244 | Decoding the UTF-8 bytes `TextEncoder` writes for a string gives back the string with its lone surrogates replaced. |
| Utf8.UnitsOfPair | lib/binarypack.ts:239 | `String.fromCodePoint` of the code point of a surrogate pair is that pair. |
| Utf8.ToWellFormedAt | lib/binarypack.ts:363 | The replacement keeps the length, and changes exactly the lone surrogates, each to U+FFFD. |
| Utf8.ToWellFormedUnchanged | lib/binarypack.ts:363 | A string is unchanged by the replacement if and only if it has no lone surrogates. |
| Utf8.ToWellFormedIsWellFormed | lib/binarypack.ts:363 | After the replacement no lone surrogate is left. |
| Utf8.DecodeOne | lib/binarypack.ts:207-240 | A byte sequence that the first round of the walk consumes whole decodes to that one code unit. |
| Utf8.StrayContinuation | lib/binarypack.ts:215-218 | A lone byte 0x80-0x9f is taken as the one-unit character with that code. |
| Utf8.TruncatedSequence | lib/binarypack.ts:219-222 | A two-byte lead byte at the end reads its missing continuation byte as 0; the string does not fail. |
| Utf8.HighContinuation | lib/binarypack.ts:230-237 | Lead bytes 0xa0-0xbf go to the four-byte branch. |
| Utf8.BeyondUnicode | lib/binarypack.ts:239 | 0xf4 with a continuation 0x90 or above gives a code above 0x10FFFF, and the whole string fails with that code. |
| Packing.Header | lib/binarypack.ts:345-358 | The size header exists exactly for lengths up to 2^32 - 1, and it is one to five bytes long. |
| Packing.Packer.constructor | lib/binarypack.ts:291-293 | A new packer has a fresh, empty builder. |
| Packing.Packer.GetBuffer | lib/binarypack.ts:295-297 | With nothing pending, the buffer is every byte appended. |
| Packing.Packer.Pack | lib/binarypack.ts:299-343 | The value is packed as `Encode` says, or fails with the error `Encode` gives. On success exactly its bytes are appended and the builder is flushed. |
| Packing.Packer.PackHeader | lib/binarypack.ts:348-358 | It appends exactly the header bytes for the length, or fails with "Invalid length" and appends nothing. |
| Packing.Packer.PackBin | lib/binarypack.ts:345-360 | It appends the header and then the bytes, or fails and appends nothing. |
| Packing.Packer.PackString | lib/binarypack.ts:362-378 | It appends the header with the UTF-8 byte length, then the UTF-8 bytes; or it fails and appends nothing. |
| Packing.Packer.PackArray | lib/binarypack.ts:380-396 | It appends the header, then every element's bytes in order; the first failure is the result. |
| Packing.Packer.PackObject | lib/binarypack.ts:448-469 | It appends the header with the number of properties, then each key and its value, in order; the first failure is the result. |
| Packing.Packer.PackProperty | lib/binarypack.ts:465-466 | It appends the key packed as a string, then the value. |
| Packing.Packer.PackInteger | lib/binarypack.ts:398-428 | It appends the tag and bytes of the first range holding num, or fails with "Invalid integer" and appends nothing. |
| Packing.Packer.PackDouble | lib/binarypack.ts:443-445 | It appends 0xcb, then the high and low words of the bit pattern: the 8-byte pattern itself. |
| Packing.Packer.AppendWord | lib/binarypack.ts:482-485 | The four masked and shifted bytes are the 4-byte big-endian form of n. |
| Packing.Packer.PackUint8 | lib/binarypack.ts:471-473 | It appends num modulo 256. |
| Packing.Packer.PackUint16 | lib/binarypack.ts:475-478 | It appends the 2-byte big-endian form of num. |
| Packing.Packer.PackUint32 | lib/binarypack.ts:480-486 | It appends the 4-byte big-endian form of num. |
| Packing.Packer.PackUint64 | lib/binarypack.ts:488-499 | It appends the truncated high and the low word; for non-negative num, the 8-byte big-endian form. |
| Packing.Packer.PackInt8 | lib/binarypack.ts:501-503 | It appends the two's-complement byte of num. |
| Packing.Packer.PackInt16 | lib/binarypack.ts:505-508 | It appends the 2-byte two's-complement form of num. |
| Packing.Packer.PackInt32 | lib/binarypack.ts:510-515 | It appends the 4-byte two's-complement form of num. |
| Packing.Packer.PackInt64 | lib/binarypack.ts:517-528 | It appends the 8-byte two's-complement form of num. |
| Packing.EncodeItemsFails | lib/binarypack.ts:393-395 | Once a prefix of the elements fails to pack, the whole array fails with the same error. |
| Packing.EncodeEntriesFails | lib/binarypack.ts:462-468 | Once a prefix of the properties fails to pack, the whole object fails with the same error. |
| Packing.Pack | lib/binarypack.ts:29-33 | `pack(data)` returns exactly `Encode(data)`. |
| Unpacking.ReadAt | lib/binarypack.ts:281-288 | `read(n)` succeeds exactly when n bytes remain, and gives those n bytes in place. Otherwise it fails as out of range. |
| Unpacking.UintAt | lib/binarypack.ts:137-166 | The unsigned readers succeed exactly when the bytes remain, and the number's big-endian form is those bytes. |
| Unpacking.Digits | lib/binarypack.ts:258 | The decimal text of an integer key is at least one digit, and only digits. |
| Unpacking.DigitsValueOf | lib/binarypack.ts:258 | The decimal text of a natural number denotes that number. |
| Unpacking.AssignLookup | lib/binarypack.ts:258 | After `map[key] = value`, `map[key]` is value. |
| Unpacking.AssignOther | lib/binarypack.ts:258 | `map[key] = value` leaves every other key's value unchanged. |
| Unpacking.AssignKeys | lib/binarypack.ts:258 | Assignment keeps the keys in creation order, and adds a new key at the end (array-index keys are not ordered apart; see Left out). |
| Unpacking.AssignUnique | lib/binarypack.ts:255-260 | An object with distinct keys keeps them distinct under assignment. |
| Unpacking.DecodeRaw | lib/binarypack.ts:188-198 | `unpack_raw(size)` fails as out of range exactly when fewer than size bytes remain. Otherwise it gives a byte array of size bytes that sits in the input between the bytes before i and the bytes after i + size, and the cursor moves by size. |
| Unpacking.DecodeAt | lib/binarypack.ts:48-129 | On success the cursor has moved forward. |
| Unpacking.DecodeSizedTag | lib/binarypack.ts:56-65 | On success the cursor has moved past the tag. |
| Unpacking.DecodeSwitch | lib/binarypack.ts:67-103 | On success the cursor has moved past the tag. |
| Unpacking.DecodeSized | lib/binarypack.ts:104-128 | On success the cursor has moved past the tag. |
| Unpacking.DecodeAtSwitch | lib/binarypack.ts:50-67 | Tags 0xc0-0xdf pass the fixint and XOR tests and reach the switch. |
| Unpacking.DecodeItems | lib/binarypack.ts:246-252 | The array loop never moves the cursor back. |
| Unpacking.DecodeEntries | lib/binarypack.ts:254-261 | The map loop never moves the cursor back. |
| Unpacking.DecodeProperty | lib/binarypack.ts:257-258 | One key and its value never move the cursor back. |
| Unpacking.UndefinedTags | lib/binarypack.ts:67-128 | 0xc1, 0xd4-0xd7 and the unhandled 0xc4-0xc9 read as undefined, one byte long. |
| Unpacking.TruncatedField | lib/binarypack.ts:281-288 | A tag whose 2-, 4- or 8-byte number or size field is cut short by the end of the input fails as out of range. |
| Unpacking.TruncatedByteField | lib/binarypack.ts:80-81 | The one-byte field of 0xcc or 0xd0, cut short by the end of the input, reads 0 through the unchecked `unpack_uint8`, and the cursor moves two bytes. |
| Unpacking.TruncatedPayload | lib/binarypack.ts:188-193 | A fixraw or fixstr whose bytes are cut short fails as out of range. |
| Unpacking.PastEnd | lib/binarypack.ts:131-135 | Past the end, the unchecked `unpack_uint8` reads 0, so `unpack()` reads the fixint 0 and moves one byte. |
| Unpacking.ItemsPastEnd | lib/binarypack.ts:246-252 | Elements read past the end are zeros, one position each. |
| Unpacking.TruncatedArray | lib/binarypack.ts:246-252 | A fixarray tag with nothing after it decodes to that many zeros, not to a failure. |
| Unpacking.WalkStepped | lib/binarypack.ts:239 | A failing `String.fromCodePoint` fails the walk. Otherwise the string grows by its units and the walk goes on. |
| Unpacking.Unpacker.constructor | lib/binarypack.ts:41-46 | The cursor starts at 0, and `length` is the number of bytes. |
| Unpacking.Unpacker.Unpack | lib/binarypack.ts:48-55 | The value returned and the cursor left are those `DecodeAt` gives at the old cursor. |
| Unpacking.Unpacker.UnpackSizedTag | lib/binarypack.ts:56-65 | The XOR-tested branches agree with `DecodeSizedTag`. |
| Unpacking.Unpacker.UnpackSwitch | lib/binarypack.ts:67-103 | The switch agrees with `DecodeSwitch`. |
| Unpacking.Unpacker.UnpackSized | lib/binarypack.ts:104-128 | The size-prefixed cases agree with `DecodeSized`. |
| Unpacking.Unpacker.UnpackUint8 | lib/binarypack.ts:131-135 | It reads the byte at the cursor, or 0 past the end, and always moves the cursor by one. |
| Unpacking.Unpacker.UnpackUint16 | lib/binarypack.ts:137-142 | It reads two bytes as an unsigned number, moving the cursor by 2; or it fails and leaves the cursor. |
| Unpacking.Unpacker.UnpackUint32 | lib/binarypack.ts:144-150 | It reads four bytes as an unsigned number, moving the cursor by 4; or it fails and leaves the cursor. |
| Unpacking.Unpacker.UnpackUint64 | lib/binarypack.ts:152-166 | It reads eight bytes as an unsigned number, moving the cursor by 8; or it fails and leaves the cursor. |
| Unpacking.Unpacker.UnpackInt8 | lib/binarypack.ts:168-171 | The byte is read as a two's-complement number. |
| Unpacking.Unpacker.UnpackInt16 | lib/binarypack.ts:173-176 | Two bytes are read as a two's-complement number; it fails, leaving the cursor, exactly when they are missing. |
| Unpacking.Unpacker.UnpackInt32 | lib/binarypack.ts:178-181 | Four bytes are read as a two's-complement number; it fails, leaving the cursor, exactly when they are missing. |
| Unpacking.Unpacker.UnpackInt64 | lib/binarypack.ts:183-186 | Eight bytes are read as a two's-complement number; it fails, leaving the cursor, exactly when they are missing. |
| Unpacking.Unpacker.UnpackRaw | lib/binarypack.ts:188-198 | It agrees with `DecodeRaw`; on failure the cursor does not move. |
| Unpacking.Unpacker.UnpackString | lib/binarypack.ts:200-244 | It agrees with `DecodeString`: the walk over the size bytes, with the cursor moved by exactly size, however far the walk ran. On failure the cursor does not move. |
| Unpacking.Unpacker.WalkStep | lib/binarypack.ts:208-238 | The XOR-tested branches compute the code and width `Utf8.Step` gives. |
| Unpacking.Unpacker.UnpackArray | lib/binarypack.ts:246-252 | It agrees with `DecodeItems`: size values, in stream order. |
| Unpacking.Unpacker.UnpackMap | lib/binarypack.ts:254-261 | It agrees with `DecodeEntries`: size properties, assigned in stream order. |
| Unpacking.Unpacker.UnpackProperty | lib/binarypack.ts:257-258 | It agrees with `DecodeProperty`, and the cursor ends after the value. |
| Unpacking.Unpacker.UnpackFloat | lib/binarypack.ts:263-269 | It reads a word and widens it as `WidenFloat` describes, consuming 4 bytes. |
| Unpacking.Unpacker.UnpackDouble | lib/binarypack.ts:271-279 | It reads two words and combines them as `DoubleOf` describes, consuming 8 bytes. |
| Unpacking.Unpacker.Read | lib/binarypack.ts:281-288 | It agrees with `ReadAt`, and the cursor does not move. |
| Unpacking.Unpack | lib/binarypack.ts:24-27 | `unpack(data)` returns exactly `Decode(data)`. |
| RoundTrip.UintAtBytes | lib/binarypack.ts:137-166 | A word read where bytes were written is the number they denote. |
| RoundTrip.UintAtWritten | lib/binarypack.ts:475-486 | A word read where n was written in k bytes is n modulo 256^k. |
| RoundTrip.FixHeaderDecoded | lib/binarypack.ts:57-64 | After a one-byte header, the decoder reads a payload of that kind and length right after it. |
| RoundTrip.Header16Decoded | lib/binarypack.ts:104-124 | After a 16-bit-length header, the decoder reads a payload of that kind and length after 3 bytes. |
| RoundTrip.Header32Decoded | lib/binarypack.ts:107-127 | After a 32-bit-length header, the decoder reads a payload of that kind and length after 5 bytes. |
| RoundTrip.HeaderDecoded | lib/binarypack.ts:345-396 | The size classes are read back: after any header for n elements, a payload of n elements of the same kind. |
| RoundTrip.SignedBack | lib/binarypack.ts:168-186 | A two's-complement word read as signed is the number written. |
| RoundTrip.FixnumDecoded | lib/binarypack.ts:399-400 | A fixint byte reads back as its integer. |
| RoundTrip.Tagged1Decoded | lib/binarypack.ts:401-406 | A uint8 or int8 reads back as its integer, 2 bytes long. |
| RoundTrip.TaggedWordDecoded | lib/binarypack.ts:407-418 | A 16- or 32-bit integer reads back as itself. |
| RoundTrip.Tagged8Decoded | lib/binarypack.ts:419-424 | A 64-bit integer reads back as itself, except 2^63 (as -2^63) and 2^64 (as 0). |
| RoundTrip.IntegerDecoded | lib/binarypack.ts:398-428 | Integer decoding inverts integer encoding in every width class, and the cursor ends after the integer's bytes. |
| RoundTrip.EncodeIntegerDomain | lib/binarypack.ts:398-428 | `pack_integer` accepts exactly the integers from -2^63 to 2^64. |
| RoundTrip.StringDecoded | lib/binarypack.ts:362-378 | A packed string reads back with its lone surrogates replaced. |
| RoundTrip.BinaryDecoded | lib/binarypack.ts:345-360 | A packed byte array reads back as the same bytes. |
| RoundTrip.FloatDecoded | lib/binarypack.ts:443-445 | A packed double reads back as `unpack_double` rebuilds it, 9 bytes long. |
| RoundTrip.ConstantDecoded | lib/binarypack.ts:308-319 | null, undefined and the booleans read back from one byte; undefined reads back as null. |
| RoundTrip.ValueDecoded | lib/binarypack.ts:299-343 | Where `pack` wrote v, `unpack` reads `Canonical(v)` and ends right after v's bytes. |
| RoundTrip.ArrayDecoded | lib/binarypack.ts:380-396 | A packed array reads back element by element, in order. |
| RoundTrip.MapDecoded | lib/binarypack.ts:448-469 | A packed object reads back property by property, assigned in order. |
| RoundTrip.EntryDecoded | lib/binarypack.ts:465-466 | A packed key and value read back as one property. |
| RoundTrip.ItemsDecoded | lib/binarypack.ts:393-395 | The array loop reads back the elements `pack_array` wrote, in positional order. |
| RoundTrip.ItemsStep | lib/binarypack.ts:393-395 | The first element reads back, and the rest were written right after it. |
| RoundTrip.EntriesDecoded | lib/binarypack.ts:462-468 | The map loop reads back the properties `pack_object` wrote, and assigns them in stream order. |
| RoundTrip.EntriesStep | lib/binarypack.ts:462-468 | The first property reads back, and the rest were written right after it. |
| RoundTrip.RoundTrip | lib/binarypack.ts:24-33 | `unpack(pack(v))` is `Canonical(v)` for every value `pack` accepts. |
| RoundTrip.CanonicalUnique | lib/binarypack.ts:254-261 | A decoded object holds each key once: a later duplicate overwrites the earlier value. |
| RoundTrip.FixintBytes | lib/binarypack.ts:399-400 | The fixints are one byte each (5 is 0x05, -1 is 0xff, -32 is 0xe0), and each reads back. |
| RoundTrip.Int64Bound | lib/binarypack.ts:419-421 | The double 2^63 takes the int64 branch, is written 0xd3 0x80 0x00×7, and reads back as -2^63. |
| RoundTrip.EmptyString | lib/binarypack.ts:366-367 | The empty string is the single byte 0xb0, and it reads back empty. |
| RoundTrip.StringRoundTrip | lib/binarypack.ts:362-378 | Strings read back with lone surrogates replaced by U+FFFD. A string without lone surrogates, astral characters included, reads back unchanged. |

## Left out

- **Floating point.**
  - The arithmetic of `pack_double` (`Math.log`, division) is not modelled. A `Float` carries the bit pattern the source would compute, and `PackDouble` writes that pattern.
  - `unpack_float` and `unpack_double` are modelled on bit patterns (`WidenFloat`, `DoubleOf`), not as real-number arithmetic.
  - A decoded integral double stays a `Float`; it does not become an `Int`.
- PackTypes.Value: it has no value for +Infinity or -Infinity. `pack` sends every number equal to its floor to `pack_integer`, and that includes the infinities. There they fall through every range and throw "Invalid integer". `Int` holds only finite integers, so this error path is not modelled.
- Packing.Encode: `pack` writes 0xcb only for numbers that are not equal to their floor. `Encode(Float(bits))` writes 0xcb for any bit pattern, including those of integral numbers such as 1.0 and of the infinities. The source never writes those patterns, so proofs about `Float` values cover more than `pack` can produce.
- **Precision above 2^53.** The model uses exact integers. Only the double-rounded range bounds 2^63 and 2^64 of `pack_integer` are kept. The rounding of large values in `unpack_uint64` and in `pack_int64`/`pack_uint64` is not modelled.
- **`TextEncoder`.** It is a foreign API. It is replaced by the scalar-value conversion and RFC 3629 encoding in `Utf8`.
- **Dispatch that depends on the environment:**
  - the `value.toString()` of a Date is a parameter (`Date(text)`);
  - the class test `constructor.toString().startsWith("class")`, and the order of `for...in`/`Object.keys`, are given by the `Map` entries as listed;
  - the two "not yet supported" throws are one `Unsupported` error.
- **Names the shown builder lacks.** `append_buffer` and `toArrayBuffer` are not defined in `lib/bufferbuilder.ts`. They are modelled as "append a chunk as a part" and "concatenate the parts". The `Blob` that `getBuffer` builds is modelled as the concatenated bytes.
- **`lib/binarypack.js` and `lib/bufferbuilder.js`.** These older copies are not part of this model.
- **Lengths of the property list.** The model counts the header from the entries given. It does not model a difference between `Object.keys(obj).length` and the properties `for...in` visits, such as inherited enumerable properties.
- **The empty typed array.** A test expects packing an empty `Uint8Array` to reject with "Invalid length", but it never awaits that expectation. The code writes the single byte 0xa0 for it, as for any empty byte array, and the model follows the code.
- **Cyclic values.** Values are finite trees, so a cyclic input, which overflows the stack in the source, cannot be stated.
- **Partial output after a throw.** `Packer.PackArray`, `Packer.PackObject`, `Packer.PackProperty` and `Packer.Pack` promise nothing about the builder's bytes when they fail. In the source, bytes written before the throw stay in the builder. `Packing.Pack` then returns the error, as `pack` throws.
- **Method splits.** A few source methods are split into parts, each with its own contract. This keeps every proof small.
  - `unpack()` is `Unpack`, `UnpackSizedTag`, `UnpackSwitch` and `UnpackSized`.
  - One round of `unpack_map`'s loop is `UnpackProperty`.
  - One round of `unpack_string`'s loop is `WalkStep`.
  - One round of `pack_object`'s loop is `PackProperty`.
  - The four appends of a 32-bit word are `AppendWord`.
- Unpacking.PropertyKey: a decoded key that is a double, an array or an object gives `Err(KeyNotModelled)`. The source would convert it to a string with JavaScript's `ToPropertyKey`: a number rendering, `"a,b"`, or `"[object Object]"`. Those conversions are not modelled.
- Unpacking.Assign / Unpacking.AssignKeys: the model keeps a decoded object's properties in assignment order for every key. JavaScript enumerates an object's array-index keys ("0" to "4294967294") first, in ascending order, and only then the other keys in creation order. So the fixmap b→1, "1"→2 enumerates as "1", "b" in the source, but as b, "1" in the model.
- Unpacking.DecodeAt: a decoded map key named `__proto__` sets the prototype in JavaScript instead of adding a property. The model adds it as an ordinary property.
- **Truncated input.** `read` and `unpack_raw` fail as out of range on truncated input, but the code does not fail everywhere, and the model follows the code:
  - fields of two, four or eight bytes and byte payloads do fail (`TruncatedField`, `TruncatedPayload`);
  - a tag read past the end is 0, and so is the one-byte field of 0xcc (uint8) or 0xd0 (int8), because `unpack_uint8` is unchecked; a fixarray or fixmap cut short is padded with zeros (`PastEnd`, `TruncatedByteField`, `TruncatedArray`);
  - a UTF-8 sequence cut short inside a string reads its missing bytes as 0.
