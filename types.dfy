/** The values the codec packs and unpacks, and the errors it raises. */
module PackTypes {

  /** One byte of the wire format. */
  type byte = x: int | 0 <= x < 0x100

  /** One UTF-16 code unit: a JavaScript string is a sequence of these. */
  type CodeUnit = x: int | 0 <= x < 0x1_0000

  /** A JavaScript string. Lone surrogate halves are allowed, as in JavaScript. */
  type JsString = seq<CodeUnit>

  /** The eight bytes of an IEEE-754 binary64 bit pattern, most significant first. */
  type Bits64 = s: seq<byte> | |s| == 8 witness [0, 0, 0, 0, 0, 0, 0, 0]

  /**
   * The closed form of the values `pack` accepts and `unpack` returns.
   * Integral numbers are `Int`; the other numbers are `Float`, carried as the
   * bit pattern that is written on the wire (their arithmetic is not modelled).
   * `Bin` is an ArrayBuffer. `Map` is a plain object (or class instance) with
   * its own enumerable properties, in the order the encoder visits them; an
   * object the decoder builds lists them in the order they were first
   * assigned (JavaScript itself lists array-index keys first, ascending).
   * The last three variants are accepted by the encoder only:
   * `Date` carries the text its `toString()` renders, `View` is a typed-array
   * view exposing `window` of the backing buffer `before + window + after`,
   * and `Unsupported` stands for any other kind of value (a function, a
   * symbol, an object of an unsupported class), named by `kind`.
   */
  datatype Value =
    | Null
    | Undefined
    | Bool(b: bool)
    | Int(n: int)
    | Float(bits: Bits64)
    | Str(s: JsString)
    | Bin(bytes: seq<byte>)
    | Arr(items: seq<Value>)
    | Map(entries: seq<Entry>)
    | Date(text: JsString)
    | View(before: seq<byte>, window: seq<byte>, after: seq<byte>)
    | Unsupported(kind: JsString)

  /** One property of a plain object: its key and its value. */
  datatype Entry = Entry(key: JsString, value: Value)

  /** The errors `pack` and `unpack` throw. */
  datatype Error =
    | OutOfRange              // "BinaryPackFailure: ... out of range"
    | InvalidInteger          // "Invalid integer"
    | InvalidLength           // "Invalid length"
    | UnsupportedType(kind: JsString)  // "Type ... not yet supported"
    | InvalidCodePoint(code: int)      // RangeError from String.fromCodePoint
    | KeyNotModelled          // a decoded map key whose string conversion is not modelled

  /** Either a result or the error that was thrown; usable with `:-`. */
  datatype Result<+T> = Ok(value: T) | Err(error: Error) {
    predicate IsFailure() {
      Err?
    }

    function PropagateFailure<U>(): Result<U>
      requires Err?
    {
      Err(error)
    }

    function Extract(): T
      requires Ok?
    {
      value
    }
  }

  /** Concatenation is associative. */
  lemma AppendAssoc<T>(a: seq<T>, b: seq<T>, c: seq<T>)
    ensures (a + b) + c == a + (b + c)
  {
  }

  /** The byte sequence of a typed-array view's backing buffer. */
  function ViewBuffer(v: Value): seq<byte>
    requires v.View?
  {
    v.before + v.window + v.after
  }

  /** `byteOffset` of a typed-array view. */
  function ViewOffset(v: Value): nat
    requires v.View?
  {
    |v.before|
  }
}
