/**
 * The byte accumulator the packer writes into. Single numbers are collected
 * in `pieces`; a flush turns them into one byte chunk at the end of `parts`;
 * any other data is added as a chunk of its own after a flush.
 * A pending number is kept as the byte `new Uint8Array(_pieces)` stores for
 * it at the flush, the number modulo 256; nothing reads it before then.
 */
module BufferBuilders {
  import opened PackTypes

  /** What `append` is given: a number, or a byte chunk (a typed array). */
  datatype Data = Number(n: int) | Chunk(bytes: seq<byte>)

  /** The bytes of all chunks, in order. */
  function Concat(parts: seq<seq<byte>>): seq<byte>
  {
    if parts == [] then [] else Concat(parts[..|parts| - 1]) + parts[|parts| - 1]
  }

  /** The byte a Uint8Array stores for an integer: the integer modulo 256. */
  function ToUint8(n: int): byte
  {
    if 0 <= n < 256 then n else n % 256
  }

  /** The chunk list after a flush: the pending numbers, if any, become one more chunk. */
  function Flushed(parts: seq<seq<byte>>, pieces: seq<byte>): seq<seq<byte>>
  {
    if |pieces| > 0 then parts + [pieces] else parts
  }

  /** A flush keeps every byte, in order. */
  lemma FlushKeepsBytes(parts: seq<seq<byte>>, pieces: seq<byte>)
    ensures Concat(Flushed(parts, pieces)) == Concat(parts) + pieces
  {
    if |pieces| > 0 {
      var ps := parts + [pieces];
      assert ps[..|ps| - 1] == parts;
    }
  }

  /** Chunks can be joined before or after the chunks in front of them. */
  lemma {:induction false} ConcatAppend(parts: seq<seq<byte>>, more: seq<seq<byte>>)
    ensures Concat(parts + more) == Concat(parts) + Concat(more)
    decreases |more|
  {
    if more != [] {
      var ps := parts + more;
      assert ps[..|ps| - 1] == parts + more[..|more| - 1];
      assert ps[|ps| - 1] == more[|more| - 1];
      ConcatAppend(parts, more[..|more| - 1]);
      assert Concat(ps) == Concat(parts + more[..|more| - 1]) + more[|more| - 1];
      assert Concat(more) == Concat(more[..|more| - 1]) + more[|more| - 1];
    } else {
      assert parts + more == parts;
    }
  }

  class BufferBuilder {
    /** The pending numbers (`_pieces`), each as the byte it becomes. */
    var pieces: seq<byte>
    /** The chunks built so far (`_parts`). */
    var parts: seq<seq<byte>>
    /** Every byte appended so far, in order. */
    ghost var appended: seq<byte>

    /** The chunks followed by the pending bytes are exactly the bytes appended. */
    ghost predicate Valid()
      reads this
    {
      Concat(parts) + pieces == appended
    }

    constructor()
      ensures Valid()
      ensures pieces == [] && parts == [] && appended == []
    {
      pieces := [];
      parts := [];
      appended := [];
    }

    /** `append(data)`: a number is pushed onto the pending pieces, anything else becomes a chunk after a flush. */
    method Append(data: Data)
      requires Valid()
      modifies this
      ensures Valid()
      ensures data.Number? ==> appended == old(appended) + [ToUint8(data.n)]
      ensures data.Number? ==> pieces == old(pieces) + [ToUint8(data.n)] && parts == old(parts)
      ensures data.Chunk? ==> appended == old(appended) + data.bytes
      ensures data.Chunk? ==> pieces == [] && parts == Flushed(old(parts), old(pieces)) + [data.bytes]
    {
      match data
      case Number(n) =>
        pieces := pieces + [ToUint8(n)];
        appended := appended + [ToUint8(n)];
      case Chunk(bytes) =>
        Flush();
        parts := parts + [bytes];
        appended := appended + bytes;
        assert parts[..|parts| - 1] == Flushed(old(parts), old(pieces));
    }

    /** `append_buffer(chunk)`: the chunk is added as a part of its own. */
    method AppendBuffer(chunk: seq<byte>)
      requires Valid()
      modifies this
      ensures Valid()
      ensures appended == old(appended) + chunk
      ensures pieces == [] && parts == Flushed(old(parts), old(pieces)) + [chunk]
    {
      Append(Chunk(chunk));
    }

    /** `flush()`: pending numbers, if any, become one chunk; the bytes appended are unchanged. */
    method Flush()
      requires Valid()
      modifies this
      ensures Valid()
      ensures appended == old(appended)
      ensures pieces == [] && parts == Flushed(old(parts), old(pieces))
    {
      if |pieces| > 0 {
        var buf := pieces;
        parts := parts + [buf];
        pieces := [];
      }
      FlushKeepsBytes(old(parts), old(pieces));
    }

    /** `getBuffer()`: flushes, then joins the chunks, so every appended byte is in the result. */
    method GetBuffer() returns (r: seq<byte>)
      requires Valid()
      modifies this
      ensures Valid()
      ensures r == appended && appended == old(appended)
      ensures pieces == [] && parts == Flushed(old(parts), old(pieces))
    {
      Flush();
      r := Concat(parts);
    }

    /** `toArrayBuffer()`: the chunks joined; pending numbers are not included. */
    method ToArrayBuffer() returns (r: seq<byte>)
      requires Valid()
      ensures r + pieces == appended
      ensures pieces == [] ==> r == appended
    {
      r := Concat(parts);
    }
  }
}
