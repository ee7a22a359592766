/**
 * The runtime buffers the generated routines write to and read from.
 *
 * `Encoder` writes through a `DataView` over a resizable `ArrayBuffer` that
 * starts at 128 bytes and may grow up to a `maxByteLength` of 10,000,000. The
 * model keeps the backing store at that maximum capacity and tracks the
 * buffer's current `byteLength` beside it, so that a resize changes the
 * length and nothing else, as `ArrayBuffer.prototype.resize` does.
 * `Decoder` reads through a `DataView` over the bytes it is given.
 */
module CodecBuffers {
  import opened Wrappers
  import opened Wire

  /** The default `initialSize` of `new Encoder()`. */
  const InitialSize: nat := 128

  /** The `maxByteLength` the encoder's `ArrayBuffer` is created with. */
  const MaxByteLength: nat := 10_000_000

  class Encoder {
    /** The `ArrayBuffer`'s store, at its maximum capacity. */
    const buffer: array<byte>
    /** `buffer.byteLength`: the part a `DataView` may touch. */
    var byteLength: nat
    /** The cursor: the number of bytes written so far. */
    var offset: nat

    /** The buffer's invariant: the cursor lies within the buffer, the buffer
        within its maximum, nothing has been written past the cursor (fresh
        `ArrayBuffer` bytes are zero), and the length never ran ahead of the
        writes: it is the initial size or less than twice the cursor plus three
        4-byte writes. */
    ghost predicate Valid()
      reads this, buffer
    {
      buffer.Length == MaxByteLength
      && offset <= byteLength <= MaxByteLength
      && (forall i :: offset <= i < MaxByteLength ==> buffer[i] == 0)
      && (byteLength <= InitialSize || byteLength < 2 * offset + 12)
    }

    /** The bytes written so far. */
    ghost function Written(): seq<byte>
      reads this, buffer
      requires Valid()
    {
      buffer[..offset]
    }

    /** `new Encoder()`: an empty buffer of the initial size. */
    constructor ()
      ensures Valid() && fresh(buffer)
      ensures byteLength == InitialSize && offset == 0 && Written() == []
    {
      buffer := new byte[MaxByteLength](_ => 0);
      byteLength := InitialSize;
      offset := 0;
    }

    /** `resizeIfNeeded(n)`: when `n` more bytes do not fit, resize the buffer
        to twice its length plus `n`; `ok` is false when that exceeds the
        maximum (`resize` throws a RangeError) and then nothing changes. */
    method ResizeIfNeeded(n: nat) returns (ok: bool)
      requires Valid() && n <= 4
      modifies this
      ensures Valid() && offset == old(offset)
      ensures old(offset) + n <= old(byteLength) ==> ok && byteLength == old(byteLength)
      ensures old(offset) + n > old(byteLength) ==>
                (ok <==> 2 * old(byteLength) + n <= MaxByteLength)
                && byteLength == (if ok then 2 * old(byteLength) + n else old(byteLength))
      ensures ok ==> offset + n <= byteLength
    {
      ok := true;
      if offset + n > byteLength {
        if 2 * byteLength + n <= MaxByteLength {
          byteLength := 2 * byteLength + n;
        } else {
          ok := false;
        }
      }
    }

    /** A `DataView` store of `bs` at the cursor, within the buffer. */
    method Store(bs: seq<byte>)
      requires Valid() && offset + |bs| <= byteLength
      modifies buffer
      ensures buffer[..offset] == old(buffer[..offset])
      ensures buffer[offset..offset + |bs|] == bs
      ensures forall i :: offset + |bs| <= i < MaxByteLength ==> buffer[i] == old(buffer[i])
    {
      forall i | 0 <= i < |bs| {
        buffer[offset + i] := bs[i];
      }
    }

    /** Writes `bs` (at most 4 bytes) at the cursor and advances it, growing
        the buffer first when needed; on `ok == false` nothing changes. */
    method Put(bs: seq<byte>) returns (ok: bool)
      requires Valid() && |bs| <= 4
      modifies this, buffer
      ensures Valid()
      ensures ok ==> Written() == old(Written()) + bs
      ensures !ok ==> offset == old(offset) && Written() == old(Written())
      ensures old(offset) + |bs| <= old(byteLength) || 2 * old(byteLength) + |bs| <= MaxByteLength ==> ok
      ensures 4 * old(offset) + 28 <= MaxByteLength ==> ok
    {
      ok := ResizeIfNeeded(|bs|);
      if !ok {
        return;
      }
      Store(bs);
      assert buffer[..offset + |bs|] == buffer[..offset] + buffer[offset..offset + |bs|];
      offset := offset + |bs|;
    }

    /** `int(v)`: `setInt32` at the cursor, 4 bytes big-endian, then `offset += 4`. */
    method Int(v: int) returns (ok: bool)
      requires Valid()
      modifies this, buffer
      ensures Valid()
      ensures ok ==> Written() == old(Written()) + Int32Bytes(v) && offset == old(offset) + 4
      ensures !ok ==> offset == old(offset) && Written() == old(Written())
      ensures 4 * old(offset) + 28 <= MaxByteLength ==> ok
    {
      ok := Put(Int32Bytes(v));
    }

    /** `word(v)`: `setUint16` at the cursor, then `offset += 2`. */
    method Word(v: int) returns (ok: bool)
      requires Valid()
      modifies this, buffer
      ensures Valid()
      ensures ok ==> Written() == old(Written()) + Uint16Bytes(v) && offset == old(offset) + 2
      ensures !ok ==> offset == old(offset) && Written() == old(Written())
      ensures 4 * old(offset) + 28 <= MaxByteLength ==> ok
    {
      ok := Put(Uint16Bytes(v));
    }

    /** `byte(v)`: `setUint8` at the cursor, then `offset += 1`. */
    method Byte(v: int) returns (ok: bool)
      requires Valid()
      modifies this, buffer
      ensures Valid()
      ensures ok ==> Written() == old(Written()) + Uint8Bytes(v) && offset == old(offset) + 1
      ensures !ok ==> offset == old(offset) && Written() == old(Written())
      ensures 4 * old(offset) + 28 <= MaxByteLength ==> ok
    {
      ok := Put(Uint8Bytes(v));
    }

    /** `string(s)`: the length as a word, then each code unit as a byte. A
        write that fails part-way leaves the bytes written before it. */
    method String(s: JsString) returns (ok: bool)
      requires Valid()
      modifies this, buffer
      ensures Valid()
      ensures ok ==> Written() == old(Written()) + StringBytes(s)
      ensures old(Written()) <= Written() <= old(Written()) + StringBytes(s)
      ensures 4 * (old(offset) + |StringBytes(s)|) + 28 <= MaxByteLength ==> ok
    {
      ghost var start := Written();
      ghost var bytes := StringBytes(s);
      ok := Word(|s|);
      if !ok {
        PrefixOfBytes(start, bytes, 0);
        return;
      }
      assert bytes[..2] == Uint16Bytes(|s|);
      for i := 0 to |s|
        invariant Valid() && ok
        invariant Written() == start + bytes[..2 + i]
        invariant offset == |start| + 2 + i
      {
        ok := Byte(s[i]);
        if !ok {
          PrefixOfBytes(start, bytes, 2 + i);
          return;
        }
        assert bytes[..2 + i + 1] == bytes[..2 + i] + Uint8Bytes(s[i]);
      }
      assert bytes[..2 + |s|] == bytes;
    }

    /** The first `k` bytes of a write extend what was there and stay a
        prefix of the whole write. */
    static lemma PrefixOfBytes(start: seq<byte>, bytes: seq<byte>, k: nat)
      requires k <= |bytes|
      ensures start <= start + bytes[..k] <= start + bytes
    {
      assert (start + bytes)[..|start| + k] == start + bytes[..k];
    }

    /** `getBuffer()`: the whole buffer, the written bytes followed by zeros up
        to its length. */
    method GetBuffer() returns (data: seq<byte>)
      requires Valid()
      ensures |data| == byteLength && data[..offset] == Written()
      ensures forall i :: offset <= i < |data| ==> data[i] == 0
    {
      data := buffer[..byteLength];
    }
  }

  class Decoder {
    /** The bytes of the `ArrayBuffer` the decoder was created over. */
    const data: seq<byte>
    /** The cursor. */
    var index: nat

    /** `new Decoder(buffer)`. */
    constructor (data: seq<byte>)
      ensures this.data == data && index == 0
    {
      this.data := data;
      index := 0;
    }

    /** `int()`: `getInt32` at the cursor, then `index += 4`; `None` when the
        read runs past the end (the RangeError is thrown before the cursor moves). */
    method Int() returns (r: Option<int>)
      modifies this
      ensures r == ReadInt32(data, old(index))
      ensures index == if r.Some? then old(index) + 4 else old(index)
    {
      r := ReadInt32(data, index);
      if r.Some? {
        index := index + 4;
      }
    }

    /** `word()`: `getUint16` at the cursor, then `index += 2`. */
    method Word() returns (r: Option<int>)
      modifies this
      ensures r == ReadUint16(data, old(index))
      ensures index == if r.Some? then old(index) + 2 else old(index)
    {
      r := ReadUint16(data, index);
      if r.Some? {
        index := index + 2;
      }
    }

    /** `byte()`: `getUint8` at the cursor, then `index += 1`. */
    method Byte() returns (r: Option<int>)
      modifies this
      ensures r == ReadUint8(data, old(index))
      ensures index == if r.Some? then old(index) + 1 else old(index)
    {
      r := ReadUint8(data, index);
      if r.Some? {
        index := index + 1;
      }
    }

    /** `string()`: a word of length, then that many bytes, each one code unit. */
    method String() returns (r: Option<JsString>)
      modifies this
      ensures r.Some? <==> ReadString(data, old(index)).Some?
      ensures r.Some? ==> r.value == ReadString(data, old(index)).value.0
                          && index == ReadString(data, old(index)).value.1
      ensures r.None? ==> old(index) <= index
    {
      ghost var start := index;
      var length := Word();
      if length.None? {
        return None;
      }
      var units: JsString := [];
      for i := 0 to length.value
        invariant index == start + 2 + i <= |data|
        invariant units == BytesToUnits(data[start + 2 .. start + 2 + i])
      {
        var b := Byte();
        if b.None? {
          assert ReadString(data, start).None?;
          return None;
        }
        units := units + [b.value];
        assert data[start + 2 .. start + 2 + i + 1] == data[start + 2 .. start + 2 + i] + [data[start + 2 + i]];
      }
      r := Some(units);
    }
  }

  // ---------------------------------------------------------------------------
  // What the cursor methods read back

  /** Bytes written by `int`, `word` and `byte` are read back by the decoder's
      `int`, `word` and `byte` as the value modulo their width. */
  lemma PrimitiveRoundTrips(v: int, data: seq<byte>, pos: nat)
    ensures pos + 4 <= |data| && data[pos..pos + 4] == Int32Bytes(v) ==> ReadInt32(data, pos) == Some(ToInt32(v))
    ensures pos + 2 <= |data| && data[pos..pos + 2] == Uint16Bytes(v) ==> ReadUint16(data, pos) == Some(v % 0x1_0000)
    ensures pos + 1 <= |data| && data[pos..pos + 1] == Uint8Bytes(v) ==> ReadUint8(data, pos) == Some(v % 256)
  {
    if pos + 4 <= |data| && data[pos..pos + 4] == Int32Bytes(v) {
      Int32RoundTrip(v, data, pos);
    }
    if pos + 2 <= |data| && data[pos..pos + 2] == Uint16Bytes(v) {
      Uint16RoundTrip(v, data, pos);
    }
    if pos + 1 <= |data| && data[pos..pos + 1] == Uint8Bytes(v) {
      Uint8RoundTrip(v, data, pos);
    }
  }
}
