/**
 * The byte-level primitives of the codec's wire format: what `DataView`
 * writes and reads for `setInt32`/`getInt32`, `setUint16`/`getUint16` and
 * `setUint8`/`getUint8` with the default (big-endian) byte order, and the
 * string layout used by `Encoder.string` / `Decoder.string`.
 */
module Wire {
  import opened Wrappers

  type byte = x: int | 0 <= x < 256

  /** A UTF-16 code unit: what `charCodeAt` returns. */
  type CodeUnit = x: int | 0 <= x < 0x1_0000

  /** A JavaScript string, as the sequence of its code units. */
  type JsString = seq<CodeUnit>

  const TwoTo32: int := 0x1_0000_0000
  const TwoTo31: int := 0x8000_0000

  /** ECMAScript ToInt32 on an integral number: wrap into [-2^31, 2^31). */
  function ToInt32(v: int): (r: int)
    ensures -TwoTo31 <= r < TwoTo31
    ensures (r - v) % TwoTo32 == 0
  {
    var u := v % TwoTo32;
    if u >= TwoTo31 then u - TwoTo32 else u
  }

  /** Bytes `a + b` found at `pos` are `a` at `pos` followed by `b`. */
  lemma SplitSlice(data: seq<byte>, pos: nat, a: seq<byte>, b: seq<byte>)
    requires pos + |a| + |b| <= |data| && data[pos..pos + |a| + |b|] == a + b
    ensures data[pos..pos + |a|] == a
    ensures data[pos + |a|..pos + |a| + |b|] == b
  {
    assert data[pos..pos + |a|] == data[pos..pos + |a| + |b|][..|a|];
    assert data[pos + |a|..pos + |a| + |b|] == data[pos..pos + |a| + |b|][|a|..];
  }

  lemma ToInt32InRange(v: int)
    requires -TwoTo31 <= v < TwoTo31
    ensures ToInt32(v) == v
  {
    if v < 0 {
      assert v % TwoTo32 == v + TwoTo32;
    }
  }

  /** `setUint8(offset, v)`: the value is reduced modulo 2^8. */
  function Uint8Bytes(v: int): (r: seq<byte>)
    ensures |r| == 1
  {
    [v % 256]
  }

  /** `setUint16(offset, v)`: modulo 2^16, most significant byte first. */
  function Uint16Bytes(v: int): (r: seq<byte>)
    ensures |r| == 2
  {
    var u := v % 0x1_0000;
    [u / 256, u % 256]
  }

  /** `setInt32(offset, v)`: two's complement modulo 2^32, most significant byte first. */
  function Int32Bytes(v: int): (r: seq<byte>)
    ensures |r| == 4
  {
    var u := v % TwoTo32;
    [u / 0x100_0000, (u / 0x1_0000) % 256, (u / 0x100) % 256, u % 256]
  }

  /** `getUint8(pos)`: `None` when the read runs past the end (DataView throws a RangeError). */
  function ReadUint8(data: seq<byte>, pos: nat): (r: Option<int>)
    ensures r.Some? <==> pos + 1 <= |data|
    ensures r.Some? ==> 0 <= r.value < 256
  {
    if pos + 1 <= |data| then Some(data[pos]) else None
  }

  /** `getUint16(pos)`, big-endian. */
  function ReadUint16(data: seq<byte>, pos: nat): (r: Option<int>)
    ensures r.Some? <==> pos + 2 <= |data|
    ensures r.Some? ==> 0 <= r.value < 0x1_0000
  {
    if pos + 2 <= |data| then Some(data[pos] as int * 256 + data[pos + 1] as int) else None
  }

  /** `getInt32(pos)`, big-endian, two's complement. */
  function ReadInt32(data: seq<byte>, pos: nat): (r: Option<int>)
    ensures r.Some? <==> pos + 4 <= |data|
    ensures r.Some? ==> -TwoTo31 <= r.value < TwoTo31
  {
    if pos + 4 <= |data| then
      var u := data[pos] as int * 0x100_0000 + data[pos + 1] as int * 0x1_0000
               + data[pos + 2] as int * 0x100 + data[pos + 3] as int;
      Some(if u >= TwoTo31 then u - TwoTo32 else u)
    else None
  }

  /** The bytes `Encoder.string` writes after the length: one per code unit, modulo 2^8. */
  function Latin1Bytes(s: JsString): (r: seq<byte>)
    ensures |r| == |s|
    ensures forall i :: 0 <= i < |s| ==> r[i] == s[i] % 256
  {
    seq(|s|, i requires 0 <= i < |s| => s[i] % 256)
  }

  /** The full layout of a string: a 16-bit length (modulo 2^16), then one byte per code unit. */
  function StringBytes(s: JsString): (r: seq<byte>)
    ensures |r| == 2 + |s|
  {
    Uint16Bytes(|s|) + Latin1Bytes(s)
  }

  /** The code units `String.fromCharCode` gives back for bytes read one by one. */
  function BytesToUnits(bs: seq<byte>): (r: JsString)
    ensures |r| == |bs|
    ensures forall i :: 0 <= i < |bs| ==> r[i] == bs[i]
  {
    seq(|bs|, i requires 0 <= i < |bs| => bs[i] as CodeUnit)
  }

  /** `Decoder.string`: a 16-bit length, then that many single-byte code units;
      `None` when any read runs past the end. Returns the string and the new position. */
  function ReadString(data: seq<byte>, pos: nat): (r: Option<(JsString, nat)>)
    ensures r.Some? ==> r.value.1 == pos + 2 + |r.value.0| <= |data|
  {
    match ReadUint16(data, pos)
    case None => None
    case Some(len) =>
      if pos + 2 + len <= |data| then Some((BytesToUnits(data[pos + 2 .. pos + 2 + len]), pos + 2 + len))
      else None
  }

  /** The code units a string comes back as after the wire: each one reduced modulo 2^8. */
  function Latin1Units(s: JsString): (r: JsString)
    ensures |r| == |s|
    ensures forall i :: 0 <= i < |s| ==> r[i] == s[i] % 256
  {
    seq(|s|, i requires 0 <= i < |s| => s[i] % 256)
  }

  // ---------------------------------------------------------------------------
  // Round trips of the primitives

  lemma Uint8RoundTrip(v: int, data: seq<byte>, pos: nat)
    requires pos + 1 <= |data| && data[pos..pos + 1] == Uint8Bytes(v)
    ensures ReadUint8(data, pos) == Some(v % 256)
  {
    assert data[pos] == data[pos..pos + 1][0];
  }

  lemma {:induction false} Uint16RoundTrip(v: int, data: seq<byte>, pos: nat)
    requires pos + 2 <= |data| && data[pos..pos + 2] == Uint16Bytes(v)
    ensures ReadUint16(data, pos) == Some(v % 0x1_0000)
  {
    var u := v % 0x1_0000;
    assert data[pos] == data[pos..pos + 2][0] == u / 256;
    assert data[pos + 1] == data[pos..pos + 2][1] == u % 256;
  }

  lemma {:induction false} Int32RoundTrip(v: int, data: seq<byte>, pos: nat)
    requires pos + 4 <= |data| && data[pos..pos + 4] == Int32Bytes(v)
    ensures ReadInt32(data, pos) == Some(ToInt32(v))
  {
    var u := v % TwoTo32;
    var w := data[pos..pos + 4];
    assert data[pos] == w[0] == u / 0x100_0000;
    assert data[pos + 1] == w[1] == (u / 0x1_0000) % 256;
    assert data[pos + 2] == w[2] == (u / 0x100) % 256;
    assert data[pos + 3] == w[3] == u % 256;
    Int32Digits(u);
  }

  lemma Int32Digits(u: int)
    requires 0 <= u < TwoTo32
    ensures (u / 0x100_0000) * 0x100_0000 + ((u / 0x1_0000) % 256) * 0x1_0000
            + ((u / 0x100) % 256) * 0x100 + u % 256 == u
  {
    var a := u / 0x100;
    var b := a / 0x100;
    var c := b / 0x100;
    assert u == a * 0x100 + u % 256;
    assert a == b * 0x100 + a % 256;
    assert b == c * 0x100 + b % 256;
    assert u / 0x1_0000 == b;
    assert u / 0x100_0000 == c;
  }

  lemma {:induction false} StringRoundTrip(s: JsString, data: seq<byte>, pos: nat)
    requires |s| < 0x1_0000
    requires pos + |StringBytes(s)| <= |data| && data[pos..pos + |StringBytes(s)|] == StringBytes(s)
    ensures ReadString(data, pos) == Some((Latin1Units(s), pos + |StringBytes(s)|))
  {
    var w := data[pos..pos + 2 + |s|];
    assert data[pos..pos + 2] == w[..2] == Uint16Bytes(|s|);
    Uint16RoundTrip(|s|, data, pos);
    assert data[pos + 2 .. pos + 2 + |s|] == w[2..] == Latin1Bytes(s);
    assert BytesToUnits(Latin1Bytes(s)) == Latin1Units(s);
  }
}
