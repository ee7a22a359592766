/**
 * The earlier codec of the front-end codec test page: a `CodecBuilder` whose
 * fields are named ints, nested codecs and arrays, and whose generated
 * encoder and decoder talk to a FIFO of numbers (`Encoder.int` pushes,
 * `Decoder.int` shifts). The generated routines are modelled by what they do:
 * `Encode` is the sequence of numbers the encoder pushes, `Decode` the object
 * the decoder builds and the numbers it leaves behind.
 */
module FrontCodecs {
  import opened Wrappers

  /** The JavaScript values the routines handle: integral numbers,
      `undefined` (what `shift()` gives on an empty buffer), plain objects and
      arrays. */
  datatype JsValue =
    | Num(n: int)
    | Undefined
    | Obj(props: map<string, JsValue>)
    | Arr(items: seq<JsValue>)

  /** A field as `addInt`, `addCodec` and `addArray` push it; an `INT` field
      whose name is `null` stands for the whole object. */
  datatype Field =
    | IntField(key: Option<string>)
    | CodecField(name: string, codec: Codec)
    | ArrayField(name: string, codec: Codec)

  /** The field list of a builder at the moment the routines are generated. */
  datatype Codec = Codec(fields: seq<Field>)

  /** `obj.<name>`: the property when `obj` is an object holding it, and
      `undefined` otherwise. */
  function Get(v: JsValue, name: string): JsValue
  {
    if v.Obj? && name in v.props then v.props[name] else Undefined
  }

  // ---------------------------------------------------------------------------
  // The builder and the FIFO buffers

  class CodecBuilder {
    var fields: seq<Field>

    constructor ()
      ensures fields == []
    {
      fields := [];
    }

    /** The codec the generated routines interpret. */
    function Snapshot(): (c: Codec)
      reads this
      ensures c.fields == fields
    {
      Codec(fields)
    }

    /** `addInt(name)`. */
    method AddInt(name: Option<string>)
      modifies this
      ensures fields == old(fields) + [IntField(name)]
    {
      fields := fields + [IntField(name)];
    }

    /** `addCodec(name, codec)`: the nested builder's fields as they are now. */
    method AddCodec(name: string, codec: CodecBuilder)
      modifies this
      ensures fields == old(fields) + [CodecField(name, old(codec.Snapshot()))]
    {
      fields := fields + [CodecField(name, codec.Snapshot())];
    }

    /** `addArray(name, codec)`: the item builder's fields as they are now. */
    method AddArray(name: string, codec: CodecBuilder)
      modifies this
      ensures fields == old(fields) + [ArrayField(name, old(codec.Snapshot()))]
    {
      fields := fields + [ArrayField(name, codec.Snapshot())];
    }
  }

  /** `buffer.shift()`: the head and the rest, or `undefined` and the empty
      buffer when there is nothing left. */
  function Shift(buffer: seq<int>): (r: (JsValue, seq<int>))
    ensures |buffer| > 0 ==> r.0 == Num(buffer[0]) && buffer == [buffer[0]] + r.1
    ensures |buffer| == 0 ==> r == (Undefined, [])
  {
    if |buffer| > 0 then (Num(buffer[0]), buffer[1..]) else (Undefined, [])
  }

  class Encoder {
    var buffer: seq<int>

    constructor ()
      ensures buffer == []
    {
      buffer := [];
    }

    /** `int(value)`: pushes `value` onto the end. */
    method Int(value: int)
      modifies this
      ensures buffer == old(buffer) + [value]
    {
      buffer := buffer + [value];
    }

    /** `getBuffer()`. */
    method GetBuffer() returns (r: seq<int>)
      ensures r == buffer
    {
      r := buffer;
    }
  }

  class Decoder {
    var buffer: seq<int>

    constructor (buffer: seq<int>)
      ensures this.buffer == buffer
    {
      this.buffer := buffer;
    }

    /** `int()`: removes and returns the head, `undefined` once empty. */
    method Int() returns (x: JsValue)
      modifies this
      ensures (x, buffer) == Shift(old(buffer))
    {
      if |buffer| > 0 {
        x := Num(buffer[0]);
        buffer := buffer[1..];
      } else {
        x := Undefined;
      }
    }
  }

  /** Shifting `k` times: the values read and the buffer left. */
  function ShiftMany(buffer: seq<int>, k: nat): (seq<JsValue>, seq<int>)
    decreases k
  {
    if k == 0 then ([], buffer)
    else
      var (x, rest) := Shift(buffer);
      var (xs, left) := ShiftMany(rest, k - 1);
      ([x] + xs, left)
  }

  /** The numbers of `xs` as JavaScript numbers. */
  function Nums(xs: seq<int>): (r: seq<JsValue>)
    ensures |r| == |xs| && forall i :: 0 <= i < |xs| ==> r[i] == Num(xs[i])
  {
    if xs == [] then [] else [Num(xs[0])] + Nums(xs[1..])
  }

  /** First in, first out: shifting as many times as numbers were pushed
      returns them in push order and leaves what followed. */
  lemma {:induction false} FifoOrder(pushed: seq<int>, rest: seq<int>)
    ensures ShiftMany(pushed + rest, |pushed|) == (Nums(pushed), rest)
    decreases |pushed|
  {
    if pushed != [] {
      assert (pushed + rest)[1..] == pushed[1..] + rest;
      assert Shift(pushed + rest) == (Num(pushed[0]), pushed[1..] + rest);
      FifoOrder(pushed[1..], rest);
      assert ShiftMany(pushed + rest, |pushed|)
          == ([Num(pushed[0])] + Nums(pushed[1..]), rest);
      assert Nums(pushed) == [Num(pushed[0])] + Nums(pushed[1..]);
    } else {
      assert pushed + rest == rest;
    }
  }

  // ---------------------------------------------------------------------------
  // The generated encoder

  /** What the generated encoder needs of `obj` not to throw and to push only
      numbers: a number for the whole-object int, a number at each named int,
      something to read a nested codec's properties from, an array at each
      array field. */
  predicate Encodable(c: Codec, v: JsValue)
    decreases c
  {
    forall i | 0 <= i < |c.fields| :: FieldEncodable(c.fields[i], v)
  }

  predicate FieldEncodable(f: Field, v: JsValue)
    decreases f
  {
    match f
    case IntField(None) => v.Num?
    case IntField(Some(name)) => Get(v, name).Num?
    case CodecField(name, sub) => !v.Undefined? && Encodable(sub, Get(v, name))
    case ArrayField(name, sub) =>
      Get(v, name).Arr? && forall k | 0 <= k < |Get(v, name).items| :: Encodable(sub, Get(v, name).items[k])
  }

  /** `generateEncoder()` applied to `(encoder, obj)`: the numbers pushed. */
  function Encode(c: Codec, v: JsValue): seq<int>
    requires Encodable(c, v)
    decreases c, 1
  {
    EncodeFields(c, v, 0)
  }

  function EncodeFields(c: Codec, v: JsValue, i: nat): seq<int>
    requires i <= |c.fields| && Encodable(c, v)
    decreases c, 0, |c.fields| - i
  {
    if i == |c.fields| then [] else EncodeField(c.fields[i], v) + EncodeFields(c, v, i + 1)
  }

  /** One field's lines: `encoder.int(obj)`, `encoder.int(obj.<name>)`, the
      nested encoder on `obj.<name>`, or the length then each item. */
  function EncodeField(f: Field, v: JsValue): seq<int>
    requires FieldEncodable(f, v)
    decreases f
  {
    match f
    case IntField(None) => [v.n]
    case IntField(Some(name)) => [Get(v, name).n]
    case CodecField(name, sub) => Encode(sub, Get(v, name))
    case ArrayField(name, sub) => [|Get(v, name).items|] + EncodeItems(sub, Get(v, name).items, 0)
  }

  function EncodeItems(c: Codec, items: seq<JsValue>, j: nat): seq<int>
    requires j <= |items| && forall k | 0 <= k < |items| :: Encodable(c, items[k])
    decreases c, 2, |items| - j
  {
    if j == |items| then [] else Encode(c, items[j]) + EncodeItems(c, items, j + 1)
  }

  // ---------------------------------------------------------------------------
  // The generated decoder

  /** The decoder throws a TypeError when it sets a property on a number or on
      `undefined`. */
  datatype DecodeError = TypeError

  /** `obj.<name> = x` on an object: the other properties stay as they were. */
  function Assign(obj: JsValue, name: string, x: JsValue): (r: JsValue)
    requires obj.Obj?
    ensures r.Obj? && Get(r, name) == x && r.props.Keys == obj.props.Keys + {name}
    ensures forall k :: k != name ==> Get(r, k) == Get(obj, k)
  {
    Obj(obj.props[name := x])
  }

  /** The iterations of `for(let i=0; i<length; i++)`: none unless the length
      read is a positive number. */
  function Count(length: JsValue): nat
  {
    if length.Num? && length.n > 0 then length.n else 0
  }

  /** `generateDecoder()` applied to `(decoder)`: starting from `let obj = {}`,
      each field's lines in order, then `return obj`. */
  function Decode(c: Codec, buffer: seq<int>): Result<(JsValue, seq<int>), DecodeError>
    decreases c, 1
  {
    DecodeFields(c, 0, Obj(map[]), buffer)
  }

  function DecodeFields(c: Codec, i: nat, obj: JsValue, buffer: seq<int>): Result<(JsValue, seq<int>), DecodeError>
    requires i <= |c.fields|
    decreases c, 0, |c.fields| - i
  {
    if i == |c.fields| then Ok((obj, buffer))
    else
      match DecodeField(c.fields[i], obj, buffer)
      case Err(e) => Err(e)
      case Ok((obj', rest)) => DecodeFields(c, i + 1, obj', rest)
  }

  /** One field's lines: `obj = decoder.int()`, `obj.<name> = decoder.int()`,
      `obj.<name>` set to the nested decoder's result, or `obj.<name> = []`
      followed by the length and that many items. */
  function DecodeField(f: Field, obj: JsValue, buffer: seq<int>): Result<(JsValue, seq<int>), DecodeError>
    decreases f
  {
    match f
    case IntField(None) => Ok(Shift(buffer))
    case IntField(Some(name)) =>
      var (x, rest) := Shift(buffer);
      if obj.Obj? then Ok((Assign(obj, name, x), rest)) else Err(TypeError)
    case CodecField(name, sub) =>
      if !obj.Obj? then Err(TypeError)
      else
        (match Decode(sub, buffer)
         case Err(e) => Err(e)
         case Ok((x, rest)) => Ok((Assign(obj, name, x), rest)))
    case ArrayField(name, sub) =>
      if !obj.Obj? then Err(TypeError)
      else
        var (length, rest) := Shift(buffer);
        match DecodeItems(sub, rest, Count(length), [])
        case Err(e) => Err(e)
        case Ok((items, left)) => Ok((Assign(obj, name, Arr(items)), left))
  }

  function DecodeItems(c: Codec, buffer: seq<int>, count: nat, acc: seq<JsValue>): Result<(seq<JsValue>, seq<int>), DecodeError>
    decreases c, 2, count
  {
    if count == 0 then Ok((acc, buffer))
    else
      match Decode(c, buffer)
      case Err(e) => Err(e)
      case Ok((x, rest)) => DecodeItems(c, rest, count - 1, acc + [x])
  }

  // ---------------------------------------------------------------------------
  // Values the round trip gives back unchanged

  /** The property a field's lines read and write; none for the whole-object int. */
  function KeyOf(f: Field): Option<string>
  {
    match f
    case IntField(key) => key
    case CodecField(name, _) => Some(name)
    case ArrayField(name, _) => Some(name)
  }

  /** The properties a field list reads and writes. */
  function Keys(fields: seq<Field>): set<string>
  {
    set i | 0 <= i < |fields| && KeyOf(fields[i]).Some? :: KeyOf(fields[i]).value
  }

  /** A codec made only of `addInt(null)`: the value is one number. */
  predicate WholeValue(c: Codec)
  {
    |c.fields| > 0 && forall i | 0 <= i < |c.fields| :: c.fields[i] == IntField(None)
  }

  /** A codec whose every field has a name. */
  predicate Named(c: Codec)
  {
    forall i | 0 <= i < |c.fields| :: KeyOf(c.fields[i]).Some?
  }

  /** A value in exactly the shape the decoder builds for `c`: a number for a
      whole-value codec; otherwise an object with exactly the codec's
      properties, each of its field's shape. A codec mixing `addInt(null)`
      with named fields has no such value: its decoder sets properties on a
      number. */
  predicate Exact(c: Codec, v: JsValue)
    decreases c
  {
    if WholeValue(c) then v.Num?
    else Named(c) && v.Obj? && v.props.Keys == Keys(c.fields)
         && forall i | 0 <= i < |c.fields| :: FieldExact(c.fields[i], v)
  }

  predicate FieldExact(f: Field, v: JsValue)
    decreases f
  {
    match f
    case IntField(None) => v.Num?
    case IntField(Some(name)) => Get(v, name).Num?
    case CodecField(name, sub) => Exact(sub, Get(v, name))
    case ArrayField(name, sub) =>
      Get(v, name).Arr? && forall k | 0 <= k < |Get(v, name).items| :: Exact(sub, Get(v, name).items[k])
  }

  /** The encoder accepts every value of exact shape. */
  lemma {:induction false} ExactIsEncodable(c: Codec, v: JsValue)
    requires Exact(c, v)
    ensures Encodable(c, v)
    decreases c, 1
  {
    forall i | 0 <= i < |c.fields|
      ensures FieldEncodable(c.fields[i], v)
    {
      FieldExactIsEncodable(c.fields[i], v);
    }
  }

  lemma {:induction false} FieldExactIsEncodable(f: Field, v: JsValue)
    requires FieldExact(f, v) && (v.Obj? || f == IntField(None))
    ensures FieldEncodable(f, v)
    decreases f
  {
    match f
    case IntField(_) =>
    case CodecField(name, sub) =>
      ExactIsEncodable(sub, Get(v, name));
    case ArrayField(name, sub) =>
      var items := Get(v, name).items;
      forall k | 0 <= k < |items|
        ensures Encodable(sub, items[k])
      {
        ExactIsEncodable(sub, items[k]);
      }
  }

  /** The generated decoder inverts the generated encoder on every value of
      exact shape, whatever follows in the buffer. */
  lemma {:induction false} RoundTrip(c: Codec, v: JsValue, rest: seq<int>)
    requires Exact(c, v)
    ensures Encodable(c, v) && Decode(c, Encode(c, v) + rest) == Ok((v, rest))
    decreases c, 1
  {
    ExactIsEncodable(c, v);
    if WholeValue(c) {
      WholeValueRoundTrip(c, v, 0, Obj(map[]), rest);
    } else {
      assert Keys(c.fields[..0]) == {};
      RoundTripFields(c, v, 0, map[], rest);
    }
  }

  /** Every `obj = decoder.int()` replaces the object by the next number. */
  lemma {:induction false} WholeValueRoundTrip(c: Codec, v: JsValue, i: nat, obj: JsValue, rest: seq<int>)
    requires WholeValue(c) && v.Num? && Encodable(c, v) && i <= |c.fields|
    requires i == |c.fields| ==> obj == v
    ensures DecodeFields(c, i, obj, EncodeFields(c, v, i) + rest) == Ok((v, rest))
    decreases |c.fields| - i
  {
    if i < |c.fields| {
      assert EncodeFields(c, v, i) + rest == [v.n] + (EncodeFields(c, v, i + 1) + rest);
      WholeValueRoundTrip(c, v, i + 1, v, rest);
    } else {
      assert EncodeFields(c, v, i) + rest == rest;
    }
  }

  /** The properties of the first `i + 1` fields are those of the first `i`
      and the `i`-th field's. */
  lemma KeysStep(fields: seq<Field>, i: nat)
    requires i < |fields| && KeyOf(fields[i]).Some?
    ensures Keys(fields[..i + 1]) == Keys(fields[..i]) + {KeyOf(fields[i]).value}
    ensures KeyOf(fields[i]).value in Keys(fields)
  {
    var next := fields[..i + 1];
    assert next[i] == fields[i];
    forall k | k in Keys(next)
      ensures k in Keys(fields[..i]) + {KeyOf(fields[i]).value}
    {
      var j :| 0 <= j < |next| && KeyOf(next[j]).Some? && KeyOf(next[j]).value == k;
      if j < i {
        assert fields[..i][j] == next[j];
      }
    }
    forall k | k in Keys(fields[..i])
      ensures k in Keys(next)
    {
      var j :| 0 <= j < i && KeyOf(fields[..i][j]).Some? && KeyOf(fields[..i][j]).value == k;
      assert next[j] == fields[..i][j];
    }
  }

  /** After the fields before `i`, the object holds the value's properties
      for exactly their names; the rest of the fields complete it. */
  lemma {:induction false} RoundTripFields(c: Codec, v: JsValue, i: nat, m: map<string, JsValue>, rest: seq<int>)
    requires Exact(c, v) && !WholeValue(c) && Encodable(c, v) && i <= |c.fields|
    requires m.Keys == Keys(c.fields[..i]) && forall k :: k in m ==> k in v.props && m[k] == v.props[k]
    ensures DecodeFields(c, i, Obj(m), EncodeFields(c, v, i) + rest) == Ok((v, rest))
    decreases c, 0, |c.fields| - i
  {
    if i == |c.fields| {
      assert c.fields[..i] == c.fields;
      assert m == v.props;
      assert EncodeFields(c, v, i) + rest == rest;
    } else {
      var f := c.fields[i];
      var name := KeyOf(f).value;
      KeysStep(c.fields, i);
      var tail := EncodeFields(c, v, i + 1) + rest;
      RoundTripField(f, v, m, tail);
      assert EncodeFields(c, v, i) + rest == EncodeField(f, v) + tail;
      RoundTripFields(c, v, i + 1, m[name := v.props[name]], rest);
    }
  }

  /** One named field reads back its property and sets it on the object. */
  lemma {:induction false} RoundTripField(f: Field, v: JsValue, m: map<string, JsValue>, rest: seq<int>)
    requires KeyOf(f).Some? && FieldExact(f, v) && v.Obj? && KeyOf(f).value in v.props
    ensures FieldEncodable(f, v)
    ensures DecodeField(f, Obj(m), EncodeField(f, v) + rest)
            == Ok((Obj(m[KeyOf(f).value := v.props[KeyOf(f).value]]), rest))
    decreases f
  {
    FieldExactIsEncodable(f, v);
    match f
    case IntField(Some(name)) =>
      assert Shift(EncodeField(f, v) + rest) == (Get(v, name), rest);
    case CodecField(name, sub) =>
      RoundTrip(sub, Get(v, name), rest);
    case ArrayField(name, sub) =>
      var items := Get(v, name).items;
      var body := EncodeItems(sub, items, 0) + rest;
      assert EncodeField(f, v) + rest == [|items|] + body;
      assert Shift([|items|] + body) == (Num(|items|), body);
      RoundTripItems(sub, items, 0, rest);
      assert items[..0] == [];
  }

  /** The item loop reads back each remaining item in order. */
  lemma {:induction false} RoundTripItems(c: Codec, items: seq<JsValue>, j: nat, rest: seq<int>)
    requires j <= |items| && forall k | 0 <= k < |items| :: Exact(c, items[k])
    ensures forall k | 0 <= k < |items| :: Encodable(c, items[k])
    ensures DecodeItems(c, EncodeItems(c, items, j) + rest, |items| - j, items[..j]) == Ok((items, rest))
    decreases c, 2, |items| - j
  {
    forall k | 0 <= k < |items|
      ensures Encodable(c, items[k])
    {
      ExactIsEncodable(c, items[k]);
    }
    if j == |items| {
      assert items[..j] == items;
      assert EncodeItems(c, items, j) + rest == rest;
    } else {
      var tail := EncodeItems(c, items, j + 1) + rest;
      RoundTrip(c, items[j], tail);
      assert EncodeItems(c, items, j) + rest == Encode(c, items[j]) + tail;
      assert items[..j] + [items[j]] == items[..j + 1];
      RoundTripItems(c, items, j + 1, rest);
    }
  }

  // ---------------------------------------------------------------------------
  // The generated routines running against the FIFO buffers

  /** The evaluated `generateEncoder()` called as `encoderFn(encoder, obj)`:
      it pushes exactly `Encode(c, obj)`. */
  method RunEncoder(enc: Encoder, c: Codec, v: JsValue)
    requires Encodable(c, v)
    modifies enc
    ensures enc.buffer == old(enc.buffer) + Encode(c, v)
    decreases c, 1
  {
    for i := 0 to |c.fields|
      invariant enc.buffer + EncodeFields(c, v, i) == old(enc.buffer) + Encode(c, v)
    {
      ghost var before := enc.buffer;
      RunField(enc, c.fields[i], v);
      assert before + EncodeFields(c, v, i) == enc.buffer + EncodeFields(c, v, i + 1);
    }
  }

  method RunField(enc: Encoder, f: Field, v: JsValue)
    requires FieldEncodable(f, v)
    modifies enc
    ensures enc.buffer == old(enc.buffer) + EncodeField(f, v)
    decreases f
  {
    match f
    case IntField(None) =>
      enc.Int(v.n);
    case IntField(Some(name)) =>
      enc.Int(Get(v, name).n);
    case CodecField(name, sub) =>
      RunEncoder(enc, sub, Get(v, name));
    case ArrayField(name, sub) =>
      var items := Get(v, name).items;
      enc.Int(|items|);
      for j := 0 to |items|
        invariant enc.buffer + EncodeItems(sub, items, j) == old(enc.buffer) + EncodeField(f, v)
      {
        ghost var before := enc.buffer;
        RunEncoder(enc, sub, items[j]);
        assert before + EncodeItems(sub, items, j) == enc.buffer + EncodeItems(sub, items, j + 1);
      }
  }

  /** The evaluated `generateDecoder()` called as `decoderFn(decoder)`: it
      returns the object `Decode` describes and leaves what `Decode` leaves,
      or throws exactly when `Decode` fails. */
  method RunDecoder(dec: Decoder, c: Codec) returns (r: Result<JsValue, DecodeError>)
    modifies dec
    ensures r.Ok? <==> Decode(c, old(dec.buffer)).Ok?
    ensures r.Ok? ==> Decode(c, old(dec.buffer)).value == (r.value, dec.buffer)
    decreases c, 1
  {
    var obj := Obj(map[]);
    for i := 0 to |c.fields|
      invariant Decode(c, old(dec.buffer)) == DecodeFields(c, i, obj, dec.buffer)
    {
      var x := RunFieldDecoder(dec, c.fields[i], obj);
      if x.Err? {
        return Err(x.error);
      }
      obj := x.value;
    }
    r := Ok(obj);
  }

  method RunFieldDecoder(dec: Decoder, f: Field, obj: JsValue) returns (r: Result<JsValue, DecodeError>)
    modifies dec
    ensures r.Ok? <==> DecodeField(f, obj, old(dec.buffer)).Ok?
    ensures r.Ok? ==> DecodeField(f, obj, old(dec.buffer)).value == (r.value, dec.buffer)
    decreases f
  {
    match f
    case IntField(None) =>
      var x := dec.Int();
      r := Ok(x);
    case IntField(Some(name)) =>
      var x := dec.Int();
      r := if obj.Obj? then Ok(Assign(obj, name, x)) else Err(TypeError);
    case CodecField(name, sub) =>
      if !obj.Obj? {
        return Err(TypeError);
      }
      var x := RunDecoder(dec, sub);
      if x.Err? {
        return Err(x.error);
      }
      r := Ok(Assign(obj, name, x.value));
    case ArrayField(name, sub) =>
      if !obj.Obj? {
        return Err(TypeError);
      }
      var items: seq<JsValue> := [];
      var length := dec.Int();
      ghost var start := dec.buffer;
      for i := 0 to Count(length)
        invariant DecodeItems(sub, start, Count(length), []) == DecodeItems(sub, dec.buffer, Count(length) - i, items)
      {
        var x := RunDecoder(dec, sub);
        if x.Err? {
          return Err(x.error);
        }
        items := items + [x.value];
      }
      r := Ok(Assign(obj, name, Arr(items)));
  }

  // ---------------------------------------------------------------------------
  // The test page's round trip

  /** `objectToEncode` of the test. */
  function TestObject(): JsValue
  {
    Obj(map[
      "baz" := Num(42),
      "nested" := Obj(map["foo" := Num(1), "bar" := Num(2)]),
      "arr" := Arr([Obj(map["item1" := Num(1), "item2" := Num(2)])]),
      "flatArr" := Arr([Num(7), Num(8), Num(9)])])
  }

  /** `otherCodec` of the test, as its builder calls leave it. */
  function TestCodec(): Codec
  {
    Codec([
      IntField(Some("baz")),
      CodecField("nested", Codec([IntField(Some("foo")), IntField(Some("bar"))])),
      ArrayField("arr", Codec([IntField(Some("item1")), IntField(Some("item2"))])),
      ArrayField("flatArr", Codec([IntField(None)]))])
  }

  /** A codec of two named ints and the object holding two numbers under
      those names. */
  lemma PairIsExact(x: string, y: string, a: int, b: int)
    requires x != y
    ensures Exact(Codec([IntField(Some(x)), IntField(Some(y))]), Obj(map[x := Num(a), y := Num(b)]))
  {
    var fields := [IntField(Some(x)), IntField(Some(y))];
    assert KeyOf(fields[0]) == Some(x) && KeyOf(fields[1]) == Some(y);
    assert Keys(fields) == {x, y};
    assert !WholeValue(Codec(fields));
  }

  /** The shape of the test codec: a named int, a nested codec, an array of
      records and an array of whole-value items. */
  lemma OuterIsExact(baz: string, nested: string, arr: string, flatArr: string,
                     nc: Codec, nv: JsValue, ic: Codec, iv: JsValue, xs: seq<int>)
    requires |{baz, nested, arr, flatArr}| == 4
    requires Exact(nc, nv) && Exact(ic, iv)
    ensures Exact(Codec([IntField(Some(baz)), CodecField(nested, nc), ArrayField(arr, ic), ArrayField(flatArr, Codec([IntField(None)]))]),
                  Obj(map[baz := Num(42), nested := nv, arr := Arr([iv]), flatArr := Arr(Nums(xs))]))
  {
    var fields := [IntField(Some(baz)), CodecField(nested, nc), ArrayField(arr, ic), ArrayField(flatArr, Codec([IntField(None)]))];
    var v := Obj(map[baz := Num(42), nested := nv, arr := Arr([iv]), flatArr := Arr(Nums(xs))]);
    FourKeys(fields, baz, nested, arr, flatArr);
    assert !WholeValue(Codec(fields));
    OuterFieldsExact(fields, v, baz, nested, arr, flatArr, nc, nv, ic, iv, xs);
  }

  /** The names of four named fields. */
  lemma FourKeys(fields: seq<Field>, a: string, b: string, c: string, d: string)
    requires |fields| == 4
    requires KeyOf(fields[0]) == Some(a) && KeyOf(fields[1]) == Some(b)
    requires KeyOf(fields[2]) == Some(c) && KeyOf(fields[3]) == Some(d)
    ensures Keys(fields) == {a, b, c, d} && Named(Codec(fields))
  {
    assert a == KeyOf(fields[0]).value && b == KeyOf(fields[1]).value;
    assert c == KeyOf(fields[2]).value && d == KeyOf(fields[3]).value;
  }

  lemma OuterFieldsExact(fields: seq<Field>, v: JsValue, baz: string, nested: string, arr: string, flatArr: string,
                         nc: Codec, nv: JsValue, ic: Codec, iv: JsValue, xs: seq<int>)
    requires |{baz, nested, arr, flatArr}| == 4
    requires Exact(nc, nv) && Exact(ic, iv)
    requires fields == [IntField(Some(baz)), CodecField(nested, nc), ArrayField(arr, ic), ArrayField(flatArr, Codec([IntField(None)]))]
    requires v == Obj(map[baz := Num(42), nested := nv, arr := Arr([iv]), flatArr := Arr(Nums(xs))])
    ensures forall i | 0 <= i < |fields| :: FieldExact(fields[i], v)
  {
    assert baz != nested && baz != arr && baz != flatArr && nested != arr && nested != flatArr && arr != flatArr;
    assert WholeValue(Codec([IntField(None)]));
    assert FieldExact(fields[0], v) && FieldExact(fields[1], v) && FieldExact(fields[2], v);
    assert FieldExact(fields[3], v);
  }

  /** The test object has exactly the shape of the test codec. */
  lemma TestObjectIsExact()
    ensures Exact(TestCodec(), TestObject())
  {
    PairIsExact("foo", "bar", 1, 2);
    PairIsExact("item1", "item2", 1, 2);
    assert |{"baz", "nested", "arr", "flatArr"}| == 4;
    assert Nums([7, 8, 9]) == [Num(7), Num(8), Num(9)];
    OuterIsExact("baz", "nested", "arr", "flatArr",
                 Codec([IntField(Some("foo")), IntField(Some("bar"))]), Obj(map["foo" := Num(1), "bar" := Num(2)]),
                 Codec([IntField(Some("item1")), IntField(Some("item2"))]), Obj(map["item1" := Num(1), "item2" := Num(2)]),
                 [7, 8, 9]);
  }

  /** The builder calls of the test: two plain records, a whole-value
      array item, and the outer record adding them in order. */
  method BuildTestCodec() returns (c: Codec)
    ensures c == TestCodec()
  {
    var codec := new CodecBuilder();
    codec.AddInt(Some("foo"));
    codec.AddInt(Some("bar"));
    var arrayBuilder := new CodecBuilder();
    arrayBuilder.AddInt(Some("item1"));
    arrayBuilder.AddInt(Some("item2"));
    var flatArrayBuilder := new CodecBuilder();
    flatArrayBuilder.AddInt(None);
    var otherCodec := new CodecBuilder();
    otherCodec.AddInt(Some("baz"));
    otherCodec.AddCodec("nested", codec);
    otherCodec.AddArray("arr", arrayBuilder);
    otherCodec.AddArray("flatArr", flatArrayBuilder);
    assert codec.fields == [IntField(Some("foo")), IntField(Some("bar"))];
    assert arrayBuilder.fields == [IntField(Some("item1")), IntField(Some("item2"))];
    assert flatArrayBuilder.fields == [IntField(None)];
    c := otherCodec.Snapshot();
  }

  /** The test: build the codecs with `addInt`/`addCodec`/`addArray`, encode
      `objectToEncode` into a fresh encoder, decode its buffer with a fresh
      decoder; the decoded object equals the one encoded. */
  method CodecsTest() returns (decoded: Result<JsValue, DecodeError>)
    ensures decoded == Ok(TestObject())
  {
    var c := BuildTestCodec();
    TestObjectIsExact();
    RoundTrip(c, TestObject(), []);
    var encoder := new Encoder();
    RunEncoder(encoder, c, TestObject());
    var buffer := encoder.GetBuffer();
    assert buffer == Encode(c, TestObject()) + [];
    var decoder := new Decoder(buffer);
    decoded := RunDecoder(decoder, c);
  }

}
