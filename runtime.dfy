/**
 * The generated routines running against the runtime buffers: what
 * `moduleEncoder(encoder, obj)` does to an `Encoder` and what
 * `moduleDecoder(decoder)` reads from a `Decoder`, proved to write and read
 * exactly the bytes `Codecs.Encode` / `Codecs.Decode` describe, and
 * `CodecBuilder.test`, the encode-then-decode round trip.
 */
module CodecRuntime {
  import opened Wrappers
  import opened Wire
  import opened Codecs
  import opened CodecBuffers
  import opened Codegen

  /** The code emitted for node `s` writing `v`: `encoder.int`, `encoder.string`,
      the inline optional block, the inline array block, or a call to the
      record's `<Name>_encoder_fn`. `ok` is false when a buffer resize throws;
      the bytes written before that stay in the buffer. */
  method EncodeValue(enc: Encoder, s: Schema, v: Value) returns (ok: bool)
    requires enc.Valid() && Conforms(s, v)
    modifies enc, enc.buffer
    ensures enc.Valid()
    ensures ok ==> enc.Written() == old(enc.Written()) + Encode(s, v)
    ensures old(enc.Written()) <= enc.Written() <= old(enc.Written()) + Encode(s, v)
    ensures 4 * (old(enc.offset) + |Encode(s, v)|) + 28 <= MaxByteLength ==> ok
    decreases s, 1
  {
    match s
    case Int =>
      ok := enc.Int(v.n);
    case Str =>
      ok := enc.String(v.units);
    case Arr(_, item, _) =>
      ok := EncodeArray(enc, s, v);
    case Opt(_, item, _) =>
      ok := EncodeOptional(enc, s, v);
    case Rec(_, _, fields) =>
      ok := EncodeRecord(enc, s, v.props);
  }

  /** The inline optional block: `hasValue = v != null`, `encoder.int(1)` and
      the item when it has a value, `encoder.int(0)` alone when it is `null` or
      `undefined`. */
  method EncodeOptional(enc: Encoder, s: Schema, v: Value) returns (ok: bool)
    requires s.Opt? && enc.Valid() && Conforms(s, v)
    modifies enc, enc.buffer
    ensures enc.Valid()
    ensures ok ==> enc.Written() == old(enc.Written()) + Encode(s, v)
    ensures old(enc.Written()) <= enc.Written() <= old(enc.Written()) + Encode(s, v)
    ensures 4 * (old(enc.offset) + |Encode(s, v)|) + 28 <= MaxByteLength ==> ok
    decreases s, 0
  {
    ghost var start := enc.Written();
    var hasValue := !(v.Undefined? || v.Null?);
    ok := enc.Int(if hasValue then 1 else 0);
    if ok && hasValue {
      ghost var before := enc.Written();
      ok := EncodeValue(enc, s.item, v);
      PrefixAfter(start, Int32Bytes(1), before, enc.Written(), Encode(s.item, v));
    }
  }

  /** Bytes written after `a`, as a prefix of `b`, form a prefix of `a + b`. */
  lemma PrefixAfter(start: seq<byte>, a: seq<byte>, before: seq<byte>, now: seq<byte>, b: seq<byte>)
    requires before == start + a && before <= now <= before + b
    ensures start <= now <= start + (a + b)
    ensures now == before + b ==> now == start + (a + b)
  {
    assert start + (a + b) == before + b;
  }

  /** One encoder in a sequence of them: `node`'s encoder writing `v`, with
      `rest` the bytes the following encoders are to write. On success the
      bytes so far and `rest` make up what the whole sequence writes; on
      failure the bytes so far are a prefix of it. */
  method EncodePart(enc: Encoder, node: Schema, v: Value, ghost rest: seq<byte>) returns (ok: bool)
    requires enc.Valid() && Conforms(node, v)
    modifies enc, enc.buffer
    ensures enc.Valid() && old(enc.Written()) <= enc.Written()
    ensures ok ==> enc.Written() == old(enc.Written()) + Encode(node, v)
    ensures ok ==> enc.Written() + rest == old(enc.Written()) + (Encode(node, v) + rest)
    ensures enc.Written() <= old(enc.Written()) + (Encode(node, v) + rest)
    ensures 4 * (old(enc.offset) + |Encode(node, v)|) + 28 <= MaxByteLength ==> ok
    decreases node, 2
  {
    ghost var before := enc.Written();
    ok := EncodeValue(enc, node, v);
    PrefixOfSum(before, enc.Written(), Encode(node, v), rest);
  }

  /** The inline array block: `encoder.int(arr.length)`, then the item
      encoder for each item in index order. */
  method EncodeArray(enc: Encoder, s: Schema, v: Value) returns (ok: bool)
    requires s.Arr? && enc.Valid() && Conforms(s, v)
    modifies enc, enc.buffer
    ensures enc.Valid()
    ensures ok ==> enc.Written() == old(enc.Written()) + Encode(s, v)
    ensures old(enc.Written()) <= enc.Written() <= old(enc.Written()) + Encode(s, v)
    ensures 4 * (old(enc.offset) + |Encode(s, v)|) + 28 <= MaxByteLength ==> ok
    decreases s, 0
  {
    var items := v.items;
    ghost var start := enc.Written();
    ghost var total := Encode(s, v);
    assert total == Int32Bytes(|items|) + EncodeItems(s, items, 0);
    ok := enc.Int(|items|);
    if !ok {
      return;
    }
    for i := 0 to |items|
      invariant enc.Valid() && ok && start <= enc.Written()
      invariant enc.Written() + EncodeItems(s, items, i) == start + total
      invariant enc.offset + |EncodeItems(s, items, i)| == old(enc.offset) + |total|
    {
      ghost var rest := EncodeItems(s, items, i + 1);
      assert EncodeItems(s, items, i) == Encode(s.item, items[i]) + rest;
      ok := EncodePart(enc, s.item, items[i], rest);
      if !ok {
        return;
      }
    }
  }

  /** `<Name>_encoder_fn(encoder, obj)`: the encoder of each field, applied to
      `obj.<field>`, in `add` order. */
  method EncodeRecord(enc: Encoder, s: Schema, props: map<string, Value>) returns (ok: bool)
    requires s.Rec? && enc.Valid()
    requires forall k :: 0 <= k < |s.fields| ==> Conforms(s.fields[k].node, Prop(props, s.fields[k].name))
    modifies enc, enc.buffer
    ensures enc.Valid()
    ensures ok ==> enc.Written() == old(enc.Written()) + EncodeFields(s, props, 0)
    ensures old(enc.Written()) <= enc.Written() <= old(enc.Written()) + EncodeFields(s, props, 0)
    ensures 4 * (old(enc.offset) + |EncodeFields(s, props, 0)|) + 28 <= MaxByteLength ==> ok
    decreases s, 0
  {
    ghost var start := enc.Written();
    ghost var total := EncodeFields(s, props, 0);
    ok := true;
    for i := 0 to |s.fields|
      invariant enc.Valid() && ok && start <= enc.Written()
      invariant enc.Written() + EncodeFields(s, props, i) == start + total
      invariant enc.offset + |EncodeFields(s, props, i)| == old(enc.offset) + |total|
    {
      var f := s.fields[i];
      ghost var rest := EncodeFields(s, props, i + 1);
      assert EncodeFields(s, props, i) == Encode(f.node, Prop(props, f.name)) + rest;
      ok := EncodePart(enc, f.node, Prop(props, f.name), rest);
      if !ok {
        return;
      }
    }
  }

  /** A partial write of the head stays a prefix of head and tail together. */
  lemma PrefixOfSum(before: seq<byte>, now: seq<byte>, head: seq<byte>, tail: seq<byte>)
    requires before <= now <= before + head
    ensures now <= before + head + tail
  {
    assert (before + head + tail)[..|now|] == (before + head)[..|now|];
  }

  /** The code emitted for node `s` reading one value: the result and the new
      cursor are those of `Decode`, and a failed read reports its error. */
  method DecodeValue(dec: Decoder, s: Schema) returns (r: Result<Value, DecodeError>)
    requires dec.index <= |dec.data|
    modifies dec
    ensures Decode(s, dec.data, old(dec.index)).Ok? <==> r.Ok?
    ensures r.Ok? ==> Decode(s, dec.data, old(dec.index)).value == (r.value, dec.index)
    ensures r.Err? ==> Decode(s, dec.data, old(dec.index)).error == r.error
    decreases s
  {
    ghost var pos := dec.index;
    match s
    case Int =>
      var n := dec.Int();
      r := if n.Some? then Ok(Num(n.value)) else Err(OutOfBounds);
    case Str =>
      var t := dec.String();
      r := if t.Some? then Ok(Text(t.value)) else Err(OutOfBounds);
    case Arr(_, item, _) =>
      var length := dec.Int();
      if length.None? {
        return Err(OutOfBounds);
      }
      if length.value < 0 {
        return Err(InvalidArrayLength);
      }
      var items: seq<Value> := [];
      for i := 0 to length.value
        invariant dec.index <= |dec.data|
        invariant DecodeItems(s, dec.data, pos + 4, length.value, [])
                  == DecodeItems(s, dec.data, dec.index, length.value - i, items)
      {
        var x := DecodeValue(dec, item);
        if x.Err? {
          return Err(x.error);
        }
        items := items + [x.value];
      }
      r := Ok(List(items));
    case Opt(_, item, _) =>
      var flag := dec.Int();
      if flag.None? {
        return Err(OutOfBounds);
      }
      if flag.value == 1 {
        r := DecodeValue(dec, item);
      } else {
        r := Ok(Undefined);
      }
    case Rec(_, _, fields) =>
      var props: map<string, Value> := map[];
      for i := 0 to |fields|
        invariant dec.index <= |dec.data|
        invariant DecodeFields(s, dec.data, pos, 0, map[]) == DecodeFields(s, dec.data, dec.index, i, props)
      {
        var x := DecodeValue(dec, fields[i].node);
        if x.Err? {
          return Err(x.error);
        }
        props := props[fields[i].name := x.value];
      }
      r := Ok(Obj(props));
  }

  /** Why `CodecBuilder.test` fails: the generated module does not load (a
      function name declared twice), the encoder's buffer could not grow, or
      the decoder threw. */
  datatype TestError = LoadFailed(name: string) | EncodeFailed | DecodeFailed(error: DecodeError)

  /** `codec.test(obj)`: `createModule` generates the encoder and decoder
      file and imports it, then `obj` is encoded into a fresh `Encoder`, its
      whole buffer handed to a fresh `Decoder`, and decoded. The import is
      rejected exactly when the module declares a function name twice. A
      module that loads gives back a value of the schema's type in canonical
      form whenever the encoding leaves room to grow the buffer, and a value
      already in decoded form unchanged. */
  method Test(s: Schema, v: Value) returns (r: Result<Value, TestError>)
    requires s.Rec? && Conforms(s, v)
    ensures (r.Err? && r.error.LoadFailed?) <==> !Loads(s)
    ensures Loads(s) && Fits(s, v) && 4 * |Encode(s, v)| + 28 <= MaxByteLength ==> r == Ok(Canonical(s, v))
    ensures Loads(s) && Exact(s, v) && 4 * |Encode(s, v)| + 28 <= MaxByteLength ==> r == Ok(v)
  {
    var encoderFile := GenerateEncoderCode(s);
    var decoderFile := GenerateDecoderCode(s);
    var types := DeclsOf(TypeDeclaration, DecoderNodes(s));
    var functions := decoderFile.decls[|types|..] + encoderFile.decls;
    assert functions == ModuleFunctions(s);
    var clash := FindDuplicate(functions, |functions|);
    if clash.Some? {
      return Err(LoadFailed(clash.value));
    }
    var enc := new Encoder();
    var ok := EncodeValue(enc, s, v);
    if !ok {
      return Err(EncodeFailed);
    }
    var buffer := enc.GetBuffer();
    var dec := new Decoder(buffer);
    if Exact(s, v) {
      ExactConformsAndFits(s, v);
      CanonicalOfExact(s, v);
    }
    if Fits(s, v) {
      assert buffer[0..|Encode(s, v)|] == Encode(s, v);
      RoundTrip(s, v, buffer, 0);
    }
    var x := DecodeValue(dec, s);
    if x.Err? {
      return Err(DecodeFailed(x.error));
    }
    r := Ok(x.value);
  }
}
