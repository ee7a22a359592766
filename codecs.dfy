/**
 * The schema algebra of the binary codec (`CodecBuilder`, `Int`, `Str`,
 * `ArraySerializable`, `OptionalSerializable`) and the meaning of the
 * routines the generator emits for it: `Encode` is what the emitted
 * `<Name>_encoder_fn` routines (and the inline array / optional / scalar
 * fragments) write, `Decode` is what the emitted `*_decoder_func`
 * routines read back.
 */
module Codecs {
  import opened Wrappers
  import opened Wire

  /** Object identity of a composite schema node (the key of the generator's `Set`). */
  type NodeId = nat

  /** A schema node. `Int` and `Str` are the two shared singletons; every
      composite node carries the identity of the object it stands for. */
  datatype Schema =
    | Int
    | Str
    | Arr(id: NodeId, item: Schema, name: string)
    | Opt(id: NodeId, item: Schema, name: string)
    | Rec(id: NodeId, name: string, fields: seq<Field>)

  /** One `add(name, serializable)` entry of a `CodecBuilder`. */
  datatype Field = Field(name: string, node: Schema)

  /** The JavaScript values the routines encode and produce. */
  datatype Value =
    | Num(n: int)
    | Text(units: JsString)
    | List(items: seq<Value>)
    | Obj(props: map<string, Value>)
    | Undefined
    | Null

  /** Property access `obj.name`: `undefined` when the property is missing. */
  function Prop(props: map<string, Value>, name: string): Value
  {
    if name in props then props[name] else Undefined
  }

  /** The direct sub-nodes of a node (`children()`): none for scalars, the item
      for arrays and optionals, the field nodes in `add` order for records. */
  function Children(s: Schema): (r: seq<Schema>)
    ensures s.Int? || s.Str? ==> r == []
    ensures s.Arr? || s.Opt? ==> r == [s.item]
    ensures s.Rec? ==> |r| == |s.fields| && forall i :: 0 <= i < |r| ==> r[i] == s.fields[i].node
    ensures forall i :: 0 <= i < |r| ==> r[i] < s
  {
    match s
    case Int => []
    case Str => []
    case Arr(_, item, _) => [item]
    case Opt(_, item, _) => [item]
    case Rec(_, _, fields) => seq(|fields|, i requires 0 <= i < |fields| => fields[i].node)
  }

  /** `typeName()`: the TypeScript type a node decodes to. */
  function TypeName(s: Schema): string
  {
    match s
    case Int => "number"
    case Str => "string"
    case Arr(_, item, _) => "Array<" + TypeName(item) + ">"
    case Opt(_, item, _) => TypeName(item) + " | undefined"
    case Rec(_, name, _) => name
  }

  // ---------------------------------------------------------------------------
  // The shapes a value must have for the emitted encoder (its TypeScript type)

  /** `v` has the TypeScript type of `s`: a number for `Int`, a string for `Str`,
      an array of items for `Arr`, `null`/`undefined` or the item for `Opt`, an
      object whose field properties conform for `Rec`. */
  predicate Conforms(s: Schema, v: Value)
    decreases s
  {
    match s
    case Int => v.Num?
    case Str => v.Text?
    case Arr(_, item, _) => v.List? && forall i :: 0 <= i < |v.items| ==> Conforms(item, v.items[i])
    case Opt(_, item, _) => v.Undefined? || v.Null? || Conforms(item, v)
    case Rec(_, _, fields) =>
      v.Obj? && forall i :: 0 <= i < |fields| ==> Conforms(fields[i].node, Prop(v.props, fields[i].name))
  }

  /** The sizes the wire can carry: string lengths below 2^16 (the 16-bit
      length prefix) and array lengths below 2^31 (the signed 32-bit count). */
  predicate Fits(s: Schema, v: Value)
    decreases s
  {
    match s
    case Int => true
    case Str => !v.Text? || |v.units| < 0x1_0000
    case Arr(_, item, _) =>
      !v.List? || (|v.items| < TwoTo31 && forall i :: 0 <= i < |v.items| ==> Fits(item, v.items[i]))
    case Opt(_, item, _) => v.Undefined? || v.Null? || Fits(item, v)
    case Rec(_, _, fields) =>
      !v.Obj? || forall i :: 0 <= i < |fields| ==> Fits(fields[i].node, Prop(v.props, fields[i].name))
  }

  // ---------------------------------------------------------------------------
  // Encoding: the bytes the emitted encoder writes

  /** The bytes written for `v` by the code emitted for `s`:
      `encoder.int(v)`, `encoder.string(v)`, the inline array block
      (`encoder.int(v.length)` then each item), the inline optional block
      (`encoder.int(1)` and the item, or `encoder.int(0)`), or a call to the
      record's `<Name>_encoder_fn`, which encodes the fields in `add` order. */
  function Encode(s: Schema, v: Value): seq<byte>
    requires Conforms(s, v)
    decreases s, 1
  {
    match s
    case Int => Int32Bytes(v.n)
    case Str => StringBytes(v.units)
    case Arr(_, _, _) => Int32Bytes(|v.items|) + EncodeItems(s, v.items, 0)
    case Opt(_, item, _) =>
      if v.Undefined? || v.Null? then Int32Bytes(0) else Int32Bytes(1) + Encode(item, v)
    case Rec(_, _, _) => EncodeFields(s, v.props, 0)
  }

  /** The items `items[i..]` of an array node, back to back. */
  function EncodeItems(s: Schema, items: seq<Value>, i: nat): seq<byte>
    requires s.Arr? && i <= |items|
    requires forall k :: 0 <= k < |items| ==> Conforms(s.item, items[k])
    decreases s, 0, |items| - i
  {
    if i == |items| then [] else Encode(s.item, items[i]) + EncodeItems(s, items, i + 1)
  }

  /** The fields `fields[i..]` of a record node, in `add` order. */
  function EncodeFields(s: Schema, props: map<string, Value>, i: nat): seq<byte>
    requires s.Rec? && i <= |s.fields|
    requires forall k :: 0 <= k < |s.fields| ==> Conforms(s.fields[k].node, Prop(props, s.fields[k].name))
    decreases s, 0, |s.fields| - i
  {
    if i == |s.fields| then []
    else Encode(s.fields[i].node, Prop(props, s.fields[i].name)) + EncodeFields(s, props, i + 1)
  }

  // ---------------------------------------------------------------------------
  // Decoding: what the emitted decoder routines read

  /** Why a decode stops: a `DataView` read past the end of the buffer, or
      `new Array(length)` with a negative length (both throw a RangeError). */
  datatype DecodeError = OutOfBounds | InvalidArrayLength

  /** The value read at `pos` by the code emitted for `s`, with the position after it. */
  function Decode(s: Schema, data: seq<byte>, pos: nat): (r: Result<(Value, nat), DecodeError>)
    ensures r.Ok? ==> pos <= r.value.1 <= |data|
    decreases s, 1
  {
    match s
    case Int =>
      (match ReadInt32(data, pos)
       case None => Err(OutOfBounds)
       case Some(n) => Ok((Num(n), pos + 4)))
    case Str =>
      (match ReadString(data, pos)
       case None => Err(OutOfBounds)
       case Some((units, next)) => Ok((Text(units), next)))
    case Arr(_, _, _) =>
      (match ReadInt32(data, pos)
       case None => Err(OutOfBounds)
       case Some(length) =>
         if length < 0 then Err(InvalidArrayLength)
         else
           match DecodeItems(s, data, pos + 4, length, [])
           case Err(e) => Err(e)
           case Ok((items, next)) => Ok((List(items), next)))
    case Opt(_, item, _) =>
      (match ReadInt32(data, pos)
       case None => Err(OutOfBounds)
       case Some(flag) => if flag == 1 then Decode(item, data, pos + 4) else Ok((Undefined, pos + 4)))
    case Rec(_, _, _) =>
      match DecodeFields(s, data, pos, 0, map[])
      case Err(e) => Err(e)
      case Ok((props, next)) => Ok((Obj(props), next))
  }

  /** The array item loop `for (i = 0; i < length; i++) arr[i] = <item decoder>`,
      with `count` items still to read after `acc`. */
  function DecodeItems(s: Schema, data: seq<byte>, pos: nat, count: nat, acc: seq<Value>)
    : (r: Result<(seq<Value>, nat), DecodeError>)
    requires s.Arr?
    ensures r.Ok? ==> pos <= r.value.1 <= |data| && |r.value.0| == |acc| + count
    decreases s, 0, count
  {
    if count == 0 then
      if pos <= |data| then Ok((acc, pos)) else Err(OutOfBounds)
    else
      match Decode(s.item, data, pos)
      case Err(e) => Err(e)
      case Ok((v, next)) => DecodeItems(s, data, next, count - 1, acc + [v])
  }

  /** The object literal `{ f0: <decoder>, f1: <decoder>, ... }`, evaluated in field
      order from field `i` on; a repeated field name keeps the last value. */
  function DecodeFields(s: Schema, data: seq<byte>, pos: nat, i: nat, acc: map<string, Value>)
    : (r: Result<(map<string, Value>, nat), DecodeError>)
    requires s.Rec? && i <= |s.fields|
    ensures r.Ok? ==> pos <= r.value.1 <= |data|
    decreases s, 0, |s.fields| - i
  {
    if i == |s.fields| then
      if pos <= |data| then Ok((acc, pos)) else Err(OutOfBounds)
    else
      match Decode(s.fields[i].node, data, pos)
      case Err(e) => Err(e)
      case Ok((v, next)) => DecodeFields(s, data, next, i + 1, acc[s.fields[i].name := v])
  }

  // ---------------------------------------------------------------------------
  // What comes back

  /** The value the decoder rebuilds from the encoding of `v`: numbers wrapped to
      32 bits, code units reduced to 8 bits, `null` optionals read back as
      `undefined`, objects holding exactly the schema's fields. */
  function Canonical(s: Schema, v: Value): Value
    requires Conforms(s, v)
    decreases s, 1
  {
    match s
    case Int => Num(ToInt32(v.n))
    case Str => Text(Latin1Units(v.units))
    case Arr(_, item, _) => List(CanonicalItems(s, v.items, 0, []))
    case Opt(_, item, _) => if v.Undefined? || v.Null? then Undefined else Canonical(item, v)
    case Rec(_, _, _) => Obj(CanonicalFields(s, v.props, 0, map[]))
  }

  function CanonicalItems(s: Schema, items: seq<Value>, i: nat, acc: seq<Value>): (r: seq<Value>)
    requires s.Arr? && i <= |items|
    requires forall k :: 0 <= k < |items| ==> Conforms(s.item, items[k])
    ensures |r| == |acc| + |items| - i
    decreases s, 0, |items| - i
  {
    if i == |items| then acc else CanonicalItems(s, items, i + 1, acc + [Canonical(s.item, items[i])])
  }

  function CanonicalFields(s: Schema, props: map<string, Value>, i: nat, acc: map<string, Value>)
    : map<string, Value>
    requires s.Rec? && i <= |s.fields|
    requires forall k :: 0 <= k < |s.fields| ==> Conforms(s.fields[k].node, Prop(props, s.fields[k].name))
    decreases s, 0, |s.fields| - i
  {
    if i == |s.fields| then acc
    else
      var f := s.fields[i];
      CanonicalFields(s, props, i + 1, acc[f.name := Canonical(f.node, Prop(props, f.name))])
  }

  // ---------------------------------------------------------------------------
  // Round trip: decode(encode(v)) is the canonical form of v

  /** Decoding the bytes written for `v`, wherever they sit in a larger buffer
      (the Encoder's buffer has unused capacity after them), gives back the
      canonical form of `v` and stops exactly at the end of those bytes. */
  lemma {:induction false} RoundTrip(s: Schema, v: Value, data: seq<byte>, pos: nat)
    requires Conforms(s, v) && Fits(s, v)
    requires pos + |Encode(s, v)| <= |data| && data[pos..pos + |Encode(s, v)|] == Encode(s, v)
    ensures Decode(s, data, pos) == Ok((Canonical(s, v), pos + |Encode(s, v)|))
    decreases s, 1
  {
    match s
    case Int =>
      Int32RoundTrip(v.n, data, pos);
    case Str =>
      StringRoundTrip(v.units, data, pos);
    case Arr(_, item, _) =>
      RoundTripArray(s, v, data, pos);
    case Opt(_, item, _) =>
      if v.Undefined? || v.Null? {
        Int32RoundTrip(0, data, pos);
      } else {
        RoundTripPresent(s, v, data, pos);
      }
    case Rec(_, _, _) =>
      RoundTripFields(s, v.props, 0, map[], data, pos);
  }

  /** An array: the count, then the items. */
  lemma {:induction false} RoundTripArray(s: Schema, v: Value, data: seq<byte>, pos: nat)
    requires s.Arr? && Conforms(s, v) && Fits(s, v)
    requires pos + |Encode(s, v)| <= |data| && data[pos..pos + |Encode(s, v)|] == Encode(s, v)
    ensures Decode(s, data, pos) == Ok((Canonical(s, v), pos + |Encode(s, v)|))
    decreases s, 0, |v.items| + 1, 0
  {
    SplitSlice(data, pos, Int32Bytes(|v.items|), EncodeItems(s, v.items, 0));
    Int32RoundTrip(|v.items|, data, pos);
    ToInt32InRange(|v.items|);
    RoundTripItems(s, v.items, 0, [], data, pos + 4);
  }

  /** An optional with a value: the flag 1, then the item. */
  lemma {:induction false} RoundTripPresent(s: Schema, v: Value, data: seq<byte>, pos: nat)
    requires s.Opt? && Conforms(s, v) && Fits(s, v) && !(v.Undefined? || v.Null?)
    requires pos + |Encode(s, v)| <= |data| && data[pos..pos + |Encode(s, v)|] == Encode(s, v)
    ensures Decode(s, data, pos) == Ok((Canonical(s, v), pos + |Encode(s, v)|))
    decreases s, 0
  {
    SplitSlice(data, pos, Int32Bytes(1), Encode(s.item, v));
    Int32RoundTrip(1, data, pos);
    RoundTrip(s.item, v, data, pos + 4);
  }

  lemma {:induction false} RoundTripItems(s: Schema, items: seq<Value>, i: nat, acc: seq<Value>, data: seq<byte>, pos: nat)
    requires s.Arr? && i <= |items|
    requires forall k :: 0 <= k < |items| ==> Conforms(s.item, items[k]) && Fits(s.item, items[k])
    requires pos + |EncodeItems(s, items, i)| <= |data|
    requires data[pos..pos + |EncodeItems(s, items, i)|] == EncodeItems(s, items, i)
    ensures DecodeItems(s, data, pos, |items| - i, acc)
            == Ok((CanonicalItems(s, items, i, acc), pos + |EncodeItems(s, items, i)|))
    decreases s, 0, |items| - i, 1
  {
    if i < |items| {
      var next := pos + |Encode(s.item, items[i])|;
      var acc' := acc + [Canonical(s.item, items[i])];
      RoundTripItem(s, items, i, data, pos);
      RoundTripItems(s, items, i + 1, acc', data, next);
      assert DecodeItems(s, data, pos, |items| - i, acc) == DecodeItems(s, data, next, |items| - (i + 1), acc');
      assert CanonicalItems(s, items, i, acc) == CanonicalItems(s, items, i + 1, acc');
      assert |EncodeItems(s, items, i)| == |Encode(s.item, items[i])| + |EncodeItems(s, items, i + 1)|;
    }
  }

  /** Item `i` decodes to its canonical value, and the later items' bytes
      follow it. */
  lemma {:induction false} RoundTripItem(s: Schema, items: seq<Value>, i: nat, data: seq<byte>, pos: nat)
    requires s.Arr? && i < |items|
    requires forall k :: 0 <= k < |items| ==> Conforms(s.item, items[k]) && Fits(s.item, items[k])
    requires pos + |EncodeItems(s, items, i)| <= |data|
    requires data[pos..pos + |EncodeItems(s, items, i)|] == EncodeItems(s, items, i)
    ensures var next := pos + |Encode(s.item, items[i])|;
            && Decode(s.item, data, pos) == Ok((Canonical(s.item, items[i]), next))
            && next + |EncodeItems(s, items, i + 1)| <= |data|
            && data[next..next + |EncodeItems(s, items, i + 1)|] == EncodeItems(s, items, i + 1)
    decreases s, 0, |items| - i, 0
  {
    SplitSlice(data, pos, Encode(s.item, items[i]), EncodeItems(s, items, i + 1));
    RoundTrip(s.item, items[i], data, pos);
  }

  lemma {:induction false} RoundTripFields(s: Schema, props: map<string, Value>, i: nat, acc: map<string, Value>,
                                           data: seq<byte>, pos: nat)
    requires s.Rec? && i <= |s.fields|
    requires forall k :: 0 <= k < |s.fields| ==>
               Conforms(s.fields[k].node, Prop(props, s.fields[k].name)) && Fits(s.fields[k].node, Prop(props, s.fields[k].name))
    requires pos + |EncodeFields(s, props, i)| <= |data|
    requires data[pos..pos + |EncodeFields(s, props, i)|] == EncodeFields(s, props, i)
    ensures DecodeFields(s, data, pos, i, acc)
            == Ok((CanonicalFields(s, props, i, acc), pos + |EncodeFields(s, props, i)|))
    decreases s, 0, |s.fields| - i, 1
  {
    if i < |s.fields| {
      var f := s.fields[i];
      var fv := Prop(props, f.name);
      var next := pos + |Encode(f.node, fv)|;
      RoundTripField(s, props, i, data, pos, next);
      var acc' := acc[f.name := Canonical(f.node, fv)];
      RoundTripFields(s, props, i + 1, acc', data, next);
      FieldsStep(s, props, i, acc, data, pos, next);
    }
  }

  /** One field further through the decoder, the canonical form and the
      encoding, once field `i` has decoded to its canonical value. */
  lemma FieldsStep(s: Schema, props: map<string, Value>, i: nat, acc: map<string, Value>,
                   data: seq<byte>, pos: nat, next: nat)
    requires s.Rec? && i < |s.fields|
    requires forall k :: 0 <= k < |s.fields| ==> Conforms(s.fields[k].node, Prop(props, s.fields[k].name))
    requires Decode(s.fields[i].node, data, pos) == Ok((Canonical(s.fields[i].node, Prop(props, s.fields[i].name)), next))
    ensures var f := s.fields[i];
            var acc' := acc[f.name := Canonical(f.node, Prop(props, f.name))];
            && DecodeFields(s, data, pos, i, acc) == DecodeFields(s, data, next, i + 1, acc')
            && CanonicalFields(s, props, i, acc) == CanonicalFields(s, props, i + 1, acc')
            && |EncodeFields(s, props, i)| == |Encode(f.node, Prop(props, f.name))| + |EncodeFields(s, props, i + 1)|
  {
  }

  /** Field `i` decodes to its canonical value, and the later fields' bytes
      follow it from `next` on. */
  lemma {:induction false} RoundTripField(s: Schema, props: map<string, Value>, i: nat, data: seq<byte>, pos: nat, next: nat)
    requires s.Rec? && i < |s.fields|
    requires forall k :: 0 <= k < |s.fields| ==>
               Conforms(s.fields[k].node, Prop(props, s.fields[k].name)) && Fits(s.fields[k].node, Prop(props, s.fields[k].name))
    requires pos + |EncodeFields(s, props, i)| <= |data|
    requires data[pos..pos + |EncodeFields(s, props, i)|] == EncodeFields(s, props, i)
    requires next == pos + |Encode(s.fields[i].node, Prop(props, s.fields[i].name))|
    ensures Decode(s.fields[i].node, data, pos) == Ok((Canonical(s.fields[i].node, Prop(props, s.fields[i].name)), next))
    ensures next + |EncodeFields(s, props, i + 1)| <= |data|
    ensures data[next..next + |EncodeFields(s, props, i + 1)|] == EncodeFields(s, props, i + 1)
    decreases s, 0, |s.fields| - i, 0
  {
    var f := s.fields[i];
    var fv := Prop(props, f.name);
    SplitSlice(data, pos, Encode(f.node, fv), EncodeFields(s, props, i + 1));
    RoundTrip(f.node, fv, data, pos);
  }

  // ---------------------------------------------------------------------------
  // Values that come back unchanged

  /** The names of fields `fields[..i]` of a record node. */
  function FieldNames(s: Schema, i: nat): set<string>
    requires s.Rec? && i <= |s.fields|
  {
    set k | 0 <= k < i :: s.fields[k].name
  }

  /** One field more: its name joins the names of the fields before it. */
  lemma FieldNamesStep(s: Schema, i: nat)
    requires s.Rec? && i < |s.fields|
    ensures FieldNames(s, i + 1) == FieldNames(s, i) + {s.fields[i].name}
  {
    assert s.fields[i].name in FieldNames(s, i + 1);
  }

  /** `v` is already in the form the decoder produces: 32-bit numbers, strings of
      single-byte code units shorter than 2^16, arrays shorter than 2^31, absent
      optionals as `undefined`, objects with exactly the record's fields. */
  predicate Exact(s: Schema, v: Value)
    decreases s
  {
    match s
    case Int => v.Num? && -TwoTo31 <= v.n < TwoTo31
    case Str => v.Text? && |v.units| < 0x1_0000 && forall i :: 0 <= i < |v.units| ==> v.units[i] < 256
    case Arr(_, item, _) =>
      v.List? && |v.items| < TwoTo31 && forall i :: 0 <= i < |v.items| ==> Exact(item, v.items[i])
    case Opt(_, item, _) => v.Undefined? || (!v.Null? && Exact(item, v))
    case Rec(_, _, fields) =>
      v.Obj? && v.props.Keys == FieldNames(s, |fields|)
      && forall i :: 0 <= i < |fields| ==> Exact(fields[i].node, Prop(v.props, fields[i].name))
  }

  lemma {:induction false} ExactConformsAndFits(s: Schema, v: Value)
    requires Exact(s, v)
    ensures Conforms(s, v) && Fits(s, v)
    decreases s
  {
    match s
    case Int =>
    case Str =>
    case Arr(_, item, _) =>
      forall i | 0 <= i < |v.items| ensures Conforms(item, v.items[i]) && Fits(item, v.items[i]) {
        ExactConformsAndFits(item, v.items[i]);
      }
    case Opt(_, item, _) =>
      if !v.Undefined? { ExactConformsAndFits(item, v); }
    case Rec(_, _, fields) =>
      forall i | 0 <= i < |fields|
        ensures Conforms(fields[i].node, Prop(v.props, fields[i].name)) && Fits(fields[i].node, Prop(v.props, fields[i].name))
      {
        ExactConformsAndFits(fields[i].node, Prop(v.props, fields[i].name));
      }
  }

  /** A value already in decoded form is its own canonical form, so it survives
      the round trip unchanged. */
  lemma {:induction false} CanonicalOfExact(s: Schema, v: Value)
    requires Exact(s, v)
    ensures Conforms(s, v) && Canonical(s, v) == v
    decreases s, 1
  {
    ExactConformsAndFits(s, v);
    match s
    case Int =>
      ToInt32InRange(v.n);
    case Str =>
      assert Latin1Units(v.units) == v.units;
    case Arr(_, item, _) =>
      CanonicalItemsOfExact(s, v.items, 0);
    case Opt(_, item, _) =>
      if !v.Undefined? { CanonicalOfExact(item, v); }
    case Rec(_, _, fields) =>
      CanonicalFieldsOfExact(s, v.props, 0, map[]);
  }

  lemma {:induction false} CanonicalItemsOfExact(s: Schema, items: seq<Value>, i: nat)
    requires s.Arr? && i <= |items|
    requires forall k :: 0 <= k < |items| ==> Exact(s.item, items[k])
    ensures forall k :: 0 <= k < |items| ==> Conforms(s.item, items[k])
    ensures CanonicalItems(s, items, i, items[..i]) == items
    decreases s, 0, |items| - i
  {
    forall k | 0 <= k < |items| ensures Conforms(s.item, items[k]) {
      ExactConformsAndFits(s.item, items[k]);
    }
    if i < |items| {
      CanonicalOfExact(s.item, items[i]);
      assert items[..i] + [items[i]] == items[..i + 1];
      CanonicalItemsOfExact(s, items, i + 1);
    } else {
      assert items[..i] == items;
    }
  }

  /** The properties of a record value in decoded form: exactly the record's
      field names, each holding a value in decoded form. */
  predicate ExactFields(s: Schema, props: map<string, Value>)
    requires s.Rec?
  {
    && props.Keys == FieldNames(s, |s.fields|)
    && (forall k :: 0 <= k < |s.fields| ==> Exact(s.fields[k].node, Prop(props, s.fields[k].name)))
    && (forall k :: 0 <= k < |s.fields| ==> Conforms(s.fields[k].node, Prop(props, s.fields[k].name)))
  }

  /** `acc` holds the first `i` fields of `props`, unchanged. */
  predicate AgreesUpTo(s: Schema, props: map<string, Value>, i: nat, acc: map<string, Value>)
    requires s.Rec? && i <= |s.fields|
  {
    acc.Keys == FieldNames(s, i) && acc.Keys <= props.Keys && forall k | k in acc :: acc[k] == props[k]
  }

  lemma {:induction false} CanonicalFieldsOfExact(s: Schema, props: map<string, Value>, i: nat, acc: map<string, Value>)
    requires s.Rec? && i <= |s.fields| && ExactFields(s, props) && AgreesUpTo(s, props, i, acc)
    ensures CanonicalFields(s, props, i, acc) == props
    decreases s, 0, |s.fields| - i, 1
  {
    if i < |s.fields| {
      var f := s.fields[i];
      FieldAgrees(s, props, i, acc);
      CanonicalFieldsOfExact(s, props, i + 1, acc[f.name := Prop(props, f.name)]);
      assert CanonicalFields(s, props, i, acc) == CanonicalFields(s, props, i + 1, acc[f.name := Prop(props, f.name)]);
    } else {
      assert acc.Keys == props.Keys;
    }
  }

  /** Field `i` of a value in decoded form is its own canonical form, so
      storing it keeps `acc` in agreement with `props`. */
  lemma {:induction false} FieldAgrees(s: Schema, props: map<string, Value>, i: nat, acc: map<string, Value>)
    requires s.Rec? && i < |s.fields| && ExactFields(s, props) && AgreesUpTo(s, props, i, acc)
    ensures Canonical(s.fields[i].node, Prop(props, s.fields[i].name)) == Prop(props, s.fields[i].name)
    ensures AgreesUpTo(s, props, i + 1, acc[s.fields[i].name := Prop(props, s.fields[i].name)])
    decreases s, 0, |s.fields| - i, 0
  {
    var f := s.fields[i];
    assert f.name in FieldNames(s, |s.fields|);
    assert Exact(f.node, Prop(props, f.name));
    CanonicalOfExact(f.node, Prop(props, f.name));
    FieldNamesStep(s, i);
  }

  /** The round trip the codec promises: a value in decoded form comes back
      unchanged, and decoding stops right after its bytes. */
  lemma ExactRoundTrip(s: Schema, v: Value, rest: seq<byte>)
    requires Exact(s, v)
    ensures Conforms(s, v)
    ensures Decode(s, Encode(s, v) + rest, 0) == Ok((v, |Encode(s, v)|))
  {
    CanonicalOfExact(s, v);
    ExactConformsAndFits(s, v);
    var data := Encode(s, v) + rest;
    assert data[0..|Encode(s, v)|] == Encode(s, v);
    RoundTrip(s, v, data, 0);
  }
}
