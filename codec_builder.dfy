/**
 * `CodecBuilder` as an object: a record schema whose field list `add`
 * extends in place, plus the byte layouts of concrete schemas.
 */
module CodecBuilding {
  import opened Wrappers
  import opened Wire
  import opened Codecs

  /** `new CodecBuilder(name)`: a record node whose `fields` array `add` pushes onto. */
  class CodecBuilder {
    const id: NodeId
    const name: string
    var fields: seq<Field>

    constructor (id: NodeId, name: string)
      ensures this.id == id && this.name == name && fields == []
    {
      this.id := id;
      this.name := name;
      fields := [];
    }

    /** The schema node this builder currently stands for. */
    function Node(): (r: Schema)
      reads this
      ensures r.Rec? && r.id == id && r.name == name && r.fields == fields
    {
      Rec(id, name, fields)
    }

    /** `add(name, serializable)`: appends one field; earlier fields keep their order. */
    method Add(fieldName: string, node: Schema)
      modifies this
      ensures fields == old(fields) + [Field(fieldName, node)]
    {
      fields := fields + [Field(fieldName, node)];
    }
  }

  /** Fields added one after another end up in call order, so a record
      encodes the first added field first. */
  method BuildPoint() returns (point: Schema)
    ensures point == Rec(0, "Point", [Field("x", Int), Field("y", Int)])
  {
    var b := new CodecBuilder(0, "Point");
    b.Add("x", Int);
    b.Add("y", Int);
    point := b.Node();
  }

  // ---------------------------------------------------------------------------
  // Byte layouts

  function Point(): Schema { Rec(0, "Point", [Field("x", Int), Field("y", Int)]) }

  /** `{x: 42, y: -7}` is 8 bytes: two big-endian 32-bit integers in field order,
      and decodes back to itself. */
  lemma PointLayout()
    ensures var v := Obj(map["x" := Num(42), "y" := Num(-7)]);
            Conforms(Point(), v)
            && Encode(Point(), v) == [0, 0, 0, 42, 255, 255, 255, 249]
            && Decode(Point(), Encode(Point(), v), 0) == Ok((v, 8))
  {
    var v := Obj(map["x" := Num(42), "y" := Num(-7)]);
    PointIsExact(v);
    PointBytes(v);
    ExactRoundTrip(Point(), v, []);
    assert Encode(Point(), v) + [] == Encode(Point(), v);
  }

  lemma PointIsExact(v: Value)
    requires v == Obj(map["x" := Num(42), "y" := Num(-7)])
    ensures Exact(Point(), v)
  {
    assert FieldNames(Point(), 2) == {"x", "y"} by {
      assert Point().fields[0].name == "x" && Point().fields[1].name == "y";
    }
  }

  lemma PointBytes(v: Value)
    requires v == Obj(map["x" := Num(42), "y" := Num(-7)])
    ensures Conforms(Point(), v) && Encode(Point(), v) == [0, 0, 0, 42, 255, 255, 255, 249]
  {
    assert Prop(v.props, "x") == Num(42) && Prop(v.props, "y") == Num(-7);
    assert Int32Bytes(-7) == [255, 255, 255, 249];
    assert EncodeFields(Point(), v.props, 1) == [255, 255, 255, 249] + EncodeFields(Point(), v.props, 2);
    assert EncodeFields(Point(), v.props, 0) == [0, 0, 0, 42] + EncodeFields(Point(), v.props, 1);
  }

  function Item(): Schema { Rec(1, "Item", [Field("name", Str), Field("tags", Arr(2, Int, "Tags"))]) }

  function ItemValue(): Value { Obj(map["name" := Text([111, 107]), "tags" := List([Num(1), Num(2), Num(3)])]) }

  lemma ItemIsExact()
    ensures Exact(Item(), ItemValue())
  {
    var tags := Arr(2, Int, "Tags");
    var items := [Num(1), Num(2), Num(3)];
    assert Exact(tags, List(items));
    assert Exact(Str, Text([111, 107]));
    assert FieldNames(Item(), 2) == {"name", "tags"} by {
      assert Item().fields[0].name == "name" && Item().fields[1].name == "tags";
    }
  }

  lemma TagsBytes()
    ensures Conforms(Arr(2, Int, "Tags"), List([Num(1), Num(2), Num(3)]))
    ensures Encode(Arr(2, Int, "Tags"), List([Num(1), Num(2), Num(3)]))
            == [0, 0, 0, 3, 0, 0, 0, 1, 0, 0, 0, 2, 0, 0, 0, 3]
  {
    TagsItemsBytes(Arr(2, Int, "Tags"), [Num(1), Num(2), Num(3)]);
  }

  lemma TagsItemsBytes(tags: Schema, items: seq<Value>)
    requires tags == Arr(2, Int, "Tags") && items == [Num(1), Num(2), Num(3)]
    ensures Conforms(tags, List(items))
    ensures Encode(tags, List(items)) == [0, 0, 0, 3, 0, 0, 0, 1, 0, 0, 0, 2, 0, 0, 0, 3]
  {
    assert EncodeItems(tags, items, 3) == [];
    assert EncodeItems(tags, items, 2) == [0, 0, 0, 3];
    assert EncodeItems(tags, items, 1) == [0, 0, 0, 2, 0, 0, 0, 3];
    assert EncodeItems(tags, items, 0) == [0, 0, 0, 1, 0, 0, 0, 2, 0, 0, 0, 3];
  }

  lemma ItemBytes(item: Schema, v: Value)
    requires item == Item() && v == ItemValue()
    ensures Conforms(item, v)
    ensures Encode(item, v) == [0, 2, 111, 107, 0, 0, 0, 3, 0, 0, 0, 1, 0, 0, 0, 2, 0, 0, 0, 3]
  {
    ItemProps();
    TagsBytes();
    OkBytes();
    var name, tags := Text([111, 107]), List([Num(1), Num(2), Num(3)]);
    ItemFieldsBytes(item, v, name, tags);
    JoinBytes([0, 2, 111, 107], [0, 0, 0, 3, 0, 0, 0, 1, 0, 0, 0, 2, 0, 0, 0, 3]);
  }

  lemma JoinBytes(a: seq<byte>, b: seq<byte>)
    requires a == [0, 2, 111, 107] && b == [0, 0, 0, 3, 0, 0, 0, 1, 0, 0, 0, 2, 0, 0, 0, 3]
    ensures a + b == [0, 2, 111, 107, 0, 0, 0, 3, 0, 0, 0, 1, 0, 0, 0, 2, 0, 0, 0, 3]
  {
  }

  lemma ItemProps()
    ensures Prop(ItemValue().props, "name") == Text([111, 107])
    ensures Prop(ItemValue().props, "tags") == List([Num(1), Num(2), Num(3)])
  {
  }

  /** The string `"ok"`: its 2-byte length, then one byte per character. */
  lemma OkBytes()
    ensures Encode(Str, Text([111, 107])) == [0, 2, 111, 107]
  {
  }

  /** A record of a string field and an array field is the string's bytes,
      then the array's. */
  lemma ItemFieldsBytes(item: Schema, v: Value, name: Value, tags: Value)
    requires item == Item() && v.Obj? && Prop(v.props, "name") == name && Prop(v.props, "tags") == tags
    requires name.Text? && Conforms(Arr(2, Int, "Tags"), tags)
    ensures Conforms(item, v)
    ensures Encode(item, v) == Encode(Str, name) + Encode(Arr(2, Int, "Tags"), tags)
  {
    assert item.fields[0] == Field("name", Str) && item.fields[1] == Field("tags", Arr(2, Int, "Tags"));
    assert EncodeFields(item, v.props, 2) == [];
    assert EncodeFields(item, v.props, 1) == Encode(Arr(2, Int, "Tags"), tags);
  }


  /** `{name: "ok", tags: [1, 2, 3]}` is 20 bytes: a 2-byte length and 2 bytes of
      text, a 4-byte count and three 4-byte integers; it decodes back to itself. */
  lemma ItemLayout()
    ensures Conforms(Item(), ItemValue())
    ensures |Encode(Item(), ItemValue())| == 20
    ensures Decode(Item(), Encode(Item(), ItemValue()), 0) == Ok((ItemValue(), 20))
  {
    ItemIsExact();
    ItemBytes(Item(), ItemValue());
    ExactRoundTrip(Item(), ItemValue(), []);
    assert Encode(Item(), ItemValue()) + [] == Encode(Item(), ItemValue());
  }

  function Maybe(): Schema { Rec(3, "Maybe", [Field("n", Opt(4, Int, "n"))]) }

  /** An absent optional is the 4-byte flag 0 alone, whether the property is
      missing, `undefined` or `null`; it decodes back to `undefined`. A present
      one is the flag 1 followed by the item. */
  lemma OptionalLayout(absent: Value)
    requires absent.Undefined? || absent.Null?
    ensures Conforms(Maybe(), Obj(map[]))
    ensures Encode(Maybe(), Obj(map[])) == [0, 0, 0, 0]
    ensures Encode(Maybe(), Obj(map["n" := absent])) == [0, 0, 0, 0]
    ensures Decode(Maybe(), [0, 0, 0, 0], 0) == Ok((Obj(map["n" := Undefined]), 4))
    ensures Encode(Maybe(), Obj(map["n" := Num(5)])) == [0, 0, 0, 1, 0, 0, 0, 5]
  {
    MaybeBytes(Maybe(), Obj(map[]), Undefined);
    MaybeBytes(Maybe(), Obj(map["n" := absent]), absent);
    MaybeBytes(Maybe(), Obj(map["n" := Num(5)]), Num(5));
    MaybeDecode(Maybe(), [0, 0, 0, 0]);
  }

  /** The one field of `Maybe` holding `n`: the flag, then the number when
      there is one. */
  lemma MaybeBytes(maybe: Schema, v: Value, n: Value)
    requires maybe == Maybe() && v.Obj? && Prop(v.props, "n") == n
    requires n.Undefined? || n.Null? || n == Num(5)
    ensures Conforms(maybe, v)
    ensures Encode(maybe, v) == if n.Num? then [0, 0, 0, 1, 0, 0, 0, 5] else [0, 0, 0, 0]
  {
    var opt := Opt(4, Int, "n");
    assert maybe.fields == [Field("n", opt)];
    assert EncodeFields(maybe, v.props, 1) == [];
    assert EncodeFields(maybe, v.props, 0) == Encode(opt, n);
  }

  /** Four zero bytes decode to `n` left `undefined`. */
  lemma MaybeDecode(maybe: Schema, data: seq<byte>)
    requires maybe == Maybe() && data == [0, 0, 0, 0]
    ensures Decode(maybe, data, 0) == Ok((Obj(map["n" := Undefined]), 4))
  {
    var opt := Opt(4, Int, "n");
    assert maybe.fields == [Field("n", opt)];
    assert ReadInt32(data, 0) == Some(0);
    assert Decode(opt, data, 0) == Ok((Undefined, 4));
    assert DecodeFields(maybe, data, 4, 1, map["n" := Undefined]) == Ok((map["n" := Undefined], 4));
  }

}
