/**
 The eligibility fixture: an ONNX model put together field by field, and the message a
 reader gets back from its bytes. Tensor weights are given as their packed bytes.
 */
module FixtureModel {
  import opened Options
  import opened ProtoWire

  /** The bytes of an ASCII text, as every text of the fixture is. */
  function Ascii(text: string): Bytes {
    seq(|text|, i requires 0 <= i < |text| => (text[i] as int % 128) as byte)
  }

  function FieldStr(number: nat, text: string): Bytes {
    FieldBytes(number, Ascii(text))
  }

  function Text(number: nat, text: string): Field {
    Blob(number, Ascii(text))
  }

  /******* The builders, as bytes *******/

  function JoinDims(number: nat, dims: seq<nat>): Bytes {
    if dims == [] then [] else FieldVarint(number, dims[0]) + JoinDims(number, dims[1..])
  }

  function JoinTexts(number: nat, texts: seq<string>): Bytes {
    if texts == [] then [] else FieldStr(number, texts[0]) + JoinTexts(number, texts[1..])
  }

  function JoinShape(dims: seq<nat>): Bytes {
    if dims == [] then [] else FieldBytes(1, FieldVarint(1, dims[0])) + JoinShape(dims[1..])
  }

  function Tensor(name: string, dims: seq<nat>, packed: Bytes): Bytes {
    JoinDims(1, dims) + FieldVarint(2, 1) + FieldStr(8, name) + FieldBytes(9, packed)
  }

  function Node(op: string, inputs: seq<string>, output: string, attrs: Bytes): Bytes {
    JoinTexts(1, inputs) + FieldStr(2, output) + FieldStr(3, op + "_" + output) + FieldStr(4, op) + attrs
  }

  function ValueInfo(name: string, dims: seq<nat>): Bytes {
    FieldStr(1, name) + FieldBytes(2, FieldBytes(1, FieldVarint(1, 1) + FieldBytes(2, JoinShape(dims))))
  }

  function Axis(): Bytes {
    FieldBytes(5, FieldStr(1, "axis") + FieldVarint(3, -1) + FieldVarint(20, 2))
  }

  /** The graph's fields in their order: nodes, name, initializers, notice, input and output. */
  function JoinGraph(n1: Bytes, n2: Bytes, n3: Bytes, n4: Bytes, name: string, t1: Bytes, t2: Bytes, doc: string,
                     x: Bytes, y: Bytes): Bytes {
    FieldBytes(1, n1) + FieldBytes(1, n2) + FieldBytes(1, n3) + FieldBytes(1, n4)
    + FieldStr(2, name) + FieldBytes(5, t1) + FieldBytes(5, t2) + FieldStr(10, doc) + FieldBytes(11, x) + FieldBytes(12, y)
  }

  function Graph(doc: string, w1: Bytes, w2: Bytes): Bytes {
    JoinGraph(Node("MatMul", ["x", "w1"], "h", []), Node("Relu", ["h"], "a", []),
              Node("MatMul", ["a", "w2"], "z", []), Node("Softmax", ["z"], "probs", Axis()),
              "kenaz_ml_laya_eligibility_fixture",
              Tensor("w1", [64, 128], w1), Tensor("w2", [128, 2], w2),
              doc, ValueInfo("x", [1, 64]), ValueInfo("probs", [1, 2]))
  }

  function Opset(): Bytes {
    FieldStr(1, "") + FieldVarint(2, 13)
  }

  function JoinModel(producer: string, doc: string, graph: Bytes, opset: Bytes): Bytes {
    FieldVarint(1, 8) + FieldStr(2, producer) + FieldStr(6, doc) + FieldBytes(7, graph) + FieldBytes(8, opset)
  }

  /** `build_fixture_model`. */
  function Model(doc: string, w1: Bytes, w2: Bytes): Bytes {
    JoinModel("kenaz-ml-eligibility-fixture", doc, Graph(doc, w1, w2), Opset())
  }

  /******* The messages they stand for *******/

  function DimFields(number: nat, dims: seq<nat>): seq<Field> {
    if dims == [] then [] else [Num(number, dims[0])] + DimFields(number, dims[1..])
  }

  function TextFields(number: nat, texts: seq<string>): seq<Field> {
    if texts == [] then [] else [Text(number, texts[0])] + TextFields(number, texts[1..])
  }

  function ShapeFields(dims: seq<nat>): seq<Field> {
    if dims == [] then [] else [Sub(1, [Num(1, dims[0])])] + ShapeFields(dims[1..])
  }

  function TensorFields(name: string, dims: seq<nat>, packed: Bytes): seq<Field> {
    DimFields(1, dims) + [Num(2, 1), Text(8, name), Blob(9, packed)]
  }

  function NodeFields(op: string, inputs: seq<string>, output: string, attrs: seq<Field>): seq<Field> {
    TextFields(1, inputs) + [Text(2, output), Text(3, op + "_" + output), Text(4, op)] + attrs
  }

  function ValueInfoFields(name: string, dims: seq<nat>): seq<Field> {
    [Text(1, name), Sub(2, [Sub(1, [Num(1, 1), Sub(2, ShapeFields(dims))])])]
  }

  function AxisField(): Field {
    Sub(5, [Text(1, "axis"), Num(3, -1), Num(20, 2)])
  }

  function GraphOf(n1: seq<Field>, n2: seq<Field>, n3: seq<Field>, n4: seq<Field>, name: string,
                   t1: seq<Field>, t2: seq<Field>, doc: string, x: seq<Field>, y: seq<Field>): seq<Field> {
    [Sub(1, n1), Sub(1, n2), Sub(1, n3), Sub(1, n4), Text(2, name), Sub(5, t1), Sub(5, t2), Text(10, doc), Sub(11, x), Sub(12, y)]
  }

  function GraphFields(doc: string, w1: Bytes, w2: Bytes): seq<Field> {
    GraphOf(NodeFields("MatMul", ["x", "w1"], "h", []), NodeFields("Relu", ["h"], "a", []),
            NodeFields("MatMul", ["a", "w2"], "z", []), NodeFields("Softmax", ["z"], "probs", [AxisField()]),
            "kenaz_ml_laya_eligibility_fixture",
            TensorFields("w1", [64, 128], w1), TensorFields("w2", [128, 2], w2),
            doc, ValueInfoFields("x", [1, 64]), ValueInfoFields("probs", [1, 2]))
  }

  function OpsetFields(): seq<Field> {
    [Text(1, ""), Num(2, 13)]
  }

  function ModelOf(producer: string, doc: string, graph: seq<Field>, opset: seq<Field>): seq<Field> {
    [Num(1, 8), Text(2, producer), Text(6, doc), Sub(7, graph), Sub(8, opset)]
  }

  function ModelFields(doc: string, w1: Bytes, w2: Bytes): seq<Field> {
    ModelOf("kenaz-ml-eligibility-fixture", doc, GraphFields(doc, w1, w2), OpsetFields())
  }

  /******* Their shapes *******/

  const FLAT := Schema(map[])
  const SHAPE := Schema(map[1 := FLAT])
  const VALUE_INFO := Schema(map[2 := Schema(map[1 := Schema(map[2 := SHAPE])])])
  const NODE := Schema(map[5 := FLAT])
  const GRAPH := Schema(map[1 := NODE, 5 := FLAT, 11 := VALUE_INFO, 12 := VALUE_INFO])
  const MODEL := Schema(map[7 := GRAPH, 8 := FLAT])

  /** The fields are sendable, fit the schema and are written as these bytes. */
  predicate Writes(fs: seq<Field>, schema: Schema, bytes: Bytes) {
    (forall f <- fs :: Sendable(f) && Fits(f, schema)) && EncodeAll(fs) == bytes
  }

  lemma NothingWrites(schema: Schema)
    ensures Writes([], schema, [])
  {
  }

  lemma {:induction false} WritesConcat(fs: seq<Field>, gs: seq<Field>, schema: Schema, a: Bytes, b: Bytes)
    requires Writes(fs, schema, a) && Writes(gs, schema, b)
    ensures Writes(fs + gs, schema, a + b)
  {
    if fs == [] {
      assert fs + gs == gs && a + b == b;
    } else {
      assert fs[0] in fs;
      assert (fs + gs)[1..] == fs[1..] + gs;
      WritesConcat(fs[1..], gs, schema, EncodeAll(fs[1..]), b);
      assert Encode(fs[0]) + (EncodeAll(fs[1..]) + b) == a + b;
    }
  }

  /** One more number, text or nested message behind what is written already. */
  lemma ThenNum(fs: seq<Field>, schema: Schema, a: Bytes, number: nat, value: int)
    requires Writes(fs, schema, a) && value >= -TWO_64
    ensures Writes(fs + [Num(number, value)], schema, a + FieldVarint(number, value))
  {
    OneWrites(Num(number, value), schema);
    WritesConcat(fs, [Num(number, value)], schema, a, FieldVarint(number, value));
  }

  lemma ThenBlob(fs: seq<Field>, schema: Schema, a: Bytes, number: nat, payload: Bytes)
    requires Writes(fs, schema, a) && number !in schema.nested
    ensures Writes(fs + [Blob(number, payload)], schema, a + FieldBytes(number, payload))
  {
    OneWrites(Blob(number, payload), schema);
    WritesConcat(fs, [Blob(number, payload)], schema, a, FieldBytes(number, payload));
  }

  lemma ThenSub(fs: seq<Field>, schema: Schema, a: Bytes, number: nat, body: seq<Field>, inner: Bytes)
    requires Writes(fs, schema, a) && number in schema.nested && Writes(body, schema.nested[number], inner)
    ensures Writes(fs + [Sub(number, body)], schema, a + FieldBytes(number, inner))
  {
    OneWrites(Sub(number, body), schema);
    WritesConcat(fs, [Sub(number, body)], schema, a, FieldBytes(number, inner));
  }

  lemma OneWrites(f: Field, schema: Schema)
    requires Sendable(f) && Fits(f, schema)
    ensures Writes([f], schema, Encode(f))
  {
    assert EncodeAll([f]) == Encode(f) + EncodeAll([]);
  }

  lemma {:induction false} DimsWrite(number: nat, dims: seq<nat>, schema: Schema)
    ensures Writes(DimFields(number, dims), schema, JoinDims(number, dims))
  {
    if dims != [] {
      OneWrites(Num(number, dims[0]), schema);
      DimsWrite(number, dims[1..], schema);
      WritesConcat([Num(number, dims[0])], DimFields(number, dims[1..]), schema, FieldVarint(number, dims[0]), JoinDims(number, dims[1..]));
    }
  }

  lemma {:induction false} TextsWrite(number: nat, texts: seq<string>, schema: Schema)
    requires number !in schema.nested
    ensures Writes(TextFields(number, texts), schema, JoinTexts(number, texts))
  {
    if texts != [] {
      OneWrites(Text(number, texts[0]), schema);
      TextsWrite(number, texts[1..], schema);
      WritesConcat([Text(number, texts[0])], TextFields(number, texts[1..]), schema, FieldStr(number, texts[0]), JoinTexts(number, texts[1..]));
    }
  }

  lemma {:induction false} ShapeWrites(dims: seq<nat>)
    ensures Writes(ShapeFields(dims), SHAPE, JoinShape(dims))
  {
    if dims != [] {
      var dim := FieldVarint(1, dims[0]);
      OneWrites(Num(1, dims[0]), FLAT);
      NothingWrites(SHAPE);
      ThenSub([], SHAPE, [], 1, [Num(1, dims[0])], dim);
      ShapeWrites(dims[1..]);
      assert [] + [Sub(1, [Num(1, dims[0])])] == [Sub(1, [Num(1, dims[0])])] && [] + FieldBytes(1, dim) == FieldBytes(1, dim);
      WritesConcat([Sub(1, [Num(1, dims[0])])], ShapeFields(dims[1..]), SHAPE, FieldBytes(1, dim), JoinShape(dims[1..]));
    }
  }

  lemma TensorWrites(name: string, dims: seq<nat>, packed: Bytes)
    ensures Writes(TensorFields(name, dims, packed), FLAT, Tensor(name, dims, packed))
  {
    var fs, a := DimFields(1, dims), JoinDims(1, dims);
    DimsWrite(1, dims, FLAT);
    ThenNum(fs, FLAT, a, 2, 1);
    ThenBlob(fs + [Num(2, 1)], FLAT, a + FieldVarint(2, 1), 8, Ascii(name));
    ThenBlob(fs + [Num(2, 1)] + [Text(8, name)], FLAT, a + FieldVarint(2, 1) + FieldStr(8, name), 9, packed);
    assert fs + [Num(2, 1)] + [Text(8, name)] + [Blob(9, packed)] == TensorFields(name, dims, packed);
  }

  lemma NodeWrites(op: string, inputs: seq<string>, output: string, attrs: seq<Field>, written: Bytes)
    requires Writes(attrs, NODE, written)
    ensures Writes(NodeFields(op, inputs, output, attrs), NODE, Node(op, inputs, output, written))
  {
    var fs, a := TextFields(1, inputs), JoinTexts(1, inputs);
    var second, third, fourth := Text(2, output), Text(3, op + "_" + output), Text(4, op);
    TextsWrite(1, inputs, NODE);
    ThenBlob(fs, NODE, a, 2, second.payload);
    ThenBlob(fs + [second], NODE, a + Encode(second), 3, third.payload);
    ThenBlob(fs + [second] + [third], NODE, a + Encode(second) + Encode(third), 4, fourth.payload);
    assert fs + [second] + [third] + [fourth] == fs + [second, third, fourth];
    WritesConcat(fs + [second, third, fourth], attrs, NODE, a + Encode(second) + Encode(third) + Encode(fourth), written);
  }

  lemma ValueInfoWrites(name: string, dims: seq<nat>)
    ensures Writes(ValueInfoFields(name, dims), VALUE_INFO, ValueInfo(name, dims))
  {
    var kind := VALUE_INFO.nested[2];
    var tensor := kind.nested[1];
    ShapeWrites(dims);
    OneWrites(Num(1, 1), tensor);
    ThenSub([Num(1, 1)], tensor, FieldVarint(1, 1), 2, ShapeFields(dims), JoinShape(dims));
    var body, bytes := [Num(1, 1)] + [Sub(2, ShapeFields(dims))], FieldVarint(1, 1) + FieldBytes(2, JoinShape(dims));
    OneWrites(Sub(1, body), kind);
    OneWrites(Text(1, name), VALUE_INFO);
    ThenSub([Text(1, name)], VALUE_INFO, FieldStr(1, name), 2, [Sub(1, body)], FieldBytes(1, bytes));
    assert body == [Num(1, 1), Sub(2, ShapeFields(dims))];
    assert [Text(1, name)] + [Sub(2, [Sub(1, body)])] == ValueInfoFields(name, dims);
  }

  lemma AxisWrites()
    ensures Writes([AxisField()], NODE, Axis())
  {
    OneWrites(Text(1, "axis"), FLAT);
    ThenNum([Text(1, "axis")], FLAT, FieldStr(1, "axis"), 3, -1);
    ThenNum([Text(1, "axis")] + [Num(3, -1)], FLAT, FieldStr(1, "axis") + FieldVarint(3, -1), 20, 2);
    assert [Text(1, "axis")] + [Num(3, -1)] + [Num(20, 2)] == AxisField().body;
    OneWrites(AxisField(), NODE);
  }

  lemma NodesWrite(f1: seq<Field>, f2: seq<Field>, f3: seq<Field>, f4: seq<Field>, a1: Bytes, a2: Bytes, a3: Bytes, a4: Bytes)
    requires Writes(f1, NODE, a1) && Writes(f2, NODE, a2) && Writes(f3, NODE, a3) && Writes(f4, NODE, a4)
    ensures Writes([Sub(1, f1), Sub(1, f2), Sub(1, f3), Sub(1, f4)], GRAPH,
                   FieldBytes(1, a1) + FieldBytes(1, a2) + FieldBytes(1, a3) + FieldBytes(1, a4))
  {
    var s1, s2, s3, s4 := Sub(1, f1), Sub(1, f2), Sub(1, f3), Sub(1, f4);
    var b1, b2, b3 := FieldBytes(1, a1), FieldBytes(1, a2), FieldBytes(1, a3);
    OneWrites(s1, GRAPH);
    ThenSub([s1], GRAPH, b1, 1, f2, a2);
    ThenSub([s1] + [s2], GRAPH, b1 + b2, 1, f3, a3);
    ThenSub([s1] + [s2] + [s3], GRAPH, b1 + b2 + b3, 1, f4, a4);
    assert [s1] + [s2] + [s3] + [s4] == [s1, s2, s3, s4];
  }

  /** A graph is written as its fields are joined. */
  lemma JoinedGraphWrites(f1: seq<Field>, f2: seq<Field>, f3: seq<Field>, f4: seq<Field>,
                          a1: Bytes, a2: Bytes, a3: Bytes, a4: Bytes, name: string, doc: string,
                          t1: seq<Field>, t2: seq<Field>, x: seq<Field>, y: seq<Field>,
                          b1: Bytes, b2: Bytes, bx: Bytes, by_: Bytes)
    requires Writes(f1, NODE, a1) && Writes(f2, NODE, a2) && Writes(f3, NODE, a3) && Writes(f4, NODE, a4)
    requires Writes(t1, FLAT, b1) && Writes(t2, FLAT, b2)
    requires Writes(x, VALUE_INFO, bx) && Writes(y, VALUE_INFO, by_)
    ensures Writes(GraphOf(f1, f2, f3, f4, name, t1, t2, doc, x, y), GRAPH,
                   JoinGraph(a1, a2, a3, a4, name, b1, b2, doc, bx, by_))
  {
    NodesWrite(f1, f2, f3, f4, a1, a2, a3, a4);
    var g0, c0 := [Sub(1, f1), Sub(1, f2), Sub(1, f3), Sub(1, f4)],
                  FieldBytes(1, a1) + FieldBytes(1, a2) + FieldBytes(1, a3) + FieldBytes(1, a4);
    ThenBlob(g0, GRAPH, c0, 2, Ascii(name));
    var g1, c1 := g0 + [Text(2, name)], c0 + FieldStr(2, name);
    ThenSub(g1, GRAPH, c1, 5, t1, b1);
    var g2, c2 := g1 + [Sub(5, t1)], c1 + FieldBytes(5, b1);
    ThenSub(g2, GRAPH, c2, 5, t2, b2);
    var g3, c3 := g2 + [Sub(5, t2)], c2 + FieldBytes(5, b2);
    ThenBlob(g3, GRAPH, c3, 10, Ascii(doc));
    var g4, c4 := g3 + [Text(10, doc)], c3 + FieldStr(10, doc);
    ThenSub(g4, GRAPH, c4, 11, x, bx);
    var g5, c5 := g4 + [Sub(11, x)], c4 + FieldBytes(11, bx);
    ThenSub(g5, GRAPH, c5, 12, y, by_);
    assert g5 + [Sub(12, y)] == GraphOf(f1, f2, f3, f4, name, t1, t2, doc, x, y);
  }

  lemma GraphWrites(doc: string, w1: Bytes, w2: Bytes)
    ensures Writes(GraphFields(doc, w1, w2), GRAPH, Graph(doc, w1, w2))
  {
    NothingWrites(NODE);
    AxisWrites();
    NodeWrites("MatMul", ["x", "w1"], "h", [], []);
    NodeWrites("Relu", ["h"], "a", [], []);
    NodeWrites("MatMul", ["a", "w2"], "z", [], []);
    NodeWrites("Softmax", ["z"], "probs", [AxisField()], Axis());
    TensorWrites("w1", [64, 128], w1);
    TensorWrites("w2", [128, 2], w2);
    ValueInfoWrites("x", [1, 64]);
    ValueInfoWrites("probs", [1, 2]);
    JoinedGraphWrites(NodeFields("MatMul", ["x", "w1"], "h", []), NodeFields("Relu", ["h"], "a", []),
                      NodeFields("MatMul", ["a", "w2"], "z", []), NodeFields("Softmax", ["z"], "probs", [AxisField()]),
                      Node("MatMul", ["x", "w1"], "h", []), Node("Relu", ["h"], "a", []),
                      Node("MatMul", ["a", "w2"], "z", []), Node("Softmax", ["z"], "probs", Axis()),
                      "kenaz_ml_laya_eligibility_fixture", doc,
                      TensorFields("w1", [64, 128], w1), TensorFields("w2", [128, 2], w2),
                      ValueInfoFields("x", [1, 64]), ValueInfoFields("probs", [1, 2]),
                      Tensor("w1", [64, 128], w1), Tensor("w2", [128, 2], w2),
                      ValueInfo("x", [1, 64]), ValueInfo("probs", [1, 2]));
  }

  lemma JoinedModelWrites(producer: string, doc: string, graph: seq<Field>, opset: seq<Field>, a: Bytes, b: Bytes)
    requires Writes(graph, GRAPH, a) && Writes(opset, FLAT, b)
    ensures Writes(ModelOf(producer, doc, graph, opset), MODEL, JoinModel(producer, doc, a, b))
  {
    OneWrites(Num(1, 8), MODEL);
    var f1, a1 := [Num(1, 8)], FieldVarint(1, 8);
    ThenBlob(f1, MODEL, a1, 2, Ascii(producer));
    var f2, a2 := f1 + [Text(2, producer)], a1 + FieldStr(2, producer);
    ThenBlob(f2, MODEL, a2, 6, Ascii(doc));
    var f3, a3 := f2 + [Text(6, doc)], a2 + FieldStr(6, doc);
    ThenSub(f3, MODEL, a3, 7, graph, a);
    var f4, a4 := f3 + [Sub(7, graph)], a3 + FieldBytes(7, a);
    ThenSub(f4, MODEL, a4, 8, opset, b);
    assert f4 + [Sub(8, opset)] == ModelOf(producer, doc, graph, opset);
  }

  lemma OpsetWrites()
    ensures Writes(OpsetFields(), FLAT, Opset())
  {
    OneWrites(Text(1, ""), FLAT);
    ThenNum([Text(1, "")], FLAT, FieldStr(1, ""), 2, 13);
    assert [Text(1, "")] + [Num(2, 13)] == OpsetFields();
  }

  /** Whatever the weights and the notice, a reader of the fixture's bytes gets exactly the intended model. */
  lemma FixtureReadsBack(doc: string, w1: Bytes, w2: Bytes)
    ensures Parse(MODEL, Model(doc, w1, w2)) == Some(ReceivedAll(ModelFields(doc, w1, w2)))
  {
    GraphWrites(doc, w1, w2);
    OpsetWrites();
    JoinedModelWrites("kenaz-ml-eligibility-fixture", doc, GraphFields(doc, w1, w2), OpsetFields(), Graph(doc, w1, w2), Opset());
    WrittenReadsBack(ModelFields(doc, w1, w2), MODEL, Model(doc, w1, w2));
  }

  lemma WrittenReadsBack(fs: seq<Field>, schema: Schema, bytes: Bytes)
    requires Writes(fs, schema, bytes)
    ensures Parse(schema, bytes) == Some(ReceivedAll(fs))
  {
    MessageRoundTrip(schema, fs);
  }
}
