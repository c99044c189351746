/**
 The hand-written Protocol Buffers encoder behind the eligibility fixture, against the
 wire format of the "Base 128 Varints" and "Message Structure" sections of the Protocol
 Buffers Encoding specification: what it writes is read back, and read back only one way.
 */
module ProtoWire {
  import opened Options

  newtype byte = x: int | 0 <= x < 256

  type Bytes = seq<byte>

  const TWO_64 := 0x1_0000_0000_0000_0000

  /******* Varints *******/

  /** The number a value is sent as: a negative one by its two's complement. */
  function Wire(value: int): int {
    if value < 0 then value + TWO_64 else value
  }

  function Varint(n: nat): (r: Bytes)
    ensures r != []
  {
    if n < 128 then [n as byte] else [(n % 128 + 128) as byte] + Varint(n / 128)
  }

  /** `_varint`, which ends exactly when adding 2^64 once makes the value non-negative. */
  method VarintLoop(start: int) returns (out: Bytes)
    requires start >= -TWO_64
    ensures out == Varint(Wire(start))
  {
    var value: nat := if start < 0 then start + TWO_64 else start;
    out := [];
    while true
      invariant out + Varint(value) == Varint(Wire(start))
      decreases value
    {
      var septet := value % 128;
      ghost var written, before := out, value;
      value := value / 128;
      if value != 0 {
        out := out + [(septet + 128) as byte];
        assert written + ([(septet + 128) as byte] + Varint(value)) == out + Varint(value);
      } else {
        out := out + [septet as byte];
        return;
      }
    }
  }

  /** A varint at the front of `bytes`: its value and how many bytes it takes. */
  function ReadVarint(bytes: Bytes): (r: Option<(nat, nat)>)
    ensures r.Some? ==> 1 <= r.value.1 <= |bytes|
  {
    if bytes == [] then None
    else if bytes[0] < 128 then Some((bytes[0] as int, 1))
    else
      match ReadVarint(bytes[1..])
      case Some((n, k)) => Some((bytes[0] as int - 128 + 128 * n, k + 1))
      case None => None
  }

  lemma {:induction false} ReadsBack(n: nat, rest: Bytes)
    ensures ReadVarint(Varint(n) + rest) == Some((n, |Varint(n)|))
  {
    if n >= 128 {
      ReadsBack(n / 128, rest);
      assert (Varint(n) + rest)[1..] == Varint(n / 128) + rest;
    } else {
      assert (Varint(n) + rest)[0] == n as byte;
    }
  }

  function Pow128(k: nat): nat {
    if k == 0 then 1 else 128 * Pow128(k - 1)
  }

  /** A number takes at most `k` bytes exactly when it has at most `7 * k` bits. */
  lemma {:induction false} VarintLength(n: nat, k: nat)
    requires k >= 1
    ensures |Varint(n)| <= k <==> n < Pow128(k)
  {
    if k == 1 {
      assert Pow128(1) == 128 * Pow128(0);
      if n >= 128 {
        assert |Varint(n)| == 1 + |Varint(n / 128)|;
      }
    } else if n >= 128 {
      VarintLength(n / 128, k - 1);
      var p := Pow128(k - 1);
      assert n / 128 < p <==> n < 128 * p;
    } else {
      PowAtLeast(k);
    }
  }

  lemma {:induction false} PowAtLeast(k: nat)
    requires k >= 1
    ensures Pow128(k) >= 128
  {
    if k > 1 {
      PowAtLeast(k - 1);
    } else {
      assert Pow128(1) == 128 * Pow128(0);
    }
  }

  /** Every 64-bit value, signed or unsigned, takes at most ten bytes and reads back modulo 2^64. */
  lemma SixtyFourBitsRoundTrip(value: int, rest: Bytes)
    requires -TWO_64 / 2 <= value < TWO_64
    ensures |Varint(Wire(value))| <= 10
    ensures ReadVarint(Varint(Wire(value)) + rest) == Some((value % TWO_64, |Varint(Wire(value))|))
  {
    ReadsBack(Wire(value), rest);
    TenSeptets();
    VarintLength(Wire(value), 10);
    WireIsModulo(value);
  }

  lemma TenSeptets()
    ensures Pow128(10) > TWO_64
  {
    assert Pow128(2) == 128 * 128 by { assert Pow128(1) == 128 * Pow128(0); }
    assert Pow128(4) == 128 * (128 * Pow128(2));
    assert Pow128(6) == 128 * (128 * Pow128(4));
    assert Pow128(8) == 128 * (128 * Pow128(6));
    assert Pow128(10) == 128 * (128 * Pow128(8));
  }

  lemma WireIsModulo(value: int)
    requires value >= -TWO_64
    ensures Wire(value) % TWO_64 == value % TWO_64
    ensures value < TWO_64 ==> Wire(value) == value % TWO_64
  {
  }

  /******* Fields *******/

  function FieldVarint(number: nat, value: int): Bytes
    requires value >= -TWO_64
  {
    Varint(number * 8) + Varint(Wire(value))
  }

  function FieldBytes(number: nat, payload: Bytes): Bytes {
    Varint(number * 8 + 2) + Varint(|payload|) + payload
  }

  /** A message: numbers, byte strings and nested messages, in order. */
  datatype Field =
    | Num(number: nat, value: int)
    | Blob(number: nat, payload: Bytes)
    | Sub(number: nat, body: seq<Field>)

  /** Which field numbers hold nested messages, and of what shape. */
  datatype Schema = Schema(nested: map<nat, Schema>)

  predicate Sendable(f: Field) {
    match f
    case Num(_, value) => value >= -TWO_64
    case Blob(_, _) => true
    case Sub(_, body) => forall g <- body :: Sendable(g)
  }

  predicate Fits(f: Field, schema: Schema) {
    match f
    case Num(_, _) => true
    case Blob(number, _) => number !in schema.nested
    case Sub(number, body) => number in schema.nested && forall g <- body :: Fits(g, schema.nested[number])
  }

  function Encode(f: Field): Bytes
    requires Sendable(f)
  {
    match f
    case Num(number, value) => FieldVarint(number, value)
    case Blob(number, payload) => FieldBytes(number, payload)
    case Sub(number, body) => FieldBytes(number, EncodeAll(body))
  }

  function EncodeAll(fs: seq<Field>): Bytes
    requires forall f <- fs :: Sendable(f)
  {
    if fs == [] then [] else Encode(fs[0]) + EncodeAll(fs[1..])
  }

  /** What a reader makes of a field: numbers are 64 bits wide. */
  function Received(f: Field): Field {
    match f
    case Num(number, value) => Num(number, value % TWO_64)
    case Blob(_, _) => f
    case Sub(number, body) => Sub(number, ReceivedAll(body))
  }

  function ReceivedAll(fs: seq<Field>): seq<Field> {
    if fs == [] then [] else [Received(fs[0])] + ReceivedAll(fs[1..])
  }

  function Followed(f: Field, rest: Option<seq<Field>>): Option<seq<Field>> {
    match rest
    case Some(fs) => Some([f] + fs)
    case None => None
  }

  /** A reader that knows which fields are messages. */
  function Parse(schema: Schema, bytes: Bytes): Option<seq<Field>>
    decreases |bytes|
  {
    if bytes == [] then Some([])
    else
      match ReadVarint(bytes)
      case None => None
      case Some((tag, k)) =>
        match ReadVarint(bytes[k..])
        case None => None
        case Some((n, j)) =>
          var rest := bytes[k..][j..];
          if tag % 8 == 0 then Followed(Num(tag / 8, n % TWO_64), Parse(schema, rest))
          else if tag % 8 != 2 || n > |rest| then None
          else if tag / 8 !in schema.nested then Followed(Blob(tag / 8, rest[..n]), Parse(schema, rest[n..]))
          else
            match Parse(schema.nested[tag / 8], rest[..n])
            case None => None
            case Some(body) => Followed(Sub(tag / 8, body), Parse(schema, rest[n..]))
  }

  /** One step of the reader, given the two varints it finds. */
  lemma NumStep(schema: Schema, bytes: Bytes, k: nat, j: nat, number: nat, n: nat)
    requires bytes != [] && k <= |bytes| && j <= |bytes[k..]|
    requires ReadVarint(bytes) == Some((number * 8, k)) && ReadVarint(bytes[k..]) == Some((n, j))
    ensures Parse(schema, bytes) == Followed(Num(number, n % TWO_64), Parse(schema, bytes[k..][j..]))
  {
    assert number * 8 / 8 == number && number * 8 % 8 == 0;
  }

  lemma NumParses(schema: Schema, number: nat, value: int, rest: Bytes)
    requires value >= -TWO_64
    ensures Parse(schema, FieldVarint(number, value) + rest) == Followed(Num(number, value % TWO_64), Parse(schema, rest))
  {
    var tag, body := Varint(number * 8), Varint(Wire(value));
    var bytes := FieldVarint(number, value) + rest;
    assert bytes == tag + (body + rest);
    ReadsBack(number * 8, body + rest);
    ReadsBack(Wire(value), rest);
    assert bytes[|tag|..] == body + rest;
    assert (body + rest)[|body|..] == rest;
    NumStep(schema, bytes, |tag|, |body|, number, Wire(value));
    WireIsModulo(value);
  }

  lemma PayloadParses(schema: Schema, number: nat, payload: Bytes, rest: Bytes)
    ensures Parse(schema, FieldBytes(number, payload) + rest)
            == if number !in schema.nested then Followed(Blob(number, payload), Parse(schema, rest))
               else match Parse(schema.nested[number], payload)
                    case None => None
                    case Some(body) => Followed(Sub(number, body), Parse(schema, rest))
  {
    var tag, size := Varint(number * 8 + 2), Varint(|payload|);
    var bytes := FieldBytes(number, payload) + rest;
    assert bytes == tag + (size + (payload + rest));
    ReadsBack(number * 8 + 2, size + (payload + rest));
    ReadsBack(|payload|, payload + rest);
    assert bytes[|tag|..] == size + (payload + rest);
    assert (size + (payload + rest))[|size|..] == payload + rest;
    assert (payload + rest)[..|payload|] == payload && (payload + rest)[|payload|..] == rest;
    assert (number * 8 + 2) / 8 == number && (number * 8 + 2) % 8 == 2;
  }

  /** Every message reads back as itself, field by field and at every depth. */
  lemma {:induction false} MessageRoundTrip(schema: Schema, fs: seq<Field>)
    requires forall f <- fs :: Sendable(f) && Fits(f, schema)
    ensures Parse(schema, EncodeAll(fs)) == Some(ReceivedAll(fs))
    decreases fs
  {
    if fs != [] {
      var rest := EncodeAll(fs[1..]);
      assert fs[0] in fs;
      MessageRoundTrip(schema, fs[1..]);
      match fs[0] {
        case Num(number, value) => NumParses(schema, number, value, rest);
        case Blob(number, payload) => PayloadParses(schema, number, payload, rest);
        case Sub(number, body) =>
          MessageRoundTrip(schema.nested[number], body);
          PayloadParses(schema, number, EncodeAll(body), rest);
      }
    }
  }

  /** So no two different messages are written the same way. */
  lemma EncodingIsUnique(schema: Schema, fs: seq<Field>, gs: seq<Field>)
    requires forall f <- fs :: Sendable(f) && Fits(f, schema)
    requires forall g <- gs :: Sendable(g) && Fits(g, schema)
    requires EncodeAll(fs) == EncodeAll(gs)
    ensures ReceivedAll(fs) == ReceivedAll(gs)
  {
    MessageRoundTrip(schema, fs);
    MessageRoundTrip(schema, gs);
  }

  /******* The specification's own examples *******/

  /** Field 1 holding 150, and field 2 holding "testing", as the specification spells them out byte by byte. */
  lemma SpecificationExamples()
    ensures Encode(Num(1, 150)) == [0x08, 0x96, 0x01]
    ensures Encode(Blob(2, [0x74, 0x65, 0x73, 0x74, 0x69, 0x6e, 0x67]))
            == [0x12, 0x07, 0x74, 0x65, 0x73, 0x74, 0x69, 0x6e, 0x67]
    ensures Encode(Sub(3, [Num(1, 150)])) == [0x1a, 0x03, 0x08, 0x96, 0x01]
  {
    assert Varint(150) == [(150 % 128 + 128) as byte] + Varint(1) == [0x96, 0x01];
    assert Varint(8) == [0x08] && Varint(18) == [0x12] && Varint(26) == [0x1a] && Varint(7) == [0x07] && Varint(3) == [0x03];
    var payload: Bytes := [0x74, 0x65, 0x73, 0x74, 0x69, 0x6e, 0x67];
    assert [0x12] + [0x07] + payload == [0x12, 0x07, 0x74, 0x65, 0x73, 0x74, 0x69, 0x6e, 0x67];
    var inner: Bytes := [0x08, 0x96, 0x01];
    assert Encode(Num(1, 150)) == [0x08] + [0x96, 0x01] == inner;
    assert EncodeAll([Num(1, 150)]) == inner + EncodeAll([]) == inner;
    assert [0x1a] + [0x03] + inner == [0x1a, 0x03, 0x08, 0x96, 0x01];
  }
}
