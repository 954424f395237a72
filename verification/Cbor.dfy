/** The CBOR (RFC 8949, section 3) that serde and ciborium write for the sealed response:
    definite lengths, shortest heads, text keys. The reader accepts any head width. */
module Cbor {
  import opened Bytes

  datatype Value =
    | UInt(n: nat)
    | ByteString(bytes: seq<byte>)
    | Text(text: seq<byte>)
    | Null
    | Map(fields: Fields)

  /** Map entries in the order they are written. */
  datatype Fields = End | Field(name: seq<byte>, value: Value, rest: Fields)

  const MAJOR_UINT: nat := 0
  const MAJOR_BYTES: nat := 2
  const MAJOR_TEXT: nat := 3
  const MAJOR_MAP: nat := 5
  const NULL_BYTE: byte := 0xF6

  function FieldCount(fields: Fields): nat {
    match fields
    case End => 0
    case Field(_, _, rest) => 1 + FieldCount(rest)
  }

  /** Every length and integer fits the eight-byte head, and every text is UTF-8. */
  predicate Encodable(v: Value) {
    match v
    case UInt(n) => n < U64_LIMIT
    case ByteString(b) => |b| < U64_LIMIT
    case Text(t) => |t| < U64_LIMIT && ValidUtf8(t)
    case Null => true
    case Map(fields) => FieldCount(fields) < U64_LIMIT && EncodableFields(fields)
  }

  predicate EncodableFields(fields: Fields) {
    match fields
    case End => true
    case Field(name, value, rest) => |name| < U64_LIMIT && ValidUtf8(name) && Encodable(value) && EncodableFields(rest)
  }

  // Writing

  /** Bytes that follow the initial byte of the shortest head for `n`. */
  function ArgumentWidth(n: nat): (w: nat) {
    if n < 24 then 0 else if n < 0x100 then 1 else if n < 0x1_0000 then 2 else if n < U32_LIMIT then 4 else 8
  }

  function Head(major: nat, n: nat): (b: seq<byte>)
    requires major < 8 && n < U64_LIMIT
    ensures |b| == 1 + ArgumentWidth(n)
  {
    var w := ArgumentWidth(n);
    if w == 0 then [major * 32 + n]
    else [major * 32 + (if w == 1 then 24 else if w == 2 then 25 else if w == 4 then 26 else 27)] + ToBigEndian(n, w)
  }

  function Encode(v: Value): seq<byte>
    requires Encodable(v)
  {
    match v
    case UInt(n) => Head(MAJOR_UINT, n)
    case ByteString(b) => Head(MAJOR_BYTES, |b|) + b
    case Text(t) => Head(MAJOR_TEXT, |t|) + t
    case Null => [NULL_BYTE]
    case Map(fields) => Head(MAJOR_MAP, FieldCount(fields)) + EncodeFields(fields)
  }

  function EncodeFields(fields: Fields): seq<byte>
    requires EncodableFields(fields)
  {
    match fields
    case End => []
    case Field(name, value, rest) => Head(MAJOR_TEXT, |name|) + name + Encode(value) + EncodeFields(rest)
  }

  // Exact lengths

  function TextSize(n: nat): nat { 1 + ArgumentWidth(n) + n }

  function Size(v: Value): nat {
    match v
    case UInt(n) => 1 + ArgumentWidth(n)
    case ByteString(b) => TextSize(|b|)
    case Text(t) => TextSize(|t|)
    case Null => 1
    case Map(fields) => 1 + ArgumentWidth(FieldCount(fields)) + FieldsSize(fields)
  }

  function FieldsSize(fields: Fields): nat {
    match fields
    case End => 0
    case Field(name, value, rest) => TextSize(|name|) + Size(value) + FieldsSize(rest)
  }

  lemma {:induction false} EncodedSize(v: Value)
    requires Encodable(v)
    ensures |Encode(v)| == Size(v) >= 1
    decreases v
  {
    if v.Map? { EncodedFieldsSize(v.fields); }
  }

  lemma {:induction false} EncodedFieldsSize(fields: Fields)
    requires EncodableFields(fields)
    ensures |EncodeFields(fields)| == FieldsSize(fields)
    decreases fields
  {
    if fields.Field? {
      EncodedSize(fields.value);
      EncodedFieldsSize(fields.rest);
    }
  }

  // Reading

  datatype Parsed<+T> = Failed | Ok(value: T, rest: seq<byte>)

  /** The major type and argument of a definite-length head. */
  function ReadHead(b: seq<byte>): (r: Parsed<(nat, nat)>)
    ensures r.Ok? ==> |r.rest| < |b| && r.value.0 < 8
  {
    if b == [] then Failed else
    var major: nat, info: nat := b[0] / 32, b[0] % 32;
    assert major < 8;
    if info < 24 then Ok((major, info), b[1..])
    else
      var w := if info == 24 then 1 else if info == 25 then 2 else if info == 26 then 4 else 8;
      if info > 27 || |b| < 1 + w then Failed
      else Ok((major, FromBigEndian(b[1..1 + w])), b[1 + w..])
  }

  function ReadBytes(b: seq<byte>, n: nat): (r: Parsed<seq<byte>>)
    ensures r.Ok? ==> |r.value| == n && |r.rest| == |b| - n
  {
    if |b| < n then Failed else Ok(b[..n], b[n..])
  }

  function ReadText(b: seq<byte>, n: nat): (r: Parsed<seq<byte>>)
    ensures r.Ok? ==> |r.rest| <= |b|
  {
    var t := ReadBytes(b, n);
    if t.Failed? || !ValidUtf8(t.value) then Failed else Ok(t.value, t.rest)
  }

  function FieldName(b: seq<byte>): (r: Parsed<seq<byte>>)
    ensures r.Ok? ==> |r.rest| < |b|
  {
    var head := ReadHead(b);
    if head.Failed? || head.value.0 != MAJOR_TEXT then Failed else ReadText(head.rest, head.value.1)
  }

  function Decode(b: seq<byte>): (r: Parsed<Value>)
    ensures r.Ok? ==> |r.rest| < |b|
    decreases |b|, 0
  {
    if b != [] && b[0] == NULL_BYTE then Ok(Null, b[1..]) else
    var head := ReadHead(b);
    if head.Failed? then Failed else DecodeBody(head.value.0, head.value.1, head.rest)
  }

  /** The item whose head announced `major` and `n`. */
  function DecodeBody(major: nat, n: nat, b: seq<byte>): (r: Parsed<Value>)
    ensures r.Ok? ==> |r.rest| <= |b|
    decreases |b|, 2
  {
    if major == MAJOR_UINT then Ok(UInt(n), b)
    else if major == MAJOR_BYTES then
      var s := ReadBytes(b, n);
      if s.Failed? then Failed else Ok(ByteString(s.value), s.rest)
    else if major == MAJOR_TEXT then
      var t := ReadText(b, n);
      if t.Failed? then Failed else Ok(Text(t.value), t.rest)
    else if major == MAJOR_MAP then
      var m := DecodeFields(b, n);
      if m.Failed? then Failed else Ok(Map(m.value), m.rest)
    else Failed
  }

  function DecodeFields(b: seq<byte>, count: nat): (r: Parsed<Fields>)
    ensures r.Ok? ==> |r.rest| <= |b|
    decreases |b|, 1
  {
    if count == 0 then Ok(End, b) else
    var name := FieldName(b);
    if name.Failed? then Failed else
    var value := Decode(name.rest);
    if value.Failed? then Failed else
    var rest := DecodeFields(value.rest, count - 1);
    if rest.Failed? then Failed else Ok(Field(name.value, value.value, rest.value), rest.rest)
  }

  lemma HeadRoundTrip(major: nat, n: nat, tail: seq<byte>)
    requires major < 7 && n < U64_LIMIT
    ensures ReadHead(Head(major, n) + tail) == Ok((major, n), tail)
    ensures (Head(major, n) + tail)[0] / 32 == major
  {
    var b, w := Head(major, n) + tail, ArgumentWidth(n);
    HeadByte(major, n);
    assert b[0] == Head(major, n)[0] && b[1 + w..] == tail;
    if w > 0 {
      ArgumentRoundTrip(n);
      assert b[1..1 + w] == ToBigEndian(n, w);
    }
  }

  lemma HeadByte(major: nat, n: nat)
    requires major < 7 && n < U64_LIMIT
    ensures Head(major, n)[0] / 32 == major
    ensures var w := ArgumentWidth(n);
      Head(major, n)[0] % 32
      == (if w == 0 then n else if w == 1 then 24 else if w == 2 then 25 else if w == 4 then 26 else 27)
    ensures ArgumentWidth(n) == 0 <==> Head(major, n)[0] % 32 < 24
  {}

  lemma ArgumentRoundTrip(n: nat)
    requires n < U64_LIMIT && ArgumentWidth(n) > 0
    ensures n < Pow256(ArgumentWidth(n)) && FromBigEndian(ToBigEndian(n, ArgumentWidth(n))) == n
  {
    Pow256Values();
    BigEndianRoundTrip(n, ArgumentWidth(n));
  }

  lemma TextRoundTrip(t: seq<byte>, tail: seq<byte>)
    ensures ReadBytes(t + tail, |t|) == Ok(t, tail)
  {}

  /** An item is decoded by its head, then by its body. */
  lemma DecodeHeaded(major: nat, n: nat, body: seq<byte>)
    requires major < 7 && n < U64_LIMIT
    ensures Decode(Head(major, n) + body) == DecodeBody(major, n, body)
  {
    HeadRoundTrip(major, n, body);
  }

  lemma DecodeFieldsHeaded(name: seq<byte>, body: seq<byte>, count: nat)
    requires |name| < U64_LIMIT && ValidUtf8(name) && Decode(body).Ok?
    ensures var value := Decode(body);
            var rest := DecodeFields(value.rest, count);
            DecodeFields(Head(MAJOR_TEXT, |name|) + (name + body), count + 1)
              == if rest.Failed? then Failed else Ok(Field(name, value.value, rest.value), rest.rest)
  {
    HeadRoundTrip(MAJOR_TEXT, |name|, name + body);
    TextRoundTrip(name, body);
  }

  lemma DecodeEncodeText(t: seq<byte>, tail: seq<byte>)
    requires |t| < U64_LIMIT && ValidUtf8(t)
    ensures Decode(Encode(Text(t)) + tail) == Ok(Text(t), tail)
  {
    DecodeHeaded(MAJOR_TEXT, |t|, t + tail);
    TextRoundTrip(t, tail);
    Associative(Head(MAJOR_TEXT, |t|), t, tail);
  }

  lemma DecodeEncodeBytes(b: seq<byte>, tail: seq<byte>)
    requires |b| < U64_LIMIT
    ensures Decode(Encode(ByteString(b)) + tail) == Ok(ByteString(b), tail)
  {
    DecodeHeaded(MAJOR_BYTES, |b|, b + tail);
    TextRoundTrip(b, tail);
    Associative(Head(MAJOR_BYTES, |b|), b, tail);
  }

  /** Reading back what was written returns the value and leaves exactly what follows it. */
  lemma {:induction false} DecodeEncode(v: Value, tail: seq<byte>)
    requires Encodable(v)
    ensures Decode(Encode(v) + tail) == Ok(v, tail)
    decreases v
  {
    match v
    case UInt(n) => DecodeHeaded(MAJOR_UINT, n, tail);
    case ByteString(b) => DecodeEncodeBytes(b, tail);
    case Text(t) => DecodeEncodeText(t, tail);
    case Null => assert ([NULL_BYTE] + tail)[1..] == tail;
    case Map(fields) =>
      DecodeEncodeFields(fields, tail);
      DecodeHeaded(MAJOR_MAP, FieldCount(fields), EncodeFields(fields) + tail);
      Associative(Head(MAJOR_MAP, FieldCount(fields)), EncodeFields(fields), tail);
  }

  lemma {:induction false} DecodeEncodeFields(fields: Fields, tail: seq<byte>)
    requires EncodableFields(fields)
    ensures DecodeFields(EncodeFields(fields) + tail, FieldCount(fields)) == Ok(fields, tail)
    decreases fields
  {
    if fields.End? {
      assert [] + tail == tail;
    } else {
      var name, value, rest := fields.name, fields.value, fields.rest;
      var afterValue := EncodeFields(rest) + tail;
      var head := Head(MAJOR_TEXT, |name|);
      DecodeEncode(value, afterValue);
      DecodeEncodeFields(rest, tail);
      DecodeFieldsHeaded(name, Encode(value) + afterValue, FieldCount(rest));
      Associative(head + name + Encode(value), EncodeFields(rest), tail);
      Associative(head + name, Encode(value), afterValue);
      Associative(head, name, Encode(value) + afterValue);
    }
  }

  // Extending the input never changes what was read

  lemma ReadHeadExtends(b: seq<byte>, tail: seq<byte>)
    requires ReadHead(b).Ok?
    ensures ReadHead(b + tail) == Ok(ReadHead(b).value, ReadHead(b).rest + tail)
  {
    var info := b[0] % 32;
    var w := if info < 24 then 0 else if info == 24 then 1 else if info == 25 then 2 else if info == 26 then 4 else 8;
    assert (b + tail)[1..1 + w] == b[1..1 + w];
    assert (b + tail)[1 + w..] == b[1 + w..] + tail;
  }

  lemma ReadTextExtends(b: seq<byte>, n: nat, tail: seq<byte>)
    requires n <= |b|
    ensures ReadBytes(b + tail, n) == Ok(b[..n], b[n..] + tail)
  {
    assert (b + tail)[..n] == b[..n] && (b + tail)[n..] == b[n..] + tail;
  }

  /** A decoded item is decoded the same way when more bytes follow it. */
  lemma {:induction false} DecodeExtends(b: seq<byte>, tail: seq<byte>)
    requires Decode(b).Ok?
    ensures Decode(b + tail) == Ok(Decode(b).value, Decode(b).rest + tail)
    decreases |b|, 0
  {
    if b[0] == NULL_BYTE {
      assert (b + tail)[1..] == b[1..] + tail;
    } else {
      var head := ReadHead(b);
      ReadHeadExtends(b, tail);
      DecodeBodyExtends(head.value.0, head.value.1, head.rest, tail);
    }
  }

  lemma {:induction false} DecodeBodyExtends(major: nat, n: nat, b: seq<byte>, tail: seq<byte>)
    requires DecodeBody(major, n, b).Ok?
    ensures DecodeBody(major, n, b + tail) == Ok(DecodeBody(major, n, b).value, DecodeBody(major, n, b).rest + tail)
    decreases |b|, 3
  {
    if major == MAJOR_BYTES || major == MAJOR_TEXT {
      ReadTextExtends(b, n, tail);
    } else if major == MAJOR_MAP {
      DecodeFieldsExtends(b, n, tail);
    }
  }

  lemma {:induction false} DecodeFieldsExtends(b: seq<byte>, count: nat, tail: seq<byte>)
    requires DecodeFields(b, count).Ok?
    ensures DecodeFields(b + tail, count) == Ok(DecodeFields(b, count).value, DecodeFields(b, count).rest + tail)
    decreases |b|, 2
  {
    if count > 0 {
      SplitFields(b, count);
      var others := AfterFirst(b);
      FirstFieldExtends(b, tail);
      DecodeFieldsExtends(others, count - 1, tail);
      JoinExtended(b, b + tail, count, tail);
    }
  }

  /** What follows the first field. */
  function AfterFirst(b: seq<byte>): seq<byte>
    requires FieldName(b).Ok? && Decode(FieldName(b).rest).Ok?
  {
    Decode(FieldName(b).rest).rest
  }

  lemma {:induction false} FirstFieldExtends(b: seq<byte>, tail: seq<byte>)
    requires FieldName(b).Ok? && |FieldName(b).rest| < |b| && Decode(FieldName(b).rest).Ok?
    ensures FieldName(b + tail) == Ok(FieldName(b).value, FieldName(b).rest + tail)
    ensures Decode(FieldName(b).rest + tail) == Ok(Decode(FieldName(b).rest).value, AfterFirst(b) + tail)
    decreases |b|, 1
  {
    FieldNameExtends(b, tail);
    DecodeExtends(FieldName(b).rest, tail);
  }

  lemma SplitFields(b: seq<byte>, count: nat)
    requires count > 0 && DecodeFields(b, count).Ok?
    ensures FieldName(b).Ok? && |FieldName(b).rest| < |b|
    ensures Decode(FieldName(b).rest).Ok? && |AfterFirst(b)| < |b| && DecodeFields(AfterFirst(b), count - 1).Ok?
  {}

  lemma JoinExtended(b: seq<byte>, c: seq<byte>, count: nat, tail: seq<byte>)
    requires count > 0 && DecodeFields(b, count).Ok? && FieldName(b).Ok? && Decode(FieldName(b).rest).Ok?
    requires FieldName(c) == Ok(FieldName(b).value, FieldName(b).rest + tail)
    requires Decode(FieldName(c).rest) == Ok(Decode(FieldName(b).rest).value, AfterFirst(b) + tail)
    requires var rest := DecodeFields(AfterFirst(b), count - 1);
      rest.Ok? && DecodeFields(AfterFirst(b) + tail, count - 1) == Ok(rest.value, rest.rest + tail)
    ensures DecodeFields(c, count) == Ok(DecodeFields(b, count).value, DecodeFields(b, count).rest + tail)
  {}

  lemma FieldNameExtends(b: seq<byte>, tail: seq<byte>)
    requires FieldName(b).Ok?
    ensures FieldName(b + tail) == Ok(FieldName(b).value, FieldName(b).rest + tail)
  {
    var head := ReadHead(b);
    ReadHeadExtends(b, tail);
    ReadTextExtends(head.rest, head.value.1, tail);
  }

  /** The encodings are prefix-free: no proper prefix of an encoding decodes to a whole item. */
  lemma NoPrefixDecodes(v: Value, n: nat)
    requires Encodable(v) && n < |Encode(v)|
    ensures Decode(Encode(v)[..n]).Failed?
  {
    var b := Encode(v);
    DecodeEncode(v, []);
    assert b + [] == b == b[..n] + b[n..];
    if Decode(b[..n]).Ok? {
      DecodeExtends(b[..n], b[n..]);
    }
  }
}
