/** The schema-driven DER encoder and decoder. A Schema stands for a Go type
    with its krb5 field tags, a Value for a Go value of that type. */
module Der {
  import opened Bytes
  import opened DerTlv

  const MAX_DEPTH := 32

  const TAG_BOOLEAN: byte := 0x01
  const TAG_INTEGER: byte := 0x02
  const TAG_OCTET_STRING: byte := 0x04
  const TAG_UTF8_STRING: byte := 0x0c
  const TAG_SEQUENCE: byte := 0x30
  const TAG_GENERAL_STRING: byte := 0x1b

  datatype Width = W8 | W16 | W32 | W64

  datatype Schema =
    | SBool
    | SInt(width: Width)
    | SUint(width: Width)
    | SString
    | SUtf8
    | SOctets
    | SSeqOf(elem: Schema)
    | SStruct(fields: seq<Field>)
    | SApp(tag: nat, body: Schema)   // a type with an ApplicationTag method
    | SPtr(elem: Schema)

  datatype Field = Field(number: nat, optional: bool, schema: Schema)

  /** VNil is the nil slice or reference; the other forms are not nil. */
  datatype Value =
    | VNil
    | VBool(b: bool)
    | VInt(n: int)
    | VStr(s: bytes)
    | VOctets(o: bytes)
    | VItems(items: seq<Value>)
    | VRecord(values: seq<Value>)
    | VRef(target: Value)

  /** 2^(bits of w). */
  function Span(w: Width): (n: nat)
    ensures n > 0
  {
    match w case W8 => 0x100 case W16 => 0x1_0000 case W32 => TWO32 case W64 => TWO64
  }

  predicate FitsInt(w: Width, n: int) { 0 - Span(w) <= 2 * n < Span(w) }
  predicate FitsUint(w: Width, n: int) { 0 <= n < Span(w) }

  // ----- well-formed schemas and values

  /** Types whose reflected kind is a slice or a reference, so that nil is a value. */
  predicate Nilable(s: Schema) {
    match s
    case SPtr(_) => true
    case SOctets => true
    case SSeqOf(_) => true
    case SApp(_, body) => body.SSeqOf?
    case _ => false
  }

  /** Explicit tags ascend, tag numbers fit one byte, and an application type is
      a SEQUENCE underneath. */
  predicate WellFormed(s: Schema)
    decreases s
  {
    match s
    case SSeqOf(elem) => WellFormed(elem)
    case SPtr(elem) => WellFormed(elem)
    case SApp(tag, body) => tag <= 30 && (body.SStruct? || body.SSeqOf?) && WellFormed(body)
    case SStruct(fields) => WellFormedFields(fields)
    case _ => true
  }

  predicate WellFormedFields(fields: seq<Field>)
    decreases fields
  {
    fields == [] ||
    var f := fields[0];
    assert f.schema < f;
    f.number <= 30 && WellFormed(f.schema) && WellFormedFields(fields[1..]) &&
    (|fields| > 1 ==> f.number < fields[1].number)
  }

  predicate Typed(s: Schema, v: Value)
    decreases s
  {
    match s
    case SBool => v.VBool?
    case SInt(w) => v.VInt? && FitsInt(w, v.n)
    case SUint(w) => v.VInt? && FitsUint(w, v.n)
    case SString => v.VStr?
    case SUtf8 => v.VStr?
    case SOctets => v.VNil? || v.VOctets?
    case SSeqOf(elem) => v.VNil? || (v.VItems? && forall x | x in v.items :: Typed(elem, x))
    case SStruct(fields) => v.VRecord? && TypedFields(fields, v.values)
    case SApp(_, body) => Typed(body, v)
    case SPtr(elem) => v.VNil? || (v.VRef? && Typed(elem, v.target))
  }

  predicate TypedFields(fields: seq<Field>, values: seq<Value>)
    decreases fields
  {
    |fields| == |values| &&
    (fields != [] ==>
       var f := fields[0];
       assert f.schema < f;
       Typed(f.schema, values[0]) && TypedFields(fields[1..], values[1..]))
  }

  /** The Go zero value, which an absent optional field keeps. */
  function Zero(s: Schema): (v: Value)
    decreases s
  {
    match s
    case SBool => VBool(false)
    case SInt(_) => VInt(0)
    case SUint(_) => VInt(0)
    case SString => VStr([])
    case SUtf8 => VStr([])
    case SStruct(fields) => VRecord(ZeroFields(fields))
    case SApp(_, body) => Zero(body)
    case _ => VNil
  }

  function ZeroFields(fields: seq<Field>): (vs: seq<Value>)
    decreases fields
  {
    if fields == [] then []
    else
      var f := fields[0];
      assert f.schema < f;
      [Zero(f.schema)] + ZeroFields(fields[1..])
  }

  // ----- encoding

  /** encodeValue. None is a reported error or the overflow of a length buffer. */
  function EncodeValue(s: Schema, v: Value, depth: nat): (r: Option<bytes>)
    requires Typed(s, v)
    decreases s, 1, 0
  {
    if depth > MAX_DEPTH then None
    else match s
      case SPtr(elem) => if v.VNil? then None else EncodeValue(elem, v.target, depth + 1)
      case SApp(tag, body) =>
        var inner :- EncodeBare(body, v, depth + 1);
        if tag <= 30 then EncodeTLV(0x60 + tag, inner) else None
      case _ => EncodeBare(s, v, depth)
  }

  /** encodeBare. */
  function EncodeBare(s: Schema, v: Value, depth: nat): (r: Option<bytes>)
    requires Typed(s, v)
    decreases s, 0, 0
  {
    if depth > MAX_DEPTH then None
    else match s
      case SBool => EncodeTLV(TAG_BOOLEAN, [if v.b then 0xff else 0])
      case SInt(_) => EncodeTLV(TAG_INTEGER, IntBytes(v.n))
      case SUint(_) => if v.n < TWO63 then EncodeTLV(TAG_INTEGER, IntBytes(v.n)) else None
      case SString => EncodeTLV(TAG_GENERAL_STRING, v.s)
      case SUtf8 => EncodeTLV(TAG_UTF8_STRING, v.s)
      case SOctets => EncodeTLV(TAG_OCTET_STRING, if v.VNil? then [] else v.o)
      case SSeqOf(elem) =>
        var content :- EncodeItems(elem, if v.VNil? then [] else v.items, depth);
        EncodeTLV(TAG_SEQUENCE, content)
      case SStruct(fields) =>
        var content :- EncodeFields(fields, v.values, depth);
        EncodeTLV(TAG_SEQUENCE, content)
      case _ => None
  }

  function EncodeItems(elem: Schema, items: seq<Value>, depth: nat): (r: Option<bytes>)
    requires forall x | x in items :: Typed(elem, x)
    decreases elem, 2, |items|
  {
    if items == [] then Some([])
    else
      var item :- EncodeValue(elem, items[0], depth + 1);
      var rest :- EncodeItems(elem, items[1..], depth);
      Some(item + rest)
  }

  /** The loop of encodeStruct: nil optional fields are left out. */
  function EncodeFields(fields: seq<Field>, values: seq<Value>, depth: nat): (r: Option<bytes>)
    requires TypedFields(fields, values)
    decreases fields, 2, 0
  {
    if fields == [] then Some([])
    else
      var f := fields[0];
      assert f.schema < f;
      if f.number > 30 then None
      else if f.optional && values[0].VNil? then EncodeFields(fields[1..], values[1..], depth)
      else
        var inner :- EncodeValue(f.schema, values[0], depth + 1);
        var element :- EncodeTLV(0xa0 + f.number, inner);
        var rest :- EncodeFields(fields[1..], values[1..], depth);
        Some(element + rest)
  }

  /** Marshal. */
  function Marshal(s: Schema, v: Value): (r: Option<bytes>)
    requires Typed(s, v)
  {
    EncodeValue(s, v, 0)
  }

  // ----- decoding

  /** decodeValue. */
  function DecodeValue(s: Schema, data: bytes, depth: nat): (r: Option<Value>)
    decreases s, 1, 0
  {
    if depth > MAX_DEPTH then None
    else
      var t :- ReadTLV(data);
      if t.end != |data| then None
      else match s
        case SPtr(elem) =>
          var target :- DecodeValue(elem, data, depth + 1);
          Some(VRef(target))
        case SApp(tag, body) =>
          if t.tag != 0x60 + tag then None
          else
            var inner :- ReadTLV(t.content);
            if inner.tag != TAG_SEQUENCE || inner.end != |t.content| then None
            else DecodeBare(inner.tag, inner.content, body, depth + 1)
        case _ => DecodeBare(t.tag, t.content, s, depth)
  }

  /** decodeBare. An empty OCTET STRING becomes the nil slice. */
  function DecodeBare(tag: byte, content: bytes, s: Schema, depth: nat): (r: Option<Value>)
    decreases s, 0, 0
  {
    if depth > MAX_DEPTH then None
    else match s
      case SBool =>
        if tag != TAG_BOOLEAN || |content| != 1 || (content[0] != 0 && content[0] != 0xff) then None
        else Some(VBool(content[0] != 0))
      case SInt(w) =>
        if tag != TAG_INTEGER then None
        else
          var n :- DecodeInteger(content);
          if FitsInt(w, n) then Some(VInt(n)) else None
      case SUint(w) =>
        if tag != TAG_INTEGER then None
        else
          var n :- DecodeUnsignedInteger(content);
          if FitsUint(w, n) then Some(VInt(n)) else None
      case SString => if tag != TAG_GENERAL_STRING then None else Some(VStr(content))
      case SUtf8 => if tag != TAG_UTF8_STRING then None else Some(VStr(content))
      case SOctets =>
        if tag != TAG_OCTET_STRING then None
        else if content == [] then Some(VNil) else Some(VOctets(content))
      case SSeqOf(elem) =>
        if tag != TAG_SEQUENCE then None
        else
          var items :- DecodeItems(elem, content, depth);
          Some(VItems(items))
      case SStruct(fields) =>
        if tag != TAG_SEQUENCE then None
        else
          var values :- DecodeFields(fields, content, depth + 1);
          Some(VRecord(values))
      case _ => None
  }

  function DecodeItems(elem: Schema, content: bytes, depth: nat): (r: Option<seq<Value>>)
    decreases elem, 2, |content|
  {
    if content == [] then Some([])
    else
      var t :- ReadTLV(content);
      var item :- DecodeValue(elem, content[..t.end], depth + 1);
      var rest :- DecodeItems(elem, content[t.end..], depth);
      Some([item] + rest)
  }

  /** decodeStruct: fields in order, an optional one skipped when the next tag
      is larger or nothing is left. */
  function DecodeFields(fields: seq<Field>, content: bytes, depth: nat): (r: Option<seq<Value>>)
    decreases fields, 2, 0
  {
    if fields == [] then if content == [] then Some([]) else None
    else
      var f := fields[0];
      assert f.schema < f;
      if f.number > 30 then None
      else if content == [] then
        if f.optional then SkipField(fields, content, depth) else None
      else
        var t :- ReadTLV(content);
        if t.tag != 0xa0 + f.number then
          if f.optional && t.tag > 0xa0 + f.number then SkipField(fields, content, depth) else None
        else
          var v :- DecodeValue(f.schema, t.content, depth + 1);
          var rest :- DecodeFields(fields[1..], content[t.end..], depth);
          Some([v] + rest)
  }

  function SkipField(fields: seq<Field>, content: bytes, depth: nat): (r: Option<seq<Value>>)
    requires fields != []
    decreases fields, 1, 0
  {
    var rest :- DecodeFields(fields[1..], content, depth);
    Some([Zero(fields[0].schema)] + rest)
  }

  /** Unmarshal. */
  function Unmarshal(s: Schema, data: bytes): (r: Option<Value>) {
    var t :- ReadTLV(data);
    if t.end != |data| then None else DecodeValue(s, data, 0)
  }
}
