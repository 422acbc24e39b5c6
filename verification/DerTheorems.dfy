/** Round trip and uniqueness of the DER codec. */
module DerTheorems {
  import opened Bytes
  import opened DerTlv
  import opened Der

  // ----- what a round trip returns

  /** The value with Go's nil and empty slices merged the way the decoder merges
      them: an empty OCTET STRING is nil, a SEQUENCE OF that was written is not. */
  function Norm(s: Schema, v: Value): (r: Value)
    requires Typed(s, v)
    decreases s, 0, 0
  {
    match s
    case SOctets => if v == VOctets([]) then VNil else v
    case SSeqOf(elem) => VItems(NormItems(elem, if v.VNil? then [] else v.items))
    case SStruct(fields) => VRecord(NormFields(fields, v.values))
    case SApp(_, body) => Norm(body, v)
    case SPtr(elem) => if v.VNil? then VNil else VRef(Norm(elem, v.target))
    case _ => v
  }

  function NormItems(elem: Schema, items: seq<Value>): (r: seq<Value>)
    requires forall x | x in items :: Typed(elem, x)
    decreases elem, 2, |items|
  {
    if items == [] then [] else [Norm(elem, items[0])] + NormItems(elem, items[1..])
  }

  function NormFields(fields: seq<Field>, values: seq<Value>): (r: seq<Value>)
    requires TypedFields(fields, values)
    decreases fields, 2, 0
  {
    if fields == [] then []
    else
      var f := fields[0];
      assert f.schema < f;
      [if f.optional && values[0].VNil? then Zero(f.schema) else Norm(f.schema, values[0])]
        + NormFields(fields[1..], values[1..])
  }

  /** The decoder's limits: nesting, counted two levels a struct, and unsigned
      values below 2^32. */
  predicate Accepted(s: Schema, v: Value, depth: nat)
    requires Typed(s, v)
    decreases s, 1, 0
  {
    depth <= MAX_DEPTH &&
    match s
    case SPtr(elem) => v.VRef? ==> Accepted(elem, v.target, depth + 1)
    case SApp(_, body) => AcceptedBare(body, v, depth + 1)
    case _ => AcceptedBare(s, v, depth)
  }

  predicate AcceptedBare(s: Schema, v: Value, depth: nat)
    requires Typed(s, v)
    decreases s, 0, 0
  {
    depth <= MAX_DEPTH &&
    match s
    case SUint(_) => v.n < TWO32
    case SSeqOf(elem) => v.VItems? ==> AcceptedItems(elem, v.items, depth)
    case SStruct(fields) => AcceptedFields(fields, v.values, depth + 1)
    case _ => true
  }

  predicate AcceptedItems(elem: Schema, items: seq<Value>, depth: nat)
    requires forall x | x in items :: Typed(elem, x)
    decreases elem, 2, |items|
  {
    items == [] || (Accepted(elem, items[0], depth + 1) && AcceptedItems(elem, items[1..], depth))
  }

  predicate AcceptedFields(fields: seq<Field>, values: seq<Value>, depth: nat)
    requires TypedFields(fields, values)
    decreases fields, 2, 0
  {
    fields == [] ||
    var f := fields[0];
    assert f.schema < f;
    ((f.optional && values[0].VNil?) || Accepted(f.schema, values[0], depth + 1)) &&
    AcceptedFields(fields[1..], values[1..], depth)
  }

  // ----- shape of encodings

  lemma TLVShape(tag: byte, content: bytes)
    requires EncodeTLV(tag, content).Some?
    ensures ReadTLV(EncodeTLV(tag, content).value)
         == Some(TLV(tag, content, |EncodeTLV(tag, content).value|))
  {
    ReadsEncodedTLV(tag, content, []);
    assert EncodeTLV(tag, content).value + [] == EncodeTLV(tag, content).value;
  }

  /** Every encoding is exactly one element. */
  lemma {:induction false} OneElement(s: Schema, v: Value, depth: nat)
    requires Typed(s, v) && EncodeValue(s, v, depth).Some?
    ensures var b := EncodeValue(s, v, depth).value;
            ReadTLV(b).Some? && ReadTLV(b).value.end == |b|
    decreases s
  {
    hide ReadTLV, EncodeTLV, EncodeBare;
    match s {
      case SPtr(elem) => OneElement(elem, v.target, depth + 1);
      case SApp(tag, body) => TLVShape(0x60 + tag, EncodeBare(body, v, depth + 1).value);
      case _ => OneBareElement(s, v, depth);
    }
  }

  lemma OneBareElement(s: Schema, v: Value, depth: nat)
    requires Typed(s, v) && EncodeBare(s, v, depth).Some?
    ensures var b := EncodeBare(s, v, depth).value;
            ReadTLV(b).Some? && ReadTLV(b).value.end == |b|
  {
    hide ReadTLV, EncodeTLV, EncodeItems, EncodeFields, IntBytes;
    match s {
      case SBool => TLVShape(TAG_BOOLEAN, [if v.b then 0xff else 0]);
      case SInt(_) => TLVShape(TAG_INTEGER, IntBytes(v.n));
      case SUint(_) => TLVShape(TAG_INTEGER, IntBytes(v.n));
      case SString => TLVShape(TAG_GENERAL_STRING, v.s);
      case SUtf8 => TLVShape(TAG_UTF8_STRING, v.s);
      case SOctets => TLVShape(TAG_OCTET_STRING, if v.VNil? then [] else v.o);
      case SSeqOf(elem) =>
        TLVShape(TAG_SEQUENCE, EncodeItems(elem, if v.VNil? then [] else v.items, depth).value);
      case SStruct(fields) => TLVShape(TAG_SEQUENCE, EncodeFields(fields, v.values, depth).value);
    }
  }

  /** What is written for a list of fields is empty or starts with the tag of
      one of them. */
  lemma {:induction false} FirstFieldTag(fields: seq<Field>, values: seq<Value>, depth: nat, below: nat)
    requires WellFormedFields(fields) && TypedFields(fields, values)
    requires fields != [] ==> below < fields[0].number
    requires EncodeFields(fields, values, depth).Some?
    ensures var b := EncodeFields(fields, values, depth).value;
            b != [] ==> ReadTLV(b).Some? && ReadTLV(b).value.tag > 0xa0 + below
    decreases |fields|
  {
    if fields != [] {
      var f := fields[0];
      if f.optional && values[0].VNil? {
        FirstFieldTag(fields[1..], values[1..], depth, below);
      } else {
        var inner := EncodeValue(f.schema, values[0], depth + 1).value;
        var rest := EncodeFields(fields[1..], values[1..], depth).value;
        ReadsEncodedTLV(0xa0 + f.number, inner, rest);
        assert EncodeFields(fields, values, depth)
            == Some(EncodeTLV(0xa0 + f.number, inner).value + rest);
      }
    }
  }

  lemma ZeroOfNilable(s: Schema)
    requires WellFormed(s) && Nilable(s)
    ensures Zero(s) == VNil
  {
  }

  lemma NilIsNilable(s: Schema, v: Value)
    requires WellFormed(s) && Typed(s, v) && v.VNil?
    ensures Nilable(s)
  {
  }

  // ----- decode after encode

  /** Decoding an encoding gives the normalized value exactly within the
      decoder's limits, and an error outside them. */
  lemma {:induction false} DecodeOfEncode(s: Schema, v: Value, depth: nat, at: nat)
    requires WellFormed(s) && Typed(s, v) && EncodeValue(s, v, depth).Some?
    ensures DecodeValue(s, EncodeValue(s, v, depth).value, at)
         == if Accepted(s, v, at) then Some(Norm(s, v)) else None
    decreases s, 1, 0
  {
    hide EncodeTLV, EncodeBare, DecodeBare, AcceptedBare, ReadTLV;
    var b := EncodeValue(s, v, depth).value;
    OneElement(s, v, depth);
    match s {
      case SPtr(elem) => DecodeOfEncode(elem, v.target, depth + 1, at + 1);
      case SApp(tag, body) =>
        var inner := EncodeBare(body, v, depth + 1).value;
        TLVShape(0x60 + tag, inner);
        OneBareElement(body, v, depth + 1);
        DecodeOfEncodeBare(body, v, depth + 1, at + 1);
        SequenceTag(body, v, depth + 1);
      case _ => DecodeOfEncodeBare(s, v, depth, at);
    }
  }

  lemma SequenceTag(s: Schema, v: Value, depth: nat)
    requires s.SStruct? || s.SSeqOf?
    requires Typed(s, v) && EncodeBare(s, v, depth).Some?
    ensures ReadTLV(EncodeBare(s, v, depth).value).Some?
    ensures ReadTLV(EncodeBare(s, v, depth).value).value.tag == TAG_SEQUENCE
  {
    match s {
      case SSeqOf(elem) =>
        TLVShape(TAG_SEQUENCE, EncodeItems(elem, if v.VNil? then [] else v.items, depth).value);
      case SStruct(fields) => TLVShape(TAG_SEQUENCE, EncodeFields(fields, v.values, depth).value);
    }
  }

  lemma {:induction false} DecodeOfEncodeBare(s: Schema, v: Value, depth: nat, at: nat)
    requires WellFormed(s) && Typed(s, v) && EncodeBare(s, v, depth).Some?
    requires ReadTLV(EncodeBare(s, v, depth).value).Some?
    ensures var t := ReadTLV(EncodeBare(s, v, depth).value).value;
            DecodeBare(t.tag, t.content, s, at)
              == if AcceptedBare(s, v, at) then Some(Norm(s, v)) else None
    decreases s, 0, 0
  {
    hide EncodeTLV, ReadTLV, EncodeItems, EncodeFields, DecodeItems, DecodeFields, AcceptedFields, IntBytes, DecodeInteger, DecodeUnsignedInteger;
    match s {
      case SBool => TLVShape(TAG_BOOLEAN, [if v.b then 0xff else 0]);
      case SInt(w) =>
        TLVShape(TAG_INTEGER, IntBytes(v.n));
        DecodeIntegerExact(IntBytes(v.n), v.n);
      case SUint(w) =>
        TLVShape(TAG_INTEGER, IntBytes(v.n));
        UnsignedRoundTrip(v.n);
      case SString => TLVShape(TAG_GENERAL_STRING, v.s);
      case SUtf8 => TLVShape(TAG_UTF8_STRING, v.s);
      case SOctets => TLVShape(TAG_OCTET_STRING, if v.VNil? then [] else v.o);
      case SSeqOf(elem) =>
        var items := if v.VNil? then [] else v.items;
        TLVShape(TAG_SEQUENCE, EncodeItems(elem, items, depth).value);
        DecodeOfEncodeItems(elem, items, depth, at);
      case SStruct(fields) =>
        TLVShape(TAG_SEQUENCE, EncodeFields(fields, v.values, depth).value);
        DecodeOfEncodeFields(fields, v.values, depth, at + 1);
    }
  }

  lemma UnsignedRoundTrip(n: nat)
    ensures DecodeUnsignedInteger(IntBytes(n)) == if n < TWO32 then Some(n) else None
  {
    var r := DecodeUnsignedInteger(IntBytes(n));
    DecodeUnsignedExact(IntBytes(n), n);
    if r.Some? {
      DecodeUnsignedExact(IntBytes(n), r.value);
      IntBytesDenote(n);
      IntBytesDenote(r.value);
    }
  }

  lemma {:induction false} DecodeOfEncodeItems(elem: Schema, items: seq<Value>, depth: nat, at: nat)
    requires WellFormed(elem) && forall x | x in items :: Typed(elem, x)
    requires EncodeItems(elem, items, depth).Some?
    ensures DecodeItems(elem, EncodeItems(elem, items, depth).value, at)
         == if AcceptedItems(elem, items, at) then Some(NormItems(elem, items)) else None
    decreases elem, 2, |items|
  {
    hide ReadTLV, EncodeValue, DecodeValue, Accepted, Norm;
    if items != [] {
      var item := EncodeValue(elem, items[0], depth + 1).value;
      var rest := EncodeItems(elem, items[1..], depth).value;
      OneElement(elem, items[0], depth + 1);
      ReadTLVExtend(item, rest);
      assert (item + rest)[..|item|] == item && (item + rest)[|item|..] == rest;
      DecodeOfEncode(elem, items[0], depth + 1, at + 1);
      DecodeOfEncodeItems(elem, items[1..], depth, at);
    }
  }

  lemma {:induction false} DecodeOfEncodeFields(fields: seq<Field>, values: seq<Value>, depth: nat, at: nat)
    requires WellFormedFields(fields) && TypedFields(fields, values)
    requires EncodeFields(fields, values, depth).Some?
    ensures DecodeFields(fields, EncodeFields(fields, values, depth).value, at)
         == if AcceptedFields(fields, values, at) then Some(NormFields(fields, values)) else None
    decreases fields, 2, 0
  {
    hide ReadTLV, EncodeTLV, EncodeValue, DecodeValue, Accepted, Norm;
    if fields != [] {
      var f := fields[0];
      assert f.schema < f;
      var rest := EncodeFields(fields[1..], values[1..], depth).value;
      DecodeOfEncodeFields(fields[1..], values[1..], depth, at);
      if f.optional && values[0].VNil? {
        FirstFieldTag(fields[1..], values[1..], depth, f.number);
      } else {
        var inner := EncodeValue(f.schema, values[0], depth + 1).value;
        var element := EncodeTLV(0xa0 + f.number, inner).value;
        ReadsEncodedTLV(0xa0 + f.number, inner, rest);
        assert (element + rest)[|element|..] == rest;
        DecodeOfEncode(f.schema, values[0], depth + 1, at + 1);
      }
    }
  }

  /** Unmarshal after Marshal returns the value itself exactly when the value is
      within the decoder's limits and already in normal form. */
  lemma RoundTrip(s: Schema, v: Value)
    requires WellFormed(s) && Typed(s, v) && Marshal(s, v).Some?
    ensures Unmarshal(s, Marshal(s, v).value)
         == if Accepted(s, v, 0) then Some(Norm(s, v)) else None
    ensures Unmarshal(s, Marshal(s, v).value) == Some(v)
       <==> Accepted(s, v, 0) && Norm(s, v) == v
  {
    OneElement(s, v, 0);
    DecodeOfEncode(s, v, 0, 0);
  }

  // ----- encode after decode

  /** Input that the decoder takes in without loss: no optional OCTET STRING is
      present and empty, and only optional fields that can be nil are absent. */
  predicate Faithful(s: Schema, data: bytes)
    decreases s, 1, 0
  {
    match ReadTLV(data)
    case None => false
    case Some(t) =>
      match s
      case SPtr(elem) => Faithful(elem, data)
      case SApp(_, body) => ReadTLV(t.content).Some? && FaithfulBare(body, ReadTLV(t.content).value.content)
      case _ => FaithfulBare(s, t.content)
  }

  predicate FaithfulBare(s: Schema, content: bytes)
    decreases s, 0, 0
  {
    match s
    case SSeqOf(elem) => FaithfulItems(elem, content)
    case SStruct(fields) => FaithfulFields(fields, content)
    case _ => true
  }

  predicate FaithfulItems(elem: Schema, content: bytes)
    decreases elem, 2, |content|
  {
    content == [] ||
    (ReadTLV(content).Some? &&
     var end := ReadTLV(content).value.end;
     Faithful(elem, content[..end]) && FaithfulItems(elem, content[end..]))
  }

  predicate FaithfulFields(fields: seq<Field>, content: bytes)
    decreases fields, 2, 0
  {
    fields == [] ||
    var f := fields[0];
    assert f.schema < f;
    if content == [] || (ReadTLV(content).Some? && ReadTLV(content).value.tag != 0xa0 + f.number) then
      Nilable(f.schema) && FaithfulFields(fields[1..], content)
    else
      ReadTLV(content).Some? &&
      var t := ReadTLV(content).value;
      !(f.optional && f.schema.SOctets? && t.content == [TAG_OCTET_STRING, 0]) &&
      Faithful(f.schema, t.content) && FaithfulFields(fields[1..], content[t.end..])
  }

  lemma {:induction false} ZeroTyped(s: Schema)
    ensures Typed(s, Zero(s))
    decreases s
  {
    match s {
      case SStruct(fields) => ZeroFieldsTyped(fields);
      case SApp(_, body) => ZeroTyped(body);
      case _ =>
    }
  }

  lemma {:induction false} ZeroFieldsTyped(fields: seq<Field>)
    ensures TypedFields(fields, ZeroFields(fields))
    decreases fields
  {
    if fields != [] {
      var f := fields[0];
      assert f.schema < f;
      ZeroTyped(f.schema);
      ZeroFieldsTyped(fields[1..]);
    }
  }

  /** The decoder only produces values of the destination type. */
  lemma {:induction false} DecodedTyped(s: Schema, data: bytes, at: nat)
    requires DecodeValue(s, data, at).Some?
    ensures Typed(s, DecodeValue(s, data, at).value)
    decreases s, 1, 0
  {
    var t := ReadTLV(data).value;
    match s {
      case SPtr(elem) => DecodedTyped(elem, data, at + 1);
      case SApp(_, body) =>
        var inner := ReadTLV(t.content).value;
        DecodedBareTyped(inner.tag, inner.content, body, at + 1);
      case _ => DecodedBareTyped(t.tag, t.content, s, at);
    }
  }

  lemma {:induction false} DecodedBareTyped(tag: byte, content: bytes, s: Schema, at: nat)
    requires DecodeBare(tag, content, s, at).Some?
    ensures Typed(s, DecodeBare(tag, content, s, at).value)
    decreases s, 0, 0
  {
    match s {
      case SSeqOf(elem) => DecodedItemsTyped(elem, content, at);
      case SStruct(fields) => DecodedFieldsTyped(fields, content, at + 1);
      case _ =>
    }
  }

  lemma {:induction false} DecodedItemsTyped(elem: Schema, content: bytes, at: nat)
    requires DecodeItems(elem, content, at).Some?
    ensures forall x | x in DecodeItems(elem, content, at).value :: Typed(elem, x)
    decreases elem, 2, |content|
  {
    if content != [] {
      var end := ReadTLV(content).value.end;
      DecodedTyped(elem, content[..end], at + 1);
      DecodedItemsTyped(elem, content[end..], at);
    }
  }

  lemma {:induction false} DecodedFieldsTyped(fields: seq<Field>, content: bytes, at: nat)
    requires DecodeFields(fields, content, at).Some?
    ensures TypedFields(fields, DecodeFields(fields, content, at).value)
    decreases fields, 2, 0
  {
    if fields != [] {
      var f := fields[0];
      assert f.schema < f;
      ZeroTyped(f.schema);
      if content == [] || ReadTLV(content).value.tag != 0xa0 + f.number {
        DecodedFieldsTyped(fields[1..], content, at);
      } else {
        var t := ReadTLV(content).value;
        DecodedTyped(f.schema, t.content, at + 1);
        DecodedFieldsTyped(fields[1..], content[t.end..], at);
      }
    }
  }

  lemma TLVInjective(tag: byte, content: bytes, tag': byte, content': bytes)
    requires EncodeTLV(tag, content).Some? && EncodeTLV(tag', content').Some?
    ensures EncodeTLV(tag, content) == EncodeTLV(tag', content') <==> tag == tag' && content == content'
  {
    TLVShape(tag, content);
    TLVShape(tag', content');
  }

  /** A sequence that starts with one element splits only one way. */
  lemma SplitUnique(item: bytes, rest: bytes, content: bytes)
    requires ReadTLV(item).Some? && ReadTLV(item).value.end == |item|
    requires ReadTLV(content).Some?
    ensures var end := ReadTLV(content).value.end;
            item + rest == content <==> item == content[..end] && rest == content[end..]
  {
    if item + rest == content {
      ReadTLVExtend(item, rest);
      assert (item + rest)[..|item|] == item && (item + rest)[|item|..] == rest;
    }
  }

  /** Re-encoding a decoded value gives back the input exactly when the input is
      faithful; an encoder never spends more depth than the decoder. */
  lemma {:induction false} EncodeOfDecode(s: Schema, data: bytes, at: nat, depth: nat)
    requires WellFormed(s) && depth <= at && DecodeValue(s, data, at).Some?
    ensures Typed(s, DecodeValue(s, data, at).value)
    ensures EncodeValue(s, DecodeValue(s, data, at).value, depth) == Some(data) <==> Faithful(s, data)
    decreases s, 1, 0
  {
    hide ReadTLV, EncodeTLV, EncodeBare, DecodeBare, FaithfulBare;
    DecodedTyped(s, data, at);
    match s {
      case SPtr(elem) => EncodeOfDecode(elem, data, at + 1, depth + 1);
      case SApp(_, _) => EncodeOfDecodeApp(s, data, at, depth);
      case _ =>
        var t := ReadTLV(data).value;
        WholeElement(data);
        EncodeOfDecodeBare(t.tag, t.content, s, at, depth);
    }
  }

  lemma WholeElement(data: bytes)
    requires ReadTLV(data).Some? && ReadTLV(data).value.end == |data|
    ensures EncodeTLV(ReadTLV(data).value.tag, ReadTLV(data).value.content) == Some(data)
  {
    EncodesReadTLV(data);
    assert data[..|data|] == data;
  }

  lemma {:induction false} EncodeOfDecodeApp(s: Schema, data: bytes, at: nat, depth: nat)
    requires s.SApp? && WellFormed(s) && depth <= at && DecodeValue(s, data, at).Some?
    requires Typed(s, DecodeValue(s, data, at).value)
    ensures EncodeValue(s, DecodeValue(s, data, at).value, depth) == Some(data) <==> Faithful(s, data)
    decreases s, 0, 1
  {
    hide ReadTLV, EncodeTLV, EncodeBare, DecodeBare, FaithfulBare;
    var t := ReadTLV(data).value;
    var inner := ReadTLV(t.content).value;
    WholeElement(data);
    WholeElement(t.content);
    EncodeOfDecodeBare(inner.tag, inner.content, s.body, at + 1, depth + 1);
    ElementAgain(t.tag, EncodeBare(s.body, DecodeValue(s, data, at).value, depth + 1), t.content);
  }

  lemma {:induction false} EncodeOfDecodeBare(tag: byte, content: bytes, s: Schema, at: nat, depth: nat)
    requires WellFormed(s) && depth <= at && DecodeBare(tag, content, s, at).Some?
    requires EncodeTLV(tag, content).Some?
    ensures Typed(s, DecodeBare(tag, content, s, at).value)
    ensures EncodeBare(s, DecodeBare(tag, content, s, at).value, depth) == EncodeTLV(tag, content)
       <==> FaithfulBare(s, content)
    decreases s, 0, 0
  {
    DecodedBareTyped(tag, content, s, at);
    var v := DecodeBare(tag, content, s, at).value;
    match s {
      case SBool => assert content == [content[0]];
      case SInt(_) => DecodeIntegerExact(content, v.n);
      case SUint(_) => DecodeUnsignedExact(content, v.n);
      case SSeqOf(elem) =>
        EncodeOfDecodeItems(elem, content, at, depth);
        ElementAgain(TAG_SEQUENCE, EncodeItems(elem, v.items, depth), content);
      case SStruct(fields) =>
        EncodeOfDecodeFields(fields, content, at + 1, depth);
        ElementAgain(TAG_SEQUENCE, EncodeFields(fields, v.values, depth), content);
      case _ =>
    }
  }

  lemma ElementAgain(tag: byte, again: Option<bytes>, content: bytes)
    requires EncodeTLV(tag, content).Some?
    ensures again == Some(content)
       <==> again.Some? && EncodeTLV(tag, again.value) == EncodeTLV(tag, content)
  {
    if again.Some? && EncodeTLV(tag, again.value).Some? {
      TLVInjective(tag, again.value, tag, content);
    }
  }

  lemma {:induction false} EncodeOfDecodeItems(elem: Schema, content: bytes, at: nat, depth: nat)
    requires WellFormed(elem) && depth <= at && DecodeItems(elem, content, at).Some?
    ensures forall x | x in DecodeItems(elem, content, at).value :: Typed(elem, x)
    ensures EncodeItems(elem, DecodeItems(elem, content, at).value, depth) == Some(content)
       <==> FaithfulItems(elem, content)
    decreases elem, 2, |content|
  {
    hide ReadTLV, DecodeValue, EncodeValue, Faithful, Typed;
    DecodedItemsTyped(elem, content, at);
    if content != [] {
      var end := ReadTLV(content).value.end;
      EncodeOfDecode(elem, content[..end], at + 1, depth + 1);
      EncodeOfDecodeItems(elem, content[end..], at, depth);
      ItemsAgain(elem, DecodeValue(elem, content[..end], at + 1).value,
                 DecodeItems(elem, content[end..], at).value, content, depth);
    }
  }

  lemma ItemsAgain(elem: Schema, head: Value, tail: seq<Value>, content: bytes, depth: nat)
    requires ReadTLV(content).Some?
    requires Typed(elem, head) && forall x | x in tail :: Typed(elem, x)
    ensures var end := ReadTLV(content).value.end;
            EncodeItems(elem, [head] + tail, depth) == Some(content)
            <==> && EncodeValue(elem, head, depth + 1) == Some(content[..end])
                 && EncodeItems(elem, tail, depth) == Some(content[end..])
  {
    var item := EncodeValue(elem, head, depth + 1);
    var rest := EncodeItems(elem, tail, depth);
    assert ([head] + tail)[1..] == tail;
    if item.Some? && rest.Some? {
      OneElement(elem, head, depth + 1);
      SplitUnique(item.value, rest.value, content);
    }
  }

  lemma {:induction false} EncodeOfDecodeFields(fields: seq<Field>, content: bytes, at: nat, depth: nat)
    requires WellFormedFields(fields) && depth < at && DecodeFields(fields, content, at).Some?
    ensures TypedFields(fields, DecodeFields(fields, content, at).value)
    ensures EncodeFields(fields, DecodeFields(fields, content, at).value, depth) == Some(content)
       <==> FaithfulFields(fields, content)
    decreases fields, 2, 0
  {
    hide ReadTLV, EncodeTLV, DecodeValue, EncodeValue, Faithful, Typed, WellFormed, Zero;
    DecodedFieldsTyped(fields, content, at);
    if fields != [] {
      var f := fields[0];
      assert f.schema < f;
      var values := DecodeFields(fields, content, at).value;
      if content == [] || ReadTLV(content).value.tag != 0xa0 + f.number {
        EncodeOfDecodeFields(fields[1..], content, at, depth);
        assert values[1..] == DecodeFields(fields[1..], content, at).value;
        SkippedAgain(fields, values, content, depth);
      } else {
        var t := ReadTLV(content).value;
        EncodeOfDecode(f.schema, t.content, at + 1, depth + 1);
        EncodeOfDecodeFields(fields[1..], content[t.end..], at, depth);
        assert values[1..] == DecodeFields(fields[1..], content[t.end..], at).value;
        PresentAgain(fields, values, content, at, depth);
      }
    }
  }

  /** A field that is written comes first, under its own tag. */
  lemma WrittenFieldTag(fields: seq<Field>, values: seq<Value>, depth: nat)
    requires fields != [] && WellFormedFields(fields) && TypedFields(fields, values) && !values[0].VNil?
    ensures var e := EncodeFields(fields, values, depth);
            e.Some? ==> e.value != [] && ReadTLV(e.value).Some? && ReadTLV(e.value).value.tag == 0xa0 + fields[0].number
  {
    if EncodeFields(fields, values, depth).Some? {
      var inner := EncodeValue(fields[0].schema, values[0], depth + 1).value;
      ReadsEncodedTLV(0xa0 + fields[0].number, inner, EncodeFields(fields[1..], values[1..], depth).value);
    }
  }

  /** A field skipped on input is skipped again exactly when its type has nil. */
  lemma SkippedAgain(fields: seq<Field>, values: seq<Value>, content: bytes, depth: nat)
    requires fields != [] && fields[0].optional && WellFormedFields(fields) && TypedFields(fields, values)
    requires values[0] == Zero(fields[0].schema)
    requires content != [] ==> ReadTLV(content).Some? && ReadTLV(content).value.tag != 0xa0 + fields[0].number
    ensures EncodeFields(fields, values, depth) == Some(content)
       <==> Nilable(fields[0].schema) && EncodeFields(fields[1..], values[1..], depth) == Some(content)
  {
    var f := fields[0];
    if values[0].VNil? {
      NilIsNilable(f.schema, values[0]);
    } else {
      WrittenFieldTag(fields, values, depth);
    }
    if Nilable(f.schema) { ZeroOfNilable(f.schema); }
  }

  /** A field present on input is written again with the same bytes unless it
      was an optional empty OCTET STRING. */
  lemma PresentAgain(fields: seq<Field>, values: seq<Value>, content: bytes, at: nat, depth: nat)
    requires fields != [] && WellFormedFields(fields) && TypedFields(fields, values)
    requires ReadTLV(content).Some? && ReadTLV(content).value.tag == 0xa0 + fields[0].number
    requires DecodeValue(fields[0].schema, ReadTLV(content).value.content, at + 1) == Some(values[0])
    ensures var f, t := fields[0], ReadTLV(content).value;
            EncodeFields(fields, values, depth) == Some(content)
            <==> && !(f.optional && f.schema.SOctets? && t.content == [TAG_OCTET_STRING, 0])
                 && EncodeValue(f.schema, values[0], depth + 1) == Some(t.content)
                 && EncodeFields(fields[1..], values[1..], depth) == Some(content[t.end..])
  {
    var f := fields[0];
    var t := ReadTLV(content).value;
    DecodedNil(f.schema, t.content, at + 1);
    if f.optional && values[0].VNil? {
      if EncodeFields(fields, values, depth) == Some(content) {
        FirstFieldTag(fields[1..], values[1..], depth, f.number);
        assert false;
      }
    } else {
      EncodesReadTLV(content);
      var inner := EncodeValue(f.schema, values[0], depth + 1);
      var rest := EncodeFields(fields[1..], values[1..], depth);
      if inner.Some? && rest.Some? && EncodeTLV(t.tag, inner.value).Some? {
        TLVShape(t.tag, inner.value);
        TLVInjective(t.tag, inner.value, t.tag, t.content);
        SplitUnique(EncodeTLV(t.tag, inner.value).value, rest.value, content);
      }
    }
  }

  /** The only input that decodes to nil is the empty OCTET STRING. */
  lemma DecodedNil(s: Schema, data: bytes, at: nat)
    requires WellFormed(s) && DecodeValue(s, data, at).Some?
    ensures DecodeValue(s, data, at).value.VNil? <==> s.SOctets? && data == [TAG_OCTET_STRING, 0]
  {
    var t := ReadTLV(data).value;
    if s.SOctets? {
      EncodesReadTLV(data);
      assert data[..t.end] == data;
      if t.content == [] { assert data == [t.tag, 0]; }
    }
  }

  /** Encodings are unique: for every input that decodes, re-encoding gives
      exactly those bytes if and only if the input is faithful. */
  lemma Uniqueness(s: Schema, data: bytes)
    requires WellFormed(s) && Unmarshal(s, data).Some?
    ensures Typed(s, Unmarshal(s, data).value)
    ensures Marshal(s, Unmarshal(s, data).value) == Some(data) <==> Faithful(s, data)
  {
    EncodeOfDecode(s, data, 0, 0);
  }

  // ----- schemas for which nothing is lost

  /** Every optional field can be nil and none of them is an OCTET STRING. */
  predicate Lossless(s: Schema)
    decreases s
  {
    match s
    case SSeqOf(elem) => Lossless(elem)
    case SPtr(elem) => Lossless(elem)
    case SApp(_, body) => Lossless(body)
    case SStruct(fields) => LosslessFields(fields)
    case _ => true
  }

  predicate LosslessFields(fields: seq<Field>)
    decreases fields
  {
    fields == [] ||
    var f := fields[0];
    assert f.schema < f;
    (f.optional ==> Nilable(f.schema) && !f.schema.SOctets?) && Lossless(f.schema) &&
    LosslessFields(fields[1..])
  }

  lemma {:induction false} LosslessFaithful(s: Schema, data: bytes, at: nat)
    requires Lossless(s) && DecodeValue(s, data, at).Some?
    ensures Faithful(s, data)
    decreases s, 1, 0
  {
    var t := ReadTLV(data).value;
    match s {
      case SPtr(elem) => LosslessFaithful(elem, data, at + 1);
      case SApp(_, body) =>
        LosslessFaithfulBare(ReadTLV(t.content).value.tag, ReadTLV(t.content).value.content, body, at + 1);
      case _ => LosslessFaithfulBare(t.tag, t.content, s, at);
    }
  }

  lemma {:induction false} LosslessFaithfulBare(tag: byte, content: bytes, s: Schema, at: nat)
    requires Lossless(s) && DecodeBare(tag, content, s, at).Some?
    ensures FaithfulBare(s, content)
    decreases s, 0, 0
  {
    match s {
      case SSeqOf(elem) => LosslessFaithfulItems(elem, content, at);
      case SStruct(fields) => LosslessFaithfulFields(fields, content, at + 1);
      case _ =>
    }
  }

  lemma {:induction false} LosslessFaithfulItems(elem: Schema, content: bytes, at: nat)
    requires Lossless(elem) && DecodeItems(elem, content, at).Some?
    ensures FaithfulItems(elem, content)
    decreases elem, 2, |content|
  {
    if content != [] {
      var end := ReadTLV(content).value.end;
      LosslessFaithful(elem, content[..end], at + 1);
      LosslessFaithfulItems(elem, content[end..], at);
    }
  }

  lemma {:induction false} LosslessFaithfulFields(fields: seq<Field>, content: bytes, at: nat)
    requires LosslessFields(fields) && DecodeFields(fields, content, at).Some?
    ensures FaithfulFields(fields, content)
    decreases fields, 2, 0
  {
    if fields != [] {
      var f := fields[0];
      assert f.schema < f;
      if content == [] || ReadTLV(content).value.tag != 0xa0 + f.number {
        LosslessFaithfulFields(fields[1..], content, at);
      } else {
        var t := ReadTLV(content).value;
        LosslessFaithful(f.schema, t.content, at + 1);
        LosslessFaithfulFields(fields[1..], content[t.end..], at);
      }
    }
  }

  /** For lossless schemas no two inputs decode to the same value. */
  lemma DecodeInjective(s: Schema, a: bytes, b: bytes)
    requires WellFormed(s) && Lossless(s)
    requires Unmarshal(s, a).Some? && Unmarshal(s, a) == Unmarshal(s, b)
    ensures a == b
  {
    LosslessFaithful(s, a, 0);
    LosslessFaithful(s, b, 0);
    Uniqueness(s, a);
    Uniqueness(s, b);
  }

  /** With an optional OCTET STRING two inputs do share a value: present and
      empty is read as absent. */
  lemma EmptyOctetsCollide(fields: seq<Field>)
    requires fields == [Field(0, true, SOctets)]
    ensures Unmarshal(SStruct(fields), [0x30, 0]) == Some(VRecord([VNil]))
    ensures Unmarshal(SStruct(fields), [0x30, 4, 0xa0, 2, 4, 0]) == Some(VRecord([VNil]))
    ensures TypedFields(fields, [VNil]) && Marshal(SStruct(fields), VRecord([VNil])) == Some([0x30, 0])
  {
    hide DecodeFields, EncodeFields, ReadTLV, EncodeTLV, Unmarshal;
    PresentEmptyOctets(fields);
    AbsentOctets(fields);
    ShortStruct(fields, []);
    ShortStruct(fields, [0xa0, 2, 4, 0]);
    assert [0x30, 0] + [] == [0x30, 0];
    assert EncodeValue(SStruct(fields), VRecord([VNil]), 0) == EncodeTLV(TAG_SEQUENCE, []);
    assert [0x30, 4] + [0xa0, 2, 4, 0] == [0x30, 4, 0xa0, 2, 4, 0];
  }

  lemma ShortStruct(fields: seq<Field>, content: bytes)
    requires |content| < 128
    ensures var d := DecodeFields(fields, content, 1);
            Unmarshal(SStruct(fields), [0x30, |content|] + content) == if d.Some? then Some(VRecord(d.value)) else None
    ensures EncodeTLV(TAG_SEQUENCE, content) == Some([0x30, |content|] + content)
  {
    hide DecodeFields, ReadTLV, EncodeFields, EncodeValue, Minimal;
    TLVShape(TAG_SEQUENCE, content);
    assert [0x30] + [|content|] + content == [0x30, |content|] + content;
    assert DecodeValue(SStruct(fields), [0x30, |content|] + content, 0) == DecodeBare(TAG_SEQUENCE, content, SStruct(fields), 0);
  }

  lemma PresentEmptyOctets(fields: seq<Field>)
    requires fields == [Field(0, true, SOctets)]
    ensures DecodeFields(fields, [0xa0, 2, 4, 0], 1) == Some([VNil])
  {
    var content: bytes := [0xa0, 2, 4, 0];
    assert ReadTLV(content) == Some(TLV(0xa0, [4, 0], 4)) by { assert content[2..4] == [4, 0]; }
    assert ReadTLV([4, 0]) == Some(TLV(4, [], 2));
    assert DecodeValue(SOctets, [4, 0], 2) == Some(VNil);
    assert content[4..] == [] && fields[1..] == [];
    assert DecodeFields(fields[1..], content[4..], 1) == Some([]);
    assert [VNil] + [] == [VNil];
  }

  lemma AbsentOctets(fields: seq<Field>)
    requires fields == [Field(0, true, SOctets)]
    ensures DecodeFields(fields, [], 1) == Some([VNil])
    ensures TypedFields(fields, [VNil]) && EncodeFields(fields, [VNil], 0) == Some([])
  {
    assert fields[1..] == [] && [VNil][1..] == [];
    assert DecodeFields(fields[1..], [], 1) == Some([]);
    assert [Zero(SOctets)] + [] == [VNil];
    assert SkipField(fields, [], 1) == Some([VNil]);
    assert EncodeFields(fields[1..], [VNil][1..], 0) == Some([]);
  }
}
