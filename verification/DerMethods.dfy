/** The loops of the DER codec, each proved to compute the function that
    specifies it. */
module DerMethods {
  import opened Bytes
  import opened DerTlv
  import opened Der

  // ----- lengths

  /** encodeLength: digits are written backwards into a four-byte buffer. */
  method EncodeLengthLoop(length: nat) returns (r: Option<bytes>)
    ensures r == EncodeLength(length)
  {
    if length < 128 {
      return Some([length]);
    }
    var buffer := new byte[4];
    var position := 4;
    var rest := length;
    Pow256Values();
    DigitsCount(length, 4);
    while rest != 0
      invariant 0 <= position <= 4
      invariant Digits(length) == Digits(rest) + buffer[position..]
    {
      if position == 0 {
        assert |Digits(length)| > 4;
        return None;   // index out of range
      }
      position := position - 1;
      buffer[position] := rest % 256;
      rest := rest / 256;
    }
    assert Digits(length) == buffer[position..];
    return Some([0x80 + (4 - position)] + buffer[position..]);
  }

  /** readLength. */
  method ReadLengthLoop(data: bytes) returns (r: Option<(nat, nat)>)
    ensures r == ReadLength(data)
  {
    if |data| == 0 { return None; }
    if data[0] < 128 { return Some((data[0], 1)); }
    var count := data[0] - 128;
    if count == 0 { return None; }
    if count > 4 || |data| < count + 1 || data[1] == 0 { return None; }
    var length: nat := 0;
    for i := 0 to count
      invariant length == BE(data[1..i + 1])
    {
      assert data[1..i + 2][..i] == data[1..i + 1];
      length := length * 256 + data[i + 1];
    }
    if length < 128 { return None; }
    return Some((length, count + 1));
  }

  // ----- INTEGER contents

  /** A leading byte that only repeats the sign does not change the value. */
  lemma RedundantByte(b: bytes)
    requires |b| >= 2
    requires (b[0] == 0 && b[1] < 128) || (b[0] == 255 && b[1] >= 128)
    ensures Signed(b) == Signed(b[1..])
  {
    HeadWeight(b);
  }

  /** Eight bytes hold the two's complement of an int64. */
  lemma SignedOfEight(b: bytes, n: int, high: int)
    requires |b| == 8 && Splits(n, high, b) && 0 - TWO63 <= n < TWO63
    ensures Signed(b) == n
  {
    Pow256Values();
    BEBound(b);
    SignedRange(b);
    assert high == 0 || high == -1;
  }

  /** The low bytes of value are tail and rest is what lies above them. */
  ghost predicate Splits(value: int, rest: int, tail: bytes) {
    value == rest * Pow256(|tail|) + BE(tail)
  }

  lemma Regroup(q: int, r: int, p: int)
    ensures (q * 256 + r) * p == q * (256 * p) + r * p
  {
  }

  lemma PrependDigit(value: int, rest: int, tail: bytes)
    requires Splits(value, rest, tail)
    ensures Splits(value, rest / 256, [rest % 256] + tail)
  {
    var b := [rest % 256] + tail;
    HeadWeight(b);
    assert b[1..] == tail;
    Regroup(rest / 256, rest % 256, Pow256(|tail|));
  }

  /** The loop both integer encoders start with: eight bytes, last one first. */
  method FillBuffer(value: int) returns (buffer: array<byte>, ghost high: int)
    ensures fresh(buffer) && buffer.Length == 8
    ensures Splits(value, high, buffer[..])
  {
    buffer := new byte[8];
    var rest := value;
    var i := 7;
    assert buffer[8..] == [];
    while i >= 0
      invariant -1 <= i <= 7
      invariant Splits(value, rest, buffer[i + 1..])
    {
      ghost var tail := buffer[i + 1..];
      buffer[i] := rest % 256;
      assert buffer[i..] == [rest % 256] + tail;
      PrependDigit(value, rest, tail);
      rest := rest / 256;
      i := i - 1;
    }
    assert buffer[0..] == buffer[..];
    high := rest;
  }

  /** encodeInteger. */
  method EncodeIntegerLoop(value: int) returns (out: bytes)
    requires 0 - TWO63 <= value < TWO63
    ensures out == IntBytes(value)
  {
    var buffer, high := FillBuffer(value);
    SignedOfEight(buffer[..], value, high);
    assert buffer[0..] == buffer[..];
    var start := 0;
    while start < 7
      invariant 0 <= start <= 7
      invariant Signed(buffer[start..]) == value
    {
      if (buffer[start] == 0 && buffer[start + 1] < 128) || (buffer[start] == 0xff && buffer[start + 1] >= 128) {
        RedundantByte(buffer[start..]);
        assert buffer[start..][1..] == buffer[start + 1..];
        start := start + 1;
      } else {
        break;
      }
    }
    assert Minimal(buffer[start..]);
    IntBytesUnique(buffer[start..]);
    out := buffer[start..];
  }

  lemma UnsignedOfEight(b: bytes, n: nat, high: int)
    requires |b| == 8 && Splits(n, high, b) && n < TWO64
    ensures BE(b) == n && (b[0] >= 128 <==> n >= TWO63)
  {
    Pow256Values();
    BEBound(b);
    SignedRange(b);
    assert high == 0;
  }

  lemma {:induction false} LeadingZeros(b: bytes, k: nat)
    requires k <= |b| && forall i | 0 <= i < k :: b[i] == 0
    ensures BE(b[k..]) == BE(b)
    decreases k
  {
    if k > 0 {
      HeadWeight(b);
      LeadingZeros(b[1..], k - 1);
      assert b[1..][k - 1..] == b[k..];
    } else {
      assert b[0..] == b;
    }
  }

  /** encodeUnsignedInteger: with the top bit of all eight bytes set there is no
      room for the sign byte and the index is out of range. */
  method EncodeUnsignedIntegerLoop(value: nat) returns (r: Option<bytes>)
    requires value < TWO64
    ensures r == if value < TWO63 then Some(IntBytes(value)) else None
  {
    var buffer, high := FillBuffer(value);
    ghost var all := buffer[..];
    UnsignedOfEight(all, value, high);
    var start := 0;
    while start < 7 && buffer[start] == 0
      invariant 0 <= start <= 7 && buffer[..] == all
      invariant forall j | 0 <= j < start :: all[j] == 0
    {
      start := start + 1;
    }
    if buffer[start] >= 128 {
      if start == 0 { return None; }
      start := start - 1;
      buffer[start] := 0;
      assert buffer[..] == all;
    }
    assert buffer[start..] == all[start..];
    LeadingZeros(all, start);
    IntBytesUnique(all[start..]);
    r := Some(buffer[start..]);
  }

  /** The int64 with the same low 64 bits. */
  function Wrap64(n: int): (r: int)
    ensures 0 - TWO63 <= r < TWO63
  {
    (n + TWO63) % TWO64 - TWO63
  }

  /** decodeInteger: bytes are shifted into an int64, which wraps at the eighth. */
  method DecodeIntegerLoop(data: bytes) returns (r: Option<int>)
    ensures r == DecodeInteger(data)
  {
    if |data| == 0 || |data| > 8 { return None; }
    if |data| > 1 && ((data[0] == 0 && data[1] < 128) || (data[0] == 0xff && data[1] >= 128)) { return None; }
    var value: int := 0;
    for i := 0 to |data|
      invariant value == Wrap64(BE(data[..i]))
    {
      assert data[..i + 1][..i] == data[..i];
      NoWrapYet(data[..i]);
      value := Wrap64(value * 256 + data[i]);
    }
    assert data[..|data|] == data;
    WrappedSigned(data);
    if data[0] >= 128 && |data| < 8 {
      value := value - Pow256(|data|);
    }
    return Some(value);
  }

  lemma NoWrapYet(b: bytes)
    requires |b| <= 7
    ensures Wrap64(BE(b)) == BE(b)
  {
    BEBound(b);
    Pow256Values();
    assert Pow256(3) == 256 * Pow256(2) && Pow256(5) == 256 * Pow256(4);
    assert Pow256(6) == 256 * Pow256(5) && Pow256(7) == 256 * Pow256(6);
  }

  lemma WrappedSigned(b: bytes)
    requires 1 <= |b| <= 8
    ensures Signed(b) == Wrap64(BE(b)) - if b[0] >= 128 && |b| < 8 then Pow256(|b|) else 0
  {
    if |b| == 8 {
      Pow256Values();
      BEBound(b);
      SignedRange(b);
    } else {
      NoWrapYet(b);
    }
  }

  /** decodeUnsignedInteger. */
  method DecodeUnsignedIntegerLoop(data: bytes) returns (r: Option<int>)
    ensures r == DecodeUnsignedInteger(data)
  {
    if |data| == 0 || |data| > 9 { return None; }
    if |data| > 1 && data[0] == 0 && data[1] < 128 { return None; }
    if data[0] >= 128 { return None; }
    if |data| > 5 || (|data| == 5 && data[0] != 0) { return None; }
    var value: int := 0;
    for i := 0 to |data|
      invariant value == BE(data[..i])
    {
      assert data[..i + 1][..i] == data[..i];
      value := value * 256 + data[i];
    }
    assert data[..|data|] == data;
    return Some(value);
  }

  // ----- SEQUENCE OF and SEQUENCE

  function Before<T>(done: seq<T>, rest: Option<seq<T>>): (r: Option<seq<T>>) {
    if rest.Some? then Some(done + rest.value) else None
  }

  lemma BeforeNothing<T>(rest: Option<seq<T>>)
    ensures Before([], rest) == rest
  {
    if rest.Some? { assert [] + rest.value == rest.value; }
  }

  lemma BeforeMore<T>(done: seq<T>, item: seq<T>, rest: Option<seq<T>>)
    ensures Before(done, Before(item, rest)) == Before(done + item, rest)
  {
    if rest.Some? { assert done + (item + rest.value) == (done + item) + rest.value; }
  }

  /** encodeValue over the loops below. */
  method EncodeValueRun(s: Schema, v: Value, depth: nat) returns (r: Option<bytes>)
    requires Typed(s, v)
    ensures r == EncodeValue(s, v, depth)
    decreases s, 1, 0
  {
    hide EncodeTLV, EncodeBare;
    if depth > MAX_DEPTH { return None; }
    match s {
      case SPtr(elem) =>
        if v.VNil? { return None; }
        r := EncodeValueRun(elem, v.target, depth + 1);
      case SApp(tag, body) =>
        var inner := EncodeBareRun(body, v, depth + 1);
        if inner.None? || tag > 30 { return None; }
        r := EncodeTLV(0x60 + tag, inner.value);
      case _ => r := EncodeBareRun(s, v, depth);
    }
  }

  method EncodeBareRun(s: Schema, v: Value, depth: nat) returns (r: Option<bytes>)
    requires Typed(s, v)
    ensures r == EncodeBare(s, v, depth)
    decreases s, 0, 0
  {
    hide EncodeTLV, EncodeItems, EncodeFields, IntBytes;
    if depth > MAX_DEPTH { return None; }
    match s {
      case SInt(w) =>
        var content := EncodeIntegerLoop(v.n);
        r := EncodeTLV(TAG_INTEGER, content);
      case SUint(w) =>
        var content := EncodeUnsignedIntegerLoop(v.n);
        if content.None? { return None; }
        r := EncodeTLV(TAG_INTEGER, content.value);
      case SSeqOf(elem) =>
        var content := EncodeItemsLoop(elem, if v.VNil? then [] else v.items, depth);
        if content.None? { return None; }
        r := EncodeTLV(TAG_SEQUENCE, content.value);
      case SStruct(fields) =>
        var content := EncodeFieldsLoop(fields, v.values, depth);
        if content.None? { return None; }
        r := EncodeTLV(TAG_SEQUENCE, content.value);
      case _ => r := EncodeBare(s, v, depth);
    }
  }

  method EncodeItemsLoop(elem: Schema, items: seq<Value>, depth: nat) returns (r: Option<bytes>)
    requires forall x | x in items :: Typed(elem, x)
    ensures r == EncodeItems(elem, items, depth)
    decreases elem, 2, 0
  {
    hide EncodeTLV, EncodeValue, Typed;
    var content: bytes := [];
    assert items[0..] == items;
    BeforeNothing(EncodeItems(elem, items, depth));
    for i := 0 to |items|
      invariant EncodeItems(elem, items, depth) == Before(content, EncodeItems(elem, items[i..], depth))
    {
      assert items[i..][1..] == items[i + 1..];
      var item := EncodeValueRun(elem, items[i], depth + 1);
      if item.None? { return None; }
      BeforeMore(content, item.value, EncodeItems(elem, items[i + 1..], depth));
      content := content + item.value;
    }
    assert content + [] == content;
    return Some(content);
  }

  /** encodeStruct. */
  method EncodeFieldsLoop(fields: seq<Field>, values: seq<Value>, depth: nat) returns (r: Option<bytes>)
    requires TypedFields(fields, values)
    ensures r == EncodeFields(fields, values, depth)
    decreases fields, 2, 0
  {
    hide EncodeTLV, EncodeValue, Typed;
    var content: bytes := [];
    assert fields[0..] == fields && values[0..] == values;
    BeforeNothing(EncodeFields(fields, values, depth));
    for i := 0 to |fields|
      invariant TypedFields(fields[i..], values[i..])
      invariant EncodeFields(fields, values, depth) == Before(content, EncodeFields(fields[i..], values[i..], depth))
    {
      var f := fields[i];
      assert (fields decreases to f) && f.schema < f;
      assert fields[i..][1..] == fields[i + 1..] && values[i..][1..] == values[i + 1..];
      if f.number > 30 { return None; }
      if f.optional && values[i].VNil? { continue; }
      var inner := EncodeValueRun(f.schema, values[i], depth + 1);
      if inner.None? { return None; }
      var element := EncodeTLV(0xa0 + f.number, inner.value);
      if element.None? { return None; }
      BeforeMore(content, element.value, EncodeFields(fields[i + 1..], values[i + 1..], depth));
      content := content + element.value;
    }
    assert content + [] == content;
    return Some(content);
  }

  /** decodeValue over the loops below. */
  method DecodeValueRun(s: Schema, data: bytes, depth: nat) returns (r: Option<Value>)
    ensures r == DecodeValue(s, data, depth)
    decreases s, 1, 0
  {
    hide ReadTLV, DecodeBare;
    if depth > MAX_DEPTH { return None; }
    var t := ReadTLV(data);
    if t.None? || t.value.end != |data| { return None; }
    match s {
      case SPtr(elem) =>
        var target := DecodeValueRun(elem, data, depth + 1);
        if target.None? { return None; }
        r := Some(VRef(target.value));
      case SApp(tag, body) =>
        if t.value.tag != 0x60 + tag { return None; }
        var inner := ReadTLV(t.value.content);
        if inner.None? || inner.value.tag != TAG_SEQUENCE || inner.value.end != |t.value.content| { return None; }
        r := DecodeBareRun(inner.value.tag, inner.value.content, body, depth + 1);
      case _ => r := DecodeBareRun(t.value.tag, t.value.content, s, depth);
    }
  }

  method DecodeBareRun(tag: byte, content: bytes, s: Schema, depth: nat) returns (r: Option<Value>)
    ensures r == DecodeBare(tag, content, s, depth)
    decreases s, 0, 0
  {
    hide DecodeItems, DecodeFields, DecodeInteger, DecodeUnsignedInteger;
    if depth > MAX_DEPTH { return None; }
    match s {
      case SSeqOf(elem) =>
        if tag != TAG_SEQUENCE { return None; }
        var items := DecodeItemsLoop(elem, content, depth);
        if items.None? { return None; }
        r := Some(VItems(items.value));
      case SStruct(fields) =>
        if tag != TAG_SEQUENCE { return None; }
        var values := DecodeFieldsLoop(fields, content, depth + 1);
        if values.None? { return None; }
        r := Some(VRecord(values.value));
      case _ => r := DecodeBare(tag, content, s, depth);
    }
  }

  method DecodeItemsLoop(elem: Schema, content: bytes, depth: nat) returns (r: Option<seq<Value>>)
    ensures r == DecodeItems(elem, content, depth)
    decreases elem, 2, 0
  {
    hide ReadTLV, DecodeValue;
    var items: seq<Value> := [];
    var rest := content;
    BeforeNothing(DecodeItems(elem, content, depth));
    while rest != []
      invariant DecodeItems(elem, content, depth) == Before(items, DecodeItems(elem, rest, depth))
      decreases |rest|
    {
      var t := ReadTLV(rest);
      if t.None? { return None; }
      var item := DecodeValueRun(elem, rest[..t.value.end], depth + 1);
      if item.None? { return None; }
      BeforeMore(items, [item.value], DecodeItems(elem, rest[t.value.end..], depth));
      items := items + [item.value];
      rest := rest[t.value.end..];
    }
    assert items + [] == items;
    return Some(items);
  }

  /** decodeStruct: a position moves through the content. */
  method DecodeFieldsLoop(fields: seq<Field>, content: bytes, depth: nat) returns (r: Option<seq<Value>>)
    ensures r == DecodeFields(fields, content, depth)
    decreases fields, 2, 0
  {
    hide ReadTLV, DecodeValue, Zero;
    var values: seq<Value> := [];
    var position := 0;
    assert fields[0..] == fields && content[0..] == content;
    BeforeNothing(DecodeFields(fields, content, depth));
    for i := 0 to |fields|
      invariant 0 <= position <= |content|
      invariant DecodeFields(fields, content, depth)
             == Before(values, DecodeFields(fields[i..], content[position..], depth))
    {
      var f := fields[i];
      assert (fields decreases to f) && f.schema < f;
      assert fields[i..][1..] == fields[i + 1..];
      if f.number > 30 { return None; }
      if position == |content| {
        if !f.optional { return None; }
        BeforeMore(values, [Zero(f.schema)], DecodeFields(fields[i + 1..], content[position..], depth));
        values := values + [Zero(f.schema)];
        continue;
      }
      var t := ReadTLV(content[position..]);
      if t.None? { return None; }
      if t.value.tag != 0xa0 + f.number {
        if !(f.optional && t.value.tag > 0xa0 + f.number) { return None; }
        BeforeMore(values, [Zero(f.schema)], DecodeFields(fields[i + 1..], content[position..], depth));
        values := values + [Zero(f.schema)];
        continue;
      }
      var v := DecodeValueRun(f.schema, t.value.content, depth + 1);
      if v.None? { return None; }
      assert content[position..][t.value.end..] == content[position + t.value.end..];
      position := position + t.value.end;
      BeforeMore(values, [v.value], DecodeFields(fields[i + 1..], content[position..], depth));
      values := values + [v.value];
    }
    assert values + [] == values;
    if position != |content| { return None; }
    return Some(values);
  }
}
