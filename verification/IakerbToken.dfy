/** The framing of GSS initial tokens and of IAKERB proxy tokens. */
module IakerbToken {
  import opened Bytes
  import opened DerTlv
  import opened Der
  import opened DerTheorems

  // ----- the outer frame

  /** appendDERLength: two bytes at most, so that longer lengths are truncated. */
  function AppendLength(content: bytes): (b: bytes) {
    var n := |content|;
    if n < 128 then [n] + content
    else if n < 256 then [0x81, n] + content
    else [0x82, n / 256 % 256, n % 256] + content
  }

  function Frame(content: bytes): (token: bytes) { [0x60] + AppendLength(content) }

  /** derLength: how many bytes a length takes. */
  function LengthSize(d: bytes): (r: Option<nat>)
    ensures r.Some? ==> 1 <= r.value <= |d| && r.value <= 3
  {
    if d == [] then None
    else if d[0] < 128 then Some(1)
    else
      var n := d[0] - 128;
      if n == 0 || n > 2 || |d| < n + 1 then None else Some(n + 1)
  }

  /** derLengthValue. */
  function LengthValue(d: bytes): (n: nat)
    requires LengthSize(d).Some?
  {
    if d[0] < 128 then d[0] else BE(d[1..d[0] - 127])
  }

  function Unframe(token: bytes): (r: Option<bytes>) {
    if |token| < 2 || token[0] != 0x60 then None
    else
      var size :- LengthSize(token[1..]);
      if LengthValue(token[1..]) != |token| - (1 + size) then None else Some(token[1 + size..])
  }

  lemma TwoDigits(hi: byte, lo: byte)
    ensures BE([hi, lo]) == hi * 256 + lo && BE([lo]) == lo
  {
    assert [hi, lo][..1] == [hi] && [hi][..0] == [] && [lo][..0] == [];
    assert BE([hi]) == hi;
  }

  /** A frame is taken off again exactly when its content is shorter than 65536
      bytes. */
  lemma FrameBack(content: bytes)
    ensures Unframe(Frame(content)) == if |content| < 0x1_0000 then Some(content) else None
  {
    var n := |content|;
    var token := Frame(content);
    var d := token[1..];
    assert d == AppendLength(content);
    if n < 128 {
      assert token[2..] == content;
    } else if n < 256 {
      TwoDigits(0, n);
      assert d[1..2] == [n];
      assert token[3..] == content;
    } else {
      var hi, lo: byte := n / 256 % 256, n % 256;
      TwoDigits(hi, lo);
      assert d[1..3] == [hi, lo];
      assert token[4..] == content;
      assert hi * 256 + lo == n <==> n < 0x1_0000;
    }
  }

  // ----- proxy tokens

  const IAKERB_OID: bytes := [0x06, 0x06, 0x2b, 0x06, 0x01, 0x05, 0x02, 0x05]
  const KERBEROS_OID: bytes := [0x06, 0x09, 0x2a, 0x86, 0x48, 0x86, 0xf7, 0x12, 0x01, 0x02, 0x02]
  const PROXY_ID: bytes := [0x05, 0x01]
  const AP_REQ_ID: bytes := [0x01, 0x00]

  datatype Header = Header(realm: bytes, cookie: bytes)

  const REALM_FIELD := Field(1, false, SUtf8)
  const COOKIE_FIELD := Field(2, true, SOctets)
  const HEADER_SCHEMA := SStruct([REALM_FIELD, COOKIE_FIELD])

  /** An empty cookie is not transmitted. */
  function HeaderValue(h: Header): (v: Value) { VRecord([VStr(h.realm), if h.cookie == [] then VNil else VOctets(h.cookie)]) }

  function HeaderOf(v: Value): (h: Header)
    requires Typed(HEADER_SCHEMA, v)
  {
    HeaderTyped(v);
    Header(v.values[0].s, if v.values[1].VNil? then [] else v.values[1].o)
  }

  lemma HeaderTyped(v: Value)
    requires Typed(HEADER_SCHEMA, v)
    ensures v.VRecord? && |v.values| == 2 && v.values[0].VStr? && (v.values[1].VNil? || v.values[1].VOctets?)
  {
    var fields := [REALM_FIELD, COOKIE_FIELD];
    assert TypedFields(fields, v.values);
    assert fields[1..] == [COOKIE_FIELD] && TypedFields(fields[1..], v.values[1..]);
    assert fields[1..][1..] == [] && TypedFields(fields[1..][1..], v.values[1..][1..]);
    assert fields[0].schema == SUtf8 && Typed(SUtf8, v.values[0]);
    assert fields[1..][0].schema == SOctets && Typed(SOctets, v.values[1..][0]) && v.values[1..][0] == v.values[1];
  }

  lemma ValueTyped(h: Header)
    ensures Typed(HEADER_SCHEMA, HeaderValue(h)) && WellFormed(HEADER_SCHEMA)
    ensures HeaderOf(HeaderValue(h)) == h
  {
    var fields, values := [REALM_FIELD, COOKIE_FIELD], HeaderValue(h).values;
    assert fields[1..] == [COOKIE_FIELD] && fields[1..][1..] == [];
    assert values[1..] == [values[1]] && values[1..][1..] == [];
    assert TypedFields([], []) && WellFormedFields([]);
    assert TypedFields(fields[1..], values[1..]) && WellFormedFields(fields[1..]);
  }

  function MarshalHeader(h: Header): (r: Option<bytes>) {
    ValueTyped(h);
    Marshal(HEADER_SCHEMA, HeaderValue(h))
  }

  function ParseHeader(d: bytes): (r: Option<Header>) {
    var v :- Unmarshal(HEADER_SCHEMA, d);
    HeaderDecodes(d);
    Some(HeaderOf(v))
  }

  lemma HeaderDecodes(d: bytes)
    ensures Unmarshal(HEADER_SCHEMA, d).Some? ==> Typed(HEADER_SCHEMA, Unmarshal(HEADER_SCHEMA, d).value)
  {
    ValueTyped(Header([], []));
    if Unmarshal(HEADER_SCHEMA, d).Some? { DecodedTyped(HEADER_SCHEMA, d, 0); }
  }

  /** A header reads back as itself. */
  lemma HeaderBack(h: Header)
    requires MarshalHeader(h).Some?
    ensures ParseHeader(MarshalHeader(h).value) == Some(h)
  {
    ValueTyped(h);
    HeaderAccepted(h);
    RoundTrip(HEADER_SCHEMA, HeaderValue(h));
  }

  lemma HeaderAccepted(h: Header)
    requires Typed(HEADER_SCHEMA, HeaderValue(h))
    ensures Accepted(HEADER_SCHEMA, HeaderValue(h), 0) && Norm(HEADER_SCHEMA, HeaderValue(h)) == HeaderValue(h)
  {
    var fields, values := [REALM_FIELD, COOKIE_FIELD], HeaderValue(h).values;
    assert fields[1..] == [COOKIE_FIELD] && fields[1..][1..] == [];
    assert values[1..] == [values[1]] && values[1..][1..] == [];
    assert Typed(SUtf8, values[0]) && Typed(SOctets, values[1]);
    assert Accepted(SUtf8, values[0], 2) && Accepted(SOctets, values[1], 2);
    assert AcceptedFields(fields[1..][1..], values[1..][1..], 1);
    assert AcceptedFields(fields[1..], values[1..], 1);
    assert AcceptedFields(fields, values, 1);
    assert Norm(SUtf8, values[0]) == values[0] && Norm(SOctets, values[1]) == values[1];
    assert NormFields(fields[1..][1..], values[1..][1..]) == [];
    assert NormFields(fields[1..], values[1..]) == [values[1]];
    assert NormFields(fields, values) == values;
  }

  /** BuildIAKERBProxyToken. */
  function Build(h: Header, request: bytes): (r: Option<bytes>) {
    var header :- MarshalHeader(h);
    Some(Frame(IAKERB_OID + PROXY_ID + (header + request)))
  }

  function ParseBody(body: bytes): (r: Option<(Header, bytes)>) {
    if |body| < 2 || body[0] != TAG_SEQUENCE then None
    else
      var n :- LengthSize(body[1..]);
      var size := 1 + n + LengthValue(body[1..]);
      if size > |body| then None
      else
        var h :- ParseHeader(body[..size]);
        Some((h, body[size..]))
  }

  /** parseIAKERBProxyToken. */
  function Parse(token: bytes): (r: Option<(Header, bytes)>) {
    var content :- Unframe(token);
    if |content| < 10 || content[..8] != IAKERB_OID || content[8..10] != PROXY_ID then None
    else ParseBody(content[10..])
  }

  lemma LengthsAgree(d: bytes)
    requires ReadLength(d).Some? && ReadLength(d).value.1 <= 3
    ensures LengthSize(d) == Some(ReadLength(d).value.1) && LengthValue(d) == ReadLength(d).value.0
  {
  }

  lemma ShortLength(n: nat)
    requires n < 0x1_0000
    ensures EncodeLength(n).Some? && |EncodeLength(n).value| <= 3
  {
    DigitsCount(n, 2);
    Pow256Values();
  }

  /** A header is one SEQUENCE. */
  lemma HeaderShape(h: Header)
    requires MarshalHeader(h).Some?
    ensures exists content: bytes {:trigger EncodeTLV(TAG_SEQUENCE, content)} :: MarshalHeader(h) == EncodeTLV(TAG_SEQUENCE, content)
  {
    ValueTyped(h);
    var fields := [REALM_FIELD, COOKIE_FIELD];
    assert EncodeValue(HEADER_SCHEMA, HeaderValue(h), 0) == EncodeBare(HEADER_SCHEMA, HeaderValue(h), 0);
    var inner := EncodeFields(fields, HeaderValue(h).values, 0);
    assert inner.Some?;
    assert MarshalHeader(h) == EncodeTLV(TAG_SEQUENCE, inner.value);
  }

  lemma BodyBack(h: Header, request: bytes)
    requires MarshalHeader(h).Some? && |MarshalHeader(h).value| < 0x1_0000
    ensures ParseBody(MarshalHeader(h).value + request) == Some((h, request))
  {
    hide ParseHeader, MarshalHeader, LengthSize, LengthValue, EncodeLength, ReadLength;
    HeaderShape(h);
    var c: bytes :| MarshalHeader(h) == EncodeTLV(TAG_SEQUENCE, c);
    var header := MarshalHeader(h).value;
    var length := EncodeLength(|c|).value;
    var body := header + request;
    assert header == [TAG_SEQUENCE] + length + c;
    assert body[1..] == length + (c + request);
    ShortLength(|c|);
    ReadsEncodedLength(|c|, c + request);
    LengthsAgree(body[1..]);
    assert body[..|header|] == header && body[|header|..] == request;
    HeaderBack(h);
  }

  /** A proxy token reads back as what it was built from, unless it is too long
      to frame. */
  lemma TokenBack(h: Header, request: bytes)
    requires Build(h, request).Some?
    ensures Parse(Build(h, request).value)
         == if 10 + |MarshalHeader(h).value + request| < 0x1_0000 then Some((h, request)) else None
  {
    hide MarshalHeader, ParseBody, Frame, Unframe;
    var header := MarshalHeader(h).value;
    var content := IAKERB_OID + PROXY_ID + (header + request);
    FrameBack(content);
    if |content| < 0x1_0000 {
      assert content[..8] == IAKERB_OID && content[8..10] == PROXY_ID && content[10..] == header + request;
      BodyBack(h, request);
    }
  }

  // ----- AP tokens

  function ApToken(inner: bytes): (token: bytes) { Frame(KERBEROS_OID + AP_REQ_ID + inner) }

  /** unframeToken for an AP-REQ. */
  function OpenAp(token: bytes): (r: Option<bytes>) {
    var content :- Unframe(token);
    if |content| < 13 || content[..11] != KERBEROS_OID || content[11..13] != AP_REQ_ID then None else Some(content[13..])
  }

  /** What unframeToken does: it returns, reports an error, or slices past the
      end. The last can happen because the token identifier is compared without
      looking at the length; what it is compared with then depends on the memory
      after the token, as far as its capacity goes. */
  datatype Unframed = Inner(value: bytes) | NotFramed | OutOfRange

  function UnframeAp(token: bytes, spare: bytes): (r: Unframed) {
    match Unframe(token)
    case None => NotFramed
    case Some(content) =>
      if |content| < 11 || content[..11] != KERBEROS_OID then NotFramed
      else
        var rest := content[11..];
        var memory := rest + spare;
        if |memory| < 2 then OutOfRange
        else if memory[..2] != AP_REQ_ID then NotFramed
        else if |rest| < 2 then OutOfRange
        else Inner(rest[2..])
  }

  /** It is out of range exactly for a content that is the mechanism with at most
      one octet after it, unless the memory after the token happens to give
      another identifier; otherwise it does not depend on that memory. */
  lemma UnframeExact(token: bytes, spare: bytes)
    ensures UnframeAp(token, spare) == OutOfRange
       <==> && Unframe(token).Some?
            && var content := Unframe(token).value;
               && 11 <= |content| < 13 && content[..11] == KERBEROS_OID
               && (|content| + |spare| < 13 || (content + spare)[11..13] == AP_REQ_ID)
    ensures UnframeAp(token, spare) != OutOfRange ==>
              UnframeAp(token, spare) == match OpenAp(token) case None => NotFramed case Some(inner) => Inner(inner)
  {
    hide Unframe;
    if Unframe(token).Some? && |Unframe(token).value| >= 11 {
      var content := Unframe(token).value;
      var memory := content[11..] + spare;
      if |memory| >= 2 { assert memory[..2] == (content + spare)[11..13]; }
      if |content| >= 13 {
        assert memory[..2] == content[11..13];
        assert content[11..][2..] == content[13..];
      }
    }
  }

  /** The shortest such token is the bare mechanism. */
  lemma BareMechanism()
    ensures UnframeAp(Frame(KERBEROS_OID), []) == OutOfRange
  {
    hide Frame, Unframe;
    FrameBack(KERBEROS_OID);
    UnframeExact(Frame(KERBEROS_OID), []);
  }

  lemma ApBack(inner: bytes)
    ensures OpenAp(ApToken(inner)) == if 13 + |inner| < 0x1_0000 then Some(inner) else None
  {
    hide Frame, Unframe;
    var content := KERBEROS_OID + AP_REQ_ID + inner;
    FrameBack(content);
    assert content[..11] == KERBEROS_OID && content[11..13] == AP_REQ_ID && content[13..] == inner;
  }

  /** Neither kind is taken for the other. */
  lemma KindsDiffer(token: bytes)
    ensures !(Parse(token).Some? && OpenAp(token).Some?)
  {
    hide ParseBody, Unframe;
    if Unframe(token).Some? && |Unframe(token).value| >= 11 {
      var content := Unframe(token).value;
      assert content[..8] == IAKERB_OID ==> content[1] == 0x06;
      assert content[..11] == KERBEROS_OID ==> content[1] == 0x09;
    }
  }

  /** A proxy token is never an AP token, however long. */
  lemma BuiltIsNotAp(h: Header, request: bytes)
    requires Build(h, request).Some?
    ensures OpenAp(Build(h, request).value).None?
  {
    hide MarshalHeader, Frame, Unframe;
    var content := IAKERB_OID + PROXY_ID + (MarshalHeader(h).value + request);
    FrameBack(content);
    assert KERBEROS_OID[1] == 0x09 && content[1] == 0x06;
    assert |content| >= 11 ==> content[..11][1] == 0x06;
  }
}
