/** FILE credential caches. */
module Ccache {
  import opened Bytes
  import opened Wire
  import opened Credentials

  const VERSION: nat := 0x0504
  const MAX_INPUT: nat := 0x400_0000

  datatype Header = Header(timeOffset: int32, usec: int32)
  datatype Cache = Cache(header: Header, principal: Principal, credentials: seq<Credential>)

  predicate OkCache(c: Cache) { OkPrincipal(c.principal) && OkAll(OkCredential, c.credentials) }

  // ----- writing

  /** The field Write puts in the header. */
  function OffsetField(h: Header): (b: bytes)
    ensures |b| == 12
  {
    PutU16(1) + PutU16(8) + PutI32(h.timeOffset) + PutI32(h.usec)
  }

  function PutHeader(h: Header): (b: bytes) { PutU16(12) + OffsetField(h) }

  /** Write; None when it reports an error. */
  function Write(c: Cache): (r: Option<bytes>) {
    if OkCache(c) then
      Some(PutU16(VERSION) + PutHeader(c.header) + PutPrincipal(c.principal) + WriteAll(PutAnyCredential, c.credentials))
    else None
  }

  // ----- reading

  /** Credentials up to the end of the data. */
  function GetCredentials(d: bytes): (r: Option<seq<Credential>>)
    decreases |d|
  {
    if d == [] then Some([])
    else
      var (c, d1) :- GetCredential(d);
      CredentialConsumes(d);
      var cs :- GetCredentials(d1);
      Some([c] + cs)
  }

  /** parseHeader: any tags, of which 1 sets the time offset. */
  function GetHeader(d: bytes, h: Header): (r: Option<Header>)
    decreases |d|
  {
    if d == [] then Some(h)
    else
      var (tag, d1) :- U16(d);
      var (n, d2) :- U16(d1);
      var (v, d3) :- Take(d2, n);
      if tag == 1 then
        if |v| != 8 then None
        else
          BEBound(v[..4]); BEBound(v[4..]); Pow256Values();
          GetHeader(d3, Header(ToSigned(BE(v[..4])), ToSigned(BE(v[4..]))))
      else GetHeader(d3, h)
  }

  /** Read; None when it reports an error. */
  function Read(data: bytes): (r: Option<Cache>) {
    if |data| > MAX_INPUT then None
    else
      var (version, d1) :- U16(data);
      if version != VERSION then None
      else
        var (n, d2) :- U16(d1);
        var (fields, d3) :- Take(d2, n);
        var header :- GetHeader(fields, Header(0, 0));
        var (p, d4) :- GetPrincipal(d3);
        var cs :- GetCredentials(d4);
        Some(Cache(header, p, cs))
  }

  // ----- the round trip, both ways

  lemma {:induction false} CredentialsBack(cs: seq<Credential>)
    requires OkAll(OkCredential, cs)
    ensures GetCredentials(WriteAll(PutAnyCredential, cs)) == Some(cs)
    decreases |cs|
  {
    hide GetCredential, PutCredential, OkCredential;
    if cs != [] {
      var rest := WriteAll(PutAnyCredential, cs[1..]);
      OkHasEnctype(cs[0]);
      CredentialBack(cs[0], rest);
      CredentialConsumes(PutCredential(cs[0]) + rest);
      CredentialsBack(cs[1..]);
      assert [cs[0]] + cs[1..] == cs;
      assert WriteAll(PutAnyCredential, cs) == PutCredential(cs[0]) + rest;
    }
  }

  lemma OkHasEnctype(c: Credential)
    requires OkCredential(c)
    ensures OkEnctype(c.enctype)
  {
  }

  lemma {:induction false} CredentialsFront(d: bytes)
    ensures GetCredentials(d).Some? ==> OkAll(OkCredential, GetCredentials(d).value)
                                        && d == WriteAll(PutAnyCredential, GetCredentials(d).value)
    decreases |d|
  {
    hide GetCredential, PutCredential, OkCredential;
    if d != [] && GetCredentials(d).Some? {
      CredentialFront(d);
      CredentialConsumes(d);
      var (c, d1) := GetCredential(d).value;
      OkHasEnctype(c);
      CredentialsFront(d1);
      assert ([c] + GetCredentials(d1).value)[1..] == GetCredentials(d1).value;
    }
  }

  lemma HeaderBack(h: Header)
    ensures GetHeader(OffsetField(h), Header(0, 0)) == Some(h)
  {
    hide ToBE, BE, U16;
    var v := PutI32(h.timeOffset) + PutI32(h.usec);
    assert OffsetField(h) == PutU16(1) + (PutU16(8) + v);
    U16Back(1, PutU16(8) + v);
    U16Back(8, v);
    TakeBack(v, []);
    assert v + [] == v;
    I32Digits(h.timeOffset);
    I32Digits(h.usec);
    assert v[..4] == PutI32(h.timeOffset) && v[4..] == PutI32(h.usec);
    assert GetHeader([], h) == Some(h);
  }

  lemma I32Digits(v: int32)
    ensures BE(PutI32(v)) == ToUnsigned(v) && ToSigned(ToUnsigned(v)) == v
  {
    Pow256Values();
    BEOfToBE(ToUnsigned(v), 4);
  }

  /** The principal and the credentials of a cache. */
  function PutBody(c: Cache): (b: bytes) { PutPrincipal(c.principal) + WriteAll(PutAnyCredential, c.credentials) }

  /** A file with any header fields. */
  function File(fields: bytes, c: Cache): (b: bytes) requires |fields| < 0x10000 {
    PutU16(VERSION) + (PutU16(|fields|) + (fields + PutBody(c)))
  }

  lemma FileBack(fields: bytes, c: Cache, h: Header)
    requires OkCache(c) && |fields| < 0x10000 && GetHeader(fields, Header(0, 0)) == Some(h)
    ensures Read(File(fields, c)) == if |File(fields, c)| > MAX_INPUT then None else Some(c.(header := h))
  {
    hide ToBE, U16, GetHeader, GetPrincipal, PutPrincipal, GetCredentials, WriteAll, OkPrincipal, OkAll;
    var d2 := fields + PutBody(c);
    U16Back(VERSION, PutU16(|fields|) + d2);
    U16Back(|fields|, d2);
    TakeBack(fields, PutBody(c));
    PrincipalBack(c.principal, WriteAll(PutAnyCredential, c.credentials));
    CredentialsBack(c.credentials);
  }

  /** Every encodable cache reads back as itself, up to the reader's size limit:
      no count guard refuses what was written. */
  lemma CacheRoundTrip(c: Cache)
    ensures Write(c).Some? <==> OkCache(c)
    ensures Write(c).Some? ==> Read(Write(c).value) == if |Write(c).value| > MAX_INPUT then None else Some(c)
  {
    hide GetHeader, OffsetField, File, OkCache, Read;
    if OkCache(c) {
      WriteIsFile(c);
      HeaderBack(c.header);
      FileBack(OffsetField(c.header), c, c.header);
    }
  }

  /** A file that can be read is the file of the cache it gives, except for the
      header fields; writing that cache gives the file back exactly when the
      header is the one field Write uses. */
  lemma ReadIsCanonical(data: bytes) returns (fields: bytes)
    requires Read(data).Some?
    ensures |fields| < 0x10000 && data == File(fields, Read(data).value)
    ensures OkCache(Read(data).value) && GetHeader(fields, Header(0, 0)) == Some(Read(data).value.header)
    ensures Write(Read(data).value) == Some(data) <==> fields == OffsetField(Read(data).value.header)
  {
    hide ToBE, U16, Take, GetHeader, GetPrincipal, PutPrincipal, GetCredentials, WriteAll, OkPrincipal, OkAll, Write;
    var c := Read(data).value;
    U16Front(data);
    var d1 := U16(data).value.1;
    U16Front(d1);
    var (n, d2) := U16(d1).value;
    fields := Take(d2, n).value.0;
    var d3 := Take(d2, n).value.1;
    PrincipalFront(d3);
    CredentialsFront(GetPrincipal(d3).value.1);
    assert data == File(fields, c);
    WriteIsFile(c);
    if File(OffsetField(c.header), c) == data { FieldsOf(OffsetField(c.header), fields, c); }
  }

  lemma WriteIsFile(c: Cache)
    requires OkCache(c)
    ensures Write(c) == Some(File(OffsetField(c.header), c))
  {
    hide PutU16, OffsetField, PutPrincipal, WriteAll, OkCache;
    var v, n, f := PutU16(VERSION), PutU16(12), OffsetField(c.header);
    var p, cs := PutPrincipal(c.principal), WriteAll(PutAnyCredential, c.credentials);
    assert v + (n + f) + p + cs == v + (n + (f + (p + cs)));
  }

  lemma FieldsOf(a: bytes, b: bytes, c: Cache)
    requires |a| < 0x10000 && |b| < 0x10000 && File(a, c) == File(b, c)
    ensures a == b
  {
    hide ToBE, PutBody;
    assert |File(a, c)| == 4 + |a| + |PutBody(c)| && |File(b, c)| == 4 + |b| + |PutBody(c)|;
    assert File(a, c)[4..][..|a|] == a && File(b, c)[4..][..|b|] == b;
  }
}
