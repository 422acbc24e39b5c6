/** Credential records as they are stored in FILE caches and sent to KCM. */
module Credentials {
  import opened Arithmetic
  import opened Bytes
  import opened Wire

  datatype Principal = Principal(realm: bytes, nameType: int32, components: seq<bytes>)

  /** An address or an authorization data element. */
  datatype Tagged = Tagged(typ: uint16, data: bytes)

  datatype Credential = Credential(client: Principal, server: Principal, enctype: int32, key: bytes, flags: uint32,
                                   times: Times, isSKey: bool, addresses: seq<Tagged>, authData: seq<Tagged>,
                                   ticket: bytes, secondTicket: bytes)
  datatype Times = Times(auth: uint32, start: uint32, end: uint32, renewTill: uint32)

  // ----- what can be encoded

  predicate Fits<T>(xs: seq<T>) { |xs| < TWO32 }
  predicate OkPrincipal(p: Principal) { Fits(p.realm) && Fits(p.components) && OkAll(Fits<byte>, p.components) }
  predicate OkTagged(t: Tagged) { Fits(t.data) }
  predicate OkList(ts: seq<Tagged>) { Fits(ts) && OkAll(OkTagged, ts) }
  predicate OkEnctype(e: int32) { 0 <= e <= 0xffff }
  predicate OkCredential(c: Credential) {
    && OkPrincipal(c.client) && OkPrincipal(c.server) && OkEnctype(c.enctype) && Fits(c.key)
    && OkList(c.addresses) && OkList(c.authData) && Fits(c.ticket) && Fits(c.secondTicket)
  }
  // ----- writing

  function PutU16(v: uint16): (b: bytes) ensures |b| == 2 { ToBE(v, 2) }
  function PutU32(v: nat): (b: bytes) ensures |b| == 4 { ToBE(v, 4) }
  function PutI32(v: int32): (b: bytes) ensures |b| == 4 { ToBE(ToUnsigned(v), 4) }
  function PutCounted(v: bytes): (b: bytes) ensures |b| >= 4 { PutU32(|v|) + v }

  function PutPrincipal(p: Principal): (b: bytes) {
    PutI32(p.nameType) + PutU32(|p.components|) + PutCounted(p.realm) + WriteAll(PutCounted, p.components)
  }

  function PutTagged(t: Tagged): (b: bytes) ensures |b| >= 6 { PutU16(t.typ) + PutCounted(t.data) }
  function PutList(ts: seq<Tagged>): (b: bytes) { PutU32(|ts|) + WriteAll(PutTagged, ts) }
  function PutKey(enctype: uint16, key: bytes): (b: bytes) { PutU16(enctype) + PutCounted(key) }
  function PutTimes(t: Times): (b: bytes) { PutU32(t.auth) + PutU32(t.start) + PutU32(t.end) + PutU32(t.renewTill) }

  /** The times, the is_skey octet and the ticket flags. */
  function PutFixed(t: Times, isSKey: bool, flags: uint32): (b: bytes) {
    PutTimes(t) + [if isSKey then 1 else 0] + PutU32(flags)
  }

  function PutCredential(c: Credential): (b: bytes)
    requires OkEnctype(c.enctype)
  {
    PutPrincipal(c.client) + PutPrincipal(c.server) + PutKey(c.enctype, c.key) + PutFixed(c.times, c.isSKey, c.flags)
      + PutList(c.addresses) + PutList(c.authData) + PutCounted(c.ticket) + PutCounted(c.secondTicket)
  }

  /** The same as a total function. */
  function PutAnyCredential(c: Credential): (b: bytes) {
    if OkEnctype(c.enctype) then PutCredential(c) else []
  }

  // ----- reading

  function GetI32(d: bytes): (r: Option<(int32, bytes)>) {
    var (v, d1) :- U32(d);
    Some((ToSigned(v), d1))
  }

  function GetCounted(d: bytes): (r: Option<(bytes, bytes)>) {
    var (n, d1) :- U32(d);
    Take(d1, n)
  }

  /** Refuses a count for which the rest cannot be long enough. */
  function GetMany<T>(p: bytes -> Option<(T, bytes)>, least: nat, n: nat, d: bytes): (r: Option<(seq<T>, bytes)>)
    requires least > 0
  {
    if n > |d| / least then None else ReadMany(p, n, d)
  }

  function GetPrincipal(d: bytes): (r: Option<(Principal, bytes)>) {
    var (nameType, d1) :- GetI32(d);
    var (count, d2) :- U32(d1);
    var (realm, d3) :- GetCounted(d2);
    var (components, d4) :- GetMany(GetCounted, 4, count, d3);
    Some((Principal(realm, nameType, components), d4))
  }

  function GetTagged(d: bytes): (r: Option<(Tagged, bytes)>) {
    var (t, d1) :- U16(d);
    var (v, d2) :- GetCounted(d1);
    Some((Tagged(t, v), d2))
  }

  function GetList(d: bytes): (r: Option<(seq<Tagged>, bytes)>) {
    var (count, d1) :- U32(d);
    GetMany(GetTagged, 6, count, d1)
  }

  function GetKey(d: bytes): (r: Option<((uint16, bytes), bytes)>) {
    var (e, d1) :- U16(d);
    var (k, d2) :- GetCounted(d1);
    Some(((e, k), d2))
  }

  function GetTimes(d: bytes): (r: Option<(Times, bytes)>) {
    var (a, d1) :- U32(d);
    var (s, d2) :- U32(d1);
    var (e, d3) :- U32(d2);
    var (t, d4) :- U32(d3);
    Some((Times(a, s, e, t), d4))
  }

  function GetFixed(d: bytes): (r: Option<((Times, bool, uint32), bytes)>) {
    var (t, d1) :- GetTimes(d);
    var (skey, d2) :- U8(d1);
    if skey > 1 then None
    else
      var (flags, d3) :- U32(d2);
      Some(((t, skey != 0, flags), d3))
  }

  function GetCredential(d: bytes): (r: Option<(Credential, bytes)>) {
    var (client, d1) :- GetPrincipal(d);
    var (server, d2) :- GetPrincipal(d1);
    var ((enctype, key), d3) :- GetKey(d2);
    var ((times, isSKey, flags), d4) :- GetFixed(d3);
    var (addresses, d5) :- GetList(d4);
    var (authData, d6) :- GetList(d5);
    var (ticket, d7) :- GetCounted(d6);
    var (second, d8) :- GetCounted(d7);
    Some((Credential(client, server, enctype, key, flags, times, isSKey, addresses, authData, ticket, second), d8))
  }

  // ----- reading what was written, and writing what was read

  /** The parser reads back exactly what the writer wrote, and accepts nothing
      else. */
  ghost predicate Exact<T(!new)>(w: T -> bytes, p: bytes -> Option<(T, bytes)>, dom: T -> bool) {
    && Law(w, p, dom, Any, Id)
    && forall d: bytes :: p(d).Some? ==> dom(p(d).value.0) && d == w(p(d).value.0) + p(d).value.1
  }

  lemma U16Front(d: bytes)
    ensures U16(d).Some? ==> d == PutU16(U16(d).value.0) + U16(d).value.1
  {
    if U16(d).Some? {
      ToBEOfBE(d[..2]);
      assert d == d[..2] + d[2..];
    }
  }

  lemma U32Front(d: bytes)
    ensures U32(d).Some? ==> d == PutU32(U32(d).value.0) + U32(d).value.1
  {
    if U32(d).Some? {
      ToBEOfBE(d[..4]);
      assert d == d[..4] + d[4..];
    }
  }

  lemma I32Back(v: int32, rest: bytes)
    ensures GetI32(PutI32(v) + rest) == Some((v, rest))
  {
    U32Back(ToUnsigned(v), rest);
    SignedBack(v);
  }

  lemma I32Front(d: bytes)
    ensures GetI32(d).Some? ==> d == PutI32(GetI32(d).value.0) + GetI32(d).value.1
  {
    U32Front(d);
  }

  lemma CountedBack(v: bytes, rest: bytes)
    requires Fits(v)
    ensures GetCounted(PutCounted(v) + rest) == Some((v, rest))
  {
    assert PutCounted(v) + rest == PutU32(|v|) + (v + rest);
    U32Back(|v|, v + rest);
    TakeBack(v, rest);
  }

  lemma CountedFront(d: bytes)
    ensures GetCounted(d).Some? ==> Fits(GetCounted(d).value.0) && d == PutCounted(GetCounted(d).value.0) + GetCounted(d).value.1
  {
    hide ToBE;
    U32Front(d);
    if GetCounted(d).Some? {
      var (v, rest) := GetCounted(d).value;
      assert PutCounted(v) + rest == PutU32(|v|) + (v + rest);
    }
  }

  lemma CountedExact()
    ensures Exact(PutCounted, GetCounted, Fits<byte>)
  {
    hide PutCounted, GetCounted;
    forall v: bytes, rest: bytes | Fits(v)
      ensures GetCounted(PutCounted(v) + rest) == Some((v, rest))
    {
      CountedBack(v, rest);
    }
    forall d: bytes
      ensures GetCounted(d).Some? ==> Fits(GetCounted(d).value.0) && d == PutCounted(GetCounted(d).value.0) + GetCounted(d).value.1
    {
      CountedFront(d);
    }
  }

  /** A written list is never refused for its count: its items alone are long
      enough. */
  lemma {:induction false} AtLeast<T(!new)>(w: T -> bytes, least: nat, xs: seq<T>)
    requires forall x: T :: |w(x)| >= least
    ensures |WriteAll(w, xs)| >= least * |xs|
    decreases |xs|
  {
    if xs != [] {
      AtLeast(w, least, xs[1..]);
      assert |w(xs[0])| >= least;
    }
  }

  lemma ManyBackGuarded<T(!new)>(w: T -> bytes, p: bytes -> Option<(T, bytes)>, dom: T -> bool, least: nat, xs: seq<T>, rest: bytes)
    requires Law(w, p, dom, Any, Id) && OkAll(dom, xs) && least > 0 && forall x: T :: |w(x)| >= least
    ensures GetMany(p, least, |xs|, WriteAll(w, xs) + rest) == Some((xs, rest))
  {
    ManyBack(w, p, dom, Any, Id, xs, rest);
    NormAllId(xs);
    OkAllAny(xs);
    AtLeast(w, least, xs);
    DivideLeast(|xs|, least, |WriteAll(w, xs) + rest|);
  }

  lemma {:induction false} ManyFront<T(!new)>(w: T -> bytes, p: bytes -> Option<(T, bytes)>, dom: T -> bool, n: nat, d: bytes)
    requires Exact(w, p, dom) && ReadMany(p, n, d).Some?
    ensures var (xs, rest) := ReadMany(p, n, d).value; |xs| == n && OkAll(dom, xs) && d == WriteAll(w, xs) + rest
    decreases n
  {
    if n == 0 {
      assert d == [] + d;
    } else {
      var (x, d1) := p(d).value;
      ManyFront(w, p, dom, n - 1, d1);
      var (xs, rest) := ReadMany(p, n - 1, d1).value;
      assert ([x] + xs)[1..] == xs;
      assert d == w(x) + (WriteAll(w, xs) + rest) == w(x) + WriteAll(w, xs) + rest;
    }
  }

  lemma PrincipalBack(p: Principal, rest: bytes)
    requires OkPrincipal(p)
    ensures GetPrincipal(PutPrincipal(p) + rest) == Some((p, rest))
  {
    hide GetI32, GetCounted, GetMany, PutI32, PutCounted, WriteAll, ToBE, U32;
    var d3 := WriteAll(PutCounted, p.components) + rest;
    var d2 := PutCounted(p.realm) + d3;
    var d1 := PutU32(|p.components|) + d2;
    assert PutPrincipal(p) + rest == PutI32(p.nameType) + d1;
    I32Back(p.nameType, d1);
    U32Back(|p.components|, d2);
    CountedBack(p.realm, d3);
    CountedExact();
    ManyBackGuarded(PutCounted, GetCounted, Fits<byte>, 4, p.components, rest);
  }

  lemma PrincipalFront(d: bytes)
    ensures GetPrincipal(d).Some? ==> OkPrincipal(GetPrincipal(d).value.0)
                                      && d == PutPrincipal(GetPrincipal(d).value.0) + GetPrincipal(d).value.1
  {
    hide GetI32, GetCounted, PutI32, PutCounted, WriteAll, ToBE, U32, OkAll, ReadMany;
    if GetPrincipal(d).Some? {
      var (p, rest) := GetPrincipal(d).value;
      I32Front(d);
      var d1 := GetI32(d).value.1;
      U32Front(d1);
      var (n, d2) := U32(d1).value;
      CountedFront(d2);
      var d3 := GetCounted(d2).value.1;
      CountedExact();
      ManyFront(PutCounted, GetCounted, Fits<byte>, n, d3);
      assert PutPrincipal(p) + rest
          == PutI32(p.nameType) + (PutU32(|p.components|) + (PutCounted(p.realm) + (WriteAll(PutCounted, p.components) + rest)));
    }
  }

  lemma TaggedBack(t: Tagged, rest: bytes)
    requires OkTagged(t)
    ensures GetTagged(PutTagged(t) + rest) == Some((t, rest))
  {
    hide GetCounted, PutCounted, ToBE;
    assert PutTagged(t) + rest == PutU16(t.typ) + (PutCounted(t.data) + rest);
    U16Back(t.typ, PutCounted(t.data) + rest);
    CountedBack(t.data, rest);
  }

  lemma TaggedFront(d: bytes)
    ensures GetTagged(d).Some? ==> OkTagged(GetTagged(d).value.0) && d == PutTagged(GetTagged(d).value.0) + GetTagged(d).value.1
  {
    hide GetCounted, PutCounted, ToBE;
    U16Front(d);
    if GetTagged(d).Some? {
      var (t, rest) := GetTagged(d).value;
      CountedFront(U16(d).value.1);
      assert PutTagged(t) + rest == PutU16(t.typ) + (PutCounted(t.data) + rest);
    }
  }

  lemma TaggedExact()
    ensures Exact(PutTagged, GetTagged, OkTagged)
  {
    hide PutTagged, GetTagged, OkTagged;
    forall t: Tagged, rest: bytes | OkTagged(t)
      ensures GetTagged(PutTagged(t) + rest) == Some((t, rest))
    {
      TaggedBack(t, rest);
    }
    forall d: bytes
      ensures GetTagged(d).Some? ==> OkTagged(GetTagged(d).value.0) && d == PutTagged(GetTagged(d).value.0) + GetTagged(d).value.1
    {
      TaggedFront(d);
    }
  }

  lemma ListBack(ts: seq<Tagged>, rest: bytes)
    requires OkList(ts)
    ensures GetList(PutList(ts) + rest) == Some((ts, rest))
  {
    hide GetTagged, PutTagged, GetMany, WriteAll, ToBE, U32;
    var d := WriteAll(PutTagged, ts) + rest;
    assert PutList(ts) + rest == PutU32(|ts|) + d;
    U32Back(|ts|, d);
    TaggedExact();
    ManyBackGuarded(PutTagged, GetTagged, OkTagged, 6, ts, rest);
  }

  lemma ListFront(d: bytes)
    ensures GetList(d).Some? ==> OkList(GetList(d).value.0) && d == PutList(GetList(d).value.0) + GetList(d).value.1
  {
    hide GetTagged, PutTagged, WriteAll, ToBE, U32, OkAll, ReadMany;
    if GetList(d).Some? {
      U32Front(d);
      var (n, d1) := U32(d).value;
      TaggedExact();
      ManyFront(PutTagged, GetTagged, OkTagged, n, d1);
      var (ts, rest) := GetList(d).value;
      assert PutList(ts) + rest == PutU32(|ts|) + (WriteAll(PutTagged, ts) + rest);
    }
  }

  lemma KeyBack(enctype: uint16, key: bytes, rest: bytes)
    requires Fits(key)
    ensures GetKey(PutKey(enctype, key) + rest) == Some(((enctype, key), rest))
  {
    hide GetCounted, PutCounted, ToBE;
    assert PutKey(enctype, key) + rest == PutU16(enctype) + (PutCounted(key) + rest);
    U16Back(enctype, PutCounted(key) + rest);
    CountedBack(key, rest);
  }

  lemma KeyFront(d: bytes)
    ensures GetKey(d).Some? ==> var ((e, k), rest) := GetKey(d).value; Fits(k) && d == PutKey(e, k) + rest
  {
    hide GetCounted, PutCounted, ToBE;
    U16Front(d);
    if GetKey(d).Some? {
      var ((e, k), rest) := GetKey(d).value;
      CountedFront(U16(d).value.1);
      assert PutKey(e, k) + rest == PutU16(e) + (PutCounted(k) + rest);
    }
  }

  lemma TimesBack(t: Times, rest: bytes)
    ensures GetTimes(PutTimes(t) + rest) == Some((t, rest))
  {
    hide ToBE, U32;
    var d3 := PutU32(t.renewTill) + rest;
    var d2 := PutU32(t.end) + d3;
    var d1 := PutU32(t.start) + d2;
    assert PutTimes(t) + rest == PutU32(t.auth) + d1;
    U32Back(t.auth, d1);
    U32Back(t.start, d2);
    U32Back(t.end, d3);
    U32Back(t.renewTill, rest);
  }

  lemma TimesFront(d: bytes)
    ensures GetTimes(d).Some? ==> d == PutTimes(GetTimes(d).value.0) + GetTimes(d).value.1
  {
    hide ToBE, U32;
    if GetTimes(d).Some? {
      var (t, rest) := GetTimes(d).value;
      U32Front(d);
      var d1 := U32(d).value.1;
      U32Front(d1);
      var d2 := U32(d1).value.1;
      U32Front(d2);
      var d3 := U32(d2).value.1;
      U32Front(d3);
      assert PutTimes(t) + rest == PutU32(t.auth) + (PutU32(t.start) + (PutU32(t.end) + (PutU32(t.renewTill) + rest)));
    }
  }

  lemma FixedBack(t: Times, isSKey: bool, flags: uint32, rest: bytes)
    ensures GetFixed(PutFixed(t, isSKey, flags) + rest) == Some(((t, isSKey, flags), rest))
  {
    hide GetTimes, PutTimes, ToBE, U32;
    var octet: bytes := [if isSKey then 1 else 0];
    var d2 := PutU32(flags) + rest;
    assert PutFixed(t, isSKey, flags) + rest == PutTimes(t) + (octet + d2);
    TimesBack(t, octet + d2);
    assert (octet + d2)[1..] == d2;
    U32Back(flags, rest);
  }

  lemma FixedFront(d: bytes)
    ensures GetFixed(d).Some? ==> var ((t, s, f), rest) := GetFixed(d).value; d == PutFixed(t, s, f) + rest
  {
    hide GetTimes, PutTimes, ToBE, U32;
    if GetFixed(d).Some? {
      var ((t, s, f), rest) := GetFixed(d).value;
      TimesFront(d);
      var d1 := GetTimes(d).value.1;
      assert d1 == [d1[0]] + d1[1..];
      U32Front(d1[1..]);
      assert PutFixed(t, s, f) + rest == PutTimes(t) + ([if s then 1 else 0] + (PutU32(f) + rest));
    }
  }

  lemma CredentialLayout(c: Credential, rest: bytes)
    requires OkEnctype(c.enctype)
    ensures PutCredential(c) + rest
         == PutPrincipal(c.client) + (PutPrincipal(c.server) + (PutKey(c.enctype, c.key) + (PutFixed(c.times, c.isSKey, c.flags)
              + (PutList(c.addresses) + (PutList(c.authData) + (PutCounted(c.ticket) + (PutCounted(c.secondTicket) + rest)))))))
  {
    hide PutPrincipal, PutKey, PutFixed, PutList, PutCounted;
  }

  lemma CredentialBack(c: Credential, rest: bytes)
    requires OkCredential(c)
    ensures GetCredential(PutCredential(c) + rest) == Some((c, rest))
  {
    hide PutPrincipal, PutKey, PutFixed, PutList, PutCounted, GetPrincipal, GetKey, GetFixed, GetList, GetCounted, PutCredential,
         OkPrincipal, OkList;
    CredentialLayout(c, rest);
    var d7 := PutCounted(c.secondTicket) + rest;
    var d6 := PutCounted(c.ticket) + d7;
    var d5 := PutList(c.authData) + d6;
    var d4 := PutList(c.addresses) + d5;
    var d3 := PutFixed(c.times, c.isSKey, c.flags) + d4;
    var d2 := PutKey(c.enctype, c.key) + d3;
    var d1 := PutPrincipal(c.server) + d2;
    PrincipalBack(c.client, d1);
    PrincipalBack(c.server, d2);
    KeyBack(c.enctype, c.key, d3);
    FixedBack(c.times, c.isSKey, c.flags, d4);
    ListBack(c.addresses, d5);
    ListBack(c.authData, d6);
    CountedBack(c.ticket, d7);
    CountedBack(c.secondTicket, rest);
  }

  lemma CredentialFront(d: bytes)
    ensures GetCredential(d).Some? ==> OkCredential(GetCredential(d).value.0)
                                       && d == PutCredential(GetCredential(d).value.0) + GetCredential(d).value.1
  {
    hide PutPrincipal, PutKey, PutFixed, PutList, PutCounted, GetPrincipal, GetKey, GetFixed, GetList, GetCounted, PutCredential,
         OkPrincipal, OkList;
    if GetCredential(d).Some? {
      var (c, rest) := GetCredential(d).value;
      PrincipalFront(d);
      var d1 := GetPrincipal(d).value.1;
      PrincipalFront(d1);
      var d2 := GetPrincipal(d1).value.1;
      KeyFront(d2);
      var d3 := GetKey(d2).value.1;
      FixedFront(d3);
      var d4 := GetFixed(d3).value.1;
      ListFront(d4);
      var d5 := GetList(d4).value.1;
      ListFront(d5);
      var d6 := GetList(d5).value.1;
      CountedFront(d6);
      var d7 := GetCounted(d6).value.1;
      CountedFront(d7);
      var e: uint16 := GetKey(d2).value.0.0;
      assert c.enctype == e;
      CredentialLayout(c, rest);
    }
  }

  /** So a credential takes something off the data. */
  lemma CredentialConsumes(d: bytes)
    ensures GetCredential(d).Some? ==> |GetCredential(d).value.1| < |d|
  {
    hide GetCredential, PutPrincipal, PutKey, PutFixed, PutList;
    CredentialFront(d);
  }
}
