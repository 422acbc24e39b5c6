/** Match credentials, the partial credentials of KCM retrieval and removal. */
module MatchCredential {
  import opened Bytes
  import opened Wire
  import opened Credentials

  const MATCH_VERSION: nat := 4

  const NO_PRINCIPAL := Principal([], 0, [])

  predicate IsSet(p: Principal) { p.realm != [] || p.nameType != 0 || p.components != [] }

  /** The header bits: client, server, session key, ticket, second ticket,
      authorization data and addresses. */
  datatype Flags = Flags(client: bool, server: bool, key: bool, ticket: bool, second: bool, authData: bool, addresses: bool)

  function PackBits(bs: seq<bool>): (h: nat) {
    if bs == [] then 0 else Bit(bs[0]) + 2 * PackBits(bs[1..])
  }

  function Bits(h: nat, n: nat): (bs: seq<bool>)
    ensures |bs| == n
  {
    if n == 0 then [] else [h % 2 == 1] + Bits(h / 2, n - 1)
  }

  lemma Lowest(b: bool, r: nat)
    ensures (Bit(b) + 2 * r) % 2 == 1 <==> b
    ensures (Bit(b) + 2 * r) / 2 == r
  {
  }

  lemma {:induction false} BitsBack(bs: seq<bool>)
    ensures Bits(PackBits(bs), |bs|) == bs
    ensures |bs| == 7 ==> PackBits(bs) < 128
  {
    hide Bit;
    if bs != [] {
      BitsBack(bs[1..]);
      Lowest(bs[0], PackBits(bs[1..]));
      assert [bs[0]] + bs[1..] == bs;
    }
    if |bs| == 7 { PackBound(bs, 0); }
  }

  lemma {:induction false} PackBound(bs: seq<bool>, i: nat)
    requires |bs| <= 7 && i + |bs| == 7 && i <= 7
    ensures PackBits(bs) < [128, 64, 32, 16, 8, 4, 2, 1][i]
  {
    if bs != [] { PackBound(bs[1..], i + 1); }
  }

  /** The client is bit 0, the addresses are bit 6. */
  function Pack(f: Flags): (h: nat)
    ensures h < 128
  {
    var bs := [f.client, f.server, f.key, f.ticket, f.second, f.authData, f.addresses];
    BitsBack(bs);
    PackBits(bs)
  }

  /** None when a bit outside the known ones is set. */
  function Unpack(h: nat): (r: Option<Flags>) {
    if h >= 128 then None
    else
      var bs := Bits(h, 7);
      Some(Flags(bs[0], bs[1], bs[2], bs[3], bs[4], bs[5], bs[6]))
  }

  lemma PackBack(f: Flags)
    ensures Unpack(Pack(f)) == Some(f)
  {
    hide PackBits, Bits;
    BitsBack([f.client, f.server, f.key, f.ticket, f.second, f.authData, f.addresses]);
  }

  function FlagsOf(c: Credential): (f: Flags) {
    Flags(IsSet(c.client), IsSet(c.server), c.enctype != 0, c.ticket != [], c.secondTicket != [], c.authData != [], c.addresses != [])
  }

  function Optional(present: bool, b: bytes): (r: bytes) { if present then b else [] }

  predicate OkMatch(c: Credential) {
    && OkPrincipal(c.client) && OkPrincipal(c.server)
    && (c.enctype != 0 ==> OkEnctype(c.enctype) && Fits(c.key))
    && OkList(c.addresses) && OkList(c.authData) && Fits(c.ticket) && Fits(c.secondTicket)
  }

  /** marshalMatchCredential; None when it reports an error. */
  function MarshalMatch(c: Credential): (r: Option<bytes>) {
    var f := FlagsOf(c);
    if !OkMatch(c) then None
    else Some(PutU32(MATCH_VERSION) + PutU32(Pack(f)) + PutNames(f, c) + PutFixed(c.times, c.isSKey, c.flags) + PutLists(f, c))
  }

  function PutNames(f: Flags, c: Credential): (b: bytes)
    requires f.key ==> OkEnctype(c.enctype)
  {
    Optional(f.client, PutPrincipal(c.client)) + Optional(f.server, PutPrincipal(c.server))
      + (if f.key then PutKey(c.enctype, c.key) else [])
  }

  function PutLists(f: Flags, c: Credential): (b: bytes) {
    Optional(f.addresses, PutList(c.addresses)) + Optional(f.authData, PutList(c.authData))
      + Optional(f.ticket, PutCounted(c.ticket)) + Optional(f.second, PutCounted(c.secondTicket))
  }

  function GetOptional<T>(present: bool, p: bytes -> Option<(T, bytes)>, absent: T, d: bytes): (r: Option<(T, bytes)>) {
    if present then p(d) else Some((absent, d))
  }

  /** unmarshalMatchCredential; None when it reports an error. */
  function UnmarshalMatch(d: bytes): (r: Option<Credential>) {
    if |d| < 8 then None
    else
      var (version, d1) :- U32(d);
      var (header, d2) :- U32(d1);
      if version != MATCH_VERSION then None
      else
        var f :- Unpack(header);
        GetFields(f, d2)
  }

  function GetNames(f: Flags, d: bytes): (r: Option<((Principal, Principal, (uint16, bytes)), bytes)>) {
    var (client, d1) :- GetOptional(f.client, GetPrincipal, NO_PRINCIPAL, d);
    var (server, d2) :- GetOptional(f.server, GetPrincipal, NO_PRINCIPAL, d1);
    var (key, d3) :- GetOptional(f.key, GetKey, (0, []), d2);
    Some(((client, server, key), d3))
  }

  function GetFields(f: Flags, d: bytes): (r: Option<Credential>) {
    var ((client, server, (enctype, key)), d5) :- GetNames(f, d);
    var ((times, isSKey, flags), d6) :- GetFixed(d5);
    var (addresses, d7) :- GetOptional(f.addresses, GetList, [], d6);
    var (authData, d8) :- GetOptional(f.authData, GetList, [], d7);
    var (ticket, d9) :- GetOptional(f.ticket, GetCounted, [], d8);
    var (second, d10) :- GetOptional(f.second, GetCounted, [], d9);
    if d10 != [] then None
    else Some(Credential(client, server, enctype, key, flags, times, isSKey, addresses, authData, ticket, second))
  }

  /** What survives: a key without an enctype is not sent. */
  function Sent(c: Credential): (r: Credential) { if c.enctype == 0 then c.(key := []) else c }

  lemma NamesLayout(f: Flags, c: Credential, rest: bytes)
    requires f.key ==> OkEnctype(c.enctype)
    ensures PutNames(f, c) + rest
         == Optional(f.client, PutPrincipal(c.client)) + (Optional(f.server, PutPrincipal(c.server))
              + ((if f.key then PutKey(c.enctype, c.key) else []) + rest))
  {
    hide PutPrincipal, PutKey, Optional;
  }

  lemma ListsLayout(f: Flags, c: Credential)
    ensures PutLists(f, c)
         == Optional(f.addresses, PutList(c.addresses)) + (Optional(f.authData, PutList(c.authData))
              + (Optional(f.ticket, PutCounted(c.ticket)) + (Optional(f.second, PutCounted(c.secondTicket)) + [])))
  {
    hide PutList, PutCounted, Optional;
  }

  lemma OptionalPrincipal(p: Principal, rest: bytes)
    requires OkPrincipal(p)
    ensures GetOptional(IsSet(p), GetPrincipal, NO_PRINCIPAL, Optional(IsSet(p), PutPrincipal(p)) + rest) == Some((p, rest))
  {
    hide PutPrincipal, GetPrincipal, OkPrincipal;
    if IsSet(p) { PrincipalBack(p, rest); } else { assert [] + rest == rest; }
  }

  lemma OptionalKey(c: Credential, rest: bytes)
    requires c.enctype != 0 ==> OkEnctype(c.enctype) && Fits(c.key)
    ensures GetOptional(c.enctype != 0, GetKey, (0, []), (if c.enctype != 0 then PutKey(c.enctype, c.key) else []) + rest)
         == Some(((if c.enctype != 0 then c.enctype else 0, Sent(c).key), rest))
  {
    hide PutKey, GetKey;
    if c.enctype != 0 { KeyBack(c.enctype, c.key, rest); } else { assert [] + rest == rest; }
  }

  lemma OptionalList(ts: seq<Tagged>, rest: bytes)
    requires OkList(ts)
    ensures GetOptional(ts != [], GetList, [], Optional(ts != [], PutList(ts)) + rest) == Some((ts, rest))
  {
    hide PutList, GetList, OkList;
    if ts != [] { ListBack(ts, rest); } else { assert [] + rest == rest; }
  }

  lemma OptionalBytes(v: bytes, rest: bytes)
    requires Fits(v)
    ensures GetOptional(v != [], GetCounted, [], Optional(v != [], PutCounted(v)) + rest) == Some((v, rest))
  {
    hide PutCounted, GetCounted;
    if v != [] { CountedBack(v, rest); } else { assert [] + rest == rest; }
  }

  lemma MatchLayout(c: Credential)
    requires OkMatch(c)
    ensures MarshalMatch(c).value
         == PutU32(MATCH_VERSION) + (PutU32(Pack(FlagsOf(c))) + (PutNames(FlagsOf(c), c)
              + (PutFixed(c.times, c.isSKey, c.flags) + PutLists(FlagsOf(c), c))))
  {
    hide PutU32, Pack, PutNames, PutFixed, PutLists;
  }

  lemma NamesBack(c: Credential, rest: bytes)
    requires OkMatch(c)
    ensures GetNames(FlagsOf(c), PutNames(FlagsOf(c), c) + rest)
         == Some(((c.client, c.server, (if c.enctype != 0 then c.enctype else 0, Sent(c).key)), rest))
  {
    hide PutNames, GetOptional, OkPrincipal, OkList, IsSet, Optional, PutPrincipal, PutKey;
    var f := FlagsOf(c);
    NamesLayout(f, c, rest);
    var d2 := (if f.key then PutKey(c.enctype, c.key) else []) + rest;
    OptionalPrincipal(c.client, Optional(f.server, PutPrincipal(c.server)) + d2);
    OptionalPrincipal(c.server, d2);
    OptionalKey(c, rest);
  }

  lemma FieldsBack(c: Credential)
    requires OkMatch(c)
    ensures GetFields(FlagsOf(c), PutNames(FlagsOf(c), c) + (PutFixed(c.times, c.isSKey, c.flags) + PutLists(FlagsOf(c), c)))
         == Some(Sent(c))
  {
    hide PutNames, PutFixed, PutLists, GetOptional, GetFixed, OkPrincipal, OkList, IsSet, Optional, PutList, PutCounted, GetNames;
    var f := FlagsOf(c);
    var d6 := PutLists(f, c);
    NamesBack(c, PutFixed(c.times, c.isSKey, c.flags) + d6);
    FixedBack(c.times, c.isSKey, c.flags, d6);
    ListsLayout(f, c);
    var d9 := Optional(f.second, PutCounted(c.secondTicket)) + [];
    var d8 := Optional(f.ticket, PutCounted(c.ticket)) + d9;
    var d7 := Optional(f.authData, PutList(c.authData)) + d8;
    OptionalList(c.addresses, d7);
    OptionalList(c.authData, d8);
    OptionalBytes(c.ticket, d9);
    OptionalBytes(c.secondTicket, []);
  }

  /** A match credential reads back as what was sent: itself, exactly when it has
      an enctype or no key. */
  lemma MatchRoundTrip(c: Credential)
    requires OkMatch(c)
    ensures UnmarshalMatch(MarshalMatch(c).value) == Some(Sent(c))
    ensures UnmarshalMatch(MarshalMatch(c).value) == Some(c) <==> c.enctype != 0 || c.key == []
  {
    hide PutU32, Pack, Unpack, PutNames, PutFixed, PutLists, U32, GetFields, MarshalMatch, OkMatch;
    var f := FlagsOf(c);
    MatchLayout(c);
    PackBack(f);
    assert f.key ==> OkEnctype(c.enctype) by { OkMatchEnctype(c); }
    var d2 := PutNames(f, c) + (PutFixed(c.times, c.isSKey, c.flags) + PutLists(f, c));
    var d1 := PutU32(Pack(f)) + d2;
    U32Writes(MATCH_VERSION, d1);
    U32Writes(Pack(f), d2);
    FieldsBack(c);
  }

  lemma OkMatchEnctype(c: Credential)
    requires OkMatch(c)
    ensures c.enctype != 0 ==> OkEnctype(c.enctype)
  {
  }

  lemma U32Writes(v: uint32, rest: bytes)
    ensures U32(PutU32(v) + rest) == Some((v, rest))
  {
    U32Back(v, rest);
  }
}
