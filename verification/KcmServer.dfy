/** The KCM daemon: what one request does to one namespace, and the server that
    keeps a namespace for each user. */
module KcmServer {
  import opened Bytes
  import opened Wire
  import opened Credentials
  import opened MatchCredential

  const GEN_NEW: nat := 3
  const INITIALIZE: nat := 4
  const DESTROY: nat := 5
  const STORE: nat := 6
  const RETRIEVE: nat := 7
  const GET_PRINCIPAL: nat := 8
  const GET_CRED_UUID_LIST: nat := 9
  const GET_CRED_BY_UUID: nat := 10
  const REMOVE_CRED: nat := 11
  const GET_CACHE_UUID_LIST: nat := 18
  const GET_CACHE_BY_UUID: nat := 19
  const GET_DEFAULT_CACHE: nat := 20
  const SET_DEFAULT_CACHE: nat := 21
  const GET_KDC_OFFSET: nat := 22
  const SET_KDC_OFFSET: nat := 23
  const GET_CRED_LIST: nat := 13001
  const REPLACE: nat := 13002

  const OK: int32 := 0
  const NOT_FOUND: int32 := -1765328243
  const END: int32 := -1765328242
  const NO_FILE: int32 := -1765328189
  const INTERNAL: int32 := -1765328188

  const UUID_SIZE: nat := 16

  /** principal is None until the cache is initialized; creds are encoded
      credentials, and credUUIDs runs parallel to them. */
  datatype Cache = Cache(name: bytes, uuid: bytes, principal: Option<Principal>, creds: seq<bytes>, credUUIDs: seq<bytes>, offset: int32)

  datatype Namespace = Namespace(caches: map<bytes, Cache>, uuids: map<bytes, bytes>, defaultName: bytes, next: nat)

  datatype Reply = Reply(payload: bytes, code: int32)

  /** "default" and "unique". */
  const DEFAULT_NAME: bytes := [0x64, 0x65, 0x66, 0x61, 0x75, 0x6c, 0x74]
  const UNIQUE: bytes := [0x75, 0x6e, 0x69, 0x71, 0x75, 0x65]

  const EMPTY := Namespace(map[], map[], DEFAULT_NAME, 0)

  // ----- matching

  const DONT_MATCH_REALM: nat := 0x8000_0000
  const MATCH_KEY_TYPE: nat := 0x4000_0000
  const MATCH_SERVER_NAME: nat := 0x2000_0000
  const MATCH_FLAGS_EXACT: nat := 0x1000_0000
  const MATCH_FLAGS: nat := 0x800_0000
  const MATCH_TIMES_EXACT: nat := 0x400_0000
  const MATCH_TIMES: nat := 0x200_0000
  const MATCH_AUTH_DATA: nat := 0x100_0000
  const MATCH_SECOND: nat := 0x80_0000
  const MATCH_SKEY: nat := 0x40_0000

  predicate Has(flags: nat, bit: nat)
    requires bit > 0
  {
    flags / bit % 2 == 1
  }

  /** Every bit of the second number is set in the first. */
  predicate Covers(v: nat, t: nat) {
    t == 0 || ((t % 2 == 1 ==> v % 2 == 1) && Covers(v / 2, t / 2))
  }

  predicate MatchesNames(v: Credential, t: Credential, flags: nat) {
    && (v.client.realm == t.client.realm || Has(flags, DONT_MATCH_REALM))
    && v.client.components == t.client.components
    && (v.server.realm == t.server.realm || Has(flags, MATCH_SERVER_NAME))
    && v.server.components == t.server.components
  }

  predicate MatchesTicket(v: Credential, t: Credential, flags: nat) {
    && (Has(flags, MATCH_KEY_TYPE) ==> v.enctype == t.enctype)
    && (Has(flags, MATCH_FLAGS_EXACT) ==> v.flags == t.flags)
    && (Has(flags, MATCH_FLAGS) ==> Covers(v.flags, t.flags))
    && (Has(flags, MATCH_TIMES_EXACT) ==> v.times == t.times)
    && (Has(flags, MATCH_TIMES) ==> v.times.auth >= t.times.auth && v.times.end >= t.times.end)
    && (Has(flags, MATCH_SKEY) ==> v.isSKey == t.isSKey)
    && (Has(flags, MATCH_SECOND) ==> v.secondTicket == t.secondTicket)
    && (Has(flags, MATCH_AUTH_DATA) ==> v.authData == t.authData)
  }

  /** credentialMatches. */
  predicate Matches(v: Credential, t: Credential, flags: nat) {
    MatchesNames(v, t, flags) && MatchesTicket(v, t, flags)
  }

  lemma {:induction false} CoversItself(v: nat)
    ensures Covers(v, v)
  {
    if v != 0 { CoversItself(v / 2); }
  }

  /** A credential matches itself whatever is compared. */
  lemma MatchesItself(c: Credential, flags: nat)
    ensures Matches(c, c, flags)
  {
    CoversItself(c.flags);
  }

  // ----- helpers of dispatch

  function CString(name: bytes): (b: bytes) { name + [0] }

  /** splitCString: up to the first zero, and what follows it. */
  function SplitCString(d: bytes): (r: Option<(bytes, bytes)>) {
    if d == [] then None
    else if d[0] == 0 then Some(([], d[1..]))
    else
      var (name, rest) :- SplitCString(d[1..]);
      Some(([d[0]] + name, rest))
  }

  lemma {:induction false} CStringBack(name: bytes, rest: bytes)
    requires 0 !in name
    ensures SplitCString(CString(name) + rest) == Some((name, rest))
  {
    if name == [] {
      assert (CString(name) + rest)[1..] == rest;
    } else {
      CStringBack(name[1..], rest);
      assert (CString(name) + rest)[1..] == CString(name[1..]) + rest;
      assert [name[0]] + name[1..] == name;
    }
  }

  /** unmarshalCredentialBytes: one credential and nothing after it. */
  function DecodeCredential(d: bytes): (r: Option<Credential>) {
    var (c, rest) :- GetCredential(d);
    if rest == [] then Some(c) else None
  }

  /** Every UUID, of a cache or a credential, is the counter in the last eight
      octets. */
  function Uuid(n: nat): (u: bytes)
    ensures |u| == UUID_SIZE
  {
    [0, 0, 0, 0, 0, 0, 0, 0] + ToBE(n, 8)
  }

  lemma UuidInjective(m: nat, n: nat)
    requires m < TWO64 && n < TWO64 && Uuid(m) == Uuid(n)
    ensures m == n
  {
    Pow256Values();
    BEOfToBE(m, 8);
    BEOfToBE(n, 8);
    assert Uuid(m)[8..] == ToBE(m, 8) && Uuid(n)[8..] == ToBE(n, 8);
  }

  function Decimal(n: nat): (b: bytes) {
    if n < 10 then [0x30 + n] else Decimal(n / 10) + [0x30 + n % 10]
  }

  function Ensure(ns: Namespace, name: bytes): (r: Namespace)
    ensures name in r.caches
  {
    if name in ns.caches then ns
    else
      var uuid := Uuid(ns.next + 1);
      Namespace(ns.caches[name := Cache(name, uuid, None, [], [], 0)], ns.uuids[uuid := name], ns.defaultName, ns.next + 1)
  }

  function WithCache(ns: Namespace, name: bytes, c: Cache): (r: Namespace) { ns.(caches := ns.caches[name := c]) }

  function FreshUuids(next: nat, n: nat): (r: seq<bytes>)
    ensures |r| == n
    decreases n
  {
    if n == 0 then [] else [Uuid(next + 1)] + FreshUuids(next + 1, n - 1)
  }

  function Concat(xs: seq<bytes>): (b: bytes) {
    if xs == [] then [] else xs[0] + Concat(xs[1..])
  }

  /** The credentials that stay, with their UUIDs, in order. */
  function Kept(creds: seq<bytes>, uuids: seq<bytes>, t: Credential, flags: nat): (r: seq<(bytes, bytes)>)
    requires |creds| == |uuids|
  {
    if creds == [] then []
    else
      var rest := Kept(creds[1..], uuids[1..], t, flags);
      if Selected(creds[0], t, flags) then rest else [(creds[0], uuids[0])] + rest
  }

  predicate Selected(raw: bytes, t: Credential, flags: nat) {
    var c := DecodeCredential(raw);
    c.Some? && Matches(c.value, t, flags)
  }

  function Firsts<A, B>(xs: seq<(A, B)>): (r: seq<A>)
    ensures |r| == |xs|
  {
    if xs == [] then [] else [xs[0].0] + Firsts(xs[1..])
  }

  function Seconds<A, B>(xs: seq<(A, B)>): (r: seq<B>)
    ensures |r| == |xs|
  {
    if xs == [] then [] else [xs[0].1] + Seconds(xs[1..])
  }

  function IndexOf(xs: seq<bytes>, x: bytes): (r: Option<nat>)
    ensures r.Some? ==> r.value < |xs| && xs[r.value] == x
    ensures r.None? ==> x !in xs
  {
    if xs == [] then None
    else if xs[0] == x then Some(0)
    else
      var i :- IndexOf(xs[1..], x);
      Some(i + 1)
  }

  function FindMatch(creds: seq<bytes>, t: Credential, flags: nat): (r: Option<bytes>) {
    if creds == [] then None
    else if Selected(creds[0], t, flags) then Some(creds[0])
    else FindMatch(creds[1..], t, flags)
  }

  /** The credentials of a REPLACE request. */
  function GetRaw(d: bytes): (r: Option<(bytes, bytes)>) {
    var (raw, d1) :- GetCounted(d);
    if DecodeCredential(raw).None? then None else Some((raw, d1))
  }

  // ----- one request on an existing cache

  predicate RequiresExisting(op: nat) {
    op in {GET_PRINCIPAL, GET_CRED_LIST, GET_CRED_UUID_LIST, GET_CRED_BY_UUID, RETRIEVE, REMOVE_CRED, GET_KDC_OFFSET,
           DESTROY, SET_DEFAULT_CACHE, SET_KDC_OFFSET, STORE}
  }

  function Failed(ns: Namespace, code: int32): (r: (Namespace, Reply)) { (ns, Reply([], code)) }
  function Done(ns: Namespace, payload: bytes): (r: (Namespace, Reply)) { (ns, Reply(payload, OK)) }

  function Initialize(ns: Namespace, c: Cache, rest: bytes): (r: (Namespace, Reply)) {
    match GetPrincipal(rest)
    case None => Failed(ns, INTERNAL)
    case Some((p, more)) =>
      if more != [] then Failed(ns, INTERNAL)
      else Done(WithCache(ns, c.name, c.(principal := Some(p), creds := [], credUUIDs := [], offset := 0)), [])
  }

  function Destroy(ns: Namespace, c: Cache): (r: Namespace) {
    Namespace(ns.caches - {c.name}, ns.uuids - {c.uuid}, if ns.defaultName == c.name then DEFAULT_NAME else ns.defaultName, ns.next)
  }

  function Store(ns: Namespace, c: Cache, rest: bytes): (r: (Namespace, Reply)) {
    if DecodeCredential(rest).None? then Failed(ns, INTERNAL)
    else
      var stored := c.(creds := c.creds + [rest], credUUIDs := c.credUUIDs + [Uuid(ns.next + 1)]);
      Done(WithCache(ns, c.name, stored).(next := ns.next + 1), [])
  }

  function RemoveCred(ns: Namespace, c: Cache, rest: bytes): (r: (Namespace, Reply))
    requires |c.creds| == |c.credUUIDs|
  {
    match U32(rest)
    case None => Failed(ns, INTERNAL)
    case Some((flags, d)) =>
      match UnmarshalMatch(d)
      case None => Failed(ns, INTERNAL)
      case Some(tag) =>
        var kept := Kept(c.creds, c.credUUIDs, tag, flags);
        if |kept| == |c.creds| then Failed(ns, NOT_FOUND)
        else Done(WithCache(ns, c.name, c.(creds := Firsts(kept), credUUIDs := Seconds(kept))), [])
  }

  /** The arguments of REPLACE after the name. */
  function ParseReplace(rest: bytes): (r: Option<(int32, Principal, seq<bytes>)>) {
    if |rest| < 8 then None
    else
      var (offset, d1) :- GetI32(rest);
      var (p, d2) :- GetPrincipal(d1);
      var (count, d3) :- U32(d2);
      var (creds, d4) :- GetMany(GetRaw, 4, count, d3);
      if d4 != [] then None else Some((offset, p, creds))
  }

  function Replace(ns: Namespace, c: Cache, rest: bytes): (r: (Namespace, Reply)) {
    match ParseReplace(rest)
    case None => Failed(ns, INTERNAL)
    case Some((offset, p, creds)) =>
      var replaced := c.(principal := Some(p), offset := offset, creds := creds, credUUIDs := FreshUuids(ns.next, |creds|));
      Done(WithCache(ns, c.name, replaced).(next := ns.next + |creds|), [])
  }

  function Retrieve(ns: Namespace, c: Cache, rest: bytes): (r: (Namespace, Reply)) {
    if |rest| < 8 then Failed(ns, INTERNAL)
    else
      match U32(rest)
      case None => Failed(ns, INTERNAL)
      case Some((flags, d)) =>
        match UnmarshalMatch(d)
        case None => Failed(ns, INTERNAL)
        case Some(tag) =>
          match FindMatch(c.creds, tag, flags)
          case None => Failed(ns, NOT_FOUND)
          case Some(raw) => Done(ns, raw)
  }

  function GetPrincipalOp(ns: Namespace, c: Cache): (r: (Namespace, Reply)) {
    if c.principal.None? then Failed(ns, NO_FILE)
    else if !OkPrincipal(c.principal.value) then Failed(ns, INTERNAL)
    else Done(ns, PutPrincipal(c.principal.value))
  }

  function CredByUuid(ns: Namespace, c: Cache, rest: bytes): (r: (Namespace, Reply)) {
    if |rest| != UUID_SIZE then Failed(ns, INTERNAL)
    else
      match IndexOf(c.credUUIDs, rest)
      case None => Failed(ns, END)
      case Some(i) => if i >= |c.creds| then Failed(ns, END) else Done(ns, c.creds[i])
  }

  function SetOffset(ns: Namespace, c: Cache, rest: bytes): (r: (Namespace, Reply)) {
    if |rest| != 4 then Failed(ns, INTERNAL)
    else
      match GetI32(rest)
      case None => Failed(ns, INTERNAL)
      case Some((v, _)) => Done(WithCache(ns, c.name, c.(offset := v)), [])
  }

  /** The part of dispatch after the cache was found or made. */
  function Handle(ns: Namespace, c: Cache, op: nat, rest: bytes): (r: (Namespace, Reply))
    requires |c.creds| == |c.credUUIDs|
  {
    if op == INITIALIZE then Initialize(ns, c, rest)
    else if op == DESTROY then Done(Destroy(ns, c), [])
    else if op == GET_PRINCIPAL then GetPrincipalOp(ns, c)
    else if op == STORE then Store(ns, c, rest)
    else if op == GET_CRED_LIST then Done(ns, PutU32(|c.creds|) + WriteAll(PutCounted, c.creds))
    else if op == GET_CRED_UUID_LIST then Done(ns, Concat(c.credUUIDs))
    else if op == GET_CRED_BY_UUID then CredByUuid(ns, c, rest)
    else if op == RETRIEVE then Retrieve(ns, c, rest)
    else if op == REMOVE_CRED then RemoveCred(ns, c, rest)
    else if op == SET_DEFAULT_CACHE then Done(ns.(defaultName := c.name), [])
    else if op == GET_KDC_OFFSET then Done(ns, PutI32(c.offset))
    else if op == SET_KDC_OFFSET then SetOffset(ns, c, rest)
    else if op == REPLACE then Replace(ns, c, rest)
    else Failed(ns, INTERNAL)
  }

  function GenNew(ns: Namespace): (r: (Namespace, Reply)) {
    var name := UNIQUE + Decimal(ns.next + 1);
    Done(Ensure(ns.(next := ns.next + 1), name), CString(name))
  }

  /** Requests that name a cache. */
  function Named(ns: Namespace, op: nat, args: bytes): (r: (Namespace, Reply))
    requires Parallel(ns)
  {
    match SplitCString(args)
    case None => Failed(ns, INTERNAL)
    case Some((name, rest)) =>
      if name in ns.caches then Handle(ns, ns.caches[name], op, rest)
      else if RequiresExisting(op) then Failed(ns, NO_FILE)
      else
        var made := Ensure(ns, name);
        Handle(made, made.caches[name], op, rest)
  }

  predicate Parallel(ns: Namespace) {
    forall name | name in ns.caches :: |ns.caches[name].creds| == |ns.caches[name].credUUIDs|
  }

  /** The order in which the UUID map happens to be walked. */
  ghost predicate Lists(order: seq<bytes>, uuids: map<bytes, bytes>) {
    (forall u :: u in order <==> u in uuids) && forall i, j | 0 <= i < j < |order| :: order[i] != order[j]
  }

  /** dispatchPeer, in the namespace of the peer. */
  function Dispatch(ns: Namespace, request: bytes, order: seq<bytes>): (r: (Namespace, Reply))
    requires Parallel(ns)
  {
    if |request| < 4 || request[0] != 2 || request[1] != 0 then Failed(ns, INTERNAL)
    else
      var op, args := BE(request[2..4]), request[4..];
      if op == GET_DEFAULT_CACHE then Done(ns, CString(ns.defaultName))
      else if op == GEN_NEW then GenNew(ns)
      else if op == GET_CACHE_UUID_LIST then Done(ns, Concat(order))
      else if op == GET_CACHE_BY_UUID then
        if |args| != UUID_SIZE then Failed(ns, INTERNAL)
        else if args in ns.uuids then Done(ns, CString(ns.uuids[args]))
        else Failed(ns, END)
      else Named(ns, op, args)
  }

  /** No request gets the two lists of a cache out of step. */
  lemma HandleParallel(ns: Namespace, c: Cache, op: nat, rest: bytes)
    requires Parallel(ns) && |c.creds| == |c.credUUIDs|
    ensures Parallel(Handle(ns, c, op, rest).0)
  {
    hide GetPrincipal, DecodeCredential, UnmarshalMatch, Kept, ParseReplace, FreshUuids, FindMatch, GetI32, U32;
  }

  lemma DispatchParallel(ns: Namespace, request: bytes, order: seq<bytes>)
    requires Parallel(ns)
    ensures Parallel(Dispatch(ns, request, order).0)
  {
    hide Handle, SplitCString, Decimal, BE, Uuid;
    if |request| >= 4 {
      match SplitCString(request[4..]) {
        case None =>
        case Some((name, rest)) =>
          if name in ns.caches {
            HandleParallel(ns, ns.caches[name], BE(request[2..4]), rest);
          } else {
            HandleParallel(Ensure(ns, name), Ensure(ns, name).caches[name], BE(request[2..4]), rest);
          }
      }
    }
  }
}
