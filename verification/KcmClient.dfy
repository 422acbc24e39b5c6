/** The KCM client: reading and writing a whole cache, each by its two protocol
    paths, against the daemon's namespace. */
module KcmClient {
  import opened Arithmetic
  import opened Bytes
  import opened Wire
  import opened Credentials
  import Ccache
  import opened MatchCredential
  import opened KcmServer
  import opened KcmTheorems

  const MAX_FRAME: nat := 0xa0_0000
  const NO_SUPPORT: int32 := -1765328137
  const IO: int32 := -1765328248

  /** What a call gives the client: a payload, a status other than zero, or a
      frame that one side refuses for its length. */
  datatype Result = Payload(value: bytes) | Status(code: int32) | Lost

  function Frame(op: nat, args: bytes): (r: bytes) { [2, 0] + ToBE(op, 2) + args }

  /** call; a daemon that is not extended does not know the two newer
      operations. */
  function Exchange(ns: Namespace, extended: bool, op: nat, args: bytes): (r: (Namespace, Result))
    requires Parallel(ns)
    ensures Parallel(r.0)
  {
    if |Frame(op, args)| > MAX_FRAME then (ns, Lost)
    else if !extended && (op == GET_CRED_LIST || op == REPLACE) then (ns, Status(NO_SUPPORT))
    else
      DispatchParallel(ns, Frame(op, args), []);
      var (s, reply) := Dispatch(ns, Frame(op, args), []);
      (s, if 4 + |reply.payload| > MAX_FRAME then Lost
          else if reply.code != 0 then Status(reply.code) else Payload(reply.payload))
  }

  predicate Unsupported(r: Result) { r.Status? && (r.code == INTERNAL || r.code == IO || r.code == NO_SUPPORT) }

  // ----- what the daemon does with a named request

  lemma Dispatched(ns: Namespace, op: nat, name: bytes, rest: bytes)
    requires Parallel(ns) && 0 !in name && op < 0x10000
    requires op != GET_DEFAULT_CACHE && op != GEN_NEW && op != GET_CACHE_UUID_LIST && op != GET_CACHE_BY_UUID
    ensures name in ns.caches ==> Dispatch(ns, Frame(op, CString(name) + rest), []) == Handle(ns, ns.caches[name], op, rest)
    ensures name !in ns.caches && RequiresExisting(op) ==>
              Dispatch(ns, Frame(op, CString(name) + rest), []) == (ns, Reply([], NO_FILE))
    ensures name !in ns.caches && !RequiresExisting(op) ==>
              |Ensure(ns, name).caches[name].creds| == |Ensure(ns, name).caches[name].credUUIDs|
              && Dispatch(ns, Frame(op, CString(name) + rest), []) == Handle(Ensure(ns, name), Ensure(ns, name).caches[name], op, rest)
  {
    hide Handle, SplitCString, ToBE, BE, CString;
    var args := CString(name) + rest;
    var request := Frame(op, args);
    OpBytes(op);
    assert request[2..4] == ToBE(op, 2) && request[4..] == args;
    CStringBack(name, rest);
    if name !in ns.caches { EnsureShape(ns, name); }
  }

  lemma OpBytes(op: nat)
    requires op < 0x10000
    ensures BE(ToBE(op, 2)) == op && |ToBE(op, 2)| == 2
  {
    Pow256Values();
    BEOfToBE(op, 2);
  }

  // ----- reading

  /** principal(): everything must be used, up to one zero octet. */
  function ReadPrincipal(ns: Namespace, name: bytes): (r: Option<Principal>)
    requires Parallel(ns)
  {
    match Exchange(ns, true, GET_PRINCIPAL, CString(name)).1
    case Payload(v) =>
      var (p, rest) :- GetPrincipal(v);
      if rest == [] || rest == [0] then Some(p) else None
    case _ => None
  }

  /** The offset is optional: any failure leaves it zero. */
  function ReadOffset(ns: Namespace, name: bytes): (v: int32)
    requires Parallel(ns)
  {
    match Exchange(ns, true, GET_KDC_OFFSET, CString(name)).1
    case Payload(v) => if |v| != 4 then 0 else if GetI32(v).Some? then GetI32(v).value.0 else 0
    case _ => 0
  }

  /** One counted credential of a list. */
  function GetListed(d: bytes): (r: Option<(Credential, bytes)>) {
    var (raw, d1) :- GetCounted(d);
    var c :- DecodeCredential(raw);
    Some((c, d1))
  }

  /** What follows the list is not looked at. */
  function ParseList(v: bytes): (r: Option<seq<Credential>>) {
    var (count, d) :- U32(v);
    var (cs, _) :- GetMany(GetListed, 4, count, d);
    Some(cs)
  }

  function ByEach(ns: Namespace, extended: bool, name: bytes, uuids: bytes): (r: Option<seq<Credential>>)
    requires Parallel(ns)
    decreases |uuids|
  {
    if |uuids| < UUID_SIZE then Some([])
    else
      match Exchange(ns, extended, GET_CRED_BY_UUID, CString(name) + uuids[..UUID_SIZE]).1
      case Payload(v) =>
        var c :- DecodeCredential(v);
        var cs :- ByEach(ns, extended, name, uuids[UUID_SIZE..]);
        Some([c] + cs)
      case _ => None
  }

  function ReadByUuids(ns: Namespace, extended: bool, name: bytes): (r: Option<seq<Credential>>)
    requires Parallel(ns)
  {
    match Exchange(ns, extended, GET_CRED_UUID_LIST, CString(name)).1
    case Payload(v) => if |v| % UUID_SIZE != 0 then None else ByEach(ns, extended, name, v)
    case _ => None
  }

  function ReadCredentials(ns: Namespace, extended: bool, name: bytes): (r: Option<seq<Credential>>)
    requires Parallel(ns)
  {
    var list := Exchange(ns, extended, GET_CRED_LIST, CString(name)).1;
    if list.Payload? then ParseList(list.value)
    else if Unsupported(list) then ReadByUuids(ns, extended, name)
    else None
  }

  /** read; None when it reports an error. */
  function Read(ns: Namespace, extended: bool, name: bytes): (r: Option<Ccache.Cache>)
    requires Parallel(ns)
  {
    var p :- ReadPrincipal(ns, name);
    var cs :- ReadCredentials(ns, extended, name);
    Some(Ccache.Cache(Ccache.Header(ReadOffset(ns, name), 0), p, cs))
  }

  // ----- both reads agree

  function Decoded(creds: seq<bytes>): (r: seq<Credential>)
    requires forall raw | raw in creds :: DecodeCredential(raw).Some?
  {
    if creds == [] then [] else [DecodeCredential(creds[0]).value] + Decoded(creds[1..])
  }

  function ListPayload(c: Cache): (b: bytes) { PutU32(|c.creds|) + WriteAll(PutCounted, c.creds) }

  predicate ListFits(c: Cache) { 4 + |ListPayload(c)| <= MAX_FRAME }

  predicate NameFits(name: bytes) { 4 + |name| + 1 + UUID_SIZE <= MAX_FRAME && 0 !in name }

  lemma {:induction false} ListedBack(creds: seq<bytes>, rest: bytes)
    requires forall raw | raw in creds :: DecodeCredential(raw).Some?
    requires forall raw | raw in creds :: Fits(raw)
    ensures ReadMany(GetListed, |creds|, WriteAll(PutCounted, creds) + rest) == Some((Decoded(creds), rest))
  {
    hide DecodeCredential, GetCounted, PutCounted;
    if creds == [] {
      assert WriteAll(PutCounted, creds) + rest == rest;
    } else {
      var d := WriteAll(PutCounted, creds[1..]) + rest;
      assert WriteAll(PutCounted, creds) + rest == PutCounted(creds[0]) + d;
      assert creds[0] in creds;
      CountedBack(creds[0], d);
      ListedBack(creds[1..], rest);
    }
  }

  lemma {:induction false} AllSmaller(creds: seq<bytes>, raw: bytes)
    requires raw in creds
    ensures |raw| <= |WriteAll(PutCounted, creds)|
  {
    if raw != creds[0] { AllSmaller(creds[1..], raw); }
  }

  lemma ParsedList(c: Cache)
    requires Readable(c) && ListFits(c)
    ensures ParseList(ListPayload(c)) == Some(Decoded(c.creds))
  {
    hide DecodeCredential, WriteAll, U32, PutU32, Decoded;
    var d := WriteAll(PutCounted, c.creds);
    forall raw | raw in c.creds ensures Fits(raw) { AllSmaller(c.creds, raw); }
    ListedBack(c.creds, []);
    assert d + [] == d;
    AtLeast(PutCounted, 4, c.creds);
    DivideLeast(|c.creds|, 4, |d|);
    U32Writes(|c.creds|, d);
  }

  /** A UUID of the cache finds its own credential. */
  lemma {:induction false} IndexOfOwn(xs: seq<bytes>, i: nat)
    requires NoDup(xs) && i < |xs|
    ensures IndexOf(xs, xs[i]) == Some(i)
    decreases i
  {
    if i > 0 {
      TailNoDup(xs);
      IndexOfOwn(xs[1..], i - 1);
      assert xs[1..][i - 1] == xs[i];
    }
  }

  lemma EachExchange(ns: Namespace, extended: bool, name: bytes, i: nat)
    requires Inv(ns) && Parallel(ns) && NameFits(name) && name in ns.caches && i < |ns.caches[name].creds|
    requires 4 + |ns.caches[name].creds[i]| <= MAX_FRAME && |ns.caches[name].credUUIDs[i]| == UUID_SIZE
    ensures Exchange(ns, extended, GET_CRED_BY_UUID, CString(name) + ns.caches[name].credUUIDs[i]).1
         == Payload(ns.caches[name].creds[i])
  {
    hide Dispatch, Inv, IndexOf, ToBE;
    var c := ns.caches[name];
    CacheOk(ns, name);
    IndexOfOwn(c.credUUIDs, i);
    Dispatched(ns, GET_CRED_BY_UUID, name, c.credUUIDs[i]);
    assert |Frame(GET_CRED_BY_UUID, CString(name) + c.credUUIDs[i])| <= MAX_FRAME;
    assert CredByUuid(ns, c, c.credUUIDs[i]) == Done(ns, c.creds[i]);
  }

  predicate CredsFit(c: Cache) { forall raw | raw in c.creds :: 4 + |raw| <= MAX_FRAME }

  lemma IssuedSize(next: nat, u: bytes)
    requires Issued(next, u)
    ensures |u| == UUID_SIZE
  {
  }

  lemma {:induction false} EachIs(ns: Namespace, extended: bool, name: bytes, i: nat)
    requires Inv(ns) && Parallel(ns) && NameFits(name) && name in ns.caches && i <= |ns.caches[name].creds|
    requires CredsFit(ns.caches[name]) && Readable(ns.caches[name])
    ensures |Concat(ns.caches[name].credUUIDs[i..])| == UUID_SIZE * (|ns.caches[name].creds| - i)
    ensures ByEach(ns, extended, name, Concat(ns.caches[name].credUUIDs[i..])) == Some(Decoded(ns.caches[name].creds[i..]))
    decreases |ns.caches[name].creds| - i
  {
    hide Inv, Exchange, DecodeCredential;
    var c := ns.caches[name];
    var uuids := Concat(c.credUUIDs[i..]);
    if i < |c.creds| {
      CacheOk(ns, name);
      assert c.creds[i] in c.creds && c.credUUIDs[i] in c.credUUIDs;
      IssuedSize(ns.next, c.credUUIDs[i]);
      EachExchange(ns, extended, name, i);
      EachIs(ns, extended, name, i + 1);
      assert c.credUUIDs[i..][1..] == c.credUUIDs[i + 1..] && c.creds[i..][1..] == c.creds[i + 1..];
      assert uuids == c.credUUIDs[i] + Concat(c.credUUIDs[i + 1..]);
      assert uuids[..UUID_SIZE] == c.credUUIDs[i] && uuids[UUID_SIZE..] == Concat(c.credUUIDs[i + 1..]);
    }
  }

  predicate UuidsFit(c: Cache) { 4 + UUID_SIZE * |c.credUUIDs| <= MAX_FRAME }

  lemma UuidExchange(ns: Namespace, extended: bool, name: bytes)
    requires Inv(ns) && Parallel(ns) && NameFits(name) && name in ns.caches
    requires |Concat(ns.caches[name].credUUIDs)| == UUID_SIZE * |ns.caches[name].creds|
    ensures Exchange(ns, extended, GET_CRED_UUID_LIST, CString(name)).1
         == if UuidsFit(ns.caches[name]) then Payload(Concat(ns.caches[name].credUUIDs)) else Lost
  {
    hide Dispatch, Inv, ToBE, Concat;
    assert CString(name) + [] == CString(name);
    Dispatched(ns, GET_CRED_UUID_LIST, name, []);
  }

  lemma ReadByUuidsIs(ns: Namespace, extended: bool, name: bytes)
    requires Inv(ns) && Parallel(ns) && NameFits(name) && name in ns.caches && CredsFit(ns.caches[name])
    requires Readable(ns.caches[name])
    ensures ReadByUuids(ns, extended, name)
         == if UuidsFit(ns.caches[name]) then Some(Decoded(ns.caches[name].creds)) else None
  {
    hide Inv, Exchange, ByEach, Concat, DecodeCredential, Decoded;
    var c := ns.caches[name];
    assert c.creds[0..] == c.creds && c.credUUIDs[0..] == c.credUUIDs;
    EachIs(ns, extended, name, 0);
    UuidExchange(ns, extended, name);
  }

  lemma ListExchange(ns: Namespace, extended: bool, name: bytes)
    requires Inv(ns) && Parallel(ns) && NameFits(name) && name in ns.caches
    ensures Exchange(ns, extended, GET_CRED_LIST, CString(name)).1
         == if !extended then Status(NO_SUPPORT)
            else if ListFits(ns.caches[name]) then Payload(ListPayload(ns.caches[name])) else Lost
  {
    hide Dispatch, Inv, ToBE, WriteAll, PutU32;
    assert CString(name) + [] == CString(name);
    Dispatched(ns, GET_CRED_LIST, name, []);
  }

  /** A stored credential is longer than a UUID. */
  lemma RawSize(raw: bytes)
    requires DecodeCredential(raw).Some?
    ensures |raw| >= 24
  {
    hide GetCredential, PutKey, PutFixed, PutList, PutCounted, PutI32, PutU32, WriteAll;
    CredentialFront(raw);
    var c := GetCredential(raw).value.0;
    assert |PutPrincipal(c.client)| >= 12 && |PutPrincipal(c.server)| >= 12;
  }

  lemma {:induction false} ListLonger(creds: seq<bytes>)
    requires forall raw | raw in creds :: DecodeCredential(raw).Some?
    ensures |WriteAll(PutCounted, creds)| >= UUID_SIZE * |creds|
  {
    hide DecodeCredential, ToBE;
    if creds != [] {
      RawSize(creds[0]);
      ListLonger(creds[1..]);
    }
  }

  lemma ListFitsAll(c: Cache)
    requires Readable(c) && ListFits(c)
    ensures UuidsFit(c) && CredsFit(c)
  {
    hide DecodeCredential, WriteAll, PutU32;
    ListLonger(c.creds);
    forall raw | raw in c.creds ensures 4 + |raw| <= MAX_FRAME { AllSmaller(c.creds, raw); }
  }

  /** In every state of the daemon the two ways of reading a cache agree, unless
      its list of credentials is too long for a frame; then the newer way fails
      and the older one works as long as the UUIDs fit. */
  lemma ReadsAgree(ns: Namespace, name: bytes)
    requires Inv(ns) && Parallel(ns) && NameFits(name) && (name in ns.caches ==> CredsFit(ns.caches[name]))
    ensures name !in ns.caches ==> Read(ns, true, name).None? && Read(ns, false, name).None?
    ensures name in ns.caches && ListFits(ns.caches[name]) ==> Read(ns, true, name) == Read(ns, false, name)
    ensures name in ns.caches && !ListFits(ns.caches[name]) ==> Read(ns, true, name).None?
    ensures name in ns.caches && ReadPrincipal(ns, name).Some? ==>
              (Read(ns, false, name).Some? <==> UuidsFit(ns.caches[name])) && (Read(ns, true, name).Some? <==> ListFits(ns.caches[name]))
  {
    hide Inv, Exchange, ReadPrincipal, ReadOffset, ReadByUuids, ParseList, Decoded, ListFits, UuidsFit, CredsFit;
    if name in ns.caches {
      CacheOk(ns, name);
      ListExchange(ns, true, name);
      ListExchange(ns, false, name);
      ReadByUuidsIs(ns, false, name);
      if ListFits(ns.caches[name]) {
        ParsedList(ns.caches[name]);
        ListFitsAll(ns.caches[name]);
      }
    } else {
      NoPrincipal(ns, name);
    }
  }

  lemma NoPrincipal(ns: Namespace, name: bytes)
    requires Parallel(ns) && NameFits(name) && name !in ns.caches
    ensures ReadPrincipal(ns, name).None?
  {
    hide Dispatch, ToBE, GetPrincipal;
    assert CString(name) + [] == CString(name);
    Dispatched(ns, GET_PRINCIPAL, name, []);
  }

  // ----- reachable states

  /** Every stored credential fits a reply. */
  predicate SmallCreds(ns: Namespace) { forall name | name in ns.caches :: CredsFit(ns.caches[name]) }

  lemma {:induction false} RawsSmaller(n: nat, d: bytes)
    requires ReadMany(GetRaw, n, d).Some?
    ensures forall raw | raw in ReadMany(GetRaw, n, d).value.0 :: |raw| <= |d|
    decreases n
  {
    hide DecodeCredential;
    if n > 0 {
      CountedFront(d);
      RawsSmaller(n - 1, GetRaw(d).value.1);
    }
  }

  lemma ReplaceSmaller(rest: bytes)
    requires ParseReplace(rest).Some?
    ensures forall raw | raw in ParseReplace(rest).value.2 :: |raw| <= |rest|
  {
    hide GetPrincipal, GetI32, U32, ReadMany, GetRaw;
    RestShorter(rest);
    var d2 := GetPrincipal(GetI32(rest).value.1).value.1;
    RawsSmaller(U32(d2).value.0, U32(d2).value.1);
  }

  lemma HandleSmall(ns: Namespace, c: Cache, op: nat, rest: bytes)
    requires SmallCreds(ns) && CredsFit(c) && |c.creds| == |c.credUUIDs| && 4 + |rest| <= MAX_FRAME
    ensures SmallCreds(Handle(ns, c, op, rest).0)
  {
    hide GetPrincipal, DecodeCredential, UnmarshalMatch, Kept, Firsts, Seconds, ParseReplace, FreshUuids, FindMatch, GetI32, U32,
         WriteAll, Concat, Uuid;
    if op == REMOVE_CRED && U32(rest).Some? && UnmarshalMatch(U32(rest).value.1).Some? {
      KeptAre(c.creds, c.credUUIDs, UnmarshalMatch(U32(rest).value.1).value, U32(rest).value.0);
    } else if op == REPLACE && ParseReplace(rest).Some? {
      ReplaceSmaller(rest);
    }
  }

  lemma DispatchSmall(ns: Namespace, request: bytes, order: seq<bytes>)
    requires SmallCreds(ns) && Parallel(ns) && |request| <= MAX_FRAME
    ensures SmallCreds(Dispatch(ns, request, order).0)
  {
    hide Handle, SplitCString, Decimal, BE, Uuid;
    if |request| >= 4 {
      SplitShorter(request[4..]);
      match SplitCString(request[4..]) {
        case None =>
        case Some((name, rest)) =>
          if name in ns.caches {
            HandleSmall(ns, ns.caches[name], BE(request[2..4]), rest);
          } else {
            HandleSmall(Ensure(ns, name), Ensure(ns, name).caches[name], BE(request[2..4]), rest);
          }
      }
    }
  }

  lemma {:induction false} RunSmall(ns: Namespace, calls: seq<Call>, r: Namespace)
    requires SmallCreds(ns) && Run(ns, calls, r) && forall c | c in calls :: |c.request| <= MAX_FRAME
    ensures SmallCreds(r)
    decreases |calls|
  {
    hide Dispatch, SmallCreds;
    if calls != [] {
      assert calls[0] in calls;
      DispatchSmall(ns, calls[0].request, calls[0].order);
      RunSmall(Dispatch(ns, calls[0].request, calls[0].order).0, calls[1..], r);
    }
  }

  /** So the two reads agree after every run of framed requests. */
  lemma ReachableReadsAgree(calls: seq<Call>, ns: Namespace, name: bytes)
    requires Run(EMPTY, calls, ns) && (forall c | c in calls :: |c.request| <= MAX_FRAME) && NameFits(name)
    ensures Parallel(ns)
    ensures name !in ns.caches ==> Read(ns, true, name).None? && Read(ns, false, name).None?
    ensures name in ns.caches && ListFits(ns.caches[name]) ==> Read(ns, true, name) == Read(ns, false, name)
    ensures name in ns.caches && !ListFits(ns.caches[name]) ==> Read(ns, true, name).None?
    ensures name in ns.caches && ReadPrincipal(ns, name).Some? ==> (Read(ns, false, name).Some? <==> UuidsFit(ns.caches[name]))
  {
    hide Inv, Read, ReadPrincipal, Run, ListFits, UuidsFit;
    EmptyInv();
    RunInv(EMPTY, calls, ns);
    InvParallel(ns);
    RunSmall(EMPTY, calls, ns);
    ReadsAgree(ns, name);
  }
}
