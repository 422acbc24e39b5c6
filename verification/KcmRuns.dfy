/** Runs of the KCM daemon: where the names of its caches come from, and a cache
    whose list outgrows a frame. */
module KcmRuns {
  import opened Bytes
  import opened Wire
  import opened Credentials
  import Ccache
  import opened KcmServer
  import opened KcmTheorems
  import opened KcmClient
  import opened KcmClientWrite

  // ----- generated names

  /** The number that a digit string stands for. */
  function Number(b: bytes): (n: int) {
    if b == [] then 0 else 10 * Number(b[..|b| - 1]) + b[|b| - 1] as int - 0x30
  }

  lemma {:induction false} NumberOfDecimal(n: nat)
    ensures Number(Decimal(n)) == n && 0 !in Decimal(n)
    decreases n
  {
    var b := Decimal(n);
    if n < 10 {
      assert b[..0] == [];
    } else {
      NumberOfDecimal(n / 10);
      assert b[..|b| - 1] == Decimal(n / 10);
    }
  }

  lemma GeneratedInjective(m: nat, n: nat)
    requires UNIQUE + Decimal(m) == UNIQUE + Decimal(n)
    ensures m == n
  {
    hide Decimal;
    assert (UNIQUE + Decimal(m))[|UNIQUE|..] == Decimal(m) && (UNIQUE + Decimal(n))[|UNIQUE|..] == Decimal(n);
    NumberOfDecimal(m);
    NumberOfDecimal(n);
  }

  predicate IsRequest(request: bytes) { |request| >= 4 && request[0] == 2 && request[1] == 0 }

  /** The cache that a client names in a request. */
  function NameIn(request: bytes): (r: Option<bytes>) {
    if !IsRequest(request) || BE(request[2..4]) in {GET_DEFAULT_CACHE, GEN_NEW, GET_CACHE_UUID_LIST, GET_CACHE_BY_UUID} then None
    else
      var (name, _) :- SplitCString(request[4..]);
      Some(name)
  }

  /** The cache is there, and stays to the end of the run. */
  ghost predicate Stays(ns: Namespace, calls: seq<Call>, name: bytes)
    decreases |calls|
  {
    && Parallel(ns) && name in ns.caches
    && (calls == [] || Stays(Dispatch(ns, calls[0].request, calls[0].order).0, calls[1..], name))
  }

  /** The cache at the end of the run was made by a request that names it. */
  ghost predicate NamedBy(ns: Namespace, calls: seq<Call>, name: bytes)
    decreases |calls|
  {
    && Parallel(ns) && calls != []
    && var next := Dispatch(ns, calls[0].request, calls[0].order).0;
    || (name !in ns.caches && NameIn(calls[0].request) == Some(name) && Stays(next, calls[1..], name))
    || NamedBy(next, calls[1..], name)
  }

  lemma HandleNames(ns: Namespace, c: Cache, op: nat, rest: bytes)
    requires |c.creds| == |c.credUUIDs| && c.name in ns.caches
    ensures Handle(ns, c, op, rest).0.caches.Keys <= ns.caches.Keys
  {
    hide GetPrincipal, DecodeCredential, U32, GetI32, Kept, ParseReplace, FreshUuids, FindMatch, Uuid, IndexOf, WriteAll, Concat;
  }

  lemma NamedNames(ns: Namespace, op: nat, args: bytes, name: bytes)
    requires Inv(ns) && Parallel(ns) && name in Named(ns, op, args).0.caches
    ensures name in ns.caches || (SplitCString(args).Some? && SplitCString(args).value.0 == name)
  {
    hide Inv, Handle, SplitCString;
    match SplitCString(args) {
      case None =>
      case Some((n, rest)) =>
        if n in ns.caches {
          CacheOk(ns, n);
          HandleNames(ns, ns.caches[n], op, rest);
        } else if !RequiresExisting(op) {
          EnsureShape(ns, n);
          HandleNames(Ensure(ns, n), Ensure(ns, n).caches[n], op, rest);
        }
    }
  }

  /** A request brings only the name it gives or generates into use. */
  lemma DispatchNames(ns: Namespace, c: Call, name: bytes)
    requires Inv(ns) && Parallel(ns) && name in Dispatch(ns, c.request, c.order).0.caches
    ensures name in ns.caches || NameIn(c.request) == Some(name)
            || (name == UNIQUE + Decimal(ns.next + 1) && ns.next + 1 <= Dispatch(ns, c.request, c.order).0.next)
  {
    hide Inv, Named, SplitCString, Decimal, BE, Uuid;
    if IsRequest(c.request) && name in Named(ns, BE(c.request[2..4]), c.request[4..]).0.caches {
      NamedNames(ns, BE(c.request[2..4]), c.request[4..], name);
    }
  }

  /** In every run a cache that was not there all the time was made by a request
      that names it, or has a name that was generated from the counter. */
  lemma {:induction false} NamesTraced(ns: Namespace, calls: seq<Call>, r: Namespace, name: bytes)
    requires Inv(ns) && Run(ns, calls, r) && name in r.caches && !Stays(ns, calls, name) && !NamedBy(ns, calls, name)
    ensures exists k: nat :: ns.next < k <= r.next && name == Generated(k)
    decreases |calls|
  {
    hide Inv, Dispatch, NameIn, Decimal;
    if calls != [] {
      var next := Dispatch(ns, calls[0].request, calls[0].order).0;
      DispatchInv(ns, calls[0].request, calls[0].order);
      DispatchOnlyNew(ns, calls[0].request, calls[0].order);
      RunInv(next, calls[1..], r);
      if Stays(next, calls[1..], name) {
        DispatchNames(ns, calls[0], name);
        assert name == Generated(ns.next + 1);
      } else {
        NamesTraced(next, calls[1..], r, name);
      }
    }
  }

  function Generated(k: nat): (name: bytes) { UNIQUE + Decimal(k) }

  /** In every run, GEN_NEW answers with the name made from the counter. It makes
      a new cache unless that name is in use, and then a request made this cache
      under that name. */
  lemma GenNewIsNew(calls: seq<Call>, ns: Namespace)
    requires Run(EMPTY, calls, ns)
    ensures var name := Generated(ns.next + 1);
            && GenNew(ns).1 == Reply(CString(name), OK)
            && (GenNew(ns).0.caches.Keys == ns.caches.Keys + {name})
            && (GenNew(ns).0.caches == ns.caches <==> name in ns.caches)
            && (name in ns.caches ==> NamedBy(EMPTY, calls, name))
  {
    hide Decimal, Uuid, NamedBy, Run;
    var name := Generated(ns.next + 1);
    if name !in ns.caches {
      assert name in GenNew(ns).0.caches.Keys;
    } else if !NamedBy(EMPTY, calls, name) {
      EmptyInv();
      NamesTraced(EMPTY, calls, ns, name);
      var k: nat :| 0 < k <= ns.next && name == Generated(k);
      GeneratedInjective(k, ns.next + 1);
    }
  }

  /** A client takes the name that GEN_NEW generates next, by initializing a cache
      of that name: GEN_NEW then answers with this cache. */
  lemma GenNewCollides(p: Principal)
    requires OkPrincipal(p) && |PutPrincipal(p)| <= 1000
    ensures var name := Generated(2);
            var taken := Dispatch(EMPTY, Frame(INITIALIZE, CString(name) + PutPrincipal(p)), []);
            && taken.1.code == OK && Parallel(taken.0) && name in taken.0.caches
            && Dispatch(taken.0, Frame(GEN_NEW, []), []) == (taken.0.(next := taken.0.next + 1), Reply(CString(name), OK))
  {
    hide Dispatch, Inv, PutPrincipal, OkPrincipal, Decimal;
    var name := Generated(2);
    assert 0 !in name by { NumberOfDecimal(2); }
    DigitSize();
    EmptyInv();
    FrameSize(INITIALIZE, CString(name) + PutPrincipal(p));
    InitializeExchange(EMPTY, name, p);
    StartedShape(EMPTY, name, p);
    TakenReply(name, p);
    GenNewRequest(Started(EMPTY, name, p));
  }

  lemma DigitSize()
    ensures |Decimal(2)| == 1
  {
  }

  lemma TakenReply(name: bytes, p: Principal)
    requires 0 !in name && OkPrincipal(p)
    ensures Dispatch(EMPTY, Frame(INITIALIZE, CString(name) + PutPrincipal(p)), []) == (Started(EMPTY, name, p), Reply([], OK))
    ensures Started(EMPTY, name, p).next == 1
  {
    hide Dispatch, GetPrincipal, PutPrincipal, Frame, Uuid;
    Dispatched(EMPTY, INITIALIZE, name, PutPrincipal(p));
    PrincipalBack(p, []);
    assert PutPrincipal(p) + [] == PutPrincipal(p);
  }

  lemma GenNewRequest(ns: Namespace)
    requires Parallel(ns)
    ensures Dispatch(ns, Frame(GEN_NEW, []), []) == GenNew(ns)
  {
    hide BE, ToBE, GenNew, Named;
    OpBytes(GEN_NEW);
    assert Frame(GEN_NEW, [])[2..4] == ToBE(GEN_NEW, 2);
  }

  // ----- a list that outgrows its frame

  const NOBODY := Principal([], 0, [])

  function With(ticket: bytes): (c: Credential) {
    Credential(NOBODY, NOBODY, 0, [], 0, Times(0, 0, 0, 0), false, [], [], ticket, [])
  }

  /** Six mebibytes. */
  const BIG: nat := 0x60_0000

  lemma NobodySize()
    ensures OkPrincipal(NOBODY) && |PutPrincipal(NOBODY)| == 12
  {
    assert WriteAll(PutCounted, NOBODY.components) == [];
  }

  lemma BigSize(ticket: bytes)
    requires |ticket| == BIG
    ensures OkCredential(With(ticket)) && BIG <= |PutCredential(With(ticket))| <= BIG + 0x100
  {
    hide PutPrincipal, OkPrincipal, PutU32, PutU16, PutTimes;
    NobodySize();
    var c := With(ticket);
    assert |PutCounted(ticket)| == BIG + 4 && |PutCounted([])| == 4;
    assert |PutList([])| == 4 by { assert WriteAll(PutTagged, []) == []; }
    assert |PutFixed(c.times, c.isSKey, c.flags)| == 21 by { TimesSize(c.times); }
    assert |PutKey(0, [])| == 6;
  }

  lemma TimesSize(t: Times)
    ensures |PutTimes(t)| == 16
  {
    hide PutU32;
  }

  function StoreCall(name: bytes, raw: bytes): (c: Call) { Call(Frame(STORE, CString(name) + raw), []) }

  lemma StoreStep(ns: Namespace, name: bytes, raw: bytes)
    requires Parallel(ns) && 0 !in name && name in ns.caches && ns.caches[name].name == name && DecodeCredential(raw).Some?
    ensures Dispatch(ns, StoreCall(name, raw).request, []).0 == Store(ns, ns.caches[name], raw).0
    ensures var s, c := Store(ns, ns.caches[name], raw).0, ns.caches[name];
            && Parallel(s) && name in s.caches && s.next == ns.next + 1
            && s.caches[name] == c.(creds := c.creds + [raw], credUUIDs := c.credUUIDs + [Uuid(ns.next + 1)])
  {
    hide Dispatch, Frame, DecodeCredential, Uuid;
    Dispatched(ns, STORE, name, raw);
  }

  /** The requests that make the cache: one to initialize it and two that store a
      big credential. */
  function BigCalls(name: bytes, ticket: bytes): (calls: seq<Call>) {
    var raw := PutAnyCredential(With(ticket));
    [Call(Frame(INITIALIZE, CString(name) + PutPrincipal(NOBODY)), []), StoreCall(name, raw), StoreCall(name, raw)]
  }

  lemma BigRun(name: bytes, ticket: bytes) returns (ns: Namespace)
    requires 0 !in name && |name| <= 1000 && |ticket| == BIG
    ensures Run(EMPTY, BigCalls(name, ticket), ns) && (forall c | c in BigCalls(name, ticket) :: |c.request| <= MAX_FRAME)
    ensures var raw := PutAnyCredential(With(ticket));
            && Parallel(ns) && name in ns.caches && ns.caches[name].principal == Some(NOBODY)
            && ns.caches[name].creds == [raw, raw] && |ns.caches[name].credUUIDs| == 2
  {
    hide Dispatch, Inv, Frame, PutPrincipal, OkPrincipal, OkCredential, PutCredential, DecodeCredential, Store, Uuid;
    var raw := PutAnyCredential(With(ticket));
    EmptyInv();
    NobodySize();
    BigSize(ticket);
    RawDecodes(ticket);
    FrameSize(INITIALIZE, CString(name) + PutPrincipal(NOBODY));
    FrameSize(STORE, CString(name) + raw);
    TakenReply(name, NOBODY);
    var s1 := Started(EMPTY, name, NOBODY);
    StartedShape(EMPTY, name, NOBODY);
    StoreStep(s1, name, raw);
    var s2 := Store(s1, s1.caches[name], raw).0;
    StoreStep(s2, name, raw);
    ns := Store(s2, s2.caches[name], raw).0;
    var calls := BigCalls(name, ticket);
    assert calls[1..] == [StoreCall(name, raw), StoreCall(name, raw)] && calls[1..][1..] == [StoreCall(name, raw)];
    assert calls[1..][1..][1..] == [];
    assert Run(ns, [], ns);
    assert Run(s2, calls[1..][1..], ns);
    assert Run(s1, calls[1..], ns);
    assert [] + [raw] + [raw] == [raw, raw];
  }

  lemma RawDecodes(ticket: bytes)
    requires |ticket| == BIG
    ensures DecodeCredential(PutAnyCredential(With(ticket))).Some?
  {
    hide OkCredential, PutCredential, GetCredential;
    BigSize(ticket);
    Ccache.OkHasEnctype(With(ticket));
    CredentialBack(With(ticket), []);
    assert PutCredential(With(ticket)) + [] == PutCredential(With(ticket));
  }

  /** So there are caches that only the older way can read. */
  lemma ListOutgrowsFrame(name: bytes, ticket: bytes) returns (ns: Namespace)
    requires 0 !in name && |name| <= 1000 && |ticket| == BIG
    ensures Run(EMPTY, BigCalls(name, ticket), ns) && (forall c | c in BigCalls(name, ticket) :: |c.request| <= MAX_FRAME)
    ensures name in ns.caches && !ListFits(ns.caches[name]) && UuidsFit(ns.caches[name])
    ensures Parallel(ns) && KcmClient.Read(ns, true, name).None? && KcmClient.Read(ns, false, name).Some?
  {
    hide Run, KcmClient.Read, ReadPrincipal, PutPrincipal, OkPrincipal, PutCredential, OkCredential, BigCalls, ListFits;
    ns := BigRun(name, ticket);
    NobodySize();
    BigSize(ticket);
    ReachableReadsAgree(BigCalls(name, ticket), ns, name);
    TwoBig(ns.caches[name], ticket);
    PrincipalExchange(ns, name);
  }

  lemma TwoBig(c: Cache, ticket: bytes)
    requires |ticket| == BIG
    requires var raw := PutAnyCredential(With(ticket)); c.creds == [raw, raw]
    ensures !ListFits(c)
  {
    hide PutCredential, PutU32;
    BigSize(ticket);
    var raw := PutAnyCredential(With(ticket));
    assert c.creds[1..] == [raw] && |c.creds[1..][1..]| == 0;
    assert WriteAll(PutCounted, c.creds[1..][1..]) == [];
    assert WriteAll(PutCounted, c.creds[1..]) == PutCounted(raw) + [];
    assert WriteAll(PutCounted, c.creds) == PutCounted(raw) + (PutCounted(raw) + []);
  }
}
