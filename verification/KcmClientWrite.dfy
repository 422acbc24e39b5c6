/** Writing a whole cache through KCM by its two protocol paths. */
module KcmClientWrite {
  import opened Arithmetic
  import opened Bytes
  import opened Wire
  import opened Credentials
  import Ccache
  import opened MatchCredential
  import opened KcmServer
  import opened KcmTheorems
  import opened KcmClient

  function Raws(cs: seq<Credential>): (r: seq<bytes>)
    ensures |r| == |cs|
  {
    if cs == [] then [] else [PutAnyCredential(cs[0])] + Raws(cs[1..])
  }

  function ReplaceArgs(name: bytes, c: Ccache.Cache): (b: bytes) {
    CString(name) + ReplaceBody(c)
  }

  function ReplaceBody(c: Ccache.Cache): (b: bytes) {
    PutI32(c.header.timeOffset) + (PutPrincipal(c.principal) + (PutU32(|c.credentials|) + WriteAll(PutCounted, Raws(c.credentials))))
  }

  /** STORE for each credential until one fails. */
  function StoreEach(ns: Namespace, extended: bool, name: bytes, raws: seq<bytes>): (r: (Namespace, bool))
    requires Parallel(ns)
    decreases |raws|
  {
    if raws == [] then (ns, true)
    else
      var (s, result) := Exchange(ns, extended, STORE, CString(name) + raws[0]);
      if !result.Payload? then (s, false)
      else StoreEach(s, extended, name, raws[1..])
  }

  /** write, which encodes everything before it makes a call. */
  function Write(ns: Namespace, extended: bool, name: bytes, c: Ccache.Cache): (r: (Namespace, bool))
    requires Parallel(ns)
  {
    if !Ccache.OkCache(c) then (ns, false)
    else
      var (s, result) := Exchange(ns, extended, REPLACE, ReplaceArgs(name, c));
      if result.Payload? then (s, true)
      else if !Unsupported(result) then (s, false)
      else
        var (s1, started) := Exchange(s, extended, INITIALIZE, CString(name) + PutPrincipal(c.principal));
        if !started.Payload? then (s1, false)
        else StoreEach(s1, extended, name, Raws(c.credentials))
  }

  // ----- what the requests do

  lemma {:induction false} RawsDecodeBack(cs: seq<Credential>)
    requires OkAll(OkCredential, cs)
    ensures forall raw | raw in Raws(cs) :: DecodeCredential(raw).Some?
  {
    hide OkCredential, GetCredential, PutCredential;
    if cs != [] {
      RawsDecodeBack(cs[1..]);
      Ccache.OkHasEnctype(cs[0]);
      CredentialBack(cs[0], []);
      assert PutCredential(cs[0]) + [] == PutCredential(cs[0]);
    }
  }

  lemma {:induction false} RawsBack(raws: seq<bytes>, rest: bytes)
    requires forall raw | raw in raws :: DecodeCredential(raw).Some?
    requires forall raw | raw in raws :: Fits(raw)
    ensures ReadMany(GetRaw, |raws|, WriteAll(PutCounted, raws) + rest) == Some((raws, rest))
  {
    hide DecodeCredential, GetCounted, PutCounted;
    if raws == [] {
      assert WriteAll(PutCounted, raws) + rest == rest;
    } else {
      var d := WriteAll(PutCounted, raws[1..]) + rest;
      assert WriteAll(PutCounted, raws) + rest == PutCounted(raws[0]) + d;
      assert raws[0] in raws;
      CountedBack(raws[0], d);
      RawsBack(raws[1..], rest);
      assert [raws[0]] + raws[1..] == raws;
    }
  }

  lemma ReplaceParses(c: Ccache.Cache)
    requires Ccache.OkCache(c) && |ReplaceBody(c)| <= MAX_FRAME
    ensures ParseReplace(ReplaceBody(c)) == Some((c.header.timeOffset, c.principal, Raws(c.credentials)))
  {
    hide DecodeCredential, WriteAll, U32, PutU32, PutI32, GetI32, PutPrincipal, GetPrincipal, Raws, OkPrincipal, OkAll, OkCredential;
    var raws := Raws(c.credentials);
    var d3 := WriteAll(PutCounted, raws);
    var d2 := PutU32(|raws|) + d3;
    RawsDecodeBack(c.credentials);
    forall raw | raw in raws ensures Fits(raw) { AllSmaller(raws, raw); }
    RawsBack(raws, []);
    assert d3 + [] == d3;
    AtLeast(PutCounted, 4, raws);
    DivideLeast(|raws|, 4, |d3|);
    U32Writes(|raws|, d3);
    PrincipalBack(c.principal, d2);
    I32Back(c.header.timeOffset, PutPrincipal(c.principal) + d2);
  }

  /** The cache that both ways leave, up to its offset. */
  function Written(ns: Namespace, name: bytes, c: Ccache.Cache, offset: int32): (r: Namespace) {
    var made := Ensure(ns, name);
    var raws := Raws(c.credentials);
    var d := made.caches[name].(principal := Some(c.principal), creds := raws, credUUIDs := FreshUuids(made.next, |raws|), offset := offset);
    WithCache(made, name, d).(next := made.next + |raws|)
  }

  lemma FrameSize(op: nat, args: bytes)
    ensures |Frame(op, args)| == 4 + |args|
  {
  }

  lemma ReplaceExchange(ns: Namespace, name: bytes, c: Ccache.Cache)
    requires Inv(ns) && Parallel(ns) && 0 !in name && Ccache.OkCache(c)
    ensures Exchange(ns, true, REPLACE, ReplaceArgs(name, c))
         == if 4 + |ReplaceArgs(name, c)| <= MAX_FRAME then (Written(ns, name, c, c.header.timeOffset), Payload([])) else (ns, Lost)
  {
    hide Inv, Dispatch, Frame, ReplaceBody, ParseReplace, Raws, FreshUuids, Ccache.OkCache;
    FrameSize(REPLACE, ReplaceArgs(name, c));
    Dispatched(ns, REPLACE, name, ReplaceBody(c));
    if 4 + |ReplaceArgs(name, c)| <= MAX_FRAME {
      ReplaceParses(c);
      EnsureNamed(ns, name);
    }
  }

  lemma EnsureNamed(ns: Namespace, name: bytes)
    requires Inv(ns)
    ensures name in ns.caches ==> Ensure(ns, name) == ns
    ensures Ensure(ns, name).caches[name].name == name
  {
    if name in ns.caches { CacheOk(ns, name); }
  }

  lemma InitializeExchange(ns: Namespace, name: bytes, p: Principal)
    requires Inv(ns) && Parallel(ns) && 0 !in name && OkPrincipal(p)
    requires 4 + |CString(name) + PutPrincipal(p)| <= MAX_FRAME
    ensures Exchange(ns, false, INITIALIZE, CString(name) + PutPrincipal(p))
         == (Started(ns, name, p), Payload([]))
  {
    hide Inv, Dispatch, Frame, GetPrincipal, PutPrincipal;
    FrameSize(INITIALIZE, CString(name) + PutPrincipal(p));
    Dispatched(ns, INITIALIZE, name, PutPrincipal(p));
    PrincipalBack(p, []);
    assert PutPrincipal(p) + [] == PutPrincipal(p);
    EnsureNamed(ns, name);
  }

  function Started(ns: Namespace, name: bytes, p: Principal): (r: Namespace) {
    var made := Ensure(ns, name);
    WithCache(made, name, made.caches[name].(principal := Some(p), creds := [], credUUIDs := [], offset := 0))
  }

  lemma StoreExchange(ns: Namespace, name: bytes, raw: bytes)
    requires Parallel(ns) && 0 !in name && name in ns.caches && ns.caches[name].name == name && DecodeCredential(raw).Some?
    requires 4 + |CString(name) + raw| <= MAX_FRAME
    ensures Exchange(ns, false, STORE, CString(name) + raw) == (Store(ns, ns.caches[name], raw).0, Payload([]))
  {
    hide Dispatch, Frame, DecodeCredential;
    FrameSize(STORE, CString(name) + raw);
    Dispatched(ns, STORE, name, raw);
  }

  /** After the stores the cache has the credentials and fresh UUIDs. */
  lemma {:induction false} StoredEach(ns: Namespace, name: bytes, raws: seq<bytes>)
    requires Parallel(ns) && 0 !in name && name in ns.caches && ns.caches[name].name == name
    requires forall raw | raw in raws :: DecodeCredential(raw).Some? && 4 + |CString(name) + raw| <= MAX_FRAME
    ensures StoreEach(ns, false, name, raws) == (Appended(ns, name, raws), true)
    decreases |raws|
  {
    hide Exchange, DecodeCredential, Uuid;
    var c := ns.caches[name];
    if raws == [] {
      assert c.creds + [] == c.creds && c.credUUIDs + [] == c.credUUIDs;
      assert Appended(ns, name, raws).caches == ns.caches;
    } else {
      assert raws[0] in raws;
      StoreExchange(ns, name, raws[0]);
      var s := Store(ns, c, raws[0]).0;
      assert Parallel(s);
      StoredEach(s, name, raws[1..]);
      AppendedCons(ns, name, raws);
    }
  }

  function Appended(ns: Namespace, name: bytes, raws: seq<bytes>): (r: Namespace)
    requires name in ns.caches
  {
    var c := ns.caches[name];
    var d := c.(creds := c.creds + raws, credUUIDs := c.credUUIDs + FreshUuids(ns.next, |raws|));
    WithCache(ns, name, d).(next := ns.next + |raws|)
  }

  lemma AppendedCons(ns: Namespace, name: bytes, raws: seq<bytes>)
    requires name in ns.caches && ns.caches[name].name == name && raws != [] && DecodeCredential(raws[0]).Some?
    ensures Appended(Store(ns, ns.caches[name], raws[0]).0, name, raws[1..]) == Appended(ns, name, raws)
  {
    hide DecodeCredential, Uuid;
    var c := ns.caches[name];
    assert c.creds + [raws[0]] + raws[1..] == c.creds + raws;
    var u := Uuid(ns.next + 1);
    assert c.credUUIDs + [u] + FreshUuids(ns.next + 1, |raws| - 1) == c.credUUIDs + FreshUuids(ns.next, |raws|);
  }

  lemma StartedThenStored(ns: Namespace, name: bytes, c: Ccache.Cache)
    requires Inv(ns)
    ensures Appended(Started(ns, name, c.principal), name, Raws(c.credentials)) == Written(ns, name, c, 0)
  {
    hide Inv, Raws, FreshUuids;
    var raws := Raws(c.credentials);
    var made := Ensure(ns, name);
    assert [] + raws == raws;
    assert [] + FreshUuids(made.next, |raws|) == FreshUuids(made.next, |raws|);
  }

  lemma StartedShape(ns: Namespace, name: bytes, p: Principal)
    requires Inv(ns) && Parallel(ns)
    ensures var s := Started(ns, name, p);
            Parallel(s) && name in s.caches && s.caches[name].name == name
  {
    hide Inv;
    EnsureNamed(ns, name);
  }

  lemma SmallerFrames(name: bytes, c: Ccache.Cache)
    requires 4 + |ReplaceArgs(name, c)| <= MAX_FRAME
    ensures 4 + |CString(name) + PutPrincipal(c.principal)| <= MAX_FRAME
    ensures forall raw | raw in Raws(c.credentials) :: 4 + |CString(name) + raw| <= MAX_FRAME
  {
    hide PutPrincipal, PutU32, PutI32, WriteAll, Raws;
    forall raw | raw in Raws(c.credentials)
      ensures 4 + |CString(name) + raw| <= MAX_FRAME
    {
      AllSmaller(Raws(c.credentials), raw);
    }
  }

  /** When the newer request fits a frame both ways succeed and leave the same
      principal, credentials and UUIDs; the older one loses the time offset, so
      the namespaces are equal exactly when it is zero. When it does not fit, both
      ways fail and change nothing, because the older one is not tried. */
  lemma WritesAgree(ns: Namespace, name: bytes, c: Ccache.Cache)
    requires Inv(ns) && Parallel(ns) && 0 !in name && Ccache.OkCache(c)
    ensures 4 + |ReplaceArgs(name, c)| <= MAX_FRAME ==>
              && Write(ns, true, name, c) == (Written(ns, name, c, c.header.timeOffset), true)
              && Write(ns, false, name, c) == (Written(ns, name, c, 0), true)
    ensures 4 + |ReplaceArgs(name, c)| <= MAX_FRAME ==>
              (Write(ns, true, name, c).0 == Write(ns, false, name, c).0 <==> c.header.timeOffset == 0)
    ensures 4 + |ReplaceArgs(name, c)| > MAX_FRAME ==>
              Write(ns, true, name, c) == (ns, false) && Write(ns, false, name, c) == (ns, false)
  {
    hide Inv, Exchange, StoreEach, Written, ReplaceArgs, Started, Raws, Appended, Ccache.OkCache;
    ReplaceExchange(ns, name, c);
    if 4 + |ReplaceArgs(name, c)| <= MAX_FRAME {
      OlderWrite(ns, name, c);
      OffsetsDiffer(ns, name, c, c.header.timeOffset, 0);
    } else {
      LongReplace(ns, name, c);
    }
  }

  lemma LongReplace(ns: Namespace, name: bytes, c: Ccache.Cache)
    requires 4 + |ReplaceArgs(name, c)| > MAX_FRAME && Parallel(ns)
    ensures Exchange(ns, false, REPLACE, ReplaceArgs(name, c)) == (ns, Lost)
  {
    FrameSize(REPLACE, ReplaceArgs(name, c));
  }

  lemma OffsetsDiffer(ns: Namespace, name: bytes, c: Ccache.Cache, a: int32, b: int32)
    ensures Written(ns, name, c, a) == Written(ns, name, c, b) <==> a == b
  {
    hide Raws, FreshUuids, Ensure;
    assert Written(ns, name, c, a).caches[name].offset == a && Written(ns, name, c, b).caches[name].offset == b;
  }

  lemma OlderWrite(ns: Namespace, name: bytes, c: Ccache.Cache)
    requires Inv(ns) && Parallel(ns) && 0 !in name && Ccache.OkCache(c)
    requires 4 + |ReplaceArgs(name, c)| <= MAX_FRAME
    ensures Write(ns, false, name, c) == (Written(ns, name, c, 0), true)
  {
    hide Inv, StoreEach, Written, ReplaceArgs, Started, Raws, Appended, Frame, Dispatch, DecodeCredential, OkPrincipal, OkAll, PutPrincipal;
    FrameSize(REPLACE, ReplaceArgs(name, c));
    SmallerFrames(name, c);
    InitializeExchange(ns, name, c.principal);
    StartedShape(ns, name, c.principal);
    RawsDecodeBack(c.credentials);
    StoredEach(Started(ns, name, c.principal), name, Raws(c.credentials));
    StartedThenStored(ns, name, c);
  }

  // ----- reading what was written

  lemma {:induction false} DecodedRaws(cs: seq<Credential>)
    requires OkAll(OkCredential, cs) && forall raw | raw in Raws(cs) :: DecodeCredential(raw).Some?
    ensures Decoded(Raws(cs)) == cs
  {
    hide OkCredential, GetCredential, PutCredential;
    if cs != [] {
      DecodedRaws(cs[1..]);
      Ccache.OkHasEnctype(cs[0]);
      CredentialBack(cs[0], []);
      assert PutCredential(cs[0]) + [] == PutCredential(cs[0]);
      assert Raws(cs)[1..] == Raws(cs[1..]) && [cs[0]] + cs[1..] == cs;
    }
  }

  lemma PrincipalExchange(ns: Namespace, name: bytes)
    requires Parallel(ns) && NameFits(name) && name in ns.caches && ns.caches[name].principal.Some?
    requires OkPrincipal(ns.caches[name].principal.value) && 4 + |PutPrincipal(ns.caches[name].principal.value)| <= MAX_FRAME
    ensures ReadPrincipal(ns, name) == ns.caches[name].principal
    ensures ReadOffset(ns, name) == ns.caches[name].offset
  {
    hide Dispatch, Frame, PutPrincipal, GetPrincipal, OkPrincipal, PutI32, GetI32;
    var c := ns.caches[name];
    FrameSize(GET_PRINCIPAL, CString(name));
    FrameSize(GET_KDC_OFFSET, CString(name));
    assert CString(name) + [] == CString(name);
    Dispatched(ns, GET_PRINCIPAL, name, []);
    Dispatched(ns, GET_KDC_OFFSET, name, []);
    PrincipalBack(c.principal.value, []);
    assert PutPrincipal(c.principal.value) + [] == PutPrincipal(c.principal.value);
    I32Back(c.offset, []);
    assert PutI32(c.offset) + [] == PutI32(c.offset);
  }

  /** A cache that was written either way reads back either way, without the
      microseconds and, when written the older way, without the time offset. */
  lemma ReadAfterWrite(ns: Namespace, extended: bool, name: bytes, c: Ccache.Cache, again: bool)
    requires Inv(ns) && Parallel(ns) && NameFits(name) && Ccache.OkCache(c) && 4 + |ReplaceArgs(name, c)| <= MAX_FRAME
    requires Ensure(ns, name).next + |c.credentials| < TWO64
    ensures Write(ns, extended, name, c).1
    ensures Parallel(Write(ns, extended, name, c).0)
    ensures KcmClient.Read(Write(ns, extended, name, c).0, again, name)
         == Some(c.(header := Ccache.Header(if extended then c.header.timeOffset else 0, 0)))
  {
    hide Inv, Write, Written, ReplaceArgs, Raws, Ccache.OkCache, Exchange, ReadPrincipal, ReadOffset, ReadByUuids, ParseList, Decoded,
         ListFits, UuidsFit, CredsFit, Readable, OkPrincipal, PutPrincipal;
    WritesAgree(ns, name, c);
    var offset := if extended then c.header.timeOffset else 0;
    var s := Written(ns, name, c, offset);
    WrittenShape(ns, name, c, offset);
    PrincipalExchange(s, name);
    ListExchange(s, again, name);
    ListFitsAll(s.caches[name]);
    ReadByUuidsIs(s, again, name);
    ParsedList(s.caches[name]);
  }

  lemma WrittenShape(ns: Namespace, name: bytes, c: Ccache.Cache, offset: int32)
    requires Inv(ns) && Parallel(ns) && NameFits(name) && Ccache.OkCache(c) && 4 + |ReplaceArgs(name, c)| <= MAX_FRAME
    requires Ensure(ns, name).next + |c.credentials| < TWO64
    ensures var s := Written(ns, name, c, offset);
            && Inv(s) && Parallel(s) && name in s.caches && Readable(s.caches[name]) && ListFits(s.caches[name])
            && s.caches[name].principal == Some(c.principal) && s.caches[name].offset == offset
            && OkPrincipal(c.principal) && 4 + |PutPrincipal(c.principal)| <= MAX_FRAME
            && Decoded(s.caches[name].creds) == c.credentials
  {
    hide Inv, Raws, FreshUuids, PutPrincipal, OkPrincipal, OkAll, OkCredential, WriteAll, PutU32, PutI32, DecodeCredential, Decoded,
         Ensure, Issued, NoDup;
    var made := Ensure(ns, name);
    MadeInv(ns, name);
    var before := made.caches[name];
    var raws := Raws(c.credentials);
    RawsDecodeBack(c.credentials);
    DecodedRaws(c.credentials);
    FreshAre(made.next, |raws|);
    var d := before.(principal := Some(c.principal), creds := raws, credUUIDs := FreshUuids(made.next, |raws|), offset := offset);
    WithCacheInv(made, before, d, made.next + |raws|);
    InvParallel(Written(ns, name, c, offset));
  }

  lemma MadeInv(ns: Namespace, name: bytes)
    requires Inv(ns) && Ensure(ns, name).next < TWO64
    ensures Inv(Ensure(ns, name)) && Ensure(ns, name).caches[name].name == name
  {
    hide Inv;
    EnsureNamed(ns, name);
    if name !in ns.caches { EnsureInv(ns, name); }
  }
}
