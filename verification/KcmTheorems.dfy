/** What every run of the KCM daemon keeps. */
module KcmTheorems {
  import opened Bytes
  import opened Wire
  import opened Credentials
  import opened MatchCredential
  import opened KcmServer

  // ----- the invariant of a namespace

  /** The two maps are inverse to each other. */
  ghost predicate Inverse(ns: Namespace) {
    && (forall name | name in ns.caches :: IndexedBy(ns, name, ns.caches[name]))
    && (forall u | u in ns.uuids :: ns.uuids[u] in ns.caches && ns.caches[ns.uuids[u]].uuid == u)
  }

  predicate IndexedBy(ns: Namespace, name: bytes, c: Cache) {
    c.name == name && c.uuid in ns.uuids && ns.uuids[c.uuid] == name
  }

  ghost predicate Issued(next: nat, u: bytes) { exists k: nat :: 1 <= k <= next && u == Uuid(k) }

  predicate NoDup(xs: seq<bytes>) { forall i, j | 0 <= i < j < |xs| :: xs[i] != xs[j] }

  /** What a cache holds can be read back. */
  predicate Readable(c: Cache) {
    && |c.creds| == |c.credUUIDs|
    && (c.principal.Some? ==> OkPrincipal(c.principal.value))
    && forall raw | raw in c.creds :: DecodeCredential(raw).Some?
  }

  /** All UUIDs of a namespace were issued and are different from each other. */
  ghost predicate Distinct(ns: Namespace) {
    && (forall u | u in ns.uuids :: Issued(ns.next, u))
    && (forall name | name in ns.caches :: OwnIds(ns, ns.caches[name]))
    && (forall a, b, u | a in ns.caches && b in ns.caches && u in ns.caches[a].credUUIDs && u in ns.caches[b].credUUIDs :: a == b)
  }

  ghost predicate OwnIds(ns: Namespace, c: Cache) {
    NoDup(c.credUUIDs) && forall u | u in c.credUUIDs :: Issued(ns.next, u) && u !in ns.uuids
  }

  ghost predicate Inv(ns: Namespace) {
    && Inverse(ns) && Distinct(ns) && ns.next < TWO64
    && forall name | name in ns.caches :: Readable(ns.caches[name])
  }

  lemma EmptyInv()
    ensures Inv(EMPTY)
  {
  }

  lemma InvParallel(ns: Namespace)
    requires Inv(ns)
    ensures Parallel(ns)
  {
  }

  lemma NotIssued(next: nat, m: nat)
    requires next < m < TWO64
    ensures !Issued(next, Uuid(m))
  {
    if Issued(next, Uuid(m)) {
      var k: nat :| 1 <= k <= next && Uuid(m) == Uuid(k);
      UuidInjective(m, k);
      assert false;
    }
  }

  lemma IssuedLater(next: nat, later: nat, u: bytes)
    requires Issued(next, u) && next <= later
    ensures Issued(later, u)
  {
    var k: nat :| 1 <= k <= next && u == Uuid(k);
  }

  lemma CacheOk(ns: Namespace, name: bytes)
    requires Inv(ns) && name in ns.caches
    ensures IndexedBy(ns, name, ns.caches[name]) && OwnIds(ns, ns.caches[name]) && Readable(ns.caches[name])
    ensures ns.next < TWO64
  {
  }

  // ----- changes of one cache

  /** A cache may be replaced by one with the same name and UUID whose
      credential UUIDs are old ones of its own or new ones. */
  lemma WithCacheInv(ns: Namespace, c: Cache, d: Cache, next: nat)
    requires Inv(ns) && c.name in ns.caches && ns.caches[c.name] == c && ns.next <= next < TWO64
    requires d.name == c.name && d.uuid == c.uuid && Readable(d) && NoDup(d.credUUIDs)
    requires forall u | u in d.credUUIDs :: u in c.credUUIDs || (Issued(next, u) && !Issued(ns.next, u))
    ensures Inv(WithCache(ns, c.name, d).(next := next))
  {
    hide Issued, Readable, NoDup, Inverse, Distinct;
    WithCacheInverse(ns, c, d, next);
    WithCacheDistinct(ns, c, d, next);
  }

  lemma WithCacheInverse(ns: Namespace, c: Cache, d: Cache, next: nat)
    requires Inverse(ns) && c.name in ns.caches && ns.caches[c.name] == c && d.name == c.name && d.uuid == c.uuid
    ensures Inverse(WithCache(ns, c.name, d).(next := next))
  {
    var r := WithCache(ns, c.name, d).(next := next);
    forall name | name in r.caches
      ensures IndexedBy(r, name, r.caches[name])
    {
      assert IndexedBy(ns, name, ns.caches[name]);
    }
  }

  lemma WithCacheDistinct(ns: Namespace, c: Cache, d: Cache, next: nat)
    requires Inv(ns) && c.name in ns.caches && ns.caches[c.name] == c && ns.next <= next && NoDup(d.credUUIDs)
    requires forall u | u in d.credUUIDs :: u in c.credUUIDs || (Issued(next, u) && !Issued(ns.next, u))
    ensures Distinct(WithCache(ns, c.name, d).(next := next))
  {
    hide Issued, Readable, NoDup, Inverse, OwnIds;
    var r := WithCache(ns, c.name, d).(next := next);
    forall u | u in r.uuids ensures Issued(next, u) { IssuedLater(ns.next, next, u); }
    forall name | name in r.caches
      ensures OwnIds(r, r.caches[name])
    {
      OwnIdsLater(ns, c, d, next, name);
    }
    forall a, b, u | a in r.caches && b in r.caches && u in r.caches[a].credUUIDs && u in r.caches[b].credUUIDs
      ensures a == b
    {
      OneOwner(ns, c, d, next, a, b, u);
    }
  }

  lemma OwnIdsLater(ns: Namespace, c: Cache, d: Cache, next: nat, name: bytes)
    requires Inv(ns) && c.name in ns.caches && ns.caches[c.name] == c && ns.next <= next
    requires NoDup(d.credUUIDs)
    requires forall u | u in d.credUUIDs :: u in c.credUUIDs || (Issued(next, u) && !Issued(ns.next, u))
    requires name in ns.caches
    ensures OwnIds(WithCache(ns, c.name, d).(next := next), WithCache(ns, c.name, d).caches[name])
  {
    hide Issued, NoDup, Readable;
    var r := WithCache(ns, c.name, d).(next := next);
    assert OwnIds(ns, ns.caches[name]) && OwnIds(ns, c);
    forall u | u in r.caches[name].credUUIDs
      ensures Issued(next, u) && u !in r.uuids
    {
      if name != c.name || u in c.credUUIDs { IssuedLater(ns.next, next, u); }
    }
  }

  lemma OneOwner(ns: Namespace, c: Cache, d: Cache, next: nat, a: bytes, b: bytes, u: bytes)
    requires Inv(ns) && c.name in ns.caches && ns.caches[c.name] == c
    requires forall u | u in d.credUUIDs :: u in c.credUUIDs || (Issued(next, u) && !Issued(ns.next, u))
    requires var caches := WithCache(ns, c.name, d).caches;
             a in caches && b in caches && u in caches[a].credUUIDs && u in caches[b].credUUIDs
    ensures a == b
  {
    hide Issued, NoDup, Readable;
    assert OwnIds(ns, ns.caches[a]) && OwnIds(ns, ns.caches[b]);
  }

  lemma SameNext(ns: Namespace, name: bytes, d: Cache)
    ensures WithCache(ns, name, d).(next := ns.next) == WithCache(ns, name, d)
  {
  }

  /** Making a cache keeps the invariant. */
  lemma EnsureInv(ns: Namespace, name: bytes)
    requires Inv(ns) && ns.next + 1 < TWO64
    ensures Inv(Ensure(ns, name))
  {
    if name !in ns.caches {
      NotIssued(ns.next, ns.next + 1);
      AddedInv(ns, name, Uuid(ns.next + 1));
    }
  }

  lemma AddedInv(ns: Namespace, name: bytes, uuid: bytes)
    requires Inv(ns) && name !in ns.caches && ns.next + 1 < TWO64 && uuid == Uuid(ns.next + 1) && !Issued(ns.next, uuid)
    ensures Inv(Ensure(ns, name))
  {
    hide Issued, Readable, OwnIds, Uuid;
    var r := Ensure(ns, name);
    assert uuid !in ns.uuids;
    AddedInverse(ns, name, uuid);
    IssuedNow(r.next);
    EmptyCache(r, r.caches[name]);
    forall u | u in r.uuids ensures Issued(r.next, u) { if u != uuid { IssuedLater(ns.next, r.next, u); } }
    forall other | other in r.caches
      ensures OwnIds(r, r.caches[other])
    {
      if other != name { OtherOwnIds(ns, name, uuid, other); }
    }
  }

  lemma AddedInverse(ns: Namespace, name: bytes, uuid: bytes)
    requires Inverse(ns) && name !in ns.caches && uuid == Uuid(ns.next + 1) && uuid !in ns.uuids
    ensures Inverse(Ensure(ns, name))
  {
    hide Uuid;
    var r := Ensure(ns, name);
    forall other | other in r.caches
      ensures IndexedBy(r, other, r.caches[other])
    {
      if other != name { assert IndexedBy(ns, other, ns.caches[other]); }
    }
  }

  lemma OtherOwnIds(ns: Namespace, name: bytes, uuid: bytes, other: bytes)
    requires Inv(ns) && name !in ns.caches && uuid == Uuid(ns.next + 1) && !Issued(ns.next, uuid) && other in ns.caches
    ensures OwnIds(Ensure(ns, name), ns.caches[other])
  {
    hide Issued, Readable, NoDup, Uuid;
    assert OwnIds(ns, ns.caches[other]);
    forall u | u in ns.caches[other].credUUIDs
      ensures Issued(ns.next + 1, u) && u !in Ensure(ns, name).uuids
    {
      IssuedLater(ns.next, ns.next + 1, u);
    }
  }

  lemma IssuedNow(next: nat)
    requires next >= 1
    ensures Issued(next, Uuid(next))
  {
  }

  lemma EmptyCache(ns: Namespace, c: Cache)
    requires c.creds == [] && c.credUUIDs == [] && c.principal.None?
    ensures OwnIds(ns, c) && Readable(c)
  {
  }

  lemma CounterInv(ns: Namespace)
    requires Inv(ns) && ns.next + 1 < TWO64
    ensures Inv(ns.(next := ns.next + 1))
  {
    hide Issued, Readable, NoDup;
    var r := ns.(next := ns.next + 1);
    forall u | u in r.uuids ensures Issued(r.next, u) { IssuedLater(ns.next, r.next, u); }
    forall name | name in r.caches
      ensures OwnIds(r, r.caches[name])
    {
      assert OwnIds(ns, ns.caches[name]);
      forall u | u in ns.caches[name].credUUIDs ensures Issued(r.next, u) { IssuedLater(ns.next, r.next, u); }
    }
  }

  // ----- the operations

  lemma InitializeInv(ns: Namespace, c: Cache, rest: bytes)
    requires Inv(ns) && c.name in ns.caches && ns.caches[c.name] == c
    ensures Inv(Initialize(ns, c, rest).0)
  {
    hide Inv, GetPrincipal;
    PrincipalFront(rest);
    match GetPrincipal(rest) {
      case None =>
      case Some((p, more)) =>
        var d := c.(principal := Some(p), creds := [], credUUIDs := [], offset := 0);
        ShrunkInv(ns, c, d);
    }
  }

  lemma ShrunkInv(ns: Namespace, c: Cache, d: Cache)
    requires Inv(ns) && c.name in ns.caches && ns.caches[c.name] == c
    requires d.name == c.name && d.uuid == c.uuid && (d.principal.Some? ==> OkPrincipal(d.principal.value))
    requires d.creds == [] && d.credUUIDs == []
    ensures Inv(WithCache(ns, c.name, d))
  {
    hide Inverse, Distinct;
    SameNext(ns, c.name, d);
    WithCacheInv(ns, c, d, ns.next);
  }

  lemma SameCredsInv(ns: Namespace, c: Cache, d: Cache)
    requires Inv(ns) && c.name in ns.caches && ns.caches[c.name] == c
    requires d == c.(offset := d.offset)
    ensures Inv(WithCache(ns, c.name, d))
  {
    hide Inv, Readable, NoDup, Issued;
    CacheOk(ns, c.name);
    ReadableOffset(c, d);
    SameNext(ns, c.name, d);
    WithCacheInv(ns, c, d, ns.next);
  }

  lemma ReadableOffset(c: Cache, d: Cache)
    requires Readable(c) && d == c.(offset := d.offset)
    ensures Readable(d)
  {
  }

  lemma DestroyInv(ns: Namespace, c: Cache)
    requires Inv(ns) && c.name in ns.caches && ns.caches[c.name] == c
    ensures Inv(Destroy(ns, c))
  {
    hide Issued, Readable, OwnIds;
    var r := Destroy(ns, c);
    assert IndexedBy(ns, c.name, c);
    forall name | name in r.caches
      ensures IndexedBy(r, name, r.caches[name]) && OwnIds(r, r.caches[name])
    {
      CacheOk(ns, name);
      FewerUuids(ns, r, ns.caches[name]);
    }
  }

  lemma FewerUuids(ns: Namespace, r: Namespace, c: Cache)
    requires OwnIds(ns, c) && r.next == ns.next && r.uuids.Keys <= ns.uuids.Keys
    ensures OwnIds(r, c)
  {
    hide Issued, NoDup;
    forall u | u in c.credUUIDs ensures u !in r.uuids { assert u !in ns.uuids.Keys; }
  }

  lemma StoreInv(ns: Namespace, c: Cache, rest: bytes)
    requires Inv(ns) && c.name in ns.caches && ns.caches[c.name] == c && ns.next + 1 < TWO64
    ensures Inv(Store(ns, c, rest).0)
  {
    hide Inv, Issued, DecodeCredential, Readable, OwnIds, NoDup, Uuid;
    if DecodeCredential(rest).Some? {
      var u := Uuid(ns.next + 1);
      var d := c.(creds := c.creds + [rest], credUUIDs := c.credUUIDs + [u]);
      CacheOk(ns, c.name);
      NotIssued(ns.next, ns.next + 1);
      IssuedNow(ns.next + 1);
      StoredOk(ns, c, d, rest, u);
      WithCacheInv(ns, c, d, ns.next + 1);
    }
  }

  lemma StoredOk(ns: Namespace, c: Cache, d: Cache, rest: bytes, u: bytes)
    requires OwnIds(ns, c) && Readable(c) && !Issued(ns.next, u) && DecodeCredential(rest).Some?
    requires d == c.(creds := c.creds + [rest], credUUIDs := c.credUUIDs + [u])
    ensures Readable(d) && NoDup(d.credUUIDs)
    ensures forall v | v in d.credUUIDs :: v in c.credUUIDs || v == u
  {
    hide Issued, DecodeCredential;
    forall i, j | 0 <= i < j < |d.credUUIDs| ensures d.credUUIDs[i] != d.credUUIDs[j] {
      if j == |c.credUUIDs| { assert c.credUUIDs[i] in c.credUUIDs; }
    }
  }

  /** RemoveCred keeps pairs of the cache, in order, and only drops matches. */
  lemma {:induction false} KeptAre(creds: seq<bytes>, uuids: seq<bytes>, t: Credential, flags: nat)
    requires |creds| == |uuids|
    ensures var k := Kept(creds, uuids, t, flags);
            && (forall raw | raw in Firsts(k) :: raw in creds && !Selected(raw, t, flags))
            && (forall u | u in Seconds(k) :: u in uuids)
            && (NoDup(uuids) ==> NoDup(Seconds(k)))
  {
    hide Selected;
    if creds != [] {
      KeptAre(creds[1..], uuids[1..], t, flags);
      var rest := Kept(creds[1..], uuids[1..], t, flags);
      TailNoDup(uuids);
      if !Selected(creds[0], t, flags) {
        var k := [(creds[0], uuids[0])] + rest;
        assert k[1..] == rest;
        ConsNoDup(uuids[0], Seconds(rest), uuids);
      }
    }
  }

  /** Nothing else is dropped, and pairs stay pairs: what is kept are the
      positions that do not match, in their order. */
  lemma {:induction false} KeptExact(creds: seq<bytes>, uuids: seq<bytes>, t: Credential, flags: nat, i: nat)
    requires |creds| == |uuids| && i < |creds| && !Selected(creds[i], t, flags)
    ensures (creds[i], uuids[i]) in Kept(creds, uuids, t, flags)
    decreases i
  {
    hide Selected;
    if i > 0 { KeptExact(creds[1..], uuids[1..], t, flags, i - 1); }
  }

  /** Removing a credential leaves no copy of it. */
  lemma RemovesItself(c: Cache, cred: Credential, flags: nat)
    requires |c.creds| == |c.credUUIDs|
    ensures forall raw | raw in Firsts(Kept(c.creds, c.credUUIDs, cred, flags)) :: DecodeCredential(raw) != Some(cred)
  {
    hide Matches, DecodeCredential, Kept, Firsts;
    KeptAre(c.creds, c.credUUIDs, cred, flags);
    MatchesItself(cred, flags);
  }

  lemma TailNoDup(xs: seq<bytes>)
    requires xs != []
    ensures NoDup(xs) ==> NoDup(xs[1..]) && xs[0] !in xs[1..]
  {
  }

  lemma ConsNoDup(x: bytes, ys: seq<bytes>, xs: seq<bytes>)
    requires xs != [] && x == xs[0] && forall u | u in ys :: u in xs[1..]
    ensures NoDup(xs) && NoDup(ys) ==> NoDup([x] + ys)
  {
    if NoDup(xs) && NoDup(ys) {
      TailNoDup(xs);
      assert x !in ys;
    }
  }

  lemma RemoveCredInv(ns: Namespace, c: Cache, rest: bytes)
    requires Inv(ns) && c.name in ns.caches && ns.caches[c.name] == c && |c.creds| == |c.credUUIDs|
    ensures Inv(RemoveCred(ns, c, rest).0)
  {
    hide Inv, U32, UnmarshalMatch, Kept, Firsts, Seconds, Issued, DecodeCredential;
    CacheOk(ns, c.name);
    match U32(rest) {
      case None =>
      case Some((flags, d)) =>
        match UnmarshalMatch(d) {
          case None =>
          case Some(tag) =>
            var kept := Kept(c.creds, c.credUUIDs, tag, flags);
            KeptAre(c.creds, c.credUUIDs, tag, flags);
            var e := c.(creds := Firsts(kept), credUUIDs := Seconds(kept));
            SameNext(ns, c.name, e);
            WithCacheInv(ns, c, e, ns.next);
        }
    }
  }

  lemma {:induction false} FreshAre(next: nat, n: nat)
    requires next + n < TWO64
    ensures forall u | u in FreshUuids(next, n) :: Issued(next + n, u) && !Issued(next, u)
    ensures NoDup(FreshUuids(next, n))
    decreases n
  {
    if n > 0 {
      FreshAre(next + 1, n - 1);
      var rest := FreshUuids(next + 1, n - 1);
      NotIssued(next, next + 1);
      IssuedNow(next + 1);
      IssuedLater(next + 1, next + n, Uuid(next + 1));
      forall u | u in rest ensures !Issued(next, u) && u != Uuid(next + 1) {
        if Issued(next, u) { IssuedLater(next, next + 1, u); }
      }
    }
  }

  lemma {:induction false} RawsDecode(n: nat, d: bytes)
    requires ReadMany(GetRaw, n, d).Some?
    ensures forall raw | raw in ReadMany(GetRaw, n, d).value.0 :: DecodeCredential(raw).Some?
    ensures |ReadMany(GetRaw, n, d).value.0| == n
    decreases n
  {
    hide DecodeCredential;
    if n > 0 { RawsDecode(n - 1, GetRaw(d).value.1); }
  }

  lemma ReplaceCount(rest: bytes)
    requires ParseReplace(rest).Some?
    ensures |ParseReplace(rest).value.2| <= |rest|
    ensures OkPrincipal(ParseReplace(rest).value.1)
    ensures forall raw | raw in ParseReplace(rest).value.2 :: DecodeCredential(raw).Some?
  {
    hide GetPrincipal, GetI32, U32, ReadMany, DecodeCredential, OkPrincipal;
    var d1 := GetI32(rest).value.1;
    PrincipalFront(d1);
    var d2 := GetPrincipal(d1).value.1;
    var (count, d3) := U32(d2).value;
    RawsDecode(count, d3);
    RestShorter(rest);
  }

  lemma RestShorter(rest: bytes)
    requires ParseReplace(rest).Some?
    ensures |U32(GetPrincipal(GetI32(rest).value.1).value.1).value.1| <= |rest|
  {
    hide GetPrincipal, ReadMany, GetMany;
    PrincipalFront(GetI32(rest).value.1);
  }

  lemma ReplaceInv(ns: Namespace, c: Cache, rest: bytes)
    requires Inv(ns) && c.name in ns.caches && ns.caches[c.name] == c && ns.next + |rest| < TWO64
    ensures Inv(Replace(ns, c, rest).0)
  {
    hide Inv, ParseReplace, FreshUuids, DecodeCredential, Issued;
    match ParseReplace(rest) {
      case None =>
      case Some((offset, p, creds)) =>
        ReplaceCount(rest);
        FreshAre(ns.next, |creds|);
        var d := c.(principal := Some(p), offset := offset, creds := creds, credUUIDs := FreshUuids(ns.next, |creds|));
        WithCacheInv(ns, c, d, ns.next + |creds|);
    }
  }

  lemma HandleInv(ns: Namespace, c: Cache, op: nat, rest: bytes)
    requires Inv(ns) && c.name in ns.caches && ns.caches[c.name] == c && |c.creds| == |c.credUUIDs|
    requires ns.next + |rest| + 1 < TWO64
    ensures Inv(Handle(ns, c, op, rest).0)
  {
    hide Initialize, Destroy, Store, RemoveCred, Replace, Retrieve, Inverse, Distinct, Readable, GetI32;
    if op == INITIALIZE { InitializeInv(ns, c, rest); }
    else if op == DESTROY { DestroyInv(ns, c); }
    else if op == STORE { StoreInv(ns, c, rest); }
    else if op == REMOVE_CRED { RemoveCredInv(ns, c, rest); }
    else if op == REPLACE { ReplaceInv(ns, c, rest); }
    else if op == SET_KDC_OFFSET && |rest| == 4 && GetI32(rest).Some? { SameCredsInv(ns, c, c.(offset := GetI32(rest).value.0)); }
    else if op == RETRIEVE { RetrieveKeeps(ns, c, rest); }
    else if op == SET_DEFAULT_CACHE { DefaultInv(ns, c.name); }
  }

  lemma RetrieveKeeps(ns: Namespace, c: Cache, rest: bytes)
    ensures Retrieve(ns, c, rest).0 == ns
  {
    hide UnmarshalMatch, FindMatch, U32;
  }

  lemma DefaultInv(ns: Namespace, name: bytes)
    requires Inv(ns)
    ensures Inv(ns.(defaultName := name))
  {
    hide Issued, Readable, NoDup;
    var r := ns.(defaultName := name);
    forall other | other in r.caches
      ensures IndexedBy(r, other, r.caches[other]) && OwnIds(r, r.caches[other])
    {
      assert IndexedBy(ns, other, ns.caches[other]) && OwnIds(ns, ns.caches[other]);
    }
  }

  /** Every request keeps the maps inverse to each other, the two lists of every
      cache in step and all UUIDs different. */
  lemma DispatchInv(ns: Namespace, request: bytes, order: seq<bytes>)
    requires Inv(ns) && Parallel(ns) && ns.next + |request| + 2 < TWO64
    ensures Inv(Dispatch(ns, request, order).0)
  {
    hide Inverse, Distinct, Readable, Handle, Ensure, SplitCString, Decimal, BE;
    if |request| >= 4 {
      var args := request[4..];
      CounterInv(ns);
      EnsureInv(ns.(next := ns.next + 1), UNIQUE + Decimal(ns.next + 1));
      NamedInv(ns, BE(request[2..4]), args);
    }
  }

  lemma {:induction false} SplitShorter(d: bytes)
    ensures SplitCString(d).Some? ==> |SplitCString(d).value.1| < |d|
  {
    if d != [] { SplitShorter(d[1..]); }
  }

  lemma NamedInv(ns: Namespace, op: nat, args: bytes)
    requires Inv(ns) && Parallel(ns) && ns.next + |args| + 2 < TWO64
    ensures Inv(Named(ns, op, args).0)
  {
    hide Distinct, Readable, Handle, Ensure, SplitCString;
    SplitShorter(args);
    match SplitCString(args) {
      case None =>
      case Some((name, rest)) =>
        if name in ns.caches {
          assert IndexedBy(ns, name, ns.caches[name]);
          HandleInv(ns, ns.caches[name], op, rest);
        } else {
          EnsureInv(ns, name);
          EnsureShape(ns, name);
          HandleInv(Ensure(ns, name), Ensure(ns, name).caches[name], op, rest);
        }
    }
  }

  lemma EnsureShape(ns: Namespace, name: bytes)
    requires name !in ns.caches
    ensures var c := Ensure(ns, name).caches[name];
            c.name == name && |c.creds| == |c.credUUIDs| && Ensure(ns, name).next == ns.next + 1
  {
  }

  // ----- UUIDs over a run

  /** In use as the UUID of a cache or of a credential. */
  ghost predicate Live(ns: Namespace, u: bytes) {
    u in ns.uuids || exists name :: name in ns.caches && u in ns.caches[name].credUUIDs
  }

  ghost predicate IssuedBetween(low: nat, high: nat, u: bytes) { exists k: nat :: low < k <= high && u == Uuid(k) }

  /** A step only brings UUIDs of its own into use. */
  ghost predicate OnlyNew(ns: Namespace, r: Namespace) {
    ns.next <= r.next && forall u :: Live(r, u) && !Live(ns, u) ==> IssuedBetween(ns.next, r.next, u)
  }

  lemma OnlyNewTrans(a: Namespace, b: Namespace, c: Namespace)
    requires OnlyNew(a, b) && OnlyNew(b, c)
    ensures OnlyNew(a, c)
  {
    hide Live;
    forall u | Live(c, u) && !Live(a, u)
      ensures IssuedBetween(a.next, c.next, u)
    {
      if Live(b, u) {
        var k: nat :| a.next < k <= b.next && u == Uuid(k);
      } else {
        var k: nat :| b.next < k <= c.next && u == Uuid(k);
      }
    }
  }

  lemma CacheOnlyNew(ns: Namespace, c: Cache, d: Cache, next: nat)
    requires c.name in ns.caches && ns.caches[c.name] == c && ns.next <= next
    requires forall u | u in d.credUUIDs :: u in c.credUUIDs || IssuedBetween(ns.next, next, u)
    ensures OnlyNew(ns, WithCache(ns, c.name, d).(next := next))
  {
    hide IssuedBetween;
    var r := WithCache(ns, c.name, d).(next := next);
    forall u | Live(r, u)
      ensures Live(ns, u) || IssuedBetween(ns.next, next, u)
    {
      if u !in r.uuids {
        var name :| name in r.caches && u in r.caches[name].credUUIDs;
        if name != c.name { assert name in ns.caches && u in ns.caches[name].credUUIDs; }
      }
    }
  }

  lemma {:induction false} FreshBetween(next: nat, n: nat)
    ensures forall u | u in FreshUuids(next, n) :: IssuedBetween(next, next + n, u)
    decreases n
  {
    if n > 0 {
      FreshBetween(next + 1, n - 1);
      forall u | u in FreshUuids(next, n)
        ensures IssuedBetween(next, next + n, u)
      {
        if u in FreshUuids(next + 1, n - 1) {
          var k: nat :| next + 1 < k <= next + n && u == Uuid(k);
        } else {
          assert u == Uuid(next + 1);
        }
      }
    }
  }

  lemma EnsureOnlyNew(ns: Namespace, name: bytes)
    ensures OnlyNew(ns, Ensure(ns, name))
  {
    var r := Ensure(ns, name);
    forall u | Live(r, u)
      ensures Live(ns, u) || IssuedBetween(ns.next, r.next, u)
    {
      if u in r.uuids {
        assert u in ns.uuids || u == Uuid(ns.next + 1);
      } else {
        var other :| other in r.caches && u in r.caches[other].credUUIDs;
        if other in ns.caches { assert u in ns.caches[other].credUUIDs; }
      }
    }
  }

  lemma FewerLive(ns: Namespace, r: Namespace)
    requires r.next >= ns.next && r.uuids.Keys <= ns.uuids.Keys
    requires forall name | name in r.caches :: name in ns.caches && forall u | u in r.caches[name].credUUIDs :: u in ns.caches[name].credUUIDs
    ensures OnlyNew(ns, r)
  {
    hide IssuedBetween;
    forall u | Live(r, u)
      ensures Live(ns, u)
    {
      if u in r.uuids {
        assert u in ns.uuids.Keys;
      } else {
        var name :| name in r.caches && u in r.caches[name].credUUIDs;
        assert u in ns.caches[name].credUUIDs;
      }
    }
  }

  lemma HandleOnlyNew(ns: Namespace, c: Cache, op: nat, rest: bytes)
    requires c.name in ns.caches && ns.caches[c.name] == c && |c.creds| == |c.credUUIDs|
    ensures OnlyNew(ns, Handle(ns, c, op, rest).0)
  {
    hide OnlyNew, Initialize, Store, RemoveCred, Replace, Retrieve, SetOffset, Uuid;
    FewerLive(ns, ns);
    if op == INITIALIZE { InitializeOnlyNew(ns, c, rest); }
    else if op == DESTROY { FewerLive(ns, Destroy(ns, c)); }
    else if op == STORE { StoreOnlyNew(ns, c, rest); }
    else if op == REMOVE_CRED { RemoveOnlyNew(ns, c, rest); }
    else if op == REPLACE { ReplaceOnlyNew(ns, c, rest); }
    else if op == SET_KDC_OFFSET { OffsetOnlyNew(ns, c, rest); }
    else if op == RETRIEVE { RetrieveKeeps(ns, c, rest); }
    else if op == SET_DEFAULT_CACHE { FewerLive(ns, ns.(defaultName := c.name)); }
  }

  lemma InitializeOnlyNew(ns: Namespace, c: Cache, rest: bytes)
    requires c.name in ns.caches && ns.caches[c.name] == c
    ensures OnlyNew(ns, Initialize(ns, c, rest).0)
  {
    hide OnlyNew, GetPrincipal;
    FewerLive(ns, Initialize(ns, c, rest).0);
  }

  lemma OffsetOnlyNew(ns: Namespace, c: Cache, rest: bytes)
    requires c.name in ns.caches && ns.caches[c.name] == c
    ensures OnlyNew(ns, SetOffset(ns, c, rest).0)
  {
    hide OnlyNew, GetI32;
    FewerLive(ns, SetOffset(ns, c, rest).0);
  }

  lemma StoreOnlyNew(ns: Namespace, c: Cache, rest: bytes)
    requires c.name in ns.caches && ns.caches[c.name] == c
    ensures OnlyNew(ns, Store(ns, c, rest).0)
  {
    hide OnlyNew, DecodeCredential, Uuid;
    FewerLive(ns, ns);
    var d := c.(creds := c.creds + [rest], credUUIDs := c.credUUIDs + [Uuid(ns.next + 1)]);
    CacheOnlyNew(ns, c, d, ns.next + 1);
  }

  lemma RemoveOnlyNew(ns: Namespace, c: Cache, rest: bytes)
    requires c.name in ns.caches && ns.caches[c.name] == c && |c.creds| == |c.credUUIDs|
    ensures OnlyNew(ns, RemoveCred(ns, c, rest).0)
  {
    hide OnlyNew, U32, UnmarshalMatch, Kept, Firsts, Seconds;
    FewerLive(ns, ns);
    match U32(rest) {
      case None =>
      case Some((flags, d)) =>
        match UnmarshalMatch(d) {
          case None =>
          case Some(tag) =>
            KeptAre(c.creds, c.credUUIDs, tag, flags);
            FewerLive(ns, RemoveCred(ns, c, rest).0);
        }
    }
  }

  lemma ReplaceOnlyNew(ns: Namespace, c: Cache, rest: bytes)
    requires c.name in ns.caches && ns.caches[c.name] == c
    ensures OnlyNew(ns, Replace(ns, c, rest).0)
  {
    hide OnlyNew, ParseReplace, FreshUuids;
    FewerLive(ns, ns);
    match ParseReplace(rest) {
      case None =>
      case Some((offset, p, creds)) =>
        FreshBetween(ns.next, |creds|);
        var d := c.(principal := Some(p), offset := offset, creds := creds, credUUIDs := FreshUuids(ns.next, |creds|));
        CacheOnlyNew(ns, c, d, ns.next + |creds|);
    }
  }

  lemma DispatchOnlyNew(ns: Namespace, request: bytes, order: seq<bytes>)
    requires Inv(ns) && Parallel(ns)
    ensures OnlyNew(ns, Dispatch(ns, request, order).0)
  {
    hide OnlyNew, Handle, Ensure, SplitCString, Decimal, BE;
    FewerLive(ns, ns);
    if |request| >= 4 {
      var counted := ns.(next := ns.next + 1);
      FewerLive(ns, counted);
      EnsureOnlyNew(counted, UNIQUE + Decimal(ns.next + 1));
      OnlyNewTrans(ns, counted, Ensure(counted, UNIQUE + Decimal(ns.next + 1)));
      NamedOnlyNew(ns, BE(request[2..4]), request[4..]);
    }
  }

  lemma NamedOnlyNew(ns: Namespace, op: nat, args: bytes)
    requires Inv(ns) && Parallel(ns)
    ensures OnlyNew(ns, Named(ns, op, args).0)
  {
    hide OnlyNew, Handle, Ensure, SplitCString;
    FewerLive(ns, ns);
    match SplitCString(args) {
      case None =>
      case Some((name, rest)) =>
        if name in ns.caches {
          CacheOk(ns, name);
          HandleOnlyNew(ns, ns.caches[name], op, rest);
        } else {
          var made := Ensure(ns, name);
          EnsureOnlyNew(ns, name);
          EnsureShape(ns, name);
          HandleOnlyNew(made, made.caches[name], op, rest);
          OnlyNewTrans(ns, made, Handle(made, made.caches[name], op, rest).0);
        }
    }
  }

  // ----- runs

  datatype Call = Call(request: bytes, order: seq<bytes>)

  /** A run of requests in one namespace that stays below 2^64 UUIDs. */
  ghost predicate Run(ns: Namespace, calls: seq<Call>, r: Namespace)
    decreases |calls|
  {
    && Parallel(ns)
    && if calls == [] then r == ns
       else && ns.next + |calls[0].request| + 2 < TWO64
            && Run(Dispatch(ns, calls[0].request, calls[0].order).0, calls[1..], r)
  }

  /** In every run from an empty namespace the invariant holds. */
  lemma {:induction false} RunInv(ns: Namespace, calls: seq<Call>, r: Namespace)
    requires Inv(ns) && Run(ns, calls, r)
    ensures Inv(r) && ns.next <= r.next
    decreases |calls|
  {
    hide Inv, Dispatch;
    if calls != [] {
      DispatchInv(ns, calls[0].request, calls[0].order);
      DispatchOnlyNew(ns, calls[0].request, calls[0].order);
      RunInv(Dispatch(ns, calls[0].request, calls[0].order).0, calls[1..], r);
    }
  }

  /** A UUID that was issued and is no longer in use is never used again. */
  lemma {:induction false} NeverReissued(ns: Namespace, calls: seq<Call>, r: Namespace, u: bytes)
    requires Inv(ns) && Run(ns, calls, r) && Issued(ns.next, u) && !Live(ns, u)
    ensures !Live(r, u)
    decreases |calls|
  {
    hide Inv, Dispatch, Live;
    if calls != [] {
      var next := Dispatch(ns, calls[0].request, calls[0].order).0;
      DispatchInv(ns, calls[0].request, calls[0].order);
      DispatchOnlyNew(ns, calls[0].request, calls[0].order);
      NextBounded(next);
      StaysDead(ns, next, u);
      IssuedLater(ns.next, next.next, u);
      NeverReissued(next, calls[1..], r, u);
    }
  }

  lemma NextBounded(ns: Namespace)
    requires Inv(ns)
    ensures ns.next < TWO64
  {
  }

  lemma StaysDead(ns: Namespace, r: Namespace, u: bytes)
    requires OnlyNew(ns, r) && r.next < TWO64 && Issued(ns.next, u) && !Live(ns, u)
    ensures !Live(r, u)
  {
    hide Live;
    if Live(r, u) {
      var k: nat :| ns.next < k <= r.next && u == Uuid(k);
      NotIssued(ns.next, k);
      assert false;
    }
  }
}
