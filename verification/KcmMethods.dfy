/** The KCM daemon's loops and its mutable state. */
module KcmMethods {
  import opened Bytes
  import opened Wire
  import opened Credentials
  import opened MatchCredential
  import opened KcmServer
  import opened KcmTheorems
  import opened KcmIsolation

  // ----- loops

  method SameComponents(a: seq<bytes>, b: seq<bytes>) returns (same: bool)
    ensures same == (a == b)
  {
    if |a| != |b| { return false; }
    for i := 0 to |a|
      invariant a[..i] == b[..i]
    {
      if a[i] != b[i] { return false; }
    }
    return true;
  }

  method SameAuthData(a: seq<Tagged>, b: seq<Tagged>) returns (same: bool)
    ensures same == (a == b)
  {
    if |a| != |b| { return false; }
    for i := 0 to |a|
      invariant a[..i] == b[..i]
    {
      if a[i].typ != b[i].typ || a[i].data != b[i].data { return false; }
    }
    return true;
  }

  method NamesMatch(v: Credential, t: Credential, flags: nat) returns (r: bool)
    ensures r == MatchesNames(v, t, flags)
  {
    hide Has;
    if v.client.realm != t.client.realm || |v.client.components| != |t.client.components| {
      if !Has(flags, DONT_MATCH_REALM) { return false; }
    }
    var same := SameComponents(v.client.components, t.client.components);
    if !same { return false; }
    if !Has(flags, MATCH_SERVER_NAME) && v.server.realm != t.server.realm { return false; }
    r := SameComponents(v.server.components, t.server.components);
  }

  method CredentialMatches(v: Credential, t: Credential, flags: nat) returns (r: bool)
    ensures r == Matches(v, t, flags)
  {
    hide Has, Covers, MatchesNames;
    var same := NamesMatch(v, t, flags);
    if !same { return false; }
    if Has(flags, MATCH_KEY_TYPE) && v.enctype != t.enctype { return false; }
    if Has(flags, MATCH_FLAGS_EXACT) && v.flags != t.flags { return false; }
    if Has(flags, MATCH_FLAGS) && !Covers(v.flags, t.flags) { return false; }
    if Has(flags, MATCH_TIMES_EXACT) && v.times != t.times { return false; }
    if Has(flags, MATCH_TIMES) && (v.times.auth < t.times.auth || v.times.end < t.times.end) { return false; }
    if Has(flags, MATCH_SKEY) && v.isSKey != t.isSKey { return false; }
    if Has(flags, MATCH_SECOND) && v.secondTicket != t.secondTicket { return false; }
    if Has(flags, MATCH_AUTH_DATA) {
      same := SameAuthData(v.authData, t.authData);
      if !same { return false; }
    }
    return true;
  }

  method Chosen(raw: bytes, t: Credential, flags: nat) returns (r: bool)
    ensures r == Selected(raw, t, flags)
  {
    hide Matches, DecodeCredential;
    var c := DecodeCredential(raw);
    if c.None? { return false; }
    r := CredentialMatches(c.value, t, flags);
  }

  /** The in-place compaction of RemoveCred: the first n positions of both arrays
      hold the pairs that stay. */
  method Compact(creds: array<bytes>, uuids: array<bytes>, t: Credential, flags: nat) returns (n: nat)
    requires creds.Length == uuids.Length && creds != uuids
    modifies creds, uuids
    ensures n <= creds.Length
    ensures var kept := Kept(old(creds[..]), old(uuids[..]), t, flags);
            n == |kept| && creds[..n] == Firsts(kept) && uuids[..n] == Seconds(kept)
    ensures n == creds.Length ==> creds[..] == old(creds[..]) && uuids[..] == old(uuids[..])
  {
    hide Selected, Kept, Firsts, Seconds, Zip;
    n := 0;
    ghost var cs, us := creds[..], uuids[..];
    KeptNothing(cs, us, t, flags);
    for i := 0 to creds.Length
      invariant n <= i
      invariant Kept(cs[..i], us[..i], t, flags) == Zip(creds[..n], uuids[..n])
      invariant creds[i..] == cs[i..] && uuids[i..] == us[i..]
      invariant n == i ==> creds[..] == cs && uuids[..] == us
    {
      assert creds[i] == cs[i] && uuids[i] == us[i];
      KeptSnoc(cs, us, t, flags, i);
      var drop := Chosen(creds[i], t, flags);
      if drop { continue; }
      ghost var before := Zip(creds[..n], uuids[..n]);
      ZipSnoc(creds[..n], uuids[..n], cs[i], us[i]);
      creds[n] := creds[i];
      uuids[n] := uuids[i];
      assert creds[..n + 1] == creds[..n] + [cs[i]] && uuids[..n + 1] == uuids[..n] + [us[i]];
      n := n + 1;
    }
    assert cs[..creds.Length] == cs && us[..creds.Length] == us;
    ZipParts(creds[..n], uuids[..n]);
  }

  function Zip(a: seq<bytes>, b: seq<bytes>): (r: seq<(bytes, bytes)>)
    requires |a| == |b|
    ensures |r| == |a|
  {
    if a == [] then [] else [(a[0], b[0])] + Zip(a[1..], b[1..])
  }

  lemma {:induction false} ZipSnoc(a: seq<bytes>, b: seq<bytes>, x: bytes, y: bytes)
    requires |a| == |b|
    ensures Zip(a + [x], b + [y]) == Zip(a, b) + [(x, y)]
  {
    if a != [] {
      ZipSnoc(a[1..], b[1..], x, y);
      assert (a + [x])[1..] == a[1..] + [x] && (b + [y])[1..] == b[1..] + [y];
    }
  }

  lemma {:induction false} ZipParts(a: seq<bytes>, b: seq<bytes>)
    requires |a| == |b|
    ensures Firsts(Zip(a, b)) == a && Seconds(Zip(a, b)) == b
  {
    if a != [] {
      ZipParts(a[1..], b[1..]);
      assert Zip(a, b)[1..] == Zip(a[1..], b[1..]);
    }
  }

  lemma KeptNothing(cs: seq<bytes>, us: seq<bytes>, t: Credential, flags: nat)
    ensures Kept(cs[..0], us[..0], t, flags) == Zip(cs[..0], us[..0]) == []
  {
  }

  lemma {:induction false} KeptSnoc(cs: seq<bytes>, us: seq<bytes>, t: Credential, flags: nat, i: nat)
    requires |cs| == |us| && i < |cs|
    ensures Kept(cs[..i + 1], us[..i + 1], t, flags)
         == Kept(cs[..i], us[..i], t, flags) + (if Selected(cs[i], t, flags) then [] else [(cs[i], us[i])])
    decreases i
  {
    hide Selected;
    if i == 0 {
      assert cs[..1] == [cs[0]] && us[..1] == [us[0]] && |cs[..1][1..]| == 0 && |us[..1][1..]| == 0;
      assert cs[..1][1..] == cs[..0] && us[..1][1..] == us[..0];
      assert Kept([], [], t, flags) == [];
    } else {
      KeptSnoc(cs[1..], us[1..], t, flags, i - 1);
      assert cs[..i + 1][1..] == cs[1..][..i] && cs[..i][1..] == cs[1..][..i - 1];
      assert us[..i + 1][1..] == us[1..][..i] && us[..i][1..] == us[1..][..i - 1];
    }
  }

  method ListCreds(creds: seq<bytes>) returns (b: bytes)
    ensures b == PutU32(|creds|) + WriteAll(PutCounted, creds)
  {
    hide ToBE, WriteAll;
    b := ToBE(|creds|, 4);
    ghost var start := b;
    WriteAllEmpty(PutCounted, creds);
    for i := 0 to |creds|
      invariant b == start + WriteAll(PutCounted, creds[..i])
    {
      WriteAllSnoc(PutCounted, creds, i);
      b := b + ToBE(|creds[i]|, 4) + creds[i];
    }
    assert creds[..|creds|] == creds;
  }

  method Joined(xs: seq<bytes>) returns (b: bytes)
    ensures b == Concat(xs)
  {
    b := [];
    assert xs[0..] == xs;
    for i := 0 to |xs|
      invariant Concat(xs) == b + Concat(xs[i..])
    {
      assert xs[i..][1..] == xs[i + 1..];
      b := b + xs[i];
    }
    assert xs[|xs|..] == [];
  }

  method FindUuid(xs: seq<bytes>, x: bytes) returns (r: Option<nat>)
    ensures r == IndexOf(xs, x)
  {
    assert xs[0..] == xs;
    for i := 0 to |xs|
      invariant IndexOf(xs, x) == var more := IndexOf(xs[i..], x);
                                  if more.None? then None else Some(i + more.value)
    {
      assert xs[i..][0] == xs[i] && xs[i..][1..] == xs[i + 1..];
      if xs[i] == x { return Some(i); }
    }
    return None;
  }

  method FirstMatch(creds: seq<bytes>, t: Credential, flags: nat) returns (r: Option<bytes>)
    ensures r == FindMatch(creds, t, flags)
  {
    hide Selected;
    assert creds[0..] == creds;
    for i := 0 to |creds|
      invariant FindMatch(creds, t, flags) == FindMatch(creds[i..], t, flags)
    {
      assert creds[i..][0] == creds[i] && creds[i..][1..] == creds[i + 1..];
      var found := Chosen(creds[i], t, flags);
      if found { return Some(creds[i]); }
    }
    return None;
  }

  method IssueUuids(next: nat, n: nat) returns (us: seq<bytes>, last: nat)
    ensures us == FreshUuids(next, n) && last == next + n
  {
    hide Uuid;
    us, last := [], next;
    for i := 0 to n
      invariant last == next + i
      invariant FreshUuids(next, n) == us + FreshUuids(last, n - i)
    {
      last := last + 1;
      us := us + [Uuid(last)];
    }
  }

  method ReplaceArguments(rest: bytes) returns (r: Option<(int32, Principal, seq<bytes>)>)
    ensures r == ParseReplace(rest)
  {
    hide U32, GetI32, GetPrincipal, GetCounted, DecodeCredential, ReadMany, Reading;
    if |rest| < 8 { return None; }
    var offset := GetI32(rest);
    if offset.None? { return None; }
    var p := GetPrincipal(offset.value.1);
    if p.None? { return None; }
    var count := U32(p.value.1);
    if count.None? { return None; }
    var n, d := count.value.0, count.value.1;
    if n > |d| / 4 { return None; }
    ghost var all := ReadMany(GetRaw, n, d);
    var creds: seq<bytes> := [];
    ReadingStart(all);
    for i := 0 to n
      invariant Reading(all, creds, ReadMany(GetRaw, n - i, d))
    {
      ReadingStep(GetRaw, all, creds, n - i, d);
      var raw := GetCounted(d);
      if raw.None? { return None; }
      if DecodeCredential(raw.value.0).None? { return None; }
      creds := creds + [raw.value.0];
      d := raw.value.1;
    }
    ReadingEnd(GetRaw, all, creds, d);
    if |d| != 0 { return None; }
    r := Some((offset.value.0, p.value.0, creds));
  }

  method Remove(ns: Namespace, c: Cache, rest: bytes) returns (r: Namespace, reply: Reply)
    requires |c.creds| == |c.credUUIDs|
    ensures (r, reply) == RemoveCred(ns, c, rest)
  {
    hide U32, UnmarshalMatch, Kept, Firsts, Seconds;
    var flags := U32(rest);
    if flags.None? { return ns, Reply([], INTERNAL); }
    var tag := UnmarshalMatch(flags.value.1);
    if tag.None? { return ns, Reply([], INTERNAL); }
    var creds, uuids := new bytes[|c.creds|](i requires 0 <= i < |c.creds| => c.creds[i]), new bytes[|c.creds|](i requires 0 <= i < |c.creds| => c.credUUIDs[i]);
    assert creds[..] == c.creds && uuids[..] == c.credUUIDs;
    var n := Compact(creds, uuids, tag.value, flags.value.0);
    if n == creds.Length { return ns, Reply([], NOT_FOUND); }
    return WithCache(ns, c.name, c.(creds := creds[..n], credUUIDs := uuids[..n])), Reply([], OK);
  }

  method Replaced(ns: Namespace, c: Cache, rest: bytes) returns (r: Namespace, reply: Reply)
    ensures (r, reply) == Replace(ns, c, rest)
  {
    hide ParseReplace, FreshUuids;
    var a := ReplaceArguments(rest);
    if a.None? { return ns, Reply([], INTERNAL); }
    var us, next := IssueUuids(ns.next, |a.value.2|);
    var d := c.(principal := Some(a.value.1), offset := a.value.0, creds := a.value.2, credUUIDs := us);
    return WithCache(ns, c.name, d).(next := next), Reply([], OK);
  }

  method Retrieved(ns: Namespace, c: Cache, rest: bytes) returns (r: Namespace, reply: Reply)
    ensures (r, reply) == Retrieve(ns, c, rest)
  {
    hide U32, UnmarshalMatch, FindMatch;
    if |rest| < 8 { return ns, Reply([], INTERNAL); }
    var flags := U32(rest);
    if flags.None? { return ns, Reply([], INTERNAL); }
    var tag := UnmarshalMatch(flags.value.1);
    if tag.None? { return ns, Reply([], INTERNAL); }
    var raw := FirstMatch(c.creds, tag.value, flags.value.0);
    if raw.None? { return ns, Reply([], NOT_FOUND); }
    return ns, Reply(raw.value, OK);
  }

  method ByUuid(ns: Namespace, c: Cache, rest: bytes) returns (r: Namespace, reply: Reply)
    ensures (r, reply) == CredByUuid(ns, c, rest)
  {
    hide IndexOf;
    if |rest| != UUID_SIZE { return ns, Reply([], INTERNAL); }
    var i := FindUuid(c.credUUIDs, rest);
    if i.None? || i.value >= |c.creds| { return ns, Reply([], END); }
    return ns, Reply(c.creds[i.value], OK);
  }

  method Initialized(ns: Namespace, c: Cache, rest: bytes) returns (r: Namespace, reply: Reply)
    ensures (r, reply) == Initialize(ns, c, rest)
  {
    hide GetPrincipal;
    var p := GetPrincipal(rest);
    if p.None? || p.value.1 != [] { return ns, Reply([], INTERNAL); }
    var d := c.(principal := Some(p.value.0), creds := [], credUUIDs := [], offset := 0);
    return ns.(caches := ns.caches[c.name := d]), Reply([], OK);
  }

  method PrincipalReply(ns: Namespace, c: Cache) returns (r: Namespace, reply: Reply)
    ensures (r, reply) == GetPrincipalOp(ns, c)
  {
    hide OkPrincipal, PutPrincipal;
    if c.principal.None? { return ns, Reply([], NO_FILE); }
    if !OkPrincipal(c.principal.value) { return ns, Reply([], INTERNAL); }
    return ns, Reply(PutPrincipal(c.principal.value), OK);
  }

  method Stored(ns: Namespace, c: Cache, rest: bytes) returns (r: Namespace, reply: Reply)
    ensures (r, reply) == Store(ns, c, rest)
  {
    hide DecodeCredential, Uuid;
    var decoded := DecodeCredential(rest);
    if decoded.None? { return ns, Reply([], INTERNAL); }
    var next := ns.next + 1;
    var d := c.(creds := c.creds + [rest], credUUIDs := c.credUUIDs + [Uuid(next)]);
    return ns.(caches := ns.caches[c.name := d], next := next), Reply([], OK);
  }

  method OffsetSet(ns: Namespace, c: Cache, rest: bytes) returns (r: Namespace, reply: Reply)
    ensures (r, reply) == SetOffset(ns, c, rest)
  {
    hide GetI32;
    if |rest| != 4 { return ns, Reply([], INTERNAL); }
    var v := GetI32(rest);
    if v.None? { return ns, Reply([], INTERNAL); }
    return ns.(caches := ns.caches[c.name := c.(offset := v.value.0)]), Reply([], OK);
  }

  method HandleRequest(ns: Namespace, c: Cache, op: nat, rest: bytes) returns (r: Namespace, reply: Reply)
    requires |c.creds| == |c.credUUIDs|
    ensures (r, reply) == Handle(ns, c, op, rest)
  {
    hide Initialize, Destroy, Store, RemoveCred, Replace, Retrieve, CredByUuid, SetOffset, GetPrincipalOp, WriteAll, Concat, PutU32;
    if op == INITIALIZE { r, reply := Initialized(ns, c, rest); return; }
    if op == DESTROY { return Destroy(ns, c), Reply([], OK); }
    if op == GET_PRINCIPAL { r, reply := PrincipalReply(ns, c); return; }
    if op == STORE { r, reply := Stored(ns, c, rest); return; }
    if op == GET_CRED_LIST { var b := ListCreds(c.creds); return ns, Reply(b, OK); }
    if op == GET_CRED_UUID_LIST { var b := Joined(c.credUUIDs); return ns, Reply(b, OK); }
    if op == GET_CRED_BY_UUID { r, reply := ByUuid(ns, c, rest); return; }
    if op == RETRIEVE { r, reply := Retrieved(ns, c, rest); return; }
    if op == REMOVE_CRED { r, reply := Remove(ns, c, rest); return; }
    if op == SET_DEFAULT_CACHE { return ns.(defaultName := c.name), Reply([], OK); }
    if op == GET_KDC_OFFSET { return ns, Reply(PutI32(c.offset), OK); }
    if op == SET_KDC_OFFSET { r, reply := OffsetSet(ns, c, rest); return; }
    if op == REPLACE { r, reply := Replaced(ns, c, rest); return; }
    return ns, Reply([], INTERNAL);
  }

  /** Walks the UUID map in some order. */
  method AllUuids(uuids: map<bytes, bytes>) returns (b: bytes, ghost order: seq<bytes>)
    ensures Lists(order, uuids) && b == Concat(order)
  {
    var todo := uuids.Keys;
    b, order := [], [];
    while todo != {}
      invariant todo <= uuids.Keys && b == Concat(order)
      invariant forall u :: u in order <==> u in uuids && u !in todo
      invariant forall i, j | 0 <= i < j < |order| :: order[i] != order[j]
      decreases |todo|
    {
      var u :| u in todo;
      ConcatSnoc(order, u);
      b, order := b + u, order + [u];
      todo := todo - {u};
    }
  }

  lemma {:induction false} ConcatSnoc(xs: seq<bytes>, x: bytes)
    ensures Concat(xs + [x]) == Concat(xs) + x
  {
    if xs == [] {
      assert xs + [x] == [x] && Concat([x][1..]) == [];
    } else {
      assert (xs + [x])[1..] == xs[1..] + [x];
      ConcatSnoc(xs[1..], x);
    }
  }

  /** A request that is answered by walking the UUID map. */
  predicate Walks(request: bytes) {
    |request| >= 4 && request[0] == 2 && request[1] == 0 && BE(request[2..4]) == GET_CACHE_UUID_LIST
  }

  /** The daemon: a namespace for every peer, or one for all. */
  class Daemon {
    const shared: bool
    var common: Namespace
    var spaces: map<uint32, Namespace>

    constructor (shareAll: bool)
      ensures State() == Server(shareAll, EMPTY, map[]) && Sound(State())
    {
      shared, common, spaces := shareAll, EMPTY, map[];
      EmptyInv();
    }

    function State(): (s: Server)
      reads this
    {
      Server(shared, common, spaces)
    }

    /** dispatchPeer; order is the order in which the UUID map was walked. */
    method DispatchPeer(request: bytes, uid: uint32) returns (reply: Reply, ghost order: seq<bytes>)
      requires Sound(State()) && Space(State(), uid).next + |request| + 2 < TWO64
      modifies this
      ensures Walks(request) ==> Lists(order, old(Space(State(), uid)).uuids)
      ensures Parallel(old(Space(State(), uid)))
      ensures (State(), reply) == Serve(old(State()), uid, Call(request, order))
      ensures Sound(State())
      ensures !shared ==> forall other: uint32 | other != uid :: Space(State(), other) == old(Space(State(), other))
    {
      hide Inv, Dispatch, BE;
      var before := State();
      assert Inv(Space(before, uid));
      InvParallel(Space(before, uid));
      var ns: Namespace;
      ns, reply, order := Request(Space(before, uid), request);
      DispatchInv(Space(before, uid), request, order);
      if shared { common := ns; } else { spaces := spaces[uid := ns]; }
      forall v: uint32 ensures Inv(Space(State(), v)) { assert Inv(Space(before, v)); }
    }
  }

  method Request(ns: Namespace, request: bytes) returns (r: Namespace, reply: Reply, ghost order: seq<bytes>)
    requires Parallel(ns)
    ensures Walks(request) ==> Lists(order, ns.uuids)
    ensures (r, reply) == Dispatch(ns, request, order)
  {
    hide Handle, Ensure, SplitCString, Decimal, BE, Concat;
    r, reply := ns, Reply([], INTERNAL);
    order := [];
    if |request| < 4 || request[0] != 2 || request[1] != 0 { return; }
    var op, args := BE(request[2..4]), request[4..];
    if op == GET_DEFAULT_CACHE { reply := Reply(CString(ns.defaultName), OK); return; }
    if op == GEN_NEW {
      var name := UNIQUE + Decimal(ns.next + 1);
      r, reply := Ensure(ns.(next := ns.next + 1), name), Reply(CString(name), OK);
      return;
    }
    if op == GET_CACHE_UUID_LIST {
      var all: bytes;
      all, order := AllUuids(ns.uuids);
      reply := Reply(all, OK);
      return;
    }
    if op == GET_CACHE_BY_UUID {
      if |args| == UUID_SIZE {
        reply := if args in ns.uuids then Reply(CString(ns.uuids[args]), OK) else Reply([], END);
      }
      return;
    }
    var split := SplitCString(args);
    if split.None? { return; }
    var name, rest := split.value.0, split.value.1;
    if name !in ns.caches {
      if RequiresExisting(op) { reply := Reply([], NO_FILE); return; }
      r := Ensure(ns, name);
      EnsureShape(ns, name);
    }
    r, reply := HandleRequest(r, r.caches[name], op, rest);
  }
}
