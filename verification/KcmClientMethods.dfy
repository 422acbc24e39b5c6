/** The KCM client's loops over replies, UUIDs and credentials. */
module KcmClientMethods {
  import opened Bytes
  import opened Wire
  import opened Credentials
  import Ccache
  import opened KcmServer
  import KcmClient
  import opened KcmMethods
  import opened KcmClientWrite

  /** A handle on one cache; ns is the peer's namespace in the daemon. */
  class CacheHandle {
    const name: bytes
    const extended: bool
    var ns: Namespace

    constructor (n: bytes, newer: bool, space: Namespace)
      ensures name == n && extended == newer && ns == space
    {
      name, extended, ns := n, newer, space;
    }

    /** call: the framed request, the daemon's frame limit, its dispatch, the
        limit of the reply, and the status before the payload. */
    method Call(op: nat, args: bytes) returns (r: KcmClient.Result)
      requires Parallel(ns) && op < 0x10000 && op != GET_CACHE_UUID_LIST
      modifies this
      ensures Parallel(ns) && (ns, r) == KcmClient.Exchange(old(ns), extended, op, args)
    {
      hide Dispatch, PutI32, GetI32, ToBE;
      var request := [2, 0] + ToBE(op, 2) + args;
      if |request| > KcmClient.MAX_FRAME { return KcmClient.Lost; }
      if !extended && (op == GET_CRED_LIST || op == REPLACE) { return KcmClient.Status(KcmClient.NO_SUPPORT); }
      DispatchParallel(ns, request, []);
      var next, reply, order := Request(ns, request);
      NoWalk(ns, op, args, order);
      ns := next;
      var frame := PutI32(reply.code) + reply.payload;
      I32Back(reply.code, reply.payload);
      I32Size(reply.code);
      if |frame| > KcmClient.MAX_FRAME { return KcmClient.Lost; }
      var code := GetI32(frame).value;
      if code.0 != 0 { return KcmClient.Status(code.0); }
      return KcmClient.Payload(code.1);
    }

    /** The counted credentials of a list reply, read at an advancing offset. */
    method ParseListed(value: bytes) returns (r: Option<seq<Credential>>)
      ensures r == KcmClient.ParseList(value)
    {
      hide U32, GetCounted, DecodeCredential, ReadMany, Reading;
      var head := U32(value);
      if head.None? { return None; }
      var count := head.value.0;
      if count > (|value| - 4) / 4 { return None; }
      var off := 4;
      assert value[4..] == head.value.1 by { U32Rest(value); }
      ghost var all := ReadMany(KcmClient.GetListed, count, value[4..]);
      var cs: seq<Credential> := [];
      ReadingStart(all);
      for i := 0 to count
        invariant 4 <= off <= |value|
        invariant Reading(all, cs, ReadMany(KcmClient.GetListed, count - i, value[off..]))
      {
        ReadingStep(KcmClient.GetListed, all, cs, count - i, value[off..]);
        CountedRest(value, off);
        var raw := GetCounted(value[off..]);
        if raw.None? { return None; }
        var c := DecodeCredential(raw.value.0);
        if c.None? { return None; }
        cs := cs + [c.value];
        off := off + 4 + |raw.value.0|;
      }
      ReadingEnd(KcmClient.GetListed, all, cs, value[off..]);
      return Some(cs);
    }

    method ReadEach(uuids: bytes) returns (r: Option<seq<Credential>>)
      requires Parallel(ns) && |uuids| % UUID_SIZE == 0
      modifies this
      ensures Parallel(ns) && ns == old(ns)
      ensures r == KcmClient.ByEach(ns, extended, name, uuids)
    {
      hide KcmClient.Exchange, KcmClient.ByEach, DecodeCredential, Joins;
      var off := 0;
      var cs: seq<Credential> := [];
      ghost var all := KcmClient.ByEach(ns, extended, name, uuids);
      EachStart(ns, extended, name, uuids);
      while off < |uuids|
        invariant 0 <= off <= |uuids| && off % UUID_SIZE == 0 && ns == old(ns)
        invariant Joins(all, cs, KcmClient.ByEach(ns, extended, name, uuids[off..]))
      {
        assert off + UUID_SIZE <= |uuids|;
        EachStep(ns, extended, name, uuids, off, all, cs);
        ReadOnly(ns, extended, GET_CRED_BY_UUID, name, uuids[off..off + UUID_SIZE]);
        var v := Call(GET_CRED_BY_UUID, CString(name) + uuids[off..off + UUID_SIZE]);
        if !v.Payload? { return None; }
        var c := DecodeCredential(v.value);
        if c.None? { return None; }
        cs := cs + [c.value];
        off := off + UUID_SIZE;
      }
      EachEnd(ns, extended, name, uuids, all, cs);
      return Some(cs);
    }

    /** read. */
    method Read() returns (r: Option<Ccache.Cache>)
      requires Parallel(ns) && 0 !in name
      modifies this
      ensures ns == old(ns)
      ensures r == KcmClient.Read(ns, extended, name)
    {
      hide KcmClient.Exchange, GetPrincipal, KcmClient.ParseList, KcmClient.ByEach, GetI32;
      assert CString(name) + [] == CString(name);
      OlderOps(ns, extended, name);
      ReadOnly(ns, extended, GET_PRINCIPAL, name, []);
      ReadOnly(ns, extended, GET_KDC_OFFSET, name, []);
      ReadOnly(ns, extended, GET_CRED_LIST, name, []);
      ReadOnly(ns, extended, GET_CRED_UUID_LIST, name, []);
      var v := Call(GET_PRINCIPAL, CString(name));
      if !v.Payload? { return None; }
      var p := GetPrincipal(v.value);
      if p.None? || (p.value.1 != [] && p.value.1 != [0]) { return None; }
      var offset: int32 := 0;
      v := Call(GET_KDC_OFFSET, CString(name));
      if v.Payload? && |v.value| == 4 {
        var o := GetI32(v.value);
        if o.Some? { offset := o.value.0; }
      }
      v := Call(GET_CRED_LIST, CString(name));
      var cs: Option<seq<Credential>>;
      if v.Payload? {
        cs := ParseListed(v.value);
      } else if !KcmClient.Unsupported(v) {
        return None;
      } else {
        v := Call(GET_CRED_UUID_LIST, CString(name));
        if !v.Payload? || |v.value| % UUID_SIZE != 0 { return None; }
        cs := ReadEach(v.value);
      }
      if cs.None? { return None; }
      return Some(Ccache.Cache(Ccache.Header(offset, 0), p.value.0, cs.value));
    }

    /** The arguments of the newer request; None if something cannot be encoded. */
    method Arguments(c: Ccache.Cache) returns (r: Option<bytes>)
      ensures r == if Ccache.OkCache(c) then Some(ReplaceArgs(name, c)) else None
    {
      hide PutPrincipal, OkPrincipal, PutI32, PutU32, PutAnyCredential, WriteAll, OkAll, OkCredential, CString, Raws;
      if !OkPrincipal(c.principal) { return None; }
      var args := CString(name) + PutI32(c.header.timeOffset) + PutPrincipal(c.principal) + PutU32(|c.credentials|);
      ghost var start := args;
      EncodedNone(c.credentials);
      for i := 0 to |c.credentials|
        invariant OkAll(OkCredential, c.credentials[..i])
        invariant args == start + WriteAll(PutCounted, Raws(c.credentials[..i]))
      {
        EncodedSnoc(c.credentials, i);
        if !OkCredential(c.credentials[i]) {
          EncodedPrefix(c.credentials, i + 1);
          return None;
        }
        args := args + PutCounted(PutAnyCredential(c.credentials[i]));
      }
      assert c.credentials[..|c.credentials|] == c.credentials;
      ghost var list := WriteAll(PutCounted, Raws(c.credentials));
      ghost var o, p, n := PutI32(c.header.timeOffset), PutPrincipal(c.principal), PutU32(|c.credentials|);
      assert CString(name) + o + p + n + list == CString(name) + (o + (p + (n + list)));
      return Some(args);
    }

    /** write. */
    method Write(c: Ccache.Cache) returns (ok: bool)
      requires Parallel(ns)
      modifies this
      ensures (ns, ok) == KcmClientWrite.Write(old(ns), extended, name, c)
    {
      hide KcmClient.Exchange, Ccache.OkCache, ReplaceArgs, PutPrincipal, Raws, PutAnyCredential;
      var args := Arguments(c);
      if args.None? { return false; }
      var v := Call(REPLACE, args.value);
      if v.Payload? { return true; }
      if !KcmClient.Unsupported(v) { return false; }
      v := Call(INITIALIZE, CString(name) + PutPrincipal(c.principal));
      if !v.Payload? { return false; }
      ghost var all := StoreEach(ns, extended, name, Raws(c.credentials));
      assert Raws(c.credentials[0..]) == Raws(c.credentials) by { assert c.credentials[0..] == c.credentials; }
      for i := 0 to |c.credentials|
        invariant Parallel(ns) && all == StoreEach(ns, extended, name, Raws(c.credentials[i..]))
      {
        RawsTail(c.credentials, i);
        v := Call(STORE, CString(name) + PutAnyCredential(c.credentials[i]));
        if !v.Payload? { return false; }
      }
      RawsEnd(c.credentials);
      return true;
    }
  }

  /** What is read in all, once these are read. */
  predicate Joins(all: Option<seq<Credential>>, cs: seq<Credential>, more: Option<seq<Credential>>) {
    all == if more.None? then None else Some(cs + more.value)
  }

  lemma EachStart(ns: Namespace, extended: bool, name: bytes, uuids: bytes)
    requires Parallel(ns)
    ensures var all := KcmClient.ByEach(ns, extended, name, uuids);
            Joins(all, [], KcmClient.ByEach(ns, extended, name, uuids[0..]))
  {
    hide KcmClient.ByEach;
    assert uuids[0..] == uuids;
    var all := KcmClient.ByEach(ns, extended, name, uuids);
    assert all.Some? ==> [] + all.value == all.value;
  }

  lemma EachStep(ns: Namespace, extended: bool, name: bytes, uuids: bytes, off: nat, all: Option<seq<Credential>>, cs: seq<Credential>)
    requires Parallel(ns) && off + UUID_SIZE <= |uuids| && Joins(all, cs, KcmClient.ByEach(ns, extended, name, uuids[off..]))
    ensures var v := KcmClient.Exchange(ns, extended, GET_CRED_BY_UUID, CString(name) + uuids[off..off + UUID_SIZE]).1;
            if !v.Payload? || DecodeCredential(v.value).None? then all.None?
            else Joins(all, cs + [DecodeCredential(v.value).value], KcmClient.ByEach(ns, extended, name, uuids[off + UUID_SIZE..]))
  {
    hide KcmClient.Exchange, DecodeCredential;
    assert uuids[off..][..UUID_SIZE] == uuids[off..off + UUID_SIZE] && uuids[off..][UUID_SIZE..] == uuids[off + UUID_SIZE..];
    var v := KcmClient.Exchange(ns, extended, GET_CRED_BY_UUID, CString(name) + uuids[off..off + UUID_SIZE]).1;
    if v.Payload? && DecodeCredential(v.value).Some? {
      var c, more := DecodeCredential(v.value).value, KcmClient.ByEach(ns, extended, name, uuids[off + UUID_SIZE..]);
      assert more.Some? ==> cs + ([c] + more.value) == cs + [c] + more.value;
    }
  }

  lemma EachEnd(ns: Namespace, extended: bool, name: bytes, uuids: bytes, all: Option<seq<Credential>>, cs: seq<Credential>)
    requires Parallel(ns) && Joins(all, cs, KcmClient.ByEach(ns, extended, name, uuids[|uuids|..]))
    ensures all == Some(cs)
  {
    assert cs + [] == cs;
  }

  /** Only the list of all UUIDs depends on the order of the map. */
  lemma NoWalk(ns: Namespace, op: nat, args: bytes, order: seq<bytes>)
    requires Parallel(ns) && op < 0x10000 && op != GET_CACHE_UUID_LIST
    ensures Dispatch(ns, KcmClient.Frame(op, args), order) == Dispatch(ns, KcmClient.Frame(op, args), [])
  {
    hide Named, GenNew, BE;
    KcmClient.OpBytes(op);
    assert KcmClient.Frame(op, args)[2..4] == ToBE(op, 2);
  }

  lemma I32Size(v: int32)
    ensures |PutI32(v)| == 4
  {
  }

  lemma U32Rest(d: bytes)
    ensures U32(d).Some? ==> |d| >= 4 && U32(d).value.1 == d[4..]
  {
  }

  lemma CountedRest(value: bytes, off: nat)
    requires off <= |value|
    ensures var raw := GetCounted(value[off..]);
            raw.Some? ==> off + 4 + |raw.value.0| <= |value| && raw.value.1 == value[off + 4 + |raw.value.0|..]
  {
    CountedFront(value[off..]);
    var raw := GetCounted(value[off..]);
    if raw.Some? {
      assert |PutCounted(raw.value.0)| == 4 + |raw.value.0|;
      assert value[off..][4 + |raw.value.0|..] == raw.value.1;
    }
  }

  /** Reading requests leave the namespace as it is. */
  lemma ReadOnly(ns: Namespace, extended: bool, op: nat, name: bytes, rest: bytes)
    requires Parallel(ns) && op in {GET_PRINCIPAL, GET_KDC_OFFSET, GET_CRED_LIST, GET_CRED_UUID_LIST, GET_CRED_BY_UUID}
    ensures KcmClient.Exchange(ns, extended, op, CString(name) + rest).0 == ns
  {
    hide SplitCString, BE, WriteAll, Concat, IndexOf;
    var request := KcmClient.Frame(op, CString(name) + rest);
    KcmClient.OpBytes(op);
    assert request[2..4] == ToBE(op, 2);
    assert |request| >= 4 && BE(request[2..4]) == op;
  }

  /** The older operations do not depend on the daemon's age. */
  lemma OlderOps(ns: Namespace, extended: bool, name: bytes)
    requires Parallel(ns)
    ensures forall op | op != GET_CRED_LIST && op != REPLACE ::
              KcmClient.Exchange(ns, extended, op, CString(name)) == KcmClient.Exchange(ns, true, op, CString(name))
  {
    hide Dispatch;
  }

  lemma EncodedNone(cs: seq<Credential>)
    ensures OkAll(OkCredential, cs[..0]) && WriteAll(PutCounted, Raws(cs[..0])) == []
  {
  }

  lemma {:induction false} EncodedSnoc(cs: seq<Credential>, i: nat)
    requires i < |cs|
    ensures OkAll(OkCredential, cs[..i + 1]) <==> OkAll(OkCredential, cs[..i]) && OkCredential(cs[i])
    ensures WriteAll(PutCounted, Raws(cs[..i + 1])) == WriteAll(PutCounted, Raws(cs[..i])) + PutCounted(PutAnyCredential(cs[i]))
    decreases i
  {
    hide PutAnyCredential, OkCredential, PutCounted;
    if i == 0 {
      assert cs[..1] == [cs[0]] && cs[..1][1..] == cs[..0] && cs[..0] == [];
      assert Raws(cs[..1]) == [PutAnyCredential(cs[0])] && Raws(cs[..1])[1..] == [];
    } else {
      EncodedSnoc(cs[1..], i - 1);
      assert cs[..i + 1][1..] == cs[1..][..i] && cs[..i][1..] == cs[1..][..i - 1];
      assert Raws(cs[..i + 1])[1..] == Raws(cs[1..][..i]) && Raws(cs[..i])[1..] == Raws(cs[1..][..i - 1]);
    }
  }

  lemma {:induction false} EncodedPrefix(cs: seq<Credential>, i: nat)
    requires i <= |cs| && !OkAll(OkCredential, cs[..i])
    ensures !OkAll(OkCredential, cs)
    decreases i
  {
    hide OkCredential;
    if i > 0 && OkCredential(cs[0]) {
      assert cs[..i][1..] == cs[1..][..i - 1];
      EncodedPrefix(cs[1..], i - 1);
    }
  }

  lemma RawsTail(cs: seq<Credential>, i: nat)
    requires i < |cs|
    ensures Raws(cs[i..]) != [] && Raws(cs[i..])[0] == PutAnyCredential(cs[i]) && Raws(cs[i..])[1..] == Raws(cs[i + 1..])
  {
    hide PutAnyCredential;
    assert cs[i..][1..] == cs[i + 1..];
  }

  lemma RawsEnd(cs: seq<Credential>)
    ensures Raws(cs[|cs|..]) == []
  {
  }
}
