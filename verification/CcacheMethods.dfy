/** The credential cache codec as loops over a cursor and an output buffer. */
module CcacheMethods {
  import opened Bytes
  import opened Wire
  import opened Credentials
  import opened Ccache

  /** The output buffer; an error leaves it as far as the encoder got. */
  class Buffer {
    var b: bytes

    constructor ()
      ensures b == []
    {
      b := [];
    }

    method U16(v: uint16)
      modifies this
      ensures b == old(b) + PutU16(v)
    {
      b := b + ToBE(v, 2);
    }

    method U32(v: nat)
      modifies this
      ensures b == old(b) + PutU32(v)
    {
      b := b + ToBE(v, 4);
    }

    method Counted(v: bytes) returns (ok: bool)
      modifies this
      ensures ok == Fits(v)
      ensures ok ==> b == old(b) + PutCounted(v)
    {
      hide PutU32;
      if |v| > 0xffff_ffff { return false; }
      U32(|v|);
      b := b + v;
      return true;
    }

    method Principal(p: Principal) returns (ok: bool)
      modifies this
      ensures ok == OkPrincipal(p)
      ensures ok ==> b == old(b) + PutPrincipal(p)
    {
      hide PutU32, PutCounted, WriteAll, OkAll, ToBE;
      if |p.realm| > 0xffff_ffff { return false; }
      if |p.components| > 0xffff_ffff { return false; }
      U32(ToUnsigned(p.nameType));
      U32(|p.components|);
      var done := Counted(p.realm);
      ghost var start := b;
      WriteAllEmpty(PutCounted, p.components);
      OkAllEmpty(Fits<byte>, p.components);
      SameBytes(p.nameType);
      for i := 0 to |p.components|
        invariant OkAll(Fits<byte>, p.components[..i])
        invariant b == start + WriteAll(PutCounted, p.components[..i])
      {
        WriteAllSnoc(PutCounted, p.components, i);
        OkAllSnoc(Fits<byte>, p.components, i);
        ok := Counted(p.components[i]);
        if !ok {
          OkAllPrefix(Fits<byte>, p.components, i + 1);
          return;
        }
      }
      assert p.components[..|p.components|] == p.components;
      return true;
    }

    method List(ts: seq<Tagged>) returns (ok: bool)
      modifies this
      ensures ok == OkList(ts)
      ensures ok ==> b == old(b) + PutList(ts)
    {
      hide PutU32, PutU16, PutCounted, WriteAll, OkAll;
      if |ts| > 0xffff_ffff { return false; }
      U32(|ts|);
      ghost var start := b;
      WriteAllEmpty(PutTagged, ts);
      OkAllEmpty(OkTagged, ts);
      for i := 0 to |ts|
        invariant OkAll(OkTagged, ts[..i])
        invariant b == start + WriteAll(PutTagged, ts[..i])
      {
        WriteAllSnoc(PutTagged, ts, i);
        OkAllSnoc(OkTagged, ts, i);
        U16(ts[i].typ);
        ok := Counted(ts[i].data);
        if !ok {
          OkAllPrefix(OkTagged, ts, i + 1);
          return;
        }
      }
      assert ts[..|ts|] == ts;
      return true;
    }

    method Fixed(t: Times, isSKey: bool, flags: uint32)
      modifies this
      ensures b == old(b) + PutFixed(t, isSKey, flags)
    {
      hide PutU32;
      var stamps: seq<nat> := [t.auth, t.start, t.end, t.renewTill];
      ghost var start := b;
      WriteAllEmpty(PutU32, stamps);
      for i := 0 to |stamps|
        invariant b == start + WriteAll(PutU32, stamps[..i])
      {
        WriteAllSnoc(PutU32, stamps, i);
        U32(stamps[i]);
      }
      assert stamps[..|stamps|] == stamps;
      FourStamps(t);
      b := b + [if isSKey then 1 else 0];
      U32(flags);
    }

    method Credential(c: Credential) returns (ok: bool)
      modifies this
      ensures ok == OkCredential(c)
      ensures ok ==> b == old(b) + PutCredential(c)
    {
      hide PutPrincipal, OkPrincipal, PutList, OkList, PutFixed, PutCounted, PutU16, PutCredential;
      ok := Principal(c.client);
      if !ok { return; }
      ok := Principal(c.server);
      if !ok { return; }
      if c.enctype < 0 || c.enctype > 0xffff { return false; }
      U16(c.enctype);
      ok := Counted(c.key);
      if !ok { return; }
      Fixed(c.times, c.isSKey, c.flags);
      ok := List(c.addresses);
      if !ok { return; }
      ok := List(c.authData);
      if !ok { return; }
      ok := Counted(c.ticket);
      if !ok { return; }
      ok := Counted(c.secondTicket);
      if !ok { return; }
      CredentialAppended(old(b), c);
    }
  }

  lemma SameBytes(v: int32)
    ensures PutU32(ToUnsigned(v)) == PutI32(v)
  {
  }

  lemma FourStamps(t: Times)
    ensures WriteAll<nat>(PutU32, [t.auth, t.start, t.end, t.renewTill]) == PutTimes(t)
  {
    hide PutU32;
    var s: seq<nat> := [t.auth, t.start, t.end, t.renewTill];
    assert s[1..] == [t.start, t.end, t.renewTill] && s[1..][1..] == [t.end, t.renewTill];
    assert s[1..][1..][1..] == [t.renewTill] && [t.renewTill][1..] == [];
    assert WriteAll<nat>(PutU32, [t.renewTill]) == PutU32(t.renewTill) + [];
    assert WriteAll<nat>(PutU32, [t.end, t.renewTill]) == PutU32(t.end) + PutU32(t.renewTill);
    assert WriteAll<nat>(PutU32, [t.start, t.end, t.renewTill]) == PutU32(t.start) + (PutU32(t.end) + PutU32(t.renewTill));
  }

  lemma CredentialAppended(before: bytes, c: Credential)
    requires OkEnctype(c.enctype)
    ensures before + PutPrincipal(c.client) + PutPrincipal(c.server) + PutU16(c.enctype) + PutCounted(c.key)
              + PutFixed(c.times, c.isSKey, c.flags) + PutList(c.addresses) + PutList(c.authData)
              + PutCounted(c.ticket) + PutCounted(c.secondTicket)
         == before + PutCredential(c)
  {
    hide PutPrincipal, PutList, PutFixed, PutCounted, PutU16;
  }

  lemma OkAllEmpty<T>(ok: T -> bool, xs: seq<T>)
    ensures OkAll(ok, xs[..0])
  {
  }

  lemma {:induction false} OkAllSnoc<T>(ok: T -> bool, xs: seq<T>, i: nat)
    requires i < |xs|
    ensures OkAll(ok, xs[..i + 1]) <==> OkAll(ok, xs[..i]) && ok(xs[i])
    decreases i
  {
    if i == 0 {
      assert xs[..1] == [xs[0]] && xs[..0] == [] && [xs[0]][1..] == [];
    } else {
      OkAllSnoc(ok, xs[1..], i - 1);
      assert xs[..i + 1][1..] == xs[1..][..i] && xs[..i][1..] == xs[1..][..i - 1];
    }
  }

  lemma {:induction false} OkAllPrefix<T>(ok: T -> bool, xs: seq<T>, i: nat)
    requires i <= |xs| && !OkAll(ok, xs[..i])
    ensures !OkAll(ok, xs)
    decreases i
  {
    if i > 0 && ok(xs[0]) {
      assert xs[..i][1..] == xs[1..][..i - 1];
      OkAllPrefix(ok, xs[1..], i - 1);
    }
  }

  /** Write: nothing is handed to the writer unless everything was encoded. */
  method WriteCache(c: Cache) returns (r: Option<bytes>)
    ensures r == Ccache.Write(c)
  {
    hide PutPrincipal, OkPrincipal, PutCredential, OkCredential, PutU16, ToBE, WriteAll, OkAll, OffsetField;
    var out := new Buffer();
    out.U16(VERSION);
    out.U16(12);
    out.b := out.b + OffsetField(c.header);
    var ok := out.Principal(c.principal);
    if !ok { return None; }
    ghost var start := out.b;
    WriteAllEmpty(PutAnyCredential, c.credentials);
    OkAllEmpty(OkCredential, c.credentials);
    for i := 0 to |c.credentials|
      invariant OkAll(OkCredential, c.credentials[..i])
      invariant out.b == start + WriteAll(PutAnyCredential, c.credentials[..i])
    {
      WriteAllSnoc(PutAnyCredential, c.credentials, i);
      OkAllSnoc(OkCredential, c.credentials, i);
      ok := out.Credential(c.credentials[i]);
      if !ok {
        OkAllPrefix(OkCredential, c.credentials, i + 1);
        return None;
      }
      OkHasEnctype(c.credentials[i]);
    }
    assert c.credentials[..|c.credentials|] == c.credentials;
    assert start == PutU16(VERSION) + PutHeader(c.header) + PutPrincipal(c.principal);
    r := Some(out.b);
  }

  // ----- decoding

  class Decoder {
    const data: bytes
    var off: nat

    ghost predicate Valid() reads this { off <= |data| }

    ghost function Rest(): (r: bytes)
      requires Valid()
      reads this
    {
      data[off..]
    }

    constructor (d: bytes, start: nat)
      requires start <= |d|
      ensures Valid() && data == d && Rest() == d[start..]
    {
      data := d;
      off := start;
    }

    method Octets(n: nat) returns (r: Option<bytes>)
      requires Valid()
      modifies this
      ensures Valid() && Wire.Read(Take(old(Rest()), n), r, Rest())
    {
      if n > |data| - off { return None; }
      r := Some(data[off..off + n]);
      assert data[off..][..n] == data[off..off + n] && data[off..][n..] == data[off + n..];
      off := off + n;
    }

    method U8() returns (r: Option<byte>)
      requires Valid()
      modifies this
      ensures Valid() && Wire.Read(Wire.U8(old(Rest())), r, Rest())
    {
      var b := Octets(1);
      if b.None? { return None; }
      r := Some(b.value[0]);
    }

    method U16() returns (r: Option<uint16>)
      requires Valid()
      modifies this
      ensures Valid() && Wire.Read(Wire.U16(old(Rest())), r, Rest())
    {
      var b := Octets(2);
      if b.None? { return None; }
      BEBound(b.value);
      Pow256Values();
      r := Some(BE(b.value));
    }

    method U32() returns (r: Option<uint32>)
      requires Valid()
      modifies this
      ensures Valid() && Wire.Read(Wire.U32(old(Rest())), r, Rest())
    {
      var b := Octets(4);
      if b.None? { return None; }
      BEBound(b.value);
      Pow256Values();
      r := Some(BE(b.value));
    }

    method Counted() returns (r: Option<bytes>)
      requires Valid()
      modifies this
      ensures Valid() && Wire.Read(GetCounted(old(Rest())), r, Rest())
    {
      hide Wire.U32, Take;
      var n := U32();
      if n.None? { return None; }
      r := Octets(n.value);
    }

    method Principal() returns (r: Option<Principal>)
      requires Valid()
      modifies this
      ensures Valid() && Wire.Read(GetPrincipal(old(Rest())), r, Rest())
    {
      hide Wire.U32, GetCounted, ReadMany, Reading;
      var nameType := U32();
      if nameType.None? { return None; }
      var count := U32();
      if count.None? { return None; }
      var realm := Counted();
      if realm.None? { return None; }
      if count.value > (|data| - off) / 4 { return None; }
      ghost var all := ReadMany(GetCounted, count.value, Rest());
      var components: seq<bytes> := [];
      ReadingStart(all);
      for i := 0 to count.value
        invariant Valid() && Reading(all, components, ReadMany(GetCounted, count.value - i, Rest()))
      {
        ReadingStep(GetCounted, all, components, count.value - i, Rest());
        var x := Counted();
        if x.None? { return None; }
        components := components + [x.value];
      }
      ReadingEnd(GetCounted, all, components, Rest());
      r := Some(Credentials.Principal.Principal(realm.value, ToSigned(nameType.value), components));
    }

    method List() returns (r: Option<seq<Tagged>>)
      requires Valid()
      modifies this
      ensures Valid() && Wire.Read(GetList(old(Rest())), r, Rest())
    {
      hide Wire.U32, Wire.U16, GetCounted, ReadMany, Reading;
      var count := U32();
      if count.None? { return None; }
      if count.value > (|data| - off) / 6 { return None; }
      ghost var all := ReadMany(GetTagged, count.value, Rest());
      var out: seq<Tagged> := [];
      ReadingStart(all);
      for i := 0 to count.value
        invariant Valid() && Reading(all, out, ReadMany(GetTagged, count.value - i, Rest()))
      {
        ReadingStep(GetTagged, all, out, count.value - i, Rest());
        var t := U16();
        if t.None? { return None; }
        var v := Counted();
        if v.None? { return None; }
        out := out + [Tagged(t.value, v.value)];
      }
      ReadingEnd(GetTagged, all, out, Rest());
      r := Some(out);
    }

    method Fixed() returns (r: Option<(Times, bool, uint32)>)
      requires Valid()
      modifies this
      ensures Valid() && Wire.Read(GetFixed(old(Rest())), r, Rest())
    {
      hide Wire.U32, Wire.U8;
      var times: seq<uint32> := [];
      ghost var start := Rest();
      StampsStart(start);
      for i := 0 to 4
        invariant Valid() && |times| == i && StampsRead(start, times, Rest())
      {
        StampsStep(start, times, Rest());
        var t := U32();
        if t.None? { return None; }
        times := times + [t.value];
      }
      StampsEnd(start, times, Rest());
      var skey := U8();
      if skey.None? || skey.value > 1 { return None; }
      var flags := U32();
      if flags.None? { return None; }
      r := Some((Times(times[0], times[1], times[2], times[3]), skey.value != 0, flags.value));
    }

    method Credential() returns (r: Option<Credential>)
      requires Valid()
      modifies this
      ensures Valid() && Wire.Read(GetCredential(old(Rest())), r, Rest())
    {
      hide Wire.U16, GetPrincipal, GetCounted, GetList, GetFixed;
      var client := Principal();
      if client.None? { return None; }
      var server := Principal();
      if server.None? { return None; }
      var enctype := U16();
      if enctype.None? { return None; }
      var key := Counted();
      if key.None? { return None; }
      var fixed := Fixed();
      if fixed.None? { return None; }
      var addresses := List();
      if addresses.None? { return None; }
      var authData := List();
      if authData.None? { return None; }
      var ticket := Counted();
      if ticket.None? { return None; }
      var second := Counted();
      if second.None? { return None; }
      r := Some(Credentials.Credential.Credential(client.value, server.value, enctype.value, key.value, fixed.value.2, fixed.value.0, fixed.value.1,
                           addresses.value, authData.value, ticket.value, second.value));
    }

    /** Credentials while anything is left. */
    method AllCredentials() returns (r: Option<seq<Credential>>)
      requires Valid()
      modifies this
      ensures r == GetCredentials(old(Rest()))
    {
      hide GetCredential;
      ghost var all := GetCredentials(Rest());
      var cs: seq<Credential> := [];
      assert all.Some? ==> [] + all.value == all.value;
      while off < |data|
        invariant Valid()
        invariant all == var more := GetCredentials(Rest());
                         if more.None? then None else Some(cs + more.value)
        decreases |data| - off
      {
        ghost var rest := Rest();
        CredentialConsumes(rest);
        var c := Credential();
        if c.None? { return None; }
        ghost var more := GetCredentials(Rest());
        assert more.Some? ==> cs + ([c.value] + more.value) == cs + [c.value] + more.value;
        cs := cs + [c.value];
      }
      assert cs + [] == cs;
      return Some(cs);
    }
  }

  /** The stamps read so far, with four to read in all. */
  ghost predicate StampsRead(start: bytes, times: seq<uint32>, rest: bytes) {
    ReadMany(Wire.U32, 4, start)
      == if |times| > 4 then None
         else var more := ReadMany(Wire.U32, 4 - |times|, rest);
              if more.None? then None else Some((times + more.value.0, more.value.1))
  }

  lemma StampsStart(d: bytes)
    ensures StampsRead(d, [], d)
  {
    hide Wire.U32, ReadMany;
    var all := ReadMany(Wire.U32, 4, d);
    if all.Some? { assert [] + all.value.0 == all.value.0; }
  }

  lemma StampsStep(start: bytes, times: seq<uint32>, rest: bytes)
    requires |times| < 4 && StampsRead(start, times, rest)
    ensures Wire.U32(rest).None? ==> GetTimes(start).None?
    ensures Wire.U32(rest).Some? ==> StampsRead(start, times + [Wire.U32(rest).value.0], Wire.U32(rest).value.1)
  {
    hide Wire.U32;
    ReadingStep(Wire.U32, ReadMany(Wire.U32, 4, start), times, 4 - |times|, rest);
    TimesIsMany(start);
  }

  lemma StampsEnd(start: bytes, times: seq<uint32>, rest: bytes)
    requires |times| == 4 && StampsRead(start, times, rest)
    ensures GetTimes(start) == Some((Times(times[0], times[1], times[2], times[3]), rest))
  {
    hide Wire.U32;
    assert times + [] == times;
    TimesIsMany(start);
  }

  lemma TimesIsMany(d: bytes)
    ensures var all := ReadMany(Wire.U32, 4, d);
            if all.None? then GetTimes(d).None?
            else |all.value.0| == 4
                 && GetTimes(d) == Some((Times(all.value.0[0], all.value.0[1], all.value.0[2], all.value.0[3]), all.value.1))
  {
    hide Wire.U32;
    if Wire.U32(d).Some? {
      var d1 := Wire.U32(d).value.1;
      assert ReadMany(Wire.U32, 4, d).Some? <==> ReadMany(Wire.U32, 3, d1).Some?;
      if Wire.U32(d1).Some? {
        var d2 := Wire.U32(d1).value.1;
        assert ReadMany(Wire.U32, 3, d1).Some? <==> ReadMany(Wire.U32, 2, d2).Some?;
        if Wire.U32(d2).Some? {
          var d3 := Wire.U32(d2).value.1;
          assert ReadMany(Wire.U32, 2, d2).Some? <==> ReadMany(Wire.U32, 1, d3).Some?;
          assert ReadMany(Wire.U32, 1, d3).Some? <==> Wire.U32(d3).Some?;
        }
      }
    }
  }

  /** parseHeader: a later time offset field overrides an earlier one. */
  method ParseHeader(data: bytes) returns (r: Option<Header>)
    ensures r == GetHeader(data, Header(0, 0))
  {
    hide Wire.U16, Take;
    var d := new Decoder(data, 0);
    var header := Header(0, 0);
    while d.off < |data|
      invariant d.Valid() && d.data == data
      invariant GetHeader(data, Header(0, 0)) == GetHeader(d.Rest(), header)
      decreases |data| - d.off
    {
      var tag := d.U16();
      if tag.None? { return None; }
      var n := d.U16();
      if n.None? { return None; }
      var v := d.Octets(n.value);
      if v.None? { return None; }
      if tag.value == 1 {
        if |v.value| != 8 { return None; }
        BEBound(v.value[..4]);
        BEBound(v.value[4..]);
        Pow256Values();
        header := Header(ToSigned(BE(v.value[..4])), ToSigned(BE(v.value[4..])));
      }
    }
    r := Some(header);
  }

  /** Read, of the whole input. */
  method ReadCache(data: bytes) returns (r: Option<Cache>)
    ensures r == Ccache.Read(data)
  {
    hide Wire.U16, Take, GetHeader, GetPrincipal, GetCredentials;
    if |data| > MAX_INPUT { return None; }
    var d := new Decoder(data, 0);
    assert data[0..] == data;
    var version := d.U16();
    if version.None? || version.value != VERSION { return None; }
    var n := d.U16();
    if n.None? { return None; }
    var fields := d.Octets(n.value);
    if fields.None? { return None; }
    var header := ParseHeader(fields.value);
    if header.None? { return None; }
    var p := d.Principal();
    if p.None? { return None; }
    var cs := d.AllCredentials();
    if cs.None? { return None; }
    r := Some(Cache(header.value, p.value, cs.value));
  }
}
