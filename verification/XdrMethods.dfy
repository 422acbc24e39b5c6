/** The XDR writer, which appends to a buffer, and the reader, which advances an
    offset, proved against the layout. */
module XdrMethods {
  import opened Bytes
  import opened Wire
  import opened Xdr
  import opened XdrTheorems

  predicate Aligned(b: bytes) { |b| % 4 == 0 }

  class Writer {
    var b: bytes

    constructor ()
      ensures b == []
    {
      b := [];
    }

    method U32(v: nat)
      modifies this
      ensures b == old(b) + PutU32(v)
      ensures Aligned(old(b)) ==> Aligned(b)
    {
      hide ToBE;
      b := b + ToBE(v, 4);
    }

    method I32(v: int32)
      modifies this
      ensures b == old(b) + PutI32(v)
      ensures Aligned(old(b)) ==> Aligned(b)
    {
      U32(ToUnsigned(v));
    }

    method I16(v: int16)
      modifies this
      ensures b == old(b) + PutI16(v)
      ensures Aligned(old(b)) ==> Aligned(b)
    {
      I32(v);
    }

    method Boolean(v: bool)
      modifies this
      ensures b == old(b) + PutBool(v)
      ensures Aligned(old(b)) ==> Aligned(b)
    {
      if v { U32(1); } else { U32(0); }
    }

    /** Pads the whole buffer; from an aligned buffer that is the item's padding. */
    method Opaque(v: bytes)
      modifies this
      ensures b == AppendOpaque(old(b), v) && Aligned(b)
      ensures Aligned(old(b)) ==> b == old(b) + PutOpaque(v)
    {
      hide ToBE;
      U32(|v|);
      b := b + v;
      ghost var before := b;
      while |b| % 4 != 0
        invariant |before| <= |b| <= |before| + Pad(|before|)
        invariant b == before + Zeros(|b| - |before|)
        decreases |before| + Pad(|before|) - |b|
      {
        ZerosSnoc(|b| - |before|);
        b := b + [0];
      }
      OpaquePadded(old(b), v);
    }

    method WriteTime(t: Time)
      modifies this
      ensures b == old(b) + PutTime(t)
      ensures Aligned(old(b)) ==> Aligned(b)
    {
      hide ToBE;
      U32(t.seconds);
      U32(t.useconds);
    }

    method WritePrincipal(p: Principal)
      requires Aligned(b)
      modifies this
      ensures b == old(b) + PutPrincipal(p) && Aligned(b)
    {
      hide PutOpaque, AppendOpaque, ToBE, WriteAll;
      Opaque(p.realm);
      U32(|p.components|);
      ghost var start := b;
      WriteAllEmpty(PutData, p.components);
      for i := 0 to |p.components|
        invariant Aligned(b) && b == start + WriteAll(PutData, p.components[..i])
      {
        WriteAllSnoc(PutData, p.components, i);
        I32(p.components[i].magic);
        Opaque(p.components[i].data);
      }
      assert p.components[..|p.components|] == p.components;
      I32(p.nameType);
    }

    method WriteKey(k: Key)
      requires Aligned(b)
      modifies this
      ensures b == old(b) + PutKey(k) && Aligned(b)
    {
      hide PutOpaque, PutI32, PutCounted;
      I32(k.version);
      I32(k.kvno);
      WriteNumbers(k.enctypes);
      WriteOpaques(k.contents);
    }

    method WriteNumbers(xs: seq<int32>)
      requires Aligned(b)
      modifies this
      ensures b == old(b) + PutCounted(PutI32, xs) && Aligned(b)
    {
      hide ToBE, WriteAll;
      U32(|xs|);
      ghost var start := b;
      WriteAllEmpty(PutI32, xs);
      for i := 0 to |xs|
        invariant Aligned(b) && b == start + WriteAll(PutI32, xs[..i])
      {
        WriteAllSnoc(PutI32, xs, i);
        I32(xs[i]);
      }
      assert xs[..|xs|] == xs;
    }

    method WriteKeys(ks: seq<Key>)
      requires Aligned(b)
      modifies this
      ensures b == old(b) + PutKeys(ks) && Aligned(b)
    {
      hide PutKey, ToBE, WriteAll;
      U32(|ks|);
      ghost var start := b;
      WriteAllEmpty(PutKey, ks);
      for i := 0 to |ks|
        invariant Aligned(b) && b == start + WriteAll(PutKey, ks[..i])
      {
        WriteAllSnoc(PutKey, ks, i);
        WriteKey(ks[i]);
      }
      assert ks[..|ks|] == ks;
    }

    method WriteHistory(h: seq<seq<Key>>)
      requires Aligned(b)
      modifies this
      ensures b == old(b) + PutCounted(PutKeys, h) && Aligned(b)
    {
      hide PutKeys, ToBE, WriteAll;
      U32(|h|);
      ghost var start := b;
      WriteAllEmpty(PutKeys, h);
      for i := 0 to |h|
        invariant Aligned(b) && b == start + WriteAll(PutKeys, h[..i])
      {
        WriteAllSnoc(PutKeys, h, i);
        WriteKeys(h[i]);
      }
      assert h[..|h|] == h;
    }

    method WriteTLs(ts: seq<TL>)
      requires Aligned(b)
      modifies this
      ensures b == old(b) + PutCounted(PutTL, ts) && Aligned(b)
    {
      hide PutOpaque, AppendOpaque, ToBE, WriteAll;
      U32(|ts|);
      ghost var start := b;
      WriteAllEmpty(PutTL, ts);
      for i := 0 to |ts|
        invariant Aligned(b) && b == start + WriteAll(PutTL, ts[..i])
      {
        WriteAllSnoc(PutTL, ts, i);
        I16(ts[i].typ);
        Opaque(ts[i].data);
      }
      assert ts[..|ts|] == ts;
    }

    method WriteValue(v: Value)
      requires Aligned(b)
      modifies this
      ensures b == old(b) + PutValue(v) && Aligned(b)
    {
      hide PutOpaque, AppendOpaque, PutU32, PutI32, PutPrincipal, PutKeys, PutCounted, ArmOf;
      I32(v.typ);
      match ArmOf(v.typ) {
        case NumberArm => U32(v.number);
        case PrincipalArm => WritePrincipal(v.principal);
        case KeysArm => WriteKeys(v.keys);
        case HistoryArm => WriteHistory(v.history);
        case TlArm => WriteTLs(v.tlData);
        case ShortArm => I16(v.short);
        case TextArm => Opaque(v.text);
        case FlagArm => Boolean(v.flag);
        case ExtensionArm => Opaque(v.extension);
      }
    }

    method WriteEntry(vs: seq<Value>)
      requires Aligned(b)
      modifies this
      ensures b == old(b) + PutCounted(PutValue, vs) && Aligned(b)
    {
      hide PutValue, ToBE, WriteAll;
      U32(|vs|);
      ghost var start := b;
      WriteAllEmpty(PutValue, vs);
      for i := 0 to |vs|
        invariant Aligned(b) && b == start + WriteAll(PutValue, vs[..i])
      {
        WriteAllSnoc(PutValue, vs, i);
        WriteValue(vs[i]);
      }
      assert vs[..|vs|] == vs;
    }

    method WriteOpaques(xs: seq<bytes>)
      requires Aligned(b)
      modifies this
      ensures b == old(b) + PutCounted(PutOpaque, xs) && Aligned(b)
    {
      hide PutOpaque, AppendOpaque, ToBE, WriteAll;
      U32(|xs|);
      ghost var start := b;
      WriteAllEmpty(PutOpaque, xs);
      for i := 0 to |xs|
        invariant Aligned(b) && b == start + WriteAll(PutOpaque, xs[..i])
      {
        WriteAllSnoc(PutOpaque, xs, i);
        Opaque(xs[i]);
      }
      assert xs[..|xs|] == xs;
    }

    method WriteChange(u: Update)
      requires Aligned(b)
      modifies this
      ensures b == old(b) + PutChange(u) && Aligned(b)
    {
      hide PutOpaque, AppendOpaque, PutU32, PutTime, PutCounted, PutBool;
      Opaque(u.name);
      U32(u.serial);
      WriteTime(u.time);
      WriteEntry(u.entry);
    }

    method WriteMeta(u: Update)
      requires Aligned(b)
      modifies this
      ensures b == old(b) + PutMeta(u) && Aligned(b)
    {
      hide PutOpaque, AppendOpaque, PutU32, PutCounted, PutBool;
      Boolean(u.deleted);
      Boolean(u.commit);
      WriteOpaques(u.seenBy);
      Opaque(u.futures);
    }

    method WriteUpdate(u: Update)
      requires Aligned(b)
      modifies this
      ensures b == old(b) + PutUpdate(u) && Aligned(b)
    {
      hide PutChange, PutMeta;
      WriteChange(u);
      WriteMeta(u);
    }
  }

  lemma {:induction false} ZerosSnoc(n: nat)
    ensures Zeros(n + 1) == Zeros(n) + [0]
  {
    if n > 0 { ZerosSnoc(n - 1); }
  }

  lemma OpaquePadded(buffer: bytes, v: bytes)
    ensures Aligned(buffer) ==> AppendOpaque(buffer, v) == buffer + PutOpaque(v)
  {
    hide ToBE, Zeros, Pad;
    AppendedTail(buffer, v);
    PadShift(|buffer|, |v|);
  }

  /** MarshalXDR. */
  method MarshalUpdate(u: Update) returns (b: bytes)
    ensures b == PutUpdate(u)
    ensures Aligned(b)
  {
    var w := new Writer();
    w.WriteUpdate(u);
    b := w.b;
  }

  // ----- reader

  class Reader {
    const data: bytes
    var off: nat

    ghost predicate Valid() reads this { off <= |data| }

    ghost function Rest(): (r: bytes)
      requires Valid()
      reads this
    {
      data[off..]
    }

    constructor (d: bytes)
      ensures Valid() && data == d && Rest() == d
    {
      data := d;
      off := 0;
    }

    method TakeBytes(n: nat) returns (r: Option<bytes>)
      requires Valid()
      modifies this
      ensures Valid() && Read(Take(old(Rest()), n), r, Rest())
    {
      if n > |data| - off { return None; }
      r := Some(data[off..off + n]);
      assert data[off..][..n] == data[off..off + n] && data[off..][n..] == data[off + n..];
      off := off + n;
    }

    method U32() returns (r: Option<uint32>)
      requires Valid()
      modifies this
      ensures Valid() && Read(Wire.U32(old(Rest())), r, Rest())
    {
      var b := TakeBytes(4);
      if b.None? { return None; }
      BEBound(b.value);
      Pow256Values();
      r := Some(BE(b.value));
    }

    method I32() returns (r: Option<int32>)
      requires Valid()
      modifies this
      ensures Valid() && Read(GetI32(old(Rest())), r, Rest())
    {
      var v := U32();
      if v.None? { return None; }
      r := Some(ToSigned(v.value));
    }

    method I16() returns (r: Option<int16>)
      requires Valid()
      modifies this
      ensures Valid() && Read(GetI16(old(Rest())), r, Rest())
    {
      var v := I32();
      if v.None? || v.value < -32768 || v.value > 32767 { return None; }
      r := Some(v.value);
    }

    method Boolean() returns (r: Option<bool>)
      requires Valid()
      modifies this
      ensures Valid() && Read(GetBool(old(Rest())), r, Rest())
    {
      var v := U32();
      if v.None? || v.value > 1 { return None; }
      r := Some(v.value == 1);
    }

    method Opaque() returns (r: Option<bytes>)
      requires Valid()
      modifies this
      ensures Valid() && Read(GetOpaque(old(Rest())), r, Rest())
    {
      hide Wire.U32, Take;
      var n := U32();
      if n.None? { return None; }
      var v := TakeBytes(n.value);
      if v.None? { return None; }
      var pad := TakeBytes(Pad(n.value));
      if pad.None? { return None; }
      r := v;
    }

    method ReadTime() returns (r: Option<Time>)
      requires Valid()
      modifies this
      ensures Valid() && Read(GetTime(old(Rest())), r, Rest())
    {
      hide Wire.U32;
      var s := U32();
      if s.None? { return None; }
      var u := U32();
      if u.None? { return None; }
      r := Some(Time(s.value, u.value));
    }

    method Count() returns (r: Option<nat>)
      requires Valid()
      modifies this
      ensures Valid()
      ensures var got := Wire.U32(old(Rest()));
              if got.None? || got.value.0 > MAX_COUNT then r.None? else r == Some(got.value.0) && Rest() == got.value.1
    {
      hide Wire.U32;
      var n := U32();
      if n.None? || n.value > MAX_COUNT { return None; }
      r := Some(n.value);
    }

    method ReadDatas() returns (r: Option<seq<Data>>)
      requires Valid()
      modifies this
      ensures Valid() && Read(GetCounted(GetData, old(Rest())), r, Rest())
    {
      hide Wire.U32, GetI32, GetOpaque, ReadMany, Reading;
      var n := Count();
      if n.None? { return None; }
      ghost var all := ReadMany(GetData, n.value, Rest());
      var out: seq<Data> := [];
      ReadingStart(all);
      for i := 0 to n.value
        invariant Valid() && Reading(all, out, ReadMany(GetData, n.value - i, Rest()))
      {
        ReadingStep(GetData, all, out, n.value - i, Rest());
        var m := I32();
        if m.None? { return None; }
        var d := Opaque();
        if d.None? { return None; }
        out := out + [Data(m.value, d.value)];
      }
      ReadingEnd(GetData, all, out, Rest());
      r := Some(out);
    }

    method ReadPrincipal() returns (r: Option<Principal>)
      requires Valid()
      modifies this
      ensures Valid() && Read(GetPrincipal(old(Rest())), r, Rest())
    {
      hide GetI32, GetOpaque, GetCounted;
      var realm := Opaque();
      if realm.None? { return None; }
      var components := ReadDatas();
      if components.None? { return None; }
      var nameType := I32();
      if nameType.None? { return None; }
      r := Some(Principal(realm.value, components.value, nameType.value));
    }

    method ReadNumbers() returns (r: Option<seq<int32>>)
      requires Valid()
      modifies this
      ensures Valid() && Read(GetCounted(GetI32, old(Rest())), r, Rest())
    {
      hide Wire.U32, GetI32, ReadMany, Reading;
      var n := Count();
      if n.None? { return None; }
      ghost var all := ReadMany(GetI32, n.value, Rest());
      var out: seq<int32> := [];
      ReadingStart(all);
      for i := 0 to n.value
        invariant Valid() && Reading(all, out, ReadMany(GetI32, n.value - i, Rest()))
      {
        ReadingStep(GetI32, all, out, n.value - i, Rest());
        var x := I32();
        if x.None? { return None; }
        out := out + [x.value];
      }
      ReadingEnd(GetI32, all, out, Rest());
      r := Some(out);
    }

    method ReadOpaques() returns (r: Option<seq<bytes>>)
      requires Valid()
      modifies this
      ensures Valid() && Read(GetCounted(GetOpaque, old(Rest())), r, Rest())
    {
      hide Wire.U32, GetOpaque, ReadMany, Reading;
      var n := Count();
      if n.None? { return None; }
      ghost var all := ReadMany(GetOpaque, n.value, Rest());
      var out: seq<bytes> := [];
      ReadingStart(all);
      for i := 0 to n.value
        invariant Valid() && Reading(all, out, ReadMany(GetOpaque, n.value - i, Rest()))
      {
        ReadingStep(GetOpaque, all, out, n.value - i, Rest());
        var x := Opaque();
        if x.None? { return None; }
        out := out + [x.value];
      }
      ReadingEnd(GetOpaque, all, out, Rest());
      r := Some(out);
    }

    method ReadKey() returns (r: Option<Key>)
      requires Valid()
      modifies this
      ensures Valid() && Read(GetKey(old(Rest())), r, Rest())
    {
      hide GetI32, GetOpaque, GetCounted;
      var version := I32();
      if version.None? { return None; }
      var kvno := I32();
      if kvno.None? { return None; }
      var enctypes := ReadNumbers();
      if enctypes.None? { return None; }
      var contents := ReadOpaques();
      if contents.None? { return None; }
      r := Some(Key(version.value, kvno.value, enctypes.value, contents.value));
    }

    method ReadKeys() returns (r: Option<seq<Key>>)
      requires Valid()
      modifies this
      ensures Valid() && Read(GetKeys(old(Rest())), r, Rest())
    {
      hide Wire.U32, GetKey, ReadMany, Reading;
      var n := Count();
      if n.None? { return None; }
      ghost var all := ReadMany(GetKey, n.value, Rest());
      var out: seq<Key> := [];
      ReadingStart(all);
      for i := 0 to n.value
        invariant Valid() && Reading(all, out, ReadMany(GetKey, n.value - i, Rest()))
      {
        ReadingStep(GetKey, all, out, n.value - i, Rest());
        var x := ReadKey();
        if x.None? { return None; }
        out := out + [x.value];
      }
      ReadingEnd(GetKey, all, out, Rest());
      r := Some(out);
    }

    method ReadHistory() returns (r: Option<seq<seq<Key>>>)
      requires Valid()
      modifies this
      ensures Valid() && Read(GetCounted(GetKeys, old(Rest())), r, Rest())
    {
      hide Wire.U32, GetKeys, ReadMany, Reading;
      var n := Count();
      if n.None? { return None; }
      ghost var all := ReadMany(GetKeys, n.value, Rest());
      var out: seq<seq<Key>> := [];
      ReadingStart(all);
      for i := 0 to n.value
        invariant Valid() && Reading(all, out, ReadMany(GetKeys, n.value - i, Rest()))
      {
        ReadingStep(GetKeys, all, out, n.value - i, Rest());
        var x := ReadKeys();
        if x.None? { return None; }
        out := out + [x.value];
      }
      ReadingEnd(GetKeys, all, out, Rest());
      r := Some(out);
    }

    method ReadTLs() returns (r: Option<seq<TL>>)
      requires Valid()
      modifies this
      ensures Valid() && Read(GetCounted(GetTL, old(Rest())), r, Rest())
    {
      hide Wire.U32, GetI16, GetOpaque, ReadMany, Reading;
      var n := Count();
      if n.None? { return None; }
      ghost var all := ReadMany(GetTL, n.value, Rest());
      var out: seq<TL> := [];
      ReadingStart(all);
      for i := 0 to n.value
        invariant Valid() && Reading(all, out, ReadMany(GetTL, n.value - i, Rest()))
      {
        ReadingStep(GetTL, all, out, n.value - i, Rest());
        var t := I16();
        if t.None? { return None; }
        var d := Opaque();
        if d.None? { return None; }
        out := out + [TL(t.value, d.value)];
      }
      ReadingEnd(GetTL, all, out, Rest());
      r := Some(out);
    }

    method ReadArm(typ: int32) returns (r: Option<Value>)
      requires Valid()
      modifies this
      ensures Valid() && Read(GetArm(typ, old(Rest())), r, Rest())
    {
      hide Wire.U32, GetI16, GetOpaque, GetBool, GetPrincipal, GetKeys, GetCounted, ArmOf;
      var b := Blank(typ);
      match ArmOf(typ) {
        case NumberArm => var x := U32(); if x.None? { return None; } return Some(b.(number := x.value));
        case PrincipalArm => var x := ReadPrincipal(); if x.None? { return None; } return Some(b.(principal := x.value));
        case KeysArm => var x := ReadKeys(); if x.None? { return None; } return Some(b.(keys := x.value));
        case HistoryArm => var x := ReadHistory(); if x.None? { return None; } return Some(b.(history := x.value));
        case TlArm => var x := ReadTLs(); if x.None? { return None; } return Some(b.(tlData := x.value));
        case ShortArm => var x := I16(); if x.None? { return None; } return Some(b.(short := x.value));
        case TextArm => var x := Opaque(); if x.None? { return None; } return Some(b.(text := x.value));
        case FlagArm => var x := Boolean(); if x.None? { return None; } return Some(b.(flag := x.value));
        case ExtensionArm => var x := Opaque(); if x.None? { return None; } return Some(b.(extension := x.value));
      }
    }

    method ReadEntry() returns (r: Option<seq<Value>>)
      requires Valid()
      modifies this
      ensures Valid() && Read(GetCounted(GetValue, old(Rest())), r, Rest())
    {
      hide Wire.U32, GetI32, GetArm, ReadMany, Reading;
      var n := Count();
      if n.None? { return None; }
      ghost var all := ReadMany(GetValue, n.value, Rest());
      var out: seq<Value> := [];
      ReadingStart(all);
      for i := 0 to n.value
        invariant Valid() && Reading(all, out, ReadMany(GetValue, n.value - i, Rest()))
      {
        ReadingStep(GetValue, all, out, n.value - i, Rest());
        var typ := I32();
        if typ.None? { return None; }
        var x := ReadArm(typ.value);
        if x.None? { return None; }
        out := out + [x.value];
      }
      ReadingEnd(GetValue, all, out, Rest());
      r := Some(out);
    }

    method ReadUpdate() returns (r: Option<Update>)
      requires Valid()
      modifies this
      ensures Valid() && Read(GetUpdate(old(Rest())), r, Rest())
    {
      hide Wire.U32, GetOpaque, GetTime, GetBool, GetCounted;
      var name := Opaque();
      if name.None? { return None; }
      var serial := U32();
      if serial.None? { return None; }
      var time := ReadTime();
      if time.None? { return None; }
      var entry := ReadEntry();
      if entry.None? { return None; }
      var deleted := Boolean();
      if deleted.None? { return None; }
      var commit := Boolean();
      if commit.None? { return None; }
      var seenBy := ReadOpaques();
      if seenBy.None? { return None; }
      var futures := Opaque();
      if futures.None? { return None; }
      r := Some(Update(name.value, serial.value, time.value, entry.value, deleted.value, commit.value, seenBy.value, futures.value));
    }
  }

  /** UnmarshalUpdate: one update and nothing after it. */
  method ParseUpdate(d: bytes) returns (r: Option<Update>)
    ensures r == UnmarshalUpdate(d)
  {
    hide GetUpdate;
    var reader := new Reader(d);
    var u := reader.ReadUpdate();
    if u.None? { return None; }
    if reader.off != |reader.data| { return None; }
    r := u;
  }
}
