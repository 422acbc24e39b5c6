/** Updates decode from their XDR to themselves. */
module XdrTheorems {
  import opened Bytes
  import opened Wire
  import opened Xdr

  // ----- domains: every length fits the 32-bit field it is written to

  predicate Short<T>(s: seq<T>) { |s| < TWO32 }
  predicate SizedData(d: Data) { Short(d.data) }
  predicate SizedTL(t: TL) { Short(t.data) }
  predicate SizedPrincipal(p: Principal) { Short(p.realm) && Short(p.components) && OkAll(SizedData, p.components) }
  predicate SizedKey(k: Key) { Short(k.enctypes) && Short(k.contents) && OkAll(Short<byte>, k.contents) }
  predicate SizedKeys(ks: seq<Key>) { Short(ks) && OkAll(SizedKey, ks) }
  predicate SizedValue(v: Value) {
    match ArmOf(v.typ)
    case PrincipalArm => SizedPrincipal(v.principal)
    case KeysArm => SizedKeys(v.keys)
    case HistoryArm => Short(v.history) && OkAll(SizedKeys, v.history)
    case TlArm => Short(v.tlData) && OkAll(SizedTL, v.tlData)
    case TextArm => Short(v.text)
    case ExtensionArm => Short(v.extension)
    case _ => true
  }
  predicate Sized(u: Update) {
    && Short(u.name) && Short(u.entry) && OkAll(SizedValue, u.entry) && Short(u.seenBy) && OkAll(Short<byte>, u.seenBy)
    && Short(u.futures)
  }

  // ----- what a reader accepts: at most 2^20 elements in every list it reads

  predicate Few<T>(s: seq<T>) { |s| <= MAX_COUNT }
  predicate OkPrincipal(p: Principal) { Few(p.components) }
  predicate OkKey(k: Key) { Few(k.enctypes) && Few(k.contents) }
  predicate OkKeys(ks: seq<Key>) { Few(ks) && OkAll(OkKey, ks) }
  predicate OkValue(v: Value) {
    match ArmOf(v.typ)
    case PrincipalArm => OkPrincipal(v.principal)
    case KeysArm => OkKeys(v.keys)
    case HistoryArm => Few(v.history) && OkAll(OkKeys, v.history)
    case TlArm => Few(v.tlData)
    case _ => true
  }
  predicate OkUpdate(u: Update) { Few(u.entry) && OkAll(OkValue, u.entry) && Few(u.seenBy) }

  /** The update with every attribute reduced to its transmitted arm. */
  function Canonical(u: Update): (r: Update) { u.(entry := NormAll(Selected, u.entry)) }

  // ----- primitive items

  lemma I32Law()
    ensures Law(PutI32, GetI32, Any, Any, Id)
  {
    forall v: int32, rest: bytes
      ensures GetI32(PutI32(v) + rest) == Some((v, rest))
    {
      U32Back(ToUnsigned(v), rest);
      SignedBack(v);
    }
  }

  lemma I16Back(v: int16, rest: bytes)
    ensures GetI16(PutI16(v) + rest) == Some((v, rest))
  {
    U32Back(ToUnsigned(v), rest);
    SignedBack(v);
  }

  lemma BoolBack(v: bool, rest: bytes)
    ensures GetBool(PutBool(v) + rest) == Some((v, rest))
  {
    U32Back(if v then 1 else 0, rest);
  }

  lemma OpaqueBack(v: bytes, rest: bytes)
    requires Short(v)
    ensures GetOpaque(PutOpaque(v) + rest) == Some((v, rest))
  {
    var pad := Zeros(Pad(|v|));
    assert PutOpaque(v) + rest == PutU32(|v|) + (v + (pad + rest));
    U32Back(|v|, v + (pad + rest));
    TakeBack(v, pad + rest);
    TakeBack(pad, rest);
  }

  lemma OpaqueLaw()
    ensures Law(PutOpaque, GetOpaque, Short<byte>, Any, Id)
  {
    forall v: bytes, rest: bytes | Short(v)
      ensures GetOpaque(PutOpaque(v) + rest) == Some((v, rest))
    {
      OpaqueBack(v, rest);
    }
  }

  // ----- lists

  lemma CountedBack<T(!new)>(w: T -> bytes, p: bytes -> Option<(T, bytes)>, dom: T -> bool, ok: T -> bool,
                             norm: T -> T, xs: seq<T>, rest: bytes)
    requires Law(w, p, dom, ok, norm) && Short(xs) && OkAll(dom, xs)
    ensures GetCounted(p, PutCounted(w, xs) + rest)
         == if Few(xs) && OkAll(ok, xs) then Some((NormAll(norm, xs), rest)) else None
  {
    assert PutCounted(w, xs) + rest == PutU32(|xs|) + (WriteAll(w, xs) + rest);
    U32Back(|xs|, WriteAll(w, xs) + rest);
    ManyBack(w, p, dom, ok, norm, xs, rest);
  }

  /** Lists of items that are always accepted and returned as they are. */
  lemma PlainCountedBack<T(!new)>(w: T -> bytes, p: bytes -> Option<(T, bytes)>, dom: T -> bool, xs: seq<T>, rest: bytes)
    requires Law(w, p, dom, Any, Id) && Short(xs) && OkAll(dom, xs)
    ensures GetCounted(p, PutCounted(w, xs) + rest) == if Few(xs) then Some((xs, rest)) else None
  {
    CountedBack(w, p, dom, Any, Id, xs, rest);
    NormAllId(xs);
    OkAllAny(xs);
  }

  lemma DataLaw()
    ensures Law(PutData, GetData, SizedData, Any, Id)
  {
    forall x: Data, rest: bytes | SizedData(x)
      ensures GetData(PutData(x) + rest) == Some((x, rest))
    {
      I32Law();
      assert PutData(x) + rest == PutI32(x.magic) + (PutOpaque(x.data) + rest);
      OpaqueBack(x.data, rest);
    }
  }

  lemma TLLaw()
    ensures Law(PutTL, GetTL, SizedTL, Any, Id)
  {
    forall x: TL, rest: bytes | SizedTL(x)
      ensures GetTL(PutTL(x) + rest) == Some((x, rest))
    {
      assert PutTL(x) + rest == PutI16(x.typ) + (PutOpaque(x.data) + rest);
      I16Back(x.typ, PutOpaque(x.data) + rest);
      OpaqueBack(x.data, rest);
    }
  }

  lemma PrincipalBack(x: Principal, rest: bytes)
    requires SizedPrincipal(x)
    ensures GetPrincipal(PutPrincipal(x) + rest) == if OkPrincipal(x) then Some((x, rest)) else None
  {
    var d2 := PutI32(x.nameType) + rest;
    var d1 := PutCounted(PutData, x.components) + d2;
    assert PutPrincipal(x) + rest == PutOpaque(x.realm) + d1;
    OpaqueBack(x.realm, d1);
    DataLaw();
    PlainCountedBack(PutData, GetData, SizedData, x.components, d2);
    I32Law();
  }

  lemma KeyBack(x: Key, rest: bytes)
    requires SizedKey(x)
    ensures GetKey(PutKey(x) + rest) == if OkKey(x) then Some((x, rest)) else None
  {
    hide PutOpaque, PutCounted, GetOpaque, GetCounted, OkAll;
    var d3 := PutCounted(PutOpaque, x.contents) + rest;
    var d2 := PutCounted(PutI32, x.enctypes) + d3;
    var d1 := PutI32(x.kvno) + d2;
    assert PutKey(x) + rest == PutI32(x.version) + d1;
    I32Law();
    OpaqueLaw();
    OkAllAny(x.enctypes);
    PlainCountedBack(PutI32, GetI32, Any, x.enctypes, d3);
    PlainCountedBack(PutOpaque, GetOpaque, Short<byte>, x.contents, rest);
  }

  lemma KeyLaw()
    ensures Law(PutKey, GetKey, SizedKey, OkKey, Id)
  {
    forall x: Key, rest: bytes | SizedKey(x)
      ensures GetKey(PutKey(x) + rest) == if OkKey(x) then Some((x, rest)) else None
    {
      KeyBack(x, rest);
    }
  }

  lemma KeysBack(xs: seq<Key>, rest: bytes)
    requires SizedKeys(xs)
    ensures GetKeys(PutKeys(xs) + rest) == if OkKeys(xs) then Some((xs, rest)) else None
  {
    KeyLaw();
    CountedBack(PutKey, GetKey, SizedKey, OkKey, Id, xs, rest);
    NormAllId(xs);
  }

  lemma KeysLaw()
    ensures Law(PutKeys, GetKeys, SizedKeys, OkKeys, Id)
  {
    forall xs: seq<Key>, rest: bytes | SizedKeys(xs)
      ensures GetKeys(PutKeys(xs) + rest) == if OkKeys(xs) then Some((xs, rest)) else None
    {
      KeysBack(xs, rest);
    }
  }

  lemma HistoryBack(xs: seq<seq<Key>>, rest: bytes)
    requires Short(xs) && OkAll(SizedKeys, xs)
    ensures GetCounted(GetKeys, PutCounted(PutKeys, xs) + rest)
         == if Few(xs) && OkAll(OkKeys, xs) then Some((xs, rest)) else None
  {
    KeysLaw();
    CountedBack(PutKeys, GetKeys, SizedKeys, OkKeys, Id, xs, rest);
    NormAllId(xs);
  }

  // ----- attributes and updates

  lemma ArmBack(v: Value, rest: bytes)
    requires SizedValue(v)
    ensures GetArm(v.typ, PutArm(v) + rest) == if OkValue(v) then Some((Selected(v), rest)) else None
  {
    match ArmOf(v.typ) {
      case NumberArm => U32Back(v.number, rest);
      case PrincipalArm => PrincipalBack(v.principal, rest);
      case KeysArm => KeysBack(v.keys, rest);
      case HistoryArm => HistoryBack(v.history, rest);
      case TlArm => TLLaw(); PlainCountedBack(PutTL, GetTL, SizedTL, v.tlData, rest);
      case ShortArm => I16Back(v.short, rest);
      case TextArm => OpaqueBack(v.text, rest);
      case FlagArm => BoolBack(v.flag, rest);
      case ExtensionArm => OpaqueBack(v.extension, rest);
    }
  }

  lemma ValueLaw()
    ensures Law(PutValue, GetValue, SizedValue, OkValue, Selected)
  {
    forall v: Value, rest: bytes | SizedValue(v)
      ensures GetValue(PutValue(v) + rest) == if OkValue(v) then Some((Selected(v), rest)) else None
    {
      I32Law();
      assert PutValue(v) + rest == PutI32(v.typ) + (PutArm(v) + rest);
      ArmBack(v, rest);
    }
  }

  /** An update decodes to its canonical form and leaves what follows untouched,
      or is refused exactly when one of its lists is too long. */
  lemma UpdateBack(u: Update, rest: bytes)
    requires Sized(u)
    ensures GetUpdate(PutUpdate(u) + rest) == if OkUpdate(u) then Some((Canonical(u), rest)) else None
  {
    hide PutOpaque, PutCounted, PutTime, PutBool, GetOpaque, GetCounted, GetTime, GetBool, U32, ToBE, Law, OkAll, NormAll, PutUpdate;
    var d7 := PutOpaque(u.futures) + rest;
    var d6 := PutCounted(PutOpaque, u.seenBy) + d7;
    var d5 := PutBool(u.commit) + d6;
    var d4 := PutBool(u.deleted) + d5;
    var d3 := PutCounted(PutValue, u.entry) + d4;
    var d2 := PutTime(u.time) + d3;
    var d1 := PutU32(u.serial) + d2;
    UpdateLayout(u, rest);
    OpaqueBack(u.name, d1);
    U32Back(u.serial, d2);
    TimeBack(u.time, d3);
    ValueLaw();
    CountedBack(PutValue, GetValue, SizedValue, OkValue, Selected, u.entry, d4);
    BoolBack(u.deleted, d5);
    BoolBack(u.commit, d6);
    OpaqueLaw();
    PlainCountedBack(PutOpaque, GetOpaque, Short<byte>, u.seenBy, d7);
    OpaqueBack(u.futures, rest);
  }

  lemma UpdateLayout(u: Update, rest: bytes)
    ensures PutUpdate(u) + rest
         == PutOpaque(u.name) + (PutU32(u.serial) + (PutTime(u.time) + (PutCounted(PutValue, u.entry)
              + (PutBool(u.deleted) + (PutBool(u.commit) + (PutCounted(PutOpaque, u.seenBy) + (PutOpaque(u.futures) + rest)))))))
  {
    hide PutOpaque, PutCounted, PutTime, PutBool, PutU32;
  }

  lemma TimeBack(t: Time, rest: bytes)
    ensures GetTime(PutTime(t) + rest) == Some((t, rest))
  {
    assert PutTime(t) + rest == PutU32(t.seconds) + (PutU32(t.useconds) + rest);
    U32Back(t.seconds, PutU32(t.useconds) + rest);
    U32Back(t.useconds, rest);
  }

  /** UnmarshalUpdate after MarshalXDR returns the update itself exactly when no
      list is too long and only the arm its type selects is set in each value. */
  lemma UpdateRoundTrip(u: Update)
    requires Sized(u)
    ensures UnmarshalUpdate(PutUpdate(u)) == if OkUpdate(u) then Some(Canonical(u)) else None
    ensures UnmarshalUpdate(PutUpdate(u)) == Some(u) <==> OkUpdate(u) && NormAll(Selected, u.entry) == u.entry
  {
    assert PutUpdate(u) + [] == PutUpdate(u);
    UpdateBack(u, []);
  }

  // ----- anything of moderate length is within every limit

  /** An item takes at least four bytes and is within limits when it is short. */
  ghost predicate Bounded<T(!new)>(w: T -> bytes, fine: T -> bool) {
    forall x: T :: |w(x)| >= 4 && (|w(x)| <= MAX_COUNT ==> fine(x))
  }

  lemma {:induction false} AllBounded<T(!new)>(w: T -> bytes, fine: T -> bool, xs: seq<T>)
    requires Bounded(w, fine) && |WriteAll(w, xs)| <= MAX_COUNT
    ensures OkAll(fine, xs) && 4 * |xs| <= |WriteAll(w, xs)|
    decreases |xs|
  {
    if xs != [] {
      assert |w(xs[0])| >= 4;
      AllBounded(w, fine, xs[1..]);
    }
  }

  lemma CountedBounded<T(!new)>(w: T -> bytes, fine: T -> bool, xs: seq<T>)
    requires Bounded(w, fine) && |PutCounted(w, xs)| <= MAX_COUNT
    ensures OkAll(fine, xs) && Few(xs) && Short(xs)
  {
    AllBounded(w, fine, xs);
  }

  predicate FineKey(k: Key) { SizedKey(k) && OkKey(k) }
  predicate FineKeys(ks: seq<Key>) { SizedKeys(ks) && OkKeys(ks) }
  predicate FineValue(v: Value) { SizedValue(v) && OkValue(v) }

  lemma OpaquesBounded()
    ensures Bounded(PutOpaque, Short<byte>) && Bounded(PutI32, Any)
    ensures Bounded(PutData, SizedData) && Bounded(PutTL, SizedTL)
  {
  }

  lemma KeysBounded()
    ensures Bounded(PutKey, FineKey) && Bounded(PutKeys, FineKeys)
  {
    OpaquesBounded();
    forall k: Key | |PutKey(k)| <= MAX_COUNT
      ensures FineKey(k)
    {
      CountedBounded(PutI32, Any, k.enctypes);
      CountedBounded(PutOpaque, Short<byte>, k.contents);
    }
    assert Bounded(PutKey, FineKey);
    forall ks: seq<Key> | |PutKeys(ks)| <= MAX_COUNT
      ensures FineKeys(ks)
    {
      CountedBounded(PutKey, FineKey, ks);
      SplitFine(ks);
    }
  }

  lemma {:induction false} SplitFine(ks: seq<Key>)
    requires OkAll(FineKey, ks)
    ensures OkAll(SizedKey, ks) && OkAll(OkKey, ks)
  {
    if ks != [] { SplitFine(ks[1..]); }
  }

  lemma {:induction false} SplitFineKeys(xs: seq<seq<Key>>)
    requires OkAll(FineKeys, xs)
    ensures OkAll(SizedKeys, xs) && OkAll(OkKeys, xs)
  {
    if xs != [] { SplitFineKeys(xs[1..]); }
  }

  lemma {:induction false} SplitFineValues(xs: seq<Value>)
    requires OkAll(FineValue, xs)
    ensures OkAll(SizedValue, xs) && OkAll(OkValue, xs)
  {
    if xs != [] { SplitFineValues(xs[1..]); }
  }

  lemma ValuesBounded()
    ensures Bounded(PutValue, FineValue)
  {
    forall v: Value | |PutValue(v)| <= MAX_COUNT
      ensures FineValue(v)
    {
      OpaquesBounded();
      KeysBounded();
      match ArmOf(v.typ) {
        case PrincipalArm => CountedBounded(PutData, SizedData, v.principal.components);
        case KeysArm => assert |PutKeys(v.keys)| <= MAX_COUNT;
        case HistoryArm => CountedBounded(PutKeys, FineKeys, v.history); SplitFineKeys(v.history);
        case TlArm => CountedBounded(PutTL, SizedTL, v.tlData);
        case _ =>
      }
    }
  }

  /** Every update whose encoding is at most 2^20 bytes is within all limits. */
  lemma ModerateIsFine(u: Update)
    requires |PutUpdate(u)| <= MAX_COUNT
    ensures Sized(u) && OkUpdate(u)
  {
    OpaquesBounded();
    ValuesBounded();
    CountedBounded(PutValue, FineValue, u.entry);
    SplitFineValues(u.entry);
    CountedBounded(PutOpaque, Short<byte>, u.seenBy);
  }

  // ----- alignment

  /** writer.opaque pads the whole buffer to a multiple of four. */
  function AppendOpaque(buffer: bytes, v: bytes): (r: bytes) {
    var b := buffer + PutU32(|v|) + v;
    b + Zeros(Pad(|b|))
  }

  lemma AppendedTail(buffer: bytes, v: bytes)
    ensures var tail := PutU32(|v|) + (v + Zeros(Pad(|buffer| + 4 + |v|)));
            AppendOpaque(buffer, v) == buffer + tail && AppendOpaque(buffer, v)[|buffer|..] == tail
  {
    hide ToBE, Zeros, Pad;
    assert |buffer + PutU32(|v|) + v| == |buffer| + 4 + |v|;
  }

  lemma PadShift(n: nat, m: nat)
    ensures Pad(n + 4 + m) == Pad(m) <==> n % 4 == 0
  {
  }

  /** What the writer appends is what the reader takes off again exactly when
      the buffer was aligned before. */
  lemma OpaqueNeedsAlignment(buffer: bytes, v: bytes)
    requires Short(v)
    ensures AppendOpaque(buffer, v) == buffer + PutOpaque(v) <==> |buffer| % 4 == 0
    ensures GetOpaque(AppendOpaque(buffer, v)[|buffer|..]) == Some((v, [])) <==> |buffer| % 4 == 0
  {
    hide U32, ToBE, BE;
    var pad := Zeros(Pad(|buffer| + 4 + |v|));
    var tail := AppendOpaque(buffer, v)[|buffer|..];
    AppendedTail(buffer, v);
    PadShift(|buffer|, |v|);
    U32Back(|v|, v + pad);
    TakeBack(v, pad);
    if |buffer| % 4 == 0 {
      assert tail == PutOpaque(v);
      assert pad[Pad(|v|)..] == [];
    } else {
      assert |tail| != |PutOpaque(v)|;
    }
  }
}
