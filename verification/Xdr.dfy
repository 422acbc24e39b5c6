/** The XDR layout of incremental updates. */
module Xdr {
  import opened Bytes
  import opened Wire

  /** The most list elements a reader accepts. */
  const MAX_COUNT := 0x10_0000

  type int16 = x: int | -0x8000 <= x < 0x8000

  datatype Time = Time(seconds: uint32, useconds: uint32)
  datatype Data = Data(magic: int32, data: bytes)
  datatype Principal = Principal(realm: bytes, components: seq<Data>, nameType: int32)
  datatype Key = Key(version: int32, kvno: int32, enctypes: seq<int32>, contents: seq<bytes>)
  datatype TL = TL(typ: int16, data: bytes)

  /** One attribute; typ selects which of the other fields is transmitted. */
  datatype Value = Value(typ: int32, number: uint32, short: int16, flag: bool, principal: Principal,
                         keys: seq<Key>, history: seq<seq<Key>>, tlData: seq<TL>, text: bytes, extension: bytes)

  datatype Update = Update(name: bytes, serial: uint32, time: Time, entry: seq<Value>, deleted: bool,
                           commit: bool, seenBy: seq<bytes>, futures: bytes)

  datatype Arm = NumberArm | PrincipalArm | KeysArm | HistoryArm | TlArm | ShortArm | TextArm | FlagArm | ExtensionArm

  /** The union arm of an attribute type: AT_ATTRFLAGS to AT_FAIL_AUTH_COUNT are
      0 to 7, AT_PRINC is 8, and so on to AT_PW_HIST, 19. */
  function ArmOf(typ: int32): (a: Arm) {
    if 0 <= typ <= 7 || typ == 13 || typ == 15 || typ == 18 then NumberArm
    else if typ == 8 || typ == 12 then PrincipalArm
    else if typ == 9 then KeysArm
    else if typ == 10 then TlArm
    else if typ == 11 then ShortArm
    else if typ == 14 || typ == 16 then TextArm
    else if typ == 17 then FlagArm
    else if typ == 19 then HistoryArm
    else ExtensionArm
  }

  const NO_PRINCIPAL := Principal([], [], 0)

  function Blank(typ: int32): (v: Value) {
    Value(typ, 0, 0, false, NO_PRINCIPAL, [], [], [], [], [])
  }

  /** The value with every field cleared that its type does not transmit. */
  function Selected(v: Value): (r: Value) {
    var b := Blank(v.typ);
    match ArmOf(v.typ)
    case NumberArm => b.(number := v.number)
    case PrincipalArm => b.(principal := v.principal)
    case KeysArm => b.(keys := v.keys)
    case HistoryArm => b.(history := v.history)
    case TlArm => b.(tlData := v.tlData)
    case ShortArm => b.(short := v.short)
    case TextArm => b.(text := v.text)
    case FlagArm => b.(flag := v.flag)
    case ExtensionArm => b.(extension := v.extension)
  }

  // ----- writing, from a buffer whose length is a multiple of four

  function Zeros(n: nat): (b: bytes)
    ensures |b| == n
  {
    if n == 0 then [] else [0] + Zeros(n - 1)
  }

  function Pad(n: nat): (k: nat)
    ensures k < 4 && (n + k) % 4 == 0
  {
    if n % 4 == 0 then 0 else 4 - n % 4
  }

  /** Lengths and counts are truncated to 32 bits. */
  function PutU32(v: nat): (b: bytes) { ToBE(v, 4) }
  function PutI32(v: int32): (b: bytes) { ToBE(ToUnsigned(v), 4) }
  function PutI16(v: int16): (b: bytes) { PutI32(v) }
  function PutBool(v: bool): (b: bytes) { PutU32(if v then 1 else 0) }
  function PutOpaque(v: bytes): (b: bytes) { PutU32(|v|) + v + Zeros(Pad(|v|)) }
  function PutTime(t: Time): (b: bytes) { PutU32(t.seconds) + PutU32(t.useconds) }
  function PutCounted<T>(w: T -> bytes, xs: seq<T>): (b: bytes) { PutU32(|xs|) + WriteAll(w, xs) }
  function PutData(d: Data): (b: bytes) { PutI32(d.magic) + PutOpaque(d.data) }
  function PutTL(t: TL): (b: bytes) { PutI16(t.typ) + PutOpaque(t.data) }
  function PutKeys(ks: seq<Key>): (b: bytes) { PutCounted(PutKey, ks) }

  function PutPrincipal(p: Principal): (b: bytes) {
    PutOpaque(p.realm) + PutCounted(PutData, p.components) + PutI32(p.nameType)
  }

  function PutKey(k: Key): (b: bytes) {
    PutI32(k.version) + PutI32(k.kvno) + PutCounted(PutI32, k.enctypes) + PutCounted(PutOpaque, k.contents)
  }

  function PutArm(v: Value): (b: bytes) {
    match ArmOf(v.typ)
    case NumberArm => PutU32(v.number)
    case PrincipalArm => PutPrincipal(v.principal)
    case KeysArm => PutKeys(v.keys)
    case HistoryArm => PutCounted(PutKeys, v.history)
    case TlArm => PutCounted(PutTL, v.tlData)
    case ShortArm => PutI16(v.short)
    case TextArm => PutOpaque(v.text)
    case FlagArm => PutBool(v.flag)
    case ExtensionArm => PutOpaque(v.extension)
  }

  function PutValue(v: Value): (b: bytes) { PutI32(v.typ) + PutArm(v) }

  function PutUpdate(u: Update): (b: bytes) { PutChange(u) + PutMeta(u) }

  function PutChange(u: Update): (b: bytes) {
    PutOpaque(u.name) + PutU32(u.serial) + PutTime(u.time) + PutCounted(PutValue, u.entry)
  }

  function PutMeta(u: Update): (b: bytes) {
    PutBool(u.deleted) + PutBool(u.commit) + PutCounted(PutOpaque, u.seenBy) + PutOpaque(u.futures)
  }

  // ----- reading

  function GetI32(d: bytes): (r: Option<(int32, bytes)>) {
    var (v, d1) :- U32(d);
    Some((ToSigned(v), d1))
  }

  function GetI16(d: bytes): (r: Option<(int16, bytes)>) {
    var (v, d1) :- GetI32(d);
    if v < -32768 || v > 32767 then None else Some((v, d1))
  }

  function GetBool(d: bytes): (r: Option<(bool, bytes)>) {
    var (v, d1) :- U32(d);
    if v > 1 then None else Some((v == 1, d1))
  }

  /** The padding is skipped by item length and its bytes are not looked at. */
  function GetOpaque(d: bytes): (r: Option<(bytes, bytes)>) {
    var (n, d1) :- U32(d);
    var (v, d2) :- Take(d1, n);
    var (_, d3) :- Take(d2, Pad(n));
    Some((v, d3))
  }

  function GetTime(d: bytes): (r: Option<(Time, bytes)>) {
    var (s, d1) :- U32(d);
    var (u, d2) :- U32(d1);
    Some((Time(s, u), d2))
  }

  function GetCounted<T>(p: bytes -> Option<(T, bytes)>, d: bytes): (r: Option<(seq<T>, bytes)>) {
    var (n, d1) :- U32(d);
    if n > MAX_COUNT then None else ReadMany(p, n, d1)
  }

  function GetData(d: bytes): (r: Option<(Data, bytes)>) {
    var (m, d1) :- GetI32(d);
    var (x, d2) :- GetOpaque(d1);
    Some((Data(m, x), d2))
  }

  function GetTL(d: bytes): (r: Option<(TL, bytes)>) {
    var (t, d1) :- GetI16(d);
    var (x, d2) :- GetOpaque(d1);
    Some((TL(t, x), d2))
  }

  function GetPrincipal(d: bytes): (r: Option<(Principal, bytes)>) {
    var (realm, d1) :- GetOpaque(d);
    var (components, d2) :- GetCounted(GetData, d1);
    var (nameType, d3) :- GetI32(d2);
    Some((Principal(realm, components, nameType), d3))
  }

  function GetKey(d: bytes): (r: Option<(Key, bytes)>) {
    var (version, d1) :- GetI32(d);
    var (kvno, d2) :- GetI32(d1);
    var (enctypes, d3) :- GetCounted(GetI32, d2);
    var (contents, d4) :- GetCounted(GetOpaque, d3);
    Some((Key(version, kvno, enctypes, contents), d4))
  }

  function GetKeys(d: bytes): (r: Option<(seq<Key>, bytes)>) { GetCounted(GetKey, d) }

  function GetArm(typ: int32, d: bytes): (r: Option<(Value, bytes)>) {
    var b := Blank(typ);
    match ArmOf(typ)
    case NumberArm => var (x, d1) :- U32(d); Some((b.(number := x), d1))
    case PrincipalArm => var (x, d1) :- GetPrincipal(d); Some((b.(principal := x), d1))
    case KeysArm => var (x, d1) :- GetKeys(d); Some((b.(keys := x), d1))
    case HistoryArm => var (x, d1) :- GetCounted(GetKeys, d); Some((b.(history := x), d1))
    case TlArm => var (x, d1) :- GetCounted(GetTL, d); Some((b.(tlData := x), d1))
    case ShortArm => var (x, d1) :- GetI16(d); Some((b.(short := x), d1))
    case TextArm => var (x, d1) :- GetOpaque(d); Some((b.(text := x), d1))
    case FlagArm => var (x, d1) :- GetBool(d); Some((b.(flag := x), d1))
    case ExtensionArm => var (x, d1) :- GetOpaque(d); Some((b.(extension := x), d1))
  }

  function GetValue(d: bytes): (r: Option<(Value, bytes)>) {
    var (typ, d1) :- GetI32(d);
    GetArm(typ, d1)
  }

  function GetUpdate(d: bytes): (r: Option<(Update, bytes)>) {
    var (name, d1) :- GetOpaque(d);
    var (serial, d2) :- U32(d1);
    var (time, d3) :- GetTime(d2);
    var (entry, d4) :- GetCounted(GetValue, d3);
    var (deleted, d5) :- GetBool(d4);
    var (commit, d6) :- GetBool(d5);
    var (seenBy, d7) :- GetCounted(GetOpaque, d6);
    var (futures, d8) :- GetOpaque(d7);
    Some((Update(name, serial, time, entry, deleted, commit, seenBy, futures), d8))
  }

  /** UnmarshalUpdate. */
  function UnmarshalUpdate(d: bytes): (r: Option<Update>) {
    var (u, rest) :- GetUpdate(d);
    if rest == [] then Some(u) else None
  }
}
