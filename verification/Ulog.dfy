/** The update log: a file of a header and a ring of fixed-size blocks, and the
    unbounded log it stands for. */
module Ulog {
  import opened Bytes
  import opened Wire
  import opened Xdr
  import opened XdrTheorems

  const VERSION: nat := 1
  const STABLE: nat := 1
  const ENTRY_MAGIC: nat := 0x06662323
  const HEADER_MAGIC: nat := 0x06661212
  const BLOCK: nat := 2048
  const ENTRY_SIZE: nat := 24

  const NO_TIME := Time(0, 0)

  datatype Header = Header(version: uint16, numEntries: uint32, firstTime: Time, lastTime: Time,
                           firstSno: uint32, lastSno: uint32, state: uint16, block: uint16)

  datatype Last = Last(sno: uint32, time: Time)

  /** What readEntry finds: an entry, nothing to report, or a damaged block. */
  datatype Entry = Real(serial: nat, time: Time, commit: bool, update: Update) | Dummy | Damaged

  /** hdr is the copy in memory; disk and blocks are the file. */
  datatype Log = Log(hdr: Header, disk: bytes, blocks: seq<bytes>)

  // ----- bytes of the file

  function TimeBytes(t: Time): (b: bytes)
    ensures |b| == 8
  {
    ToLE(t.seconds, 4) + ToLE(t.useconds, 4)
  }

  /** syncHeader. */
  function HeaderBytes(h: Header): (b: bytes)
    ensures |b| == 40
  {
    ToLE(HEADER_MAGIC, 4) + ToLE(h.version, 2) + [0, 0] + ToLE(h.numEntries, 4) + TimeBytes(h.firstTime)
      + TimeBytes(h.lastTime) + ToLE(h.firstSno, 4) + ToLE(h.lastSno, 4) + ToLE(h.state, 2) + ToLE(h.block, 2)
  }

  function LE32(b: bytes): (n: uint32)
    requires |b| == 4
  {
    var b0: int, b1: int, b2: int, b3: int := b[0], b[1], b[2], b[3];
    b0 + 256 * (b1 + 256 * (b2 + 256 * b3))
  }

  function LE16(b: bytes): (n: uint16)
    requires |b| == 2
  {
    var b0: int, b1: int := b[0], b[1];
    b0 + 256 * b1
  }

  function TimeOf(b: bytes): (t: Time)
    requires |b| == 8
  {
    Time(LE32(b[..4]), LE32(b[4..]))
  }

  /** readHeader. */
  function ParseHeader(b: bytes): (r: Option<Header>)
    requires |b| == 40
  {
    if LE32(b[..4]) != HEADER_MAGIC then None
    else
      var h := Header(LE16(b[4..6]), LE32(b[8..12]), TimeOf(b[12..20]), TimeOf(b[20..28]),
                      LE32(b[28..32]), LE32(b[32..36]), LE16(b[36..38]), LE16(b[38..40]));
      if h.version != VERSION || h.numEntries == 0 || h.block < ENTRY_SIZE then None else Some(h)
  }

  lemma LE32Back(v: uint32)
    ensures LE32(ToLE(v, 4)) == v
  {
    assert ToLE(v, 4) == [v % 256] + ToLE(v / 256, 3);
    assert ToLE(v / 256, 3) == [v / 256 % 256] + ToLE(v / 256 / 256, 2);
    assert ToLE(v / 256 / 256, 2) == [v / 256 / 256 % 256] + ToLE(v / 256 / 256 / 256, 1);
  }

  lemma LE16Back(v: uint16)
    ensures LE16(ToLE(v, 2)) == v
  {
    assert ToLE(v, 2) == [v % 256] + ToLE(v / 256, 1);
  }

  lemma TimeBytesBack(t: Time)
    ensures TimeOf(TimeBytes(t)) == t
  {
    LE32Back(t.seconds);
    LE32Back(t.useconds);
    assert TimeBytes(t)[..4] == ToLE(t.seconds, 4) && TimeBytes(t)[4..] == ToLE(t.useconds, 4);
  }

  /** Reopening reads back the header that was written last, if it is one that
      readHeader accepts. */
  lemma HeaderBack(h: Header)
    ensures ParseHeader(HeaderBytes(h))
         == if h.version == VERSION && h.numEntries != 0 && h.block >= ENTRY_SIZE then Some(h) else None
  {
    var b := HeaderBytes(h);
    assert b[..4] == ToLE(HEADER_MAGIC, 4) && b[4..6] == ToLE(h.version, 2) && b[8..12] == ToLE(h.numEntries, 4);
    assert b[12..20] == TimeBytes(h.firstTime) && b[20..28] == TimeBytes(h.lastTime);
    assert b[28..32] == ToLE(h.firstSno, 4) && b[32..36] == ToLE(h.lastSno, 4);
    assert b[36..38] == ToLE(h.state, 2) && b[38..40] == ToLE(h.block, 2);
    LE32Back(HEADER_MAGIC);
    LE16Back(h.version);
    LE32Back(h.numEntries);
    TimeBytesBack(h.firstTime);
    TimeBytesBack(h.lastTime);
    LE32Back(h.firstSno);
    LE32Back(h.lastSno);
    LE16Back(h.state);
    LE16Back(h.block);
  }

  /** The block AddUpdate writes. */
  function EntryBlock(serial: uint32, u: Update): (b: bytes)
    requires |PutUpdate(u)| <= BLOCK - ENTRY_SIZE
    ensures |b| == BLOCK
  {
    EntryHead(serial, u.time, u.commit, |PutUpdate(u)|) + PutUpdate(u) + Zeros(BLOCK - ENTRY_SIZE - |PutUpdate(u)|)
  }

  function EntryHead(serial: uint32, time: Time, commit: bool, size: nat): (b: bytes)
    ensures |b| == ENTRY_SIZE
  {
    ToLE(ENTRY_MAGIC, 4) + ToLE(serial, 4) + TimeBytes(time) + ToLE(if commit then 1 else 0, 4) + ToLE(size, 4)
  }

  /** writeDummy. */
  function MarkerBlock(serial: uint32): (b: bytes)
    ensures |b| == BLOCK
  {
    ToLE(ENTRY_MAGIC, 4) + ToLE(serial, 4) + Zeros(BLOCK - 8)
  }

  /** readEntry, of the block that belongs to serial. */
  function ReadBlock(block: bytes, serial: nat): (e: Entry)
    requires |block| == BLOCK
  {
    if LE32(block[..4]) != ENTRY_MAGIC || LE32(block[4..8]) != serial then Dummy
    else
      var size := LE32(block[20..24]);
      if size > BLOCK - ENTRY_SIZE then Damaged
      else if size == 0 then Dummy
      else match UnmarshalUpdate(block[24..24 + size])
        case None => Damaged
        case Some(u) => Real(serial, u.time, LE32(block[16..20]) != 0, u)
  }

  /** The entry an update with this serial is stored as. */
  function Stored(u: Update): (e: Entry) { Real(u.serial, u.time, u.commit, Canonical(u)) }

  /** A written block answers for its own serial and for no other. */
  lemma EntryBlockBack(u: Update, serial: nat)
    requires |PutUpdate(u)| <= BLOCK - ENTRY_SIZE
    ensures ReadBlock(EntryBlock(u.serial, u), serial) == if serial == u.serial then Stored(u) else Dummy
  {
    hide PutUpdate, UnmarshalUpdate, LE32, ToLE, EntryBlock, Sized, OkUpdate, Selected, NormAll;
    var payload := PutUpdate(u);
    LE32Back(ENTRY_MAGIC);
    LE32Back(u.serial);
    LE32Back(|payload|);
    LE32Back(if u.commit then 1 else 0);
    EntryBlockLayout(u.serial, u);
    ModerateIsFine(u);
    UpdateRoundTrip(u);
  }

  lemma EntryHeadLayout(serial: uint32, time: Time, commit: bool, size: nat)
    ensures var b := EntryHead(serial, time, commit, size);
            && b[..4] == ToLE(ENTRY_MAGIC, 4) && b[4..8] == ToLE(serial, 4)
            && b[16..20] == ToLE(if commit then 1 else 0, 4) && b[20..24] == ToLE(size, 4)
  {
    hide ToLE, TimeBytes;
    var b := EntryHead(serial, time, commit, size);
    var flag := ToLE(if commit then 1 else 0, 4);
    assert b[..4] == ToLE(ENTRY_MAGIC, 4) && b[4..8] == ToLE(serial, 4);
    assert b[16..20] == flag;
    assert b[20..24] == b[20..] == ToLE(size, 4);
  }

  lemma UpdateNotEmpty(u: Update)
    ensures |PutUpdate(u)| >= 4
  {
    assert |PutOpaque(u.name)| >= 4;
  }

  lemma EntryBlockLayout(serial: uint32, u: Update)
    requires |PutUpdate(u)| <= BLOCK - ENTRY_SIZE
    ensures var b, payload := EntryBlock(serial, u), PutUpdate(u);
            && b[..4] == ToLE(ENTRY_MAGIC, 4) && b[4..8] == ToLE(serial, 4)
            && b[16..20] == ToLE(if u.commit then 1 else 0, 4) && b[20..24] == ToLE(|payload|, 4)
            && b[24..24 + |payload|] == payload && |payload| >= 4
  {
    hide ToLE, EntryHead, Zeros, PutUpdate;
    UpdateNotEmpty(u);
    EntryHeadLayout(serial, u.time, u.commit, |PutUpdate(u)|);
    var head, b := EntryHead(serial, u.time, u.commit, |PutUpdate(u)|), EntryBlock(serial, u);
    assert b[..4] == head[..4] && b[4..8] == head[4..8] && b[16..20] == head[16..20] && b[20..24] == head[20..24];
  }

  lemma {:induction false} ZerosAre(n: nat, i: nat)
    requires i < n
    ensures Zeros(n)[i] == 0
  {
    if i > 0 { ZerosAre(n - 1, i - 1); }
  }

  /** A marker is never an entry, whatever serial is asked for. */
  lemma MarkerBlockBack(marker: uint32, serial: nat)
    ensures ReadBlock(MarkerBlock(marker), serial) == Dummy
  {
    var b := MarkerBlock(marker);
    forall i | 20 <= i < 24
      ensures b[i] == 0
    {
      ZerosAre(BLOCK - 8, i - 8);
    }
    assert b[20..24] == [0, 0, 0, 0];
  }

  // ----- operations

  /** The slot of a serial; the subtraction is on 32 bits. */
  function Slot(serial: uint32, capacity: nat): (i: nat)
    requires capacity >= 1
    ensures i < capacity
  {
    (if serial == 0 then TWO32 - 1 else serial - 1) % capacity
  }

  function ReadEntry(l: Log, serial: uint32): (e: Entry)
    requires WellSized(l)
  {
    ReadBlock(l.blocks[Slot(serial, |l.blocks|)], serial)
  }

  predicate WellSized(l: Log) {
    1 <= |l.blocks| < TWO32 && |l.disk| == 40 && forall i | 0 <= i < |l.blocks| :: |l.blocks[i]| == BLOCK
  }

  function Synced(l: Log): (r: Log) { l.(disk := HeaderBytes(l.hdr)) }

  function FreshHeader(sno: uint32, time: Time): (h: Header) {
    Header(VERSION, 1, time, time, sno, sno, STABLE, BLOCK)
  }

  /** The serial AddUpdate gives an update: its own, or the next one for zero. */
  function SerialFor(l: Log, u: Update): (s: uint32) { if u.serial == 0 then (l.hdr.lastSno + 1) % TWO32 else u.serial }

  function Numbered(l: Log, u: Update): (r: Update) { u.(serial := SerialFor(l, u)) }

  predicate Fits(l: Log, u: Update) { |PutUpdate(Numbered(l, u))| <= BLOCK - ENTRY_SIZE }

  /** AddUpdate up to the block write. */
  function Placed(l: Log, u: Update): (r: Log)
    requires WellSized(l) && Fits(l, u)
    ensures WellSized(r) && |r.blocks| == |l.blocks| && r.hdr == l.hdr && r.disk == l.disk
  {
    var s := SerialFor(l, u);
    l.(blocks := l.blocks[Slot(s, |l.blocks|) := EntryBlock(s, Numbered(l, u))])
  }

  /** The header AddUpdate leaves after the block is in place; None when the
      block that becomes the oldest is damaged. */
  function Advanced(l: Log, time: Time, s: uint32): (r: Option<Header>)
    requires WellSized(l)
  {
    var h, capacity := l.hdr, |l.blocks|;
    if h.lastSno != 0 && s < h.lastSno then Some(h)
    else
      var existing := h.numEntries > 0 && h.firstSno <= s <= h.lastSno;
      var count := if !existing && h.numEntries == 0 then 1
                   else if !existing && h.numEntries < capacity then h.numEntries + 1
                   else h.numEntries;
      var next := h.(lastSno := s, lastTime := time, numEntries := count);
      if h.firstSno == 0 then Some(next.(firstSno := s, firstTime := time))
      else if (s - h.firstSno) % TWO32 >= capacity then
        var first := (s - capacity + 1) % TWO32;
        if ReadEntry(l, first).Damaged? then None
        else Some(next.(firstSno := first, firstTime := TimeAt(l, first)))
      else Some(next)
  }

  /** The time readEntry reports: the update's, a marker's own time field, or
      the zero time for a block of another serial. */
  function TimeAt(l: Log, serial: uint32): (t: Time)
    requires WellSized(l)
  {
    var block := l.blocks[Slot(serial, |l.blocks|)];
    var e := ReadEntry(l, serial);
    if e.Real? then e.time
    else if LE32(block[..4]) == ENTRY_MAGIC && LE32(block[4..8]) == serial then TimeOf(block[8..16])
    else NO_TIME
  }

  /** AddUpdate; None when it reports an error. */
  function AddUpdate(l: Log, u: Update): (r: Option<Log>)
    requires WellSized(l)
    ensures r.Some? ==> WellSized(r.value) && |r.value.blocks| == |l.blocks|
  {
    if !Fits(l, u) then None
    else
      var p := Placed(l, u);
      var hdr :- Advanced(p, u.time, SerialFor(l, u));
      Some(Synced(p.(hdr := hdr)))
  }

  /** What an AddUpdate that reports an error leaves: nothing has changed if the
      update has no room; otherwise the block is written, and the header in memory
      has moved its first serial. */
  function AddFailed(l: Log, u: Update): (r: Log)
    requires WellSized(l)
    ensures WellSized(r) && |r.blocks| == |l.blocks|
  {
    if !Fits(l, u) then l
    else Placed(l, u).(hdr := l.hdr.(firstSno := (SerialFor(l, u) - |l.blocks| + 1) % TWO32))
  }

  /** SetCursor up to the marker write, and Reset with a zero cursor. */
  function Marked(l: Log, last: Last): (r: Log)
    requires WellSized(l)
    ensures WellSized(r) && |r.blocks| == |l.blocks|
  {
    var h := if last.sno == 0 then FreshHeader(1, NO_TIME) else FreshHeader(last.sno, last.time);
    Log(h, l.disk, l.blocks[Slot(h.lastSno, |l.blocks|) := MarkerBlock(h.lastSno)])
  }

  function SetCursor(l: Log, last: Last): (r: Log)
    requires WellSized(l)
    ensures WellSized(r) && |r.blocks| == |l.blocks|
  {
    Synced(Marked(l, last))
  }

  /** Create: a file of zero blocks with the marker for serial one. */
  function Create(capacity: nat): (l: Log)
    requires 1 <= capacity <= 0x10_0000
    ensures WellSized(l) && |l.blocks| == capacity
  {
    var h := FreshHeader(1, NO_TIME);
    Log(h, HeaderBytes(h), seq(capacity, _ => Zeros(BLOCK))[0 := MarkerBlock(1)])
  }

  /** Opening the file again: the header in memory is lost. */
  function Reopen(l: Log): (r: Option<Log>)
    requires WellSized(l)
    ensures r.Some? ==> WellSized(r.value) && |r.value.blocks| == |l.blocks|
  {
    var h :- ParseHeader(l.disk);
    if h.block != BLOCK then None else Some(l.(hdr := h))
  }

  /** The entries GetEntries collects from one serial on. */
  function Collect(l: Log, serial: nat): (r: Option<seq<Entry>>)
    requires WellSized(l)
    decreases l.hdr.lastSno + 1 - serial
  {
    if serial > l.hdr.lastSno then Some([])
    else
      var e := ReadEntry(l, serial);
      if e.Damaged? then None
      else
        var rest :- Collect(l, serial + 1);
        Some(if e.Dummy? then rest else [e] + rest)
  }

  predicate IsDamaged(l: Log, t: uint32)
    requires WellSized(l)
  {
    ReadEntry(l, t).Damaged?
  }

  ghost predicate SomeDamaged(l: Log)
    requires WellSized(l)
  {
    exists t: uint32 :: IsDamaged(l, t)
  }

  /** When the loop of GetEntries ends. Its counter has 32 bits, so it does not
      get beyond the greatest serial; then only a damaged block ends it. */
  ghost predicate Ends(l: Log)
    requires WellSized(l)
  {
    l.hdr.lastSno < TWO32 - 1 || SomeDamaged(l)
  }

  /** Where it starts. The serial after the greatest one is zero. */
  function StartAt(l: Log, after: uint32): (s: uint32) {
    if after >= l.hdr.firstSno then (after + 1) % TWO32 else l.hdr.firstSno
  }

  /** GetEntries; None when it reports an error, which is how it ends, if it does,
      with the greatest serial as the last one. */
  function GetEntries(l: Log, after: uint32): (r: Option<seq<Entry>>)
    requires WellSized(l)
  {
    if l.hdr.lastSno == 0 then Some([])
    else if l.hdr.lastSno == TWO32 - 1 then None
    else Collect(l, StartAt(l, after))
  }
}
