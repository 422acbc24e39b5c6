/** The update log as the object that owns the file: a header in memory, the
    header on disk and the blocks, changed step by step. */
module UlogFile {
  import opened Bytes
  import opened Xdr
  import opened Ulog

  const DEFAULT_ENTRIES: nat := 1000
  const MAX_ENTRIES: nat := 0x10_0000

  class UpdateLog {
    var hdr: Header
    var disk: bytes
    const blocks: array<bytes>

    ghost function Model(): (l: Log)
      reads this, blocks
    {
      Log(hdr, disk, blocks[..])
    }

    ghost predicate Valid()
      reads this, blocks
    {
      WellSized(Model()) && hdr.block == BLOCK
    }

    constructor (num: nat)
      requires 1 <= num <= MAX_ENTRIES
      ensures Valid() && fresh(blocks)
      ensures Model() == Ulog.Create(num)
    {
      hdr := FreshHeader(1, NO_TIME);
      disk := HeaderBytes(FreshHeader(1, NO_TIME));
      blocks := new bytes[num](_ => Zeros(BLOCK));
      new;
      assert blocks[..] == seq(num, _ => Zeros(BLOCK));
      blocks[0] := MarkerBlock(1);
      assert blocks[..] == seq(num, _ => Zeros(BLOCK))[0 := MarkerBlock(1)];
    }

    /** Reopening: the header is read back from the file. */
    method Open() returns (ok: bool)
      requires Valid()
      modifies this`hdr
      ensures ok == Reopen(old(Model())).Some?
      ensures if ok then Valid() && Model() == Reopen(old(Model())).value else unchanged(this)
    {
      var h := ParseHeader(disk);
      ok := h.Some? && h.value.block == BLOCK;
      if ok { hdr := h.value; }
    }

    method ReadAt(serial: uint32) returns (e: Entry, time: Time)
      requires Valid()
      ensures e == ReadEntry(Model(), serial)
      ensures time == TimeAt(Model(), serial)
    {
      hide LE32, TimeOf, UnmarshalUpdate, Slot;
      var block := blocks[Slot(serial, blocks.Length)];
      if LE32(block[..4]) != ENTRY_MAGIC { return Dummy, NO_TIME; }
      if LE32(block[4..8]) != serial { return Dummy, NO_TIME; }
      var size := LE32(block[20..24]);
      time := TimeOf(block[8..16]);
      if size > BLOCK - ENTRY_SIZE { return Damaged, time; }
      if size == 0 { return Dummy, time; }
      var u := UnmarshalUpdate(block[24..24 + size]);
      if u.None? { return Damaged, time; }
      return Real(serial, u.value.time, LE32(block[16..20]) != 0, u.value), u.value.time;
    }

    method AddUpdate(update: Update) returns (ok: bool)
      requires Valid()
      modifies this, blocks
      ensures ok == Ulog.AddUpdate(old(Model()), update).Some?
      ensures Valid() && Model() == if ok then Ulog.AddUpdate(old(Model()), update).value else AddFailed(old(Model()), update)
    {
      hide PutUpdate, HeaderBytes, EntryBlock, ReadEntry, TimeAt;
      var u := update;
      if u.serial == 0 { u := u.(serial := (hdr.lastSno + 1) % TWO32); }
      assert u == Numbered(Model(), update);
      var payload := PutUpdate(u);
      if |payload| > hdr.block - ENTRY_SIZE { return false; }
      blocks[Slot(u.serial, blocks.Length)] := EntryBlock(u.serial, u);
      ghost var placed := Placed(old(Model()), update);
      assert Model() == placed;
      if hdr.lastSno == 0 || u.serial >= hdr.lastSno {
        ok := Advance(u.serial, u.time);
        if !ok { return; }
      }
      disk := HeaderBytes(hdr);
      return true;
    }

    /** The header part of AddUpdate for a serial not below the last one. */
    method Advance(serial: uint32, time: Time) returns (ok: bool)
      requires Valid() && (hdr.lastSno == 0 || serial >= hdr.lastSno)
      modifies this`hdr
      ensures ok == Advanced(old(Model()), time, serial).Some?
      ensures hdr == if ok then Advanced(old(Model()), time, serial).value
                     else old(hdr).(firstSno := (serial - blocks.Length + 1) % TWO32)
    {
      hide ReadEntry, TimeAt;
      var existing := hdr.numEntries > 0 && hdr.firstSno <= serial <= hdr.lastSno;
      if hdr.firstSno == 0 {
        hdr := hdr.(firstSno := serial, firstTime := time);
      } else if (serial - hdr.firstSno) % TWO32 >= blocks.Length {
        hdr := hdr.(firstSno := (serial - blocks.Length + 1) % TWO32);
        var e, t := ReadAt(hdr.firstSno);
        ReadsBlocksOnly(Model(), old(Model()), hdr.firstSno);
        if e.Damaged? { return false; }
        hdr := hdr.(firstTime := t);
      }
      hdr := hdr.(lastSno := serial, lastTime := time);
      if !existing && hdr.numEntries == 0 {
        hdr := hdr.(numEntries := 1);
      } else if !existing && hdr.numEntries < blocks.Length {
        hdr := hdr.(numEntries := hdr.numEntries + 1);
      }
      return true;
    }

    /** The counter of the loop has 32 bits; it is called where it ends. */
    method GetEntries(after: uint32) returns (r: Option<seq<Entry>>)
      requires Valid() && Ends(Model())
      ensures r == Ulog.GetEntries(Model(), after)
    {
      hide ReadEntry, Collect, Collecting, SomeDamaged;
      if hdr.lastSno == 0 { return Some([]); }
      var first: uint32 := hdr.firstSno;
      if after >= first { first := (after + 1) % TWO32; }
      var out: seq<Entry> := [];
      var serial: uint32 := first;
      ghost var t: uint32 := 0;
      if hdr.lastSno == TWO32 - 1 { t := DamagedOne(Model()); }
      CollectStart(Model(), first);
      while serial <= hdr.lastSno
        invariant hdr.lastSno < TWO32 - 1 ==> Collecting(Model(), first, out, serial)
        invariant hdr.lastSno == TWO32 - 1 ==> IsDamaged(Model(), t)
        decreases if hdr.lastSno == TWO32 - 1 then (t - serial) % TWO32 else hdr.lastSno + 1 - serial
      {
        CollectStep(Model(), first, out, serial);
        Closer(serial, t);
        var e, _ := ReadAt(serial);
        if e.Damaged? { return None; }
        if !e.Dummy? { out := out + [e]; }
        serial := (serial + 1) % TWO32;
      }
      CollectEnd(Model(), first, out, serial);
      return Some(out);
    }

    method SetCursor(last: Last)
      requires Valid()
      modifies this, blocks
      ensures Valid() && Model() == Ulog.SetCursor(old(Model()), last)
    {
      hide HeaderBytes, MarkerBlock;
      hdr := FreshHeader(last.sno, last.time);
      if last.sno == 0 {
        hdr := hdr.(firstSno := 1, lastSno := 1, firstTime := NO_TIME, lastTime := NO_TIME);
      }
      blocks[Slot(hdr.lastSno, blocks.Length)] := MarkerBlock(hdr.lastSno);
      disk := HeaderBytes(hdr);
    }

    method Reset()
      requires Valid()
      modifies this, blocks
      ensures Valid() && Model() == Ulog.SetCursor(old(Model()), Last(0, NO_TIME))
    {
      hide HeaderBytes, MarkerBlock;
      hdr := FreshHeader(1, NO_TIME);
      blocks[Slot(1, blocks.Length)] := MarkerBlock(1);
      disk := HeaderBytes(hdr);
    }
  }

  lemma DamagedOne(l: Log) returns (t: uint32)
    requires WellSized(l) && SomeDamaged(l)
    ensures IsDamaged(l, t)
  {
    t :| IsDamaged(l, t);
  }

  /** What is collected in all, once this much is. */
  predicate Collecting(l: Log, first: nat, out: seq<Entry>, serial: nat)
    requires WellSized(l)
  {
    Collect(l, first) == var rest := Collect(l, serial);
                         if rest.None? then None else Some(out + rest.value)
  }

  lemma CollectStart(l: Log, first: nat)
    requires WellSized(l)
    ensures Collecting(l, first, [], first)
  {
    hide Collect;
    assert Collect(l, first).Some? ==> [] + Collect(l, first).value == Collect(l, first).value;
  }

  lemma CollectStep(l: Log, first: nat, out: seq<Entry>, serial: uint32)
    requires WellSized(l) && serial <= l.hdr.lastSno
    ensures Collecting(l, first, out, serial) ==>
              var e := ReadEntry(l, serial);
              if e.Damaged? then Collect(l, first).None?
              else Collecting(l, first, if e.Dummy? then out else out + [e], serial + 1)
  {
    hide ReadEntry;
    var e, rest := ReadEntry(l, serial), Collect(l, serial + 1);
    assert rest.Some? && !e.Dummy? ==> out + ([e] + rest.value) == out + [e] + rest.value;
  }

  lemma CollectEnd(l: Log, first: nat, out: seq<Entry>, serial: nat)
    requires WellSized(l) && serial > l.hdr.lastSno
    ensures Collecting(l, first, out, serial) ==> Collect(l, first) == Some(out)
  {
    assert out + [] == out;
  }

  /** A 32-bit counter comes one closer to what it has not reached. */
  lemma Closer(serial: uint32, t: uint32)
    ensures serial != t ==> 0 <= (t - (serial + 1) % TWO32) % TWO32 < (t - serial) % TWO32
    ensures serial < TWO32 - 1 ==> (serial + 1) % TWO32 == serial + 1
  {
    if serial < t {
      assert (t - serial) % TWO32 == t - serial && (t - (serial + 1)) % TWO32 == t - serial - 1;
    } else if t < serial {
      assert (t - serial) % TWO32 == t - serial + TWO32;
    }
  }

  lemma ReadsBlocksOnly(l: Log, m: Log, serial: uint32)
    requires WellSized(l) && WellSized(m) && l.blocks == m.blocks
    ensures ReadEntry(l, serial) == ReadEntry(m, serial) && TimeAt(l, serial) == TimeAt(m, serial)
  {
    hide ReadBlock;
  }

  /** The log on a new file, or null for a count that is out of range. */
  method CreateLog(entries: uint32) returns (l: UpdateLog?)
    ensures l == null <==> entries > MAX_ENTRIES
    ensures l != null ==> fresh(l) && fresh(l.blocks) && l.Valid()
    ensures l != null ==> l.Model() == Ulog.Create(if entries == 0 then DEFAULT_ENTRIES else entries)
  {
    var num := DEFAULT_ENTRIES;
    if entries != 0 { num := entries; }
    if num == 0 || num > MAX_ENTRIES { return null; }
    l := new UpdateLog(num);
  }
}
