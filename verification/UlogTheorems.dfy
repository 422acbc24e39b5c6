/** The ring refines an unbounded log in every run of adds, resets, crashes
    between the block write and the header write, and reopenings. */
module UlogTheorems {
  import opened Arithmetic
  import opened Bytes
  import opened Xdr
  import opened XdrTheorems
  import opened Ulog

  /** The unbounded log since its last reset: everything added at a serial from
      base to last, and how many serials were skipped on the way. */
  datatype History = History(base: nat, last: nat, entries: map<nat, Update>, missing: nat)

  /** The oldest serial a ring of this capacity still holds. */
  function First(a: History, capacity: nat): (s: int) {
    if a.last - a.base >= capacity then a.last - capacity + 1 else a.base
  }

  /** The entries of the unbounded log from one serial on, in order. */
  function EntriesFrom(a: History, from: nat): (r: seq<Entry>)
    decreases a.last + 1 - from
  {
    if from > a.last then []
    else (if from in a.entries then [Stored(a.entries[from])] else []) + EntriesFrom(a, from + 1)
  }

  function Max(x: int, y: int): (r: int) { if x < y then y else x }

  // ----- operations and their effect on the unbounded log

  /** The crashes are after the block write and before the header write; the
      file is then opened again. */
  datatype Op = Add(update: Update) | AddCrash(update: Update) | Cursor(cursor: Last) | CursorCrash(cursor: Last) | Reopened

  function Step(l: Log, op: Op): (r: Option<Log>)
    requires WellSized(l)
    ensures r.Some? ==> WellSized(r.value)
  {
    match op
    case Add(u) => if Fits(l, u) then AddUpdate(l, u) else Some(l)
    case AddCrash(u) => if Fits(l, u) then Reopen(Placed(l, u)) else Some(l)
    case Cursor(c) => Some(SetCursor(l, c))
    case CursorCrash(c) => Reopen(Marked(l, c))
    case Reopened => Reopen(l)
  }

  function Target(a: History, u: Update): (s: nat) { if u.serial == 0 then a.last + 1 else u.serial }

  function CursorSerial(c: Last): (s: uint32) { if c.sno == 0 then 1 else c.sno }

  /** An update that leaves serials out. */
  predicate Skips(a: History, u: Update) { a.last + 1 < u.serial < TWO32 - 1 }

  /** Updates go to a serial the ring holds, to the next one, or beyond it if no
      block of a skipped serial answers for it, below the wrap-around of the
      32-bit serial. */
  ghost predicate Permitted(l: Log, a: History, op: Op)
    requires WellSized(l)
  {
    || Allowed(a, |l.blocks|, op)
    || (op.Add? && Skips(a, op.update) && QuietGap(l, a, op.update))
    || (op.AddCrash? && Skips(a, op.update))
  }

  predicate Allowed(a: History, capacity: nat, op: Op) {
    match op
    case Add(u) => First(a, capacity) <= Target(a, u) <= a.last + 1 && Target(a, u) < TWO32 - 1
    case AddCrash(u) => First(a, capacity) <= Target(a, u) <= a.last + 1 && Target(a, u) < TWO32 - 1
    case Cursor(c) => c.sno < TWO32 - 1
    case CursorCrash(c) => c.sno < TWO32 - 1
    case Reopened => true
  }

  predicate Accepted(a: History, u: Update)
    requires Target(a, u) < TWO32
  {
    |PutUpdate(u.(serial := Target(a, u)))| <= BLOCK - ENTRY_SIZE
  }

  function Recorded(a: History, u: Update): (r: History)
    requires Target(a, u) < TWO32
  {
    var s := Target(a, u);
    a.(last := Max(a.last, s), entries := a.entries[s := u.(serial := s)], missing := a.missing + Max(s - a.last - 1, 0))
  }

  /** A serial of the window whose block another serial takes. */
  predicate Shares(a: History, s: nat, other: uint32, capacity: nat)
    requires capacity >= 1
  {
    First(a, capacity) <= s < TWO32 && Slot(s, capacity) == Slot(other, capacity)
  }

  function HistoryStep(a: History, capacity: nat, op: Op): (r: History)
    requires capacity >= 1 && (Allowed(a, capacity, op) || ((op.Add? || op.AddCrash?) && Skips(a, op.update)))
  {
    match op
    case Add(u) => if Accepted(a, u) then Recorded(a, u) else a
    case AddCrash(u) =>
      if !Accepted(a, u) then a
      else if Target(a, u) <= a.last then Recorded(a, u)
      else if Target(a, u) == a.last + 1 then a.(entries := map s | s in a.entries && s != a.last + 1 - capacity :: a.entries[s])
      else a.(entries := map s | s in a.entries && !Shares(a, s, Target(a, u), capacity) :: a.entries[s])
    case Cursor(c) => History(CursorSerial(c), CursorSerial(c), map[], 0)
    case CursorCrash(c) =>
      a.(entries := map s | s in a.entries && (s >= TWO32 || Slot(s, capacity) != Slot(CursorSerial(c), capacity)) :: a.entries[s])
    case Reopened => a
  }

  // ----- the invariant

  /** How many serials were used, as far as a ring of this capacity counts. */
  function Counted(a: History, capacity: nat): (n: int) {
    var used := a.last - a.base + 1 - a.missing;
    if used < capacity then used else capacity
  }

  /** The header describes the window, and counts the serials that were used. */
  predicate GoodHeader(h: Header, a: History, capacity: nat) {
    && h.version == VERSION && h.block == BLOCK
    && h.lastSno == a.last && h.firstSno == First(a, capacity)
    && a.missing <= a.last - a.base && a.last - First(a, capacity) + 1 <= capacity
    && h.numEntries == Counted(a, capacity)
  }

  ghost predicate Holds(l: Log, a: History)
    requires WellSized(l) && 1 <= a.base <= a.last < TWO32 - 1
  {
    forall s: uint32 | First(a, |l.blocks|) <= s <= a.last ::
      ReadEntry(l, s) == if s in a.entries then Stored(a.entries[s]) else Dummy
  }

  /** The window of the header reads as that of the unbounded log. */
  ghost predicate Readable(l: Log, a: History) {
    && WellSized(l) && 1 <= a.base <= a.last < TWO32 - 1
    && l.hdr.lastSno == a.last && l.hdr.firstSno == First(a, |l.blocks|)
    && (forall s | s in a.entries :: a.base <= s <= a.last && a.entries[s].serial == s)
    && Holds(l, a)
  }

  /** The file stands for the unbounded log. */
  ghost predicate Inv(l: Log, a: History) {
    && WellSized(l) && 1 <= a.base <= a.last < TWO32 - 1
    && GoodHeader(l.hdr, a, |l.blocks|) && l.disk == HeaderBytes(l.hdr)
    && (forall s | s in a.entries :: a.base <= s <= a.last && a.entries[s].serial == s)
    && Holds(l, a)
  }

  lemma InvReadable(l: Log, a: History)
    requires Inv(l, a)
    ensures Readable(l, a)
  {
    hide Holds, HeaderBytes;
  }

  /** Serials of one window have different slots. */
  lemma SlotsApart(s: uint32, t: uint32, capacity: nat)
    requires 1 <= s < t && t - s < capacity
    ensures Slot(s, capacity) != Slot(t, capacity)
  {
    var x, y := s - 1, t - 1;
    if x % capacity == y % capacity {
      assert x == capacity * (x / capacity) + x % capacity;
      assert y == capacity * (y / capacity) + y % capacity;
      if x / capacity < y / capacity {
        MulGap(capacity, x / capacity, y / capacity);
      } else if y / capacity < x / capacity {
        MulGap(capacity, y / capacity, x / capacity);
      }
      assert false;
    }
  }

  /** Writing a block for s does not change what is read for other serials of
      its window. */
  lemma OtherSerials(l: Log, s: uint32, block: bytes, t: uint32)
    requires WellSized(l) && |block| == BLOCK
    requires 1 <= s && 1 <= t && s != t && -(|l.blocks| as int) < s - t < |l.blocks|
    ensures ReadEntry(l.(blocks := l.blocks[Slot(s, |l.blocks|) := block]), t) == ReadEntry(l, t)
  {
    hide ReadBlock, Slot;
    if s < t { SlotsApart(s, t, |l.blocks|); } else { SlotsApart(t, s, |l.blocks|); }
  }

  lemma CreateInv(capacity: nat)
    requires 1 <= capacity <= 0x10_0000
    ensures Inv(Create(capacity), History(1, 1, map[], 0))
  {
    hide ReadBlock, MarkerBlock, HeaderBytes, Zeros;
    MarkerBlockBack(1, 1);
  }

  /** The serial and the room test are those of the unbounded log. */
  lemma SameTarget(l: Log, a: History, u: Update)
    requires Inv(l, a) && Target(a, u) < TWO32
    ensures SerialFor(l, u) == Target(a, u) && Numbered(l, u) == u.(serial := Target(a, u))
    ensures Fits(l, u) <==> Accepted(a, u)
  {
    hide Holds, PutUpdate, HeaderBytes;
  }

  /** After the block write the new window reads as the new log. */
  lemma PlacedHolds(l: Log, a: History, u: Update, t: uint32)
    requires Inv(l, a) && Allowed(a, |l.blocks|, Add(u)) && Fits(l, u)
    requires First(a, |l.blocks|) <= t <= Max(a.last, Target(a, u)) && t > Max(a.last, Target(a, u)) - |l.blocks|
    ensures ReadEntry(Placed(l, u), t) == if t in Recorded(a, u).entries then Stored(Recorded(a, u).entries[t]) else Dummy
  {
    hide PutUpdate, HeaderBytes, ReadBlock, EntryBlock, Slot, Stored;
    SameTarget(l, a, u);
    var s := Target(a, u);
    if t == s {
      EntryBlockBack(u.(serial := s), s);
    } else {
      OtherSerials(l, s, EntryBlock(s, Numbered(l, u)), t);
    }
  }

  lemma AddInv(l: Log, a: History, u: Update)
    requires Inv(l, a) && Allowed(a, |l.blocks|, Add(u)) && Fits(l, u)
    ensures AddUpdate(l, u).Some? && Inv(AddUpdate(l, u).value, Recorded(a, u))
  {
    hide PutUpdate, HeaderBytes, Fits, Stored, Slot, ReadBlock, TimeAt, EntryBlock;
    SameTarget(l, a, u);
    var s, p, b, capacity := Target(a, u), Placed(l, u), Recorded(a, u), |l.blocks|;
    forall t: uint32 | First(b, capacity) <= t <= b.last
      ensures ReadEntry(p, t) == if t in b.entries then Stored(b.entries[t]) else Dummy
    {
      PlacedHolds(l, a, u, t);
    }
    NewHeader(l, a, u);
  }

  /** The header AddUpdate writes describes the new window. */
  lemma NewHeader(l: Log, a: History, u: Update)
    requires Inv(l, a) && Allowed(a, |l.blocks|, Add(u)) && Fits(l, u)
    ensures SerialFor(l, u) == Target(a, u)
    ensures Advanced(Placed(l, u), u.time, Target(a, u)).Some?
    ensures GoodHeader(Advanced(Placed(l, u), u.time, Target(a, u)).value, Recorded(a, u), |l.blocks|)
  {
    hide PutUpdate, HeaderBytes, Fits, Slot, ReadEntry, TimeAt, EntryBlock, Holds, Placed;
    SameTarget(l, a, u);
    var s, capacity := Target(a, u), |l.blocks|;
    assert Placed(l, u).hdr == l.hdr;
    if s == a.last + 1 && s - l.hdr.firstSno >= capacity {
      PlacedHolds(l, a, u, s - capacity + 1);
      assert (s - capacity + 1) % TWO32 == s - capacity + 1;
    }
  }

  /** Opening the file again restores the header written last. */
  lemma ReopenRestores(l: Log, a: History, p: Log)
    requires Inv(l, a) && WellSized(p) && p.disk == l.disk
    ensures Reopen(p) == Some(p.(hdr := l.hdr))
  {
    hide HeaderBytes, ParseHeader, Holds;
    HeaderBack(l.hdr);
  }

  /** A crash before the header write leaves the previous window without, at
      most, its oldest entry. */
  lemma AddCrashInv(l: Log, a: History, u: Update)
    requires Inv(l, a) && (Allowed(a, |l.blocks|, AddCrash(u)) || Skips(a, u)) && Fits(l, u)
    ensures Reopen(Placed(l, u)) == Some(Placed(l, u))
    ensures Inv(Placed(l, u), HistoryStep(a, |l.blocks|, AddCrash(u)))
  {
    hide PutUpdate, HeaderBytes, Reopen, Fits, ReadEntry, Placed, Stored, Accepted, GoodHeader;
    SameTarget(l, a, u);
    ReopenRestores(l, a, Placed(l, u));
    var b := HistoryStep(a, |l.blocks|, AddCrash(u));
    SameWindow(l.hdr, a, b, |l.blocks|);
    forall t: uint32 | First(b, |l.blocks|) <= t <= b.last
      ensures ReadEntry(Placed(l, u), t) == if t in b.entries then Stored(b.entries[t]) else Dummy
    {
      CrashHolds(l, a, u, t);
    }
  }

  lemma SameWindow(h: Header, a: History, b: History, capacity: nat)
    requires b.base == a.base && b.last == a.last && b.missing == a.missing
    ensures First(b, capacity) == First(a, capacity) && (GoodHeader(h, a, capacity) <==> GoodHeader(h, b, capacity))
  {
  }

  lemma CrashHolds(l: Log, a: History, u: Update, t: uint32)
    requires Inv(l, a) && (Allowed(a, |l.blocks|, AddCrash(u)) || Skips(a, u)) && Fits(l, u)
    requires First(a, |l.blocks|) <= t <= a.last
    ensures var b := HistoryStep(a, |l.blocks|, AddCrash(u));
            ReadEntry(Placed(l, u), t) == if t in b.entries then Stored(b.entries[t]) else Dummy
  {
    hide PutUpdate, HeaderBytes, ReadBlock, EntryBlock, Slot, Stored;
    SameTarget(l, a, u);
    var s := Target(a, u);
    if s <= a.last {
      PlacedHolds(l, a, u, t);
    } else if s > a.last + 1 {
      SkippedCrash(l, a, u, t);
    } else if t == s - |l.blocks| {
      Overwritten(l, a, u);
    } else {
      OtherSerials(l, s, EntryBlock(s, Numbered(l, u)), t);
    }
  }

  /** A block written for a serial beyond the next one hides at most the serial
      of the window whose slot it takes. */
  lemma SkippedCrash(l: Log, a: History, u: Update, t: uint32)
    requires Inv(l, a) && Skips(a, u) && Fits(l, u) && First(a, |l.blocks|) <= t <= a.last
    ensures ReadEntry(Placed(l, u), t) == if Shares(a, t, u.serial, |l.blocks|) then Dummy else ReadEntry(l, t)
  {
    hide PutUpdate, HeaderBytes, ReadBlock, EntryBlock, Slot, Stored, Holds;
    assert Numbered(l, u) == u;
    EntryBlockBack(u, t);
  }

  /** The slot of the next serial is the slot of the oldest one of a full ring. */
  lemma Overwritten(l: Log, a: History, u: Update)
    requires Inv(l, a) && Target(a, u) == a.last + 1 < TWO32 && a.last + 1 - |l.blocks| >= 1 && Fits(l, u)
    ensures ReadEntry(Placed(l, u), a.last + 1 - |l.blocks|) == Dummy
  {
    hide PutUpdate, HeaderBytes, ReadBlock, EntryBlock, Stored, Holds;
    SameTarget(l, a, u);
    var s, capacity := a.last + 1, |l.blocks|;
    assert Slot(s - capacity, capacity) == Slot(s, capacity) by { ModMinus(s - 1, capacity); }
    EntryBlockBack(Numbered(l, u), s - capacity);
  }

  lemma CursorInv(l: Log, a: History, c: Last)
    requires Inv(l, a) && c.sno < TWO32 - 1
    ensures Inv(SetCursor(l, c), HistoryStep(a, |l.blocks|, Cursor(c)))
  {
    hide ReadBlock, MarkerBlock, HeaderBytes, Slot;
    MarkerBlockBack(CursorSerial(c), CursorSerial(c));
  }

  lemma CursorCrashInv(l: Log, a: History, c: Last)
    requires Inv(l, a) && c.sno < TWO32 - 1
    ensures var p := Marked(l, c).(hdr := l.hdr);
            Reopen(Marked(l, c)) == Some(p) && Inv(p, HistoryStep(a, |l.blocks|, CursorCrash(c)))
  {
    hide ReadBlock, MarkerBlock, HeaderBytes, Reopen, Slot, Stored;
    ReopenRestores(l, a, Marked(l, c));
    var p, b, capacity := Marked(l, c).(hdr := l.hdr), HistoryStep(a, |l.blocks|, CursorCrash(c)), |l.blocks|;
    forall t: uint32 | First(b, capacity) <= t <= b.last
      ensures ReadEntry(p, t) == if t in b.entries then Stored(b.entries[t]) else Dummy
    {
      MarkerBlockBack(CursorSerial(c), t);
    }
  }

  /** Every allowed operation, crash included, keeps the file in step with the
      unbounded log. */
  lemma StepInv(l: Log, a: History, op: Op)
    requires Inv(l, a) && Permitted(l, a, op)
    ensures Step(l, op).Some?
    ensures Inv(Step(l, op).value, HistoryStep(a, |l.blocks|, op)) && |Step(l, op).value.blocks| == |l.blocks|
  {
    hide Holds, HeaderBytes, ParseHeader, PutUpdate, Fits, Accepted, Slot, Marked, Placed, MarkerBlock, GoodHeader, Advanced, QuietGap;
    match op {
      case Add(u) =>
        SameTarget(l, a, u);
        if Fits(l, u) {
          if Allowed(a, |l.blocks|, op) { AddInv(l, a, u); } else { QuietInv(l, a, u); }
        }
      case AddCrash(u) => SameTarget(l, a, u); if Fits(l, u) { AddCrashInv(l, a, u); }
      case Cursor(c) => CursorInv(l, a, c);
      case CursorCrash(c) => CursorCrashInv(l, a, c);
      case Reopened => ReopenRestores(l, a, l);
    }
  }

  // ----- reading

  lemma {:induction false} CollectIs(l: Log, a: History, from: nat)
    requires Readable(l, a) && First(a, |l.blocks|) <= from
    ensures Collect(l, from) == Some(EntriesFrom(a, from))
    decreases a.last + 1 - from
  {
    hide ReadEntry, HeaderBytes, Stored;
    if from <= a.last {
      CollectIs(l, a, from + 1);
      StoredIsReal(l, a, from);
      assert [] + EntriesFrom(a, from + 1) == EntriesFrom(a, from + 1);
    }
  }

  lemma StoredIsReal(l: Log, a: History, s: uint32)
    requires Readable(l, a) && First(a, |l.blocks|) <= s <= a.last
    ensures ReadEntry(l, s) == if s in a.entries then Stored(a.entries[s]) else Dummy
    ensures s in a.entries ==> ReadEntry(l, s).Real?
  {
    hide ReadBlock, HeaderBytes;
  }

  /** No entry lies below the base, so the window may be counted from there. */
  lemma {:induction false} BelowBase(a: History, low: nat, base: nat)
    requires low <= base && forall s | s in a.entries :: base <= s
    ensures EntriesFrom(a, low) == EntriesFrom(a, base)
    decreases base - low
  {
    if low < base { BelowBase(a, low + 1, base); }
  }

  /** GetEntries returns exactly the entries above both `after` and the last
      serial minus the capacity. */
  lemma GetEntriesIs(l: Log, a: History, after: uint32)
    requires Readable(l, a) && after < TWO32 - 1
    ensures GetEntries(l, after) == Some(EntriesFrom(a, Max(after, a.last - |l.blocks|) + 1))
  {
    hide Holds, HeaderBytes, EntriesFrom, Collect;
    assert l.hdr.firstSno == First(a, |l.blocks|) && l.hdr.lastSno == a.last;
    var from := if after >= l.hdr.firstSno then after + 1 else l.hdr.firstSno;
    CollectIs(l, a, from);
    var low := Max(after, a.last - |l.blocks|) + 1;
    if low < from { BelowBase(a, low, from); }
  }

  /** What the unbounded log holds from one serial on is all of that and
      nothing else. */
  lemma {:induction false} EntriesExact(a: History, from: nat, e: Entry)
    requires forall s | s in a.entries :: a.entries[s].serial == s
    ensures e in EntriesFrom(a, from)
       <==> e.Real? && from <= e.serial <= a.last && e.serial in a.entries && e == Stored(a.entries[e.serial])
    decreases a.last + 1 - from
  {
    hide Canonical;
    if from <= a.last {
      EntriesExact(a, from + 1, e);
      if from in a.entries { assert e in EntriesFrom(a, from) <==> e == Stored(a.entries[from]) || e in EntriesFrom(a, from + 1); }
    }
  }

  /** The entries come in the order of their serials. */
  lemma {:induction false} EntriesSorted(a: History, from: nat, i: nat, j: nat)
    requires forall s | s in a.entries :: a.entries[s].serial == s
    requires i < j < |EntriesFrom(a, from)|
    ensures EntriesFrom(a, from)[i].Real? && EntriesFrom(a, from)[j].Real?
    ensures from <= EntriesFrom(a, from)[i].serial < EntriesFrom(a, from)[j].serial
    decreases a.last + 1 - from
  {
    hide Canonical;
    if from in a.entries {
      var rest := EntriesFrom(a, from + 1);
      assert EntriesFrom(a, from) == [Stored(a.entries[from])] + rest;
      if i > 0 {
        EntriesSorted(a, from + 1, i - 1, j - 1);
      } else {
        assert rest[j - 1] in rest;
        EntriesExact(a, from + 1, rest[j - 1]);
      }
    } else {
      assert EntriesFrom(a, from) == EntriesFrom(a, from + 1);
      EntriesSorted(a, from + 1, i, j);
    }
  }

  /** If a run stops between the two writes of an append, what a reopened log
      reports is the previous window less the serial whose slot was taken. */
  lemma CrashLosesOldest(l: Log, a: History, u: Update, after: uint32)
    requires Inv(l, a) && Target(a, u) == a.last + 1 < TWO32 - 1 && Fits(l, u) && after < TWO32 - 1
    ensures Reopen(Placed(l, u)) == Some(Placed(l, u))
    ensures GetEntries(Placed(l, u), after) == Some(EntriesFrom(a, Max(after, a.last + 1 - |l.blocks|) + 1))
  {
    hide Holds, HeaderBytes, PutUpdate, Fits, GetEntries, Reopen, Placed, EntriesFrom;
    SameTarget(l, a, u);
    AddCrashInv(l, a, u);
    var b := HistoryStep(a, |l.blocks|, AddCrash(u));
    GetEntriesIs(Placed(l, u), b, after);
    LostWindow(a, b, |l.blocks|, after);
  }

  lemma LostWindow(a: History, b: History, capacity: nat, after: nat)
    requires capacity >= 1
    requires b == a.(entries := map s | s in a.entries && s != a.last + 1 - capacity :: a.entries[s])
    ensures EntriesFrom(b, Max(after, a.last - capacity) + 1) == EntriesFrom(a, Max(after, a.last + 1 - capacity) + 1)
  {
    var low, high := Max(after, a.last - capacity) + 1, Max(after, a.last + 1 - capacity) + 1;
    SkipsLost(a, b, capacity, high);
    if low < high {
      assert EntriesFrom(b, low) == [] + EntriesFrom(b, high);
    }
  }

  lemma {:induction false} SkipsLost(a: History, b: History, capacity: nat, from: nat)
    requires b == a.(entries := map s | s in a.entries && s != a.last + 1 - capacity :: a.entries[s])
    ensures from > a.last + 1 - capacity ==> EntriesFrom(b, from) == EntriesFrom(a, from)
    decreases a.last + 1 - from
  {
    if from <= a.last { SkipsLost(a, b, capacity, from + 1); }
  }

  // ----- runs

  /** A run of operations from a log and, beside it, from the unbounded log. */
  ghost predicate Run(l: Log, a: History, ops: seq<Op>, l2: Log, a2: History)
    requires WellSized(l) && 1 <= a.base <= a.last < TWO32 - 1
    decreases |ops|
  {
    if ops == [] then l2 == l && a2 == a
    else
      && Permitted(l, a, ops[0]) && Step(l, ops[0]).Some?
      && var b := HistoryStep(a, |l.blocks|, ops[0]);
      1 <= b.base <= b.last < TWO32 - 1 && Run(Step(l, ops[0]).value, b, ops[1..], l2, a2)
  }

  lemma {:induction false} RunInv(l: Log, a: History, ops: seq<Op>, l2: Log, a2: History)
    requires Inv(l, a) && Run(l, a, ops, l2, a2)
    ensures Inv(l2, a2) && |l2.blocks| == |l.blocks|
    decreases |ops|
  {
    hide Holds, HeaderBytes, Step, HistoryStep, Allowed, Skips, QuietGap, GoodHeader;
    if ops != [] {
      StepInv(l, a, ops[0]);
      RunInv(Step(l, ops[0]).value, HistoryStep(a, |l.blocks|, ops[0]), ops[1..], l2, a2);
    }
  }

  /** Whatever happened since Create: the log answers every query from the
      unbounded log, except one after the greatest serial if it holds anything,
      and its header counts the serials used, up to its capacity: those of its
      window exactly if none was skipped or so many were used since. */
  lemma RingRefinesLog(capacity: nat, ops: seq<Op>, l: Log, a: History, after: uint32)
    requires 1 <= capacity <= 0x10_0000 && Run(Create(capacity), History(1, 1, map[], 0), ops, l, a)
    ensures WellSized(l)
    ensures GetEntries(l, after) == Some(EntriesFrom(a, Max(after, a.last - capacity) + 1)) <==> after < TWO32 - 1 || Silent(l)
    ensures l.hdr.numEntries == Counted(a, capacity) && l.hdr.lastSno - l.hdr.firstSno + 1 <= capacity
    ensures l.hdr.numEntries == l.hdr.lastSno - l.hdr.firstSno + 1 <==> a.missing == 0 || Counted(a, capacity) == capacity
    ensures l.hdr.lastSno == a.last
  {
    hide Holds, HeaderBytes, Step, HistoryStep, Permitted, Run, GetEntries, EntriesFrom, Create, Silent;
    CreateInv(capacity);
    RunInv(Create(capacity), History(1, 1, map[], 0), ops, l, a);
    if after < TWO32 - 1 { GetEntriesIs(l, a, after); } else { AfterGreatest(l, a); }
  }

  // ----- the ends of the 32-bit serial

  /** No block answers for any serial up to the last one. */
  ghost predicate Silent(l: Log)
    requires WellSized(l)
  {
    forall t: uint32 | t <= l.hdr.lastSno :: Quiet(l, t)
  }

  lemma {:induction false} CollectNothing(l: Log, from: nat)
    requires WellSized(l)
    ensures Collect(l, from) == Some([]) <==> forall t: uint32 | from <= t <= l.hdr.lastSno :: Quiet(l, t)
    decreases l.hdr.lastSno + 1 - from
  {
    hide ReadEntry;
    if from <= l.hdr.lastSno {
      CollectNothing(l, from + 1);
      assert Quiet(l, from) <==> ReadEntry(l, from) == Dummy;
    }
  }

  /** After the greatest serial the search starts over at zero, so it finds
      nothing only if nothing is held. */
  lemma AfterGreatest(l: Log, a: History)
    requires Readable(l, a)
    ensures GetEntries(l, TWO32 - 1) == Some(EntriesFrom(a, Max(TWO32 - 1, a.last - |l.blocks|) + 1)) <==> Silent(l)
  {
    hide Holds, Collect, Quiet;
    assert EntriesFrom(a, TWO32) == [];
    CollectNothing(l, 0);
  }

  /** One entry is enough: it is returned although its serial is not above the
      greatest one. */
  lemma GreatestReturnsOld(u: Update)
    requires u.serial == 2 && |PutUpdate(u)| <= 2024
    ensures AddUpdate(Create(4), u).Some? && GetEntries(AddUpdate(Create(4), u).value, TWO32 - 1) != Some([])
  {
    hide PutUpdate, HeaderBytes, Holds, Create, ReadEntry, Stored, AddUpdate, GoodHeader, GetEntries, EntriesFrom;
    var a0 := History(1, 1, map[], 0);
    CreateInv(4);
    SameTarget(Create(4), a0, u);
    AddInv(Create(4), a0, u);
    var l, a := AddUpdate(Create(4), u).value, Recorded(a0, u);
    InvReadable(l, a);
    StoredIsReal(l, a, 2);
    assert !Quiet(l, 2);
    AfterGreatest(l, a);
    NothingBeyond(a);
  }

  lemma NothingBeyond(a: History)
    requires a.last < TWO32
    ensures EntriesFrom(a, TWO32) == []
  {
  }

  // ----- why the serials must not leave gaps

  /** An add beyond the next serial leaves the blocks in between as they were. */
  lemma GapKeepsBlocks(l: Log, a: History, u: Update, t: uint32)
    requires Inv(l, a) && Fits(l, u) && AddUpdate(l, u).Some?
    requires a.last < t < u.serial < t + |l.blocks|
    ensures ReadEntry(AddUpdate(l, u).value, t) == ReadEntry(l, t)
  {
    hide PutUpdate, HeaderBytes, ReadBlock, EntryBlock, Slot, Advanced, Holds;
    OtherSerials(l, u.serial, EntryBlock(u.serial, Numbered(l, u)), t);
  }

  lemma GapReads(l: Log, a: History, u: Update, t: uint32)
    requires Inv(l, a) && Fits(l, u) && Skips(a, u)
    requires First(a, |l.blocks|) <= t <= u.serial < t + |l.blocks|
    ensures ReadEntry(Placed(l, u), t) == if t == u.serial then Stored(u) else ReadEntry(l, t)
  {
    hide PutUpdate, HeaderBytes, ReadBlock, EntryBlock, Slot, Holds, Stored;
    assert Numbered(l, u) == u;
    if t == u.serial {
      EntryBlockBack(u, t);
    } else {
      OtherSerials(l, u.serial, EntryBlock(u.serial, u), t);
    }
  }

  lemma GapFirst(l: Log, a: History, u: Update)
    requires Inv(l, a) && Skips(a, u)
    ensures var first, capacity := First(Recorded(a, u), |l.blocks|), |l.blocks|;
            && First(a, capacity) <= first <= u.serial < first + capacity
            && 1 <= First(a, capacity) <= a.last
            && first == if (u.serial - l.hdr.firstSno) % TWO32 >= capacity then (u.serial - capacity + 1) % TWO32 else l.hdr.firstSno
  {
    hide HeaderBytes, Holds;
  }

  /** The block that becomes the oldest is damaged only within the gap. */
  lemma GapDamage(l: Log, a: History, u: Update, first: uint32)
    requires Inv(l, a) && Fits(l, u) && Skips(a, u)
    requires First(a, |l.blocks|) <= first <= u.serial < first + |l.blocks| && ReadEntry(Placed(l, u), first).Damaged?
    ensures a.last < first < u.serial && ReadEntry(l, first).Damaged?
  {
    hide PutUpdate, HeaderBytes, ReadEntry, Placed, Canonical, Holds, First;
    GapReads(l, a, u, first);
    if first <= a.last { StoredIsReal(l, a, first); }
  }

  /** Where an add that skips serials leaves the window. */
  lemma GapHeader(l: Log, a: History, u: Update)
    requires Inv(l, a) && Fits(l, u) && Skips(a, u)
    ensures var first := First(Recorded(a, u), |l.blocks|);
            && First(a, |l.blocks|) <= first <= u.serial < first + |l.blocks|
            && (AddUpdate(l, u).None? ==> a.last < first < u.serial && ReadEntry(l, first).Damaged?)
            && (AddUpdate(l, u).Some? ==>
                  var r := AddUpdate(l, u).value;
                  && r.hdr.lastSno == u.serial && r.hdr.firstSno == first && r.blocks == Placed(l, u).blocks
                  && r.hdr.version == l.hdr.version && r.hdr.block == l.hdr.block && r.disk == HeaderBytes(r.hdr)
                  && r.hdr.numEntries == if l.hdr.numEntries < |l.blocks| then l.hdr.numEntries + 1 else l.hdr.numEntries)
  {
    hide PutUpdate, HeaderBytes, ReadEntry, TimeAt, Placed, Holds, First, Recorded;
    GapFirst(l, a, u);
    var first: uint32 := First(Recorded(a, u), |l.blocks|);
    if ReadEntry(Placed(l, u), first).Damaged? { GapDamage(l, a, u, first); }
  }

  predicate Quiet(l: Log, t: uint32)
    requires WellSized(l)
  {
    ReadEntry(l, t) == Dummy
  }

  /** The skipped serials that stay in the window have no entry. */
  ghost predicate QuietGap(l: Log, a: History, u: Update)
    requires WellSized(l)
  {
    forall t: uint32 | a.last < t < u.serial && u.serial < t + |l.blocks| :: Quiet(l, t)
  }

  /** GetEntries answers from the unbounded log, whatever it is asked. */
  ghost predicate Answers(l: Log, a: History)
    requires WellSized(l)
  {
    forall after: uint32 | after < TWO32 - 1 :: GetEntries(l, after) == Some(EntriesFrom(a, Max(after, a.last - |l.blocks|) + 1))
  }

  lemma QuietReadable(l: Log, a: History, u: Update)
    requires Inv(l, a) && Fits(l, u) && Skips(a, u) && QuietGap(l, a, u)
    ensures AddUpdate(l, u).Some? && Readable(AddUpdate(l, u).value, Recorded(a, u))
  {
    hide PutUpdate, HeaderBytes, ReadEntry, AddUpdate, Placed, Stored, Fits, GoodHeader;
    var first, b := First(Recorded(a, u), |l.blocks|), Recorded(a, u);
    GapHeader(l, a, u);
    assert a.last < first < u.serial ==> Quiet(l, first);
    var r := AddUpdate(l, u).value;
    forall t: uint32 | first <= t <= b.last
      ensures ReadEntry(r, t) == if t in b.entries then Stored(b.entries[t]) else Dummy
    {
      GapReads(l, a, u, t);
      SameBlocks(r, Placed(l, u), t);
      if a.last < t < u.serial { assert Quiet(l, t); }
    }
  }

  /** An add over a quiet gap keeps the file in step as well. */
  lemma QuietInv(l: Log, a: History, u: Update)
    requires Inv(l, a) && Fits(l, u) && Skips(a, u) && QuietGap(l, a, u)
    ensures AddUpdate(l, u).Some? && Inv(AddUpdate(l, u).value, Recorded(a, u))
  {
    hide PutUpdate, HeaderBytes, AddUpdate, Placed, Fits, Holds, QuietGap, ReadEntry;
    GapHeader(l, a, u);
    QuietReadable(l, a, u);
  }

  /** After skipped serials the header's count is that of the window only if the
      ring was full before, or one short of it. */
  lemma GapCount(l: Log, a: History, u: Update)
    requires Inv(l, a) && Fits(l, u) && Skips(a, u) && AddUpdate(l, u).Some?
    ensures var h := AddUpdate(l, u).value.hdr;
            h.numEntries == h.lastSno - h.firstSno + 1 <==> l.hdr.numEntries >= |l.blocks| - 1
  {
    hide PutUpdate, HeaderBytes, AddUpdate, Placed, Fits, Holds, ReadEntry;
    GapHeader(l, a, u);
  }

  lemma SameBlocks(l: Log, p: Log, t: uint32)
    requires WellSized(l) && WellSized(p) && l.blocks == p.blocks
    ensures ReadEntry(l, t) == ReadEntry(p, t)
  {
  }

  lemma NoisyGap(l: Log, a: History, u: Update, t: uint32)
    requires Inv(l, a) && Fits(l, u) && a.last < t < u.serial < TWO32 - 1 && u.serial < t + |l.blocks|
    requires !Quiet(l, t) && AddUpdate(l, u).Some?
    ensures GetEntries(AddUpdate(l, u).value, t - 1)
         != Some(EntriesFrom(Recorded(a, u), Max(t - 1, u.serial - |l.blocks|) + 1))
  {
    hide PutUpdate, HeaderBytes, AddUpdate, Placed, Fits, GoodHeader, EntriesFrom, Holds, Slot, ReadBlock;
    var r, b := AddUpdate(l, u).value, Recorded(a, u);
    GapHeader(l, a, u);
    GapReads(l, a, u, t);
    SameBlocks(r, Placed(l, u), t);
    var e := ReadEntry(r, t);
    if e.Real? && Collect(r, t).Some? {
      RealSerial(r, t);
      assert e in Collect(r, t).value;
      EntriesExact(b, t, e);
    }
  }

  lemma RealSerial(l: Log, t: uint32)
    requires WellSized(l) && ReadEntry(l, t).Real?
    ensures ReadEntry(l, t).serial == t
  {
    hide UnmarshalUpdate, LE32, Slot;
  }

  /** An add that skips serials succeeds and leaves a ring that answers from the
      unbounded log exactly when no block of a skipped serial answers for it. */
  lemma GapExact(l: Log, a: History, u: Update)
    requires Inv(l, a) && Fits(l, u) && Skips(a, u)
    ensures AddUpdate(l, u).Some? && Answers(AddUpdate(l, u).value, Recorded(a, u)) <==> QuietGap(l, a, u)
  {
    hide Holds, GoodHeader, HeaderBytes, Fits, AddUpdate, Quiet, Readable, GetEntries, EntriesFrom;
    if QuietGap(l, a, u) {
      QuietReadable(l, a, u);
      forall after: uint32 | after < TWO32 - 1
        ensures GetEntries(AddUpdate(l, u).value, after)
             == Some(EntriesFrom(Recorded(a, u), Max(after, u.serial - |l.blocks|) + 1))
      {
        GetEntriesIs(AddUpdate(l, u).value, Recorded(a, u), after);
      }
    } else if AddUpdate(l, u).Some? {
      var t: uint32 :| a.last < t < u.serial && u.serial < t + |l.blocks| && !Quiet(l, t);
      NoisyGap(l, a, u, t);
    }
  }

  /** So an entry dropped by a reset comes back when the next add skips its
      serial: update 2 is dropped, update 3 is added, and both are returned. */
  lemma GapReturnsDropped(u: Update, v: Update)
    requires u.serial == 2 && v.serial == 3 && |PutUpdate(u)| <= 2024 && |PutUpdate(v)| <= 2024
    ensures var l1 := AddUpdate(Create(4), u);
            && l1.Some?
            && var l2 := SetCursor(l1.value, Last(0, NO_TIME));
            && GetEntries(l2, 0) == Some([])
            && var l3 := AddUpdate(l2, v);
            l3.Some? && GetEntries(l3.value, 0) == Some([Stored(u), Stored(v)])
  {
    hide Inv, PutUpdate, Create, SetCursor, ReadEntry, Stored, AddUpdate, GetEntries, Fits;
    AddThenReset(u);
    var l2 := SetCursor(AddUpdate(Create(4), u).value, Last(0, NO_TIME));
    var a0 := History(1, 1, map[], 0);
    InvReadable(l2, a0);
    GetEntriesIs(l2, a0, 0);
    assert EntriesFrom(a0, 2) == [];
    assert EntriesFrom(a0, 1) == [] + EntriesFrom(a0, 2) == [];
    assert Max(0, a0.last - |l2.blocks|) + 1 == 1;
    assert GetEntries(l2, 0) == Some([]);
    GapAdd(l2, a0, v);
    GapKeepsBlocks(l2, a0, v, 2);
    CollectThree(AddUpdate(l2, v).value, u, v);
  }

  lemma AddThenReset(u: Update)
    requires u.serial == 2 && |PutUpdate(u)| <= 2024
    ensures AddUpdate(Create(4), u).Some?
    ensures var l := SetCursor(AddUpdate(Create(4), u).value, Last(0, NO_TIME));
            Inv(l, History(1, 1, map[], 0)) && |l.blocks| == 4 && ReadEntry(l, 2) == Stored(u)
  {
    hide PutUpdate, HeaderBytes, Holds, Create, SetCursor, ReadEntry, Stored, AddUpdate, GoodHeader;
    var a0 := History(1, 1, map[], 0);
    CreateInv(4);
    SameTarget(Create(4), a0, u);
    AddInv(Create(4), a0, u);
    var l1, a1 := AddUpdate(Create(4), u).value, Recorded(a0, u);
    assert a1.entries == map[2 := u];
    ResetKeeps(l1, a1, u);
    CursorInv(l1, a1, Last(0, NO_TIME));
  }

  lemma ResetKeeps(l: Log, a: History, u: Update)
    requires Inv(l, a) && a == History(1, 2, map[2 := u], 0) && |l.blocks| == 4
    ensures ReadEntry(SetCursor(l, Last(0, NO_TIME)), 2) == Stored(u)
  {
    hide HeaderBytes, ReadBlock, MarkerBlock, Stored, Slot;
    OtherSerials(l, 1, MarkerBlock(1), 2);
  }

  lemma GapAdd(l: Log, a: History, v: Update)
    requires Inv(l, a) && a == History(1, 1, map[], 0) && |l.blocks| == 4 && v.serial == 3 && |PutUpdate(v)| <= 2024
    ensures Fits(l, v) && AddUpdate(l, v).Some?
    ensures var r := AddUpdate(l, v).value;
            && r.hdr.firstSno == 1 && r.hdr.lastSno == 3 && |r.blocks| == 4
            && ReadEntry(r, 1) == Dummy && ReadEntry(r, 3) == Stored(v)
  {
    hide PutUpdate, HeaderBytes, ReadBlock, EntryBlock, Stored, Slot;
    assert Numbered(l, v) == v;
    OtherSerials(l, 3, EntryBlock(3, v), 1);
    EntryBlockBack(v, 3);
  }

  lemma CollectThree(l: Log, u: Update, v: Update)
    requires WellSized(l) && l.hdr.firstSno == 1 && l.hdr.lastSno == 3
    requires ReadEntry(l, 1) == Dummy && ReadEntry(l, 2) == Stored(u) && ReadEntry(l, 3) == Stored(v)
    ensures GetEntries(l, 0) == Some([Stored(u), Stored(v)])
  {
    hide ReadEntry, Canonical;
    assert Collect(l, 4) == Some([]);
    assert Collect(l, 3) == Some([Stored(v)]) by { assert [Stored(v)] + [] == [Stored(v)]; }
    assert Collect(l, 2) == Some([Stored(u), Stored(v)]) by { assert [Stored(u)] + [Stored(v)] == [Stored(u), Stored(v)]; }
  }
}
