/** When the search of GetEntries ends, and that it then gives what the log is
    said to give. */
module UlogLoop {
  import opened Arithmetic
  import opened Bytes
  import opened Xdr
  import opened Ulog

  /** The loop with its 32-bit counter: still running, stopped by a damaged block,
      or done. */
  datatype Loop = Running(serial: uint32, out: seq<Entry>) | Stopped | Done(out: seq<Entry>)

  function Turn(l: Log, s: Loop): (r: Loop)
    requires WellSized(l)
  {
    if !s.Running? then s
    else if s.serial > l.hdr.lastSno then Done(s.out)
    else
      match ReadEntry(l, s.serial)
      case Damaged => Stopped
      case Dummy => Running((s.serial + 1) % TWO32, s.out)
      case e => Running((s.serial + 1) % TWO32, s.out + [e])
  }

  function Turns(l: Log, s: Loop, k: nat): (r: Loop)
    requires WellSized(l)
  {
    if k == 0 then s else Turn(l, Turns(l, s, k - 1))
  }

  lemma {:induction false} TurnsFront(l: Log, s: Loop, k: nat)
    requires WellSized(l)
    ensures Turns(l, s, k + 1) == Turns(l, Turn(l, s), k)
  {
    hide Turn;
    if k > 0 { TurnsFront(l, s, k - 1); }
  }

  function Outcome(r: Option<seq<Entry>>, out: seq<Entry>): (s: Loop) {
    match r
    case None => Stopped
    case Some(more) => Done(out + more)
  }

  /** Below the greatest serial the loop ends with what is collected. */
  lemma {:induction false} Settles(l: Log, from: uint32, out: seq<Entry>) returns (k: nat)
    requires WellSized(l) && l.hdr.lastSno < TWO32 - 1
    ensures Turns(l, Running(from, out), k) == Outcome(Collect(l, from), out)
    decreases l.hdr.lastSno + 1 - from
  {
    hide ReadEntry;
    var start := Running(from, out);
    k := 1;
    assert Turns(l, start, 1) == Turn(l, Turns(l, start, 0)) == Turn(l, start);
    if from > l.hdr.lastSno {
      assert out + [] == out;
    } else if !ReadEntry(l, from).Damaged? {
      var e := ReadEntry(l, from);
      var more := if e.Dummy? then out else out + [e];
      k := Settles(l, from + 1, more);
      TurnsFront(l, start, k);
      var rest := Collect(l, from + 1);
      assert rest.Some? && !e.Dummy? ==> out + ([e] + rest.value) == more + rest.value;
      k := k + 1;
    }
  }

  /** With the greatest serial as the last one, the loop goes round the serials
      until it is stopped. */
  lemma {:induction false} GoesRound(l: Log, from: uint32, k: nat)
    requires WellSized(l) && l.hdr.lastSno == TWO32 - 1
    ensures var s := Turns(l, Running(from, []), k); s.Stopped? || (s.Running? && s.serial == (from + k) % TWO32)
  {
    hide ReadEntry, Turn;
    if k > 0 {
      GoesRound(l, from, k - 1);
      OneTurn(l, Turns(l, Running(from, []), k - 1));
      NextSerial(from + k - 1);
    }
  }

  lemma OneTurn(l: Log, s: Loop)
    requires WellSized(l) && l.hdr.lastSno == TWO32 - 1
    ensures s.Stopped? ==> Turn(l, s) == Stopped
    ensures s.Running? ==> if IsDamaged(l, s.serial) then Turn(l, s) == Stopped
                           else Turn(l, s).Running? && Turn(l, s).serial == (s.serial + 1) % TWO32
  {
    hide ReadEntry;
  }

  lemma NextSerial(x: nat)
    ensures (x % TWO32 + 1) % TWO32 == (x + 1) % TWO32
  {
    var q, r := x / TWO32, x % TWO32;
    assert x == TWO32 * q + r;
    if r + 1 < TWO32 {
      ModUnique(x + 1, TWO32, q, r + 1);
    } else {
      ModUnique(x + 1, TWO32, q + 1, 0);
    }
  }

  lemma Reaches(from: uint32, t: uint32)
    ensures 0 <= (t - from) % TWO32 && (from + (t - from) % TWO32) % TWO32 == t
  {
    if from <= t {
      ModUnique(t - from, TWO32, 0, t - from);
    } else {
      ModUnique(t - from, TWO32, -1, t - from + TWO32);
      ModUnique(t + TWO32, TWO32, 1, t);
    }
  }

  lemma DamageStops(l: Log, from: uint32, t: uint32)
    requires WellSized(l) && l.hdr.lastSno == TWO32 - 1 && IsDamaged(l, t)
    ensures Turns(l, Running(from, []), (t - from) % TWO32 + 1) == Stopped
  {
    hide ReadEntry, Turn;
    Reaches(from, t);
    GoesRound(l, from, (t - from) % TWO32);
    OneTurn(l, Turns(l, Running(from, []), (t - from) % TWO32));
  }

  lemma {:induction false} Endless(l: Log, from: uint32, k: nat)
    requires WellSized(l) && !Ends(l)
    ensures !HasEnded(l, from, k)
  {
    hide ReadEntry;
    if k > 0 {
      Endless(l, from, k - 1);
      assert !IsDamaged(l, Turns(l, Running(from, []), k - 1).serial);
    }
  }

  predicate HasEnded(l: Log, from: uint32, k: nat)
    requires WellSized(l)
  {
    !Turns(l, Running(from, []), k).Running?
  }

  /** The loop ends, wherever it starts, exactly if the last serial is below the
      greatest one or some block is damaged. */
  lemma EndsExactly(l: Log, from: uint32)
    requires WellSized(l)
    ensures (exists k: nat :: HasEnded(l, from, k)) <==> Ends(l)
  {
    hide ReadEntry, Turns, Collect;
    if l.hdr.lastSno < TWO32 - 1 {
      var k := Settles(l, from, []);
      assert HasEnded(l, from, k);
    } else if SomeDamaged(l) {
      var t: uint32 :| IsDamaged(l, t);
      DamageStops(l, from, t);
      assert HasEnded(l, from, (t - from) % TWO32 + 1);
    } else {
      forall k: nat
        ensures !HasEnded(l, from, k)
      {
        Endless(l, from, k);
      }
    }
  }

  /** And then it ends with what GetEntries is said to return. */
  lemma LoopIsGetEntries(l: Log, after: uint32) returns (k: nat)
    requires WellSized(l) && l.hdr.lastSno != 0 && Ends(l)
    ensures Turns(l, Running(StartAt(l, after), []), k) == Outcome(GetEntries(l, after), [])
  {
    hide ReadEntry, Turns, Collect;
    if l.hdr.lastSno < TWO32 - 1 {
      k := Settles(l, StartAt(l, after), []);
    } else {
      var t: uint32 :| IsDamaged(l, t);
      DamageStops(l, StartAt(l, after), t);
      k := (t - StartAt(l, after)) % TWO32 + 1;
    }
  }

  lemma ZeroBlock(serial: nat)
    ensures ReadBlock(Zeros(BLOCK), serial) == Dummy
  {
    hide UnmarshalUpdate, ToLE;
    var b := Zeros(BLOCK)[..4];
    assert b == [0, 0, 0, 0];
    assert LE32([0, 0, 0, 0]) == 0;
  }

  /** A new log whose cursor is set to the greatest serial: a replica that is told
      so by its master has one, and searching it has no end. */
  lemma EndlessLog(capacity: nat, after: uint32, k: nat)
    requires 1 <= capacity <= 0x10_0000
    ensures var l := SetCursor(Create(capacity), Last(TWO32 - 1, NO_TIME));
            l.hdr.lastSno == TWO32 - 1 && !Ends(l) && !HasEnded(l, StartAt(l, after), k)
  {
    hide ReadBlock, MarkerBlock, HeaderBytes, Zeros;
    var l := SetCursor(Create(capacity), Last(TWO32 - 1, NO_TIME));
    forall t: uint32
      ensures !IsDamaged(l, t)
    {
      MarkerBlockBack(1, t);
      MarkerBlockBack(TWO32 - 1, t);
      ZeroBlock(t);
    }
    Endless(l, StartAt(l, after), k);
  }
}
