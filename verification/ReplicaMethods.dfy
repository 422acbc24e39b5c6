/** The master's bounded log and the polling replica as the objects that change
    step by step. */
module ReplicaMethods {
  import opened Bytes
  import opened Xdr
  import opened Ulog
  import opened UlogFile
  import opened Replica

  lemma DropMore<T>(xs: seq<T>, i: nat, j: nat)
    requires i + j <= |xs|
    ensures xs[i..][j..] == xs[i + j..]
  {
  }

  lemma DropSnoc<T>(xs: seq<T>, i: nat, x: T)
    requires i <= |xs|
    ensures (xs + [x])[i..] == xs[i..] + [x]
  {
  }

  function Newest<T>(xs: seq<T>, n: nat): (r: seq<T>) {
    if |xs| > n then xs[|xs| - n..] else xs
  }

  /** What is retained after an append is the end of everything appended. */
  lemma NewestIsSuffix<T>(all: seq<T>, kept: seq<T>, x: T, n: nat)
    requires |kept| <= |all| && kept == all[|all| - |kept|..] && |kept| <= n
    ensures var r := if n > 0 then Newest(kept + [x], n) else [];
            && |r| == (if |kept| + 1 > n then n else |kept| + 1)
            && r == (all + [x])[|all| + 1 - |r|..]
  {
    DropSnoc(all, |all| - |kept|, x);
    if |kept| + 1 > n {
      DropMore(all + [x], |all| - |kept|, |kept| + 1 - n);
    }
  }

  lemma AppendedLog(m: Master, u: Update, kept: seq<Update>)
    requires ValidMaster(m) && |m.all| + 1 < TWO32 && |kept| == m.kept && kept == m.all[|m.all| - m.kept..]
    ensures var entry := u.(serial := |m.all| + 1);
            var r, next := if m.capacity > 0 then Newest(kept + [entry], m.capacity) else [], Logged(m, u);
            && ValidMaster(next) && |next.all| == |m.all| + 1 && Stamp(next.all) == Last(|m.all| + 1, u.time)
            && next == Master(next.all, |r|, m.capacity, false) && |r| <= |next.all| && r == next.all[|next.all| - |r|..]
  {
    hide Newest, Stamp;
    var entry := u.(serial := |m.all| + 1);
    LoggedIs(m, u);
    StampSnoc(m.all, entry);
    NewestIsSuffix(m.all, kept, entry, m.capacity);
  }

  /** The answers in terms of the retained entries. */
  lemma Answers(m: Master, cursor: Last, kept: seq<Update>)
    requires ValidMaster(m) && |m.all| < TWO32 && |kept| == m.kept && kept == m.all[|m.all| - m.kept..]
    ensures var r, first := Replica.Entries(m, cursor), |m.all| - m.kept + 1;
            && (kept != [] ==> kept[0].serial == first)
            && (!m.reset && cursor == Stamp(m.all) ==> r == Reply(UPDATE_NIL, []))
            && (m.reset || cursor != Stamp(m.all) ==>
                  && (kept != [] && first == 1 && cursor == Last(0, NO_TIME) ==> r == Reply(UPDATE_OK, kept))
                  && (kept == [] || cursor.sno > |m.all| || (cursor.sno < first && !(first == 1 && cursor == Last(0, NO_TIME))) ==>
                        r == Reply(FULL_RESYNC_NEEDED, []))
                  && (kept != [] && first <= cursor.sno <= |m.all| ==>
                        && kept[cursor.sno - first].serial == cursor.sno
                        && r == FoundAt(kept, cursor, cursor.sno - first)))
            && forall i, j | 0 <= i < j < |kept| :: kept[i].serial != kept[j].serial
  {
    hide Stamp;
    if kept != [] && |m.all| - m.kept + 1 <= cursor.sno <= |m.all| {
      DropMore(m.all, |m.all| - m.kept, cursor.sno - (|m.all| - m.kept));
    }
    if m.kept == |m.all| { assert m.all[0..] == m.all; }
  }

  function FoundAt(kept: seq<Update>, cursor: Last, i: nat): (r: Reply)
    requires i < |kept|
  {
    if kept[i].time != cursor.time then Reply(FULL_RESYNC_NEEDED, [])
    else if i + 1 == |kept| then Reply(UPDATE_NIL, [])
    else Reply(UPDATE_OK, kept[i + 1..])
  }

  lemma StampSnoc(all: seq<Update>, u: Update)
    requires |all| + 1 < TWO32
    ensures Stamp(all + [u]) == Last(|all| + 1, u.time)
  {
  }

  lemma TrimmedIs(m: Master, c: nat)
    requires ValidMaster(m)
    ensures ValidMaster(m.(capacity := c, kept := if m.kept > c then c else m.kept))
  {
  }

  /** kdb.UpdateLog. The ghost field remembers what retention has dropped. */
  class MasterLog {
    var capacity: nat
    var entries: seq<Update>
    var last: Last
    var reset: bool
    ghost var all: seq<Update>

    ghost predicate Valid()
      reads this
    {
      && |entries| <= |all| < TWO32 && entries == all[|all| - |entries|..]
      && last == Stamp(all) && ValidMaster(Model())
    }

    ghost function Model(): (m: Master)
      reads this
    {
      Master(all, |entries|, capacity, reset)
    }

    constructor (size: int)
      ensures Valid() && Model() == Master([], 0, if size < 0 then 0 else size, false)
    {
      capacity := if size < 0 then 0 else size;
      entries := [];
      last := Last(0, NO_TIME);
      reset := false;
      all := [];
    }

    method SetCapacity(size: int)
      requires Valid()
      modifies this
      ensures Valid()
      ensures var m, c := old(Model()), if size < 0 then 0 else size;
              Model() == m.(capacity := c, kept := if m.kept > c then c else m.kept)
    {
      hide ValidMaster, Stamp;
      capacity := if size < 0 then 0 else size;
      if capacity == 0 {
        entries := [];
      } else if |entries| > capacity {
        DropMore(all, |all| - |entries|, |entries| - capacity);
        entries := Newest(entries, capacity);
      }
      TrimmedIs(old(Model()), capacity);
    }

    method Reset()
      requires Valid()
      modifies this
      ensures Valid() && Model() == old(Model()).(kept := 0, reset := true)
    {
      entries := [];
      reset := true;
    }

    method Append(u: Update)
      requires Valid() && last.sno + 1 < TWO32
      modifies this
      ensures Valid() && Model() == Logged(old(Model()), u)
    {
      hide ValidMaster, Newest, Stamp, Logged;
      AppendedLog(Model(), u, entries);
      var entry := u.(serial := last.sno + 1);
      last := Last(last.sno + 1, u.time);
      reset := false;
      entries := if capacity > 0 then Newest(entries + [entry], capacity) else [];
      all := Logged(old(Model()), u).all;
    }

    method Find(serial: uint32) returns (i: nat)
      ensures i <= |entries| && (i < |entries| ==> entries[i].serial == serial)
      ensures forall k | 0 <= k < i :: entries[k].serial != serial
    {
      i := 0;
      while i < |entries| && entries[i].serial != serial
        invariant 0 <= i <= |entries|
        invariant forall k | 0 <= k < i :: entries[k].serial != serial
      {
        i := i + 1;
      }
    }

    method Entries(cursor: Last) returns (status: int, out: seq<Update>)
      requires Valid()
      ensures Reply(status, out) == Replica.Entries(Model(), cursor)
    {
      hide ValidMaster, Stamp, Replica.Entries;
      Answers(Model(), cursor, entries);
      if !reset && cursor == last { return UPDATE_NIL, []; }
      if |entries| > 0 && cursor.sno == 0 && cursor.time == NO_TIME && entries[0].serial == 1 {
        return UPDATE_OK, entries;
      }
      if |entries| == 0 || cursor.sno > last.sno { return FULL_RESYNC_NEEDED, []; }
      if cursor.sno < entries[0].serial { return FULL_RESYNC_NEEDED, []; }
      var i := Find(cursor.sno);
      if i == |entries| { return FULL_RESYNC_NEEDED, []; }
      if entries[i].time != cursor.time { return FULL_RESYNC_NEEDED, []; }
      out := entries[i + 1..];
      status := if |out| == 0 then UPDATE_NIL else UPDATE_OK;
    }
  }

  /** How many updates can be applied before one is refused. */
  function Applicable<R>(d: Decoder<R>, us: seq<Update>): (n: nat)
    ensures n <= |us|
    ensures forall i | 0 <= i < n :: Effect(d, us[i]).Some?
    ensures n < |us| ==> Effect(d, us[n]).None?
    decreases |us|
  {
    if us == [] || Effect(d, us[0]).None? then 0 else 1 + Applicable(d, us[1..])
  }

  /** What is left in a log after adding updates until one is refused. */
  function AddsLeft(l: Log, us: seq<Update>): (r: Log)
    requires WellSized(l)
    ensures WellSized(r)
    decreases |us|
  {
    if us == [] then l
    else
      match AddUpdate(l, us[0])
      case None => AddFailed(l, us[0])
      case Some(next) => AddsLeft(next, us[1..])
  }

  function AddAll(l: Log, us: seq<Update>): (r: Option<Log>)
    requires WellSized(l)
    ensures r.Some? ==> WellSized(r.value)
    decreases |us|
  {
    if us == [] then Some(l)
    else
      var next :- AddUpdate(l, us[0]);
      AddAll(next, us[1..])
  }

  lemma {:induction false} FoldSnoc<R>(d: Decoder<R>, db: Database<R>, us: seq<Update>, i: nat)
    requires i < |us|
    ensures Fold(d, db, us[..i + 1]) == Do(Fold(d, db, us[..i]), ChangeOf(d, us[i]))
  {
    hide ChangeOf, Do;
    assert us[..i + 1] == us[..i] + [us[i]];
    FoldConcat(d, db, us[..i], [us[i]]);
    FoldOne(d, Fold(d, db, us[..i]), us[i]);
  }

  /** Whether a poll gets as far as the replica's own log. */
  predicate Reaches<R>(d: Decoder<R>, us: seq<Update>, persists: bool) {
    Applicable(d, us) == |us| && (us == [] || persists)
  }

  /** What the client hands over when the call went through. */
  datatype Result = Result(status: int, last: Last, updates: seq<Update>)

  class Node<R> {
    const decoder: Decoder<R>
    const log: UpdateLog?
    var db: Database<R>
    var cursor: Last

    constructor (d: Decoder<R>, l: UpdateLog?, seed: Database<R>, at: Last)
      ensures db == seed && cursor == at && decoder == d && log == l
    {
      decoder, log, db, cursor := d, l, seed, at;
    }

    method Apply(us: seq<Update>) returns (ok: bool)
      modifies this`db
      ensures db == Fold(decoder, old(db), us[..Applicable(decoder, us)])
      ensures ok == (Applicable(decoder, us) == |us|)
    {
      hide Fold, Applicable;
      ghost var n := Applicable(decoder, us);
      FoldNothing(decoder, db);
      assert us[..0] == [];
      for i := 0 to |us|
        invariant i <= n && db == Fold(decoder, old(db), us[..i])
      {
        FoldSnoc(decoder, old(db), us, i);
        var u := us[i];
        if !u.commit { continue; }
        var name := decoder.parse(u.name);
        if name.None? { return false; }
        if u.deleted {
          db := db - {name.value};
          continue;
        }
        var record := decoder.record(u.name, u.entry);
        if record.None? { return false; }
        db := db[record.value.0 := record.value.1];
      }
      return true;
    }

    method Record(us: seq<Update>) returns (ok: bool)
      requires log != null && log.Valid()
      modifies log, log.blocks
      ensures ok == AddAll(old(log.Model()), us).Some?
      ensures log.Valid() && log.Model() == AddsLeft(old(log.Model()), us)
      ensures ok ==> log.Model() == AddAll(old(log.Model()), us).value
    {
      hide Ulog.AddUpdate, WellSized, AddFailed;
      ghost var all, left := AddAll(log.Model(), us), AddsLeft(log.Model(), us);
      assert us[0..] == us;
      for i := 0 to |us|
        invariant log.Valid() && WellSized(log.Model())
        invariant all == AddAll(log.Model(), us[i..]) && left == AddsLeft(log.Model(), us[i..])
      {
        assert us[i..][0] == us[i] && us[i..][1..] == us[i + 1..];
        ok := log.AddUpdate(us[i]);
        if !ok { return; }
      }
      assert us[|us|..] == [];
      return true;
    }

    /** Poll, given what the client returned and whether Persist will work; the
        database keeps what was applied even when the poll fails, and the cursor
        moves only when everything worked. */
    method Poll(result: Option<Result>, persists: bool) returns (status: int, ok: bool)
      requires log != null ==> log.Valid()
      modifies this, if log == null then {} else {log, log.blocks}
      ensures result.None? || result.value.status != UPDATE_OK ==> db == old(db) && cursor == old(cursor) && ok == result.Some?
      ensures result.Some? && result.value.status == UPDATE_OK ==>
                var us := result.value.updates;
                && db == Fold(decoder, old(db), us[..Applicable(decoder, us)])
                && ok == (Applicable(decoder, us) == |us| && (us == [] || persists)
                          && (log == null || AddAll(old(log.Model()), us).Some?))
                && cursor == if ok then result.value.last else old(cursor)
      ensures log != null ==>
                && log.Valid()
                && log.Model() == if result.Some? && result.value.status == UPDATE_OK && Reaches(decoder, result.value.updates, persists)
                                  then AddsLeft(old(log.Model()), result.value.updates) else old(log.Model())
      ensures ok && result.value.status == UPDATE_OK && log != null ==>
                Some(log.Model()) == AddAll(old(log.Model()), result.value.updates)
      ensures ok ==> status == result.value.status
    {
      hide Fold, Applicable, AddAll, AddsLeft, WellSized;
      if result.None? { return 1, false; }
      var r := result.value;
      if r.status != UPDATE_OK { return r.status, true; }
      var applied := Apply(r.updates);
      if !applied { return 1, false; }
      if |r.updates| != 0 && !persists { return 1, false; }
      if log != null {
        var added := Record(r.updates);
        if !added { return 1, false; }
      }
      cursor := r.last;
      return r.status, true;
    }

    method SetCursor(to: Last)
      requires log != null ==> log.Valid()
      modifies this`cursor, if log == null then {} else {log, log.blocks}
      ensures cursor == to
      ensures log != null ==> log.Valid() && log.Model() == Ulog.SetCursor(old(log.Model()), to)
    {
      cursor := to;
      if log != null { log.SetCursor(to); }
    }
  }

  /** A poll against the master's answer is one of the system's two poll steps. */
  lemma PollIsStep<R(!new)>(d: Decoder<R>, base: Database<R>, s: System<R>, during: seq<Update>, ok: bool, t: System<R>)
    requires ValidMaster(s.master) && |s.master.all| + |during| < TWO32
    requires t.master == Appended(s.master, during)
    requires ValidMaster(t.master) && |t.master.all| < TWO32 && Entries(t.master, s.cursor).status == UPDATE_OK
    requires var us := Entries(t.master, s.cursor).updates;
             && (ok ==> Applicable(d, us) == |us|)
             && t.db == Fold(d, s.db, us[..Applicable(d, us)])
             && t.cursor == if ok then Stamp(s.master.all) else s.cursor
    ensures Next(d, base, s, if ok then PollSucceeds(during) else PollFails(during, Applicable(d, Entries(t.master, s.cursor).updates)), t)
  {
    hide Fold, Applicable, Appended, Entries;
    var us := Entries(t.master, s.cursor).updates;
    if ok { assert us[..|us|] == us; }
  }
}
