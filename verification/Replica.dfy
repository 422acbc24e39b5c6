/** A replica that polls a master's update log, and why repeated and interrupted
    polls converge. */
module Replica {
  import opened Bytes
  import opened Xdr
  import opened Ulog

  const UPDATE_OK: int := 0
  const FULL_RESYNC_NEEDED: int := 2
  const UPDATE_NIL: int := 4

  type Database<R> = map<bytes, R>

  /** How the replica reads a principal name, giving its database key, and a
      record, giving the key and the record to store. */
  datatype Decoder<!R> = Decoder(parse: bytes -> Option<bytes>, record: (bytes, seq<Value>) -> Option<(bytes, R)>)

  datatype Change<R> = Skip | Put(key: bytes, record: R) | Remove(key: bytes)

  /** What apply does with one update; None when it reports an error. */
  function Effect<R>(d: Decoder<R>, u: Update): (r: Option<Change<R>>) {
    if !u.commit then Some(Skip)
    else
      var key :- d.parse(u.name);
      if u.deleted then Some(Remove(key))
      else
        var (k, record) :- d.record(u.name, u.entry);
        Some(Put(k, record))
  }

  /** ApplyPrincipal. */
  function Do<R>(db: Database<R>, c: Change<R>): (r: Database<R>) {
    match c
    case Skip => db
    case Put(k, record) => db[k := record]
    case Remove(k) => db - {k}
  }

  function ChangeOf<R>(d: Decoder<R>, u: Update): (c: Change<R>) {
    var e := Effect(d, u);
    if e.Some? then e.value else Skip
  }

  function Fold<R>(d: Decoder<R>, db: Database<R>, us: seq<Update>): (r: Database<R>)
    decreases |us|
  {
    if us == [] then db else Fold(d, Do(db, ChangeOf(d, us[0])), us[1..])
  }

  // ----- the master's log

  /** Everything logged so far, of which the newest `kept` are retained. */
  datatype Master = Master(all: seq<Update>, kept: nat, capacity: nat, reset: bool)

  predicate ValidMaster(m: Master) {
    m.kept <= |m.all| && m.kept <= m.capacity && forall i | 0 <= i < |m.all| :: m.all[i].serial == i + 1
  }

  function Stamp(all: seq<Update>): (c: Last)
    requires |all| < TWO32
    ensures c.sno == |all|
  {
    if all == [] then Last(0, NO_TIME) else Last(|all|, all[|all| - 1].time)
  }

  datatype Reply = Reply(status: int, updates: seq<Update>)

  /** UpdateLog.Entries. */
  function Entries(m: Master, cursor: Last): (r: Reply)
    requires ValidMaster(m) && |m.all| < TWO32
  {
    if !m.reset && cursor == Stamp(m.all) then Reply(UPDATE_NIL, [])
    else if m.kept > 0 && cursor == Last(0, NO_TIME) && m.kept == |m.all| then Reply(UPDATE_OK, m.all)
    else if m.kept == 0 || cursor.sno > |m.all| || cursor.sno <= |m.all| - m.kept then Reply(FULL_RESYNC_NEEDED, [])
    else if m.all[cursor.sno - 1].time != cursor.time then Reply(FULL_RESYNC_NEEDED, [])
    else if cursor.sno == |m.all| then Reply(UPDATE_NIL, [])
    else Reply(UPDATE_OK, m.all[cursor.sno..])
  }

  /** UpdateLog.append, below the wrap-around of the serial. */
  function Logged(m: Master, u: Update): (r: Master)
    requires |m.all| + 1 < TWO32
  {
    var kept := if m.kept + 1 > m.capacity then m.capacity else m.kept + 1;
    Master(m.all + [u.(serial := |m.all| + 1)], kept, m.capacity, false)
  }

  function Appended(m: Master, us: seq<Update>): (r: Master)
    requires |m.all| + |us| < TWO32
    decreases |us|
  {
    if us == [] then m else Appended(Logged(m, us[0]), us[1..])
  }

  // ----- the system

  datatype System<R> = System(master: Master, db: Database<R>, cursor: Last)

  /** `during` is what the master logs between reading its last serial and
      reading its entries; `n` is how many updates a failing poll applied before
      it stopped, whether in applying, in persisting or in logging them. */
  datatype Event =
    | Append(update: Update)
    | ResetLog
    | SetCapacity(capacity: nat)
    | Resync(during: seq<Update>)
    | PollFails(during: seq<Update>, n: nat)
    | PollSucceeds(during: seq<Update>)

  predicate Bounded(m: Master, e: Event) {
    match e
    case Append(_) => |m.all| + 1 < TWO32
    case Resync(during) => |m.all| + |during| < TWO32
    case PollFails(during, _) => |m.all| + |during| < TWO32
    case PollSucceeds(during) => |m.all| + |during| < TWO32
    case _ => true
  }

  function At<R>(d: Decoder<R>, base: Database<R>, all: seq<Update>, j: nat): (db: Database<R>)
    requires j <= |all|
  {
    Fold(d, base, all[..j])
  }

  ghost predicate Next<R(!new)>(d: Decoder<R>, base: Database<R>, s: System<R>, e: Event, t: System<R>)
    requires ValidMaster(s.master) && |s.master.all| < TWO32 && Bounded(s.master, e)
  {
    var m := s.master;
    match e
    case Append(u) => t == s.(master := Appended(m, [u]))
    case ResetLog => t == s.(master := m.(kept := 0, reset := true))
    case SetCapacity(c) => t == s.(master := m.(capacity := c, kept := if m.kept > c then c else m.kept))
    case Resync(during) =>
      var m2 := Appended(m, during);
      t == System(m2, Fold(d, base, m2.all), Stamp(m.all))
    case PollFails(during, n) =>
      var m2 := Appended(m, during);
      && t.master == m2 && t.cursor == s.cursor
      && ValidMaster(m2) && |m2.all| < TWO32
      && var r := Entries(m2, s.cursor);
      t.db == if r.status == UPDATE_OK && n <= |r.updates| then Fold(d, s.db, r.updates[..n]) else s.db
    case PollSucceeds(during) =>
      var m2 := Appended(m, during);
      && ValidMaster(m2) && |m2.all| < TWO32
      && var r := Entries(m2, s.cursor);
      && r.status == UPDATE_OK
      && t == System(m2, Fold(d, s.db, r.updates), Stamp(m.all))
  }

  // ----- facts about replay

  function Lookup<R>(db: Database<R>, k: bytes): (r: Option<R>) { if k in db then Some(db[k]) else None }

  predicate Touches<R>(d: Decoder<R>, us: seq<Update>, k: bytes)
    decreases |us|
  {
    us != [] && ((ChangeOf(d, us[0]) != Skip && ChangeOf(d, us[0]).key == k) || Touches(d, us[1..], k))
  }

  lemma {:induction false} FoldConcat<R>(d: Decoder<R>, db: Database<R>, a: seq<Update>, b: seq<Update>)
    ensures Fold(d, db, a + b) == Fold(d, Fold(d, db, a), b)
    decreases |a|
  {
    hide ChangeOf, Do;
    if a == [] {
      assert a + b == b;
    } else {
      assert (a + b)[1..] == a[1..] + b;
      FoldConcat(d, Do(db, ChangeOf(d, a[0])), a[1..], b);
    }
  }

  lemma {:induction false} FoldUntouched<R>(d: Decoder<R>, db: Database<R>, us: seq<Update>, k: bytes)
    requires !Touches(d, us, k)
    ensures Lookup(Fold(d, db, us), k) == Lookup(db, k)
    decreases |us|
  {
    hide ChangeOf;
    if us != [] { FoldUntouched(d, Do(db, ChangeOf(d, us[0])), us[1..], k); }
  }

  /** What is written does not depend on what was there. */
  lemma {:induction false} FoldAgrees<R>(d: Decoder<R>, a: Database<R>, b: Database<R>, us: seq<Update>, k: bytes)
    requires Lookup(a, k) == Lookup(b, k) || Touches(d, us, k)
    ensures Lookup(Fold(d, a, us), k) == Lookup(Fold(d, b, us), k)
    decreases |us|
  {
    hide ChangeOf;
    if us != [] { FoldAgrees(d, Do(a, ChangeOf(d, us[0])), Do(b, ChangeOf(d, us[0])), us[1..], k); }
  }

  /** Every key has the value it had at some serial from c on. */
  ghost predicate Lagging<R(!new)>(d: Decoder<R>, base: Database<R>, all: seq<Update>, c: nat, db: Database<R>) {
    forall k: bytes :: KeyLags(d, base, all, c, db, k)
  }

  ghost predicate KeyLags<R(!new)>(d: Decoder<R>, base: Database<R>, all: seq<Update>, c: nat, db: Database<R>, k: bytes) {
    exists j: nat :: KeyAt(d, base, all, c, db, k, j)
  }

  predicate KeyAt<R(==)>(d: Decoder<R>, base: Database<R>, all: seq<Update>, c: nat, db: Database<R>, k: bytes, j: nat) {
    c <= j <= |all| && Lookup(db, k) == Lookup(At(d, base, all, j), k)
  }

  lemma AtSplit<R>(d: Decoder<R>, base: Database<R>, all: seq<Update>, c: nat, j: nat)
    requires c <= j <= |all|
    ensures At(d, base, all, j) == Fold(d, At(d, base, all, c), all[c..j])
  {
    assert all[..j] == all[..c] + all[c..j];
    FoldConcat(d, base, all[..c], all[c..j]);
  }

  lemma {:induction false} TouchesSplit<R>(d: Decoder<R>, a: seq<Update>, b: seq<Update>, k: bytes)
    ensures Touches(d, a + b, k) <==> Touches(d, a, k) || Touches(d, b, k)
    decreases |a|
  {
    hide ChangeOf;
    if a == [] {
      assert a + b == b;
    } else {
      assert (a + b)[1..] == a[1..] + b && (a + b)[0] == a[0];
      TouchesSplit(d, a[1..], b, k);
    }
  }

  /** Replaying any part from the cursor on leaves every key at some serial from
      the cursor on. */
  lemma ReplayKey<R>(d: Decoder<R>, base: Database<R>, all: seq<Update>, c: nat, i: nat, db: Database<R>, k: bytes, j: nat)
    requires c <= i <= |all| && KeyAt(d, base, all, c, db, k, j)
    ensures KeyAt(d, base, all, c, Fold(d, db, all[c..i]), k, if Touches(d, all[c..i], k) then i else j)
  {
    hide Fold, Touches;
    if Touches(d, all[c..i], k) {
      FoldAgrees(d, db, At(d, base, all, c), all[c..i], k);
      AtSplit(d, base, all, c, i);
    } else {
      FoldUntouched(d, db, all[c..i], k);
    }
  }

  /** Replaying everything from the cursor on is harmless: it gives the database
      of the whole log, however far the previous attempts got. */
  lemma ReplayAll<R(!new)>(d: Decoder<R>, base: Database<R>, all: seq<Update>, c: nat, db: Database<R>)
    requires c <= |all| && Lagging(d, base, all, c, db)
    ensures Fold(d, db, all[c..]) == Fold(d, base, all)
  {
    var got, want := Fold(d, db, all[c..]), Fold(d, base, all);
    assert all[..|all|] == all && all[c..|all|] == all[c..];
    forall k: bytes
      ensures Lookup(got, k) == Lookup(want, k)
    {
      assert KeyLags(d, base, all, c, db, k);
      var j: nat :| KeyAt(d, base, all, c, db, k, j);
      ReplayAllKey(d, base, all, c, db, k, j);
    }
    SameLookups(got, want);
  }

  lemma SameLookups<R>(a: Database<R>, b: Database<R>)
    requires forall k: bytes :: Lookup(a, k) == Lookup(b, k)
    ensures a == b
  {
    forall k: bytes
      ensures (k in a <==> k in b) && (k in a ==> a[k] == b[k])
    {
      assert Lookup(a, k) == Lookup(b, k);
    }
  }

  lemma ReplayAllKey<R>(d: Decoder<R>, base: Database<R>, all: seq<Update>, c: nat, db: Database<R>, k: bytes, j: nat)
    requires c <= |all| && KeyAt(d, base, all, c, db, k, j)
    ensures Lookup(Fold(d, db, all[c..|all|]), k) == Lookup(At(d, base, all, |all|), k)
  {
    hide Fold, Touches;
    var us := all[c..|all|];
    AtSplit(d, base, all, c, |all|);
    if Touches(d, us, k) {
      FoldAgrees(d, db, At(d, base, all, c), us, k);
    } else {
      FoldUntouched(d, db, us, k);
      FoldUntouched(d, At(d, base, all, c), us, k);
      AtSplit(d, base, all, c, j);
      assert us == all[c..j] + all[j..|all|];
      TouchesSplit(d, all[c..j], all[j..|all|], k);
      FoldUntouched(d, At(d, base, all, c), all[c..j], k);
    }
  }

  // ----- the invariant of every run

  ghost predicate Inv<R(!new)>(d: Decoder<R>, base: Database<R>, s: System<R>) {
    && ValidMaster(s.master) && |s.master.all| < TWO32
    && s.cursor.sno <= |s.master.all|
    && Lagging(d, base, s.master.all, s.cursor.sno, s.db)
  }

  lemma LoggedIs(m: Master, u: Update)
    requires ValidMaster(m) && |m.all| + 1 < TWO32
    ensures ValidMaster(Logged(m, u)) && |Logged(m, u).all| == |m.all| + 1 && m.all <= Logged(m, u).all
  {
  }

  lemma {:induction false} AppendedIs(m: Master, us: seq<Update>)
    requires ValidMaster(m) && |m.all| + |us| < TWO32
    ensures ValidMaster(Appended(m, us)) && |Appended(m, us).all| == |m.all| + |us| && m.all <= Appended(m, us).all
    decreases |us|
  {
    hide Logged, ValidMaster;
    if us != [] {
      LoggedIs(m, us[0]);
      AppendedIs(Logged(m, us[0]), us[1..]);
    }
  }

  lemma AtPrefix<R>(d: Decoder<R>, base: Database<R>, all: seq<Update>, longer: seq<Update>, j: nat)
    requires all <= longer && j <= |all|
    ensures At(d, base, longer, j) == At(d, base, all, j)
  {
    assert longer[..j] == all[..j];
  }

  lemma LaggingExtends<R(!new)>(d: Decoder<R>, base: Database<R>, all: seq<Update>, longer: seq<Update>, c: nat, db: Database<R>)
    requires Lagging(d, base, all, c, db) && all <= longer
    ensures Lagging(d, base, longer, c, db)
  {
    forall k: bytes
      ensures KeyLags(d, base, longer, c, db, k)
    {
      assert KeyLags(d, base, all, c, db, k);
      var j: nat :| KeyAt(d, base, all, c, db, k, j);
      AtPrefix(d, base, all, longer, j);
      assert KeyAt(d, base, longer, c, db, k, j);
    }
  }

  lemma LaggingReplay<R(!new)>(d: Decoder<R>, base: Database<R>, all: seq<Update>, c: nat, i: nat, db: Database<R>)
    requires c <= i <= |all| && Lagging(d, base, all, c, db)
    ensures Lagging(d, base, all, c, Fold(d, db, all[c..i]))
  {
    var after := Fold(d, db, all[c..i]);
    forall k: bytes
      ensures KeyLags(d, base, all, c, after, k)
    {
      assert KeyLags(d, base, all, c, db, k);
      var j: nat :| KeyAt(d, base, all, c, db, k, j);
      ReplayKey(d, base, all, c, i, db, k, j);
    }
  }

  lemma CurrentLags<R(!new)>(d: Decoder<R>, base: Database<R>, all: seq<Update>, c: nat)
    requires c <= |all|
    ensures Lagging(d, base, all, c, Fold(d, base, all))
  {
    assert all[..|all|] == all;
    forall k: bytes
      ensures KeyLags(d, base, all, c, Fold(d, base, all), k)
    {
      assert KeyAt(d, base, all, c, Fold(d, base, all), k, |all|);
    }
  }

  /** The updates of an OK reply are those after the cursor. */
  lemma RepliesRest(m: Master, cursor: Last)
    requires ValidMaster(m) && |m.all| < TWO32 && Entries(m, cursor).status == UPDATE_OK
    ensures cursor.sno <= |m.all| && Entries(m, cursor).updates == m.all[cursor.sno..]
  {
    assert m.all[0..] == m.all;
  }

  lemma NextInv<R(!new)>(d: Decoder<R>, base: Database<R>, s: System<R>, e: Event, t: System<R>)
    requires Inv(d, base, s) && Bounded(s.master, e) && Next(d, base, s, e, t)
    ensures Inv(d, base, t)
  {
    hide Lagging, Fold, Appended, Entries;
    var m := s.master;
    match e {
      case Append(u) => AppendedIs(m, [u]); LaggingExtends(d, base, m.all, t.master.all, s.cursor.sno, s.db);
      case ResetLog =>
      case SetCapacity(_) =>
      case Resync(during) => AppendedIs(m, during); CurrentLags(d, base, t.master.all, t.cursor.sno);
      case PollFails(during, n) =>
        AppendedIs(m, during);
        LaggingExtends(d, base, m.all, t.master.all, s.cursor.sno, s.db);
        FailedPoll(d, base, t.master, s.cursor, s.db, n);
      case PollSucceeds(during) =>
        AppendedIs(m, during);
        Synchronizes(d, base, s, during, t);
        CurrentLags(d, base, t.master.all, t.cursor.sno);
    }
  }

  lemma FailedPoll<R(!new)>(d: Decoder<R>, base: Database<R>, m: Master, cursor: Last, db: Database<R>, n: nat)
    requires ValidMaster(m) && |m.all| < TWO32 && cursor.sno <= |m.all| && Lagging(d, base, m.all, cursor.sno, db)
    ensures var r := Entries(m, cursor);
            r.status == UPDATE_OK && n <= |r.updates| ==> Lagging(d, base, m.all, cursor.sno, Fold(d, db, r.updates[..n]))
  {
    hide Lagging, Fold;
    var r := Entries(m, cursor);
    if r.status == UPDATE_OK && n <= |r.updates| {
      RepliesRest(m, cursor);
      assert r.updates[..n] == m.all[cursor.sno..cursor.sno + n];
      LaggingReplay(d, base, m.all, cursor.sno, cursor.sno + n, db);
    }
  }

  /** A successful poll leaves the database of everything the master had logged
      when it read its entries. */
  lemma Synchronizes<R(!new)>(d: Decoder<R>, base: Database<R>, s: System<R>, during: seq<Update>, t: System<R>)
    requires Inv(d, base, s) && |s.master.all| + |during| < TWO32 && Next(d, base, s, PollSucceeds(during), t)
    ensures t.db == Fold(d, base, t.master.all) && t.cursor == Stamp(s.master.all)
  {
    hide Lagging, Fold, Appended, Entries;
    AppendedIs(s.master, during);
    LaggingExtends(d, base, s.master.all, t.master.all, s.cursor.sno, s.db);
    RepliesRest(t.master, s.cursor);
    ReplayAll(d, base, t.master.all, s.cursor.sno, s.db);
  }

  // ----- runs

  ghost predicate Run<R(!new)>(d: Decoder<R>, base: Database<R>, s: System<R>, events: seq<Event>, states: seq<System<R>>)
    decreases |events|
  {
    && |states| == |events|
    && ValidMaster(s.master) && |s.master.all| < TWO32
    && (events == [] || (Bounded(s.master, events[0]) && Next(d, base, s, events[0], states[0])
                         && Run(d, base, states[0], events[1..], states[1..])))
  }

  function Final<R>(s: System<R>, states: seq<System<R>>): (r: System<R>) {
    if states == [] then s else states[|states| - 1]
  }

  lemma {:induction false} RunInv<R(!new)>(d: Decoder<R>, base: Database<R>, s: System<R>, events: seq<Event>, states: seq<System<R>>)
    requires Inv(d, base, s) && Run(d, base, s, events, states)
    ensures Inv(d, base, Final(s, states))
    decreases |events|
  {
    hide Inv, Next;
    if events != [] {
      NextInv(d, base, s, events[0], states[0]);
      RunInv(d, base, states[0], events[1..], states[1..]);
    }
  }

  /** A replica seeded from a dump at some serial. */
  predicate Seeded<R(==)>(d: Decoder<R>, base: Database<R>, s: System<R>) {
    && ValidMaster(s.master) && |s.master.all| < TWO32
    && s.cursor.sno <= |s.master.all| && s.db == At(d, base, s.master.all, s.cursor.sno)
  }

  lemma SeededInv<R(!new)>(d: Decoder<R>, base: Database<R>, s: System<R>)
    requires Seeded(d, base, s)
    ensures Inv(d, base, s)
  {
    forall k: bytes
      ensures KeyLags(d, base, s.master.all, s.cursor.sno, s.db, k)
    {
      assert KeyAt(d, base, s.master.all, s.cursor.sno, s.db, k, s.cursor.sno);
    }
  }

  // ----- when the database is that of the new cursor

  /** What the last of the updates that touch a key leaves under it: a record or
      nothing. None when no update touches it. */
  function LastWrite<R>(d: Decoder<R>, us: seq<Update>, k: bytes): (w: Option<Option<R>>)
    decreases |us|
  {
    if us == [] then None
    else
      var later := LastWrite(d, us[1..], k);
      if later.Some? then later
      else
        match ChangeOf(d, us[0])
        case Skip => None
        case Put(key, record) => if key == k then Some(Some(record)) else None
        case Remove(key) => if key == k then Some(None) else None
  }

  lemma {:induction false} FoldIsLastWrite<R>(d: Decoder<R>, db: Database<R>, us: seq<Update>, k: bytes)
    ensures var w := LastWrite(d, us, k); Lookup(Fold(d, db, us), k) == if w.Some? then w.value else Lookup(db, k)
    decreases |us|
  {
    hide ChangeOf;
    if us != [] { FoldIsLastWrite(d, Do(db, ChangeOf(d, us[0])), us[1..], k); }
  }

  predicate Settled<R(==)>(d: Decoder<R>, db: Database<R>, us: seq<Update>, k: bytes) {
    var w := LastWrite(d, us, k);
    w.Some? ==> w.value == Lookup(db, k)
  }

  /** Every key that the updates touch ends up as it is. */
  ghost predicate Redundant<R(!new)>(d: Decoder<R>, db: Database<R>, us: seq<Update>) {
    forall k: bytes :: Settled(d, db, us, k)
  }

  lemma FoldUnchanged<R(!new)>(d: Decoder<R>, db: Database<R>, us: seq<Update>)
    ensures Fold(d, db, us) == db <==> Redundant(d, db, us)
  {
    hide Fold, LastWrite;
    forall k: bytes
      ensures Settled(d, db, us, k) <==> Lookup(Fold(d, db, us), k) == Lookup(db, k)
    {
      FoldIsLastWrite(d, db, us, k);
    }
    if Redundant(d, db, us) {
      forall k: bytes
        ensures Lookup(Fold(d, db, us), k) == Lookup(db, k)
      {
        assert Settled(d, db, us, k);
      }
      SameLookups(Fold(d, db, us), db);
    }
  }

  lemma FoldOne<R>(d: Decoder<R>, db: Database<R>, u: Update)
    ensures Fold(d, db, [u]) == Do(db, ChangeOf(d, u))
  {
    hide ChangeOf, Do;
    assert [u][1..] == [];
  }

  /** The serials that logging assigns do not matter to the database. */
  lemma {:induction false} FoldAppended<R>(d: Decoder<R>, base: Database<R>, m: Master, us: seq<Update>)
    requires |m.all| + |us| < TWO32
    ensures Fold(d, base, Appended(m, us).all) == Fold(d, Fold(d, base, m.all), us)
    decreases |us|
  {
    hide Do;
    if us != [] {
      var u := us[0].(serial := |m.all| + 1);
      FoldAppended(d, base, Logged(m, us[0]), us[1..]);
      FoldConcat(d, base, m.all, [u]);
      FoldOne(d, Fold(d, base, m.all), u);
      assert ChangeOf(d, u) == ChangeOf(d, us[0]);
    }
  }

  /** After any run of polls, failures, resets and resynchronizations, a
      successful poll leaves the database of the whole log. It is the database
      of the new cursor exactly when the last thing that the master logs for
      each key while it answers is what the key already had. */
  lemma Converges<R(!new)>(d: Decoder<R>, base: Database<R>, s0: System<R>, events: seq<Event>, states: seq<System<R>>,
                           during: seq<Update>, t: System<R>)
    requires Seeded(d, base, s0) && Run(d, base, s0, events, states)
    requires var s := Final(s0, states);
             && ValidMaster(s.master) && |s.master.all| + |during| < TWO32
             && Next(d, base, s, PollSucceeds(during), t)
    ensures t.db == Fold(d, base, t.master.all)
    ensures t.cursor.sno <= |t.master.all|
    ensures t.db == At(d, base, t.master.all, t.cursor.sno)
       <==> Redundant(d, Fold(d, base, Final(s0, states).master.all), during)
  {
    hide Inv, Next, Run, Fold, Appended, Redundant;
    SeededInv(d, base, s0);
    RunInv(d, base, s0, events, states);
    var s := Final(s0, states);
    Synchronizes(d, base, s, during, t);
    AppendedIs(s.master, during);
    PollMaster(d, base, s, during, t);
    assert t.master.all[..t.cursor.sno] == s.master.all;
    FoldAppended(d, base, s.master, during);
    FoldUnchanged(d, Fold(d, base, s.master.all), during);
  }

  lemma PollMaster<R(!new)>(d: Decoder<R>, base: Database<R>, s: System<R>, during: seq<Update>, t: System<R>)
    requires ValidMaster(s.master) && |s.master.all| + |during| < TWO32 && Next(d, base, s, PollSucceeds(during), t)
    ensures t.master == Appended(s.master, during)
  {
  }

  /** What is logged between the two reads is applied although the new cursor
      does not cover it. */
  lemma OutrunsCursor<R(!new)>(d: Decoder<R>, base: Database<R>, a: Update, b: Update)
    requires a.serial == 1 && b.serial == 2 && ChangeOf(d, b).Put?
    requires Lookup(Fold(d, base, [a]), ChangeOf(d, b).key) != Some(ChangeOf(d, b).record)
    ensures var s, t := System(Master([a], 1, 2, false), base, Last(0, NO_TIME)),
                        System(Master([a, b], 2, 2, false), Fold(d, base, [a, b]), Last(1, a.time));
            Next(d, base, s, PollSucceeds([b]), t) && t.db != At(d, base, t.master.all, t.cursor.sno)
  {
    hide Effect;
    var m := Master([a], 1, 2, false);
    assert [a] + [b] == [a, b];
    assert Appended(m, [b]) == Logged(m, b) == Master([a, b], 2, 2, false) by { assert [b][1..] == []; }
    FoldConcat(d, base, [a], [b]);
    assert Fold(d, Fold(d, base, [a]), [b]) == Do(Fold(d, base, [a]), ChangeOf(d, b)) by { assert [b][1..] == []; }
    assert [a, b][..1] == [a];
  }

  /** A replica told that there is nothing new is up to date. */
  lemma NilIsSynchronized<R(!new)>(d: Decoder<R>, base: Database<R>, s: System<R>)
    requires Inv(d, base, s) && Entries(s.master, s.cursor).status == UPDATE_NIL
    ensures s.db == Fold(d, base, s.master.all) && s.cursor.sno == |s.master.all|
  {
    hide Lagging, Fold;
    ReplayAll(d, base, s.master.all, s.cursor.sno, s.db);
    assert s.master.all[|s.master.all|..] == [];
    FoldNothing(d, s.db);
  }

  lemma FoldNothing<R>(d: Decoder<R>, db: Database<R>)
    ensures Fold(d, db, []) == db
  {
  }
}
