/** The AP replay cache, which forgets lazily, against one that never forgets. */
module ReplayCache {
  import opened Bytes

  const SECOND: int := 1_000_000_000

  /** Times and skews are nanoseconds; the zero time marks a cache that was never
      swept. */
  type Key = bytes

  predicate WithinSkew(value: int, now: int, skew: int) {
    var difference := value - now;
    (if difference < 0 then -difference else difference) <= skew
  }

  datatype Cache = Cache(entries: map<Key, int>, lastSweep: int, sweepCount: nat)

  const EMPTY := Cache(map[], 0, 0)

  /** sweepReplayCache does nothing within a second of the last sweep, nor while
      the cache has not grown since. */
  predicate SweepDue(c: Cache, now: int) {
    !(c.lastSweep != 0 && now - c.lastSweep < SECOND) && !(c.lastSweep != 0 && |c.entries| <= c.sweepCount)
  }

  function Fresh(entries: map<Key, int>, now: int, skew: int): (r: map<Key, int>) {
    map k | k in entries && WithinSkew(entries[k], now, skew) :: entries[k]
  }

  function Swept(c: Cache, now: int, skew: int): (r: Cache) {
    if !SweepDue(c, now) then c
    else
      var left := Fresh(c.entries, now, skew);
      Cache(left, now, |left|)
  }

  datatype Decision = Accepted | Replayed | Skewed

  /** The check after the sweep: by the skew first, then by the cache. */
  function Check(c: Cache, key: Key, ctime: int, now: int, skew: int): (r: (Cache, Decision)) {
    if !WithinSkew(ctime, now, skew) then (c, Skewed)
    else if key in c.entries then (c, Replayed)
    else (c.(entries := c.entries[key := ctime]), Accepted)
  }

  /** The same check with a cache that keeps every key. */
  function Remember(seen: set<Key>, key: Key, ctime: int, now: int, skew: int): (r: (set<Key>, Decision)) {
    if !WithinSkew(ctime, now, skew) then (seen, Skewed)
    else if key in seen then (seen, Replayed)
    else (seen + {key}, Accepted)
  }

  /** Requests sweep and check in two separate steps, which may interleave. */
  datatype Event = Sweep(now: int, skew: int) | Verify(key: Key, now: int, skew: int)

  /** The authenticator's time is determined by the key, which is a digest of its
      encryption. */
  type Stamps = Key -> int

  function LazyRun(c: Cache, stamp: Stamps, events: seq<Event>): (r: seq<Decision>)
    decreases |events|
  {
    if events == [] then []
    else
      match events[0]
      case Sweep(now, skew) => LazyRun(Swept(c, now, skew), stamp, events[1..])
      case Verify(key, now, skew) =>
        var (next, d) := Check(c, key, stamp(key), now, skew);
        [d] + LazyRun(next, stamp, events[1..])
  }

  function FullRun(seen: set<Key>, stamp: Stamps, events: seq<Event>): (r: seq<Decision>)
    decreases |events|
  {
    if events == [] then []
    else
      match events[0]
      case Sweep(_, _) => FullRun(seen, stamp, events[1..])
      case Verify(key, now, skew) =>
        var (next, d) := Remember(seen, key, stamp(key), now, skew);
        [d] + FullRun(next, stamp, events[1..])
  }

  /** Neither end of the window of acceptable times moves back. */
  predicate Forward(events: seq<Event>, low: int, high: int) {
    events == [] ||
    var e := events[0];
    low <= e.now - e.skew && high <= e.now + e.skew && Forward(events[1..], e.now - e.skew, e.now + e.skew)
  }

  /** With one skew this is a clock that does not go back. */
  lemma {:induction false} SteadyClockForward(events: seq<Event>, skew: int, now: int)
    requires forall i | 0 <= i < |events| :: events[i].skew == skew && now <= events[i].now
    requires forall i, j | 0 <= i < j < |events| :: events[i].now <= events[j].now
    ensures Forward(events, now - skew, now + skew)
    decreases |events|
  {
    if events != [] {
      var rest := events[1..];
      forall i | 0 <= i < |rest| ensures rest[i].skew == skew && events[0].now <= rest[i].now { assert rest[i] == events[i + 1]; }
      forall i, j | 0 <= i < j < |rest| ensures rest[i].now <= rest[j].now { assert rest[i] == events[i + 1] && rest[j] == events[j + 1]; }
      SteadyClockForward(rest, skew, events[0].now);
    }
  }

  /** What was forgotten is too old to be accepted again. */
  ghost predicate Faithful(c: Cache, seen: set<Key>, stamp: Stamps, low: int, high: int) {
    && (forall k | k in c.entries :: k in seen && c.entries[k] == stamp(k))
    && (forall k | k in seen :: stamp(k) <= high && (k in c.entries || stamp(k) < low))
  }

  lemma SweepFaithful(c: Cache, seen: set<Key>, stamp: Stamps, low: int, high: int, now: int, skew: int)
    requires Faithful(c, seen, stamp, low, high) && low <= now - skew && high <= now + skew
    ensures Faithful(Swept(c, now, skew), seen, stamp, now - skew, now + skew)
  {
    var r := Swept(c, now, skew);
    forall k | k in seen
      ensures stamp(k) <= now + skew && (k in r.entries || stamp(k) < now - skew)
    {
    }
  }

  lemma CheckFaithful(c: Cache, seen: set<Key>, stamp: Stamps, low: int, high: int, key: Key, now: int, skew: int)
    requires Faithful(c, seen, stamp, low, high) && low <= now - skew && high <= now + skew
    ensures Check(c, key, stamp(key), now, skew).1 == Remember(seen, key, stamp(key), now, skew).1
    ensures Faithful(Check(c, key, stamp(key), now, skew).0, Remember(seen, key, stamp(key), now, skew).0, stamp, now - skew, now + skew)
  {
  }

  /** The lazily swept cache decides like the one that never forgets. */
  lemma {:induction false} LazyIsFull(c: Cache, seen: set<Key>, stamp: Stamps, events: seq<Event>, low: int, high: int)
    requires Faithful(c, seen, stamp, low, high) && Forward(events, low, high)
    ensures LazyRun(c, stamp, events) == FullRun(seen, stamp, events)
    decreases |events|
  {
    hide Faithful, Swept, Check, Remember;
    if events != [] {
      match events[0] {
        case Sweep(now, skew) =>
          SweepFaithful(c, seen, stamp, low, high, now, skew);
          LazyIsFull(Swept(c, now, skew), seen, stamp, events[1..], now - skew, now + skew);
        case Verify(key, now, skew) =>
          CheckFaithful(c, seen, stamp, low, high, key, now, skew);
          LazyIsFull(Check(c, key, stamp(key), now, skew).0, Remember(seen, key, stamp(key), now, skew).0, stamp, events[1..],
                     now - skew, now + skew);
      }
    }
  }

  /** From an empty cache. */
  lemma LazyDecisions(stamp: Stamps, events: seq<Event>, low: int, high: int)
    requires Forward(events, low, high)
    ensures LazyRun(EMPTY, stamp, events) == FullRun({}, stamp, events)
  {
    LazyIsFull(EMPTY, {}, stamp, events, low, high);
  }

  // ----- exactly when forgetting matters

  /** A key that a sweep dropped is presented again within the window. */
  predicate Recalled(c: Cache, gone: set<Key>, stamp: Stamps, events: seq<Event>)
    decreases |events|
  {
    events != [] &&
    match events[0]
    case Sweep(now, skew) =>
      var r := Swept(c, now, skew);
      Recalled(r, gone + (c.entries.Keys - r.entries.Keys), stamp, events[1..])
    case Verify(key, now, skew) =>
      (key in gone && WithinSkew(stamp(key), now, skew))
      || Recalled(Check(c, key, stamp(key), now, skew).0, gone, stamp, events[1..])
  }

  lemma SweepShrinks(c: Cache, now: int, skew: int)
    ensures Swept(c, now, skew).entries.Keys <= c.entries.Keys
  {
    hide WithinSkew, SweepDue;
  }

  lemma SweepSplits(c: Cache, gone: set<Key>, now: int, skew: int)
    requires gone !! c.entries.Keys
    ensures var r := Swept(c, now, skew); var left := gone + (c.entries.Keys - r.entries.Keys);
            left !! r.entries.Keys && r.entries.Keys + left == c.entries.Keys + gone
  {
    hide Swept;
    SweepShrinks(c, now, skew);
  }

  lemma CheckSplits(c: Cache, gone: set<Key>, key: Key, ctime: int, now: int, skew: int)
    requires gone !! c.entries.Keys
    ensures var (next, d) := Check(c, key, ctime, now, skew);
            var (more, f) := Remember(c.entries.Keys + gone, key, ctime, now, skew);
            && (d == f <==> !(key in gone && WithinSkew(ctime, now, skew)))
            && (d == f ==> gone !! next.entries.Keys && more == next.entries.Keys + gone)
  {
    hide WithinSkew;
    var (next, d) := Check(c, key, ctime, now, skew);
    if d == Accepted { assert next.entries.Keys == c.entries.Keys + {key}; }
  }

  lemma ConsDiffers(d: Decision, s: seq<Decision>, f: Decision, t: seq<Decision>)
    ensures [d] + s == [f] + t <==> d == f && s == t
  {
    assert ([d] + s)[0] == d && ([f] + t)[0] == f && ([d] + s)[1..] == s && ([f] + t)[1..] == t;
  }

  lemma {:induction false} DiffersWhenRecalled(c: Cache, gone: set<Key>, stamp: Stamps, events: seq<Event>)
    requires gone !! c.entries.Keys
    ensures LazyRun(c, stamp, events) == FullRun(c.entries.Keys + gone, stamp, events) <==> !Recalled(c, gone, stamp, events)
    decreases |events|
  {
    hide WithinSkew, Swept, Check, Remember;
    if events != [] {
      match events[0] {
        case Sweep(now, skew) =>
          var r := Swept(c, now, skew);
          SweepSplits(c, gone, now, skew);
          DiffersWhenRecalled(r, gone + (c.entries.Keys - r.entries.Keys), stamp, events[1..]);
        case Verify(key, now, skew) =>
          var (next, d) := Check(c, key, stamp(key), now, skew);
          var (more, f) := Remember(c.entries.Keys + gone, key, stamp(key), now, skew);
          CheckSplits(c, gone, key, stamp(key), now, skew);
          ConsDiffers(d, LazyRun(next, stamp, events[1..]), f, FullRun(more, stamp, events[1..]));
          if d == f { DiffersWhenRecalled(next, gone, stamp, events[1..]); }
      }
    }
  }

  /** For any clock, the swept cache decides like the one that never forgets
      exactly when no key that a sweep dropped is presented again within the
      window. */
  lemma LazyExact(stamp: Stamps, events: seq<Event>)
    ensures LazyRun(EMPTY, stamp, events) == FullRun({}, stamp, events) <==> !Recalled(EMPTY, {}, stamp, events)
  {
    assert EMPTY.entries.Keys + {} == {};
    DiffersWhenRecalled(EMPTY, {}, stamp, events);
  }

  // ----- no authenticator is accepted twice

  function KeysOf(events: seq<Event>): (r: seq<Key>) {
    if events == [] then [] else (if events[0].Verify? then [events[0].key] else []) + KeysOf(events[1..])
  }

  lemma {:induction false} SameLength(seen: set<Key>, stamp: Stamps, events: seq<Event>)
    ensures |FullRun(seen, stamp, events)| == |KeysOf(events)|
    decreases |events|
  {
    if events != [] {
      match events[0]
      case Sweep(_, _) => SameLength(seen, stamp, events[1..]);
      case Verify(key, now, skew) => SameLength(Remember(seen, key, stamp(key), now, skew).0, stamp, events[1..]);
    }
  }

  lemma {:induction false} SeenNotAccepted(seen: set<Key>, stamp: Stamps, events: seq<Event>, j: nat)
    requires |FullRun(seen, stamp, events)| == |KeysOf(events)| && j < |KeysOf(events)| && KeysOf(events)[j] in seen
    ensures FullRun(seen, stamp, events)[j] != Accepted
    decreases |events|
  {
    match events[0]
    case Sweep(_, _) =>
      assert KeysOf(events) == KeysOf(events[1..]);
      SeenNotAccepted(seen, stamp, events[1..], j);
    case Verify(key, now, skew) =>
      var next := Remember(seen, key, stamp(key), now, skew).0;
      SameLength(next, stamp, events[1..]);
      if j > 0 { SeenNotAccepted(next, stamp, events[1..], j - 1); }
  }

  lemma {:induction false} FullAcceptsOnce(seen: set<Key>, stamp: Stamps, events: seq<Event>, i: nat, j: nat)
    requires |FullRun(seen, stamp, events)| == |KeysOf(events)| && i < j < |KeysOf(events)|
    requires KeysOf(events)[i] == KeysOf(events)[j] && FullRun(seen, stamp, events)[i] == Accepted
    ensures FullRun(seen, stamp, events)[j] != Accepted
    decreases |events|
  {
    match events[0]
    case Sweep(_, _) =>
      assert KeysOf(events) == KeysOf(events[1..]);
      FullAcceptsOnce(seen, stamp, events[1..], i, j);
    case Verify(key, now, skew) =>
      var next := Remember(seen, key, stamp(key), now, skew).0;
      SameLength(next, stamp, events[1..]);
      if i > 0 {
        FullAcceptsOnce(next, stamp, events[1..], i - 1, j - 1);
      } else {
        SeenNotAccepted(next, stamp, events[1..], j - 1);
      }
  }

  /** In no run is the same authenticator accepted twice. */
  lemma AcceptedOnce(stamp: Stamps, events: seq<Event>, low: int, high: int, i: nat, j: nat)
    requires Forward(events, low, high) && i < j < |KeysOf(events)| && KeysOf(events)[i] == KeysOf(events)[j]
    ensures |LazyRun(EMPTY, stamp, events)| == |KeysOf(events)|
    ensures !(LazyRun(EMPTY, stamp, events)[i] == Accepted && LazyRun(EMPTY, stamp, events)[j] == Accepted)
  {
    LazyDecisions(stamp, events, low, high);
    SameLength({}, stamp, events);
    if FullRun({}, stamp, events)[i] == Accepted { FullAcceptsOnce({}, stamp, events, i, j); }
  }

  /** One request: it sweeps and then checks. */
  function Request(key: Key, now: int, skew: int): (r: seq<Event>) { [Sweep(now, skew), Verify(key, now, skew)] }

  lemma RequestRun(c: Cache, stamp: Stamps, key: Key, now: int, skew: int, rest: seq<Event>)
    ensures var (next, d) := Check(Swept(c, now, skew), key, stamp(key), now, skew);
            LazyRun(c, stamp, Request(key, now, skew) + rest) == [d] + LazyRun(next, stamp, rest)
  {
    hide Swept, Check;
    var events := Request(key, now, skew) + rest;
    assert events[1..] == [Verify(key, now, skew)] + rest && events[1..][1..] == rest;
  }

  /** When the clock is set back after another request has swept, the same
      authenticator is accepted again: at second ten, at second thirteen and at
      second ten again, with a skew of one second. */
  lemma BackwardClock(key: Key, other: Key, stamp: Stamps)
    requires key != other && stamp(key) == 10 * SECOND && stamp(other) == 13 * SECOND
    ensures LazyRun(EMPTY, stamp,
                    Request(key, 10 * SECOND, SECOND) + (Request(other, 13 * SECOND, SECOND) + Request(key, 10 * SECOND, SECOND)))
         == [Accepted, Accepted, Accepted]
  {
    hide LazyRun;
    var last := Request(key, 10 * SECOND, SECOND);
    RequestRun(EMPTY, stamp, key, 10 * SECOND, SECOND, Request(other, 13 * SECOND, SECOND) + last);
    var c1 := Cache(map[key := 10 * SECOND], 10 * SECOND, 0);
    assert Fresh(map[], 10 * SECOND, SECOND) == map[];
    RequestRun(c1, stamp, other, 13 * SECOND, SECOND, last);
    var c2 := Cache(map[other := 13 * SECOND], 13 * SECOND, 0);
    assert Fresh(c1.entries, 13 * SECOND, SECOND) == map[];
    assert last + [] == last;
    RequestRun(c2, stamp, key, 10 * SECOND, SECOND, []);
    NothingLeft(Check(c2, key, 10 * SECOND, 10 * SECOND, SECOND).0, stamp);
  }

  lemma NothingLeft(c: Cache, stamp: Stamps)
    ensures LazyRun(c, stamp, []) == []
  {
  }

  // ----- the shared cache

  class Shared {
    var entries: map<Key, int>
    var lastSweep: int
    var sweepCount: nat

    constructor ()
      ensures Model() == EMPTY
    {
      entries, lastSweep, sweepCount := map[], 0, 0;
    }

    function Model(): (c: Cache)
      reads this
    {
      Cache(entries, lastSweep, sweepCount)
    }

    method SweepExpired(now: int, skew: int)
      modifies this
      ensures Model() == Swept(old(Model()), now, skew)
    {
      if lastSweep != 0 && now - lastSweep < SECOND { return; }
      if lastSweep != 0 && |entries| <= sweepCount { return; }
      DropExpired(now, skew);
      lastSweep := now;
      sweepCount := |entries|;
    }

    method DropExpired(now: int, skew: int)
      modifies this`entries
      ensures entries == Fresh(old(entries), now, skew)
    {
      hide WithinSkew;
      ghost var before := entries;
      var todo := entries.Keys;
      while todo != {}
        invariant todo <= before.Keys
        invariant forall k :: k in entries <==> k in before && (k in todo || WithinSkew(before[k], now, skew))
        invariant forall k | k in entries :: entries[k] == before[k]
        decreases |todo|
      {
        var key :| key in todo;
        if !WithinSkew(entries[key], now, skew) { entries := entries - {key}; }
        todo := todo - {key};
      }
    }

    /** The replay part of verifying an AP-REQ with the built-in cache; a negative
        skew counts by its size. */
    method VerifyOnce(key: Key, ctime: int, now: int, s: int) returns (d: Decision)
      modifies this
      ensures var skew := if s < 0 then -s else s;
              (Model(), d) == Check(Swept(old(Model()), now, skew), key, ctime, now, skew)
    {
      var skew := s;
      if skew < 0 { skew := -skew; }
      SweepExpired(now, skew);
      if !WithinSkew(ctime, now, skew) { return Skewed; }
      var replayed := key in entries;
      if !replayed { entries := entries[key := ctime]; }
      return if replayed then Replayed else Accepted;
    }
  }

  /** The same through the shared cache. */
  method SetBack(key: Key, other: Key) returns (first: Decision, again: Decision)
    requires key != other
    ensures first == Accepted && again == Accepted
  {
    var cache := new Shared();
    first := cache.VerifyOnce(key, 10 * SECOND, 10 * SECOND, SECOND);
    assert Fresh(map[], 10 * SECOND, SECOND) == map[];
    assert cache.entries == map[key := 10 * SECOND];
    var between := cache.VerifyOnce(other, 13 * SECOND, 13 * SECOND, SECOND);
    assert Fresh(map[key := 10 * SECOND], 13 * SECOND, SECOND) == map[];
    again := cache.VerifyOnce(key, 10 * SECOND, 10 * SECOND, SECOND);
  }
}
