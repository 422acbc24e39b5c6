/** Chasing referrals for a service ticket, against any KDC. */
module Tgs {
  import opened Bytes

  type Realm = bytes

  /** A KDC's answer to a service ticket request: none that can be used, an error
      message, the ticket, or a referral; a referral names the next realm unless
      its ticket is malformed. */
  datatype Answer = Unusable | Refused | Ticket | Referral(next: Option<Realm>)

  /** All the answers of the KDCs, by the number of the request, and what looking
      up the service's realm gives. Whether a realm equals another ignoring case
      is left to `same`. */
  datatype World = World(crosses: nat -> bool, answers: nat -> Answer, lookup: Lookup, same: (Realm, Realm) -> bool)
  datatype Lookup = LookupFails | NoRealm | Found(realm: Realm)

  datatype Outcome = Granted | Denied | Failed | Unresolved

  const MAX_HOPS: nat := 10
  const MAX_PATH: nat := 11

  /** The requests of the referral loop, by the realm asked, and how it ends;
      Unresolved when the first answer is an error in referral mode. */
  function Chase(w: World, referral: bool, i: nat, hops: nat, realm: Realm, visited: set<Realm>): (r: (Outcome, seq<Realm>))
    requires hops <= MAX_HOPS + 1
    decreases MAX_HOPS + 1 - hops
  {
    if realm in visited || hops > MAX_HOPS then (Failed, [])
    else
      match w.answers(i)
      case Unusable => (Failed, [realm])
      case Refused => (if referral && hops == 0 then Unresolved else Denied, [realm])
      case Ticket => (Granted, [realm])
      case Referral(next) =>
        if hops >= MAX_HOPS || next.None? || next.value == [] then (Failed, [realm])
        else
          var (o, rest) := Chase(w, referral, i + 1, hops + 1, next.value, visited + {realm});
          (o, [realm] + rest)
  }

  /** The requests for cross-realm tickets along a path, and whether its end was
      reached. */
  function Walk(w: World, i: nat, current: Realm, rest: seq<Realm>): (r: (bool, seq<Realm>))
    decreases |rest|
  {
    if rest == [] then (true, [])
    else if rest[0] == [] || w.same(rest[0], current) || !w.crosses(i) then
      (false, if rest[0] == [] || w.same(rest[0], current) then [] else [current])
    else
      var (ok, more) := Walk(w, i + 1, rest[0], rest[1..]);
      (ok, [current] + more)
  }

  /** One attempt: the walk to the service's realm, if it is another one, and the
      chase from there. */
  datatype Attempt = Attempt(outcome: Outcome, walked: seq<Realm>, chased: seq<Realm>)

  function Once(w: World, i: nat, current: Realm, realm: Realm, path: seq<Realm>, referral: bool): (a: Attempt) {
    if current == realm then
      var (o, chased) := Chase(w, referral, i, 0, realm, {});
      Attempt(o, [], chased)
    else if |path| < 2 || |path| > MAX_PATH then Attempt(Failed, [], [])
    else
      var (ok, walked) := Walk(w, i, current, path[1..]);
      if !ok then Attempt(Failed, walked, [])
      else
        var (o, chased) := Chase(w, referral, i + |walked|, 0, path[|path| - 1], {});
        Attempt(o, walked, chased)
  }

  /** A whole exchange: when the service's realm is not known, the ticket's realm
      is asked in referral mode, and on an error the realm is looked up and asked
      once. paths gives the configured path to a realm. */
  datatype Trace = Trace(outcome: Outcome, attempts: seq<Attempt>)

  function Exchange(w: World, home: Realm, service: Option<Realm>, paths: Realm -> seq<Realm>): (t: Trace) {
    match service
    case Some(realm) =>
      var a := Once(w, 0, home, realm, paths(realm), false);
      Trace(a.outcome, [a])
    case None =>
      var a := Once(w, 0, home, home, [], true);
      if a.outcome != Unresolved then Trace(a.outcome, [a])
      else
        match w.lookup
        case LookupFails => Trace(Failed, [a])
        case NoRealm => Trace(Denied, [a])
        case Found(realm) =>
          var b := Once(w, |a.chased|, home, realm, paths(realm), false);
          Trace(b.outcome, [a, b])
  }

  // ----- bounds

  predicate NoRepeats(xs: seq<Realm>) { forall i, j | 0 <= i < j < |xs| :: xs[i] != xs[j] }

  /** A referral loop asks at most eleven times, no realm twice, and none that was
      visited before. */
  lemma {:induction false} ChaseBounded(w: World, referral: bool, i: nat, hops: nat, realm: Realm, visited: set<Realm>)
    requires hops <= MAX_HOPS + 1
    ensures var t := Chase(w, referral, i, hops, realm, visited).1;
            |t| <= MAX_HOPS + 1 - hops && NoRepeats(t) && forall x | x in t :: x !in visited
    decreases MAX_HOPS + 1 - hops
  {
    if realm !in visited && hops < MAX_HOPS && w.answers(i).Referral? && w.answers(i).next.Some? && w.answers(i).next.value != [] {
      var next := w.answers(i).next.value;
      ChaseBounded(w, referral, i + 1, hops + 1, next, visited + {realm});
      var rest := Chase(w, referral, i + 1, hops + 1, next, visited + {realm}).1;
      assert realm !in rest;
      PrependNew(realm, rest);
    }
  }

  lemma PrependNew(x: Realm, xs: seq<Realm>)
    requires NoRepeats(xs) && x !in xs
    ensures NoRepeats([x] + xs)
  {
  }

  /** An error in referral mode comes from the first request. */
  lemma {:induction false} UnresolvedIsFirst(w: World, referral: bool, i: nat, hops: nat, realm: Realm, visited: set<Realm>)
    requires hops <= MAX_HOPS + 1
    ensures var (o, t) := Chase(w, referral, i, hops, realm, visited);
            o == Unresolved ==> referral && hops == 0 && |t| == 1
    decreases MAX_HOPS + 1 - hops
  {
    if hops < MAX_HOPS && w.answers(i).Referral? && w.answers(i).next.Some? {
      UnresolvedIsFirst(w, referral, i + 1, hops + 1, w.answers(i).next.value, visited + {realm});
    }
  }

  lemma {:induction false} WalkBounded(w: World, i: nat, current: Realm, rest: seq<Realm>)
    ensures |Walk(w, i, current, rest).1| <= |rest|
    ensures Walk(w, i, current, rest).0 ==> |Walk(w, i, current, rest).1| == |rest|
    decreases |rest|
  {
    if rest != [] { WalkBounded(w, i + 1, rest[0], rest[1..]); }
  }

  function Requests(attempts: seq<Attempt>): (n: nat) {
    if attempts == [] then 0 else |attempts[0].walked| + |attempts[0].chased| + Requests(attempts[1..])
  }

  lemma OnceBounded(w: World, i: nat, current: Realm, realm: Realm, path: seq<Realm>, referral: bool)
    ensures var a := Once(w, i, current, realm, path, referral);
            && |a.walked| <= MAX_PATH - 1 && |a.chased| <= MAX_HOPS + 1 && NoRepeats(a.chased)
            && (a.outcome == Unresolved ==> referral && |a.chased| == 1)
            && (current == realm ==> a.walked == [])
  {
    hide Chase, Walk;
    if current == realm {
      ChaseBounded(w, referral, i, 0, realm, {});
      UnresolvedIsFirst(w, referral, i, 0, realm, {});
    } else if 2 <= |path| <= MAX_PATH {
      WalkBounded(w, i, current, path[1..]);
      var walked := Walk(w, i, current, path[1..]).1;
      ChaseBounded(w, referral, i + |walked|, 0, path[|path| - 1], {});
      UnresolvedIsFirst(w, referral, i + |walked|, 0, path[|path| - 1], {});
    }
  }

  /** Against any KDC an exchange ends after at most 22 requests, and no referral
      loop in it asks a realm twice. */
  lemma ExchangeBounded(w: World, home: Realm, service: Option<Realm>, paths: Realm -> seq<Realm>)
    ensures var t := Exchange(w, home, service, paths);
            && 1 <= |t.attempts| <= 2 && Requests(t.attempts) <= 22
            && forall a | a in t.attempts :: NoRepeats(a.chased) && |a.chased| <= 11 && |a.walked| <= 10
  {
    hide Once;
    var t := Exchange(w, home, service, paths);
    match service {
      case Some(realm) =>
        OnceBounded(w, 0, home, realm, paths(realm), false);
      case None =>
        OnceBounded(w, 0, home, home, [], true);
        var a := Once(w, 0, home, home, [], true);
        if a.outcome == Unresolved && w.lookup.Found? {
          OnceBounded(w, |a.chased|, home, w.lookup.realm, paths(w.lookup.realm), false);
        }
    }
    CountAttempts(t.attempts);
  }

  lemma CountAttempts(attempts: seq<Attempt>)
    requires 1 <= |attempts| <= 2
    ensures |attempts| == 1 ==> Requests(attempts) == |attempts[0].walked| + |attempts[0].chased|
    ensures |attempts| == 2 ==>
              Requests(attempts) == |attempts[0].walked| + |attempts[0].chased| + |attempts[1].walked| + |attempts[1].chased|
  {
    if |attempts| == 2 {
      assert Requests(attempts[1..]) == |attempts[1].walked| + |attempts[1].chased| + Requests(attempts[1..][1..]);
    }
  }

  /** The ticket comes from the realm asked last, and every realm before it
      referred to the next one. */
  lemma {:induction false} GrantedByLast(w: World, referral: bool, i: nat, hops: nat, realm: Realm, visited: set<Realm>, k: nat)
    requires hops <= MAX_HOPS + 1 && Chase(w, referral, i, hops, realm, visited).0 == Granted
    requires k < |Chase(w, referral, i, hops, realm, visited).1|
    ensures var t := Chase(w, referral, i, hops, realm, visited).1;
            t[0] == realm && w.answers(i + k) == if k + 1 < |t| then Referral(Some(t[k + 1])) else Ticket
    decreases MAX_HOPS + 1 - hops
  {
    if w.answers(i).Referral? {
      var next := w.answers(i).next.value;
      var rest := Chase(w, referral, i + 1, hops + 1, next, visited + {realm}).1;
      GrantedAsks(w, referral, i + 1, hops + 1, next, visited + {realm});
      GrantedByLast(w, referral, i + 1, hops + 1, next, visited + {realm}, if k == 0 then 0 else k - 1);
      assert ([realm] + rest)[1..] == rest;
    }
  }

  lemma GrantedAsks(w: World, referral: bool, i: nat, hops: nat, realm: Realm, visited: set<Realm>)
    requires hops <= MAX_HOPS + 1 && Chase(w, referral, i, hops, realm, visited).0 == Granted
    ensures Chase(w, referral, i, hops, realm, visited).1 != []
  {
  }

  // ----- the loops

  /** What has been asked and what is still to come make up the whole. */
  ghost predicate Chasing(all: (Outcome, seq<Realm>), asked: seq<Realm>, more: (Outcome, seq<Realm>)) {
    all == (more.0, asked + more.1)
  }

  lemma ChasingStart(all: (Outcome, seq<Realm>))
    ensures Chasing(all, [], all)
  {
    assert [] + all.1 == all.1;
  }

  lemma ChasingStep(all: (Outcome, seq<Realm>), asked: seq<Realm>, realm: Realm, more: (Outcome, seq<Realm>))
    requires Chasing(all, asked, (more.0, [realm] + more.1))
    ensures Chasing(all, asked + [realm], more)
  {
    assert asked + ([realm] + more.1) == asked + [realm] + more.1;
  }

  lemma ChasingEnd(all: (Outcome, seq<Realm>), asked: seq<Realm>, o: Outcome)
    requires Chasing(all, asked, (o, []))
    ensures all == (o, asked)
  {
    assert asked + [] == asked;
  }

  lemma ChasingLast(all: (Outcome, seq<Realm>), asked: seq<Realm>, realm: Realm, o: Outcome)
    requires Chasing(all, asked, (o, [realm]))
    ensures all == (o, asked + [realm])
  {
  }

  method ChaseReferrals(w: World, referral: bool, start: nat, first: Realm) returns (o: Outcome, asked: seq<Realm>)
    ensures (o, asked) == Chase(w, referral, start, 0, first, {})
  {
    hide Chasing;
    var realm, hops := first, 0;
    var visited: set<Realm> := {};
    asked := [];
    ghost var all := Chase(w, referral, start, 0, first, {});
    ChasingStart(all);
    while true
      invariant 0 <= hops <= MAX_HOPS + 1
      invariant Chasing(all, asked, Chase(w, referral, start + hops, hops, realm, visited))
      decreases MAX_HOPS + 1 - hops
    {
      if realm in visited || hops > MAX_HOPS {
        ChasingEnd(all, asked, Failed);
        return Failed, asked;
      }
      var answer := w.answers(start + hops);
      if answer.Referral? && hops < MAX_HOPS && answer.next.Some? && answer.next.value != [] {
        ChasingStep(all, asked, realm, Chase(w, referral, start + hops + 1, hops + 1, answer.next.value, visited + {realm}));
        asked := asked + [realm];
        visited := visited + {realm};
        realm := answer.next.value;
        hops := hops + 1;
        continue;
      }
      o := match answer
        case Unusable => Failed
        case Refused => if referral && hops == 0 then Unresolved else Denied
        case Ticket => Granted
        case Referral(_) => Failed;
      ChasingLast(all, asked, realm, o);
      return o, asked + [realm];
    }
  }

  method WalkPath(w: World, start: nat, home: Realm, path: seq<Realm>) returns (ok: bool, asked: seq<Realm>)
    requires path != []
    ensures (ok, asked) == Walk(w, start, home, path[1..])
  {
    var current := home;
    asked := [];
    ghost var all := Walk(w, start, home, path[1..]);
    assert all.1 == [] + all.1;
    for hop := 1 to |path|
      invariant |asked| == hop - 1
      invariant all == (Walk(w, start + hop - 1, current, path[hop..]).0, asked + Walk(w, start + hop - 1, current, path[hop..]).1)
    {
      var next := path[hop];
      assert path[hop..][0] == next && path[hop..][1..] == path[hop + 1..];
      if next == [] || w.same(next, current) {
        assert asked + [] == asked;
        return false, asked;
      }
      ghost var more := Walk(w, start + hop, next, path[hop + 1..]);
      assert asked + ([current] + more.1) == asked + [current] + more.1;
      asked := asked + [current];
      if !w.crosses(start + hop - 1) { return false, asked; }
      current := next;
    }
    assert asked + [] == asked;
    return true, asked;
  }

  method ExchangeOnce(w: World, start: nat, current: Realm, realm: Realm, path: seq<Realm>, referral: bool) returns (a: Attempt)
    ensures a == Once(w, start, current, realm, path, referral)
  {
    hide Chase, Walk;
    var target, walked := realm, [];
    if current != realm {
      if |path| < 2 || |path| > MAX_PATH { return Attempt(Failed, [], []); }
      var ok;
      ok, walked := WalkPath(w, start, current, path);
      if !ok { return Attempt(Failed, walked, []); }
      target := path[|path| - 1];
    }
    var o, chased := ChaseReferrals(w, referral, start + |walked|, target);
    return Attempt(o, walked, chased);
  }

  /** tgsExchangeOnce. */
  method TgsExchange(w: World, home: Realm, service: Option<Realm>, paths: Realm -> seq<Realm>) returns (t: Trace)
    ensures t == Exchange(w, home, service, paths)
  {
    hide Once;
    var referral := service.None?;
    var realm := if service.Some? then service.value else home;
    var a := ExchangeOnce(w, 0, home, realm, if referral then [] else paths(realm), referral);
    if !referral || a.outcome != Unresolved { return Trace(a.outcome, [a]); }
    if w.lookup.LookupFails? { return Trace(Failed, [a]); }
    if w.lookup.NoRealm? { return Trace(Denied, [a]); }
    var b := ExchangeOnce(w, |a.chased|, home, w.lookup.realm, paths(w.lookup.realm), false);
    return Trace(b.outcome, [a, b]);
  }
}
