/** Buffers by position: what the recursive definitions over IOV lists say about
    a buffer at a known index. */
module GssIovPositions {
  import opened Bytes
  import opened GssIov

  lemma {:induction false} PickConcat(a: Iov, b: Iov, t: BufferType)
    ensures Pick(a + b, t) == Pick(a, t) + Pick(b, t)
  {
    hide Body;
    if a == [] {
      assert a + b == b;
    } else {
      assert (a + b)[1..] == a[1..] + b && (a + b)[0] == a[0];
      PickConcat(a[1..], b, t);
    }
  }

  lemma SplitPick(iov: Iov, k: nat, t: BufferType)
    requires k <= |iov|
    ensures Pick(iov, t) == Pick(iov[..k], t) + Pick(iov[k..], t)
  {
    PickConcat(iov[..k], iov[k..], t);
    assert iov[..k] + iov[k..] == iov;
  }

  lemma {:induction false} SplitOrdered(iov: Iov, k: nat)
    requires k <= |iov|
    ensures Ordered(iov) == Ordered(iov[..k]) + Ordered(iov[k..])
    decreases k
  {
    if k == 0 {
      assert iov[0..] == iov;
    } else {
      SplitOrdered(iov[1..], k - 1);
      assert iov[..k][1..] == iov[1..][..k - 1] && iov[1..][k - 1..] == iov[k..];
    }
  }

  /** One more buffer. */
  lemma SnocPick(iov: Iov, k: nat, t: BufferType)
    requires k < |iov|
    ensures Pick(iov[..k + 1], t) == Pick(iov[..k], t) + (if iov[k].typ == t then Body(iov[k]) else [])
  {
    var p := iov[..k + 1];
    SplitPick(p, k, t);
    assert p[..k] == iov[..k] && p[k..] == [iov[k]];
    assert Pick([iov[k]], t) == (if iov[k].typ == t then Body(iov[k]) else []) + Pick([], t) by { assert [iov[k]][1..] == []; }
  }

  lemma SnocOrdered(iov: Iov, k: nat)
    requires k < |iov|
    ensures Ordered(iov[..k + 1]) == Ordered(iov[..k])
                                   + (if iov[k].typ == DATA || iov[k].typ == SIGN_ONLY then Body(iov[k]) else [])
  {
    var p := iov[..k + 1];
    SplitOrdered(p, k);
    assert p[..k] == iov[..k] && p[k..] == [iov[k]];
    assert [iov[k]][1..] == [];
  }

  /** The only buffer of its type. */
  predicate Only(iov: Iov, t: BufferType, i: int) {
    0 <= i < |iov| && iov[i].typ == t && forall j | 0 <= j < |iov| && j != i :: iov[j].typ != t
  }

  lemma {:induction false} NoneCounted(iov: Iov, t: BufferType)
    ensures Count(iov, t) == 0 <==> forall j | 0 <= j < |iov| :: iov[j].typ != t
    ensures Count(iov, t) == 0 ==> Pick(iov, t) == []
  {
    if iov != [] {
      NoneCounted(iov[1..], t);
      assert forall j | 1 <= j < |iov| :: iov[j] == iov[1..][j - 1];
    }
  }

  lemma {:induction false} OnlyOne(iov: Iov, t: BufferType, i: int)
    requires Only(iov, t, i)
    ensures Count(iov, t) == 1 && Pick(iov, t) == Body(iov[i])
    decreases |iov|
  {
    assert forall j | 1 <= j < |iov| :: iov[j] == iov[1..][j - 1];
    if i == 0 {
      NoneCounted(iov[1..], t);
    } else {
      OnlyOne(iov[1..], t, i - 1);
    }
  }

  lemma {:induction false} TwoCounted(iov: Iov, t: BufferType, i: int, j: int)
    requires 0 <= i < j < |iov| && iov[i].typ == iov[j].typ == t
    ensures Count(iov, t) >= 2
    decreases |iov|
  {
    if i == 0 {
      NoneCounted(iov[1..], t);
      assert iov[1..][j - 1].typ == t;
    } else {
      TwoCounted(iov[1..], t, i - 1, j - 1);
    }
  }

  lemma {:induction false} PutAt(iov: Iov, t: BufferType, i: int, value: bytes)
    requires Only(iov, t, i)
    ensures Put(iov, t, value) == iov[i := Filled(iov[i], value)]
    decreases |iov|
  {
    if i == 0 {
      PutNowhere(iov[1..], t, value);
    } else {
      assert iov[1..][i - 1] == iov[i];
      PutAt(iov[1..], t, i - 1, value);
    }
  }

  lemma {:induction false} PutNowhere(iov: Iov, t: BufferType, value: bytes)
    requires forall b | b in iov :: b.typ != t
    ensures Put(iov, t, value) == iov
  {
    if iov != [] { PutNowhere(iov[1..], t, value); }
  }

  lemma {:induction false} EmptiedAt(iov: Iov, k: nat)
    requires k < |iov|
    ensures Emptied(iov)[k]
         == if iov[k].typ == PADDING && iov[k].content.Some? then iov[k].(content := Some([])) else iov[k]
  {
    if k > 0 {
      EmptiedAt(iov[1..], k - 1);
      assert Emptied(iov)[k] == Emptied(iov[1..])[k - 1];
    }
  }

  // ----- offsets into the distributed data

  /** The size of the DATA buffers before position k. */
  function Offset(iov: Iov, k: nat): (n: nat)
    requires k <= |iov|
  {
    if k == 0 then 0 else Offset(iov, k - 1) + if iov[k - 1].typ == DATA then |Body(iov[k - 1])| else 0
  }

  /** The number of un-sized DATA buffers before position k. */
  function Nils(iov: Iov, k: nat): (n: nat)
    requires k <= |iov|
  {
    if k == 0 then 0 else Nils(iov, k - 1) + if iov[k - 1].typ == DATA && iov[k - 1].content.None? then 1 else 0
  }

  lemma {:induction false} OffsetTail(iov: Iov, k: nat)
    requires 1 <= k <= |iov|
    ensures Offset(iov, k) == Offset(iov[1..], k - 1) + if iov[0].typ == DATA then |Body(iov[0])| else 0
    ensures Nils(iov, k) == Nils(iov[1..], k - 1) + if iov[0].typ == DATA && iov[0].content.None? then 1 else 0
    decreases k
  {
    if k > 1 { OffsetTail(iov, k - 1); }
  }

  lemma {:induction false} OffsetTotal(iov: Iov)
    ensures Offset(iov, |iov|) == |Pick(iov, DATA)| && Nils(iov, |iov|) == Unsized(iov)
  {
    if iov != [] {
      OffsetTail(iov, |iov|);
      OffsetTotal(iov[1..]);
    }
  }

  lemma {:induction false} OffsetGrows(iov: Iov, j: nat, k: nat)
    requires j <= k <= |iov|
    ensures Offset(iov, j) <= Offset(iov, k) && Nils(iov, j) <= Nils(iov, k)
    decreases k
  {
    if j < k { OffsetGrows(iov, j, k - 1); }
  }

  /** What distributeIOV puts at position k. */
  function Dealt(b: Buffer, value: bytes, rest: bytes, o: nat): (r: Buffer)
    requires b.typ == DATA ==> o + |Body(b)| <= |value|
  {
    if b.typ != DATA then b
    else if b.content.None? then Filled(b, rest)
    else b.(content := Some(value[o..o + |Body(b)|]))
  }

  lemma DealtLater(b: Buffer, value: bytes, rest: bytes, n: nat, o: nat)
    requires n <= |value| && (b.typ == DATA ==> n + o + |Body(b)| <= |value|)
    ensures Dealt(b, value[n..], rest, o) == Dealt(b, value, rest, n + o)
  {
    if b.typ == DATA { assert value[n..][o..o + |Body(b)|] == value[n + o..n + o + |Body(b)|]; }
  }

  lemma SpreadHead(iov: Iov, value: bytes, rest: bytes)
    requires |Pick(iov, DATA)| <= |value| && iov != []
    ensures iov[0].typ == DATA ==> |Body(iov[0])| <= |value|
    ensures Spread(iov, value, rest)[0] == Dealt(iov[0], value, rest, 0)
  {
    if iov[0].typ == DATA { assert value[0..|Body(iov[0])|] == value[..|Body(iov[0])|]; }
  }

  lemma SpreadTail(iov: Iov, value: bytes, rest: bytes, k: nat)
    requires |Pick(iov, DATA)| <= |value| && 0 < k < |iov|
    ensures var n := if iov[0].typ == DATA then |Body(iov[0])| else 0;
            && n <= |value| && |Pick(iov[1..], DATA)| <= |value[n..]|
            && Spread(iov, value, rest)[k] == Spread(iov[1..], value[n..], rest)[k - 1]
  {
    if iov[0].typ != DATA { assert value[0..] == value; }
  }

  lemma {:induction false} SpreadAt(iov: Iov, value: bytes, rest: bytes, k: nat)
    requires |Pick(iov, DATA)| <= |value| && k < |iov|
    ensures iov[k].typ == DATA ==> Offset(iov, k) + |Body(iov[k])| <= |value|
    ensures Spread(iov, value, rest)[k] == Dealt(iov[k], value, rest, Offset(iov, k))
    decreases k
  {
    hide Spread, Pick, Dealt, Body, Nils, Unsized;
    if k == 0 {
      SpreadHead(iov, value, rest);
    } else {
      var n := if iov[0].typ == DATA then |Body(iov[0])| else 0;
      OffsetTail(iov, k);
      SpreadTail(iov, value, rest, k);
      SpreadAt(iov[1..], value[n..], rest, k - 1);
      DealtLater(iov[k], value, rest, n, Offset(iov[1..], k - 1));
    }
  }

  lemma {:induction false} NoSignOnly(iov: Iov)
    requires Count(iov, SIGN_ONLY) == 0
    ensures Pick(iov, SIGN_ONLY) == [] && Ordered(iov) == Pick(iov, DATA)
  {
    if iov != [] { NoSignOnly(iov[1..]); }
  }

  lemma OnlyHolds(iov: Iov, t: BufferType, i: int, n: nat)
    requires Only(iov, t, i)
    ensures Holds(iov, t, n) <==> iov[i].content.None? || n <= iov[i].capacity
  {
    assert iov[i] in iov;
    forall b | b in iov && b.typ == t
      ensures b == iov[i]
    {
      var j :| 0 <= j < |iov| && iov[j] == b;
      assert j == i;
    }
  }

  lemma {:induction false} SpreadTypes(iov: Iov, value: bytes, rest: bytes)
    requires |Pick(iov, DATA)| <= |value|
    ensures forall j | 0 <= j < |iov| :: Spread(iov, value, rest)[j].typ == iov[j].typ
  {
    forall j | 0 <= j < |iov|
      ensures Spread(iov, value, rest)[j].typ == iov[j].typ
    {
      SpreadAt(iov, value, rest, j);
    }
  }

  lemma OnlyAfterSpread(iov: Iov, value: bytes, t: BufferType, i: int)
    requires Only(iov, t, i) && t != DATA && Distribute(iov, value).Some?
    ensures Only(Distribute(iov, value).value, t, i)
  {
    SpreadTypes(iov, value, value[|Pick(iov, DATA)|..]);
  }

  lemma PaddingOnly(before: Iov, first: Iov, spread: Iov, last: Iov, header: bytes, value: bytes, trailer: bytes, p: int)
    requires At(before, PADDING, p) && first == Put(before, HEADER, header)
    requires Distribute(first, value) == Some(spread) && last == Put(spread, TRAILER, trailer)
    ensures Emptied(last) == if p >= 0 && last[p].content.Some? then last[p := last[p].(content := Some([]))] else last
  {
    SpreadTypes(first, value, value[|Pick(first, DATA)|..]);
    forall j | 0 <= j < |last|
      ensures last[j].typ == before[j].typ
    {
      PutTypes(before, HEADER, header, j);
      PutTypes(spread, TRAILER, trailer, j);
    }
    forall j | 0 <= j < |last|
      ensures Emptied(last)[j] == if j == p && last[p].content.Some? then last[p].(content := Some([])) else last[j]
    {
      EmptiedAt(last, j);
    }
  }

  lemma {:induction false} PutTypes(iov: Iov, t: BufferType, value: bytes, k: nat)
    requires k < |iov|
    ensures Put(iov, t, value)[k].typ == iov[k].typ
  {
    if k > 0 {
      PutTypes(iov[1..], t, value, k - 1);
      assert Put(iov, t, value)[k] == Put(iov[1..], t, value)[k - 1];
    }
  }

  // ----- layouts

  /** The position of the only buffer of a type, or -1. */
  predicate At(iov: Iov, t: BufferType, i: int) {
    (i == -1 && forall j | 0 <= j < |iov| :: iov[j].typ != t) || Only(iov, t, i)
  }

  lemma AtStep(iov: Iov, t: BufferType, i: int, k: nat)
    requires k < |iov| && At(iov[..k], t, i)
    ensures iov[k].typ != t ==> At(iov[..k + 1], t, i)
    ensures iov[k].typ == t && i == -1 ==> At(iov[..k + 1], t, k)
    ensures iov[k].typ == t && i != -1 ==> Count(iov, t) >= 2
  {
    if iov[k].typ == t && i != -1 { TwoCounted(iov, t, i, k); }
  }

  /** Positions of buffers of a type, none only if there is none. */
  predicate Lists(iov: Iov, t: BufferType, at: seq<nat>) {
    (forall d | d in at :: d < |iov| && iov[d].typ == t) &&
    (at == [] ==> forall j | 0 <= j < |iov| :: iov[j].typ != t)
  }

  lemma ListsStep(iov: Iov, t: BufferType, at: seq<nat>, k: nat)
    requires k < |iov| && Lists(iov[..k], t, at)
    ensures Lists(iov[..k + 1], t, if iov[k].typ == t then at + [k] else at)
  {
  }

  lemma ListsCount(iov: Iov, t: BufferType, at: seq<nat>)
    requires Lists(iov, t, at)
    ensures Count(iov, t) > 0 <==> at != []
  {
    NoneCounted(iov, t);
    if at != [] { assert at[0] in at; }
  }

  /** iovLayout. */
  datatype Layout = Layout(header: int, padding: int, trailer: int, stream: int, data: seq<nat>, signOnly: seq<nat>)

  predicate Describes(l: Layout, iov: Iov) {
    && At(iov, HEADER, l.header) && At(iov, PADDING, l.padding) && At(iov, TRAILER, l.trailer)
    && At(iov, STREAM, l.stream) && Lists(iov, DATA, l.data) && Lists(iov, SIGN_ONLY, l.signOnly)
    && Lists(iov, UNKNOWN, [])
  }

  /** One round of parseIOV's loop. */
  function Noted(l: Layout, t: BufferType, k: nat): (r: Option<Layout>) {
    match t
    case HEADER => if l.header >= 0 then None else Some(l.(header := k))
    case DATA => Some(l.(data := l.data + [k]))
    case PADDING => if l.padding >= 0 then None else Some(l.(padding := k))
    case TRAILER => if l.trailer >= 0 then None else Some(l.(trailer := k))
    case SIGN_ONLY => Some(l.(signOnly := l.signOnly + [k]))
    case STREAM => if l.stream >= 0 then None else Some(l.(stream := k))
    case UNKNOWN => None
  }

  lemma NotedDescribes(l: Layout, iov: Iov, k: nat)
    requires k < |iov| && Describes(l, iov[..k])
    ensures Noted(l, iov[k].typ, k).Some? ==> Describes(Noted(l, iov[k].typ, k).value, iov[..k + 1])
    ensures Noted(l, iov[k].typ, k).None? ==> !AtMostOnce(iov)
  {
    AtStep(iov, HEADER, l.header, k);
    AtStep(iov, PADDING, l.padding, k);
    AtStep(iov, TRAILER, l.trailer, k);
    AtStep(iov, STREAM, l.stream, k);
    ListsStep(iov, DATA, l.data, k);
    ListsStep(iov, SIGN_ONLY, l.signOnly, k);
    ListsStep(iov, UNKNOWN, [], k);
    if iov[k].typ == UNKNOWN { NoneCounted(iov, UNKNOWN); }
  }

  lemma AtCount(iov: Iov, t: BufferType, i: int)
    requires At(iov, t, i)
    ensures Count(iov, t) == (if i >= 0 then 1 else 0)
    ensures Pick(iov, t) == if i >= 0 then Body(iov[i]) else []
  {
    if i >= 0 { OnlyOne(iov, t, i); } else { NoneCounted(iov, t); }
  }

  lemma LayoutCounts(l: Layout, iov: Iov)
    requires Describes(l, iov)
    ensures AtMostOnce(iov)
    ensures WrapLayout(iov) <==> l.stream < 0 && l.header >= 0 && l.trailer >= 0 && l.data != []
    ensures StreamLayout(iov) <==> && l.stream >= 0 && l.header < 0 && l.trailer < 0 && l.padding < 0
                                   && l.data == [] && l.signOnly == []
    ensures Count(iov, SIGN_ONLY) > 0 <==> l.signOnly != []
  {
    AtCount(iov, HEADER, l.header);
    AtCount(iov, PADDING, l.padding);
    AtCount(iov, TRAILER, l.trailer);
    AtCount(iov, STREAM, l.stream);
    ListsCount(iov, DATA, l.data);
    ListsCount(iov, SIGN_ONLY, l.signOnly);
    ListsCount(iov, UNKNOWN, []);
  }
}
