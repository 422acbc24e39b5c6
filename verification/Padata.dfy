/** Moving the preferred preauthentication data to the front. */
module Padata {
  import opened Bytes

  datatype PA = PA(typ: int32, value: bytes)

  /** The position of the first element of a type from some position on. */
  function FirstFrom(s: seq<PA>, i: nat, typ: int32): (r: Option<nat>)
    requires i <= |s|
    ensures r.Some? ==> i <= r.value < |s| && s[r.value].typ == typ && forall k | i <= k < r.value :: s[k].typ != typ
    ensures r.None? ==> forall k | i <= k < |s| :: s[k].typ != typ
    decreases |s| - i
  {
    if i == |s| then None else if s[i].typ == typ then Some(i) else FirstFrom(s, i + 1, typ)
  }

  /** The reference: take the first element of each preferred type in turn out of
      what is left; the rest follows. */
  function Without(s: seq<PA>, i: nat): (r: seq<PA>)
    requires i < |s|
  {
    s[..i] + s[i + 1..]
  }

  function Picked(rest: seq<PA>, preferred: seq<int32>): (r: (seq<PA>, seq<PA>))
    decreases |preferred|
  {
    if preferred == [] then ([], rest)
    else
      match FirstFrom(rest, 0, preferred[0])
      case None => Picked(rest, preferred[1..])
      case Some(i) =>
        var (front, left) := Picked(Without(rest, i), preferred[1..]);
        ([rest[i]] + front, left)
  }

  function Sorted(data: seq<PA>, preferred: seq<int32>): (r: seq<PA>) {
    var (front, left) := Picked(data, preferred);
    front + left
  }

  // ----- what the result is

  lemma WithoutBag(s: seq<PA>, i: nat)
    requires i < |s|
    ensures multiset(s) == multiset{s[i]} + multiset(Without(s, i))
  {
    assert s == s[..i] + [s[i]] + s[i + 1..];
  }

  /** Nothing is lost or added. */
  lemma {:induction false} PickedBag(rest: seq<PA>, preferred: seq<int32>)
    ensures multiset(Picked(rest, preferred).0) + multiset(Picked(rest, preferred).1) == multiset(rest)
    decreases |preferred|
  {
    if preferred != [] {
      match FirstFrom(rest, 0, preferred[0]) {
        case None => PickedBag(rest, preferred[1..]);
        case Some(i) =>
          PickedBag(Without(rest, i), preferred[1..]);
          WithoutBag(rest, i);
          var (front, left) := Picked(Without(rest, i), preferred[1..]);
          assert multiset([rest[i]] + front) == multiset{rest[i]} + multiset(front);
      }
    }
  }

  lemma SortedIsPermutation(data: seq<PA>, preferred: seq<int32>)
    ensures multiset(Sorted(data, preferred)) == multiset(data)
  {
    PickedBag(data, preferred);
  }

  /** A sequence is what is left of another after leaving out elements. */
  ghost predicate Subsequence(a: seq<PA>, b: seq<PA>)
    decreases |b|
  {
    a == [] || (b != [] && (if a[0] == b[0] then Subsequence(a[1..], b[1..]) || Subsequence(a, b[1..]) else Subsequence(a, b[1..])))
  }

  lemma {:induction false} SubsequenceRefl(a: seq<PA>)
    ensures Subsequence(a, a)
  {
    if a != [] { SubsequenceRefl(a[1..]); }
  }

  lemma {:induction false} WithoutSubsequence(s: seq<PA>, i: nat)
    requires i < |s|
    ensures Subsequence(Without(s, i), s)
    decreases i
  {
    if i == 0 {
      assert Without(s, 0) == s[1..];
      SubsequenceRefl(s[1..]);
      Skips(s[1..], s);
    } else {
      WithoutSubsequence(s[1..], i - 1);
      assert Without(s, i)[1..] == Without(s[1..], i - 1) && Without(s, i)[0] == s[0];
    }
  }

  lemma Skips(a: seq<PA>, b: seq<PA>)
    requires b != [] && Subsequence(a, b[1..])
    ensures Subsequence(a, b)
  {
  }

  lemma {:induction false} SubsequenceTrans(a: seq<PA>, b: seq<PA>, c: seq<PA>)
    requires Subsequence(a, b) && Subsequence(b, c)
    ensures Subsequence(a, c)
    decreases |c|, |b|
  {
    if a != [] {
      if b[0] == c[0] && Subsequence(b[1..], c[1..]) {
        if a[0] == b[0] && Subsequence(a[1..], b[1..]) {
          SubsequenceTrans(a[1..], b[1..], c[1..]);
        } else {
          SubsequenceTrans(a, b[1..], c[1..]);
          Skips(a, c);
        }
      } else {
        SubsequenceTrans(a, b, c[1..]);
        Skips(a, c);
      }
    }
  }

  /** The rest keeps its order. */
  lemma {:induction false} RestInOrder(rest: seq<PA>, preferred: seq<int32>)
    ensures Subsequence(Picked(rest, preferred).1, rest)
    decreases |preferred|
  {
    hide Subsequence;
    if preferred == [] {
      SubsequenceRefl(rest);
    } else {
      match FirstFrom(rest, 0, preferred[0]) {
        case None => RestInOrder(rest, preferred[1..]);
        case Some(i) =>
          RestInOrder(Without(rest, i), preferred[1..]);
          WithoutSubsequence(rest, i);
          SubsequenceTrans(Picked(rest, preferred).1, Without(rest, i), rest);
      }
    }
  }

  /** The types come in the order of preference. */
  ghost predicate InOrder(front: seq<PA>, preferred: seq<int32>)
    decreases |preferred|
  {
    front == [] || (preferred != [] && ((front[0].typ == preferred[0] && InOrder(front[1..], preferred[1..]))
                                        || InOrder(front, preferred[1..])))
  }

  lemma {:induction false} FrontInOrder(rest: seq<PA>, preferred: seq<int32>)
    ensures InOrder(Picked(rest, preferred).0, preferred)
    decreases |preferred|
  {
    if preferred != [] {
      match FirstFrom(rest, 0, preferred[0]) {
        case None => FrontInOrder(rest, preferred[1..]);
        case Some(i) =>
          FrontInOrder(Without(rest, i), preferred[1..]);
          assert Picked(rest, preferred).0[1..] == Picked(Without(rest, i), preferred[1..]).0;
      }
    }
  }

  /** The front has only preferred types, no more than there
      are, and one is left over only if the front has one of its type. */
  lemma {:induction false} FrontPreferred(rest: seq<PA>, preferred: seq<int32>)
    ensures |Picked(rest, preferred).0| <= |preferred|
    ensures forall i | 0 <= i < |Picked(rest, preferred).0| :: Picked(rest, preferred).0[i].typ in preferred
    ensures forall p | p in Picked(rest, preferred).1 && p.typ in preferred :: exists i :: 0 <= i < |Picked(rest, preferred).0| && Picked(rest, preferred).0[i].typ == p.typ
    decreases |preferred|
  {
    if preferred != [] {
      match FirstFrom(rest, 0, preferred[0]) {
        case None =>
          FrontPreferred(rest, preferred[1..]);
          PickedBag(rest, preferred[1..]);
          forall p | p in Picked(rest, preferred).1 && p.typ in preferred
            ensures exists i :: 0 <= i < |Picked(rest, preferred).0| && Picked(rest, preferred).0[i].typ == p.typ
          {
            if p.typ == preferred[0] { FromRest(rest, preferred[1..], p); }
            assert p.typ in preferred[1..];
          }
        case Some(i) =>
          var (front, left) := Picked(Without(rest, i), preferred[1..]);
          FrontPreferred(Without(rest, i), preferred[1..]);
          var all := [rest[i]] + front;
          forall p | p in left && p.typ in preferred
            ensures exists k :: 0 <= k < |all| && all[k].typ == p.typ
          {
            if p.typ == preferred[0] {
              assert all[0].typ == p.typ;
            } else {
              assert p.typ in preferred[1..];
              var k :| 0 <= k < |front| && front[k].typ == p.typ;
              assert all[k + 1] == front[k];
            }
          }
      }
    }
  }

  lemma FromRest(rest: seq<PA>, preferred: seq<int32>, p: PA)
    requires p in Picked(rest, preferred).1
    ensures p in rest
  {
    PickedBag(rest, preferred);
    assert p in multiset(Picked(rest, preferred).1);
    assert p in multiset(rest);
  }

  /** The elements of one type, in order. */
  function OfType(s: seq<PA>, typ: int32): (r: seq<PA>) {
    if s == [] then [] else (if s[0].typ == typ then [s[0]] else []) + OfType(s[1..], typ)
  }

  /** Taking out the first element of its type takes it from the front of those
      of its type, and leaves the other types alone. */
  lemma {:induction false} FirstOut(s: seq<PA>, i: nat, typ: int32)
    requires i < |s| && forall k | 0 <= k < i :: s[k].typ != s[i].typ
    ensures OfType(s, typ) == (if s[i].typ == typ then [s[i]] else []) + OfType(Without(s, i), typ)
    decreases i
  {
    if i == 0 {
      assert Without(s, 0) == s[1..];
    } else {
      FirstOut(s[1..], i - 1, typ);
      assert Without(s, i)[0] == s[0] && Without(s, i)[1..] == Without(s[1..], i - 1);
    }
  }

  lemma {:induction false} PickedStable(rest: seq<PA>, preferred: seq<int32>, typ: int32)
    ensures OfType(Picked(rest, preferred).0 + Picked(rest, preferred).1, typ) == OfType(rest, typ)
    decreases |preferred|
  {
    if preferred == [] {
      assert [] + rest == rest;
    } else {
      match FirstFrom(rest, 0, preferred[0]) {
        case None => PickedStable(rest, preferred[1..], typ);
        case Some(i) =>
          var (front, left) := Picked(Without(rest, i), preferred[1..]);
          PickedStable(Without(rest, i), preferred[1..], typ);
          FirstOut(rest, i, typ);
          var all := [rest[i]] + front + left;
          assert all[0] == rest[i] && all[1..] == front + left;
      }
    }
  }

  /** Elements of the same type keep their order: the sort is stable. */
  lemma SortedIsStable(data: seq<PA>, preferred: seq<int32>, typ: int32)
    ensures OfType(Sorted(data, preferred), typ) == OfType(data, typ)
  {
    PickedStable(data, preferred, typ);
  }

  // ----- in place

  /** The position found by scanning from the base. */
  method FindFrom(a: array<PA>, i0: nat, typ: int32) returns (r: Option<nat>)
    requires i0 <= a.Length
    ensures r == FirstFrom(a[..], i0, typ)
  {
    var i := i0;
    while i < a.Length
      invariant i0 <= i <= a.Length && FirstFrom(a[..], i0, typ) == FirstFrom(a[..], i, typ)
    {
      if a[i].typ == typ { return Some(i); }
      i := i + 1;
    }
    return None;
  }

  /** The element at one position moved before those from another on. */
  function Moved(s: seq<PA>, start: nat, at: nat): (r: seq<PA>)
    requires start <= at < |s|
    ensures |r| == |s|
  {
    s[..start] + [s[at]] + s[start..at] + s[at + 1..]
  }

  lemma MovedParts(s: seq<PA>, start: nat, at: nat)
    requires start <= at < |s|
    ensures Moved(s, start, at)[..start + 1] == s[..start] + [s[at]]
    ensures Moved(s, start, at)[start + 1..] == Without(s[start..], at - start)
  {
    var rest := s[start..];
    assert rest[..at - start] == s[start..at] && rest[at - start + 1..] == s[at + 1..];
  }

  /** copy(result[base+1:match+1], result[base:match]); result[base] = value. */
  method MoveToFront(a: array<PA>, start: nat, at: nat)
    requires start <= at < a.Length
    modifies a
    ensures a[..] == Moved(old(a[..]), start, at)
  {
    ghost var s := a[..];
    var value := a[at];
    var i := at;
    while i > start
      invariant start <= i <= at
      invariant forall j | 0 <= j <= i || at < j < a.Length :: a[j] == s[j]
      invariant forall j | i < j <= at :: a[j] == s[j - 1]
    {
      a[i] := a[i - 1];
      i := i - 1;
    }
    a[start] := value;
    forall j | 0 <= j < |s|
      ensures a[..][j] == Moved(s, start, at)[j]
    {
      MovedAt(s, start, at, j);
    }
  }

  lemma MovedAt(s: seq<PA>, start: nat, at: nat, j: nat)
    requires start <= at < |s| && j < |s|
    ensures Moved(s, start, at)[j] == if j == start then s[at] else if start < j <= at then s[j - 1] else s[j]
  {
  }

  lemma FirstShift(s: seq<PA>, start: nat, i: nat, typ: int32)
    requires start <= i <= |s|
    ensures var r, q := FirstFrom(s, i, typ), FirstFrom(s[start..], i - start, typ);
            if r.None? then q.None? else q == Some(r.value - start)
    decreases |s| - i
  {
    if i < |s| && s[i].typ != typ { FirstShift(s, start, i + 1, typ); }
  }

  /** sortPreferredPadata on a copy of the data. */
  method SortPreferred(data: seq<PA>, preferred: seq<int32>) returns (result: array<PA>)
    ensures fresh(result) && result[..] == Sorted(data, preferred)
  {
    hide FirstFrom, Moved, Without;
    result := new PA[|data|](i requires 0 <= i < |data| => data[i]);
    assert result[..] == data;
    var start := 0;
    assert preferred[0..] == preferred && data[0..] == data;
    for k := 0 to |preferred|
      invariant start <= result.Length && result.Length == |data|
      invariant var (front, left) := Picked(result[start..], preferred[k..]);
                Sorted(data, preferred) == result[..start] + front + left
    {
      ghost var rest := result[start..];
      assert preferred[k..][0] == preferred[k] && preferred[k..][1..] == preferred[k + 1..];
      FirstShift(result[..], start, start, preferred[k]);
      assert result[..][start..] == rest;
      var at := FindFrom(result, start, preferred[k]);
      if at.None? { continue; }
      ghost var before := result[..start];
      ghost var i := at.value - start;
      ghost var (front, left) := Picked(Without(rest, i), preferred[k + 1..]);
      assert before + ([rest[i]] + front) + left == before + [rest[i]] + front + left;
      MovedParts(result[..], start, at.value);
      MoveToFront(result, start, at.value);
      start := start + 1;
      assert result[..start] == result[..][..start] && result[start..] == result[..][start..];
    }
    assert preferred[|preferred|..] == [];
    assert result[..start] + [] + result[start..] == result[..];
  }
}
