/** Cursors over big-endian data as parsers: a parser returns a value and the
    bytes it did not consume. */
module Wire {
  import opened Bytes

  function Take(d: bytes, n: nat): (r: Option<(bytes, bytes)>)
    ensures r.Some? ==> d == r.value.0 + r.value.1 && |r.value.0| == n
  {
    if n > |d| then None else Some((d[..n], d[n..]))
  }

  function U8(d: bytes): (r: Option<(byte, bytes)>)
    ensures r.Some? ==> |r.value.1| == |d| - 1
  {
    if d == [] then None else Some((d[0], d[1..]))
  }

  function U16(d: bytes): (r: Option<(uint16, bytes)>)
    ensures r.Some? ==> |r.value.1| == |d| - 2
  {
    if |d| < 2 then None else BEBound(d[..2]); Pow256Values(); Some((BE(d[..2]), d[2..]))
  }

  function U32(d: bytes): (r: Option<(uint32, bytes)>)
    ensures r.Some? ==> |r.value.1| == |d| - 4
  {
    if |d| < 4 then None else BEBound(d[..4]); Pow256Values(); Some((BE(d[..4]), d[4..]))
  }

  lemma TakeBack(v: bytes, rest: bytes)
    ensures Take(v + rest, |v|) == Some((v, rest))
  {
  }

  lemma U16Back(v: uint16, rest: bytes)
    ensures U16(ToBE(v, 2) + rest) == Some((v, rest))
  {
    Pow256Values();
    BEOfToBE(v, 2);
    assert (ToBE(v, 2) + rest)[..2] == ToBE(v, 2);
  }

  lemma U32Back(v: uint32, rest: bytes)
    ensures U32(ToBE(v, 4) + rest) == Some((v, rest))
  {
    Pow256Values();
    BEOfToBE(v, 4);
    assert (ToBE(v, 4) + rest)[..4] == ToBE(v, 4);
  }

  lemma SignedBack(v: int32)
    ensures ToSigned(ToUnsigned(v)) == v
  {
  }

  // ----- lists

  function WriteAll<T>(w: T -> bytes, xs: seq<T>): (b: bytes) {
    if xs == [] then [] else w(xs[0]) + WriteAll(w, xs[1..])
  }

  function ReadMany<T>(p: bytes -> Option<(T, bytes)>, n: nat, d: bytes): (r: Option<(seq<T>, bytes)>)
    decreases n
  {
    if n == 0 then Some(([], d))
    else
      var (x, d1) :- p(d);
      var (xs, d2) :- ReadMany(p, n - 1, d1);
      Some(([x] + xs, d2))
  }

  function NormAll<T>(norm: T -> T, xs: seq<T>): (r: seq<T>)
    ensures |r| == |xs|
  {
    if xs == [] then [] else [norm(xs[0])] + NormAll(norm, xs[1..])
  }

  predicate OkAll<T>(ok: T -> bool, xs: seq<T>) {
    xs == [] || (ok(xs[0]) && OkAll(ok, xs[1..]))
  }

  /** Reading what was written: on values of the domain the parser returns the
      normal form and leaves the rest, or fails for the values it refuses. */
  ghost predicate Law<T(!new)>(w: T -> bytes, p: bytes -> Option<(T, bytes)>,
                               dom: T -> bool, ok: T -> bool, norm: T -> T) {
    forall x: T, rest: bytes :: dom(x) ==> p(w(x) + rest) == if ok(x) then Some((norm(x), rest)) else None
  }

  lemma {:induction false} ManyBack<T(!new)>(w: T -> bytes, p: bytes -> Option<(T, bytes)>,
                                             dom: T -> bool, ok: T -> bool, norm: T -> T, xs: seq<T>, rest: bytes)
    requires Law(w, p, dom, ok, norm) && OkAll(dom, xs)
    ensures ReadMany(p, |xs|, WriteAll(w, xs) + rest)
         == if OkAll(ok, xs) then Some((NormAll(norm, xs), rest)) else None
    decreases |xs|
  {
    if xs == [] {
      assert [] + rest == rest;
    } else {
      ManyBack(w, p, dom, ok, norm, xs[1..], rest);
      assert WriteAll(w, xs) + rest == w(xs[0]) + (WriteAll(w, xs[1..]) + rest);
    }
  }

  function Id<T>(x: T): (r: T) { x }
  predicate Any<T>(x: T) { true }

  lemma {:induction false} NormAllId<T>(xs: seq<T>)
    ensures NormAll(Id, xs) == xs
  {
    if xs != [] { NormAllId(xs[1..]); }
  }

  lemma {:induction false} OkAllAny<T>(xs: seq<T>)
    ensures OkAll(Any, xs)
  {
    if xs != [] { OkAllAny(xs[1..]); }
  }

  // ----- loops that write and read lists

  lemma WriteAllEmpty<T>(w: T -> bytes, xs: seq<T>)
    ensures WriteAll(w, xs[..0]) == []
  {
  }

  lemma {:induction false} WriteAllSnoc<T>(w: T -> bytes, xs: seq<T>, i: nat)
    requires i < |xs|
    ensures WriteAll(w, xs[..i + 1]) == WriteAll(w, xs[..i]) + w(xs[i])
    decreases i
  {
    if i == 0 {
      assert xs[..1] == [xs[0]] && xs[..0] == [];
    } else {
      WriteAllSnoc(w, xs[1..], i - 1);
      assert xs[..i + 1][1..] == xs[1..][..i] && xs[..i][1..] == xs[1..][..i - 1];
      assert WriteAll(w, xs[..i + 1]) == w(xs[0]) + (WriteAll(w, xs[1..][..i - 1]) + w(xs[i]));
    }
  }

  /** A read from what was left gives this result and leaves this rest. */
  ghost predicate Read<T(!new)>(got: Option<(T, bytes)>, r: Option<T>, rest: bytes) {
    if got.None? then r.None? else r == Some(got.value.0) && rest == got.value.1
  }

  /** A loop that has read some items so far still has to read the others. */
  ghost predicate Reading<T(!new)>(all: Option<(seq<T>, bytes)>, out: seq<T>, more: Option<(seq<T>, bytes)>) {
    all == if more.None? then None else Some((out + more.value.0, more.value.1))
  }

  lemma ReadingStart<T(!new)>(all: Option<(seq<T>, bytes)>)
    ensures Reading(all, [], all)
  {
    if all.Some? { assert [] + all.value.0 == all.value.0; }
  }

  lemma ReadingStep<T(!new)>(p: bytes -> Option<(T, bytes)>, all: Option<(seq<T>, bytes)>, out: seq<T>, n: nat, d: bytes)
    requires n > 0 && Reading(all, out, ReadMany(p, n, d))
    ensures p(d).None? ==> all.None?
    ensures p(d).Some? ==> Reading(all, out + [p(d).value.0], ReadMany(p, n - 1, p(d).value.1))
  {
    if p(d).Some? {
      var more := ReadMany(p, n - 1, p(d).value.1);
      if more.Some? { assert out + ([p(d).value.0] + more.value.0) == out + [p(d).value.0] + more.value.0; }
    }
  }

  lemma ReadingEnd<T(!new)>(p: bytes -> Option<(T, bytes)>, all: Option<(seq<T>, bytes)>, out: seq<T>, d: bytes)
    requires Reading(all, out, ReadMany(p, 0, d))
    ensures all == Some((out, d))
  {
    assert out + [] == out;
  }
}
