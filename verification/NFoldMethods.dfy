/** n-fold as the source computes it: loops over bits and bytes. */
module NFoldMethods {
  import opened Arithmetic
  import opened Bytes
  import opened NFold

  // ----- greatest common divisor and least common multiple

  function GcdOf(a: nat, b: nat): (g: nat)
    decreases b
  {
    if b == 0 then a else GcdOf(b, a % b)
  }

  method Gcd(a: nat, b: nat) returns (g: nat)
    ensures g == GcdOf(a, b)
  {
    var x, y := a, b;
    while y != 0
      invariant GcdOf(a, b) == GcdOf(x, y)
      decreases y
    {
      x, y := y, x % y;
    }
    g := x;
  }

  /** It divides both numbers and is a combination of them, so that every common
      divisor divides it. */
  lemma {:induction false} GcdFacts(a: nat, b: nat) returns (p: nat, r: nat, s: int, t: int)
    ensures a == GcdOf(a, b) * p && b == GcdOf(a, b) * r
    ensures GcdOf(a, b) == s * a + t * b
    decreases b
  {
    hide GcdOf;
    GcdStep(a, b);
    if b == 0 {
      p, r, s, t := 1, 0, 1, 0;
    } else {
      var p1, r1, s1, t1 := GcdFacts(b, a % b);
      var q, g := a / b, GcdOf(b, a % b);
      assert a == b * q + a % b;
      p, r, s, t := p1 * q + r1, p1, t1, s1 - t1 * q;
      Recombine(g, p1, q, r1);
      Combine(a, b, q, a % b, s1, t1);
    }
  }

  lemma GcdStep(a: nat, b: nat)
    ensures GcdOf(a, b) == if b == 0 then a else GcdOf(b, a % b)
  {
  }

  lemma Recombine(g: nat, p: nat, q: nat, r: nat)
    ensures g * (p * q + r) == g * p * q + g * r
  {
  }

  lemma Combine(a: int, b: int, q: int, m: int, s: int, t: int)
    requires a == b * q + m
    ensures s * b + t * m == t * a + (s - t * q) * b
  {
    assert t * m == t * (a - b * q) == t * a - t * (b * q);
    assert t * (b * q) == t * q * b;
  }

  lemma GcdIsGreatest(a: nat, b: nat, d: nat, i: int, j: int)
    requires a == d * i && b == d * j
    ensures exists k: int {:trigger Times(d, k)} :: GcdOf(a, b) == Times(d, k)
  {
    var p, r, s, t := GcdFacts(a, b);
    FactorOut(d, i, j, s, t);
    assert GcdOf(a, b) == Times(d, s * i + t * j);
  }

  function Times(a: int, b: int): (r: int) { a * b }

  lemma FactorOut(d: int, i: int, j: int, s: int, t: int)
    ensures s * (d * i) + t * (d * j) == d * (s * i + t * j)
  {
    assert s * (d * i) == d * (s * i);
    assert t * (d * j) == d * (t * j);
  }

  function Lcm(a: nat, b: nat): (l: nat)
    requires a > 0
  {
    GcdPositive(a, b);
    var share: nat := a / GcdOf(a, b);
    share * b
  }

  method LeastMultiple(a: nat, b: nat) returns (l: nat)
    requires a > 0
    ensures l == Lcm(a, b)
  {
    hide GcdOf;
    var g := Gcd(a, b);
    GcdPositive(a, b);
    l := a / g * b;
  }

  lemma {:induction false} GcdPositive(a: nat, b: nat)
    requires a > 0
    ensures GcdOf(a, b) > 0
    decreases b
  {
    if b > 0 { GcdPositive(b, a % b); }
  }

  /** It is a multiple of both numbers: p copies of b are r copies of a. */
  lemma LcmFacts(a: nat, b: nat) returns (p: nat, r: nat)
    requires a > 0 && b > 0
    ensures Lcm(a, b) == p * b == r * a && p > 0 && r > 0
    ensures Lcm(a, b) / b == p && Lcm(a, b) / a == r
  {
    hide GcdOf;
    var s, t;
    p, r, s, t := GcdFacts(a, b);
    GcdPositive(a, b);
    var g := GcdOf(a, b);
    ModUnique(a, g, p, 0);
    assert p * b == p * (g * r) == (g * p) * r == r * a;
    ModUnique(p * b, b, p, 0);
    ModUnique(r * a, a, r, 0);
  }

  /** And every common multiple is a multiple of it. */
  lemma LcmIsLeast(a: nat, b: nat, x: int, y: int)
    requires a > 0 && b > 0 && a * x == b * y
    ensures exists k: int {:trigger Times(Lcm(a, b), k)} :: a * x == Times(Lcm(a, b), k)
  {
    hide GcdOf;
    var p, r, s, t := GcdFacts(a, b);
    GcdPositive(a, b);
    var g := GcdOf(a, b);
    ModUnique(a, g, p, 0);
    var k := s * y + t * x;
    BezoutMultiple(a, b, g, p, s, t, x, y);
    assert a * x == Times(Lcm(a, b), k);
  }

  lemma BezoutMultiple(a: int, b: int, g: int, p: int, s: int, t: int, x: int, y: int)
    requires g > 0 && a == g * p && g == s * a + t * b && a * x == b * y
    ensures a * x == p * b * (s * y + t * x)
  {
    var m := a * x;
    assert g * m == s * a * m + t * b * m by { assert (s * a + t * b) * m == s * a * m + t * b * m; }
    assert s * a * m == a * b * (s * y) by { Shuffle(s, a, b, y); }
    assert t * b * m == a * b * (t * x) by { Shuffle(t, b, a, x); }
    assert a * b * (s * y) + a * b * (t * x) == a * b * (s * y + t * x);
    var n := b * (s * y + t * x);
    assert g * m == a * n by { assert a * b * (s * y + t * x) == a * n; }
    assert a * n == g * (p * n) by { assert (g * p) * n == g * (p * n); }
    Cancel(g, m, p * n);
    assert p * n == p * b * (s * y + t * x);
  }

  lemma Shuffle(s: int, a: int, b: int, y: int)
    ensures s * a * (b * y) == a * b * (s * y)
  {
    assert s * a * (b * y) == a * (s * (b * y)) == a * (b * (s * y));
  }

  lemma Cancel(g: int, m: int, n: int)
    requires g > 0 && g * m == g * n
    ensures m == n
  {
    if m < n { MulGap(g, m, n); } else if n < m { MulGap(g, n, m); }
  }

  // ----- addition with end-around carry

  lemma AddStep(a: nat, b: nat, c: nat, p: nat, rest: nat, ra: nat, rb: nat)
    requires rest + c * p == ra + rb
    ensures var sum := a + b + c;
            (sum % 256 * p + rest) + sum / 256 * (256 * p) == (a * p + ra) + (b * p + rb)
  {
    var sum := a + b + c;
    var lo, hi := sum % 256, sum / 256;
    assert sum == lo + 256 * hi;
    assert hi * (256 * p) == 256 * hi * p;
    assert lo * p + 256 * hi * p == sum * p;
    assert sum * p == a * p + b * p + c * p;
  }

  /** The first pass leaves the sum and what is carried out of it. */
  method AddPass(dst: array<byte>, src: array<byte>) returns (carry: nat)
    requires dst.Length == src.Length && dst != src
    modifies dst
    ensures carry <= 1
    ensures BE(dst[..]) + carry * Pow256(dst.Length) == old(BE(dst[..])) + BE(src[..])
  {
    hide BE, Pow256;
    carry := 0;
    var n := dst.Length;
    ghost var before, other := dst[..], src[..];
    var i := n;
    EmptySuffix(before);
    EmptySuffix(other);
    while i > 0
      invariant 0 <= i <= n && carry <= 1 && dst[..i] == before[..i]
      invariant BE(dst[i..]) + carry * Pow256(n - i) == BE(before[i..]) + BE(other[i..])
    {
      i := i - 1;
      ghost var tail := dst[i + 1..];
      var sum: nat := dst[i] + src[i] + carry;
      assert dst[i] == before[i];
      SuffixWeight(before, i);
      SuffixWeight(other, i);
      AddStep(before[i], other[i], carry, Pow256(n - i - 1), BE(tail), BE(before[i + 1..]), BE(other[i + 1..]));
      dst[i] := sum % 256;
      carry := sum / 256;
      assert dst[i + 1..] == tail;
      SuffixWeight(dst[..], i);
      assert dst[..][i + 1..] == tail && dst[..][i..] == dst[i..];
      PowStep(n - i);
    }
    assert dst[0..] == dst[..] && before[0..] == before && other[0..] == other;
  }

  lemma PowStep(k: nat)
    requires k > 0
    ensures Pow256(k) == 256 * Pow256(k - 1)
  {
  }

  lemma EmptySuffix(b: bytes)
    ensures BE(b[|b|..]) == 0 && Pow256(0) == 1
  {
  }

  lemma SuffixWeight(b: bytes, i: nat)
    requires i < |b|
    ensures BE(b[i..]) == b[i] * Pow256(|b| - i - 1) + BE(b[i + 1..])
  {
    hide BE, Pow256;
    HeadWeight(b[i..]);
    assert b[i..][1..] == b[i + 1..];
  }

  /** A pass that adds what was carried. */
  method CarryPass(dst: array<byte>, c: nat) returns (carry: nat)
    requires c <= 1
    modifies dst
    ensures carry <= 1
    ensures BE(dst[..]) + carry * Pow256(dst.Length) == old(BE(dst[..])) + c
  {
    hide BE, Pow256;
    carry := c;
    var n := dst.Length;
    ghost var before := dst[..];
    var i := n;
    EmptySuffix(before);
    while i > 0
      invariant 0 <= i <= n && carry <= 1 && dst[..i] == before[..i]
      invariant BE(dst[i..]) + carry * Pow256(n - i) == BE(before[i..]) + c
    {
      i := i - 1;
      ghost var tail := dst[i + 1..];
      var sum: nat := dst[i] + carry;
      assert dst[i] == before[i];
      SuffixWeight(before, i);
      AddStep(before[i], 0, carry, Pow256(n - i - 1), BE(tail), BE(before[i + 1..]), c);
      dst[i] := sum % 256;
      carry := sum / 256;
      assert dst[i + 1..] == tail;
      SuffixWeight(dst[..], i);
      assert dst[..][i + 1..] == tail && dst[..][i..] == dst[i..];
      PowStep(n - i);
    }
    assert dst[0..] == dst[..] && before[0..] == before;
  }

  /** addOneComplement: the sum with end-around carry, after at most one more
      pass. */
  method AddOneComplement(dst: array<byte>, src: array<byte>) returns (ghost passes: nat)
    requires dst.Length == src.Length && dst != src
    modifies dst
    ensures passes <= 1
    ensures old(BE(dst[..])) < Pow256(dst.Length) && BE(src[..]) < Pow256(dst.Length)
    ensures BE(dst[..]) == OnesAdd(old(BE(dst[..])), BE(src[..]), Pow256(dst.Length))
  {
    hide BE, Pow256;
    passes := 0;
    BEBound(dst[..]);
    BEBound(src[..]);
    ghost var a, b, m := BE(dst[..]), BE(src[..]), Pow256(dst.Length);
    var carry := AddPass(dst, src);
    BEBound(dst[..]);
    while carry != 0
      invariant carry <= 1 && (carry == 0 || passes == 0) && passes <= 1
      invariant carry == 1 ==> BE(dst[..]) + m == a + b
      invariant carry == 0 ==> BE(dst[..]) == OnesAdd(a, b, m)
      decreases carry
    {
      carry := CarryPass(dst, carry);
      BEBound(dst[..]);
      passes := passes + 1;
    }
  }

  // ----- the fold

  /** The remainder of the source, which takes the sign of the dividend. */
  function Remainder(x: int, n: nat): (r: int)
    requires n > 0
  {
    if x >= 0 then x % n else 0 - (0 - x) % n
  }

  lemma SourcePosition(x: int, n: nat)
    requires n > 0
    ensures var r := Remainder(x, n); (if r < 0 then r + n else r) == x % n
  {
    if x < 0 {
      var q, s := (0 - x) / n, (0 - x) % n;
      assert 0 - x == n * q + s;
      if s == 0 {
        assert x == n * (0 - q) by { assert n * (0 - q) == 0 - n * q; }
        ModUnique(x, n, 0 - q, 0);
      } else {
        assert x == n * (0 - q - 1) + (n - s) by { assert n * (0 - q - 1) == 0 - n * q - n; }
        ModUnique(x, n, 0 - q - 1, n - s);
      }
    }
  }

  lemma RotateAt(bits: seq<bool>, r: nat, o: nat)
    requires o < |bits|
    ensures RotateRight(bits, r)[o] == bits[(o - r) % |bits|]
  {
    var n := |bits|;
    var q, k := r / n, r % n;
    assert r == n * q + k;
    if o < k {
      assert o - r == n * (0 - q - 1) + (o + n - k) by { assert n * (0 - q - 1) == 0 - n * q - n; }
      ModUnique(o - r, n, 0 - q - 1, o + n - k);
    } else {
      assert o - r == n * (0 - q) + (o - k) by { assert n * (0 - q) == 0 - n * q; }
      ModUnique(o - r, n, 0 - q, o - k);
    }
  }

  lemma {:induction false} CopiesAt(bits: seq<bool>, c: nat, i: nat, o: nat)
    requires bits != [] && i < c && o < |bits|
    ensures i * |bits| + o < |Copies(bits, c)| && Copies(bits, c)[i * |bits| + o] == RotateRight(bits, 13 * i)[o]
    decreases c
  {
    hide RotateRight;
    if i < c - 1 {
      CopiesAt(bits, c - 1, i, o);
    } else {
      assert |Copies(bits, c - 1)| == i * |bits|;
    }
  }

  /** The bit the source reads is the bit of the rotated copies. */
  lemma StreamAt(bits: seq<bool>, c: nat, p: nat)
    requires bits != [] && p < c * |bits|
    ensures Copies(bits, c)[p] == bits[(p % |bits| - 13 * (p / |bits|)) % |bits|]
  {
    hide Copies, RotateRight;
    var n := |bits|;
    var i, o := p / n, p % n;
    assert p == n * i + o == i * n + o;
    if i >= c {
      MulMonotone(n, c, i);
      assert false;
    }
    CopiesAt(bits, c, i, o);
    RotateAt(bits, 13 * i, o);
  }

  lemma {:induction false} BytePowers(n: nat)
    ensures Pow2(8 * n) == Pow256(n)
  {
    if n > 0 {
      BytePowers(n - 1);
      var k := 8 * (n - 1);
      assert Pow2(k + 2) == 4 * Pow2(k) && Pow2(k + 4) == 4 * Pow2(k + 2);
      assert Pow2(k + 6) == 4 * Pow2(k + 4) && Pow2(k + 8) == 4 * Pow2(k + 6);
    }
  }

  /** Setting one bit of one byte sets one bit of the string. */
  lemma SetAt(bs: bytes, k: nat)
    requires k < 8 * |bs|
    ensures AllBits(bs[k / 8 := SetBit(bs[k / 8], k % 8)]) == AllBits(bs)[k := true]
  {
    hide AllBits, SetBit, ByteBits;
    var after := bs[k / 8 := SetBit(bs[k / 8], k % 8)];
    forall i | 0 <= i < 8 * |bs|
      ensures AllBits(after)[i] == AllBits(bs)[k := true][i]
    {
      AllBitsAt(after, i);
      AllBitsAt(bs, i);
      SetBitIs(bs[k / 8], k % 8);
    }
  }

  lemma ZeroByte()
    ensures forall i | 0 <= i < 8 :: !ByteBits(0)[i]
  {
    assert BitsOf(0, 4) == [false, false, false, false];
    assert BitsOf(0, 8) == BitsOf(0, 4) + [false, false, false, false];
  }

  lemma ZeroBits(bs: bytes)
    requires forall i | 0 <= i < |bs| :: bs[i] == 0
    ensures forall k | 0 <= k < 8 * |bs| :: !AllBits(bs)[k]
  {
    hide AllBits, ByteBits;
    ZeroByte();
    forall k | 0 <= k < 8 * |bs| ensures !AllBits(bs)[k] { AllBitsAt(bs, k); }
  }

  /** What the inner loop looks at: the rotated copies of the input. */
  function Stream(input: bytes, m: nat): (s: seq<bool>)
    requires input != [] && m > 0
    ensures |s| == Lcm(8 * |input|, m) == Lcm(8 * |input|, m) / m * m
  {
    StreamSize(8 * |input|, m);
    Copies(AllBits(input), Lcm(8 * |input|, m) / (8 * |input|))
  }

  lemma StreamSize(n: nat, m: nat)
    requires n > 0 && m > 0
    ensures Lcm(n, m) / n * n == Lcm(n, m) == Lcm(n, m) / m * m
  {
    var p, r := LcmFacts(n, m);
  }

  function Size(m: nat): (k: nat)
    ensures m <= 8 * k < m + 8
  {
    (m + 7) / 8
  }

  /** The value nFold returns, for any number of output bits. */
  function Folded(input: bytes, m: nat): (v: nat)
    requires input != [] && m > 0
  {
    SumTerms(Stream(input, m), m, Lcm(8 * |input|, m) / m, 8 * Size(m) - m)
  }

  method InputBit(input: bytes, position: nat) returns (b: bool)
    requires input != []
    ensures var bits := AllBits(input);
            b == bits[(position % |bits| - 13 * (position / |bits|)) % |bits|]
  {
    hide AllBits, ByteBits;
    var inputBits := |input| * 8;
    var repetition := position / inputBits;
    var offset := position % inputBits;
    var source := Remainder(offset - 13 * repetition, inputBits);
    if source < 0 { source := source + inputBits; }
    SourcePosition(offset - 13 * repetition, inputBits);
    AllBitsAt(input, source);
    b := ByteBits(input[source / 8])[source % 8];
  }

  lemma ChunkInside(stream: seq<bool>, m: nat, c: nat, j: nat)
    requires |stream| == c * m && j < c
    ensures (j + 1) * m <= |stream| && j * m + m <= |stream|
  {
    MulMonotone(m, j + 1, c);
  }

  method BuildTerm(input: bytes, m: nat, j: nat) returns (term: array<byte>)
    requires input != [] && m > 0 && j < Lcm(8 * |input|, m) / m
    ensures fresh(term) && term.Length == Size(m)
    ensures (j + 1) * m <= |Stream(input, m)|
    ensures BE(term[..]) == Term(Stream(input, m), m, j, 8 * Size(m) - m)
  {
    hide AllBits, SetBit, Lcm, Copies, BE;
    ghost var stream := Stream(input, m);
    ChunkInside(stream, m, Lcm(8 * |input|, m) / m, j);
    term := new byte[Size(m)](_ => 0);
    ZeroBits(term[..]);
    for bit := 0 to m
      invariant forall k | 0 <= k < 8 * Size(m) :: AllBits(term[..])[k] == (k < bit && stream[j * m + k])
    {
      var position := j * m + bit;
      StreamAt(AllBits(input), Lcm(8 * |input|, m) / (8 * |input|), position);
      var on := InputBit(input, position);
      if on {
        SetAt(term[..], bit);
        ghost var next := term[..][bit / 8 := SetBit(term[..][bit / 8], bit % 8)];
        term[bit / 8] := SetBit(term[bit / 8], bit % 8);
        assert term[..] == next;
      }
    }
    ChunkBounds(j, m);
    assert AllBits(term[..]) == stream[j * m..j * m + m] + Falses(8 * Size(m) - m);
    ValueIsBE(term[..]);
  }

  /** nFold; None stands for the nil result. */
  method Fold(input: bytes, outputBits: int) returns (r: Option<bytes>)
    ensures r.None? <==> input == [] || outputBits <= 0
    ensures r.Some? ==> |r.value| == Size(outputBits) && BE(r.value) == Folded(input, outputBits)
  {
    hide BE, Lcm, Term, Stream, Pow2, Pow256;
    if |input| == 0 || outputBits <= 0 { return None; }
    var m: nat := outputBits;
    var lcmBits := LeastMultiple(8 * |input|, m);
    var chunks := lcmBits / m;
    var result := new byte[Size(m)](_ => 0);
    ghost var stream, pad := Stream(input, m), 8 * Size(m) - m;
    ZeroSum(result[..]);
    BytePowers(Size(m));
    for j := 0 to chunks
      invariant j * m <= |stream| && BE(result[..]) == SumTerms(stream, m, j, pad)
    {
      ChunkInside(stream, m, chunks, j);
      var term := BuildTerm(input, m, j);
      ghost var passes := AddOneComplement(result, term);
      ChunkBounds(j, m);
    }
    return Some(result[..]);
  }

  lemma {:induction false} ZeroSum(bs: bytes)
    requires forall i | 0 <= i < |bs| :: bs[i] == 0
    ensures BE(bs) == 0
  {
    if bs != [] { ZeroSum(bs[..|bs| - 1]); }
  }

  // ----- for whole bytes this is the n-fold

  /** The ones'-complement sum of the m-bit chunks. */
  function ChunkSum(stream: seq<bool>, m: nat, c: nat): (v: nat)
    requires c * m <= |stream|
    ensures v < Pow2(m)
  {
    if c == 0 then 0
    else
      ChunkBounds(c - 1, m);
      BitsOfValue(stream[(c - 1) * m..(c - 1) * m + m]);
      OnesAdd(ChunkSum(stream, m, c - 1), Value(stream[(c - 1) * m..(c - 1) * m + m]), Pow2(m))
  }

  /** The ordinary sum. */
  function PlainSum(stream: seq<bool>, m: nat, c: nat): (v: nat)
    requires c * m <= |stream|
  {
    if c == 0 then 0
    else
      ChunkBounds(c - 1, m);
      PlainSum(stream, m, c - 1) + Value(stream[(c - 1) * m..(c - 1) * m + m])
  }

  lemma {:induction false} UnpaddedSum(stream: seq<bool>, m: nat, c: nat)
    requires c * m <= |stream|
    ensures SumTerms(stream, m, c, 0) == ChunkSum(stream, m, c)
    decreases c
  {
    hide Value;
    if c > 0 {
      ChunkBounds(c - 1, m);
      UnpaddedSum(stream, m, c - 1);
      var bits := stream[(c - 1) * m..(c - 1) * m + m];
      assert bits + Falses(0) == bits;
    }
  }

  lemma WholeBytes(m: nat)
    requires m % 8 == 0
    ensures 8 * Size(m) == m
  {
  }

  /** nFold to a whole number of bytes is the ones'-complement sum of the chunks
      of the rotated copies. */
  lemma FoldIsChunkSum(input: bytes, m: nat)
    requires input != [] && m > 0 && m % 8 == 0
    ensures Lcm(8 * |input|, m) / m * m <= |Stream(input, m)|
    ensures Folded(input, m) == ChunkSum(Stream(input, m), m, Lcm(8 * |input|, m) / m)
  {
    hide Stream, Lcm, Size, SumTerms, ChunkSum;
    WholeBytes(m);
    UnpaddedSum(Stream(input, m), m, Lcm(8 * |input|, m) / m);
  }

  /** And so it is the sum of the chunks modulo 2^m - 1. */
  lemma {:induction false} ChunkSumCongruent(stream: seq<bool>, m: nat, c: nat)
    requires c * m <= |stream| && m > 0
    ensures Pow2(m) > 1
    ensures ChunkSum(stream, m, c) % (Pow2(m) - 1) == PlainSum(stream, m, c) % (Pow2(m) - 1)
    decreases c
  {
    hide Value;
    if c > 0 {
      ChunkBounds(c - 1, m);
      ChunkSumCongruent(stream, m, c - 1);
      var bits := stream[(c - 1) * m..(c - 1) * m + m];
      BitsOfValue(bits);
      OnesAddCongruent(ChunkSum(stream, m, c - 1), Value(bits), Pow2(m));
      ModAdd(ChunkSum(stream, m, c - 1), PlainSum(stream, m, c - 1), Value(bits), Pow2(m) - 1);
    }
  }

  lemma ModAdd(a: nat, b: nat, x: nat, c: nat)
    requires c > 0 && a % c == b % c
    ensures (a + x) % c == (b + x) % c
  {
    var p, q, r := a / c, b / c, a % c;
    assert a == c * p + r && b == c * q + r;
    var k, s := (r + x) / c, (r + x) % c;
    assert r + x == c * k + s;
    assert a + x == c * (p + k) + s by { assert c * (p + k) == c * p + c * k; }
    assert b + x == c * (q + k) + s by { assert c * (q + k) == c * q + c * k; }
    ModUnique(a + x, c, p + k, s);
    ModUnique(b + x, c, q + k, s);
  }

  // ----- other numbers of bits

  lemma {:induction false} Pow2Add(m: nat, n: nat)
    ensures Pow2(m + n) == Pow2(m) * Pow2(n)
    decreases n
  {
    if n > 0 {
      Pow2Add(m, n - 1);
      Distribute(Pow2(m), Pow2(n - 1));
    }
  }

  lemma TermIs(stream: seq<bool>, m: nat, j: nat, pad: nat)
    requires (j + 1) * m <= |stream|
    ensures (j + 1) * m == j * m + m && 0 <= j * m
    ensures Term(stream, m, j, pad) == Pow2(pad) * Value(stream[j * m..j * m + m])
  {
    hide Value;
    ChunkBounds(j, m);
    ValueConcat(stream[j * m..j * m + m], Falses(pad));
    ValueOfFalses(pad);
  }

  /** The sum with end-around carry is the plain sum less one modulus for each
      carry. */
  lemma {:induction false} CountCarries(stream: seq<bool>, m: nat, c: nat, pad: nat) returns (k: nat)
    requires c * m <= |stream|
    ensures SumTerms(stream, m, c, pad) + k * (Pow2(m + pad) - 1) == Pow2(pad) * PlainSum(stream, m, c)
    decreases c
  {
    hide Value, Term, OnesAdd;
    k := 0;
    if c > 0 {
      ChunkBounds(c - 1, m);
      k := CountCarries(stream, m, c - 1, pad);
      TermIs(stream, m, c - 1, pad);
      Pow2Add(m, pad);
      var before, term, chunk := SumTerms(stream, m, c - 1, pad), Term(stream, m, c - 1, pad), Value(stream[(c - 1) * m..(c - 1) * m + m]);
      k := OneCarry(before, term, k, Pow2(m), Pow2(pad), PlainSum(stream, m, c - 1), chunk);
    }
  }

  lemma OneCarry(before: nat, term: nat, k: nat, q: nat, p: nat, plain: nat, chunk: nat) returns (more: nat)
    requires q * p > 0 && before < q * p && term < q * p && term == p * chunk
    requires before + k * (q * p - 1) == p * plain
    ensures OnesAdd(before, term, q * p) + more * (q * p - 1) == p * (plain + chunk)
  {
    var m := q * p;
    assert p * (plain + chunk) == p * plain + p * chunk;
    more := if before + term >= m then k + 1 else k;
    assert (k + 1) * (m - 1) == k * (m - 1) + (m - 1);
  }

  /** It is zero only if every chunk is. */
  lemma {:induction false} ZeroOnlyIfZero(stream: seq<bool>, m: nat, c: nat, pad: nat)
    requires c * m <= |stream|
    ensures SumTerms(stream, m, c, pad) == 0 <==> PlainSum(stream, m, c) == 0
    decreases c
  {
    hide Value, Term, Pow2;
    if c > 0 {
      ChunkBounds(c - 1, m);
      ZeroOnlyIfZero(stream, m, c - 1, pad);
      TermIs(stream, m, c - 1, pad);
      var chunk := Value(stream[(c - 1) * m..(c - 1) * m + m]);
      assert Term(stream, m, c - 1, pad) == 0 <==> chunk == 0 by { MulGap(Pow2(pad), 0, Max1(chunk)); }
    }
  }

  function Max1(n: nat): (r: nat)
    ensures r >= 1 && (n >= 1 ==> r == n)
  {
    if n == 0 then 1 else n
  }

  /** The ones'-complement residue of a number: the one from 1 to m - 1 that is
      congruent to it, or zero for zero. */
  function Residue(n: nat, m: nat): (r: nat)
    requires m > 1
  {
    if n == 0 then 0 else (n - 1) % (m - 1) + 1
  }

  /** How often the carry goes around on the way to it. */
  function Carries(n: nat, m: nat): (k: nat)
    requires m > 1
  {
    if n == 0 then 0 else (n - 1) / (m - 1)
  }

  /** What these carries take away. */
  function Gone(n: nat, m: nat): (g: nat)
    requires m > 1
  {
    MulNat(Carries(n, m), m - 1);
    Carries(n, m) * (m - 1)
  }

  lemma MulNat(a: nat, b: nat)
    ensures a * b >= 0
  {
  }

  lemma ResidueIs(n: nat, m: nat)
    requires m > 1
    ensures Residue(n, m) < m && Residue(n, m) + Gone(n, m) == n
  {
  }

  lemma ResidueUnique(n: nat, m: nat, s: nat, k: nat)
    requires m > 1 && s < m && s + k * (m - 1) == n && (s == 0 <==> n == 0)
    ensures s == Residue(n, m)
  {
    if n > 0 {
      assert n - 1 == (m - 1) * k + (s - 1);
      ModUnique(n - 1, m - 1, k, s - 1);
    }
  }

  lemma TwoOrMore(n: nat)
    requires n > 0
    ensures Pow2(n) >= 2
  {
  }

  /** So the sum with end-around carry is the residue of the plain sum. */
  lemma SumIsResidue(stream: seq<bool>, m: nat, c: nat, pad: nat)
    requires c * m <= |stream| && m > 0
    ensures Pow2(m + pad) >= 2
    ensures SumTerms(stream, m, c, pad) == Residue(Pow2(pad) * PlainSum(stream, m, c), Pow2(m + pad))
  {
    hide SumTerms, PlainSum, Pow2, Residue;
    TwoOrMore(m + pad);
    var k := CountCarries(stream, m, c, pad);
    ZeroOnlyIfZero(stream, m, c, pad);
    var plain := PlainSum(stream, m, c);
    assert Pow2(pad) * plain == 0 <==> plain == 0 by { MulGap(Pow2(pad), 0, Max1(plain)); }
    ResidueUnique(Pow2(pad) * plain, Pow2(m + pad), SumTerms(stream, m, c, pad), k);
  }

  /** The ones'-complement sum of the chunks in closed form, which also tells
      zero from 2^m - 1. */
  lemma ChunkSumIs(stream: seq<bool>, m: nat, c: nat)
    requires c * m <= |stream| && m > 0
    ensures Pow2(m) >= 2 && ChunkSum(stream, m, c) == Residue(PlainSum(stream, m, c), Pow2(m))
  {
    hide SumTerms, PlainSum, Residue;
    UnpaddedSum(stream, m, c);
    SumIsResidue(stream, m, c, 0);
    assert Pow2(0) == 1;
  }

  predicate Divides(d: nat, n: nat)
    requires d > 0
  {
    n % d == 0
  }

  lemma DividesTimes(d: nat, n: nat, t: int)
    requires d > 0 && n == d * t
    ensures Divides(d, n)
  {
    ModUnique(n, d, t, 0);
  }

  /** Padding to a multiple of p and reducing modulo q * p - 1 agrees with
      reducing modulo q - 1 and padding then exactly when what the second
      reduction takes away is a multiple of q * p - 1. */
  lemma PaddedResidue(n: nat, q: nat, p: nat)
    requires q >= 2 && p >= 1
    ensures q * p >= 2
    ensures Residue(p * n, q * p) == p * Residue(n, q) <==> Divides(q * p - 1, Gone(n, q))
  {
    hide Residue, Gone, Divides;
    MulGap(q, 0, p);
    if Residue(p * n, q * p) == p * Residue(n, q) { PaddedDivides(n, q, p); }
    if Divides(q * p - 1, Gone(n, q)) { DividesPadded(n, q, p); }
  }

  lemma PaddedDivides(n: nat, q: nat, p: nat)
    requires q >= 2 && p >= 1 && q * p >= 2 && Residue(p * n, q * p) == p * Residue(n, q)
    ensures Divides(q * p - 1, Gone(n, q))
  {
    hide Residue, Carries, Divides;
    var r, gone, k := Residue(n, q), Gone(n, q), Carries(p * n, q * p);
    assert Gone(p * n, q * p) == k * (q * p - 1);
    ResidueIs(n, q);
    ResidueIs(p * n, q * p);
    Spread(p, r, gone);
    Undo(p, q, gone, k);
    DividesTimes(q * p - 1, gone, q * k - gone);
  }

  lemma DividesPadded(n: nat, q: nat, p: nat)
    requires q >= 2 && p >= 1 && q * p >= 2 && Divides(q * p - 1, Gone(n, q))
    ensures Residue(p * n, q * p) == p * Residue(n, q)
  {
    hide Residue, Gone, Divides;
    var r, gone := Residue(n, q), Gone(n, q);
    ResidueIs(n, q);
    var t := Quotient(gone, q * p - 1);
    Spread(p, r, gone);
    Regroup3(p, t, q * p - 1);
    PaddedFits(p, q, r);
    ZeroTogether(n, q, p);
    ResidueUnique(p * n, q * p, p * r, p * t);
  }

  lemma Spread(p: nat, r: nat, gone: nat)
    ensures p * (r + gone) == p * r + p * gone
  {
  }

  lemma Regroup3(p: nat, t: nat, d: nat)
    ensures p * (t * d) == p * t * d && p * t >= 0
  {
  }

  lemma Quotient(n: nat, d: nat) returns (t: nat)
    requires d > 0 && Divides(d, n)
    ensures n == t * d
  {
    t := n / d;
  }

  lemma PaddedFits(p: nat, q: nat, r: nat)
    requires r < q && p >= 1
    ensures p * r < q * p
  {
    MulGap(p, r, q);
  }

  lemma ZeroTogether(n: nat, q: nat, p: nat)
    requires q >= 2 && p >= 1
    ensures p * Residue(n, q) == 0 <==> p * n == 0
  {
    MulGap(p, 0, Max1(n));
    MulGap(p, 0, Max1(Residue(n, q)));
  }

  /** p is invertible modulo q * p - 1, with inverse q. */
  lemma Undo(p: nat, q: nat, gone: nat, k: nat)
    requires p * gone == k * (q * p - 1)
    ensures gone == (q * p - 1) * (q * k - gone)
  {
    var m := q * p;
    assert q * (p * gone) == m * gone;
    assert q * (k * (m - 1)) == (m - 1) * (q * k);
    assert (m - 1) * (q * k - gone) == (m - 1) * (q * k) - (m - 1) * gone;
    assert (m - 1) * gone == m * gone - gone;
  }

  /** The sum of the chunks as plain numbers. */
  function Plain(input: bytes, m: nat): (v: nat)
    requires input != [] && m > 0
  {
    PlainSum(Stream(input, m), m, Lcm(8 * |input|, m) / m)
  }

  /** The ones'-complement sum of the chunks, at the front of whole bytes. */
  function Wanted(input: bytes, m: nat): (v: nat)
    requires input != [] && m > 0
  {
    var pad: nat := 8 * Size(m) - m;
    Shifted(ChunkSum(Stream(input, m), m, Lcm(8 * |input|, m) / m), pad)
  }

  function Shifted(v: nat, pad: nat): (r: nat) { MulNat(Pow2(pad), v); Pow2(pad) * v }

  /** The carries of this sum together take away a multiple of the modulus of
      the bytes. */
  predicate CarriesCancel(plain: nat, m: nat)
    requires m > 0
  {
    TwoOrMore(m);
    TwoOrMore(8 * Size(m));
    Divides(Pow2(8 * Size(m)) - 1, Gone(plain, Pow2(m)))
  }

  /** For any input and any number of bits, nFold is the ones'-complement sum of
      the chunks exactly when the carries cancel. */
  lemma FoldExact(input: bytes, m: nat)
    requires input != [] && m > 0
    ensures Folded(input, m) == Wanted(input, m) <==> CarriesCancel(Plain(input, m), m)
  {
    hide Stream, Lcm, SumTerms, ChunkSum, PlainSum, Pow2, Divides, Gone, Residue;
    var stream, c, pad := Stream(input, m), Lcm(8 * |input|, m) / m, 8 * Size(m) - m;
    SumIsResidue(stream, m, c, pad);
    ChunkSumIs(stream, m, c);
    Pow2Add(m, pad);
    PaddedResidue(PlainSum(stream, m, c), Pow2(m), Pow2(pad));
  }

  lemma NoneBelow(n: nat, q: nat)
    requires n < q && q >= 2
    ensures Gone(n, q) == 0
  {
    if n > 0 { ModUnique(n - 1, q - 1, 0, n - 1); }
  }

  lemma SomeFrom(n: nat, q: nat)
    requires 2 <= q <= n
    ensures 0 < Gone(n, q) < n
  {
    var k, r := (n - 1) / (q - 1), (n - 1) % (q - 1);
    assert n - 1 == (q - 1) * k + r;
    ResidueIs(n, q);
  }

  lemma WholeTurns(n: nat, q: nat)
    requires q >= 2
    ensures Divides(q - 1, Gone(n, q))
  {
    hide Carries;
    DividesTimes(q - 1, Gone(n, q), Carries(n, q));
  }

  lemma DividesZero(d: nat)
    requires d > 0
    ensures Divides(d, 0)
  {
  }

  /** They do when the bits fill the bytes, and when there is no carry. */
  lemma CancelWhen(plain: nat, m: nat)
    requires m > 0 && (m % 8 == 0 || plain < Pow2(m))
    ensures CarriesCancel(plain, m)
  {
    hide Pow2, Gone, Divides;
    TwoOrMore(m);
    TwoOrMore(8 * Size(m));
    if plain < Pow2(m) {
      NoneBelow(plain, Pow2(m));
      DividesZero(Pow2(8 * Size(m)) - 1);
    } else {
      WholeBytes(m);
      WholeTurns(plain, Pow2(m));
    }
  }

  lemma SmallerNot(d: nat, n: nat)
    requires 0 < n < d
    ensures !Divides(d, n)
  {
    ModUnique(n, d, 0, n);
  }

  /** They do not when there is a carry and the chunks add up to at most that
      modulus. */
  lemma FewCarries(plain: nat, m: nat)
    requires m > 0 && Pow2(m) <= plain < Pow2(8 * Size(m))
    ensures !CarriesCancel(plain, m)
  {
    hide Pow2, Gone, Divides;
    TwoOrMore(m);
    SomeFrom(plain, Pow2(m));
    SmallerNot(Pow2(8 * Size(m)) - 1, Gone(plain, Pow2(m)));
  }

  /** To four bits the source adds the carry to the wrong end: folding the octet
      ff gives e1, where the sum of its two chunks is the nibble f. */
  lemma NibbleCarry()
    ensures Folded([0xff], 4) == 0xe1
    ensures Lcm(8, 4) / 4 * 4 <= |Stream([0xff], 4)| && ChunkSum(Stream([0xff], 4), 4, Lcm(8, 4) / 4) == 0xf
  {
    hide Folded, Stream;
    OnesStream();
    var s := Stream([0xff], 4);
    assert GcdOf(8, 4) == GcdOf(4, 0) == 4;
    assert Lcm(8, 4) / 4 == 2;
    var four := [true, true, true, true];
    assert s[0..4] == four && s[4..8] == four;
    NibbleValues();
    FoldedTwice(s);
    assert ChunkSum(s, 4, 1) == OnesAdd(0, 15, 16);
    assert ChunkSum(s, 4, 2) == OnesAdd(15, 15, 16);
  }

  const EIGHT: seq<bool> := [true, true, true, true, true, true, true, true]

  lemma OnesStream()
    ensures Stream([0xff], 4) == EIGHT
    ensures Folded([0xff], 4) == SumTerms(Stream([0xff], 4), 4, 2, 4)
  {
    hide Lcm, AllBits, Copies, SumTerms;
    OnesBits();
    EightFour();
    OneCopy(EIGHT);
  }

  lemma EightFour()
    ensures Lcm(8, 4) == 8
  {
    assert GcdOf(8, 4) == GcdOf(4, 0) == 4;
  }

  lemma BitsStep(v: nat, n: nat)
    ensures BitsOf(v, n + 1) == BitsOf(v / 2, n) + [v % 2 == 1]
  {
  }

  lemma OnesBits()
    ensures AllBits([0xff]) == EIGHT
  {
    assert ByteBits(0xff) == EIGHT by {
      hide BitsOf;
      BitsStep(255, 7); BitsStep(127, 6); BitsStep(63, 5); BitsStep(31, 4);
      BitsStep(15, 3); BitsStep(7, 2); BitsStep(3, 1); BitsStep(1, 0);
    }
    assert AllBits([0xff][..0]) == [];
  }

  lemma OneCopy(bits: seq<bool>)
    requires bits != []
    ensures Copies(bits, 1) == bits
  {
    assert RotateRight(bits, 0) == bits;
    assert Copies(bits, 1) == [] + RotateRight(bits, 0);
  }

  lemma NibbleValues()
    ensures Value([true, true, true, true]) == 15 && Pow2(4) == 16 && Pow2(8) == 256
    ensures Value([true, true, true, true] + Falses(4)) == 240
  {
    var four := [true, true, true, true];
    assert four[..3] == [true, true, true] && four[..3][..2] == [true, true] && four[..3][..2][..1] == [true];
    assert Value([true]) == 1;
    assert Value([true, true]) == 3;
    assert Value([true, true, true]) == 7;
    Pow2Eight();
    ValueConcat(four, Falses(4));
    ValueOfFalses(4);
    assert Pow2(4) == 16;
  }

  lemma {:induction false} ValueOfFalses(n: nat)
    ensures Value(Falses(n)) == 0
  {
    if n > 0 {
      ValueConcat([false], Falses(n - 1));
      assert Value([false]) == 0;
      ValueOfFalses(n - 1);
    }
  }

  lemma FoldedTwice(s: seq<bool>)
    requires |s| == 8 && s[0..4] == [true, true, true, true] && s[4..8] == [true, true, true, true]
    ensures SumTerms(s, 4, 2, 4) == 0xe1
  {
    NibbleValues();
    assert Term(s, 4, 0, 4) == 240 && Term(s, 4, 1, 4) == 240;
    assert SumTerms(s, 4, 1, 4) == OnesAdd(0, 240, 256);
    assert SumTerms(s, 4, 2, 4) == OnesAdd(240, 240, 256);
  }
}
