/** The n-fold of section 5.1 of RFC 3961. */
module NFold {
  import opened Bytes
  import opened Arithmetic

  // ----- bit strings, most significant bit first

  function Value(bits: seq<bool>): (n: nat) {
    if bits == [] then 0 else 2 * Value(bits[..|bits| - 1]) + Bit(bits[|bits| - 1])
  }

  function BitsOf(v: nat, n: nat): (bits: seq<bool>)
    ensures |bits| == n
  {
    if n == 0 then [] else BitsOf(v / 2, n - 1) + [v % 2 == 1]
  }

  function Pow2(n: nat): (p: nat)
    ensures p > 0
  {
    if n == 0 then 1 else 2 * Pow2(n - 1)
  }

  lemma {:induction false} BitsOfValue(bits: seq<bool>)
    ensures BitsOf(Value(bits), |bits|) == bits && Value(bits) < Pow2(|bits|)
  {
    if bits != [] {
      BitsOfValue(bits[..|bits| - 1]);
      Halve(Value(bits[..|bits| - 1]), bits[|bits| - 1]);
      assert bits == bits[..|bits| - 1] + [bits[|bits| - 1]];
    }
  }

  lemma Halve(v: nat, b: bool)
    ensures (2 * v + Bit(b)) / 2 == v && ((2 * v + Bit(b)) % 2 == 1 <==> b)
  {
  }

  lemma {:induction false} ValueOfBits(v: nat, n: nat)
    requires v < Pow2(n)
    ensures Value(BitsOf(v, n)) == v
    decreases n
  {
    if n > 0 {
      ValueOfBits(v / 2, n - 1);
      assert BitsOf(v, n)[..n - 1] == BitsOf(v / 2, n - 1);
    }
  }

  function ByteBits(b: byte): (bits: seq<bool>)
    ensures |bits| == 8
  {
    BitsOf(b, 8)
  }

  lemma Pow2Eight()
    ensures Pow2(8) == 256
  {
    assert Pow2(4) == 16;
    assert Pow2(8) == 2 * (2 * (2 * (2 * Pow2(4))));
  }

  function ByteOf(bits: seq<bool>): (b: byte)
    requires |bits| == 8
  {
    BitsOfValue(bits);
    Pow2Eight();
    Value(bits)
  }

  /** b |= 1 << (7 - i). */
  function SetBit(b: byte, i: nat): (r: byte)
    requires i < 8
  {
    ByteOf(ByteBits(b)[i := true])
  }

  lemma SetBitIs(b: byte, i: nat)
    requires i < 8
    ensures ByteBits(SetBit(b, i)) == ByteBits(b)[i := true]
  {
    BitsOfValue(ByteBits(b)[i := true]);
  }

  function AllBits(bs: bytes): (bits: seq<bool>)
    ensures |bits| == 8 * |bs|
  {
    if bs == [] then [] else AllBits(bs[..|bs| - 1]) + ByteBits(bs[|bs| - 1])
  }

  lemma {:induction false} AllBitsAt(bs: bytes, k: nat)
    requires k < 8 * |bs|
    ensures AllBits(bs)[k] == ByteBits(bs[k / 8])[k % 8]
    decreases |bs|
  {
    hide ByteBits;
    var last := |bs| - 1;
    if k < 8 * last { AllBitsAt(bs[..last], k); }
  }

  lemma {:induction false} ValueConcat(a: seq<bool>, b: seq<bool>)
    ensures Value(a + b) == Value(a) * Pow2(|b|) + Value(b)
    decreases |b|
  {
    hide Value;
    if b == [] {
      assert a + b == a;
      EmptyValue();
    } else {
      var init := b[..|b| - 1];
      ValueConcat(a, init);
      ValueSnoc(a + init, b[|b| - 1]);
      ValueSnoc(init, b[|b| - 1]);
      assert a + init + [b[|b| - 1]] == a + b && init + [b[|b| - 1]] == b;
      Distribute(Value(a), Pow2(|init|));
    }
  }

  lemma EmptyValue()
    ensures Value([]) == 0
  {
  }

  lemma ValueSnoc(bits: seq<bool>, b: bool)
    ensures Value(bits + [b]) == 2 * Value(bits) + Bit(b)
  {
    assert (bits + [b])[..|bits|] == bits;
  }

  lemma Distribute(v: nat, p: nat)
    ensures 2 * (v * p) == v * (2 * p)
  {
  }

  /** The bits of a byte string denote the number its bytes denote. */
  lemma {:induction false} ValueIsBE(bs: bytes)
    ensures Value(AllBits(bs)) == BE(bs)
  {
    if bs != [] {
      var init, last := bs[..|bs| - 1], bs[|bs| - 1];
      ValueIsBE(init);
      Pow2Eight();
      ValueConcat(AllBits(init), ByteBits(last));
      ValueOfBits(last, 8);
    }
  }

  // ----- the reference

  function RotateRight(bits: seq<bool>, r: nat): (s: seq<bool>)
    requires bits != []
    ensures |s| == |bits|
  {
    var k := |bits| - r % |bits|;
    bits[k..] + bits[..k]
  }

  /** The input c times over, copy i rotated right by 13 * i bits. */
  function Copies(bits: seq<bool>, c: nat): (s: seq<bool>)
    requires bits != []
    ensures |s| == c * |bits|
  {
    if c == 0 then [] else Copies(bits, c - 1) + RotateRight(bits, 13 * (c - 1))
  }

  /** Addition with end-around carry. */
  function OnesAdd(a: nat, b: nat, m: nat): (s: nat)
    requires a < m && b < m
    ensures s < m
  {
    if a + b >= m then a + b - m + 1 else a + b
  }

  /** It is addition modulo m - 1. */
  lemma OnesAddCongruent(a: nat, b: nat, m: nat)
    requires a < m && b < m && m > 1
    ensures OnesAdd(a, b, m) % (m - 1) == (a + b) % (m - 1)
  {
    if a + b >= m { ModMinus(a + b, m - 1); }
  }

  /** A chunk as a number, with zero bits added up to a whole number of bytes. */
  function Term(stream: seq<bool>, m: nat, j: nat, pad: nat): (v: nat)
    requires (j + 1) * m <= |stream|
    ensures v < Pow2(m + pad)
  {
    ChunkBounds(j, m);
    var bits := stream[j * m..j * m + m] + Falses(pad);
    BitsOfValue(bits);
    Value(bits)
  }

  lemma ChunkBounds(j: nat, m: nat)
    ensures (j + 1) * m == j * m + m && 0 <= j * m
  {
  }

  function Falses(n: nat): (bits: seq<bool>)
    ensures |bits| == n && forall i | 0 <= i < n :: !bits[i]
  {
    if n == 0 then [] else [false] + Falses(n - 1)
  }

  /** The ones'-complement sum of the first c chunks. */
  function SumTerms(stream: seq<bool>, m: nat, c: nat, pad: nat): (v: nat)
    requires c * m <= |stream|
    ensures v < Pow2(m + pad)
  {
    if c == 0 then 0
    else
      ChunkBounds(c - 1, m);
      OnesAdd(SumTerms(stream, m, c - 1, pad), Term(stream, m, c - 1, pad), Pow2(m + pad))
  }
}
