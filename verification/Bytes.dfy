/** Octets, fixed-width integers in network and little-endian order, and the
    optional result every decoder in this project returns. */
module Bytes {

  type byte = x: int | 0 <= x < 256
  type bytes = seq<byte>

  datatype Option<+T> = None | Some(value: T) {
    predicate IsFailure() { None? }
    function PropagateFailure<U>(): Option<U>
      requires None?
    { None }
    function Extract(): T
      requires Some?
    { value }
  }

  function Bit(b: bool): (n: nat) { if b then 1 else 0 }

  function Pow256(n: nat): (p: nat)
    ensures p > 0
  {
    if n == 0 then 1 else 256 * Pow256(n - 1)
  }

  lemma Pow256Values()
    ensures Pow256(1) == 0x100 && Pow256(2) == 0x1_0000 && Pow256(4) == 0x1_0000_0000
    ensures Pow256(8) == 0x1_0000_0000_0000_0000
  {
    assert Pow256(4) == 256 * Pow256(3) == 256 * (256 * Pow256(2));
    assert Pow256(8) == 256 * Pow256(7) == 256 * (256 * Pow256(6));
    assert Pow256(6) == 256 * Pow256(5) == 256 * (256 * Pow256(4));
  }

  /** The number a byte string denotes, most significant byte first. */
  function BE(b: bytes): (n: nat) {
    if b == [] then 0 else BE(b[..|b| - 1]) * 256 + b[|b| - 1]
  }

  /** The low n bytes of v, most significant byte first. */
  function ToBE(v: nat, n: nat): (b: bytes)
    ensures |b| == n
  {
    if n == 0 then [] else ToBE(v / 256, n - 1) + [v % 256]
  }

  lemma {:induction false} BEBound(b: bytes)
    ensures BE(b) < Pow256(|b|)
  {
    if b != [] { BEBound(b[..|b| - 1]); }
  }

  lemma {:induction false} BEOfToBE(v: nat, n: nat)
    requires v < Pow256(n)
    ensures BE(ToBE(v, n)) == v
  {
    if n > 0 {
      BEOfToBE(v / 256, n - 1);
      assert ToBE(v, n)[..n - 1] == ToBE(v / 256, n - 1);
    }
  }

  lemma {:induction false} ToBEOfBE(b: bytes)
    ensures ToBE(BE(b), |b|) == b
  {
    if b != [] {
      ToBEOfBE(b[..|b| - 1]);
      assert b == b[..|b| - 1] + [b[|b| - 1]];
    }
  }

  lemma {:induction false} HeadWeight(b: bytes)
    requires b != []
    ensures BE(b) == b[0] * Pow256(|b| - 1) + BE(b[1..])
    decreases |b|
  {
    if |b| == 1 {
      assert BE(b) == b[0];
    } else {
      var init := b[..|b| - 1];
      HeadWeight(init);
      assert b[1..][..|b| - 2] == init[1..];
      assert init[0] == b[0];
    }
  }

  /** The low n bytes of v, least significant byte first. */
  function ToLE(v: nat, n: nat): (b: bytes)
    ensures |b| == n
  {
    if n == 0 then [] else [v % 256] + ToLE(v / 256, n - 1)
  }

  const TWO16: nat := 0x1_0000
  const TWO32: nat := 0x1_0000_0000
  const TWO63: nat := 0x8000_0000_0000_0000
  const TWO64: nat := 0x1_0000_0000_0000_0000

  type int32 = x: int | -0x8000_0000 <= x < 0x8000_0000
  type uint16 = x: int | 0 <= x < 0x1_0000
  type uint32 = x: int | 0 <= x < 0x1_0000_0000

  /** Conversion of an int32 to the uint32 with the same bits. */
  function ToUnsigned(v: int32): (u: uint32) { if v < 0 then v + 0x1_0000_0000 else v }

  /** Conversion of a uint32 to the int32 with the same bits. */
  function ToSigned(u: uint32): (v: int32) { if u >= 0x8000_0000 then u - 0x1_0000_0000 else u }
}
