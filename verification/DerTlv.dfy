/** The tag-length-value layer of the DER codec and the two's-complement
    contents of INTEGER. */
module DerTlv {
  import opened Bytes

  datatype TLV = TLV(tag: byte, content: bytes, end: nat)

  // ----- lengths

  /** The big-endian digits of n without leading zeros. */
  function Digits(n: nat): (d: bytes) {
    if n == 0 then [] else Digits(n / 256) + [n % 256]
  }

  lemma {:induction false} DigitsDenote(n: nat)
    ensures BE(Digits(n)) == n
    ensures n > 0 ==> Digits(n) != [] && Digits(n)[0] != 0
  {
    if n > 0 {
      DigitsDenote(n / 256);
      assert Digits(n)[..|Digits(n)| - 1] == Digits(n / 256);
    }
  }

  lemma {:induction false} DigitsUnique(d: bytes)
    requires d == [] || d[0] != 0
    ensures Digits(BE(d)) == d
  {
    hide Digits, BE;
    DigitsOfZero();
    if d != [] {
      var init, last := d[..|d| - 1], d[|d| - 1];
      assert d == init + [last];
      DigitsUnique(init);
      BESnoc(init, last);
      DigitsStep(BE(init), last);
    }
  }

  lemma DigitsOfZero()
    ensures Digits(0) == [] && BE([]) == 0
  {
  }

  lemma BESnoc(init: bytes, last: byte)
    ensures BE(init + [last]) == BE(init) * 256 + last
  {
    assert (init + [last])[..|init|] == init;
  }

  lemma DigitsStep(q: nat, r: byte)
    requires q > 0 || r > 0
    ensures Digits(q * 256 + r) == Digits(q) + [r]
  {
    assert (q * 256 + r) / 256 == q && (q * 256 + r) % 256 == r;
  }

  /** Digits(n) has at most k bytes exactly when n fits in k bytes. */
  lemma {:induction false} DigitsCount(n: nat, k: nat)
    ensures |Digits(n)| <= k <==> n < Pow256(k)
    decreases k
  {
    if n > 0 && k > 0 {
      DigitsCount(n / 256, k - 1);
      assert n < 256 * Pow256(k - 1) <==> n / 256 < Pow256(k - 1);
    }
  }

  /** encodeLength. The four-byte buffer overflows, and the program stops, for
      lengths of 2^32 and above. */
  function EncodeLength(n: nat): (r: Option<bytes>) {
    if n < 128 then Some([n])
    else if n < TWO32 then
      DigitsCount(n, 4); Pow256Values();
      Some([0x80 + |Digits(n)|] + Digits(n))
    else None
  }

  /** readLength: the length and the number of bytes it occupies. */
  function ReadLength(data: bytes): (r: Option<(nat, nat)>)
    ensures r.Some? ==> 1 <= r.value.1 <= |data|
  {
    if data == [] then None
    else if data[0] < 128 then Some((data[0], 1))
    else
      var count := data[0] - 128;
      if count == 0 || count > 4 || |data| < count + 1 || data[1] == 0 then None
      else
        var length := BE(data[1..count + 1]);
        if length < 128 then None else Some((length, count + 1))
  }

  lemma ReadsEncodedLength(n: nat, rest: bytes)
    requires EncodeLength(n).Some?
    ensures ReadLength(EncodeLength(n).value + rest) == Some((n, |EncodeLength(n).value|))
  {
    if n >= 128 {
      DigitsDenote(n);
      DigitsCount(n, 4);
      Pow256Values();
      var data := EncodeLength(n).value + rest;
      assert data[1..|Digits(n)| + 1] == Digits(n);
    }
  }

  lemma EncodesReadLength(data: bytes)
    requires ReadLength(data).Some?
    ensures EncodeLength(ReadLength(data).value.0) == Some(data[..ReadLength(data).value.1])
  {
    if data[0] >= 128 {
      var count := data[0] - 128;
      var d := data[1..count + 1];
      DigitsUnique(d);
      BEBound(d);
      DigitsCount(BE(d), count);
      DigitsCount(BE(d), 4);
      Pow256Values();
      assert data[..count + 1] == [data[0]] + d;
    } else {
      assert data[..1] == [data[0]];
    }
  }

  // ----- tag, length, value

  /** encodeTLV. */
  function EncodeTLV(tag: byte, content: bytes): (r: Option<bytes>) {
    var length :- EncodeLength(|content|);
    Some([tag] + length + content)
  }

  /** readTLV. */
  function ReadTLV(data: bytes): (r: Option<TLV>)
    ensures r.Some? ==> 2 <= r.value.end <= |data| && |r.value.content| < r.value.end
  {
    if |data| < 2 then None
    else
      var (length, header) :- ReadLength(data[1..]);
      if length > |data| - header - 1 then None
      else Some(TLV(data[0], data[1 + header..1 + header + length], 1 + header + length))
  }

  lemma ReadsEncodedTLV(tag: byte, content: bytes, rest: bytes)
    requires EncodeTLV(tag, content).Some?
    ensures ReadTLV(EncodeTLV(tag, content).value + rest)
         == Some(TLV(tag, content, |EncodeTLV(tag, content).value|))
  {
    var length := EncodeLength(|content|).value;
    var data := EncodeTLV(tag, content).value + rest;
    ReadsEncodedLength(|content|, content + rest);
    assert data[1..] == length + (content + rest);
    assert data[1 + |length|..1 + |length| + |content|] == content;
  }

  /** Canonical DER: a TLV that reads is the encoding of what was read. */
  lemma EncodesReadTLV(data: bytes)
    requires ReadTLV(data).Some?
    ensures var t := ReadTLV(data).value; EncodeTLV(t.tag, t.content) == Some(data[..t.end])
  {
    EncodesReadLength(data[1..]);
    var t := ReadTLV(data).value;
    var header := ReadLength(data[1..]).value.1;
    assert data[..t.end] == [data[0]] + data[1..][..header] + t.content;
  }

  /** Reading looks only at the element itself. */
  lemma ReadTLVExtend(data: bytes, rest: bytes)
    requires ReadTLV(data).Some?
    ensures ReadTLV(data + rest) == ReadTLV(data)
  {
    var t := ReadTLV(data).value;
    EncodesReadTLV(data);
    ReadsEncodedTLV(t.tag, t.content, data[t.end..] + rest);
    assert data + rest == data[..t.end] + (data[t.end..] + rest);
  }

  // ----- INTEGER contents

  /** The two's-complement value of a non-empty byte string. */
  function Signed(b: bytes): (n: int) {
    if b != [] && b[0] >= 128 then BE(b) - Pow256(|b|) else BE(b)
  }

  /** Section 8.3.2 of X.690: the first nine bits are not all equal. */
  predicate Minimal(b: bytes) {
    |b| >= 1 && (|b| > 1 ==> !(b[0] == 0 && b[1] < 128) && !(b[0] == 255 && b[1] >= 128))
  }

  /** The shortest two's-complement form of n. */
  function IntBytes(n: int): (b: bytes)
    decreases if n < 0 then -n else n
  {
    if -128 <= n < 128 then [n % 256] else IntBytes(n / 256) + [n % 256]
  }

  lemma {:induction false} SignedSnoc(b: bytes, x: byte)
    requires b != []
    ensures Signed(b + [x]) == Signed(b) * 256 + x
  {
    assert (b + [x])[..|b|] == b;
  }

  lemma {:induction false} IntBytesDenote(n: int)
    ensures Signed(IntBytes(n)) == n && Minimal(IntBytes(n))
    ensures |IntBytes(n)| == 1 <==> -128 <= n < 128
    decreases if n < 0 then -n else n
  {
    if -128 <= n < 128 {
      assert BE([n % 256]) == n % 256;
    } else {
      var q := n / 256;
      IntBytesDenote(q);
      SignedSnoc(IntBytes(q), n % 256);
      if |IntBytes(q)| == 1 {
        assert IntBytes(q)[0] == q % 256;
      }
    }
  }

  lemma {:induction false} SignedRange(b: bytes)
    requires b != []
    ensures 0 - Pow256(|b|) <= 2 * Signed(b) < Pow256(|b|)
    ensures Signed(b) < 0 <==> b[0] >= 128
    decreases |b|
  {
    if |b| == 1 {
      assert BE(b) == b[0];
    } else {
      var init, last := b[..|b| - 1], b[|b| - 1];
      SignedRange(init);
      SignedSnoc(init, last);
      assert b == init + [last];
      RangeStep(Signed(init), last, Pow256(|init| - 1));
    }
  }

  lemma RangeStep(n: int, x: byte, q: nat)
    requires 0 - 256 * q <= 2 * n < 256 * q
    ensures 0 - 256 * (256 * q) <= 2 * (n * 256 + x) < 256 * (256 * q)
  {
  }

  /** A minimal form is determined by its value. */
  lemma {:induction false} IntBytesUnique(b: bytes)
    requires Minimal(b)
    ensures IntBytes(Signed(b)) == b
    decreases |b|
  {
    SignedRange(b);
    if |b| == 1 {
      assert BE(b) == b[0];
    } else {
      var init := b[..|b| - 1];
      var last := b[|b| - 1];
      assert b == init + [last];
      SignedSnoc(init, last);
      if |init| == 1 {
        assert BE(init) == init[0];
        assert Signed(b) < -128 || Signed(b) >= 128;
      } else {
        SignedRange(init);
        SignedLarge(init);
      }
      IntBytesUnique(init);
      assert Signed(b) / 256 == Signed(init) && Signed(b) % 256 == last;
    }
  }

  /** A minimal form of two or more bytes lies outside one byte's range. */
  lemma {:induction false} SignedLarge(b: bytes)
    requires Minimal(b) && |b| >= 2
    ensures Signed(b) < -128 || Signed(b) >= 128
    decreases |b|
  {
    var init := b[..|b| - 1];
    assert b == init + [b[|b| - 1]];
    SignedSnoc(init, b[|b| - 1]);
    if |b| == 2 {
      assert BE(init) == init[0];
    } else {
      SignedLarge(init);
    }
  }

  /** The shortest form has at most k bytes exactly for k-byte integers. */
  lemma {:induction false} IntBytesCount(n: int, k: nat)
    requires k >= 1
    ensures |IntBytes(n)| <= k <==> 0 - Pow256(k) <= 2 * n < Pow256(k)
    decreases k
  {
    if !(-128 <= n < 128) {
      if k > 1 { IntBytesCount(n / 256, k - 1); }
    } else {
      assert Pow256(k) >= 256 by { assert Pow256(k) == 256 * Pow256(k - 1); }
    }
  }

  /** decodeInteger. */
  function DecodeInteger(b: bytes): (r: Option<int>) {
    if b == [] || |b| > 8 || !Minimal(b) then None else Some(Signed(b))
  }

  /** decodeUnsignedInteger: values of 2^32 and above are refused. */
  function DecodeUnsignedInteger(b: bytes): (r: Option<int>) {
    if b == [] || |b| > 9 then None
    else if |b| > 1 && b[0] == 0 && b[1] < 128 then None
    else if b[0] >= 128 then None
    else if |b| > 5 || (|b| == 5 && b[0] != 0) then None
    else Some(BE(b))
  }

  /** decodeInteger accepts exactly the shortest forms of 64-bit values. */
  lemma DecodeIntegerExact(b: bytes, n: int)
    ensures DecodeInteger(b) == Some(n) <==> 0 - TWO63 <= n < TWO63 && b == IntBytes(n)
  {
    Pow256Values();
    IntBytesCount(n, 8);
    IntBytesDenote(n);
    if DecodeInteger(b) == Some(n) { IntBytesUnique(b); }
  }

  /** decodeUnsignedInteger accepts exactly the shortest forms of 32-bit values. */
  lemma DecodeUnsignedExact(b: bytes, n: int)
    ensures DecodeUnsignedInteger(b) == Some(n) <==> 0 <= n < TWO32 && b == IntBytes(n)
  {
    Pow256Values();
    if DecodeUnsignedInteger(b) == Some(n) {
      assert Minimal(b);
      IntBytesUnique(b);
      SignedRange(b);
      BEBound(b);
      UnsignedRange(b);
    }
    if 0 <= n < TWO32 && b == IntBytes(n) {
      IntBytesDenote(n);
      SignedRange(b);
      IntBytesCount(n, 5);
      assert Pow256(5) == 256 * Pow256(4);
      UnsignedRange(b);
    }
  }

  lemma UnsignedRange(b: bytes)
    requires 1 <= |b| <= 5 && b[0] < 128
    ensures BE(b) < TWO32 <==> |b| < 5 || b[0] == 0
  {
    Pow256Values();
    BEBound(b);
    assert Pow256(3) == 256 * Pow256(2);
    if |b| == 5 {
      HeadWeight(b);
      BEBound(b[1..]);
    }
  }
}
