/** UnwrapIOV after WrapIOV, and the flat token behind the buffers. */
module GssIovTheorems {
  import opened Bytes
  import opened GssToken
  import opened GssIov

  // ----- buffers under writing

  lemma {:induction false} PutCounts(iov: Iov, t: BufferType, value: bytes, u: BufferType)
    ensures Count(Put(iov, t, value), u) == Count(iov, u)
    ensures t != DATA ==> Unsized(Put(iov, t, value)) == Unsized(iov)
  {
    if iov != [] {
      PutCounts(iov[1..], t, value, u);
      assert Put(iov, t, value)[1..] == Put(iov[1..], t, value);
    }
  }

  lemma {:induction false} PutOther(iov: Iov, t: BufferType, value: bytes, u: BufferType)
    requires u != t || Count(iov, t) == 0
    ensures Pick(Put(iov, t, value), u) == Pick(iov, u)
  {
    if iov != [] {
      PutOther(iov[1..], t, value, u);
      assert Put(iov, t, value)[1..] == Put(iov[1..], t, value);
    }
  }

  lemma {:induction false} PutOnly(iov: Iov, t: BufferType, value: bytes)
    requires Count(iov, t) == 1
    ensures Pick(Put(iov, t, value), t) == value
  {
    assert Put(iov, t, value)[1..] == Put(iov[1..], t, value);
    if iov[0].typ == t {
      PutOther(iov[1..], t, value, t);
      NoneOfType(iov[1..], t);
      assert Body(Filled(iov[0], value)) + [] == value;
    } else {
      PutOnly(iov[1..], t, value);
    }
  }

  lemma {:induction false} EmptiedPick(iov: Iov, u: BufferType)
    ensures Count(Emptied(iov), u) == Count(iov, u)
    ensures Pick(Emptied(iov), u) == if u == PADDING then [] else Pick(iov, u)
    ensures Unsized(Emptied(iov)) == Unsized(iov)
  {
    if iov != [] {
      EmptiedPick(iov[1..], u);
      assert Emptied(iov)[1..] == Emptied(iov[1..]);
    }
  }

  lemma {:induction false} SpreadPick(iov: Iov, value: bytes, u: BufferType)
    requires |Pick(iov, DATA)| == |value|
    ensures Count(Spread(iov, value, []), u) == Count(iov, u)
    ensures Pick(Spread(iov, value, []), u) == if u == DATA then value else Pick(iov, u)
    ensures Unsized(Spread(iov, value, [])) == Unsized(iov)
    decreases |iov|
  {
    if iov != [] {
      if iov[0].typ == DATA {
        var n := |Body(iov[0])|;
        SpreadPick(iov[1..], value[n..], u);
        assert Spread(iov, value, [])[1..] == Spread(iov[1..], value[n..], []);
        assert value == value[..n] + value[n..];
      } else {
        SpreadPick(iov[1..], value, u);
        assert Spread(iov, value, [])[1..] == Spread(iov[1..], value, []);
      }
    }
  }

  /** The same buffers up to HEADER, PADDING and TRAILER contents and up to what
      stands in DATA buffers of the same sizes. */
  predicate SameShape(a: Iov, b: Iov) {
    |a| == |b| && forall i | 0 <= i < |a| :: SameSlot(a[i], b[i])
  }

  predicate SameSlot(a: Buffer, b: Buffer) {
    && a.typ == b.typ
    && (a.typ == DATA ==> a.content.Some? == b.content.Some? && |Body(a)| == |Body(b)|)
    && (a.typ == SIGN_ONLY ==> a.content == b.content)
  }

  /** The message buffers hold what they held. */
  predicate Restored(a: Iov, b: Iov) {
    |a| == |b| && forall i | 0 <= i < |a| ::
      a[i].typ == b[i].typ && (a[i].typ == DATA || a[i].typ == SIGN_ONLY ==> a[i].content == b[i].content)
  }

  lemma {:induction false} PutShape(iov: Iov, t: BufferType, value: bytes)
    requires t != DATA && t != SIGN_ONLY
    ensures SameShape(Put(iov, t, value), iov)
  {
    if iov != [] { PutShape(iov[1..], t, value); }
  }

  lemma {:induction false} EmptiedShape(iov: Iov)
    ensures SameShape(Emptied(iov), iov)
  {
    if iov != [] { EmptiedShape(iov[1..]); }
  }

  lemma {:induction false} SpreadShape(iov: Iov, value: bytes)
    requires |Pick(iov, DATA)| == |value|
    ensures SameShape(Spread(iov, value, []), iov)
    decreases |iov|
  {
    if iov != [] {
      if iov[0].typ == DATA {
        SpreadShape(iov[1..], value[|Body(iov[0])|..]);
      } else {
        SpreadShape(iov[1..], value);
      }
    }
  }

  lemma {:induction false} ShapeLengths(a: Iov, b: Iov)
    requires SameShape(a, b)
    ensures |Pick(a, DATA)| == |Pick(b, DATA)| && Unsized(a) == Unsized(b)
    ensures Pick(a, SIGN_ONLY) == Pick(b, SIGN_ONLY) && Count(a, SIGN_ONLY) == Count(b, SIGN_ONLY)
    decreases |a|
  {
    if a != [] {
      assert SameSlot(a[0], b[0]);
      assert SameShape(a[1..], b[1..]);
      ShapeLengths(a[1..], b[1..]);
    }
  }

  /** Dealing the original data out over buffers of the same shape restores it. */
  lemma {:induction false} SpreadRestores(a: Iov, b: Iov)
    requires SameShape(a, b) && |Pick(a, DATA)| == |Pick(b, DATA)|
    ensures Restored(Spread(a, Pick(b, DATA), []), b)
    decreases |a|
  {
    if a != [] {
      var data := Pick(b, DATA);
      assert SameSlot(a[0], b[0]);
      assert SameShape(a[1..], b[1..]);
      ShapeLengths(a[1..], b[1..]);
      SpreadRestores(a[1..], b[1..]);
      if a[0].typ == DATA {
        var n := |Body(a[0])|;
        assert data[..n] == Body(b[0]) && data[n..] == Pick(b[1..], DATA);
      } else {
        assert data == Pick(b[1..], DATA);
      }
    }
  }

  lemma {:induction false} OrderedWithSame(a: Iov, b: Iov)
    requires SameShape(a, b) && |Pick(a, DATA)| == |Pick(b, DATA)|
    ensures OrderedWith(a, Pick(b, DATA)) == Ordered(b)
    decreases |a|
  {
    if a != [] {
      var data := Pick(b, DATA);
      assert SameSlot(a[0], b[0]);
      assert SameShape(a[1..], b[1..]);
      ShapeLengths(a[1..], b[1..]);
      OrderedWithSame(a[1..], b[1..]);
      if a[0].typ == DATA {
        var n := |Body(a[0])|;
        assert data[..n] == Body(b[0]) && data[n..] == Pick(b[1..], DATA);
      } else {
        assert data == Pick(b[1..], DATA);
      }
    } else {
      assert Pick(b, DATA) == [];
    }
  }

  // ----- the buffers WrapIOV leaves

  /** The parts of a wrapped message and where they went. */
  ghost predicate Wrapped(c: Crypto, ctx: Ctx, iov: Iov, sealed: bool, token: bytes, out: Iov)
  {
    var h, n := HeaderLength(sealed), |Pick(iov, DATA)|;
    && WrapLayout(out) && SameShape(out, iov) && Unsized(iov) <= 1
    && |token| == h + n + (if sealed then 16 else 0) + c.checksumSize
    && Pick(out, HEADER) == token[..h] && Pick(out, DATA) == token[h..h + n] && Pick(out, PADDING) == []
    && Pick(out, TRAILER) == TrailerOf(ctx, token, sealed, n)
  }

  lemma ShapeTransitive(a: Iov, b: Iov, d: Iov)
    requires SameShape(a, b) && SameShape(b, d)
    ensures SameShape(a, d)
  {
    forall i | 0 <= i < |a|
      ensures SameSlot(a[i], d[i])
    {
      assert SameSlot(a[i], b[i]) && SameSlot(b[i], d[i]);
    }
  }

  /** Header, data and trailer put into their buffers. */
  function Assembled(iov: Iov, header: bytes, value: bytes, trailer: bytes): (r: Iov)
    requires |Pick(iov, DATA)| == |value|
  {
    PutOther(iov, HEADER, header, DATA);
    Emptied(Put(Spread(Put(iov, HEADER, header), value, []), TRAILER, trailer))
  }

  lemma AssembledLayout(iov: Iov, header: bytes, value: bytes, trailer: bytes)
    requires WrapLayout(iov) && |Pick(iov, DATA)| == |value|
    ensures WrapLayout(Assembled(iov, header, value, trailer))
  {
    PutOther(iov, HEADER, header, DATA);
    var first := Put(iov, HEADER, header);
    var spread := Spread(first, value, []);
    forall u: BufferType
      ensures Count(Assembled(iov, header, value, trailer), u) == Count(iov, u)
    {
      PutCounts(iov, HEADER, header, u);
      SpreadPick(first, value, u);
      PutCounts(spread, TRAILER, trailer, u);
      EmptiedPick(Put(spread, TRAILER, trailer), u);
    }
  }

  lemma AssembledParts(iov: Iov, header: bytes, value: bytes, trailer: bytes)
    requires Count(iov, HEADER) == Count(iov, TRAILER) == 1 && |Pick(iov, DATA)| == |value|
    ensures var out := Assembled(iov, header, value, trailer);
            Pick(out, HEADER) == header && Pick(out, DATA) == value && Pick(out, TRAILER) == trailer && Pick(out, PADDING) == []
  {
    PutOther(iov, HEADER, header, DATA);
    var first := Put(iov, HEADER, header);
    var spread := Spread(first, value, []);
    var last := Put(spread, TRAILER, trailer);
    assert Pick(last, HEADER) == header by {
      PutOnly(iov, HEADER, header);
      SpreadPick(first, value, HEADER);
      PutOther(spread, TRAILER, trailer, HEADER);
    }
    assert Pick(last, DATA) == value by {
      SpreadPick(first, value, DATA);
      PutOther(spread, TRAILER, trailer, DATA);
    }
    assert Pick(last, TRAILER) == trailer by {
      PutCounts(iov, HEADER, header, TRAILER);
      SpreadPick(first, value, TRAILER);
      PutOnly(spread, TRAILER, trailer);
    }
    EmptiedPick(last, HEADER);
    EmptiedPick(last, DATA);
    EmptiedPick(last, TRAILER);
    EmptiedPick(last, PADDING);
  }

  lemma AssembledShape(iov: Iov, header: bytes, value: bytes, trailer: bytes)
    requires |Pick(iov, DATA)| == |value|
    ensures SameShape(Assembled(iov, header, value, trailer), iov)
  {
    PutOther(iov, HEADER, header, DATA);
    var first := Put(iov, HEADER, header);
    var spread := Spread(first, value, []);
    var last := Put(spread, TRAILER, trailer);
    PutShape(iov, HEADER, header);
    SpreadShape(first, value);
    PutShape(spread, TRAILER, trailer);
    EmptiedShape(last);
    ShapeTransitive(spread, first, iov);
    ShapeTransitive(last, spread, iov);
    ShapeTransitive(Emptied(last), last, iov);
  }

  lemma WrapLeaves(c: Crypto, ctx: Ctx, iov: Iov, sealed: bool, confounder: bytes)
    requires Lawful(c) && WrapIov(c, ctx, iov, sealed, confounder).Some?
    ensures Wrapped(c, ctx, iov, sealed, IovToken(c, ctx, iov, sealed, confounder),
                    WrapIov(c, ctx, iov, sealed, confounder).value)
  {
    hide Pick, Count, SameShape, IovToken, Holds, Unsized;
    var token := IovToken(c, ctx, iov, sealed, confounder);
    IovTokenLength(c, ctx, iov, sealed, confounder);
    var h, n := HeaderLength(sealed), |Pick(iov, DATA)|;
    var value, trailer := token[h..h + n], TrailerOf(ctx, token, sealed, n);
    PutOther(iov, HEADER, token[..h], DATA);
    PutCounts(iov, HEADER, token[..h], DATA);
    assert value[n..] == [];
    assert WrapIov(c, ctx, iov, sealed, confounder).value == Assembled(iov, token[..h], value, trailer);
    AssembledLayout(iov, token[..h], value, trailer);
    AssembledParts(iov, token[..h], value, trailer);
    AssembledShape(iov, token[..h], value, trailer);
  }

  // ----- opening what was wrapped

  /** Contexts on both ends of one direction, in step. */
  predicate Matching(sender: Ctx, receiver: Ctx) {
    && sender.key == receiver.key && sender.initiator != receiver.initiator
    && sender.sendSeq == receiver.recvSeq < TWO64 && sender.dceStyle == receiver.dceStyle
  }

  /** The rest of the token, with the filler put back in DCE style. */
  lemma PayloadOfWrapped(c: Crypto, ctx: Ctx, iov: Iov, sealed: bool, token: bytes, out: Iov)
    requires Wrapped(c, ctx, iov, sealed, token, out)
    ensures |Pick(out, HEADER)| >= 16 && Pick(out, HEADER)[..16] == token[..16]
    ensures var m := |token| - (if sealed then 16 else 0) - c.checksumSize;
            Payload(out) == if sealed && ctx.dceStyle then token[16..m] + FILLER + token[m..] else token[16..]
  {
    hide Pick, Count, SameShape;
    var h, n := HeaderLength(sealed), |Pick(iov, DATA)|;
    assert token[..h][..16] == token[..16];
    assert token[..h][16..] + token[h..h + n] == token[16..h + n];
    assert Payload(out) == token[16..h + n] + [] + TrailerOf(ctx, token, sealed, n);
    if !(sealed && ctx.dceStyle) {
      assert token[16..h + n] + [] + ([] + token[h + n..]) == token[16..];
    } else {
      assert token[16..h + n] + [] + (FILLER + token[h + n..]) == token[16..h + n] + FILLER + token[h + n..];
    }
  }

  lemma RotateByZero(data: bytes)
    ensures RotateLeft(data, 0) == data
  {
    if data != [] { assert data[0..] + data[..0] == data; }
  }

  lemma FillerRemoved(a: bytes, b: bytes, trailerLength: nat)
    requires trailerLength == |FILLER| + |b|
    ensures WithoutFiller(a + FILLER + b, trailerLength, 16) == a + b
  {
    var p := a + FILLER + b;
    assert p[..|a|] == a && p[|a| + 16..] == b;
  }

  /** A header written with RRC zero is left alone by clearing the RRC. */
  lemma ClearedHeader(flags: byte, ec: nat, seqNo: nat)
    requires ec < TWO16 && seqNo < TWO64
    ensures var h := MessageHeader(WRAP_ID, flags, ec, 0, seqNo);
            && h[..6] + [0, 0] + h[8..] == h && BE(h[6..8]) == 0 && BE(h[4..6]) == ec && BE(h[8..16]) == seqNo
            && h[2] == flags && h[3] == 0xff && h[..2] == WRAP_ID && h[8..16] == h[8..]
            && h[..4] + [0, 0, 0, 0] + h[8..] == MessageHeader(WRAP_ID, flags, 0, 0, seqNo)
  {
    var h := MessageHeader(WRAP_ID, flags, ec, 0, seqNo);
    HeaderFields(flags, ec, 0, seqNo, []);
    assert h + [] == h;
    ZeroedHeader(flags, seqNo);
    assert ToBE(0, 2) == [0, 0] by { assert ToBE(0, 1) == ToBE(0, 0) + [0] == [0]; }
    assert h[6..8] == [0, 0];
  }

  /** A flat sealed token with any EC opens to its data when EC is zero or the
      receiver is in DCE style. */
  lemma OpenSealedToken(c: Crypto, sender: Ctx, receiver: Ctx, data: bytes, ec: nat, confounder: bytes)
    requires Lawful(c) && Matching(sender, receiver) && ec < TWO16 && (ec == 0 || receiver.dceStyle)
    ensures var h := MessageHeader(WRAP_ID, Flags(sender, true), ec, 0, sender.sendSeq);
            UnwrapToken(c, receiver, h + c.encrypt(sender.key, SealUsage(sender.initiator), [], confounder, data + h),
                        receiver.dceStyle) == Some(data)
  {
    hide MessageHeader, BE, RotateLeft;
    var flags := Flags(sender, true);
    var h := MessageHeader(WRAP_ID, flags, ec, 0, sender.sendSeq);
    var sealedData := c.encrypt(sender.key, SealUsage(sender.initiator), [], confounder, data + h);
    HeaderFields(flags, ec, 0, sender.sendSeq, sealedData);
    FlagsRead(sender, true);
    RotateByZero(sealedData);
    var plain := data + h;
    assert plain[..|plain| - 16] == data && plain[|plain| - 16..] == h && data[..|data| - 0] == data;
  }

  lemma {:induction false} NoneOfType(iov: Iov, t: BufferType)
    requires Count(iov, t) == 0
    ensures Pick(iov, t) == []
    ensures t == SIGN_ONLY ==> Ordered(iov) == Pick(iov, DATA)
  {
    if iov != [] { NoneOfType(iov[1..], t); }
  }

  /** A sealed token as the buffers carry it: sixteen filler bytes before its
      last 16 + checksum bytes in DCE style. */
  function Carried(c: Crypto, ctx: Ctx, sealedData: bytes): (r: bytes)
    requires |sealedData| >= 16 + c.checksumSize
  {
    var m := |sealedData| - 16 - c.checksumSize;
    if ctx.dceStyle then sealedData[..m] + FILLER + sealedData[m..] else sealedData
  }

  lemma CarriedBack(c: Crypto, ctx: Ctx, sealedData: bytes)
    requires |sealedData| >= 16 + c.checksumSize
    ensures var p, ec := Carried(c, ctx, sealedData), ExtraCount(c, ctx, true);
            && |p| >= SealedTrailer(c, ctx, ec)
            && sealedData == if ctx.dceStyle && ec > 0 then WithoutFiller(p, SealedTrailer(c, ctx, ec), ec) else p
  {
    var m := |sealedData| - 16 - c.checksumSize;
    if ctx.dceStyle {
      FillerRemoved(sealedData[..m], sealedData[m..], SealedTrailer(c, ctx, 16));
      assert sealedData[..m] + sealedData[m..] == sealedData;
    }
  }

  lemma OpenPlainSealed(c: Crypto, sender: Ctx, receiver: Ctx, data: bytes, confounder: bytes)
    requires Lawful(c) && Matching(sender, receiver)
    ensures var h := MessageHeader(WRAP_ID, Flags(sender, true), ExtraCount(c, sender, true), 0, sender.sendSeq);
            var e := c.encrypt(sender.key, SealUsage(sender.initiator), [], confounder, data + h);
            OpenPlain(c, receiver, h, Carried(c, sender, e)) == Some(data)
  {
    hide MessageHeader, BE, Carried, UnwrapToken, RotateLeft, WithoutFiller;
    var ec := ExtraCount(c, sender, true);
    var h := MessageHeader(WRAP_ID, Flags(sender, true), ec, 0, sender.sendSeq);
    var e := c.encrypt(sender.key, SealUsage(sender.initiator), [], confounder, data + h);
    ClearedHeader(Flags(sender, true), ec, sender.sendSeq);
    FlagsRead(sender, true);
    RotateByZero(Carried(c, sender, e));
    CarriedBack(c, sender, e);
    OpenSealedToken(c, sender, receiver, data, ec, confounder);
  }

  lemma OpenSignedSealedOf(c: Crypto, sender: Ctx, receiver: Ctx, data: bytes, associated: bytes, confounder: bytes)
    requires Lawful(c) && Matching(sender, receiver)
    ensures var ec := ExtraCount(c, sender, true);
            var h := MessageHeader(WRAP_ID, Flags(sender, true), ec, 0, sender.sendSeq);
            var e := c.encrypt(sender.key, SealUsage(sender.initiator), associated, confounder, data + h);
            OpenSignedSealed(c, receiver, associated, SealedTrailer(c, sender, ec), h, Carried(c, sender, e)) == Some(data)
  {
    hide Carried, MessageHeader;
    var ec := ExtraCount(c, sender, true);
    var h := MessageHeader(WRAP_ID, Flags(sender, true), ec, 0, sender.sendSeq);
    var plain := data + h;
    var e := c.encrypt(sender.key, SealUsage(sender.initiator), associated, confounder, plain);
    ClearedHeader(Flags(sender, true), ec, sender.sendSeq);
    CarriedBack(c, sender, e);
    assert plain[..|plain| - 16] == data && plain[|plain| - 16..] == h && data[..|data| - 0] == data;
  }

  lemma CarriedPayload(c: Crypto, ctx: Ctx, token: bytes)
    requires |token| >= 32 + c.checksumSize
    ensures var m := |token| - 16 - c.checksumSize;
            Carried(c, ctx, token[16..]) == if ctx.dceStyle then token[16..m] + FILLER + token[m..] else token[16..]
  {
    var m := |token| - 16 - c.checksumSize;
    assert token[16..][..m - 16] == token[16..m] && token[16..][m - 16..] == token[m..];
  }

  lemma SealedPath(c: Crypto, sender: Ctx, receiver: Ctx, iov: Iov, confounder: bytes, out: Iov)
    requires Lawful(c) && Matching(sender, receiver)
    requires Wrapped(c, sender, iov, true, IovToken(c, sender, iov, true, confounder), out)
    ensures OpenIov(c, receiver, out) == Some(Pick(iov, DATA))
  {
    hide Pick, Count, OpenPlain, OpenSignedSealed, Carried, MessageHeader, SameShape, RotateLeft, BE, ValidIncoming, Ordered, Lawful;
    var token := IovToken(c, sender, iov, true, confounder);
    var data, associated := Pick(iov, DATA), Pick(iov, SIGN_ONLY);
    ShapeLengths(out, iov);
    PayloadOfWrapped(c, sender, iov, true, token, out);
    CarriedPayload(c, sender, token);
    SealedIovToken(c, sender, iov, confounder);
    if Count(iov, SIGN_ONLY) == 0 {
      NoneOfType(iov, SIGN_ONLY);
      OpenPlainSealed(c, sender, receiver, data, confounder);
    } else {
      OpenSignedSealedOf(c, sender, receiver, data, associated, confounder);
      SealedHeaderIncoming(c, sender, receiver, token[..16], Payload(out));
    }
  }

  lemma SealedIovToken(c: Crypto, sender: Ctx, iov: Iov, confounder: bytes)
    ensures var token := IovToken(c, sender, iov, true, confounder);
            var h := MessageHeader(WRAP_ID, Flags(sender, true), ExtraCount(c, sender, true), 0, sender.sendSeq);
            && |token| >= 16 && token[..16] == h
            && token[16..] == c.encrypt(sender.key, SealUsage(sender.initiator), Pick(iov, SIGN_ONLY), confounder, Pick(iov, DATA) + h)
  {
  }

  lemma SealedHeaderIncoming(c: Crypto, sender: Ctx, receiver: Ctx, h: bytes, payload: bytes)
    requires Matching(sender, receiver)
    requires h == MessageHeader(WRAP_ID, Flags(sender, true), ExtraCount(c, sender, true), 0, sender.sendSeq)
    ensures ValidIncoming(receiver, h) && Sealed(h[2]) && RotateLeft(payload, BE(h[6..8])) == payload
  {
    ClearedHeader(Flags(sender, true), ExtraCount(c, sender, true), sender.sendSeq);
    FlagsRead(sender, true);
    RotateByZero(payload);
  }

  lemma OpenPlainClear(c: Crypto, sender: Ctx, receiver: Ctx, data: bytes)
    requires Lawful(c) && Matching(sender, receiver)
    ensures var flags := Flags(sender, false);
            var mac := c.checksum(sender.key, SealUsage(sender.initiator),
                                  data + MessageHeader(WRAP_ID, flags, 0, 0, sender.sendSeq));
            OpenPlain(c, receiver, MessageHeader(WRAP_ID, flags, c.checksumSize, 0, sender.sendSeq), data + mac) == Some(data)
  {
    hide MessageHeader, BE, UnwrapToken, RotateLeft, Rotated;
    var flags := Flags(sender, false);
    var h := MessageHeader(WRAP_ID, flags, c.checksumSize, 0, sender.sendSeq);
    var mac := c.checksum(sender.key, SealUsage(sender.initiator), data + MessageHeader(WRAP_ID, flags, 0, 0, sender.sendSeq));
    ClearedHeader(flags, c.checksumSize, sender.sendSeq);
    FlagsRead(sender, false);
    RotateByZero(data + mac);
    var token := WrapToken(c, sender, data, false, []);
    assert token == h + (data + mac);
    UnwrapOfWrap(c, sender, receiver, data, false, [], 0, receiver.dceStyle);
    RotatedByZero(c, sender, data, false, []);
  }

  lemma OpenSignedClearOf(c: Crypto, sender: Ctx, receiver: Ctx, iov: Iov, out: Iov, mac: bytes)
    requires Lawful(c) && Matching(sender, receiver) && SameShape(out, iov)
    requires mac == c.checksum(sender.key, SealUsage(sender.initiator),
                               Ordered(iov) + MessageHeader(WRAP_ID, Flags(sender, false), 0, 0, sender.sendSeq))
    ensures var h := MessageHeader(WRAP_ID, Flags(sender, false), c.checksumSize, 0, sender.sendSeq);
            && ValidIncoming(receiver, h) && !Sealed(h[2]) && BE(h[6..8]) == 0
            && OpenSignedClear(c, receiver, out, c.checksumSize, h, Pick(iov, DATA) + mac) == Some(Pick(iov, DATA))
  {
    hide MessageHeader, BE, Pick, Ordered, OrderedWith, SameShape;
    var data := Pick(iov, DATA);
    ClearedHeader(Flags(sender, false), c.checksumSize, sender.sendSeq);
    FlagsRead(sender, false);
    ShapeLengths(out, iov);
    OrderedWithSame(out, iov);
    assert (data + mac)[..|data|] == data && (data + mac)[|data|..] == mac;
  }

  lemma ClearPath(c: Crypto, sender: Ctx, receiver: Ctx, iov: Iov, confounder: bytes, out: Iov)
    requires Lawful(c) && Matching(sender, receiver)
    requires Wrapped(c, sender, iov, false, IovToken(c, sender, iov, false, confounder), out)
    ensures OpenIov(c, receiver, out) == Some(Pick(iov, DATA))
  {
    hide MessageHeader, Pick, Ordered, Count, OpenPlain, OpenSignedClear, RotateLeft, SameShape;
    var token := IovToken(c, sender, iov, false, confounder);
    var data := Pick(iov, DATA);
    var mac := c.checksum(sender.key, SealUsage(sender.initiator),
                          Ordered(iov) + MessageHeader(WRAP_ID, Flags(sender, false), 0, 0, sender.sendSeq));
    ShapeLengths(out, iov);
    PayloadOfWrapped(c, sender, iov, false, token, out);
    assert token[..16] == MessageHeader(WRAP_ID, Flags(sender, false), c.checksumSize, 0, sender.sendSeq);
    assert token[16..] == data + mac;
    if Count(iov, SIGN_ONLY) == 0 {
      NoneOfType(iov, SIGN_ONLY);
      OpenPlainClear(c, sender, receiver, data);
    } else {
      OpenSignedClearOf(c, sender, receiver, iov, out, mac);
      RotateByZero(Payload(out));
      assert |Pick(out, TRAILER)| == c.checksumSize;
    }
  }

  /** For any fragmentation, sealed or not, with or without SIGN_ONLY buffers,
      DCE or not: whenever WrapIOV succeeds, UnwrapIOV on the peer puts every
      DATA fragment back and leaves the SIGN_ONLY buffers alone. */
  lemma IovRoundTrip(c: Crypto, sender: Ctx, receiver: Ctx, iov: Iov, sealed: bool, confounder: bytes)
    requires Lawful(c) && Matching(sender, receiver)
    requires WrapIov(c, sender, iov, sealed, confounder).Some?
    ensures var back := UnwrapIov(c, receiver, WrapIov(c, sender, iov, sealed, confounder).value);
            back.Some? && Restored(back.value, iov)
  {
    hide Pick, Count, SameShape, IovToken, OpenIov, WrapIov, Unsized, Restored;
    var out := WrapIov(c, sender, iov, sealed, confounder).value;
    WrapLeaves(c, sender, iov, sealed, confounder);
    if sealed {
      SealedPath(c, sender, receiver, iov, confounder, out);
    } else {
      ClearPath(c, sender, receiver, iov, confounder, out);
    }
    ShapeLengths(out, iov);
    SpreadRestores(out, iov);
    var data := Pick(iov, DATA);
    assert data[|data|..] == [];
  }

  lemma TokenIsFlat(c: Crypto, ctx: Ctx, iov: Iov, sealed: bool, confounder: bytes)
    requires Count(iov, SIGN_ONLY) == 0 && (sealed ==> !ctx.dceStyle)
    ensures IovToken(c, ctx, iov, sealed, confounder) == WrapToken(c, ctx, Pick(iov, DATA), sealed, confounder)
  {
    NoneOfType(iov, SIGN_ONLY);
  }

  /** Outside DCE style and without SIGN_ONLY buffers, HEADER, DATA and TRAILER
      together are the flat wrap token of the DATA. */
  lemma IovIsFlatToken(c: Crypto, ctx: Ctx, iov: Iov, sealed: bool, confounder: bytes)
    requires Lawful(c) && !ctx.dceStyle && Count(iov, SIGN_ONLY) == 0
    requires WrapIov(c, ctx, iov, sealed, confounder).Some?
    ensures var out := WrapIov(c, ctx, iov, sealed, confounder).value;
            Pick(out, HEADER) + Pick(out, DATA) + Pick(out, TRAILER)
              == WrapToken(c, ctx, Pick(iov, DATA), sealed, confounder)
  {
    hide Pick, Count, SameShape, IovToken, WrapToken, WrapIov;
    var out := WrapIov(c, ctx, iov, sealed, confounder).value;
    WrapLeaves(c, ctx, iov, sealed, confounder);
    TokenIsFlat(c, ctx, iov, sealed, confounder);
    Rejoined(c, ctx, iov, sealed, IovToken(c, ctx, iov, sealed, confounder), out);
  }

  lemma Rejoined(c: Crypto, ctx: Ctx, iov: Iov, sealed: bool, token: bytes, out: Iov)
    requires Wrapped(c, ctx, iov, sealed, token, out) && !ctx.dceStyle
    ensures Pick(out, HEADER) + Pick(out, DATA) + Pick(out, TRAILER) == token
  {
    hide Pick, Count, SameShape;
    var h, n := HeaderLength(sealed), |Pick(iov, DATA)|;
    assert token[..h] + token[h..h + n] + ([] + token[h + n..]) == token;
  }

  /** A STREAM buffer takes a flat token. */
  lemma StreamRoundTrip(c: Crypto, sender: Ctx, receiver: Ctx, data: bytes, sealed: bool, confounder: bytes, capacity: nat)
    requires Lawful(c) && Matching(sender, receiver)
    ensures var token := WrapToken(c, sender, data, sealed, confounder);
            UnwrapIov(c, receiver, [Buffer(STREAM, Some(token), capacity)])
              == Some([Buffer(STREAM, Some(data), capacity)])
  {
    hide Pick, Count, WrapToken, UnwrapToken, Rotated;
    var token := WrapToken(c, sender, data, sealed, confounder);
    UnwrapOfWrap(c, sender, receiver, data, sealed, confounder, 0, receiver.dceStyle);
    RotatedByZero(c, sender, data, sealed, confounder);
    StreamAlone(Buffer(STREAM, Some(token), capacity), data);
  }

  lemma StreamAlone(b: Buffer, value: bytes)
    requires b.typ == STREAM && b.content.Some?
    ensures StreamLayout([b]) && Pick([b], STREAM) == b.content.value
    ensures Put([b], STREAM, value) == [b.(content := Some(value))]
  {
    assert [b][1..] == [];
    assert b.content.value + [] == b.content.value;
  }

  lemma RotatedByZero(c: Crypto, ctx: Ctx, data: bytes, sealed: bool, confounder: bytes)
    ensures var token := WrapToken(c, ctx, data, sealed, confounder);
            |token| >= 16 && Rotated(token, 0) == token
  {
    var token := WrapToken(c, ctx, data, sealed, confounder);
    RotatedWrap(c, ctx, data, sealed, confounder, 0);
    var rest := token[16..];
    if rest != [] { assert rest[|rest|..] + rest[..|rest|] == rest; }
    assert token == token[..16] + rest;
  }

  // ----- failures that count

  /** A failed UnwrapIOV moves the counter exactly when a valid token arrives in
      DATA buffers that do not take its plaintext. Then, and with SIGN_ONLY
      buffers in the same case, the buffers before the one that stops it are
      overwritten; after any other failure the buffers are as they were. This
      reads the rule off its definition: that the call follows it is what
      Context.UnwrapIOV ensures, and CountedButRejected is such a call. */
  lemma RejectedButCounted(c: Crypto, ctx: Ctx, iov: Iov)
    ensures Advances(c, ctx, iov) && UnwrapIov(c, ctx, iov).None?
       <==> && WrapLayout(iov) && Count(iov, SIGN_ONLY) == 0 && OpenIov(c, ctx, iov).Some?
            && var n, have := |OpenIov(c, ctx, iov).value|, |Pick(iov, DATA)|;
               Unsized(iov) > 1 || have > n || (Unsized(iov) == 0 && have != n)
    ensures UnwrapIov(c, ctx, iov).None? && UnwrapLeft(c, ctx, iov) != iov ==> WrapLayout(iov) && OpenIov(c, ctx, iov).Some?
  {
  }

  /** The four buffers of a clear token with its data in the PADDING buffer. */
  function Misplaced(token: bytes, n: nat): (iov: Iov)
    requires 16 + n <= |token|
  {
    [Buffer(HEADER, Some(token[..16]), 16), Buffer(DATA, Some([]), 0), Buffer(PADDING, Some(token[16..16 + n]), n),
     Buffer(TRAILER, Some(token[16 + n..]), |token| - 16 - n)]
  }

  function Share(b: Buffer, t: BufferType): (r: bytes) { if b.typ == t then Body(b) else [] }

  function One(b: Buffer, t: BufferType): (n: nat) { if b.typ == t then 1 else 0 }

  lemma ConsParts(b: Buffer, rest: Iov, t: BufferType)
    ensures Count([b] + rest, t) == One(b, t) + Count(rest, t) && Pick([b] + rest, t) == Share(b, t) + Pick(rest, t)
    ensures Unsized([b] + rest) == (if b.typ == DATA && b.content.None? then 1 else 0) + Unsized(rest)
  {
    assert ([b] + rest)[1..] == rest;
  }

  lemma EmptyParts(t: BufferType)
    ensures Count([], t) == 0 && Pick([], t) == [] && Unsized([]) == 0
  {
  }

  lemma FourParts(a: Buffer, b: Buffer, d: Buffer, e: Buffer, t: BufferType)
    ensures Count([a, b, d, e], t) == One(a, t) + One(b, t) + One(d, t) + One(e, t)
    ensures Pick([a, b, d, e], t) == Share(a, t) + Share(b, t) + Share(d, t) + Share(e, t)
    ensures a.content.Some? && b.content.Some? && d.content.Some? && e.content.Some? ==> Unsized([a, b, d, e]) == 0
  {
    hide Count, Pick, Unsized;
    EmptyParts(t);
    assert [a, b, d, e] == [a] + ([b] + ([d] + ([e] + [])));
    ConsParts(a, [b] + ([d] + ([e] + [])), t);
    ConsParts(b, [d] + ([e] + []), t);
    ConsParts(d, [e] + [], t);
    ConsParts(e, [], t);
  }

  lemma MisplacedParts(token: bytes, n: nat)
    requires 16 + n <= |token|
    ensures var iov := Misplaced(token, n);
            && WrapLayout(iov) && Count(iov, SIGN_ONLY) == 0 && !StreamLayout(iov) && Unsized(iov) == 0
            && Pick(iov, HEADER) == token[..16] && Pick(iov, DATA) == [] && Payload(iov) == token[16..]
  {
    hide Count, Pick, Unsized;
    var iov := Misplaced(token, n);
    var a, b, d, e := iov[0], iov[1], iov[2], iov[3];
    forall t: BufferType
      ensures Count(iov, t) == One(a, t) + One(b, t) + One(d, t) + One(e, t)
      ensures Pick(iov, t) == Share(a, t) + Share(b, t) + Share(d, t) + Share(e, t)
    {
      FourParts(a, b, d, e, t);
    }
    FourParts(a, b, d, e, DATA);
    assert Payload(iov) == [] + [] + token[16..16 + n] + token[16 + n..];
  }

  /** Such a buffer list: the peer's next token, with nothing in its DATA buffer. */
  lemma CountedButRejected(c: Crypto, sender: Ctx, receiver: Ctx, data: bytes, confounder: bytes)
    requires Lawful(c) && Matching(sender, receiver) && data != []
    ensures var token := WrapToken(c, sender, data, false, confounder);
            && 16 + |data| <= |token|
            && var iov := Misplaced(token, |data|);
               UnwrapIov(c, receiver, iov).None? && Advances(c, receiver, iov)
  {
    hide OpenPlain, WrapLayout, StreamLayout, Count, Pick, Payload, MessageHeader, Unsized, Misplaced;
    var flags := Flags(sender, false);
    var h := MessageHeader(WRAP_ID, flags, c.checksumSize, 0, sender.sendSeq);
    var mac := c.checksum(sender.key, SealUsage(sender.initiator), data + MessageHeader(WRAP_ID, flags, 0, 0, sender.sendSeq));
    var token := WrapToken(c, sender, data, false, confounder);
    assert token == h + (data + mac);
    MisplacedParts(token, |data|);
    OpenPlainClear(c, sender, receiver, data);
    var iov := Misplaced(token, |data|);
    assert Pick(iov, HEADER)[..16] == h && Payload(iov) == data + mac;
    assert OpenIov(c, receiver, iov) == Some(data);
  }
}
