/** The mutable GSS context: per-message calls that move its sequence counters
    and IOV calls that overwrite the caller's buffers. */
module GssContext {
  import opened Bytes
  import opened GssToken
  import opened GssIov
  import opened GssIovPositions

  // ----- loops over the buffers

  /** parseIOV without its closing checks: fails exactly on an unknown or
      repeated buffer. */
  method ParseIOV(iov: Iov) returns (r: Option<Layout>)
    ensures r.Some? <==> AtMostOnce(iov)
    ensures r.Some? ==> Describes(r.value, iov)
  {
    var l := Layout(-1, -1, -1, -1, [], []);
    for index := 0 to |iov|
      invariant Describes(l, iov[..index])
    {
      NotedDescribes(l, iov, index);
      var next := Noted(l, iov[index].typ, index);
      if next.None? { return None; }
      l := next.value;
    }
    assert iov[..|iov|] == iov;
    LayoutCounts(l, iov);
    return Some(l);
  }

  /** concatBuffers over the buffers of one type. */
  method ConcatBuffers(iov: Iov, t: BufferType) returns (value: bytes)
    ensures value == Pick(iov, t)
  {
    value := [];
    for index := 0 to |iov|
      invariant value == Pick(iov[..index], t)
    {
      SnocPick(iov, index, t);
      if iov[index].typ == t { value := value + Body(iov[index]); }
    }
    assert iov[..|iov|] == iov;
  }

  /** orderedMessageBuffers. */
  method OrderedBuffers(iov: Iov) returns (value: bytes)
    ensures value == Ordered(iov)
  {
    value := [];
    for index := 0 to |iov|
      invariant value == Ordered(iov[..index])
    {
      SnocOrdered(iov, index);
      if iov[index].typ == DATA || iov[index].typ == SIGN_ONLY { value := value + Body(iov[index]); }
    }
    assert iov[..|iov|] == iov;
  }

  /** orderedMessageBuffersWithData: an offset moves through data. */
  method OrderedBuffersWithData(iov: Iov, data: bytes) returns (value: bytes)
    ensures value == OrderedWith(iov, data)
  {
    hide OrderedWith, OrderedFrom;
    value := [];
    var offset := 0;
    OrderedStart(iov, data);
    for index := 0 to |iov|
      invariant 0 <= offset <= |data| && OrderedFrom(iov, data, index, offset, value)
    {
      OrderedStep(iov, data, index, offset, value);
      match iov[index].typ {
        case DATA =>
          var length := |Body(iov[index])|;
          if offset + length > |data| { length := |data| - offset; }
          value := value + data[offset..offset + length];
          offset := offset + length;
        case SIGN_ONLY => value := value + Body(iov[index]);
        case _ =>
      }
    }
    OrderedEnd(iov, data, offset, value);
    value := value + data[offset..];
  }

  /** What has been put together of it so far. */
  predicate OrderedFrom(iov: Iov, data: bytes, index: nat, offset: nat, value: bytes)
    requires index <= |iov| && offset <= |data|
  {
    OrderedWith(iov, data) == value + OrderedWith(iov[index..], data[offset..])
  }

  lemma OrderedStart(iov: Iov, data: bytes)
    ensures OrderedFrom(iov, data, 0, 0, [])
  {
    assert iov[0..] == iov && data[0..] == data;
  }

  lemma OrderedStep(iov: Iov, data: bytes, index: nat, offset: nat, value: bytes)
    requires index < |iov| && offset <= |data| && OrderedFrom(iov, data, index, offset, value)
    ensures var b := iov[index];
            match b.typ
            case DATA =>
              var n := if offset + |Body(b)| > |data| then |data| - offset else |Body(b)|;
              OrderedFrom(iov, data, index + 1, offset + n, value + data[offset..offset + n])
            case SIGN_ONLY => OrderedFrom(iov, data, index + 1, offset, value + Body(b))
            case _ => OrderedFrom(iov, data, index + 1, offset, value)
  {
    var here, rest, b := iov[index..], data[offset..], iov[index];
    assert here[0] == b && here[1..] == iov[index + 1..];
    match b.typ {
      case DATA =>
        var n := if offset + |Body(b)| > |data| then |data| - offset else |Body(b)|;
        assert rest[..n] == data[offset..offset + n] && rest[n..] == data[offset + n..];
      case _ =>
    }
  }

  lemma OrderedEnd(iov: Iov, data: bytes, offset: nat, value: bytes)
    requires offset <= |data| && OrderedFrom(iov, data, |iov|, offset, value)
    ensures OrderedWith(iov, data) == value + data[offset..]
  {
  }

  /** setIOVOutput. */
  method SetOutput(iov: array<Buffer>, i: int, value: bytes) returns (ok: bool)
    requires 0 <= i < iov.Length
    modifies iov
    ensures ok <==> old(iov[i].content).None? || |value| <= old(iov[i].capacity)
    ensures iov[..] == if ok then old(iov[..])[i := Filled(old(iov[i]), value)] else old(iov[..])
  {
    if iov[i].content.Some? && iov[i].capacity < |value| { return false; }
    iov[i] := Filled(iov[i], value);
    return true;
  }

  /** distributeIOV. */
  method DistributeIOV(iov: array<Buffer>, value: bytes) returns (ok: bool)
    modifies iov
    ensures ok <==> Distribute(old(iov[..]), value).Some?
    ensures iov[..] == if ok then Distribute(old(iov[..]), value).value else Attempted(old(iov[..]), value, false)
  {
    hide Attempted, AttemptedFrom, Distribute;
    ghost var before := iov[..];
    var offset := 0;
    var unknown := -1;
    AttemptedStart(before, value);
    for index := 0 to iov.Length
      invariant offset == Offset(before, index) <= |value|
      invariant Nils(before, index) == if unknown >= 0 then 1 else 0
      invariant unknown < index && forall j | 0 <= j < index :: IsNil(before[j]) <==> j == unknown
      invariant iov[index..] == before[index..]
      invariant AttemptedFrom(before, value, index, offset, unknown >= 0, iov[..index])
    {
      assert iov[index] == before[index] by { assert iov[index..][0] == before[index..][0]; }
      assert iov[index + 1..] == before[index + 1..] by { assert iov[index..][1..] == before[index..][1..]; }
      if iov[index].typ == DATA {
        if iov[index].content.None? {
          if unknown >= 0 {
            CannotDistribute(before, value, index);
            AttemptStops(before, value, index, offset, true, iov[..index], iov[..]);
            return false;
          }
          AttemptPasses(before, value, index, offset, false, iov[..index], iov[..index + 1]);
          unknown := index;
        } else {
          var length := |iov[index].content.value|;
          if offset + length > |value| {
            CannotDistribute(before, value, index);
            AttemptStops(before, value, index, offset, unknown >= 0, iov[..index], iov[..]);
            return false;
          }
          ghost var done := iov[..index];
          iov[index] := iov[index].(content := Some(value[offset..offset + length]));
          AttemptDeals(before, value, index, offset, unknown >= 0, done, iov[..index + 1]);
          offset := offset + length;
        }
      } else {
        AttemptPasses(before, value, index, offset, unknown >= 0, iov[..index], iov[..index + 1]);
      }
    }
    AttemptedEnd(before, value, offset, unknown >= 0, iov[..]);
    AllDealt(before, value, unknown);
    if unknown >= 0 {
      iov[unknown] := Filled(iov[unknown], value[offset..]);
      offset := |value|;
    }
    ok := offset == |value|;
  }

  predicate IsNil(b: Buffer) { b.typ == DATA && b.content.None? }

  /** How far the attempt has come. */
  predicate AttemptedFrom(before: Iov, value: bytes, index: nat, offset: nat, unsized: bool, done: Iov)
    requires index <= |before| && offset <= |value|
  {
    Attempted(before, value, false) == done + Attempted(before[index..], value[offset..], unsized)
  }

  lemma AttemptedStart(before: Iov, value: bytes)
    ensures AttemptedFrom(before, value, 0, 0, false, [])
  {
    assert before[0..] == before && value[0..] == value;
  }

  lemma AttemptStops(before: Iov, value: bytes, index: nat, offset: nat, unsized: bool, done: Iov, after: Iov)
    requires index < |before| && offset <= |value| && AttemptedFrom(before, value, index, offset, unsized, done)
    requires |done| == index && |after| == |before| && after[..index] == done && after[index..] == before[index..]
    requires before[index].typ == DATA
    requires if before[index].content.None? then unsized else offset + |before[index].content.value| > |value|
    ensures after == Attempted(before, value, false)
  {
    assert before[index..][0] == before[index];
    assert after == after[..index] + after[index..];
  }

  lemma AttemptPasses(before: Iov, value: bytes, index: nat, offset: nat, unsized: bool, done: Iov, more: Iov)
    requires index < |before| && offset <= |value| && AttemptedFrom(before, value, index, offset, unsized, done)
    requires more == done + [before[index]]
    requires before[index].typ == DATA ==> before[index].content.None? && !unsized
    ensures AttemptedFrom(before, value, index + 1, offset, unsized || before[index].typ == DATA, more)
  {
    var here, left, b := before[index..], value[offset..], before[index];
    assert here[0] == b && here[1..] == before[index + 1..];
    var rest := Attempted(here[1..], left, unsized || b.typ == DATA);
    assert Attempted(here, left, unsized) == [b] + rest;
    assert done + ([b] + rest) == more + rest;
  }

  lemma AttemptDeals(before: Iov, value: bytes, index: nat, offset: nat, unsized: bool, done: Iov, more: Iov)
    requires index < |before| && offset <= |value| && AttemptedFrom(before, value, index, offset, unsized, done)
    requires before[index].typ == DATA && before[index].content.Some? && offset + |before[index].content.value| <= |value|
    requires var n := |before[index].content.value|;
             more == done + [before[index].(content := Some(value[offset..offset + n]))]
    ensures AttemptedFrom(before, value, index + 1, offset + |before[index].content.value|, unsized, more)
  {
    var here, left, b := before[index..], value[offset..], before[index];
    var n := |b.content.value|;
    assert here[0] == b && here[1..] == before[index + 1..];
    assert left[..n] == value[offset..offset + n] && left[n..] == value[offset + n..];
    var next, rest := b.(content := Some(left[..n])), Attempted(here[1..], left[n..], unsized);
    assert Attempted(here, left, unsized) == [next] + rest;
    assert done + ([next] + rest) == more + rest;
  }

  lemma AttemptedEnd(before: Iov, value: bytes, offset: nat, unsized: bool, done: Iov)
    requires |done| == |before| && offset <= |value| && AttemptedFrom(before, value, |before|, offset, unsized, done[..|before|])
    ensures done == Attempted(before, value, false)
  {
    assert before[|before|..] == [] && done[..|before|] == done;
  }

  /** A second un-sized buffer, or a buffer reaching past the data. */
  lemma CannotDistribute(iov: Iov, value: bytes, k: nat)
    requires k < |iov| && iov[k].typ == DATA
    requires (iov[k].content.None? && Nils(iov, k) >= 1) || Offset(iov, k) + |Body(iov[k])| > |value|
    ensures Distribute(iov, value).None?
  {
    OffsetTotal(iov);
    OffsetGrows(iov, k + 1, |iov|);
  }

  /** Where the attempt does not stop it deals out everything but the rest. */
  lemma {:induction false} AttemptedIsSpread(iov: Iov, value: bytes, rest: bytes, unsized: bool, j: nat)
    requires j < |iov| && |Pick(iov, DATA)| <= |value| && Unsized(iov) <= if unsized then 0 else 1
    ensures Spread(iov, value, rest)[j]
         == if IsNil(iov[j]) then Filled(iov[j], rest) else Attempted(iov, value, unsized)[j]
    ensures IsNil(iov[j]) ==> Attempted(iov, value, unsized)[j] == iov[j]
  {
    var n := |Body(iov[0])|;
    if j > 0 {
      if iov[0].typ != DATA {
        AttemptedIsSpread(iov[1..], value, rest, unsized, j - 1);
      } else {
        AttemptedIsSpread(iov[1..], value[n..], rest, unsized || iov[0].content.None?, j - 1);
      }
    }
  }

  lemma AllDealt(before: Iov, value: bytes, unknown: int)
    requires unknown < |before| && Offset(before, |before|) <= |value|
    requires Nils(before, |before|) == if unknown >= 0 then 1 else 0
    requires forall j | 0 <= j < |before| :: IsNil(before[j]) <==> j == unknown
    ensures Distribute(before, value).Some? <==> unknown >= 0 || Offset(before, |before|) == |value|
    ensures var done, rest := Attempted(before, value, false), value[Offset(before, |before|)..];
            Distribute(before, value).Some? ==>
              Distribute(before, value).value == if unknown >= 0 then done[unknown := Filled(done[unknown], rest)] else done
  {
    OffsetTotal(before);
    var done, rest := Attempted(before, value, false), value[Offset(before, |before|)..];
    var dealt := if unknown >= 0 then done[unknown := Filled(done[unknown], rest)] else done;
    forall j | 0 <= j < |before|
      ensures dealt[j] == Spread(before, value, rest)[j]
    {
      AttemptedIsSpread(before, value, rest, false, j);
    }
  }

  /** The writing half of wrapIOV. */
  method StoreIOV(iov: array<Buffer>, l: Layout, header: bytes, value: bytes, trailer: bytes) returns (ok: bool)
    requires Describes(l, iov[..]) && l.header >= 0 && l.trailer >= 0
    modifies iov
    ensures ok <==> Stored(old(iov[..]), header, value, trailer).Some?
    ensures iov[..] == if ok then Stored(old(iov[..]), header, value, trailer).value
                       else StoredPartly(old(iov[..]), header, value, trailer)
  {
    hide Attempted;
    ghost var before := iov[..];
    OnlyHolds(before, HEADER, l.header, |header|);
    ok := SetOutput(iov, l.header, header);
    if !ok { return; }
    PutAt(before, HEADER, l.header, header);
    ghost var first := iov[..];
    ok := DistributeIOV(iov, value);
    if !ok { return; }
    ghost var spread := iov[..];
    PutKeepsOnly(before, HEADER, header, TRAILER, l.trailer);
    OnlyAfterSpread(first, value, TRAILER, l.trailer);
    OnlyHolds(spread, TRAILER, l.trailer, |trailer|);
    ok := SetOutput(iov, l.trailer, trailer);
    if !ok { return; }
    PutAt(spread, TRAILER, l.trailer, trailer);
    ghost var last := iov[..];
    PaddingOnly(before, first, spread, last, header, value, trailer, l.padding);
    if l.padding >= 0 && iov[l.padding].content.Some? {
      iov[l.padding] := iov[l.padding].(content := Some([]));
    }
    assert iov[..] == Emptied(last);
  }

  lemma PutKeepsOnly(iov: Iov, t: BufferType, value: bytes, u: BufferType, i: int)
    requires Only(iov, u, i)
    ensures Only(Put(iov, t, value), u, i)
  {
    forall j | 0 <= j < |iov|
      ensures Put(iov, t, value)[j].typ == iov[j].typ
    {
      PutTypes(iov, t, value, j);
    }
  }

  /** The header of a token in buffers, and its data, padding and trailer. */
  method JoinBuffers(iov: Iov, l: Layout) returns (r: Option<(bytes, bytes)>)
    requires Describes(l, iov) && l.stream < 0 && l.header >= 0 && l.trailer >= 0 && l.data != []
    ensures r == if |Pick(iov, HEADER)| < 16 then None else Some((Pick(iov, HEADER)[..16], Payload(iov)))
  {
    LayoutCounts(l, iov);
    AtCount(iov, HEADER, l.header);
    AtCount(iov, PADDING, l.padding);
    AtCount(iov, TRAILER, l.trailer);
    var first := Body(iov[l.header]);
    if |first| < 16 { return None; }
    var data := ConcatBuffers(iov, DATA);
    var payload := first[16..] + data;
    if l.padding >= 0 {
      payload := payload + Body(iov[l.padding]);
    } else {
      assert payload + [] == payload;
    }
    payload := payload + Body(iov[l.trailer]);
    return Some((first[..16], payload));
  }

  // ----- the context

  lemma ValidSize(ctx: Ctx, id: bytes, token: bytes)
    requires ValidHeader(ctx, id, token)
    ensures |token| >= 16 && token[..2] == id
  {
  }

  class Context {
    const crypto: Crypto
    const initiator: bool
    const acceptorSubkey: bool
    const key: Key
    var dceStyle: bool
    var sendSeq: nat
    var recvSeq: nat

    ghost function View(): (ctx: Ctx)
      reads this
    {
      Ctx(initiator, acceptorSubkey, dceStyle, key, sendSeq, recvSeq)
    }

    constructor (crypto: Crypto, initiator: bool, acceptorSubkey: bool, key: Key, sendSeq: nat, recvSeq: nat)
      ensures this.crypto == crypto && View() == Ctx(initiator, acceptorSubkey, false, key, sendSeq, recvSeq)
    {
      this.crypto, this.initiator, this.acceptorSubkey, this.key := crypto, initiator, acceptorSubkey, key;
      this.dceStyle, this.sendSeq, this.recvSeq := false, sendSeq, recvSeq;
    }

    method TakeSequence() returns (seqNo: nat)
      modifies this`sendSeq
      ensures seqNo == old(sendSeq) && sendSeq == (old(sendSeq) + 1) % TWO64
    {
      seqNo := sendSeq;
      sendSeq := (sendSeq + 1) % TWO64;
    }

    method HeaderFlags(sealed: bool) returns (flags: byte)
      ensures flags == Flags(View(), sealed)
    {
      flags := 0;
      if !initiator { flags := flags + 1; }
      if acceptorSubkey { flags := flags + 4; }
      if sealed { flags := flags + 2; }
    }

    /** wrap. */
    method Wrap(data: bytes, sealed: bool, confounder: bytes) returns (token: bytes)
      modifies this`sendSeq
      ensures token == WrapToken(crypto, old(View()), data, sealed, confounder)
      ensures sendSeq == (old(sendSeq) + 1) % TWO64
    {
      var flags := HeaderFlags(sealed);
      var seqNo := TakeSequence();
      var usage := if initiator then 24 else 22;
      if sealed {
        var header := MessageHeader(WRAP_ID, flags, 0, 0, seqNo);
        token := header + crypto.encrypt(key, usage, [], confounder, data + header);
      } else {
        var mac := crypto.checksum(key, usage, data + MessageHeader(WRAP_ID, flags, 0, 0, seqNo));
        token := MessageHeader(WRAP_ID, flags, crypto.checksumSize, 0, seqNo) + data + mac;
      }
    }

    /** parseMessage and validateIncoming. */
    method CheckIncoming(id: bytes, token: bytes) returns (ok: bool)
      ensures ok == ValidHeader(View(), id, token)
    {
      if |token| < 16 || token[..2] != id { return false; }
      if token[3] != 0xff { return false; }
      assert token[..16][8..16] == token[8..16];
      ok := ValidateIncoming(token[..16]);
    }

    /** validateIncoming. */
    method ValidateIncoming(header: bytes) returns (ok: bool)
      requires |header| == 16
      ensures ok == ValidIncoming(View(), header)
    {
      var direction := if initiator then 1 else 0;
      if header[2] % 2 != direction { return false; }
      if header[3] != 0xff { return false; }
      assert header[8..] == header[8..16];
      return BE(header[8..]) == recvSeq;
    }

    /** unwrapToken: only an accepted token moves the receive counter. */
    method UnwrapMessage(token: bytes, dce: bool) returns (r: Option<bytes>)
      modifies this`recvSeq
      ensures r == UnwrapToken(crypto, old(View()), token, dce)
      ensures recvSeq == if r.Some? then (old(recvSeq) + 1) % TWO64 else old(recvSeq)
    {
      hide RotateLeft, BE, MessageHeader, ValidHeader;
      var ok := CheckIncoming(WRAP_ID, token);
      if !ok { return None; }
      ValidSize(View(), WRAP_ID, token);
      var ec := BE(token[4..6]);
      var payload := RotateLeft(token[16..], BE(token[6..8]));
      var usage := if initiator then 22 else 24;
      if token[2] / 2 % 2 == 1 {
        var plain := crypto.decrypt(key, usage, [], payload);
        if plain.None? || |plain.value| < 16 { return None; }
        var n := |plain.value| - 16;
        if plain.value[n..] != MessageHeader(token[..2], token[2], ec, 0, BE(token[8..16])) { return None; }
        var body := plain.value[..n];
        if !dce {
          if ec > |body| { return None; }
          body := body[..|body| - ec];
        }
        recvSeq := (recvSeq + 1) % TWO64;
        return Some(body);
      }
      if ec != crypto.checksumSize || |payload| < ec { return None; }
      var data, mac := payload[..|payload| - ec], payload[|payload| - ec..];
      var canonical := token[..4] + [0, 0, 0, 0] + token[8..16];
      if crypto.checksum(key, usage, data + canonical) != mac { return None; }
      recvSeq := (recvSeq + 1) % TWO64;
      return Some(data);
    }

    /** unwrap. */
    method Unwrap(token: bytes) returns (r: Option<bytes>)
      modifies this`recvSeq
      ensures r == UnwrapToken(crypto, old(View()), token, dceStyle)
      ensures recvSeq == if r.Some? then (old(recvSeq) + 1) % TWO64 else old(recvSeq)
    {
      r := UnwrapMessage(token, dceStyle);
    }

    /** mic. */
    method MIC(data: bytes) returns (token: bytes)
      modifies this`sendSeq
      ensures token == MicToken(crypto, old(View()), data)
      ensures sendSeq == (old(sendSeq) + 1) % TWO64
    {
      var flags := HeaderFlags(false);
      var seqNo := TakeSequence();
      var header := MicHeader(flags, seqNo);
      token := header + crypto.checksum(key, if initiator then 25 else 23, data + header);
    }

    /** verifyMIC: the five filler bytes are compared one by one. */
    method VerifyMIC(data: bytes, token: bytes) returns (ok: bool)
      modifies this`recvSeq
      ensures ok == VerifyMicToken(crypto, old(View()), data, token)
      ensures recvSeq == if ok then (old(recvSeq) + 1) % TWO64 else old(recvSeq)
    {
      var valid := CheckIncoming(MIC_ID, token);
      if !valid { return false; }
      for i := 3 to 8
        invariant forall j | 3 <= j < i :: token[j] == 0xff
      {
        if token[i] != 0xff {
          assert token[3..8][i - 3] == token[i];
          return false;
        }
      }
      if |token| - 16 != crypto.checksumSize { return false; }
      var canonical := MicHeader(token[2], BE(token[8..16]));
      if crypto.checksum(key, if initiator then 23 else 25, data + canonical) != token[16..] { return false; }
      recvSeq := (recvSeq + 1) % TWO64;
      return true;
    }

    /** wrapDCE. */
    method WrapDCE(data: bytes, confounder: bytes) returns (token: bytes)
      modifies this`sendSeq
      ensures sendSeq == (old(sendSeq) + 1) % TWO64
      ensures var header := MessageHeader(WRAP_ID, Flags(old(View()), true), 16, 0, old(sendSeq));
              token == header + crypto.encrypt(key, SealUsage(initiator), [], confounder, data + header)
    {
      var flags := HeaderFlags(true);
      var seqNo := TakeSequence();
      var header := MessageHeader(WRAP_ID, flags, 16, 0, seqNo);
      token := header + crypto.encrypt(key, if initiator then 24 else 22, [], confounder, data + header);
    }

    /** The token of wrapIOV: by wrap, by wrapDCE, or with associated data. */
    method MakeIovToken(iov: Iov, hasSignOnly: bool, sealed: bool, confounder: bytes) returns (token: bytes)
      requires hasSignOnly == (Count(iov, SIGN_ONLY) > 0)
      modifies this`sendSeq
      ensures token == IovToken(crypto, old(View()), iov, sealed, confounder)
      ensures sendSeq == if hasSignOnly then old(sendSeq) else (old(sendSeq) + 1) % TWO64
    {
      var plain := ConcatBuffers(iov, DATA);
      if !hasSignOnly {
        NoSignOnly(iov);
        if sealed && dceStyle {
          token := WrapDCE(plain, confounder);
        } else {
          token := Wrap(plain, sealed, confounder);
        }
      } else {
        var flags := HeaderFlags(sealed);
        var usage := if initiator then 24 else 22;
        if sealed {
          var header := MessageHeader(WRAP_ID, flags, if dceStyle then 16 else 0, 0, sendSeq);
          var associated := ConcatBuffers(iov, SIGN_ONLY);
          token := header + crypto.encrypt(key, usage, associated, confounder, plain + header);
        } else {
          var signed := OrderedBuffers(iov);
          var mac := crypto.checksum(key, usage, signed + MessageHeader(WRAP_ID, flags, 0, 0, sendSeq));
          token := MessageHeader(WRAP_ID, flags, crypto.checksumSize, 0, sendSeq) + plain + mac;
        }
      }
    }

    /** WrapIOV. Without SIGN_ONLY buffers the sequence number is used up even if
        the token then does not fit the buffers. */
    method WrapIOV(iov: array<Buffer>, sealed: bool, confounder: bytes) returns (ok: bool)
      requires Lawful(crypto)
      modifies this`sendSeq, iov
      ensures ok <==> WrapIov(crypto, old(View()), old(iov[..]), sealed, confounder).Some?
      ensures iov[..] == if ok then WrapIov(crypto, old(View()), old(iov[..]), sealed, confounder).value
                         else WrapLeft(crypto, old(View()), old(iov[..]), sealed, confounder)
      ensures sendSeq == if ok || (WrapLayout(old(iov[..])) && Count(old(iov[..]), SIGN_ONLY) == 0) then (old(sendSeq) + 1) % TWO64
                         else old(sendSeq)
    {
      hide IovToken, Stored, StoredPartly;
      var parsed := ParseIOV(iov[..]);
      if parsed.None? { return false; }
      var l := parsed.value;
      LayoutCounts(l, iov[..]);
      if l.stream >= 0 || l.header < 0 || l.data == [] || l.trailer < 0 { return false; }
      var plain := ConcatBuffers(iov[..], DATA);
      IovTokenLength(crypto, View(), iov[..], sealed, confounder);
      var dce := dceStyle;
      var token := MakeIovToken(iov[..], l.signOnly != [], sealed, confounder);
      var h, n := HeaderLength(sealed), |plain|;
      ok := StoreIOV(iov, l, token[..h], token[h..h + n], (if sealed && dce then FILLER else []) + token[h + n..]);
      if ok && l.signOnly != [] { var _ := TakeSequence(); }
    }

    /** The STREAM path of UnwrapIOV. */
    method UnwrapStream(iov: array<Buffer>, i: int) returns (ok: bool)
      requires StreamLayout(iov[..]) && Only(iov[..], STREAM, i)
      modifies this`recvSeq, iov
      ensures ok <==> UnwrapIov(crypto, old(View()), old(iov[..])).Some?
      ensures iov[..] == if ok then UnwrapIov(crypto, old(View()), old(iov[..])).value else old(iov[..])
      ensures recvSeq == if ok then (old(recvSeq) + 1) % TWO64 else old(recvSeq)
    {
      OnlyOne(iov[..], STREAM, i);
      var plain := Unwrap(Body(iov[i]));
      if plain.None? { return false; }
      PutAt(iov[..], STREAM, i, plain.value);
      iov[i] := Filled(iov[i], plain.value);
      return true;
    }

    /** The path of UnwrapIOV without SIGN_ONLY buffers, up to the plaintext. */
    method UnwrapPlain(header: bytes, joined: bytes) returns (r: Option<bytes>)
      requires |header| == 16
      modifies this`recvSeq
      ensures r == OpenPlain(crypto, old(View()), header, joined)
      ensures recvSeq == if r.Some? then (old(recvSeq) + 1) % TWO64 else old(recvSeq)
    {
      hide RotateLeft, BE, UnwrapToken;
      var payload := RotateLeft(joined, BE(header[6..8]));
      if header[2] / 2 % 2 == 1 {
        var ec := BE(header[4..6]);
        var trailerLength := 16 + crypto.checksumSize;
        if dceStyle { trailerLength := trailerLength + ec; }
        if |payload| < trailerLength { return None; }
        var start := |payload| - trailerLength;
        if dceStyle && ec > 0 { payload := payload[..start] + payload[start + ec..]; }
      }
      r := UnwrapMessage(header[..6] + [0, 0] + header[8..] + payload, dceStyle);
    }

    /** The path of UnwrapIOV with SIGN_ONLY buffers, up to the plaintext. */
    method OpenAssociated(iov: Iov, l: Layout, header: bytes, joined: bytes) returns (r: Option<bytes>)
      requires |header| == 16 && Describes(l, iov) && l.trailer >= 0
      ensures r == OpenSigned(crypto, View(), iov, header, joined)
    {
      hide RotateLeft, BE, OrderedWith;
      AtCount(iov, TRAILER, l.trailer);
      var ok := ValidateIncoming(header);
      if !ok { return None; }
      var trailer := |Body(iov[l.trailer])|;
      var payload := RotateLeft(joined, BE(header[6..8]));
      if header[2] / 2 % 2 == 1 {
        r := OpenAssociatedSealed(iov, trailer, header, payload);
      } else {
        r := OpenAssociatedClear(iov, trailer, header, payload);
      }
    }

    method OpenAssociatedSealed(iov: Iov, trailer: nat, header: bytes, payload: bytes) returns (r: Option<bytes>)
      requires |header| == 16
      ensures r == OpenSignedSealed(crypto, View(), Pick(iov, SIGN_ONLY), trailer, header, payload)
    {
      hide BE, Pick;
      var ec := BE(header[4..6]);
      var trailerLength := 16 + crypto.checksumSize;
      if dceStyle { trailerLength := trailerLength + ec; }
      if trailer != trailerLength || |payload| < trailerLength { return None; }
      var inner := payload;
      var start := |payload| - trailerLength;
      if dceStyle && ec > 0 { inner := payload[..start] + payload[start + ec..]; }
      var associated := ConcatBuffers(iov, SIGN_ONLY);
      var plain := crypto.decrypt(key, if initiator then 22 else 24, associated, inner);
      if plain.None? || |plain.value| < 16 { return None; }
      var n := |plain.value| - 16;
      if plain.value[n..] != header[..6] + [0, 0] + header[8..] { return None; }
      var body := plain.value[..n];
      if !dceStyle {
        if ec > |body| { return None; }
        body := body[..|body| - ec];
      }
      return Some(body);
    }

    method OpenAssociatedClear(iov: Iov, trailer: nat, header: bytes, payload: bytes) returns (r: Option<bytes>)
      requires |header| == 16
      ensures r == OpenSignedClear(crypto, View(), iov, trailer, header, payload)
    {
      hide BE, OrderedWith;
      var ec := BE(header[4..6]);
      if ec != crypto.checksumSize || trailer != ec || |payload| < ec { return None; }
      var data, mac := payload[..|payload| - ec], payload[|payload| - ec..];
      var signed := OrderedBuffersWithData(iov, data);
      signed := signed + (header[..4] + [0, 0, 0, 0] + header[8..]);
      if crypto.checksum(key, if initiator then 22 else 24, signed) != mac { return None; }
      return Some(data);
    }

    /** The HEADER, DATA, TRAILER path of UnwrapIOV. */
    method UnwrapBuffers(iov: array<Buffer>, l: Layout) returns (ok: bool)
      requires Describes(l, iov[..]) && l.stream < 0 && l.header >= 0 && l.trailer >= 0 && l.data != []
      modifies this`recvSeq, iov
      ensures ok <==> UnwrapIov(crypto, old(View()), old(iov[..])).Some?
      ensures iov[..] == if ok then UnwrapIov(crypto, old(View()), old(iov[..])).value
                         else UnwrapLeft(crypto, old(View()), old(iov[..]))
      ensures recvSeq == if Advances(crypto, old(View()), old(iov[..])) then (old(recvSeq) + 1) % TWO64 else old(recvSeq)
    {
      hide OpenPlain, OpenSigned, Payload, Distribute, Attempted;
      LayoutCounts(l, iov[..]);
      var joined := JoinBuffers(iov[..], l);
      if joined.None? { return false; }
      var (header, payload) := joined.value;
      var plain;
      if l.signOnly == [] {
        plain := UnwrapPlain(header, payload);
      } else {
        plain := OpenAssociated(iov[..], l, header, payload);
      }
      if plain.None? { return false; }
      ok := DistributeIOV(iov, plain.value);
      if ok && l.signOnly != [] { recvSeq := (recvSeq + 1) % TWO64; }
    }

    /** UnwrapIOV. */
    method UnwrapIOV(iov: array<Buffer>) returns (ok: bool)
      modifies this`recvSeq, iov
      ensures ok <==> UnwrapIov(crypto, old(View()), old(iov[..])).Some?
      ensures iov[..] == if ok then UnwrapIov(crypto, old(View()), old(iov[..])).value
                         else UnwrapLeft(crypto, old(View()), old(iov[..]))
      ensures recvSeq == if Advances(crypto, old(View()), old(iov[..])) then (old(recvSeq) + 1) % TWO64 else old(recvSeq)
    {
      hide Attempted;
      var parsed := ParseIOV(iov[..]);
      if parsed.None? { return false; }
      var l := parsed.value;
      LayoutCounts(l, iov[..]);
      if l.stream >= 0 {
        if l.data != [] || l.header >= 0 || l.trailer >= 0 || l.padding >= 0 || l.signOnly != [] { return false; }
        ok := UnwrapStream(iov, l.stream);
        return;
      }
      if l.header < 0 || l.data == [] || l.trailer < 0 { return false; }
      ok := UnwrapBuffers(iov, l);
    }
  }
}
