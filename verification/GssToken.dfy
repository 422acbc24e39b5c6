/** Per-message tokens of an established GSS context, sections 4.2.4 to 4.2.6 of
    RFC 4121. The enctype is abstract: encryption takes its random confounder as
    an argument, and only the laws in Lawful are used of it. */
module GssToken {
  import opened Bytes

  type Key = bytes

  datatype Crypto = Crypto(
    checksumSize: nat,
    encrypt: (Key, nat, bytes, bytes, bytes) -> bytes,        // key, usage, associated data, confounder, plaintext
    decrypt: (Key, nat, bytes, bytes) -> Option<bytes>,       // key, usage, associated data, ciphertext
    checksum: (Key, nat, bytes) -> bytes)                     // key, usage, message

  /** Decryption undoes encryption, and lengths are those of the simplified
      profile: a 16-byte confounder before and a checksum after. */
  ghost predicate Lawful(c: Crypto) {
    && c.checksumSize < TWO16
    && (forall k, u, a, r, p ::
          |c.encrypt(k, u, a, r, p)| == 16 + |p| + c.checksumSize &&
          c.decrypt(k, u, a, c.encrypt(k, u, a, r, p)) == Some(p))
    && (forall k, u, m :: |c.checksum(k, u, m)| == c.checksumSize)
  }

  /** The fields of Context that per-message calls use. */
  datatype Ctx = Ctx(initiator: bool, acceptorSubkey: bool, dceStyle: bool, key: Key, sendSeq: nat, recvSeq: nat)

  const WRAP_ID: bytes := [5, 4]
  const MIC_ID: bytes := [4, 4]

  // ----- headers

  function Flags(ctx: Ctx, sealed: bool): (f: byte) {
    (if ctx.initiator then 0 else 1) + (if sealed then 2 else 0) + (if ctx.acceptorSubkey then 4 else 0)
  }

  predicate SentByAcceptor(flags: byte) { flags % 2 == 1 }
  predicate Sealed(flags: byte) { flags / 2 % 2 == 1 }

  /** messageHeader. */
  function MessageHeader(id: bytes, flags: byte, ec: nat, rrc: nat, seqNo: nat): (h: bytes)
    requires |id| == 2
    ensures |h| == 16
  {
    id + [flags, 0xff] + ToBE(ec, 2) + ToBE(rrc, 2) + ToBE(seqNo, 8)
  }

  /** micHeader. */
  function MicHeader(flags: byte, seqNo: nat): (h: bytes)
    ensures |h| == 16
  {
    MIC_ID + [flags, 0xff, 0xff, 0xff, 0xff, 0xff] + ToBE(seqNo, 8)
  }

  /** rotateLeft. */
  function RotateLeft(data: bytes, count: nat): (r: bytes)
    ensures |r| == |data|
  {
    if data == [] then data else data[count % |data|..] + data[..count % |data|]
  }

  /** The sender-side rotation an RRC announces, section 4.2.5 of RFC 4121. */
  function RotateRight(data: bytes, count: nat): (r: bytes)
    ensures |r| == |data|
  {
    if data == [] then data
    else var k := |data| - count % |data|; data[k..] + data[..k]
  }

  lemma RotationUndone(data: bytes, count: nat)
    ensures RotateLeft(RotateRight(data, count), count) == data
  {
    if data != [] {
      var k := count % |data|;
      assert RotateRight(data, count)[..k] == data[|data| - k..];
      assert RotateRight(data, count)[k..] == data[..|data| - k];
    }
  }

  /** The key usage of data sent by one side. */
  function SealUsage(byInitiator: bool): (u: nat) { if byInitiator then 24 else 22 }
  function MicUsage(byInitiator: bool): (u: nat) { if byInitiator then 25 else 23 }

  // ----- producing tokens

  /** wrap, at the sequence number the context holds. */
  function WrapToken(c: Crypto, ctx: Ctx, data: bytes, sealed: bool, confounder: bytes): (t: bytes) {
    var flags := Flags(ctx, sealed);
    var usage := SealUsage(ctx.initiator);
    if sealed then
      var header := MessageHeader(WRAP_ID, flags, 0, 0, ctx.sendSeq);
      header + c.encrypt(ctx.key, usage, [], confounder, data + header)
    else
      MessageHeader(WRAP_ID, flags, c.checksumSize, 0, ctx.sendSeq) + data
        + c.checksum(ctx.key, usage, data + MessageHeader(WRAP_ID, flags, 0, 0, ctx.sendSeq))
  }

  /** mic. */
  function MicToken(c: Crypto, ctx: Ctx, data: bytes): (t: bytes) {
    var header := MicHeader(Flags(ctx, false), ctx.sendSeq);
    header + c.checksum(ctx.key, MicUsage(ctx.initiator), data + header)
  }

  // ----- accepting tokens

  /** parseMessage followed by validateIncoming. */
  predicate ValidHeader(ctx: Ctx, id: bytes, token: bytes) {
    && |token| >= 16 && token[..2] == id && token[3] == 0xff
    && SentByAcceptor(token[2]) == ctx.initiator
    && BE(token[8..16]) == ctx.recvSeq
  }

  /** unwrapToken; the receive sequence number advances exactly on Some. */
  function UnwrapToken(c: Crypto, ctx: Ctx, token: bytes, dceStyle: bool): (r: Option<bytes>) {
    if !ValidHeader(ctx, WRAP_ID, token) then None
    else
      var ec := BE(token[4..6]);
      var payload := RotateLeft(token[16..], BE(token[6..8]));
      var usage := SealUsage(!ctx.initiator);
      if Sealed(token[2]) then
        var plain :- c.decrypt(ctx.key, usage, [], payload);
        if |plain| < 16 then None
        else
          var body := plain[..|plain| - 16];
          if plain[|plain| - 16..] != MessageHeader(token[..2], token[2], ec, 0, BE(token[8..16])) then None
          else if dceStyle then Some(body)
          else if ec > |body| then None
          else Some(body[..|body| - ec])
      else if ec != c.checksumSize || |payload| < ec then None
      else
        var data := payload[..|payload| - ec];
        var canonical := token[..4] + [0, 0, 0, 0] + token[8..16];
        if c.checksum(ctx.key, usage, data + canonical) == payload[|payload| - ec..] then Some(data) else None
  }

  /** verifyMIC. */
  predicate VerifyMicToken(c: Crypto, ctx: Ctx, data: bytes, token: bytes) {
    && ValidHeader(ctx, MIC_ID, token)
    && token[3..8] == [0xff, 0xff, 0xff, 0xff, 0xff]
    && |token| - 16 == c.checksumSize
    && c.checksum(ctx.key, MicUsage(!ctx.initiator), data + MicHeader(token[2], BE(token[8..16]))) == token[16..]
  }

  // ----- what a receiver makes of a token

  lemma HeaderFields(flags: byte, ec: nat, rrc: nat, seqNo: nat, rest: bytes)
    requires ec < TWO16 && rrc < TWO16 && seqNo < TWO64
    ensures var t := MessageHeader(WRAP_ID, flags, ec, rrc, seqNo) + rest;
            && t[..2] == WRAP_ID && t[2] == flags && t[3] == 0xff && BE(t[4..6]) == ec && BE(t[6..8]) == rrc
            && BE(t[8..16]) == seqNo && t[8..16] == ToBE(seqNo, 8) && t[..4] == WRAP_ID + [flags, 0xff] && t[16..] == rest
  {
    var t := MessageHeader(WRAP_ID, flags, ec, rrc, seqNo) + rest;
    Pow256Values();
    BEOfToBE(ec, 2);
    BEOfToBE(rrc, 2);
    BEOfToBE(seqNo, 8);
    assert t[4..6] == ToBE(ec, 2) && t[6..8] == ToBE(rrc, 2) && t[8..16] == ToBE(seqNo, 8);
  }

  /** Two zero bytes where EC or RRC stood. */
  lemma ZeroedHeader(flags: byte, seqNo: nat)
    ensures WRAP_ID + [flags, 0xff] + [0, 0, 0, 0] + ToBE(seqNo, 8) == MessageHeader(WRAP_ID, flags, 0, 0, seqNo)
  {
    assert ToBE(0, 2) == [0, 0] by { assert ToBE(0, 1) == ToBE(0, 0) + [0] == [0]; }
    assert WRAP_ID + [flags, 0xff] + [0, 0, 0, 0] == WRAP_ID + [flags, 0xff] + [0, 0] + [0, 0];
  }

  lemma FlagsRead(ctx: Ctx, sealed: bool)
    ensures Sealed(Flags(ctx, sealed)) == sealed && SentByAcceptor(Flags(ctx, sealed)) == !ctx.initiator
  {
  }

  /** A wrap token with an RRC in its header and its payload rotated to match. */
  function Rotated(token: bytes, rrc: nat): (t: bytes)
    requires |token| >= 16
  {
    token[..6] + ToBE(rrc, 2) + token[8..16] + RotateRight(token[16..], rrc)
  }

  lemma RotatedWrap(c: Crypto, ctx: Ctx, data: bytes, sealed: bool, confounder: bytes, rrc: nat)
    ensures |WrapToken(c, ctx, data, sealed, confounder)| >= 16
    ensures var token := WrapToken(c, ctx, data, sealed, confounder);
            Rotated(token, rrc)
              == MessageHeader(WRAP_ID, Flags(ctx, sealed), if sealed then 0 else c.checksumSize, rrc, ctx.sendSeq)
               + RotateRight(token[16..], rrc)
  {
    hide ToBE, BE, RotateRight;
    var token := WrapToken(c, ctx, data, sealed, confounder);
    var ec := if sealed then 0 else c.checksumSize;
    assert token[..16] == MessageHeader(WRAP_ID, Flags(ctx, sealed), ec, 0, ctx.sendSeq);
    assert token[..6] == token[..16][..6] && token[8..16] == token[..16][8..16];
    assert token[..6] == WRAP_ID + [Flags(ctx, sealed), 0xff] + ToBE(ec, 2);
    assert token[8..16] == ToBE(ctx.sendSeq, 8);
  }

  /** Unwrapping a wrap token, rotated by any RRC, gives its data exactly when
      the token comes from the other side and carries the expected sequence
      number, whatever the DCE setting. */
  lemma UnwrapOfWrap(c: Crypto, sender: Ctx, receiver: Ctx, data: bytes, sealed: bool, confounder: bytes,
                     rrc: nat, dceStyle: bool)
    requires Lawful(c) && sender.key == receiver.key && rrc < TWO16 && sender.sendSeq < TWO64
    ensures |WrapToken(c, sender, data, sealed, confounder)| >= 16
    ensures UnwrapToken(c, receiver, Rotated(WrapToken(c, sender, data, sealed, confounder), rrc), dceStyle)
         == if sender.initiator != receiver.initiator && sender.sendSeq == receiver.recvSeq then Some(data) else None
  {
    hide ToBE, BE, RotateRight, RotateLeft, MessageHeader, Rotated, UnwrapToken;
    if sealed {
      UnwrapSealed(c, sender, receiver, data, confounder, rrc, dceStyle);
    } else {
      UnwrapClear(c, sender, receiver, data, rrc, dceStyle);
    }
  }

  lemma UnwrapSealed(c: Crypto, sender: Ctx, receiver: Ctx, data: bytes, confounder: bytes, rrc: nat, dceStyle: bool)
    requires Lawful(c) && sender.key == receiver.key && rrc < TWO16 && sender.sendSeq < TWO64
    ensures |WrapToken(c, sender, data, true, confounder)| >= 16
    ensures UnwrapToken(c, receiver, Rotated(WrapToken(c, sender, data, true, confounder), rrc), dceStyle)
         == if sender.initiator != receiver.initiator && sender.sendSeq == receiver.recvSeq then Some(data) else None
  {
    hide ToBE, BE, RotateRight, RotateLeft, MessageHeader, Rotated, Flags;
    var token := WrapToken(c, sender, data, true, confounder);
    var flags := Flags(sender, true);
    RotatedWrap(c, sender, data, true, confounder, rrc);
    HeaderFields(flags, 0, rrc, sender.sendSeq, RotateRight(token[16..], rrc));
    FlagsRead(sender, true);
    RotationUndone(token[16..], rrc);
    var header := MessageHeader(WRAP_ID, flags, 0, 0, sender.sendSeq);
    var plain := data + header;
    assert token[16..] == c.encrypt(sender.key, SealUsage(sender.initiator), [], confounder, plain);
    assert plain[..|plain| - 16] == data && plain[|plain| - 16..] == header && data[..|data| - 0] == data;
  }

  lemma UnwrapClear(c: Crypto, sender: Ctx, receiver: Ctx, data: bytes, rrc: nat, dceStyle: bool)
    requires Lawful(c) && sender.key == receiver.key && rrc < TWO16 && sender.sendSeq < TWO64
    ensures |WrapToken(c, sender, data, false, [])| >= 16
    ensures UnwrapToken(c, receiver, Rotated(WrapToken(c, sender, data, false, []), rrc), dceStyle)
         == if sender.initiator != receiver.initiator && sender.sendSeq == receiver.recvSeq then Some(data) else None
  {
    hide ToBE, BE, RotateRight, RotateLeft, MessageHeader, Rotated, Flags;
    var token := WrapToken(c, sender, data, false, []);
    var flags := Flags(sender, false);
    RotatedWrap(c, sender, data, false, [], rrc);
    HeaderFields(flags, c.checksumSize, rrc, sender.sendSeq, RotateRight(token[16..], rrc));
    FlagsRead(sender, false);
    RotationUndone(token[16..], rrc);
    ZeroedHeader(flags, sender.sendSeq);
    var canonical := MessageHeader(WRAP_ID, flags, 0, 0, sender.sendSeq);
    var mac := c.checksum(sender.key, SealUsage(sender.initiator), data + canonical);
    var payload := token[16..];
    assert payload == data + mac;
    assert payload[..|payload| - c.checksumSize] == data && payload[|payload| - c.checksumSize..] == mac;
  }

  /** A MIC token verifies exactly for the other side, the expected sequence
      number, and data with the same checksum as the data that was signed. */
  lemma VerifyOfMic(c: Crypto, sender: Ctx, receiver: Ctx, data: bytes, claimed: bytes)
    requires Lawful(c) && sender.key == receiver.key && sender.sendSeq < TWO64
    ensures VerifyMicToken(c, receiver, claimed, MicToken(c, sender, data))
       <==> && sender.initiator != receiver.initiator && sender.sendSeq == receiver.recvSeq
            && SameChecksum(c, sender, data, claimed)
  {
    hide ToBE, BE;
    var token := MicToken(c, sender, data);
    var flags := Flags(sender, false);
    FlagsRead(sender, false);
    Pow256Values();
    BEOfToBE(sender.sendSeq, 8);
    assert token[..2] == MIC_ID && token[2] == flags && token[3..8] == [0xff, 0xff, 0xff, 0xff, 0xff];
    assert token[8..16] == ToBE(sender.sendSeq, 8);
    assert token[3] == token[3..8][0];
    assert token[16..] == c.checksum(sender.key, MicUsage(sender.initiator), data + MicHeader(flags, sender.sendSeq));
  }

  /** The MIC checksum cannot tell the two messages apart. */
  predicate SameChecksum(c: Crypto, sender: Ctx, data: bytes, claimed: bytes) {
    var header := MicHeader(Flags(sender, false), sender.sendSeq);
    c.checksum(sender.key, MicUsage(sender.initiator), data + header)
      == c.checksum(sender.key, MicUsage(sender.initiator), claimed + header)
  }

  /** The two token kinds are told apart by their first bytes. */
  lemma KindsDisjoint(c: Crypto, sender: Ctx, receiver: Ctx, data: bytes, sealed: bool, confounder: bytes,
                      claimed: bytes, rrc: nat, dceStyle: bool)
    ensures !VerifyMicToken(c, receiver, claimed, WrapToken(c, sender, data, sealed, confounder))
    ensures |MicToken(c, sender, data)| >= 16
    ensures UnwrapToken(c, receiver, Rotated(MicToken(c, sender, data), rrc), dceStyle) == None
  {
    hide ToBE, BE, RotateRight, RotateLeft;
    assert WrapToken(c, sender, data, sealed, confounder)[0] == 5;
    assert MIC_ID[0] == 4;
    assert Rotated(MicToken(c, sender, data), rrc)[0] == 4;
    assert WRAP_ID[0] == 5;
  }
}
