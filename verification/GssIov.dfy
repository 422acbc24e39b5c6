/** Wrap tokens spread over typed buffers. */
module GssIov {
  import opened Bytes
  import opened GssToken

  datatype BufferType = HEADER | DATA | PADDING | TRAILER | SIGN_ONLY | STREAM | UNKNOWN

  /** content is None for a nil slice; capacity matters only otherwise. */
  datatype Buffer = Buffer(typ: BufferType, content: Option<bytes>, capacity: nat)

  type Iov = seq<Buffer>

  function Body(b: Buffer): (r: bytes) { if b.content.Some? then b.content.value else [] }

  function Count(iov: Iov, t: BufferType): (n: nat) {
    if iov == [] then 0 else (if iov[0].typ == t then 1 else 0) + Count(iov[1..], t)
  }

  /** The contents of all buffers of one type, in order (concatBuffers). */
  function Pick(iov: Iov, t: BufferType): (r: bytes) {
    if iov == [] then [] else (if iov[0].typ == t then Body(iov[0]) else []) + Pick(iov[1..], t)
  }

  /** The DATA and SIGN_ONLY contents in order (orderedMessageBuffers). */
  function Ordered(iov: Iov): (r: bytes) {
    if iov == [] then []
    else (if iov[0].typ == DATA || iov[0].typ == SIGN_ONLY then Body(iov[0]) else []) + Ordered(iov[1..])
  }

  // ----- layouts parseIOV accepts

  predicate AtMostOnce(iov: Iov) {
    && Count(iov, UNKNOWN) == 0 && Count(iov, HEADER) <= 1 && Count(iov, PADDING) <= 1
    && Count(iov, TRAILER) <= 1 && Count(iov, STREAM) <= 1
  }

  /** A layout for WrapIOV, which also needs the TRAILER buffer. */
  predicate WrapLayout(iov: Iov) {
    && AtMostOnce(iov) && Count(iov, STREAM) == 0 && Count(iov, HEADER) == 1
    && Count(iov, DATA) > 0 && Count(iov, TRAILER) == 1
  }

  predicate StreamLayout(iov: Iov) {
    && AtMostOnce(iov) && Count(iov, STREAM) == 1 && Count(iov, DATA) == 0 && Count(iov, HEADER) == 0
    && Count(iov, TRAILER) == 0 && Count(iov, PADDING) == 0 && Count(iov, SIGN_ONLY) == 0
  }

  // ----- writing buffers

  /** Whether setIOVOutput finds room for n bytes. */
  predicate Holds(iov: Iov, t: BufferType, n: nat) {
    forall b | b in iov && b.typ == t :: b.content.None? || n <= b.capacity
  }

  /** Copying nothing to a nil slice leaves it nil. */
  function Filled(b: Buffer, value: bytes): (r: Buffer) {
    b.(content := if b.content.None? && value == [] then None else Some(value))
  }

  function Put(iov: Iov, t: BufferType, value: bytes): (r: Iov)
    ensures |r| == |iov|
  {
    if iov == [] then []
    else [if iov[0].typ == t then Filled(iov[0], value) else iov[0]] + Put(iov[1..], t, value)
  }

  /** Truncation of the PADDING buffer. */
  function Emptied(iov: Iov): (r: Iov)
    ensures |r| == |iov|
  {
    if iov == [] then []
    else [if iov[0].typ == PADDING && iov[0].content.Some? then iov[0].(content := Some([])) else iov[0]]
         + Emptied(iov[1..])
  }

  /** The number of DATA buffers without a size. */
  function Unsized(iov: Iov): (n: nat) {
    if iov == [] then 0 else (if iov[0].typ == DATA && iov[0].content.None? then 1 else 0) + Unsized(iov[1..])
  }

  /** value dealt out over the sized DATA buffers; the un-sized one gets rest. */
  function Spread(iov: Iov, value: bytes, rest: bytes): (r: Iov)
    requires |Pick(iov, DATA)| <= |value|
    ensures |r| == |iov|
  {
    if iov == [] then []
    else if iov[0].typ == DATA then
      var n := |Body(iov[0])|;
      [if iov[0].content.Some? then iov[0].(content := Some(value[..n])) else Filled(iov[0], rest)]
        + Spread(iov[1..], value[n..], rest)
    else [iov[0]] + Spread(iov[1..], value, rest)
  }

  /** distributeIOV. */
  function Distribute(iov: Iov, value: bytes): (r: Option<Iov>) {
    var n := |Pick(iov, DATA)|;
    if Unsized(iov) > 1 || n > |value| || (Unsized(iov) == 0 && n != |value|) then None
    else Some(Spread(iov, value, value[n..]))
  }

  /** The buffers a failing distributeIOV leaves: the sized DATA buffers before
      the one that stopped it are filled. */
  function Attempted(iov: Iov, value: bytes, unsized: bool): (r: Iov)
    ensures |r| == |iov|
  {
    if iov == [] then []
    else if iov[0].typ != DATA then [iov[0]] + Attempted(iov[1..], value, unsized)
    else if iov[0].content.None? then
      if unsized then iov else [iov[0]] + Attempted(iov[1..], value, true)
    else
      var n := |iov[0].content.value|;
      if n > |value| then iov
      else [iov[0].(content := Some(value[..n]))] + Attempted(iov[1..], value[n..], unsized)
  }

  // ----- wrapping

  const FILLER: bytes := [255, 255, 255, 255, 255, 255, 255, 255, 255, 255, 255, 255, 255, 255, 255, 255]

  /** The EC field: 16 for DCE sealed tokens, the checksum size for clear ones. */
  function ExtraCount(c: Crypto, ctx: Ctx, sealed: bool): (n: nat) {
    if sealed then (if ctx.dceStyle then 16 else 0) else c.checksumSize
  }

  /** The token behind the buffers. Without SIGN_ONLY buffers the associated
      data is empty and the signed message is the DATA alone. */
  function IovToken(c: Crypto, ctx: Ctx, iov: Iov, sealed: bool, confounder: bytes): (t: bytes) {
    var header := MessageHeader(WRAP_ID, Flags(ctx, sealed), ExtraCount(c, ctx, sealed), 0, ctx.sendSeq);
    var usage := SealUsage(ctx.initiator);
    if sealed then
      header + c.encrypt(ctx.key, usage, Pick(iov, SIGN_ONLY), confounder, Pick(iov, DATA) + header)
    else
      var canonical := MessageHeader(WRAP_ID, Flags(ctx, sealed), 0, 0, ctx.sendSeq);
      header + Pick(iov, DATA) + c.checksum(ctx.key, usage, Ordered(iov) + canonical)
  }

  function HeaderLength(sealed: bool): (n: nat) { if sealed then 32 else 16 }

  lemma IovTokenLength(c: Crypto, ctx: Ctx, iov: Iov, sealed: bool, confounder: bytes)
    requires Lawful(c)
    ensures |IovToken(c, ctx, iov, sealed, confounder)|
         == HeaderLength(sealed) + |Pick(iov, DATA)| + (if sealed then 16 else 0) + c.checksumSize
  {
  }

  /** DCE style puts sixteen filler bytes before the rest of the token. */
  function TrailerOf(ctx: Ctx, token: bytes, sealed: bool, dataLength: nat): (r: bytes)
    requires HeaderLength(sealed) + dataLength <= |token|
  {
    (if sealed && ctx.dceStyle then FILLER else []) + token[HeaderLength(sealed) + dataLength..]
  }

  /** Header, data and trailer written to their buffers, in that order. */
  function Stored(iov: Iov, header: bytes, value: bytes, trailer: bytes): (r: Option<Iov>) {
    if !Holds(iov, HEADER, |header|) then None
    else
      var spread :- Distribute(Put(iov, HEADER, header), value);
      if !Holds(spread, TRAILER, |trailer|) then None
      else Some(Emptied(Put(spread, TRAILER, trailer)))
  }

  /** What is left in the buffers when one of these writes fails. */
  function StoredPartly(iov: Iov, header: bytes, value: bytes, trailer: bytes): (r: Iov) {
    if !Holds(iov, HEADER, |header|) then iov
    else
      match Distribute(Put(iov, HEADER, header), value)
      case None => Attempted(Put(iov, HEADER, header), value, false)
      case Some(spread) => spread
  }

  /** WrapIOV. */
  ghost function WrapIov(c: Crypto, ctx: Ctx, iov: Iov, sealed: bool, confounder: bytes): (r: Option<Iov>)
    requires Lawful(c)
  {
    if !WrapLayout(iov) then None
    else
      var token := IovToken(c, ctx, iov, sealed, confounder);
      var h := HeaderLength(sealed);
      var n := |Pick(iov, DATA)|;
      IovTokenLength(c, ctx, iov, sealed, confounder);
      Stored(iov, token[..h], token[h..h + n], TrailerOf(ctx, token, sealed, n))
  }

  /** What a failing WrapIOV leaves in the buffers. */
  ghost function WrapLeft(c: Crypto, ctx: Ctx, iov: Iov, sealed: bool, confounder: bytes): (r: Iov)
    requires Lawful(c)
  {
    if !WrapLayout(iov) then iov
    else
      var token := IovToken(c, ctx, iov, sealed, confounder);
      var h := HeaderLength(sealed);
      var n := |Pick(iov, DATA)|;
      IovTokenLength(c, ctx, iov, sealed, confounder);
      StoredPartly(iov, token[..h], token[h..h + n], TrailerOf(ctx, token, sealed, n))
  }

  // ----- unwrapping

  /** Everything after the 16-byte header, padding before trailer. */
  function Payload(iov: Iov): (r: bytes)
    requires |Pick(iov, HEADER)| >= 16
  {
    Pick(iov, HEADER)[16..] + Pick(iov, DATA) + Pick(iov, PADDING) + Pick(iov, TRAILER)
  }

  /** A sealed payload without the DCE filler that stands before its trailer. */
  function WithoutFiller(payload: bytes, trailerLength: nat, ec: nat): (r: bytes)
    requires ec <= trailerLength <= |payload|
  {
    payload[..|payload| - trailerLength] + payload[|payload| - trailerLength + ec..]
  }

  function SealedTrailer(c: Crypto, ctx: Ctx, ec: nat): (n: nat) {
    16 + c.checksumSize + if ctx.dceStyle then ec else 0
  }

  /** The path without SIGN_ONLY buffers. */
  function OpenPlain(c: Crypto, ctx: Ctx, header: bytes, rest: bytes): (r: Option<bytes>)
    requires |header| == 16
  {
    var payload := RotateLeft(rest, BE(header[6..8]));
    var cleared := header[..6] + [0, 0] + header[8..];
    if Sealed(header[2]) then
      var ec := BE(header[4..6]);
      var trailerLength := SealedTrailer(c, ctx, ec);
      if |payload| < trailerLength then None
      else
        var inner := if ctx.dceStyle && ec > 0 then WithoutFiller(payload, trailerLength, ec) else payload;
        UnwrapToken(c, ctx, cleared + inner, ctx.dceStyle)
    else UnwrapToken(c, ctx, cleared + payload, ctx.dceStyle)
  }

  /** validateIncoming alone; this path does not look at the token identifier. */
  predicate ValidIncoming(ctx: Ctx, header: bytes)
    requires |header| == 16
  {
    SentByAcceptor(header[2]) == ctx.initiator && header[3] == 0xff && BE(header[8..16]) == ctx.recvSeq
  }

  /** The path with SIGN_ONLY buffers. */
  function OpenSigned(c: Crypto, ctx: Ctx, iov: Iov, header: bytes, rest: bytes): (r: Option<bytes>)
    requires |header| == 16
  {
    var payload := RotateLeft(rest, BE(header[6..8]));
    if !ValidIncoming(ctx, header) then None
    else if Sealed(header[2]) then
      OpenSignedSealed(c, ctx, Pick(iov, SIGN_ONLY), |Pick(iov, TRAILER)|, header, payload)
    else OpenSignedClear(c, ctx, iov, |Pick(iov, TRAILER)|, header, payload)
  }

  function OpenSignedSealed(c: Crypto, ctx: Ctx, associated: bytes, trailer: nat, header: bytes, payload: bytes): (r: Option<bytes>)
    requires |header| == 16
  {
    var ec := BE(header[4..6]);
    var trailerLength := SealedTrailer(c, ctx, ec);
    if trailer != trailerLength || |payload| < trailerLength then None
    else
      var inner := if ctx.dceStyle && ec > 0 then WithoutFiller(payload, trailerLength, ec) else payload;
      var plain :- c.decrypt(ctx.key, SealUsage(!ctx.initiator), associated, inner);
      if |plain| < 16 || plain[|plain| - 16..] != header[..6] + [0, 0] + header[8..] then None
      else
        var body := plain[..|plain| - 16];
        if ctx.dceStyle then Some(body)
        else if ec > |body| then None
        else Some(body[..|body| - ec])
  }

  function OpenSignedClear(c: Crypto, ctx: Ctx, iov: Iov, trailer: nat, header: bytes, payload: bytes): (r: Option<bytes>)
    requires |header| == 16
  {
    var ec := BE(header[4..6]);
    if ec != c.checksumSize || trailer != ec || |payload| < ec then None
    else
      var data := payload[..|payload| - ec];
      var signed := OrderedWith(iov, data) + (header[..4] + [0, 0, 0, 0] + header[8..]);
      if c.checksum(ctx.key, SealUsage(!ctx.initiator), signed) == payload[|payload| - ec..] then Some(data) else None
  }

  /** orderedMessageBuffersWithData: data stands in for the DATA contents. */
  function OrderedWith(iov: Iov, data: bytes): (r: bytes) {
    if iov == [] then data
    else if iov[0].typ == DATA then
      var n := if |Body(iov[0])| > |data| then |data| else |Body(iov[0])|;
      data[..n] + OrderedWith(iov[1..], data[n..])
    else if iov[0].typ == SIGN_ONLY then Body(iov[0]) + OrderedWith(iov[1..], data)
    else OrderedWith(iov[1..], data)
  }

  /** What the buffers open to, before it is dealt out. */
  function OpenIov(c: Crypto, ctx: Ctx, iov: Iov): (r: Option<bytes>) {
    if !WrapLayout(iov) || |Pick(iov, HEADER)| < 16 then None
    else if Count(iov, SIGN_ONLY) == 0 then OpenPlain(c, ctx, Pick(iov, HEADER)[..16], Payload(iov))
    else OpenSigned(c, ctx, iov, Pick(iov, HEADER)[..16], Payload(iov))
  }

  /** UnwrapIOV. */
  function UnwrapIov(c: Crypto, ctx: Ctx, iov: Iov): (r: Option<Iov>) {
    if StreamLayout(iov) then
      var plain :- UnwrapToken(c, ctx, Pick(iov, STREAM), ctx.dceStyle);
      Some(Put(iov, STREAM, plain))
    else
      var plain :- OpenIov(c, ctx, iov);
      Distribute(iov, plain)
  }

  /** What a failing UnwrapIOV leaves in the buffers: without a valid token, what
      was there. */
  function UnwrapLeft(c: Crypto, ctx: Ctx, iov: Iov): (r: Iov) {
    if StreamLayout(iov) then iov
    else
      match OpenIov(c, ctx, iov)
      case None => iov
      case Some(plain) => Attempted(iov, plain, false)
  }

  /** Whether UnwrapIOV moves the receive counter. Without SIGN_ONLY buffers it
      moves as soon as the token opens, even if the DATA buffers then turn out
      to have the wrong sizes and the call fails. */
  predicate Advances(c: Crypto, ctx: Ctx, iov: Iov) {
    || UnwrapIov(c, ctx, iov).Some?
    || (!StreamLayout(iov) && Count(iov, SIGN_ONLY) == 0 && OpenIov(c, ctx, iov).Some?)
  }
}
