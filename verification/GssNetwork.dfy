/** Two established contexts over a network that replays, reorders, drops,
    reflects and rotates tokens. */
module GssNetwork {
  import opened Bytes
  import opened GssToken

  datatype Kind = Wrap(sealed: bool, confounder: bytes) | Mic

  datatype Sent = Sent(kind: Kind, data: bytes, token: bytes)

  /** A message as the receiving application sees it. */
  datatype Message = Message(isMic: bool, data: bytes)

  /** One side: its context, everything it sent and everything it accepted. */
  datatype End = End(ctx: Ctx, sent: seq<Sent>, got: seq<Message>)

  datatype Net = Net(initiator: End, acceptor: End)

  /** How the network hands a token to an application call. */
  datatype Call = CallUnwrap(rrc: uint16) | CallVerifyMic(claimed: bytes)

  /** Sides are named by a flag, true for the initiator. A delivery may come from
      either side and name any token sent so far. */
  datatype Step =
    | Send(who: bool, kind: Kind, data: bytes)
    | Deliver(to: bool, from: bool, index: nat, call: Call)

  function Side(n: Net, who: bool): (e: End) { if who then n.initiator else n.acceptor }

  function WithSide(n: Net, who: bool, e: End): (r: Net) {
    if who then n.(initiator := e) else n.(acceptor := e)
  }

  function TokenOf(c: Crypto, ctx: Ctx, kind: Kind, data: bytes): (t: bytes)
    ensures |t| >= 16
  {
    match kind
    case Wrap(sealed, confounder) => WrapToken(c, ctx, data, sealed, confounder)
    case Mic => MicToken(c, ctx, data)
  }

  /** What the receiving call returns: the message it accepts, or None. */
  function Receive(c: Crypto, ctx: Ctx, token: bytes, call: Call): (r: Option<Message>) {
    if |token| < 16 then None
    else match call
      case CallUnwrap(rrc) =>
        var data :- UnwrapToken(c, ctx, Rotated(token, rrc), ctx.dceStyle);
        Some(Message(false, data))
      case CallVerifyMic(claimed) =>
        if VerifyMicToken(c, ctx, claimed, token) then Some(Message(true, claimed)) else None
  }

  /** A send takes the next number of the 64-bit counter. */
  function AfterSend(c: Crypto, e: End, kind: Kind, data: bytes): (r: End) {
    End(e.ctx.(sendSeq := (e.ctx.sendSeq + 1) % TWO64), e.sent + [Sent(kind, data, TokenOf(c, e.ctx, kind, data))], e.got)
  }

  /** An accepted token moves the receive counter; a rejected one changes nothing. */
  function AfterReceive(e: End, received: Option<Message>): (r: End) {
    match received
    case None => e
    case Some(m) => End(e.ctx.(recvSeq := (e.ctx.recvSeq + 1) % TWO64), e.sent, e.got + [m])
  }

  function Next(c: Crypto, n: Net, step: Step): (r: Net) {
    match step
    case Send(who, kind, data) => WithSide(n, who, AfterSend(c, Side(n, who), kind, data))
    case Deliver(to, from, index, call) =>
      if index < |Side(n, from).sent| then
        var e := Side(n, to);
        WithSide(n, to, AfterReceive(e, Receive(c, e.ctx, Side(n, from).sent[index].token, call)))
      else n
  }

  function Run(c: Crypto, n: Net, steps: seq<Step>): (r: Net)
    decreases |steps|
  {
    if steps == [] then n else Next(c, Run(c, n, steps[..|steps| - 1]), steps[|steps| - 1])
  }

  // ----- the invariant

  /** Fresh contexts that share the key and agree on the counters. */
  predicate Start(n: Net) {
    var i, a := n.initiator.ctx, n.acceptor.ctx;
    && i.initiator && !a.initiator && i.key == a.key
    && i.sendSeq == a.recvSeq < TWO64 && a.sendSeq == i.recvSeq < TWO64
    && n == Net(End(i, [], []), End(a, [], []))
  }

  /** The context that produced the i-th token of a side that started as ctx. */
  function Sender(ctx: Ctx, i: nat): (r: Ctx) { ctx.(sendSeq := ctx.sendSeq + i) }

  function View(s: Sent): (m: Message) { Message(s.kind.Mic?, s.data) }

  /** got is a prefix of what the other side sent. */
  predicate InOrder(got: seq<Message>, sent: seq<Sent>) {
    |got| <= |sent| && forall i | 0 <= i < |got| :: got[i] == View(sent[i])
  }

  predicate Produced(c: Crypto, start: Ctx, sent: seq<Sent>) {
    forall i | 0 <= i < |sent| :: sent[i].token == TokenOf(c, Sender(start, i), sent[i].kind, sent[i].data)
  }

  /** One side that started as mine, its peer having started as theirs and sent peerSent. */
  predicate EndInv(c: Crypto, mine: Ctx, theirs: Ctx, e: End, peerSent: seq<Sent>) {
    && e.ctx == mine.(sendSeq := mine.sendSeq + |e.sent|, recvSeq := theirs.sendSeq + |e.got|)
    && mine.sendSeq + |e.sent| < TWO64
    && Produced(c, mine, e.sent)
    && InOrder(e.got, peerSent)
  }

  predicate Inv(c: Crypto, start: Net, n: Net) {
    && EndInv(c, start.initiator.ctx, start.acceptor.ctx, n.initiator, n.acceptor.sent)
    && EndInv(c, start.acceptor.ctx, start.initiator.ctx, n.acceptor, n.initiator.sent)
  }

  /** The step stays inside the 64-bit counter, and a text offered with a MIC
      token is the signed one or is told apart by the checksum. */
  predicate Fair(c: Crypto, start: Net, n: Net, step: Step) {
    match step
    case Send(who, _, _) => Side(n, who).ctx.sendSeq + 1 < TWO64
    case Deliver(_, from, index, CallVerifyMic(claimed)) =>
      index < |Side(n, from).sent| ==>
        NoCollision(c, Sender(Side(start, from).ctx, index), Side(n, from).sent[index].data, claimed)
    case _ => true
  }

  predicate NoCollision(c: Crypto, sender: Ctx, data: bytes, claimed: bytes) {
    data == claimed || !SameChecksum(c, sender, data, claimed)
  }

  predicate FairRun(c: Crypto, start: Net, steps: seq<Step>)
    decreases |steps|
  {
    steps == [] ||
    (FairRun(c, start, steps[..|steps| - 1]) &&
     Fair(c, start, Run(c, start, steps[..|steps| - 1]), steps[|steps| - 1]))
  }

  /** What a side makes of one token that some side sent. */
  lemma ReceiveOf(c: Crypto, sender: Ctx, receiver: Ctx, kind: Kind, data: bytes, call: Call)
    requires Lawful(c) && sender.key == receiver.key && sender.sendSeq < TWO64
    requires call.CallVerifyMic? ==> NoCollision(c, sender, data, call.claimed)
    ensures Receive(c, receiver, TokenOf(c, sender, kind, data), call)
         == if && sender.initiator != receiver.initiator && sender.sendSeq == receiver.recvSeq
               && call.CallUnwrap? == kind.Wrap? && (call.CallVerifyMic? ==> call.claimed == data)
            then Some(Message(kind.Mic?, data)) else None
  {
    match (kind, call) {
      case (Wrap(sealed, confounder), CallUnwrap(rrc)) =>
        UnwrapOfWrap(c, sender, receiver, data, sealed, confounder, rrc, receiver.dceStyle);
      case (Wrap(sealed, confounder), CallVerifyMic(claimed)) =>
        KindsDisjoint(c, sender, receiver, data, sealed, confounder, claimed, 0, false);
      case (Mic, CallUnwrap(rrc)) =>
        KindsDisjoint(c, sender, receiver, data, false, [], [], rrc, receiver.dceStyle);
      case (Mic, CallVerifyMic(claimed)) =>
        VerifyOfMic(c, sender, receiver, data, claimed);
    }
  }

  /** A delivery is accepted exactly when it is the next token of the other side
      handed to the matching call, and then the message is the one sent. */
  lemma AcceptedIffNext(c: Crypto, start: Net, n: Net, to: bool, from: bool, index: nat, call: Call)
    requires Lawful(c) && Start(start) && Inv(c, start, n)
    requires index < |Side(n, from).sent| && Fair(c, start, n, Deliver(to, from, index, call))
    ensures var s, e := Side(n, from).sent[index], Side(n, to);
            Receive(c, e.ctx, s.token, call)
              == if && from != to && index == |e.got| && call.CallUnwrap? == s.kind.Wrap?
                    && (call.CallVerifyMic? ==> call.claimed == s.data)
                 then Some(View(s)) else None
  {
    var s := Side(n, from).sent[index];
    ReceiveOf(c, Sender(Side(start, from).ctx, index), Side(n, to).ctx, s.kind, s.data, call);
  }

  lemma TokenIgnoresRecv(c: Crypto, a: Ctx, b: Ctx, kind: Kind, data: bytes)
    requires a == b.(recvSeq := a.recvSeq)
    ensures TokenOf(c, a, kind, data) == TokenOf(c, b, kind, data)
  {
    assert Flags(a, true) == Flags(b, true) && Flags(a, false) == Flags(b, false);
  }

  lemma ProducedGrows(c: Crypto, start: Ctx, sent: seq<Sent>, s: Sent)
    requires Produced(c, start, sent)
    requires s.token == TokenOf(c, Sender(start, |sent|), s.kind, s.data)
    ensures Produced(c, start, sent + [s])
  {
  }

  lemma SenderKeeps(c: Crypto, mine: Ctx, theirs: Ctx, e: End, peerSent: seq<Sent>, kind: Kind, data: bytes)
    requires EndInv(c, mine, theirs, e, peerSent) && e.ctx.sendSeq + 1 < TWO64
    ensures EndInv(c, mine, theirs, AfterSend(c, e, kind, data), peerSent)
  {
    hide TokenOf;
    TokenIgnoresRecv(c, e.ctx, Sender(mine, |e.sent|), kind, data);
    ProducedGrows(c, mine, e.sent, Sent(kind, data, TokenOf(c, e.ctx, kind, data)));
  }

  lemma SendKeepsInv(c: Crypto, start: Net, n: Net, who: bool, kind: Kind, data: bytes)
    requires Inv(c, start, n) && Side(n, who).ctx.sendSeq + 1 < TWO64
    ensures Inv(c, start, Next(c, n, Send(who, kind, data)))
  {
    SenderKeeps(c, Side(start, who).ctx, Side(start, !who).ctx, Side(n, who), Side(n, !who).sent, kind, data);
  }

  lemma ReceiverKeeps(c: Crypto, mine: Ctx, theirs: Ctx, e: End, peerSent: seq<Sent>, received: Option<Message>)
    requires EndInv(c, mine, theirs, e, peerSent) && theirs.sendSeq + |peerSent| < TWO64
    requires received.Some? ==> |e.got| < |peerSent| && received == Some(View(peerSent[|e.got|]))
    ensures EndInv(c, mine, theirs, AfterReceive(e, received), peerSent)
  {
    hide TokenOf;
  }

  lemma DeliverKeepsInv(c: Crypto, start: Net, n: Net, to: bool, from: bool, index: nat, call: Call)
    requires Lawful(c) && Start(start) && Inv(c, start, n) && Fair(c, start, n, Deliver(to, from, index, call))
    ensures Inv(c, start, Next(c, n, Deliver(to, from, index, call)))
  {
    hide Receive, TokenOf;
    if index < |Side(n, from).sent| {
      AcceptedIffNext(c, start, n, to, from, index, call);
      var e := Side(n, to);
      ReceiverKeeps(c, Side(start, to).ctx, Side(start, !to).ctx, e, Side(n, !to).sent,
                    Receive(c, e.ctx, Side(n, from).sent[index].token, call));
    }
  }

  lemma {:induction false} RunKeepsInv(c: Crypto, start: Net, steps: seq<Step>)
    requires Lawful(c) && Start(start) && FairRun(c, start, steps)
    ensures Inv(c, start, Run(c, start, steps))
    decreases |steps|
  {
    if steps != [] {
      RunKeepsInv(c, start, steps[..|steps| - 1]);
      var n := Run(c, start, steps[..|steps| - 1]);
      match steps[|steps| - 1] {
        case Send(who, kind, data) => SendKeepsInv(c, start, n, who, kind, data);
        case Deliver(to, from, index, call) => DeliverKeepsInv(c, start, n, to, from, index, call);
      }
    }
  }

  /** Over every run, each side has accepted, in order and without repetition,
      a prefix of what the other side sent by Wrap or MIC. */
  lemma AcceptedArePrefix(c: Crypto, start: Net, steps: seq<Step>, who: bool)
    requires Lawful(c) && Start(start) && FairRun(c, start, steps)
    ensures var n := Run(c, start, steps); InOrder(Side(n, who).got, Side(n, !who).sent)
  {
    RunKeepsInv(c, start, steps);
  }

  /** The next token is always still accepted, whatever was rejected before. */
  lemma NextIsAccepted(c: Crypto, start: Net, steps: seq<Step>, to: bool, rrc: uint16)
    requires Lawful(c) && Start(start) && FairRun(c, start, steps)
    requires var n := Run(c, start, steps); |Side(n, to).got| < |Side(n, !to).sent|
    ensures var n := Run(c, start, steps);
            var k := |Side(n, to).got|;
            var s := Side(n, !to).sent[k];
            var call := if s.kind.Wrap? then CallUnwrap(rrc) else CallVerifyMic(s.data);
            Side(Next(c, n, Deliver(to, !to, k, call)), to).got == Side(n, to).got + [View(s)]
  {
    RunKeepsInv(c, start, steps);
    var n := Run(c, start, steps);
    var k := |Side(n, to).got|;
    var s := Side(n, !to).sent[k];
    var call := if s.kind.Wrap? then CallUnwrap(rrc) else CallVerifyMic(s.data);
    AcceptedIffNext(c, start, n, to, !to, k, call);
  }
}
