/** What holds in every IAKERB run. */
module IakerbTheorems {
  import opened Bytes
  import opened IakerbToken
  import opened Iakerb

  // ----- transcripts

  /** What a step takes into the transcript before it sends. */
  function Taken(i: Initiator, input: bytes): (b: bytes) { if i.state == AS || i.state == TGS then input else [] }

  function Sent(out: Out): (b: bytes) { if out.Proxy? then out.token else [] }

  /** What every part of a step keeps: the state does not go back, a proxy token
      is sent only before the AP phase, an AP token seals the checksum of the
      transcript, and what is sent as a proxy token is added to it. */
  ghost predicate Keeps(w: World, i: Initiator, n: nat, j: Initiator, out: Out) {
    && i.state <= j.state <= DONE && (out.Proxy? ==> j.state <= TGS)
    && (out != Bad ==> j.conversation == i.conversation + Sent(out))
    && (out.Ap? ==> IsSealed(w, n, j.conversation, out.token))
  }

  ghost predicate IsSealed(w: World, n: nat, conversation: bytes, token: bytes) {
    var sealed := w.seal(n, w.subkey(n), w.mac(w.subkey(n), conversation));
    sealed.Some? && token == ApToken(sealed.value)
  }

  lemma SendKeeps(w: World, i: Initiator, n: nat, realm: Realm, cookie: bytes, request: bytes)
    requires i.state <= TGS
    ensures Keeps(w, i, n, Send(i, realm, cookie, request).0, Send(i, realm, cookie, request).1)
  {
    hide Build, IsSealed;
  }

  lemma ApKeeps(w: World, i: Initiator, n: nat, input: bytes)
    requires i.state <= AP
    ensures Keeps(w, i, n, ApPhase(w, i, n, input).0, ApPhase(w, i, n, input).1)
  {
    hide ApToken;
  }

  /** Keeps looks at the state and the transcript only. */
  lemma KeepsFrom(w: World, i: Initiator, k: Initiator, n: nat, j: Initiator, out: Out)
    requires Keeps(w, k, n, j, out) && i.state <= k.state && i.conversation == k.conversation
    ensures Keeps(w, i, n, j, out)
  {
    hide IsSealed;
  }

  lemma RequestKeeps(w: World, i: Initiator, n: nat)
    requires i.tgt.Some? && i.state <= TGS
    ensures Keeps(w, i, n, Request(w, i, n).0, Request(w, i, n).1)
  {
    hide Send, InitPath, Ask, Keeps;
    if i.tgs.pending.Some? {
      SendKeeps(w, i, n, i.tgs.pending.value.0, i.cookie, i.tgs.pending.value.1);
    } else {
      var j := i.(tgs := InitPath(w, i.tgs, i.tgt.value).0);
      BadKeeps(w, i, n, j);
      AskKeeps(w, j, n, i.tgt.value);
      KeepsFrom(w, i, j, n, Ask(w, j, n, i.tgt.value).0, Ask(w, j, n, i.tgt.value).1);
    }
  }

  lemma AskKeeps(w: World, i: Initiator, n: nat, current: Realm)
    requires i.state <= TGS
    ensures Keeps(w, i, n, Ask(w, i, n, current).0, Ask(w, i, n, current).1)
  {
    hide Send, Keeps, Aimed;
    var (t, realm) := Aimed(i.tgs, current);
    BadKeeps(w, i, n, i.(tgs := t));
    if w.tgsRequest(n, realm).Some? {
      var request := w.tgsRequest(n, realm).value;
      var k := i.(tgs := t.(pending := Some((realm, request))));
      SendKeeps(w, k, n, realm, i.cookie, request);
      KeepsFrom(w, i, k, n, Ask(w, i, n, current).0, Ask(w, i, n, current).1);
    }
  }

  lemma BadKeeps(w: World, i: Initiator, n: nat, j: Initiator)
    requires i.state <= j.state <= DONE
    ensures Keeps(w, i, n, j, Bad)
  {
  }

  lemma AbsorbKeeps(w: World, i: Initiator, n: nat, response: bytes)
    ensures var j := Absorb(w, i, n, response);
            j.Some? ==> j.value.state == i.state && j.value.conversation == i.conversation && (i.tgt.Some? ==> j.value.tgt.Some?)
  {
  }

  lemma TgsKeeps(w: World, i: Initiator, n: nat, input: bytes, response: bytes)
    requires i.state <= TGS
    ensures Keeps(w, i, n, TgsPhase(w, i, n, input, response).0, TgsPhase(w, i, n, input, response).1)
  {
    hide ApPhase, Request, Absorb, Keeps;
    BadKeeps(w, i, n, i);
    var r := TgsPhase(w, i, n, input, response);
    if i.service {
      ApKeeps(w, i.(state := AP), n, input);
      KeepsFrom(w, i, i.(state := AP), n, r.0, r.1);
    } else if i.tgt.Some? && w.hasKdc {
      AbsorbKeeps(w, i, n, response);
      var absorbed := if response == [] then Some(i) else Absorb(w, i, n, response);
      if absorbed.Some? {
        var j := absorbed.value;
        if j.service {
          ApKeeps(w, j.(state := AP), n, input);
          KeepsFrom(w, i, j.(state := AP), n, r.0, r.1);
        } else {
          RequestKeeps(w, j, n);
          KeepsFrom(w, i, j, n, r.0, r.1);
        }
      }
    }
  }

  lemma AsKeeps(w: World, i: Initiator, n: nat, input: bytes, response: bytes)
    requires i.state == AS
    ensures Keeps(w, i, n, AsPhase(w, i, n, input, response).0, AsPhase(w, i, n, input, response).1)
  {
    hide TgsPhase, Send, Keeps;
    BadKeeps(w, i, n, i);
    var r := AsPhase(w, i, n, input, response);
    if input == [] {
      SendKeeps(w, i, n, [], [], []);
      if w.asRequest(n).Some? { SendKeeps(w, i, n, i.realm, [], w.asRequest(n).value); }
    } else {
      match w.asReply(n, response) {
        case KdcError =>
        case NeedsPreauth(request) =>
          var k := i.(hasKey := true);
          SendKeeps(w, k, n, i.realm, i.cookie, request);
          KeepsFrom(w, i, k, n, r.0, r.1);
        case AsRep(tgt) =>
          if i.hasKey && tgt.Some? {
            var k := i.(tgt := tgt, state := TGS);
            TgsKeeps(w, k, n, [], []);
            KeepsFrom(w, i, k, n, r.0, r.1);
          }
      }
    }
  }

  lemma AdvanceKeeps(w: World, i: Initiator, n: nat, input: bytes, response: bytes)
    requires i.state <= AP
    ensures Keeps(w, i, n, Advance(w, i, n, input, response).0, Advance(w, i, n, input, response).1)
  {
    hide ApPhase, TgsPhase, AsPhase, Keeps;
    if i.state == AS { AsKeeps(w, i, n, input, response); }
    else if i.state == TGS { TgsKeeps(w, i, n, input, response); }
    else { ApKeeps(w, i, n, input); }
  }

  /** A step without an error adds to the transcript what it received and what it
      sends, in this order; its state never goes back. */
  lemma StepKeeps(w: World, i: Initiator, n: nat, input: bytes)
    requires i.state <= DONE
    ensures var (j, out) := Step(w, i, n, input);
            && i.state <= j.state <= DONE && (out.Proxy? ==> j.state <= TGS)
            && (out != Bad ==> j.conversation == i.conversation + Taken(i, input) + Sent(out))
            && (out.Ap? ==> IsSealed(w, n, j.conversation, out.token))
  {
    hide Advance, Parse, IsSealed, Keeps;
    if i.state == DONE {
    } else if input == [] || i.state == AP {
      AdvanceKeeps(w, i, n, input, []);
      KeptTranscript(w, i, n, Step(w, i, n, input).0, Step(w, i, n, input).1);
    } else if Parse(input).Some? {
      var (h, response) := Parse(input).value;
      var j := Received(i, h, input);
      if !j.discovery || j.realm != [] {
        var k := j.(discovery := false);
        AdvanceKeeps(w, k, n, if j.discovery then [] else input, response);
        KeptTranscript(w, k, n, Step(w, i, n, input).0, Step(w, i, n, input).1);
      }
    }
  }

  lemma KeptTranscript(w: World, i: Initiator, n: nat, j: Initiator, out: Out)
    requires Keeps(w, i, n, j, out)
    ensures i.state <= j.state <= DONE && (out.Proxy? ==> j.state <= TGS)
    ensures out != Bad ==> j.conversation == i.conversation + Sent(out)
    ensures out.Ap? ==> IsSealed(w, n, j.conversation, out.token)
  {
  }

  /** An acceptor that relays adds the token and its answer. */
  lemma RelayTranscript(w: World, a: Acceptor, n: nat, token: bytes)
    ensures var (b, answer) := Accept(w, a, n, token);
            answer.Relay? ==> b.conversation == a.conversation + token + answer.token && b.hops == a.hops + 1 <= MAX_RELAYS
                              && answer.token != []
  {
    hide Build, Parse, UnframeAp;
    FramesNotEmpty();
  }

  lemma FramesNotEmpty()
    ensures forall h: Header, request: bytes {:trigger Build(h, request)} :: Build(h, request).Some? ==> Build(h, request).value != []
  {
    hide MarshalHeader;
  }

  // ----- runs of an honest pair

  /** The initiator's last output is on its way to the acceptor. */
  datatype Session = Session(i: Initiator, a: Acceptor, n: nat, last: Out)

  /** One round: the acceptor relays the proxy token and the initiator takes the
      answer. */
  ghost predicate Round(w: World, s: Session, t: Session) {
    && s.last.Proxy?
    && var (b, answer) := Accept(w, s.a, s.n, s.last.token);
    && answer.Relay?
    && var (j, out) := Step(w, s.i, s.n + 1, answer.token);
    && out != Bad && t == Session(j, b, s.n + 1, out)
  }

  ghost predicate Start(w: World, s: Session) {
    && s.a == Acceptor([], 0) && s.n == 0 && s.last != Bad
    && exists i: Initiator :: i.state <= TGS && i.conversation == [] && !i.started && (s.i, s.last) == Step(w, i, 0, [])
  }

  /** The two transcripts differ only by the token on its way. */
  ghost predicate Agree(s: Session) {
    s.i.state <= DONE && (s.last.Proxy? ==> s.i.state <= TGS) && s.i.conversation == s.a.conversation + Sent(s.last)
  }

  lemma StartAgrees(w: World, s: Session)
    requires Start(w, s)
    ensures Agree(s)
  {
    hide Step;
    var i: Initiator :| i.state <= TGS && i.conversation == [] && !i.started && (s.i, s.last) == Step(w, i, 0, []);
    StepKeeps(w, i, 0, []);
    assert [] + [] + Sent(s.last) == [] + Sent(s.last);
  }

  lemma RoundAgrees(w: World, s: Session, t: Session)
    requires Agree(s) && Round(w, s, t)
    ensures Agree(t) && t.a.hops == s.a.hops + 1 <= MAX_RELAYS && s.i.state <= t.i.state
  {
    hide Step, Accept;
    var (b, answer) := Accept(w, s.a, s.n, s.last.token);
    RelayTranscript(w, s.a, s.n, s.last.token);
    StepKeeps(w, s.i, s.n + 1, answer.token);
    assert s.a.conversation + s.last.token + answer.token == b.conversation;
  }

  ghost predicate Rounds(w: World, s: Session, states: seq<Session>)
    decreases |states|
  {
    states == [] || (Round(w, s, states[0]) && Rounds(w, states[0], states[1..]))
  }

  function Final(s: Session, states: seq<Session>): (r: Session) { if states == [] then s else states[|states| - 1] }

  /** After every delivered round the transcripts agree; at most 32 tokens are
      relayed; and the initiator never goes back. */
  lemma {:induction false} RunAgrees(w: World, s: Session, states: seq<Session>)
    requires Agree(s) && Rounds(w, s, states)
    ensures Agree(Final(s, states)) && s.i.state <= Final(s, states).i.state
    ensures Final(s, states).a.hops == s.a.hops + |states| && (states != [] ==> s.a.hops + |states| <= MAX_RELAYS)
    decreases |states|
  {
    hide Round, Agree;
    if states != [] {
      RoundAgrees(w, s, states[0]);
      RunAgrees(w, states[0], states[1..]);
    }
  }

  /** The AP exchange can be opened by whoever it was sealed for. */
  ghost predicate Opens(w: World) {
    forall n: nat, key: bytes, finished: bytes ::
      w.seal(n, key, finished).Some? ==> w.open(w.seal(n, key, finished).value) == Some((key, finished))
  }

  /** So in every run without an error the finished checksum verifies, exactly
      when the AP token is short enough to be framed. */
  lemma FinishedVerifies(w: World, s0: Session, states: seq<Session>)
    requires Opens(w) && Start(w, s0) && Rounds(w, s0, states) && Final(s0, states).last.Ap?
    ensures var s := Final(s0, states);
            Accept(w, s.a, s.n, s.last.token) == (s.a, if |s.last.token| < 0x1_0004 then Established else Refused)
  {
    hide Start, Rounds, Step, Parse, UnframeAp, ApToken;
    StartAgrees(w, s0);
    RunAgrees(w, s0, states);
    var s := Final(s0, states);
    LastIsSealed(w, s0, states);
    var sealed := w.seal(s.n, w.subkey(s.n), w.mac(w.subkey(s.n), s.i.conversation));
    ApTokenSize(sealed.value);
    ApUnframes(sealed.value, w.spare(s.n));
    ApIsNotProxy(sealed.value);
    assert s.a.conversation + [] == s.a.conversation;
  }

  lemma ApTokenSize(inner: bytes)
    ensures |ApToken(inner)| < 0x1_0004 <==> 13 + |inner| < 0x1_0000
  {
  }

  lemma ApUnframes(inner: bytes, spare: bytes)
    ensures UnframeAp(ApToken(inner), spare) == if 13 + |inner| < 0x1_0000 then Inner(inner) else NotFramed
  {
    hide Frame, Unframe, UnframeAp, OpenAp;
    ApBack(inner);
    FrameBack(KERBEROS_OID + AP_REQ_ID + inner);
    UnframeExact(ApToken(inner), spare);
  }

  lemma ApIsNotProxy(inner: bytes)
    ensures Parse(ApToken(inner)).None?
  {
    hide Frame, Unframe, ParseBody;
    ApBack(inner);
    KindsDiffer(ApToken(inner));
    FrameBack(KERBEROS_OID + AP_REQ_ID + inner);
  }

  lemma {:induction false} LastIsSealed(w: World, s: Session, states: seq<Session>)
    requires Agree(s) && Rounds(w, s, states) && (Start(w, s) || Sealed(w, s)) && Final(s, states).last.Ap?
    ensures Sealed(w, Final(s, states))
    decreases |states|
  {
    hide Step, Accept;
    if states == [] {
      if Start(w, s) {
        var i: Initiator :| i.state <= TGS && i.conversation == [] && !i.started && (s.i, s.last) == Step(w, i, 0, []);
        StepKeeps(w, i, 0, []);
      }
    } else {
      RoundAgrees(w, s, states[0]);
      StepKeeps(w, s.i, s.n + 1, Accept(w, s.a, s.n, s.last.token).1.token);
      LastIsSealed(w, states[0], states[1..]);
    }
  }

  ghost predicate Sealed(w: World, s: Session) { s.last.Ap? ==> IsSealed(w, s.n, s.i.conversation, s.last.token) }

  // ----- referrals, whatever the acceptor sends

  ghost predicate RefInv(t: Chase) {
    && t.hops <= MAX_REFERRALS && (t.realm == [] ==> t.hops == 0 && t.visited == {})
  }

  /** A step enters no realm by referral, or one that was not visited before. */
  ghost predicate RefStep(w: World, t: Chase, u: Chase) {
    && RefInv(u) && t.visited <= u.visited
    && (u.hops == t.hops || (u.hops == t.hops + 1 && w.fold(u.realm) !in t.visited && w.fold(u.realm) in u.visited))
  }

  predicate SameRefs(t: Chase, u: Chase) { u.hops == t.hops && u.visited == t.visited && u.realm == t.realm }

  lemma SendRefs(i: Initiator, realm: Realm, cookie: bytes, request: bytes)
    ensures Send(i, realm, cookie, request).0.tgs == i.tgs
  {
    hide Build;
  }

  lemma ApRefs(w: World, i: Initiator, n: nat, input: bytes)
    ensures ApPhase(w, i, n, input).0.tgs == i.tgs
  {
    hide ApToken;
  }

  lemma InitPathRefs(w: World, t: Chase, current: Realm)
    requires RefInv(t)
    ensures var u := InitPath(w, t, current).0;
            && (t.realm != [] ==> u == t)
            && (SameRefs(t, u) || (t.realm == [] && u.realm != [] && u.hops == t.hops && RefInv(u)))
  {
  }

  lemma AskRefs(w: World, i: Initiator, n: nat, current: Realm)
    ensures SameRefs(i.tgs, Ask(w, i, n, current).0.tgs)
  {
    hide Send;
    var (t, realm) := Aimed(i.tgs, current);
    if w.tgsRequest(n, realm).Some? {
      var request := w.tgsRequest(n, realm).value;
      SendRefs(i.(tgs := t.(pending := Some((realm, request)))), realm, i.cookie, request);
    }
  }

  /** Asking does not enter a realm by referral. */
  lemma RequestRefs(w: World, i: Initiator, n: nat)
    requires i.tgt.Some? && RefInv(i.tgs)
    ensures var u := Request(w, i, n).0.tgs;
            RefInv(u) && i.tgs.visited <= u.visited && u.hops == i.tgs.hops && (i.tgs.realm != [] ==> SameRefs(i.tgs, u))
  {
    hide Send, InitPath, Ask;
    if i.tgs.pending.Some? {
      SendRefs(i, i.tgs.pending.value.0, i.cookie, i.tgs.pending.value.1);
    } else {
      InitPathRefs(w, i.tgs, i.tgt.value);
      AskRefs(w, i.(tgs := InitPath(w, i.tgs, i.tgt.value).0), n, i.tgt.value);
    }
  }

  lemma AbsorbRefs(w: World, i: Initiator, n: nat, response: bytes)
    requires RefInv(i.tgs)
    ensures var j := Absorb(w, i, n, response);
            j.Some? ==> RefStep(w, i.tgs, j.value.tgs) && (SameRefs(i.tgs, j.value.tgs) || j.value.tgs.realm != [])
                        && (i.tgt.Some? ==> j.value.tgt.Some?)
  {
  }

  lemma TgsRefs(w: World, i: Initiator, n: nat, input: bytes, response: bytes)
    requires RefInv(i.tgs)
    ensures RefStep(w, i.tgs, TgsPhase(w, i, n, input, response).0.tgs)
  {
    hide ApPhase, Request, Absorb;
    if i.service {
      ApRefs(w, i.(state := AP), n, input);
    } else if i.tgt.Some? && w.hasKdc {
      AbsorbRefs(w, i, n, response);
      var absorbed := if response == [] then Some(i) else Absorb(w, i, n, response);
      if absorbed.Some? {
        var j := absorbed.value;
        if j.service { ApRefs(w, j.(state := AP), n, input); } else { RequestRefs(w, j, n); }
      }
    }
  }

  lemma AsRefs(w: World, i: Initiator, n: nat, input: bytes, response: bytes)
    requires RefInv(i.tgs)
    ensures RefStep(w, i.tgs, AsPhase(w, i, n, input, response).0.tgs)
  {
    hide TgsPhase, Send;
    if input == [] {
      SendRefs(i, [], [], []);
      if w.asRequest(n).Some? { SendRefs(i, i.realm, [], w.asRequest(n).value); }
    } else {
      match w.asReply(n, response) {
        case KdcError =>
        case NeedsPreauth(request) => SendRefs(i.(hasKey := true), i.realm, i.cookie, request);
        case AsRep(tgt) => TgsRefs(w, i.(tgt := tgt, state := TGS), n, [], []);
      }
    }
  }

  lemma AdvanceRefs(w: World, i: Initiator, n: nat, input: bytes, response: bytes)
    requires RefInv(i.tgs)
    ensures RefStep(w, i.tgs, Advance(w, i, n, input, response).0.tgs)
  {
    hide ApPhase, TgsPhase, AsPhase;
    if i.state == AS { AsRefs(w, i, n, input, response); }
    else if i.state == TGS { TgsRefs(w, i, n, input, response); }
    else { ApRefs(w, i, n, input); }
  }

  lemma StepRefs(w: World, i: Initiator, n: nat, input: bytes)
    requires RefInv(i.tgs)
    ensures RefStep(w, i.tgs, Step(w, i, n, input).0.tgs)
  {
    hide Advance, Parse;
    if i.state == DONE {
    } else if input == [] || i.state == AP {
      AdvanceRefs(w, i, n, input, []);
    } else if Parse(input).Some? {
      var (h, response) := Parse(input).value;
      var j := Received(i, h, input);
      var k := j.(discovery := false);
      AdvanceRefs(w, k, n, if j.discovery then [] else input, response);
    }
  }

  /** The realms entered by referral when the initiator is fed any inputs. */
  function Entered(w: World, i: Initiator, n: nat, inputs: seq<bytes>): (r: seq<Realm>)
    decreases |inputs|
  {
    if inputs == [] then []
    else
      var j := Step(w, i, n, inputs[0]).0;
      (if j.tgs.hops > i.tgs.hops then [w.fold(j.tgs.realm)] else []) + Entered(w, j, n + 1, inputs[1..])
  }

  predicate NoRepeats(xs: seq<Realm>) { forall i, j | 0 <= i < j < |xs| :: xs[i] != xs[j] }

  /** Whatever it is sent, an initiator enters no realm by referral twice, and at
      most ten. */
  lemma {:induction false} ReferralsBounded(w: World, i: Initiator, n: nat, inputs: seq<bytes>)
    requires RefInv(i.tgs)
    ensures var e := Entered(w, i, n, inputs);
            i.tgs.hops + |e| <= MAX_REFERRALS && NoRepeats(e) && forall x | x in e :: x !in i.tgs.visited
    decreases |inputs|
  {
    hide Step;
    if inputs != [] {
      var j := Step(w, i, n, inputs[0]).0;
      StepRefs(w, i, n, inputs[0]);
      ReferralsBounded(w, j, n + 1, inputs[1..]);
      var rest := Entered(w, j, n + 1, inputs[1..]);
      if j.tgs.hops > i.tgs.hops {
        assert w.fold(j.tgs.realm) !in rest;
        assert Entered(w, i, n, inputs) == [w.fold(j.tgs.realm)] + rest;
      } else {
        assert Entered(w, i, n, inputs) == [] + rest == rest;
      }
    }
  }
}
