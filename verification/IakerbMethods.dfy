/** The IAKERB initiator and acceptor as objects that change from step to step. */
module IakerbMethods {
  import opened Bytes
  import opened IakerbToken
  import opened Iakerb

  class IakerbInitiator {
    const w: World
    var state: nat
    var discovery: bool
    var realm: Realm
    var cookie: bytes
    var hasKey: bool
    var tgt: Option<Realm>
    var service: bool
    var tgs: Chase
    var started: bool
    var conversation: bytes

    function Model(): (i: Initiator)
      reads this
    {
      Initiator(state, discovery, realm, cookie, hasKey, tgt, service, tgs, started, conversation)
    }

    /** With a password the exchange starts at the AS, with a ticket at the TGS. */
    constructor (world: World, clientRealm: Realm, ticket: Option<Realm>, hasService: bool)
      ensures w == world
      ensures Model() == Initiator(if ticket.None? && !hasService then AS else TGS, ticket.None? && !hasService && clientRealm == [],
                                   clientRealm, [], false, ticket, hasService, NO_CHASE, false, [])
    {
      w := world;
      state := if ticket.None? && !hasService then AS else TGS;
      discovery := ticket.None? && !hasService && clientRealm == [];
      realm, cookie, hasKey, tgt, service := clientRealm, [], false, ticket, hasService;
      tgs, started, conversation := NO_CHASE, false, [];
    }

    method ProxyRequest(to: Realm, c: bytes, request: bytes) returns (out: Out)
      modifies this`conversation
      ensures (Model(), out) == Send(old(Model()), to, c, request)
    {
      hide Build;
      var token := Build(Header(to, c), request);
      if token.None? { return Bad; }
      conversation := conversation + token.value;
      return Proxy(token.value);
    }

    method InitTgsPath(current: Realm) returns (ok: bool)
      modifies this`tgs
      ensures (tgs, ok) == InitPath(w, old(tgs), current)
    {
      if tgs.realm != [] { return true; }
      var target := w.target;
      if target == [] { target := current; }
      if target == [] || current == [] { return false; }
      tgs := tgs.(realm := target, path := [current], index := 1, visited := {w.fold(current)});
      if w.fold(current) != w.fold(target) {
        tgs := tgs.(path := [current, target]);
        var configured := w.path(current, target);
        if configured.PathError? { return false; }
        if configured.PathOf? { tgs := tgs.(path := configured.realms); }
        if |tgs.path| < 2 || |tgs.path| > MAX_PATH { return false; }
      }
      return true;
    }

    method AbsorbTgs(n: nat, response: bytes) returns (ok: bool)
      modifies this`tgt, this`tgs, this`service
      ensures var r := Absorb(w, old(Model()), n, response);
              ok == r.Some? && Model() == if ok then r.value else old(Model())
    {
      var reply := w.tgsReply(n, response);
      if reply.TgsBad? { return false; }
      if tgs.cross {
        if reply.referral || reply.krbtgt.None? || tgs.index >= |tgs.path| { return false; }
        if w.fold(reply.krbtgt.value) != w.fold(tgs.path[tgs.index]) || w.fold(reply.issuer) != w.fold(tgs.issuer) { return false; }
        tgt := Some(reply.issuer);
        tgs := tgs.(index := tgs.index + 1);
      } else if reply.referral {
        if tgs.hops >= MAX_REFERRALS || reply.krbtgt.None? { return false; }
        var next := reply.krbtgt.value;
        if next == [] || w.fold(next) == w.fold(tgs.realm) || w.fold(next) in tgs.visited { return false; }
        tgt := Some(reply.issuer);
        tgs := tgs.(realm := next, hops := tgs.hops + 1, visited := tgs.visited + {w.fold(next)});
      } else {
        service := true;
      }
      tgs := tgs.(pending := None);
      return true;
    }

    method AskKdc(n: nat, current: Realm) returns (out: Out)
      modifies this`tgs, this`conversation
      ensures (Model(), out) == Ask(w, old(Model()), n, current)
    {
      hide Send;
      var to := tgs.realm;
      if 1 <= tgs.index < |tgs.path| {
        to := tgs.path[tgs.index - 1];
        tgs := tgs.(cross := true, issuer := to);
      } else {
        tgs := tgs.(cross := false, issuer := current);
      }
      var request := w.tgsRequest(n, to);
      if request.None? { return Bad; }
      tgs := tgs.(pending := Some((to, request.value)));
      out := ProxyRequest(to, cookie, request.value);
    }

    method RequestTgs(n: nat) returns (out: Out)
      requires tgt.Some?
      modifies this
      ensures (Model(), out) == Request(w, old(Model()), n)
    {
      hide Send, InitPath, Ask;
      if tgs.pending.Some? {
        out := ProxyRequest(tgs.pending.value.0, cookie, tgs.pending.value.1);
        return;
      }
      var current := tgt.value;
      var ok := InitTgsPath(current);
      if !ok { return Bad; }
      out := AskKdc(n, current);
    }

    method ApStep(n: nat, input: bytes) returns (out: Out)
      modifies this`state, this`started
      ensures (Model(), out) == ApPhase(w, old(Model()), n, input)
    {
      hide ApToken;
      if !started {
        if !service { return Bad; }
        var key := w.subkey(n);
        var inner := w.seal(n, key, w.mac(key, conversation));
        if inner.None? { return Bad; }
        started := true;
        state := if w.mutual then AP else DONE;
        return Ap(ApToken(inner.value));
      }
      if input != [] {
        if !w.apReply(n, input) { return Bad; }
        state := DONE;
      }
      return Quiet;
    }

    method TgsStep(n: nat, input: bytes, response: bytes) returns (out: Out)
      modifies this
      ensures (Model(), out) == TgsPhase(w, old(Model()), n, input, response)
    {
      hide ApPhase, Request, Absorb;
      if !service {
        if tgt.None? || !w.hasKdc { return Bad; }
        if |response| != 0 {
          AbsorbedTicket(Model(), n, response);
          var ok := AbsorbTgs(n, response);
          if !ok { return Bad; }
        }
        if !service {
          out := RequestTgs(n);
          return;
        }
      }
      state := AP;
      out := ApStep(n, input);
    }

    lemma AbsorbedTicket(i: Initiator, n: nat, response: bytes)
      ensures var r := Absorb(w, i, n, response); r.Some? && i.tgt.Some? ==> r.value.tgt.Some?
    {
    }

    method AsStep(n: nat, input: bytes, response: bytes) returns (out: Out)
      requires state == AS
      modifies this
      ensures (Model(), out) == AsPhase(w, old(Model()), n, input, response)
    {
      hide Send, TgsPhase;
      if |input| == 0 {
        if discovery {
          out := ProxyRequest([], [], []);
          return;
        }
        var request := w.asRequest(n);
        if request.None? { return Bad; }
        out := ProxyRequest(realm, [], request.value);
        return;
      }
      var reply := w.asReply(n, response);
      if reply.KdcError? { return Bad; }
      if reply.NeedsPreauth? {
        hasKey := true;
        out := ProxyRequest(realm, cookie, reply.request);
        return;
      }
      if !hasKey || reply.tgt.None? { return Bad; }
      tgt := reply.tgt;
      state := TGS;
      out := TgsStep(n, [], []);
    }

    method AdvanceStep(n: nat, input: bytes, response: bytes) returns (out: Out)
      modifies this
      ensures (Model(), out) == Advance(w, old(Model()), n, input, response)
    {
      hide AsPhase, TgsPhase, ApPhase;
      if state == AS {
        out := AsStep(n, input, response);
      } else if state == TGS {
        out := TgsStep(n, input, response);
      } else {
        out := ApStep(n, input);
      }
    }

    method NextStep(n: nat, received: bytes) returns (out: Out)
      modifies this
      ensures (Model(), out) == Step(w, old(Model()), n, received)
    {
      hide Advance, Parse;
      if state == DONE {
        if |received| != 0 && !w.apReply(n, received) { return Bad; }
        return Quiet;
      }
      var input, response := received, [];
      if |input| != 0 && state != AP {
        var parsed := Parse(input);
        if parsed.None? { return Bad; }
        response := parsed.value.1;
        conversation := conversation + input;
        cookie := parsed.value.0.cookie;
        if parsed.value.0.realm != [] { realm := parsed.value.0.realm; }
        assert Model() == Received(old(Model()), parsed.value.0, received);
        if discovery {
          if realm == [] { return Bad; }
          discovery := false;
          input := [];
        }
      }
      out := AdvanceStep(n, input, response);
    }
  }

  class IakerbAcceptor {
    const w: World
    var conversation: bytes
    var hops: nat

    constructor (world: World)
      ensures w == world && Model() == Acceptor([], 0)
    {
      w, conversation, hops := world, [], 0;
    }

    function Model(): (a: Acceptor)
      reads this
    {
      Acceptor(conversation, hops)
    }

    method AcceptToken(n: nat, token: bytes) returns (answer: Answer)
      modifies this
      ensures (Model(), answer) == Accept(w, old(Model()), n, token)
    {
      hide Parse, Build, UnframeAp;
      var parsed := Parse(token);
      if parsed.None? {
        var inner := UnframeAp(token, w.spare(n));
        if inner.NotFramed? { return Refused; }
        if inner.OutOfRange? { return Panicked; }
        var sealed := w.open(inner.value);
        if sealed.None? { return Refused; }
        var (key, finished) := sealed.value;
        return if conversation == [] || finished == w.mac(key, conversation) then Established else Refused;
      }
      var (h, request) := parsed.value;
      conversation := conversation + token;
      hops := hops + 1;
      if hops > MAX_RELAYS { return Refused; }
      var realm, reply := w.home, Some([]);
      if |request| == 0 {
        if realm == [] { realm := h.realm; }
      } else {
        if h.realm != [] { realm := h.realm; }
        if !w.allowed(realm) { return Refused; }
        reply := w.relay(n, realm, request);
      }
      if reply.None? { return Refused; }
      var out := Build(Header(realm, h.cookie), reply.value);
      if out.None? { return Refused; }
      conversation := conversation + out.value;
      return Relay(out.value);
    }
  }
}
