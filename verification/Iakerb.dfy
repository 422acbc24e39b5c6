/** The IAKERB exchange: an initiator that reaches its KDCs through the acceptor,
    and the acceptor that relays for it. */
module Iakerb {
  import opened Bytes
  import opened IakerbToken

  type Realm = bytes

  const AS: nat := 0
  const TGS: nat := 1
  const AP: nat := 2
  const DONE: nat := 3

  const MAX_REFERRALS: nat := 10
  const MAX_PATH: nat := 11
  const MAX_RELAYS: nat := 32

  /** What an AS response is taken for. */
  datatype AsReply = KdcError | NeedsPreauth(request: bytes) | AsRep(tgt: Option<Realm>)

  /** What a TGS response is taken for; krbtgt is the realm that a ticket-granting
      ticket is for, and issuer the realm it comes from. */
  datatype TgsReply = TgsBad | TgsRep(referral: bool, krbtgt: Option<Realm>, issuer: Realm)

  datatype Configured = PathError | NoPath | PathOf(realms: seq<Realm>)

  /** Everything outside the two state machines: what the initiator's Kerberos
      client builds and understands, at each step; what the KDCs answer; and the
      cryptography of the final AP exchange. */
  datatype World = World(
    hasKdc: bool, mutual: bool, target: Realm, fold: Realm -> Realm, path: (Realm, Realm) -> Configured,
    asRequest: nat -> Option<bytes>, asReply: (nat, bytes) -> AsReply,
    tgsRequest: (nat, Realm) -> Option<bytes>, tgsReply: (nat, bytes) -> TgsReply,
    subkey: nat -> bytes, mac: (bytes, bytes) -> bytes, seal: (nat, bytes, bytes) -> Option<bytes>,
    open: bytes -> Option<(bytes, bytes)>, apReply: (nat, bytes) -> bool,
    home: Realm, allowed: Realm -> bool, relay: (nat, Realm, bytes) -> Option<bytes>, spare: nat -> bytes)

  /** The TGS exchanges: where they are headed, the configured path and how far it
      was walked, what the last request was, and the referrals followed. */
  datatype Chase = Chase(realm: Realm, path: seq<Realm>, index: nat, cross: bool, issuer: Realm, hops: nat, visited: set<Realm>,
                         pending: Option<(Realm, bytes)>)

  const NO_CHASE := Chase([], [], 0, false, [], 0, {}, None)

  datatype Initiator = Initiator(
    state: nat, discovery: bool, realm: Realm, cookie: bytes, hasKey: bool, tgt: Option<Realm>, service: bool, tgs: Chase,
    started: bool, conversation: bytes)

  /** What a step hands out: a proxy token, the AP token, nothing, or an error. */
  datatype Out = Proxy(token: bytes) | Ap(token: bytes) | Quiet | Bad

  // ----- the initiator

  /** proxyRequest. */
  function Send(i: Initiator, realm: Realm, cookie: bytes, request: bytes): (r: (Initiator, Out)) {
    match Build(Header(realm, cookie), request)
    case None => (i, Bad)
    case Some(token) => (i.(conversation := i.conversation + token), Proxy(token))
  }

  /** initTGSPath; the second result is whether it succeeded. */
  function InitPath(w: World, t: Chase, current: Realm): (r: (Chase, bool)) {
    if t.realm != [] then (t, true)
    else
      var realm := if w.target == [] then current else w.target;
      if realm == [] || current == [] then (t, false)
      else
        var u := t.(realm := realm, path := [current], index := 1, visited := {w.fold(current)});
        if w.fold(current) == w.fold(realm) then (u, true)
        else
          match w.path(current, realm)
          case PathError => (u.(path := [current, realm]), false)
          case NoPath => (u.(path := [current, realm]), true)
          case PathOf(p) => (u.(path := p), 2 <= |p| <= MAX_PATH)
  }

  /** A cross-realm ticket must be for the next realm of the path and come from
      the realm asked. */
  function AbsorbCross(w: World, t: Chase, krbtgt: Option<Realm>, issuer: Realm): (r: Option<Chase>) {
    if krbtgt.None? || t.index >= |t.path| || w.fold(krbtgt.value) != w.fold(t.path[t.index]) || w.fold(issuer) != w.fold(t.issuer) then None
    else Some(t.(index := t.index + 1, pending := None))
  }

  /** A referral must lead to a realm that was not visited, within the limit. */
  function AbsorbReferral(w: World, t: Chase, krbtgt: Option<Realm>): (r: Option<Chase>) {
    if t.hops >= MAX_REFERRALS || krbtgt.None? then None
    else if krbtgt.value == [] || w.fold(krbtgt.value) == w.fold(t.realm) || w.fold(krbtgt.value) in t.visited then None
    else Some(t.(realm := krbtgt.value, hops := t.hops + 1, visited := t.visited + {w.fold(krbtgt.value)}, pending := None))
  }

  /** A TGS response: None when it is refused, and nothing has changed then. */
  function Absorb(w: World, i: Initiator, n: nat, response: bytes): (r: Option<Initiator>) {
    match w.tgsReply(n, response)
    case TgsBad => None
    case TgsRep(referral, krbtgt, issuer) =>
      if i.tgs.cross && referral then None
      else if i.tgs.cross then
        var t :- AbsorbCross(w, i.tgs, krbtgt, issuer);
        Some(i.(tgt := Some(issuer), tgs := t))
      else if referral then
        var t :- AbsorbReferral(w, i.tgs, krbtgt);
        Some(i.(tgt := Some(issuer), tgs := t))
      else Some(i.(service := true, tgs := i.tgs.(pending := None)))
  }

  /** What to ask next: along the path while it lasts, and then for the service. */
  function Aimed(t: Chase, current: Realm): (r: (Chase, Realm)) {
    if 1 <= t.index < |t.path| then (t.(cross := true, issuer := t.path[t.index - 1]), t.path[t.index - 1])
    else (t.(cross := false, issuer := current), t.realm)
  }

  function Ask(w: World, i: Initiator, n: nat, current: Realm): (r: (Initiator, Out)) {
    var (t, realm) := Aimed(i.tgs, current);
    match w.tgsRequest(n, realm)
    case None => (i.(tgs := t), Bad)
    case Some(request) => Send(i.(tgs := t.(pending := Some((realm, request)))), realm, i.cookie, request)
  }

  /** The next TGS request, or the one that is pending again. */
  function Request(w: World, i: Initiator, n: nat): (r: (Initiator, Out))
    requires i.tgt.Some?
  {
    if i.tgs.pending.Some? then Send(i, i.tgs.pending.value.0, i.cookie, i.tgs.pending.value.1)
    else
      var (t, ok) := InitPath(w, i.tgs, i.tgt.value);
      if !ok then (i.(tgs := t), Bad) else Ask(w, i.(tgs := t), n, i.tgt.value)
  }

  function ApPhase(w: World, i: Initiator, n: nat, input: bytes): (r: (Initiator, Out)) {
    if !i.started then
      if !i.service then (i, Bad)
      else
        match w.seal(n, w.subkey(n), w.mac(w.subkey(n), i.conversation))
        case None => (i, Bad)
        case Some(inner) => (i.(started := true, state := if w.mutual then AP else DONE), Ap(ApToken(inner)))
    else if input == [] then (i, Quiet)
    else if w.apReply(n, input) then (i.(state := DONE), Quiet)
    else (i, Bad)
  }

  function TgsPhase(w: World, i: Initiator, n: nat, input: bytes, response: bytes): (r: (Initiator, Out)) {
    if i.service then ApPhase(w, i.(state := AP), n, input)
    else if i.tgt.None? || !w.hasKdc then (i, Bad)
    else
      var absorbed := if response == [] then Some(i) else Absorb(w, i, n, response);
      match absorbed
      case None => (i, Bad)
      case Some(j) =>
        if j.service then ApPhase(w, j.(state := AP), n, input)
        else Request(w, j, n)
  }

  function AsPhase(w: World, i: Initiator, n: nat, input: bytes, response: bytes): (r: (Initiator, Out)) {
    if input == [] then
      if i.discovery then Send(i, [], [], [])
      else
        match w.asRequest(n)
        case None => (i, Bad)
        case Some(request) => Send(i, i.realm, [], request)
    else
      match w.asReply(n, response)
      case KdcError => (i, Bad)
      case NeedsPreauth(request) => Send(i.(hasKey := true), i.realm, i.cookie, request)
      case AsRep(tgt) =>
        if !i.hasKey || tgt.None? then (i, Bad)
        else TgsPhase(w, i.(tgt := tgt, state := TGS), n, [], [])
  }

  function Advance(w: World, i: Initiator, n: nat, input: bytes, response: bytes): (r: (Initiator, Out)) {
    if i.state == AS then AsPhase(w, i, n, input, response)
    else if i.state == TGS then TgsPhase(w, i, n, input, response)
    else ApPhase(w, i, n, input)
  }

  /** The initiator with a proxy token from the acceptor taken in. */
  function Received(i: Initiator, h: Header, input: bytes): (r: Initiator) {
    i.(conversation := i.conversation + input, cookie := h.cookie, realm := if h.realm == [] then i.realm else h.realm)
  }

  /** Step, the nth one. */
  function Step(w: World, i: Initiator, n: nat, input: bytes): (r: (Initiator, Out)) {
    if i.state == DONE then (i, if input != [] && !w.apReply(n, input) then Bad else Quiet)
    else if input == [] || i.state == AP then Advance(w, i, n, input, [])
    else
      match Parse(input)
      case None => (i, Bad)
      case Some((h, response)) =>
        var j := Received(i, h, input);
        if !j.discovery then Advance(w, j, n, input, response)
        else if j.realm == [] then (j, Bad)
        else Advance(w, j.(discovery := false), n, [], response)
  }

  // ----- the acceptor

  datatype Acceptor = Acceptor(conversation: bytes, hops: nat)

  /** Panicked is a call that does not return. */
  datatype Answer = Relay(token: bytes) | Established | Refused | Panicked

  /** Accept. Without any relayed token there is no conversation to verify. */
  function Accept(w: World, a: Acceptor, n: nat, token: bytes): (r: (Acceptor, Answer)) {
    match Parse(token)
    case None =>
      (a, match UnframeAp(token, w.spare(n))
          case NotFramed => Refused
          case OutOfRange => Panicked
          case Inner(inner) =>
            match w.open(inner)
            case None => Refused
            case Some((key, finished)) => if a.conversation == [] || finished == w.mac(key, a.conversation) then Established else Refused)
    case Some((h, request)) =>
      var b := Acceptor(a.conversation + token, a.hops + 1);
      if b.hops > MAX_RELAYS then (b, Refused)
      else if request == [] then Answered(b, if w.home == [] then h.realm else w.home, h.cookie, Some([]))
      else
        var realm := if h.realm == [] then w.home else h.realm;
        if !w.allowed(realm) then (b, Refused) else Answered(b, realm, h.cookie, w.relay(n, realm, request))
  }

  function Answered(a: Acceptor, realm: Realm, cookie: bytes, reply: Option<bytes>): (r: (Acceptor, Answer)) {
    if reply.None? then (a, Refused)
    else
      match Build(Header(realm, cookie), reply.value)
      case None => (a, Refused)
      case Some(out) => (a.(conversation := a.conversation + out), Relay(out))
  }
}
