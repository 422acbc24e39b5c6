/** Users of the KCM daemon do not notice each other. */
module KcmIsolation {
  import opened Bytes
  import opened KcmServer
  import opened KcmTheorems

  /** shared selects the one common namespace for everybody. */
  datatype Server = Server(shared: bool, common: Namespace, spaces: map<uint32, Namespace>)

  /** The namespace a peer works in; it is made on first use. */
  function Space(s: Server, uid: uint32): (ns: Namespace) {
    if s.shared then s.common else if uid in s.spaces then s.spaces[uid] else EMPTY
  }

  function WithSpace(s: Server, uid: uint32, ns: Namespace): (r: Server) {
    if s.shared then s.(common := ns) else s.(spaces := s.spaces[uid := ns])
  }

  function Serve(s: Server, uid: uint32, c: Call): (r: (Server, Reply))
    requires Parallel(Space(s, uid))
  {
    var (ns, reply) := Dispatch(Space(s, uid), c.request, c.order);
    (WithSpace(s, uid, ns), reply)
  }

  /** A request changes no other user's namespace. */
  lemma OthersUnchanged(s: Server, uid: uint32, c: Call, other: uint32)
    requires Parallel(Space(s, uid)) && !s.shared && other != uid
    ensures Space(Serve(s, uid, c).0, other) == Space(s, other)
  {
    hide Dispatch;
  }

  datatype Event = Event(uid: uint32, call: Call)

  ghost predicate Sound(s: Server) { forall uid: uint32 :: Inv(Space(s, uid)) }

  /** A run of requests by any users, with the replies; no namespace comes near
      2^64 UUIDs. */
  ghost predicate ServerRun(s: Server, events: seq<Event>, replies: seq<Reply>, r: Server)
    decreases |events|
  {
    && |replies| == |events|
    && if events == [] then r == s
       else
         && var uid, c := events[0].uid, events[0].call;
         && Parallel(Space(s, uid)) && Space(s, uid).next + |c.request| + 2 < TWO64
         && replies[0] == Serve(s, uid, c).1
         && ServerRun(Serve(s, uid, c).0, events[1..], replies[1..], r)
  }

  function Of(events: seq<Event>, uid: uint32): (r: seq<Call>) {
    if events == [] then []
    else (if events[0].uid == uid then [events[0].call] else []) + Of(events[1..], uid)
  }

  function RepliesOf(events: seq<Event>, replies: seq<Reply>, uid: uint32): (r: seq<Reply>)
    requires |events| == |replies|
  {
    if events == [] then []
    else (if events[0].uid == uid then [replies[0]] else []) + RepliesOf(events[1..], replies[1..], uid)
  }

  /** One user alone, with the replies. */
  ghost predicate Alone(ns: Namespace, calls: seq<Call>, replies: seq<Reply>, r: Namespace)
    decreases |calls|
  {
    && |replies| == |calls|
    && if calls == [] then r == ns
       else
         && Parallel(ns) && ns.next + |calls[0].request| + 2 < TWO64
         && replies[0] == Dispatch(ns, calls[0].request, calls[0].order).1
         && Alone(Dispatch(ns, calls[0].request, calls[0].order).0, calls[1..], replies[1..], r)
  }

  /** Without a shared namespace a user's replies and final namespace are those
      of a daemon that serves this user alone. */
  lemma {:induction false} Noninterference(s: Server, events: seq<Event>, replies: seq<Reply>, r: Server, uid: uint32)
    requires !s.shared && ServerRun(s, events, replies, r)
    ensures Alone(Space(s, uid), Of(events, uid), RepliesOf(events, replies, uid), Space(r, uid))
    decreases |events|
  {
    hide Dispatch;
    if events != [] {
      var e := events[0];
      var next := Serve(s, e.uid, e.call).0;
      Noninterference(next, events[1..], replies[1..], r, uid);
      var calls, answers := Of(events[1..], uid), RepliesOf(events[1..], replies[1..], uid);
      if e.uid == uid {
        AloneCons(Space(s, uid), e.call, replies[0], calls, answers, Space(r, uid));
      } else {
        OthersUnchanged(s, e.uid, e.call, uid);
        assert [] + calls == calls && [] + answers == answers;
      }
    }
  }

  lemma AloneCons(ns: Namespace, c: Call, reply: Reply, calls: seq<Call>, answers: seq<Reply>, r: Namespace)
    requires Parallel(ns) && ns.next + |c.request| + 2 < TWO64 && reply == Dispatch(ns, c.request, c.order).1
    requires Alone(Dispatch(ns, c.request, c.order).0, calls, answers, r)
    ensures Alone(ns, [c] + calls, [reply] + answers, r)
  {
    hide Dispatch;
    assert ([c] + calls)[1..] == calls && ([reply] + answers)[1..] == answers;
  }

  /** Every namespace of the daemon keeps its invariant in every run. */
  lemma {:induction false} ServerRunSound(s: Server, events: seq<Event>, replies: seq<Reply>, r: Server)
    requires Sound(s) && ServerRun(s, events, replies, r)
    ensures Sound(r)
    decreases |events|
  {
    hide Dispatch, Inv;
    if events != [] {
      var uid, c := events[0].uid, events[0].call;
      var next := Serve(s, uid, c).0;
      DispatchInv(Space(s, uid), c.request, c.order);
      forall v: uint32 ensures Inv(Space(next, v)) { assert Inv(Space(s, v)); }
      ServerRunSound(Serve(s, uid, c).0, events[1..], replies[1..], r);
    }
  }
}
