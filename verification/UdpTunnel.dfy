/** The whole UDP path: the client's two goroutines around one clientAddr field, the two
    directions of the WebSocket, and the server's request loop, interleaved freely. */
module UdpTunnel {
  import opened Bytes
  import opened HostPort
  import opened UdpFrame
  import opened UdpRelay

  type Addr = nat
  datatype Local = Local(addr: Addr, data: seq<byte>)

  /** UDPRelay.Run: waiting for a datagram, about to store its sender, about to forward it. */
  datatype Sender = Idle | Holding(d: Local) | Storing(d: Local) | Stopped

  /** readFromServer: waiting, holding reply k, about to write reply k to the address it read
      when `seen` senders had been stored. */
  datatype Reader = Waiting | Holds(k: nat) | Aimed(k: nat, addr: Addr, seen: nat)

  datatype Delivery = Delivery(msg: seq<byte>, addr: Addr, k: nat, seen: nat)

  /** The WebSocket keeps order, so both directions are histories with a count of what was
      taken: locals[..sent] went up, Written(served)[..taken] came down. */
  datatype State = State(
    clientAddr: Option<Addr>, sender: Sender, reader: Reader,
    locals: seq<Local>, sent: nat,
    serverUp: bool, served: seq<Exchange>, taken: nat,
    delivered: seq<Delivery>)

  datatype Step =
    | Receive(d: Local) | Store | Forward(ok: bool) | SenderStops
    | Serve(e: Exchange) | ServerStops
    | Take | Aim | Deliver(ok: bool)

  const INIT: State := State(None, Idle, Waiting, [], 0, true, [], 0, [])

  /** The state after one step, or None when the step is not enabled. */
  function Apply(s: State, x: Step, v6: V6Reader): Option<State> {
    match x
    case Receive(d) => if s.sender.Idle? then Some(s.(sender := Holding(d))) else None
    case Store =>
      if s.sender.Holding? then
        Some(s.(sender := Storing(s.sender.d), clientAddr := Some(s.sender.d.addr), locals := s.locals + [s.sender.d]))
      else None
    case Forward(ok) =>
      if !s.sender.Storing? then None
      else if ok then Some(s.(sender := Idle, sent := s.sent + 1)) else Some(s.(sender := Stopped))
    case SenderStops => if s.sender.Idle? then Some(s.(sender := Stopped)) else None
    case Serve(e) =>
      if s.serverUp && |s.served| < s.sent <= |s.locals| && e.msg == s.locals[|s.served|].data
      then Some(s.(served := s.served + [e], serverUp := Continues(e, v6))) else None
    case ServerStops => Some(s.(serverUp := false))
    case Take =>
      if s.reader.Waiting? && s.taken < |Written(s.served, v6)|
      then Some(s.(reader := Holds(s.taken), taken := s.taken + 1)) else None
    case Aim =>
      if !s.reader.Holds? then None
      else if s.clientAddr.None? then Some(s.(reader := Waiting))
      else Some(s.(reader := Aimed(s.reader.k, s.clientAddr.value, |s.locals|)))
    case Deliver(ok) =>
      if s.reader.Aimed? && s.reader.k < |Written(s.served, v6)| then
        var d := Delivery(Written(s.served, v6)[s.reader.k], s.reader.addr, s.reader.k, s.reader.seen);
        Some(s.(reader := Waiting, delivered := s.delivered + if ok then [d] else []))
      else None
  }

  /** The state after a run, or None when some step of it is not enabled. */
  function Exec(steps: seq<Step>, v6: V6Reader): Option<State> {
    if steps == [] then Some(INIT)
    else match Exec(steps[..|steps| - 1], v6)
      case None => None
      case Some(s) => Apply(s, steps[|steps| - 1], v6)
  }

  // ----------------------------------------------------------------- invariant

  /** Reply k may go to addr: the sender stored last among the first `seen`, the request
      that reply k answers being one of those. */
  predicate Justified(s: State, k: nat, addr: Addr, seen: nat, v6: V6Reader) {
    && k < |Origins(s.served, v6)|
    && Origins(s.served, v6)[k] < seen <= |s.locals|
    && addr == s.locals[seen - 1].addr
  }

  predicate SenderInv(s: State) {
    && s.sent <= |s.locals| <= s.sent + 1
    && (s.sender.Idle? || s.sender.Holding? ==> |s.locals| == s.sent)
    && (s.sender.Storing? ==> |s.locals| == s.sent + 1)
    && s.clientAddr == (if s.locals == [] then None else Some(s.locals[|s.locals| - 1].addr))
  }

  predicate ServerInv(s: State, v6: V6Reader) {
    && |s.served| <= s.sent <= |s.locals|
    && (forall i | 0 <= i < |s.served| :: s.served[i].msg == s.locals[i].data)
    && s.taken <= |Written(s.served, v6)|
  }

  predicate ReaderInv(s: State, v6: V6Reader) {
    && (s.reader.Holds? ==> s.reader.k < s.taken)
    && (s.reader.Aimed? ==> s.reader.k < s.taken && Justified(s, s.reader.k, s.reader.addr, s.reader.seen, v6))
  }

  predicate DeliveryInv(s: State, v6: V6Reader) {
    forall d | d in s.delivered ::
      d.k < |Written(s.served, v6)| && d.msg == Written(s.served, v6)[d.k] && Justified(s, d.k, d.addr, d.seen, v6)
  }

  predicate Inv(s: State, v6: V6Reader) {
    SenderInv(s) && ServerInv(s, v6) && ReaderInv(s, v6) && DeliveryInv(s, v6)
  }

  /** Serving one more request only appends to what was written and to its origins. */
  lemma ServedGrows(s: seq<Exchange>, e: Exchange, v6: V6Reader)
    ensures Written(s, v6) <= Written(s + [e], v6)
    ensures Origins(s, v6) <= Origins(s + [e], v6)
  {
    hide Answer, WritesFrame, FrameOf;
    assert (s + [e])[..|s|] == s;
  }

  lemma {:induction false} OriginsInRange(s: seq<Exchange>, v6: V6Reader)
    ensures |Origins(s, v6)| == |Written(s, v6)|
    ensures forall o | o in Origins(s, v6) :: o < |s|
  {
    hide Answer, WritesFrame, FrameOf;
    if s != [] {
      OriginsInRange(s[..|s| - 1], v6);
    }
  }

  /** The local socket only adds to the senders stored, so replies stay justified. */
  lemma JustifiedStays(s: State, x: Step, k: nat, addr: Addr, seen: nat, v6: V6Reader)
    requires Apply(s, x, v6).Some? && !x.Serve? && Justified(s, k, addr, seen, v6)
    ensures Justified(Apply(s, x, v6).value, k, addr, seen, v6)
  {
    hide Written, Origins, Answer, FrameOf, Continues;
  }

  lemma InvStep(s: State, x: Step, v6: V6Reader)
    requires Inv(s, v6) && Apply(s, x, v6).Some?
    ensures Inv(Apply(s, x, v6).value, v6)
  {
    if x.Serve? {
      ServeStep(s, x.e, v6);
    } else {
      CountersStep(s, x, v6);
      RepliesStep(s, x, v6);
    }
  }

  lemma CountersStep(s: State, x: Step, v6: V6Reader)
    requires Inv(s, v6) && Apply(s, x, v6).Some? && !x.Serve?
    ensures SenderInv(Apply(s, x, v6).value) && ServerInv(Apply(s, x, v6).value, v6)
  {
    hide Written, Origins, Answer, FrameOf, Continues, ReaderInv, DeliveryInv;
  }

  lemma RepliesStep(s: State, x: Step, v6: V6Reader)
    requires Inv(s, v6) && Apply(s, x, v6).Some? && !x.Serve?
    ensures ReaderInv(Apply(s, x, v6).value, v6) && DeliveryInv(Apply(s, x, v6).value, v6)
  {
    hide Written, Origins, Answer, FrameOf, Continues;
    var t := Apply(s, x, v6).value;
    forall k: nat, addr: Addr, seen: nat | Justified(s, k, addr, seen, v6)
      ensures Justified(t, k, addr, seen, v6)
    {
      JustifiedStays(s, x, k, addr, seen, v6);
    }
    if x.Aim? {
      OriginsInRange(s.served, v6);
      assert Origins(s.served, v6)[s.reader.k] in Origins(s.served, v6);
      assert ReaderInv(t, v6);
    } else {
      hide Justified;
      assert ReaderInv(t, v6);
    }
  }

  lemma ServeStep(s: State, e: Exchange, v6: V6Reader)
    requires Inv(s, v6) && Apply(s, Serve(e), v6).Some?
    ensures Inv(Apply(s, Serve(e), v6).value, v6)
  {
    hide Written, Origins, Answer, FrameOf, Continues;
    ServedGrows(s.served, e, v6);
    var t := Apply(s, Serve(e), v6).value;
    assert ServerInv(t, v6) && ReaderInv(t, v6);
    assert forall d: Delivery | Justified(s, d.k, d.addr, d.seen, v6) :: Justified(t, d.k, d.addr, d.seen, v6);
  }

  lemma {:induction false} InvRun(steps: seq<Step>, v6: V6Reader)
    requires Exec(steps, v6).Some?
    ensures Inv(Exec(steps, v6).value, v6)
  {
    if steps != [] {
      InvRun(steps[..|steps| - 1], v6);
      InvStep(Exec(steps[..|steps| - 1], v6).value, steps[|steps| - 1], v6);
    }
  }

  // ------------------------------------------------------------------ theorems

  /** Over every interleaving, each datagram delivered locally answers one request j that was
      received locally: it decodes to the target request j names (exactly when that host is not
      in square brackets), and goes to the sender stored last when clientAddr was read, which
      is the sender of j or a later one. */
  lemma DeliveriesAnswerRequests(steps: seq<Step>, d: Delivery, v6: V6Reader) returns (j: nat)
    requires Exec(steps, v6).Some? && d in Exec(steps, v6).value.delivered
    ensures var s := Exec(steps, v6).value;
            && j < d.seen <= |s.locals| && j < |s.served| && d.addr == s.locals[d.seen - 1].addr
            && ParseUDPFrame(s.locals[j].data).Ok? && s.served[j].path.Reply?
            && (ParseUDPFrame(d.msg)
                == Ok(Datagram(ParseUDPFrame(s.locals[j].data).value.target, s.served[j].path.data))
                <==> !Bracketed(ReadAddress(s.locals[j].data).value.host))
  {
    hide Written, Origins, Exec, Apply, Answer, ReadAddress, ParseUDPFrame, Bracketed;
    InvRun(steps, v6);
    var s := Exec(steps, v6).value;
    ReplyDecodes(s.served, d.k, v6);
    j := Origins(s.served, v6)[d.k];
  }

  /** Deliveries carry increasing reply numbers, all smaller than the one the reader works on. */
  predicate OrderInv(s: State) {
    && (forall i, j | 0 <= i < j < |s.delivered| :: s.delivered[i].k < s.delivered[j].k)
    && (forall d | d in s.delivered :: d.k < s.taken)
    && (s.reader.Holds? || s.reader.Aimed? ==>
          s.reader.k < s.taken && forall d | d in s.delivered :: d.k < s.reader.k)
  }

  lemma OrderStep(s: State, x: Step, v6: V6Reader)
    requires OrderInv(s) && Apply(s, x, v6).Some?
    ensures OrderInv(Apply(s, x, v6).value)
  {
    hide Written, Continues;
  }

  lemma {:induction false} OrderRun(steps: seq<Step>, v6: V6Reader)
    requires Exec(steps, v6).Some?
    ensures OrderInv(Exec(steps, v6).value)
  {
    hide Apply;
    if steps != [] {
      OrderRun(steps[..|steps| - 1], v6);
      OrderStep(Exec(steps[..|steps| - 1], v6).value, steps[|steps| - 1], v6);
    }
  }

  /** In every run each local datagram gets at most one delivery, and deliveries come in the
      order of the datagrams they answer. */
  lemma DeliveredOnceInOrder(steps: seq<Step>, i: nat, j: nat, v6: V6Reader)
    requires Exec(steps, v6).Some? && i < j < |Exec(steps, v6).value.delivered|
    ensures var s := Exec(steps, v6).value;
            && s.delivered[i].k < s.delivered[j].k < |Origins(s.served, v6)|
            && Origins(s.served, v6)[s.delivered[i].k] < Origins(s.served, v6)[s.delivered[j].k] < |s.locals|
  {
    hide Written, Origins, Exec, Apply, Answer, FrameOf, WritesFrame;
    InvRun(steps, v6);
    OrderRun(steps, v6);
    var s := Exec(steps, v6).value;
    RepliesFollowRequests(s.served, v6);
    assert s.delivered[j] in s.delivered;
  }

  predicate LoopInv(s: State, v6: V6Reader) {
    && (forall i | 0 <= i < |s.served| - 1 :: Continues(s.served[i], v6))
    && (s.serverUp && s.served != [] ==> Continues(s.served[|s.served| - 1], v6))
  }

  lemma LoopStep(s: State, x: Step, v6: V6Reader)
    requires LoopInv(s, v6) && Apply(s, x, v6).Some?
    ensures LoopInv(Apply(s, x, v6).value, v6)
  {
    hide Written, Continues;
  }

  lemma {:induction false} LoopRun(steps: seq<Step>, v6: V6Reader)
    requires Exec(steps, v6).Some?
    ensures LoopInv(Exec(steps, v6).value, v6)
  {
    hide Apply;
    if steps != [] {
      LoopRun(steps[..|steps| - 1], v6);
      LoopStep(Exec(steps[..|steps| - 1], v6).value, steps[|steps| - 1], v6);
    }
  }

  /** In every interleaving the server behaves as UdpHandler.Serve does: it handles nothing after a
      reply that it could not write. */
  lemma NothingAfterALostReply(steps: seq<Step>, i: nat, v6: V6Reader)
    requires Exec(steps, v6).Some? && i < |Exec(steps, v6).value.served|
    requires var e := Exec(steps, v6).value.served[i];
             && ParseUDPFrame(e.msg).Ok? && Allowed(ParseUDPFrame(e.msg).value.target, e.lookup, v6)
             && e.path.Reply? && !e.wsOk
    ensures i == |Exec(steps, v6).value.served| - 1 && !Exec(steps, v6).value.serverUp
  {
    hide Exec, ParseUDPFrame, Allowed, Continues;
    LoopRun(steps, v6);
    ContinuesExactly(Exec(steps, v6).value.served[i], v6);
  }

  /** What the server has handled is what the clients sent, in order and without gaps, and while it
      is up it can handle the next datagram sent, whatever the network does with it. */
  lemma RequestsArriveInOrder(steps: seq<Step>, e: Exchange, v6: V6Reader)
    requires Exec(steps, v6).Some?
    ensures var s := Exec(steps, v6).value;
            && |s.served| <= s.sent <= |s.locals|
            && (forall i | 0 <= i < |s.served| :: s.served[i].msg == s.locals[i].data)
            && (s.serverUp && |s.served| < s.sent && e.msg == s.locals[|s.served|].data ==>
                  Apply(s, Serve(e), v6).Some? && Apply(s, Serve(e), v6).value.served == s.served + [e])
  {
    hide Written, Origins, Exec, Answer, Continues;
    InvRun(steps, v6);
  }

  /** No reply is stuck: from every reachable state in which the client's reader waits, its next
      three steps deliver the first reply not yet taken to the sender stored last. */
  lemma NextReplyIsDelivered(steps: seq<Step>, v6: V6Reader) returns (longer: seq<Step>)
    requires Exec(steps, v6).Some?
    requires var s := Exec(steps, v6).value; s.reader.Waiting? && s.taken < |Written(s.served, v6)|
    ensures longer == steps + [Take, Aim, Deliver(true)] && Exec(longer, v6).Some?
    ensures var s, t := Exec(steps, v6).value, Exec(longer, v6).value;
            && s.locals != []
            && t == s.(taken := s.taken + 1, delivered := t.delivered)
            && t.delivered == s.delivered
               + [Delivery(Written(s.served, v6)[s.taken], s.locals[|s.locals| - 1].addr, s.taken, |s.locals|)]
  {
    hide Written, Origins, Exec, Answer, Continues;
    InvRun(steps, v6);
    var s := Exec(steps, v6).value;
    OriginsInRange(s.served, v6);
    assert Origins(s.served, v6)[s.taken] in Origins(s.served, v6);
    var addr, k := s.locals[|s.locals| - 1].addr, s.taken;
    var t := s.(reader := Holds(k), taken := k + 1);
    longer := Then(steps, Take, t, v6);
    t := t.(reader := Aimed(k, addr, |s.locals|));
    longer := Then(longer, Aim, t, v6);
    t := t.(reader := Waiting, delivered := s.delivered + [Delivery(Written(s.served, v6)[k], addr, k, |s.locals|)]);
    longer := Then(longer, Deliver(true), t, v6);
  }

  /** Nothing is delivered before the first local datagram, and no reply is ever dropped for
      want of a client address. */
  lemma NoReplyWithoutClient(steps: seq<Step>, v6: V6Reader)
    requires Exec(steps, v6).Some?
    ensures var s := Exec(steps, v6).value;
            && (s.delivered != [] ==> s.locals != [])
            && (s.reader.Holds? ==> s.clientAddr.Some?)
  {
    hide Written, Origins, Exec, Apply;
    InvRun(steps, v6);
    var s := Exec(steps, v6).value;
    OriginsInRange(s.served, v6);
    assert s.reader.Holds? ==> Origins(s.served, v6)[s.reader.k] in Origins(s.served, v6);
    assert s.delivered != [] ==> s.delivered[0] in s.delivered;
  }

  /** Every delivery went to the sender of the request it answers. */
  predicate AllReachAskers(s: State, v6: V6Reader) {
    forall d | d in s.delivered ::
      && d.k < |Origins(s.served, v6)| && Origins(s.served, v6)[d.k] < |s.locals|
      && d.addr == s.locals[Origins(s.served, v6)[d.k]].addr
  }

  ghost predicate SendersAmong(s: State, addrs: set<Addr>) { forall l | l in s.locals :: l.addr in addrs }

  /** Which clients can rely on getting their own replies: as soon as some exchange is answered
      at all, all runs with senders from a set of addresses deliver every reply to its asker if
      and only if the set has at most one address. */
  lemma RepliesReachAskersExactly(addrs: set<Addr>, e: Exchange, v6: V6Reader)
    requires WritesFrame(e, v6)
    ensures (forall steps: seq<Step> :: Exec(steps, v6).Some? && SendersAmong(Exec(steps, v6).value, addrs)
               ==> AllReachAskers(Exec(steps, v6).value, v6))
            <==> forall a, b | a in addrs && b in addrs :: a == b
  {
    hide Exec, Answer, FrameOf, WritesFrame;
    if a, b :| a in addrs && b in addrs && a != b {
      var steps := ReplyMayMeetAnotherClient(e, a, b, v6);
      var s := Exec(steps, v6).value;
      assert SendersAmong(s, addrs);
      assert s.delivered[0] in s.delivered && s.locals[0].addr == a && s.locals[1].addr == b;
      OneOrigin(e, v6);
      assert !AllReachAskers(s, v6);
    } else {
      forall steps: seq<Step> | Exec(steps, v6).Some? && SendersAmong(Exec(steps, v6).value, addrs)
        ensures AllReachAskers(Exec(steps, v6).value, v6)
      {
        SingleClient(steps, addrs, v6);
      }
    }
  }

  /** With at most one local sender every delivery goes to the client that asked. */
  lemma SingleClient(steps: seq<Step>, addrs: set<Addr>, v6: V6Reader)
    requires Exec(steps, v6).Some? && SendersAmong(Exec(steps, v6).value, addrs)
    requires forall a, b | a in addrs && b in addrs :: a == b
    ensures AllReachAskers(Exec(steps, v6).value, v6)
  {
    hide Written, Origins, Exec;
    InvRun(steps, v6);
    var s := Exec(steps, v6).value;
    forall d | d in s.delivered
      ensures d.k < |Origins(s.served, v6)| && Origins(s.served, v6)[d.k] < |s.locals|
      ensures d.addr == s.locals[Origins(s.served, v6)[d.k]].addr
    {
      assert Justified(s, d.k, d.addr, d.seen, v6);
      assert s.locals[d.seen - 1] in s.locals && s.locals[Origins(s.served, v6)[d.k]] in s.locals;
    }
  }

  /** With two clients that fails: for every answered exchange and any two addresses there is a
      run that delivers the reply for the first address's datagram to the second. */
  lemma ReplyMayMeetAnotherClient(e: Exchange, a: Addr, b: Addr, v6: V6Reader) returns (steps: seq<Step>)
    requires WritesFrame(e, v6)
    ensures Exec(steps, v6).Some?
    ensures var s := Exec(steps, v6).value;
            && s.locals == [Local(a, e.msg), Local(b, [])] && s.served == [e]
            && s.delivered == [Delivery(FrameOf(Answer(e, v6).target, Answer(e, v6).reply, v6), b, 0, 2)]
  {
    hide Answer, FrameOf, Exec, Written, Continues;
    OneReply(e, v6);
    var first, second := Local(a, e.msg), Local(b, []);
    assert Exec([], v6) == Some(INIT) by { StartOfRun(v6); }
    steps := [];
    var s := INIT.(sender := Holding(first));
    steps := Then(steps, Receive(first), s, v6);
    s := s.(sender := Storing(first), clientAddr := Some(a), locals := s.locals + [first]);
    steps := Then(steps, Store, s, v6);
    s := s.(sender := Idle, sent := 1);
    steps := Then(steps, Forward(true), s, v6);
    s := s.(served := s.served + [e], serverUp := Continues(e, v6));
    steps := Then(steps, Serve(e), s, v6);
    assert s.served == [e];
    s := s.(reader := Holds(0), taken := 1);
    steps := Then(steps, Take, s, v6);
    s := s.(sender := Holding(second));
    steps := Then(steps, Receive(second), s, v6);
    s := s.(sender := Storing(second), clientAddr := Some(b), locals := s.locals + [second]);
    steps := Then(steps, Store, s, v6);
    s := s.(reader := Aimed(0, b, 2));
    steps := Then(steps, Aim, s, v6);
    s := s.(reader := Waiting, delivered := s.delivered + [Delivery(Written(s.served, v6)[0], b, 0, 2)]);
    steps := Then(steps, Deliver(true), s, v6);
  }

  lemma OneReply(e: Exchange, v6: V6Reader)
    requires WritesFrame(e, v6)
    ensures Written([e], v6) == [FrameOf(Answer(e, v6).target, Answer(e, v6).reply, v6)]
  {
    hide Answer, FrameOf;
    OneMore([], e, v6);
    assert [] + [e] == [e];
  }

  lemma OneOrigin(e: Exchange, v6: V6Reader)
    requires WritesFrame(e, v6)
    ensures Origins([e], v6) == [0]
  {
    hide Answer, WritesFrame;
    assert [e][..0] == [];
    assert Origins([], v6) == [];
  }

  lemma StartOfRun(v6: V6Reader)
    ensures Exec([], v6) == Some(INIT)
  {
  }

  /** One more step of a run. */
  lemma Then(steps: seq<Step>, x: Step, s: State, v6: V6Reader) returns (longer: seq<Step>)
    requires Exec(steps, v6).Some? && Apply(Exec(steps, v6).value, x, v6) == Some(s)
    ensures longer == steps + [x] && Exec(longer, v6) == Some(s)
  {
    longer := steps + [x];
    assert longer[..|longer| - 1] == steps;
  }
}
