/** Reverse tunnels across both machines: the client registers addresses, the server listens on
    them and sends each accepted connection back under the address it came in on, and the client
    dials the local target of that address. */
module ReverseTunnel {
  import opened Bytes
  import opened ForwardSpec
  import opened MuxHeader
  import opened MuxServer

  // ------------------------------------------------------------- the lookup map

  /** The target of the last spec with exactly this bind address. */
  function LastTarget(specs: seq<PortForward>, bind: Text): Option<Text> {
    if specs == [] then None
    else if specs[|specs| - 1].bind == bind then Some(specs[|specs| - 1].target)
    else LastTarget(specs[..|specs| - 1], bind)
  }

  /** Where the target comes from: the spec at some index with this bind address, after which no
      other spec has it. */
  lemma {:induction false} LastTargetExactly(specs: seq<PortForward>, bind: Text, target: Text)
    ensures LastTarget(specs, bind) == Some(target) <==>
            exists i | 0 <= i < |specs| ::
              && specs[i].bind == bind && specs[i].target == target
              && forall j | i < j < |specs| :: specs[j].bind != bind
  {
    if specs != [] {
      var n, before := |specs| - 1, specs[..|specs| - 1];
      LastTargetExactly(before, bind, target);
      if specs[n].bind != bind {
        assert forall i | 0 <= i < n :: before[i] == specs[i];
      }
    }
  }

  lemma {:induction false} LastTargetFrom(specs: seq<PortForward>, bind: Text) returns (i: nat)
    requires LastTarget(specs, bind).Some?
    ensures i < |specs| && specs[i].bind == bind && Some(specs[i].target) == LastTarget(specs, bind)
    ensures forall j | i < j < |specs| :: specs[j].bind != bind
  {
    LastTargetExactly(specs, bind, LastTarget(specs, bind).value);
    i :| i < |specs| && specs[i].bind == bind && Some(specs[i].target) == LastTarget(specs, bind)
         && forall j | i < j < |specs| :: specs[j].bind != bind;
  }

  /** The map that Forward fills before it connects: each bind address has the target of the last
      spec with it, and nothing else is in the map. */
  method BuildReverseLookup(reverses: seq<PortForward>) returns (lookup: map<Text, Text>)
    ensures forall b :: Lookup(lookup, b) == LastTarget(reverses, b)
    ensures forall i | 0 <= i < |reverses| && (forall j | i < j < |reverses| :: reverses[j].bind != reverses[i].bind) ::
              reverses[i].bind in lookup && lookup[reverses[i].bind] == reverses[i].target
    ensures forall b | b in lookup :: exists i | 0 <= i < |reverses| :: reverses[i].bind == b
  {
    lookup := map[];
    var i := 0;
    while i < |reverses|
      invariant i <= |reverses|
      invariant forall b :: Lookup(lookup, b) == LastTarget(reverses[..i], b)
      invariant forall k | 0 <= k < i && (forall j | k < j < i :: reverses[j].bind != reverses[k].bind) ::
                  reverses[k].bind in lookup && lookup[reverses[k].bind] == reverses[k].target
      invariant forall b | b in lookup :: exists k | 0 <= k < i :: reverses[k].bind == b
    {
      lookup := lookup[reverses[i].bind := reverses[i].target];
      assert reverses[..i + 1][..i] == reverses[..i];
      i := i + 1;
    }
    assert reverses[..i] == reverses;
  }

  // ------------------------------------------------------------------ the system

  /** A stream the client opened: its bytes, and the spec it registers (none for a connect). */
  datatype Up = Up(bytes: seq<byte>, spec: Option<nat>)
  datatype BoundListener = BoundListener(bind: Text, stream: nat)
  /** A reverse stream the server opened for external connection `conn`. */
  datatype Down = Down(bytes: seq<byte>, conn: nat)
  datatype Dial = Dial(target: Text, stream: nat)

  /** External connections are numbered; conns[c] is the listener that accepted c. */
  datatype State = State(
    ups: seq<Up>, upsSeen: set<nat>,
    listeners: seq<BoundListener>, conns: seq<nat>, carried: set<nat>,
    downs: seq<Down>, downsSeen: set<nat>, dials: seq<Dial>)

  const INIT: State := State([], {}, [], [], {}, [], {}, [])

  /** A header written to a stream: all of it with whatever the relay sends after it, or, when
      WriteHeader failed, only its first bytes. */
  datatype Wrote = Whole(tail: seq<byte>) | Cut(k: nat)

  function StreamBytes(cmd: byte, addr: Text, w: Wrote): Option<seq<byte>> {
    match w
    case Whole(tail) => Some(EncodeHeader(cmd, addr) + tail)
    case Cut(k) => if k < |EncodeHeader(cmd, addr)| then Some(EncodeHeader(cmd, addr)[..k]) else None
  }

  datatype Step =
    | Register(i: nat, w: Wrote)
    | Connect(target: Text, w: Wrote)
    | ServerAccepts(k: nat, listenOk: bool)
    | Arrives(l: nat)
    | OpenReverse(c: nat, w: Wrote)
    | ClientAccepts(k: nat)

  datatype Config = Config(reverses: seq<PortForward>, reverse: bool)

  function Apply(cfg: Config, s: State, x: Step): Option<State> {
    match x
    case Register(i, w) =>
      if i >= |cfg.reverses| then None
      else (match StreamBytes(CMD_REVERSE_BIND, cfg.reverses[i].bind, w)
            case None => None
            case Some(b) => Some(s.(ups := s.ups + [Up(b, Some(i))])))
    case Connect(target, w) =>
      (match StreamBytes(CMD_CONNECT, target, w)
       case None => None
       case Some(b) => Some(s.(ups := s.ups + [Up(b, None)])))
    case ServerAccepts(k, listenOk) =>
      if k >= |s.ups| || k in s.upsSeen then None
      else
        var seen := s.(upsSeen := s.upsSeen + {k});
        if Dispatch(cfg.reverse, s.ups[k].bytes, listenOk).Held?
        then Some(seen.(listeners := s.listeners + [BoundListener(DecodeHeader(s.ups[k].bytes).result.header.addr, k)]))
        else Some(seen)
    case Arrives(l) =>
      if l < |s.listeners| then Some(s.(conns := s.conns + [l])) else None
    case OpenReverse(c, w) =>
      if c >= |s.conns| || c in s.carried || s.conns[c] >= |s.listeners| then None
      else (match StreamBytes(CMD_REVERSE_CONN, s.listeners[s.conns[c]].bind, w)
            case None => None
            case Some(b) => Some(s.(carried := s.carried + {c}, downs := s.downs + [Down(b, c)])))
    case ClientAccepts(k) =>
      if k >= |s.downs| || k in s.downsSeen then None
      else Some(s.(downsSeen := s.downsSeen + {k}, dials := s.dials + Dials(cfg, s.downs[k].bytes, k)))
  }

  /** acceptReverseStreams on one stream: at most one dial. */
  function Dials(cfg: Config, bytes: seq<byte>, k: nat): (ds: seq<Dial>)
    ensures |ds| <= 1 && forall d | d in ds :: d.stream == k
  {
    match DecodeHeader(bytes).result
    case Ok(h) =>
      if h.cmd != CMD_REVERSE_CONN then []
      else (match LastTarget(cfg.reverses, h.addr) case Some(t) => [Dial(t, k)] case None => [])
    case _ => []
  }

  function Exec(cfg: Config, steps: seq<Step>): Option<State> {
    if steps == [] then Some(INIT)
    else match Exec(cfg, steps[..|steps| - 1])
      case None => None
      case Some(s) => Apply(cfg, s, steps[|steps| - 1])
  }

  // ----------------------------------------------------------------- invariant

  ghost predicate Wrapped(cmd: byte, addr: Text, bytes: seq<byte>) {
    exists w: Wrote :: StreamBytes(cmd, addr, w) == Some(bytes)
  }

  ghost predicate UpInv(cfg: Config, u: Up) {
    match u.spec
    case Some(i) => i < |cfg.reverses| && Wrapped(CMD_REVERSE_BIND, cfg.reverses[i].bind, u.bytes)
    case None => exists t: Text :: Wrapped(CMD_CONNECT, t, u.bytes)
  }

  ghost predicate ListenerInv(cfg: Config, s: State, l: BoundListener) {
    && cfg.reverse && l.stream < |s.ups| && |l.bind| <= MAX_ADDRESS
    && DecodeHeader(s.ups[l.stream].bytes).result == Ok(Header(CMD_REVERSE_BIND, l.bind))
  }

  ghost predicate DownInv(s: State, d: Down) {
    && d.conn < |s.conns| && s.conns[d.conn] < |s.listeners| && d.conn in s.carried
    && Wrapped(CMD_REVERSE_CONN, s.listeners[s.conns[d.conn]].bind, d.bytes)
  }

  ghost predicate DialInv(cfg: Config, s: State, d: Dial) {
    && d.stream < |s.downs| && d.stream in s.downsSeen
    && Dials(cfg, s.downs[d.stream].bytes, d.stream) == [d]
  }

  ghost predicate Inv(cfg: Config, s: State) {
    && (forall u | u in s.ups :: UpInv(cfg, u))
    && (forall l | l in s.listeners :: ListenerInv(cfg, s, l))
    && (forall c | 0 <= c < |s.conns| :: s.conns[c] < |s.listeners|)
    && (forall d | d in s.downs :: DownInv(s, d))
    && (forall i, j | 0 <= i < j < |s.downs| :: s.downs[i].conn != s.downs[j].conn)
    && (forall d | d in s.dials :: DialInv(cfg, s, d))
    && (forall i, j | 0 <= i < j < |s.dials| :: s.dials[i].stream != s.dials[j].stream)
  }

  /** A stream that carries a header of ours decodes, if at all, to a header with that command;
      with an address of at most 4096 bytes, to that very header. */
  lemma WrappedDecodes(cmd: byte, addr: Text, bytes: seq<byte>)
    requires Wrapped(cmd, addr, bytes)
    requires DecodeHeader(bytes).result.Ok?
    ensures DecodeHeader(bytes).result.header.cmd == cmd
    ensures |addr| <= MAX_ADDRESS ==> DecodeHeader(bytes).result.header == Header(cmd, addr)
  {
    var w: Wrote :| StreamBytes(cmd, addr, w) == Some(bytes);
    match w
    case Whole(tail) => HeaderRoundTripExact(cmd, addr, tail);
    case Cut(k) =>
      if |addr| <= MAX_ADDRESS {
        CutHeaderTruncated(cmd, addr, k);
      }
  }

  lemma InvStep(cfg: Config, s: State, x: Step)
    requires Inv(cfg, s) && Apply(cfg, s, x).Some?
    ensures Inv(cfg, Apply(cfg, s, x).value)
  {
    hide DecodeHeader, EncodeHeader, StreamBytes, LastTarget, Dials;
    match x
    case Register(i, w) =>
    case Connect(t, w) => assert Wrapped(CMD_CONNECT, t, StreamBytes(CMD_CONNECT, t, w).value);
    case ServerAccepts(k, listenOk) => ServerStep(cfg, s, k, listenOk);
    case Arrives(l) =>
    case OpenReverse(c, w) => OpenStep(cfg, s, c, w);
    case ClientAccepts(k) => ClientStep(cfg, s, k);
  }

  lemma OpenStep(cfg: Config, s: State, c: nat, w: Wrote)
    requires Inv(cfg, s) && Apply(cfg, s, OpenReverse(c, w)).Some?
    ensures Inv(cfg, Apply(cfg, s, OpenReverse(c, w)).value)
  {
    hide DecodeHeader, EncodeHeader, StreamBytes, LastTarget, Dials, UpInv;
    assert forall i | 0 <= i < |s.downs| :: DownInv(s, s.downs[i]);
  }

  lemma ClientStep(cfg: Config, s: State, k: nat)
    requires Inv(cfg, s) && Apply(cfg, s, ClientAccepts(k)).Some?
    ensures Inv(cfg, Apply(cfg, s, ClientAccepts(k)).value)
  {
    hide DecodeHeader, EncodeHeader, StreamBytes, LastTarget, Dials, UpInv, Wrapped;
    var ds := Dials(cfg, s.downs[k].bytes, k);
    assert ds != [] ==> ds == [ds[0]];
    assert forall i | 0 <= i < |s.dials| :: DialInv(cfg, s, s.dials[i]);
  }

  lemma ServerStep(cfg: Config, s: State, k: nat, listenOk: bool)
    requires Inv(cfg, s) && Apply(cfg, s, ServerAccepts(k, listenOk)).Some?
    ensures Inv(cfg, Apply(cfg, s, ServerAccepts(k, listenOk)).value)
  {
    hide EncodeHeader, StreamBytes, LastTarget, Dials, Wrapped, UpInv;
  }

  lemma {:induction false} InvRun(cfg: Config, steps: seq<Step>)
    requires Exec(cfg, steps).Some?
    ensures Inv(cfg, Exec(cfg, steps).value)
  {
    if steps != [] {
      InvRun(cfg, steps[..|steps| - 1]);
      InvStep(cfg, Exec(cfg, steps[..|steps| - 1]).value, steps[|steps| - 1]);
    }
  }

  // ------------------------------------------------------------------ theorems

  /** Routing, over every run: a local dial for a reverse stream goes to the target of the last
      spec whose bind address is exactly the one of the listener that accepted the connection
      the stream carries. */
  lemma DialsFollowTheListener(cfg: Config, steps: seq<Step>, d: Dial) returns (i: nat)
    requires Exec(cfg, steps).Some? && d in Exec(cfg, steps).value.dials
    ensures var s := Exec(cfg, steps).value;
            && d.stream < |s.downs| && s.downs[d.stream].conn < |s.conns|
            && s.conns[s.downs[d.stream].conn] < |s.listeners|
            && i < |cfg.reverses| && d.target == cfg.reverses[i].target
            && cfg.reverses[i].bind == s.listeners[s.conns[s.downs[d.stream].conn]].bind
            && forall j | i < j < |cfg.reverses| :: cfg.reverses[j].bind != cfg.reverses[i].bind
  {
    InvRun(cfg, steps);
    var s := Exec(cfg, steps).value;
    RoutedDial(cfg, s, d);
    i := LastTargetFrom(cfg.reverses, s.listeners[s.conns[s.downs[d.stream].conn]].bind);
  }

  lemma RoutedDial(cfg: Config, s: State, d: Dial)
    requires Inv(cfg, s) && d in s.dials
    ensures && d.stream < |s.downs| && s.downs[d.stream].conn < |s.conns|
            && s.conns[s.downs[d.stream].conn] < |s.listeners|
            && LastTarget(cfg.reverses, s.listeners[s.conns[s.downs[d.stream].conn]].bind) == Some(d.target)
  {
    hide DecodeHeader, EncodeHeader, StreamBytes, LastTarget;
    assert DialInv(cfg, s, d);
    var down := s.downs[d.stream];
    assert DownInv(s, down);
    var l := s.listeners[s.conns[down.conn]];
    assert ListenerInv(cfg, s, l);
    WrappedDecodes(CMD_REVERSE_CONN, l.bind, down.bytes);
  }

  /** Every listener was registered over this session by a spec of the client, with --reverse on;
      it listens on that spec's address when the address has at most 4096 bytes. */
  lemma ListenersWereRegistered(cfg: Config, steps: seq<Step>, l: nat) returns (i: nat)
    requires Exec(cfg, steps).Some? && l < |Exec(cfg, steps).value.listeners|
    ensures var s := Exec(cfg, steps).value;
            && cfg.reverse && i < |cfg.reverses|
            && s.listeners[l].stream < |s.ups| && s.ups[s.listeners[l].stream].spec == Some(i)
            && (|cfg.reverses[i].bind| <= MAX_ADDRESS ==> s.listeners[l].bind == cfg.reverses[i].bind)
  {
    InvRun(cfg, steps);
    i := RegisteredBy(cfg, Exec(cfg, steps).value, Exec(cfg, steps).value.listeners[l]);
  }

  lemma RegisteredBy(cfg: Config, s: State, l: BoundListener) returns (i: nat)
    requires Inv(cfg, s) && l in s.listeners
    ensures && cfg.reverse && i < |cfg.reverses| && l.stream < |s.ups| && s.ups[l.stream].spec == Some(i)
            && (|cfg.reverses[i].bind| <= MAX_ADDRESS ==> l.bind == cfg.reverses[i].bind)
  {
    hide DecodeHeader, EncodeHeader, StreamBytes;
    assert ListenerInv(cfg, s, l);
    var u := s.ups[l.stream];
    assert UpInv(cfg, u);
    match u.spec
    case Some(n) =>
      i := n;
      WrappedDecodes(CMD_REVERSE_BIND, cfg.reverses[n].bind, u.bytes);
    case None =>
      var t: Text :| Wrapped(CMD_CONNECT, t, u.bytes);
      WrappedDecodes(CMD_CONNECT, t, u.bytes);
      assert false;
  }

  lemma {:induction false} RegisteredBindHasTarget(specs: seq<PortForward>, i: nat)
    requires i < |specs|
    ensures LastTarget(specs, specs[i].bind).Some?
  {
    if specs[|specs| - 1].bind != specs[i].bind {
      assert specs[..|specs| - 1][i] == specs[i];
      RegisteredBindHasTarget(specs[..|specs| - 1], i);
    }
  }

  /** No tunnelled connection is lost between the machines: with addresses of at most 4096 bytes,
      a reverse stream whose header was written whole is dialled when the client accepts it, at the
      target of the last spec with the listener's address. */
  lemma WholeStreamsAreDialled(cfg: Config, steps: seq<Step>, k: nat, l: nat, tail: seq<byte>) returns (i: nat)
    requires Exec(cfg, steps).Some?
    requires forall r | r in cfg.reverses :: |r.bind| <= MAX_ADDRESS
    requires var s := Exec(cfg, steps).value;
             && k < |s.downs| && k !in s.downsSeen && l < |s.listeners|
             && s.downs[k].bytes == EncodeHeader(CMD_REVERSE_CONN, s.listeners[l].bind) + tail
    ensures var s := Exec(cfg, steps).value;
            && i < |cfg.reverses| && cfg.reverses[i].bind == s.listeners[l].bind
            && (forall j | i < j < |cfg.reverses| :: cfg.reverses[j].bind != cfg.reverses[i].bind)
            && Apply(cfg, s, ClientAccepts(k))
               == Some(s.(downsSeen := s.downsSeen + {k}, dials := s.dials + [Dial(cfg.reverses[i].target, k)]))
  {
    var s := Exec(cfg, steps).value;
    var r := ListenersWereRegistered(cfg, steps, l);
    assert cfg.reverses[r] in cfg.reverses;
    RegisteredBindHasTarget(cfg.reverses, r);
    i := LastTargetFrom(cfg.reverses, s.listeners[l].bind);
    HeaderRoundTripExact(CMD_REVERSE_CONN, s.listeners[l].bind, tail);
  }

  /** The tunnel carries connections: with --reverse, for every spec with an address of at most
      4096 bytes there is a run in which the server listens on it and a connection accepted there
      is dialled at the target of the last spec with that address. */
  lemma ConnectionsGetThrough(cfg: Config, i: nat, last: nat, tail: seq<byte>) returns (steps: seq<Step>)
    requires cfg.reverse && i <= last < |cfg.reverses| && |cfg.reverses[i].bind| <= MAX_ADDRESS
    requires cfg.reverses[last].bind == cfg.reverses[i].bind
    requires forall j | last < j < |cfg.reverses| :: cfg.reverses[j].bind != cfg.reverses[i].bind
    ensures Exec(cfg, steps).Some?
    ensures var s := Exec(cfg, steps).value;
            && s.listeners == [BoundListener(cfg.reverses[i].bind, 0)] && s.conns == [0]
            && s.downs == [Down(EncodeHeader(CMD_REVERSE_CONN, cfg.reverses[i].bind) + tail, 0)]
            && s.dials == [Dial(cfg.reverses[last].target, 0)]
  {
    var bind := cfg.reverses[i].bind;
    var up, down := EncodeHeader(CMD_REVERSE_BIND, bind) + [], EncodeHeader(CMD_REVERSE_CONN, bind) + tail;
    LastTargetExactly(cfg.reverses, bind, cfg.reverses[last].target);
    hide Exec, DecodeHeader, EncodeHeader, Dials, Dispatch, LastTarget;
    RegistrationIsHeld(bind);
    AnnouncementIsDialled(cfg, bind, tail);
    EmptyRun(cfg);
    var s := INIT.(ups := INIT.ups + [Up(up, Some(i))]);
    steps := Then(cfg, [], Register(i, Whole([])), s);
    s := s.(upsSeen := s.upsSeen + {0}, listeners := s.listeners + [BoundListener(bind, 0)]);
    steps := Then(cfg, steps, ServerAccepts(0, true), s);
    s := s.(conns := s.conns + [0]);
    steps := Then(cfg, steps, Arrives(0), s);
    s := s.(carried := s.carried + {0}, downs := s.downs + [Down(down, 0)]);
    steps := Then(cfg, steps, OpenReverse(0, Whole(tail)), s);
    s := s.(downsSeen := s.downsSeen + {0}, dials := s.dials + [Dial(cfg.reverses[last].target, 0)]);
    steps := Then(cfg, steps, ClientAccepts(0), s);
  }

  lemma RegistrationIsHeld(bind: Text)
    requires |bind| <= MAX_ADDRESS
    ensures var up := EncodeHeader(CMD_REVERSE_BIND, bind) + [];
            Dispatch(true, up, true).Held? && DecodeHeader(up).result == Ok(Header(CMD_REVERSE_BIND, bind))
  {
    HeaderRoundTripExact(CMD_REVERSE_BIND, bind, []);
  }

  lemma AnnouncementIsDialled(cfg: Config, bind: Text, tail: seq<byte>)
    requires |bind| <= MAX_ADDRESS && LastTarget(cfg.reverses, bind).Some?
    ensures Dials(cfg, EncodeHeader(CMD_REVERSE_CONN, bind) + tail, 0)
            == [Dial(LastTarget(cfg.reverses, bind).value, 0)]
  {
    HeaderRoundTripExact(CMD_REVERSE_CONN, bind, tail);
  }

  lemma EmptyRun(cfg: Config)
    ensures Exec(cfg, []) == Some(INIT)
  {
  }

  /** One more step of a run. */
  lemma Then(cfg: Config, steps: seq<Step>, x: Step, s: State) returns (longer: seq<Step>)
    requires Exec(cfg, steps).Some? && Apply(cfg, Exec(cfg, steps).value, x) == Some(s)
    ensures longer == steps + [x] && Exec(cfg, longer) == Some(s)
  {
    longer := steps + [x];
    assert longer[..|longer| - 1] == steps;
  }

  /** Without --reverse no run opens a listener or dials anything locally. */
  lemma NothingWithoutReverse(cfg: Config, steps: seq<Step>)
    requires Exec(cfg, steps).Some? && !cfg.reverse
    ensures Exec(cfg, steps).value.listeners == [] && Exec(cfg, steps).value.dials == []
  {
    InvRun(cfg, steps);
    var s := Exec(cfg, steps).value;
    assert s.listeners != [] ==> ListenerInv(cfg, s, s.listeners[0]);
    assert s.dials != [] ==> DialInv(cfg, s, s.dials[0]);
    assert s.downs != [] ==> DownInv(s, s.downs[0]);
  }

  /** No external connection is dialled twice: different dials carry different connections. */
  lemma OneDialPerConnection(cfg: Config, steps: seq<Step>, i: nat, j: nat)
    requires Exec(cfg, steps).Some?
    requires i < j < |Exec(cfg, steps).value.dials|
    ensures var s := Exec(cfg, steps).value;
            && s.dials[i].stream < |s.downs| && s.dials[j].stream < |s.downs|
            && s.downs[s.dials[i].stream].conn != s.downs[s.dials[j].stream].conn
  {
    InvRun(cfg, steps);
    var s := Exec(cfg, steps).value;
    assert DialInv(cfg, s, s.dials[i]) && DialInv(cfg, s, s.dials[j]);
  }
}
