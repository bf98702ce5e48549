/** The two ledgers of connections: Prometheus metrics driven by log events, and the stats
    aggregator; both updated one atomic operation at a time by any number of handlers. */
module Accounting {
  import opened Bytes

  // ------------------------------------------------------------ labelled values

  /** A metric vector: one child per tag, created when the tag is first used. */
  type Vec = seq<(Text, int)>

  function Add(v: Vec, tag: Text, d: int): Vec {
    if v == [] then [(tag, d)]
    else if v[0].0 == tag then [(tag, v[0].1 + d)] + v[1..]
    else [v[0]] + Add(v[1..], tag, d)
  }

  /** The value of one child; zero before it exists. */
  function Get(v: Vec, tag: Text): int {
    if v == [] then 0 else if v[0].0 == tag then v[0].1 else Get(v[1..], tag)
  }

  function VecSum(v: Vec): int {
    if v == [] then 0 else v[0].1 + VecSum(v[1..])
  }

  lemma {:induction false} AddAdds(v: Vec, tag: Text, d: int, other: Text)
    ensures VecSum(Add(v, tag, d)) == VecSum(v) + d
    ensures Get(Add(v, tag, d), other) == Get(v, other) + if other == tag then d else 0
  {
    if v != [] {
      if v[0].0 == tag {
        assert Add(v, tag, d)[1..] == v[1..];
      } else {
        AddAdds(v[1..], tag, d, other);
        assert Add(v, tag, d)[1..] == Add(v[1..], tag, d);
      }
    }
  }

  // ------------------------------------------------------------- the two ledgers

  datatype Metrics = Metrics(total: Vec, active: Vec, tx: Vec, rx: Vec, authFailures: int)
  datatype Stats = Stats(active: int, total: int, tx: int, rx: int)
  datatype Ledger = Ledger(metrics: Metrics, stats: Stats)

  datatype MetricOp =
    | IncTotal(tag: Text) | IncActive(tag: Text) | DecActive(tag: Text)
    | AddTx(tag: Text, n: int) | AddRx(tag: Text, n: int) | IncAuthFailures
  datatype StatsOp = ActiveUp | TotalUp | ActiveDown | TxUp(n: int) | RxUp(n: int)
  datatype Op = M(m: MetricOp) | S(s: StatsOp)

  function ApplyMetric(m: Metrics, op: MetricOp): Metrics {
    match op
    case IncTotal(l) => m.(total := Add(m.total, l, 1))
    case IncActive(l) => m.(active := Add(m.active, l, 1))
    case DecActive(l) => m.(active := Add(m.active, l, -1))
    case AddTx(l, n) => m.(tx := Add(m.tx, l, n))
    case AddRx(l, n) => m.(rx := Add(m.rx, l, n))
    case IncAuthFailures => m.(authFailures := m.authFailures + 1)
  }

  function ApplyStats(s: Stats, op: StatsOp): Stats {
    match op
    case ActiveUp => s.(active := s.active + 1)
    case TotalUp => s.(total := s.total + 1)
    case ActiveDown => s.(active := s.active - 1)
    case TxUp(n) => s.(tx := s.tx + n)
    case RxUp(n) => s.(rx := s.rx + n)
  }

  function ApplyOp(l: Ledger, op: Op): Ledger {
    match op
    case M(m) => l.(metrics := ApplyMetric(l.metrics, m))
    case S(s) => l.(stats := ApplyStats(l.stats, s))
  }

  function RunMetrics(m: Metrics, ops: seq<MetricOp>): Metrics
    decreases |ops|
  {
    if ops == [] then m else RunMetrics(ApplyMetric(m, ops[0]), ops[1..])
  }

  function RunStats(s: Stats, ops: seq<StatsOp>): Stats
    decreases |ops|
  {
    if ops == [] then s else RunStats(ApplyStats(s, ops[0]), ops[1..])
  }

  lemma RunMetricsCons(m: Metrics, op: MetricOp, rest: seq<MetricOp>)
    ensures RunMetrics(m, [op] + rest) == RunMetrics(ApplyMetric(m, op), rest)
  {
    assert ([op] + rest)[1..] == rest;
  }

  lemma RunOpen(m: Metrics, tag: Text)
    ensures RunMetrics(m, [IncTotal(tag), IncActive(tag)]) ==
            m.(total := Add(m.total, tag, 1), active := Add(m.active, tag, 1))
  {
    RunMetricsCons(m, IncTotal(tag), [IncActive(tag)]);
  }

  lemma RunClose(m: Metrics, tag: Text, tx: int, rx: int)
    ensures RunMetrics(m, [DecActive(tag), AddTx(tag, tx), AddRx(tag, rx)]) ==
            m.(active := Add(m.active, tag, -1), tx := Add(m.tx, tag, tx), rx := Add(m.rx, tag, rx))
  {
    RunMetricsCons(m, DecActive(tag), [AddTx(tag, tx), AddRx(tag, rx)]);
    RunMetricsCons(ApplyMetric(m, DecActive(tag)), AddTx(tag, tx), [AddRx(tag, rx)]);
  }

  lemma RunAuthFailure(m: Metrics)
    ensures RunMetrics(m, [IncAuthFailures]) == m.(authFailures := m.authFailures + 1) && RunMetrics(m, []) == m
  {
  }

  lemma RunStatsCons(s: Stats, op: StatsOp, rest: seq<StatsOp>)
    ensures RunStats(s, [op] + rest) == RunStats(ApplyStats(s, op), rest)
  {
    assert ([op] + rest)[1..] == rest;
  }

  // ------------------------------------------------------------------ log events

  /** An Int64 value, or one of any other kind with the text it prints as. */
  datatype Value = Str(s: Text) | Num(n: int)

  /** slog.Value.String. */
  function Printed(v: Value): Text {
    match v
    case Str(s) => s
    case Num(n) => if n < 0 then [45] + Decimal(-n) else Decimal(n)
  }

  datatype Attr = Attr(key: string, value: Value)
  datatype Record = Record(message: string, attrs: seq<Attr>)

  const UNKNOWN: Text := [117, 110, 107, 110, 111, 119, 110]

  function LogOpen(token: Text, source: Text, target: Text): Record {
    Record("connection.open", [Attr("token", Str(token)), Attr("source", Str(source)), Attr("target", Str(target))])
  }

  function LogClose(token: Text, target: Text, ms: int, tx: int, rx: int): Record {
    Record("connection.close", [Attr("token", Str(token)), Attr("target", Str(target)),
                                Attr("duration_ms", Num(ms)), Attr("bytes_tx", Num(tx)), Attr("bytes_rx", Num(rx))])
  }

  /** Where Int64 does not panic: under these keys it is asked for. */
  predicate WellTyped(attrs: seq<Attr>) {
    forall a | a in attrs :: a.key in {"bytes_tx", "bytes_rx", "duration_ms"} ==> a.value.Num?
  }

  /** The last attribute with this key. */
  function LastAttr(attrs: seq<Attr>, key: string): Option<Value> {
    if attrs == [] then None
    else if attrs[|attrs| - 1].key == key then Some(attrs[|attrs| - 1].value)
    else LastAttr(attrs[..|attrs| - 1], key)
  }

  lemma {:induction false} LastAttrAt(attrs: seq<Attr>, key: string, i: nat)
    requires i < |attrs| && attrs[i].key == key && forall j | i < j < |attrs| :: attrs[j].key != key
    ensures LastAttr(attrs, key) == Some(attrs[i].value)
  {
    if i < |attrs| - 1 {
      LastAttrAt(attrs[..|attrs| - 1], key, i);
    }
  }

  lemma {:induction false} LastAttrMissing(attrs: seq<Attr>, key: string)
    ensures LastAttr(attrs, key) == None <==> forall a | a in attrs :: a.key != key
  {
    if attrs != [] {
      LastAttrMissing(attrs[..|attrs| - 1], key);
      assert forall a :: a in attrs <==> a in attrs[..|attrs| - 1] || a == attrs[|attrs| - 1];
    }
  }

  function TextAttr(attrs: seq<Attr>, key: string): Text {
    match LastAttr(attrs, key) case Some(v) => Printed(v) case None => []
  }

  function NumAttr(attrs: seq<Attr>, key: string): int {
    match LastAttr(attrs, key) case Some(Num(n)) => n case _ => 0
  }

  function Label(token: Text): Text { if token == [] then UNKNOWN else token }

  function OpsOf(r: Record): seq<MetricOp> {
    var tag := Label(TextAttr(r.attrs, "token"));
    if r.message == "connection.open" then [IncTotal(tag), IncActive(tag)]
    else if r.message == "connection.close" then
      [DecActive(tag), AddTx(tag, NumAttr(r.attrs, "bytes_tx")), AddRx(tag, NumAttr(r.attrs, "bytes_rx"))]
    else if r.message == "auth.failure" then [IncAuthFailures]
    else []
  }

  /** What a record does to every child of every vector, and to the count of failures. */
  lemma RecordEffects(m: Metrics, r: Record)
    ensures var k, token := RunMetrics(m, OpsOf(r)), TextAttr(r.attrs, "token");
            var name := if token == [] then UNKNOWN else token;
            var tx, rx := NumAttr(r.attrs, "bytes_tx"), NumAttr(r.attrs, "bytes_rx");
            if r.message == "connection.open" then
              && (forall tag :: Get(k.total, tag) == Get(m.total, tag) + if tag == name then 1 else 0)
              && (forall tag :: Get(k.active, tag) == Get(m.active, tag) + if tag == name then 1 else 0)
              && k.tx == m.tx && k.rx == m.rx && k.authFailures == m.authFailures
            else if r.message == "connection.close" then
              && (forall tag :: Get(k.active, tag) == Get(m.active, tag) - if tag == name then 1 else 0)
              && (forall tag :: Get(k.tx, tag) == Get(m.tx, tag) + if tag == name then tx else 0)
              && (forall tag :: Get(k.rx, tag) == Get(m.rx, tag) + if tag == name then rx else 0)
              && k.total == m.total && k.authFailures == m.authFailures
            else if r.message == "auth.failure" then k == m.(authFailures := m.authFailures + 1)
            else k == m
  {
    var name := Label(TextAttr(r.attrs, "token"));
    var tx, rx := NumAttr(r.attrs, "bytes_tx"), NumAttr(r.attrs, "bytes_rx");
    RunOpen(m, name);
    RunClose(m, name, tx, rx);
    RunAuthFailure(m);
    hide TextAttr, NumAttr, Add, Get, RunMetrics;
    forall tag
      ensures Get(Add(m.total, name, 1), tag) == Get(m.total, tag) + if tag == name then 1 else 0
      ensures Get(Add(m.active, name, 1), tag) == Get(m.active, tag) + if tag == name then 1 else 0
      ensures Get(Add(m.active, name, -1), tag) == Get(m.active, tag) - if tag == name then 1 else 0
      ensures Get(Add(m.tx, name, tx), tag) == Get(m.tx, tag) + if tag == name then tx else 0
      ensures Get(Add(m.rx, name, rx), tag) == Get(m.rx, tag) + if tag == name then rx else 0
    {
      AddAdds(m.total, name, 1, tag);
      AddAdds(m.active, name, 1, tag);
      AddAdds(m.active, name, -1, tag);
      AddAdds(m.tx, name, tx, tag);
      AddAdds(m.rx, name, rx, tag);
    }
  }

  class MetricsHandler {
    var connectionsTotal: Vec
    var connectionsActive: Vec
    var bytesTx: Vec
    var bytesRx: Vec
    var authFailures: int

    ghost function View(): Metrics
      reads this
    {
      Metrics(connectionsTotal, connectionsActive, bytesTx, bytesRx, authFailures)
    }

    constructor ()
      ensures View() == Metrics([], [], [], [], 0)
    {
      connectionsTotal, connectionsActive, bytesTx, bytesRx, authFailures := [], [], [], [], 0;
    }

    /** The visit of the record's attributes. */
    static method ReadAttrs(attrs: seq<Attr>) returns (tokenName: Text, tx: int, rx: int)
      requires WellTyped(attrs)
      ensures tokenName == TextAttr(attrs, "token")
      ensures tx == NumAttr(attrs, "bytes_tx") && rx == NumAttr(attrs, "bytes_rx")
    {
      tokenName, tx, rx := [], 0, 0;
      var i := 0;
      while i < |attrs|
        invariant i <= |attrs|
        invariant tokenName == TextAttr(attrs[..i], "token")
        invariant tx == NumAttr(attrs[..i], "bytes_tx") && rx == NumAttr(attrs[..i], "bytes_rx")
      {
        var a := attrs[i];
        assert attrs[..i + 1][..i] == attrs[..i] && a in attrs;
        match a.key {
          case "token" => tokenName := Printed(a.value);
          case "bytes_tx" => tx := a.value.n;
          case "bytes_rx" => rx := a.value.n;
          case _ =>
        }
        i := i + 1;
      }
      assert attrs[..i] == attrs;
    }

    method Handle(r: Record)
      requires WellTyped(r.attrs)
      modifies this
      ensures View() == RunMetrics(old(View()), OpsOf(r))
    {
      RunOpen(View(), Label(TextAttr(r.attrs, "token")));
      RunClose(View(), Label(TextAttr(r.attrs, "token")), NumAttr(r.attrs, "bytes_tx"), NumAttr(r.attrs, "bytes_rx"));
      RunAuthFailure(View());
      hide TextAttr, NumAttr, Add, RunMetrics;
      var tokenName, tx, rx := ReadAttrs(r.attrs);
      if tokenName == [] { tokenName := UNKNOWN; }
      match r.message {
        case "connection.open" =>
          connectionsTotal := Add(connectionsTotal, tokenName, 1);
          connectionsActive := Add(connectionsActive, tokenName, 1);
        case "connection.close" =>
          connectionsActive := Add(connectionsActive, tokenName, -1);
          bytesTx := Add(bytesTx, tokenName, tx);
          bytesRx := Add(bytesRx, tokenName, rx);
        case "auth.failure" =>
          authFailures := authFailures + 1;
        case _ =>
      }
    }
  }

  class StatsAggregator {
    var activeConns: int
    var totalConns: int
    var bytesTx: int
    var bytesRx: int

    ghost function View(): Stats
      reads this
    {
      Stats(activeConns, totalConns, bytesTx, bytesRx)
    }

    constructor ()
      ensures View() == Stats(0, 0, 0, 0)
    {
      activeConns, totalConns, bytesTx, bytesRx := 0, 0, 0, 0;
    }

    method ConnectionOpened()
      modifies this
      ensures View() == RunStats(old(View()), OPENED)
      ensures activeConns == old(activeConns) + 1 && totalConns == old(totalConns) + 1
      ensures bytesTx == old(bytesTx) && bytesRx == old(bytesRx)
    {
      RunStatsCons(View(), ActiveUp, [TotalUp]);
      activeConns := activeConns + 1;
      totalConns := totalConns + 1;
    }

    method ConnectionClosed(tx: int, rx: int)
      modifies this
      ensures View() == RunStats(old(View()), Closed(tx, rx))
      ensures activeConns == old(activeConns) - 1 && totalConns == old(totalConns)
      ensures bytesTx == old(bytesTx) + tx && bytesRx == old(bytesRx) + rx
    {
      RunStatsCons(View(), ActiveDown, [TxUp(tx), RxUp(rx)]);
      RunStatsCons(ApplyStats(View(), ActiveDown), TxUp(tx), [RxUp(rx)]);
      activeConns := activeConns - 1;
      bytesTx := bytesTx + tx;
      bytesRx := bytesRx + rx;
    }
  }

  const OPENED: seq<StatsOp> := [ActiveUp, TotalUp]
  function Closed(tx: int, rx: int): seq<StatsOp> { [ActiveDown, TxUp(tx), RxUp(rx)] }

  // ------------------------------------------------- interleaved connection handlers

  /** A connection being handled: what its relay will report, and how many of the ten ledger
      operations of its handler have been done. */
  datatype Conn = Conn(token: Text, tx: nat, rx: nat, pc: nat)

  const LOGGED := 2    // after LogOpen
  const RELAYING := 4  // after ConnectionOpened
  const REPORTED := 7  // after LogClose
  const FINISHED := 10 // after ConnectionClosed

  function Program(c: Conn): seq<Op> {
    var l := Label(c.token);
    [M(IncTotal(l)), M(IncActive(l)), S(ActiveUp), S(TotalUp),
     M(DecActive(l)), M(AddTx(l, c.tx)), M(AddRx(l, c.rx)), S(ActiveDown), S(TxUp(c.tx)), S(RxUp(c.rx))]
  }

  function MetricOps(ops: seq<MetricOp>): seq<Op> { seq(|ops|, i requires 0 <= i < |ops| => M(ops[i])) }
  function StatsOps(ops: seq<StatsOp>): seq<Op> { seq(|ops|, i requires 0 <= i < |ops| => S(ops[i])) }

  /** The program is what the four calls of a handler do, in their order. */
  lemma ProgramIsTheHandler(c: Conn, source: Text, target: Text, ms: int)
    ensures Program(c) == MetricOps(OpsOf(LogOpen(c.token, source, target))) + StatsOps(OPENED)
                        + MetricOps(OpsOf(LogClose(c.token, target, ms, c.tx, c.rx))) + StatsOps(Closed(c.tx, c.rx))
    ensures WellTyped(LogOpen(c.token, source, target).attrs)
    ensures WellTyped(LogClose(c.token, target, ms, c.tx, c.rx).attrs)
  {
    var o, cl := LogOpen(c.token, source, target).attrs, LogClose(c.token, target, ms, c.tx, c.rx).attrs;
    LastAttrAt(o, "token", 0);
    LastAttrAt(cl, "token", 0);
    LastAttrAt(cl, "bytes_tx", 3);
    LastAttrAt(cl, "bytes_rx", 4);
  }

  datatype State = State(ledger: Ledger, conns: seq<Conn>)
  datatype Step = Begin(token: Text, tx: nat, rx: nat) | Advance(i: nat)

  const INIT: State := State(Ledger(Metrics([], [], [], [], 0), Stats(0, 0, 0, 0)), [])

  function Apply(s: State, x: Step): Option<State> {
    match x
    case Begin(token, tx, rx) => Some(s.(conns := s.conns + [Conn(token, tx, rx, 0)]))
    case Advance(i) =>
      if i >= |s.conns| || s.conns[i].pc >= FINISHED then None
      else
        var c := s.conns[i];
        Some(State(ApplyOp(s.ledger, Program(c)[c.pc]), s.conns[i := c.(pc := c.pc + 1)]))
  }

  function Exec(steps: seq<Step>): Option<State> {
    if steps == [] then Some(INIT)
    else match Exec(steps[..|steps| - 1])
      case None => None
      case Some(s) => Apply(s, steps[|steps| - 1])
  }

  // ------------------------------------------- every quantity is a sum over connections

  datatype Quantity =
    | ActiveSum | TotalSum | MetricTx | MetricRx
    | ActiveOf(tag: Text) | TotalOf(tag: Text) | TxOf(tag: Text) | RxOf(tag: Text)
    | StatsActive | StatsTotal | StatsTx | StatsRx

  function Read(q: Quantity, l: Ledger): int {
    match q
    case ActiveSum => VecSum(l.metrics.active)
    case ActiveOf(tag) => Get(l.metrics.active, tag)
    case TotalOf(tag) => Get(l.metrics.total, tag)
    case TxOf(tag) => Get(l.metrics.tx, tag)
    case RxOf(tag) => Get(l.metrics.rx, tag)
    case TotalSum => VecSum(l.metrics.total)
    case MetricTx => VecSum(l.metrics.tx)
    case MetricRx => VecSum(l.metrics.rx)
    case StatsActive => l.stats.active
    case StatsTotal => l.stats.total
    case StatsTx => l.stats.tx
    case StatsRx => l.stats.rx
  }

  /** What a connection has added to a quantity by now. */
  function Share(q: Quantity, c: Conn): int {
    match q
    case ActiveSum => if LOGGED <= c.pc <= RELAYING then 1 else 0
    case ActiveOf(tag) => if LOGGED <= c.pc <= RELAYING && Label(c.token) == tag then 1 else 0
    case TotalOf(tag) => if 1 <= c.pc && Label(c.token) == tag then 1 else 0
    case TxOf(tag) => if 6 <= c.pc && Label(c.token) == tag then c.tx else 0
    case RxOf(tag) => if REPORTED <= c.pc && Label(c.token) == tag then c.rx else 0
    case TotalSum => if 1 <= c.pc then 1 else 0
    case MetricTx => if 6 <= c.pc then c.tx else 0
    case MetricRx => if REPORTED <= c.pc then c.rx else 0
    case StatsActive => if 3 <= c.pc <= REPORTED then 1 else 0
    case StatsTotal => if RELAYING <= c.pc then 1 else 0
    case StatsTx => if 9 <= c.pc then c.tx else 0
    case StatsRx => if FINISHED <= c.pc then c.rx else 0
  }

  function Sum(q: Quantity, cs: seq<Conn>): int {
    if cs == [] then 0 else Share(q, cs[0]) + Sum(q, cs[1..])
  }

  lemma {:induction false} SumUpdate(q: Quantity, cs: seq<Conn>, i: nat, c: Conn)
    requires i < |cs|
    ensures Sum(q, cs[i := c]) == Sum(q, cs) - Share(q, cs[i]) + Share(q, c)
  {
    if i == 0 {
      assert cs[i := c][1..] == cs[1..];
    } else {
      SumUpdate(q, cs[1..], i - 1, c);
      assert cs[i := c][1..] == cs[1..][i - 1 := c];
    }
  }

  lemma {:induction false} SumAppend(q: Quantity, cs: seq<Conn>, c: Conn)
    ensures Sum(q, cs + [c]) == Sum(q, cs) + Share(q, c)
  {
    if cs == [] {
      assert cs + [c] == [c];
    } else {
      assert (cs + [c])[1..] == cs[1..] + [c];
      SumAppend(q, cs[1..], c);
    }
  }

  /** One ledger operation changes a quantity by what it changes the connection's share. */
  lemma OneOperation(q: Quantity, l: Ledger, c: Conn)
    requires c.pc < FINISHED
    ensures Read(q, ApplyOp(l, Program(c)[c.pc])) - Read(q, l) == Share(q, c.(pc := c.pc + 1)) - Share(q, c)
  {
    hide Add, Get, VecSum, Label;
    var tag := Label(c.token);
    var other := if q.ActiveOf? || q.TotalOf? || q.TxOf? || q.RxOf? then q.tag else [];
    AddAdds(l.metrics.total, tag, 1, other);
    AddAdds(l.metrics.active, tag, 1, other);
    AddAdds(l.metrics.active, tag, -1, other);
    AddAdds(l.metrics.tx, tag, c.tx, other);
    AddAdds(l.metrics.rx, tag, c.rx, other);
  }

  /** In every state of every run each ledger quantity is the sum of the connections' shares. */
  lemma {:induction false} LedgersAreSums(q: Quantity, steps: seq<Step>)
    requires Exec(steps).Some?
    ensures Read(q, Exec(steps).value.ledger) == Sum(q, Exec(steps).value.conns)
    ensures forall c | c in Exec(steps).value.conns :: c.pc <= FINISHED
  {
    if steps != [] {
      LedgersAreSums(q, steps[..|steps| - 1]);
      var s := Exec(steps[..|steps| - 1]).value;
      match steps[|steps| - 1]
      case Begin(token, tx, rx) => SumAppend(q, s.conns, Conn(token, tx, rx, 0));
      case Advance(i) =>
        var c := s.conns[i];
        OneOperation(q, s.ledger, c);
        SumUpdate(q, s.conns, i, c.(pc := c.pc + 1));
    }
  }

  // ------------------------------------------------------------------ theorems

  /** How many connections have done at least lo and fewer than hi operations. */
  function Between(cs: seq<Conn>, lo: nat, hi: nat): nat {
    if cs == [] then 0 else (if lo <= cs[0].pc < hi then 1 else 0) + Between(cs[1..], lo, hi)
  }

  /** The connections with one of these tokens. */
  function WithToken(cs: seq<Conn>, tokens: set<Text>): (r: seq<Conn>)
    ensures forall c | c in r :: c in cs && c.token in tokens
  {
    if cs == [] then [] else (if cs[0].token in tokens then [cs[0]] else []) + WithToken(cs[1..], tokens)
  }

  /** The tokens that are counted under a label. */
  function TokensOf(tag: Text): set<Text> {
    if tag == [] then {} else if tag == UNKNOWN then {UNKNOWN, []} else {tag}
  }

  lemma {:induction false} SharesCount(cs: seq<Conn>)
    ensures Sum(ActiveSum, cs) == Between(cs, LOGGED, 5) && Sum(StatsActive, cs) == Between(cs, 3, 8)
    ensures Sum(ActiveSum, cs) - Sum(StatsActive, cs) == Between(cs, LOGGED, 3) - Between(cs, 5, 8)
  {
    if cs != [] {
      SharesCount(cs[1..]);
    }
  }

  lemma LabelIsAmongTokens(token: Text, tag: Text)
    ensures Label(token) == tag <==> token in TokensOf(tag)
  {
  }

  lemma SumCons(q: Quantity, c: Conn, cs: seq<Conn>)
    ensures Sum(q, [c] + cs) == Share(q, c) + Sum(q, cs)
  {
    hide Share;
    assert ([c] + cs)[1..] == cs;
  }

  lemma {:induction false} SumOverTokens(q: Quantity, all: Quantity, cs: seq<Conn>, tokens: set<Text>)
    requires forall c :: Share(q, c) == if c.token in tokens then Share(all, c) else 0
    ensures Sum(q, cs) == Sum(all, WithToken(cs, tokens))
  {
    hide Share;
    if cs != [] {
      SumOverTokens(q, all, cs[1..], tokens);
      var later := WithToken(cs[1..], tokens);
      SumCons(all, cs[0], later);
      assert [] + later == later;
    }
  }

  /** The shares in a label's quantities are those of the connections with its tokens. */
  lemma SharesOfLabel(cs: seq<Conn>, tag: Text)
    ensures var mine := WithToken(cs, TokensOf(tag));
            && Sum(ActiveOf(tag), cs) == Between(mine, LOGGED, 5)
            && Sum(TotalOf(tag), cs) == Sum(TotalSum, mine)
            && Sum(TxOf(tag), cs) == Sum(MetricTx, mine)
            && Sum(RxOf(tag), cs) == Sum(MetricRx, mine)
  {
    forall token: Text ensures Label(token) == tag <==> token in TokensOf(tag) { LabelIsAmongTokens(token, tag); }
    hide Label, TokensOf, Sum, WithToken, Between;
    SumOverTokens(ActiveOf(tag), ActiveSum, cs, TokensOf(tag));
    SumOverTokens(TotalOf(tag), TotalSum, cs, TokensOf(tag));
    SumOverTokens(TxOf(tag), MetricTx, cs, TokensOf(tag));
    SumOverTokens(RxOf(tag), MetricRx, cs, TokensOf(tag));
    SharesCount(WithToken(cs, TokensOf(tag)));
  }

  /** The gauges, summed over tokens, differ from the aggregator's count by exactly the
      connections between LogOpen and ConnectionOpened less those between LogClose's decrement
      and ConnectionClosed's. */
  lemma LedgersDiffer(steps: seq<Step>)
    requires Exec(steps).Some?
    ensures var s := Exec(steps).value;
            VecSum(s.ledger.metrics.active) - s.ledger.stats.active
            == Between(s.conns, LOGGED, 3) - Between(s.conns, 5, 8)
  {
    hide Exec;
    LedgersAreSums(ActiveSum, steps);
    LedgersAreSums(StatsActive, steps);
    SharesCount(Exec(steps).value.conns);
  }

  /** No count is ever negative: the gauge of a token is the number of its connections between
      their open and close events, and the aggregator's count is a number of connections too. The
      empty token counts as "unknown". */
  lemma CountsAreConnections(steps: seq<Step>, tag: Text)
    requires Exec(steps).Some?
    ensures var s := Exec(steps).value;
            && s.ledger.stats.active == Between(s.conns, 3, 8)
            && Get(s.ledger.metrics.active, tag) ==
               if tag == [] then 0
               else if tag == UNKNOWN then Between(WithToken(s.conns, {UNKNOWN, []}), LOGGED, 5)
               else Between(WithToken(s.conns, {tag}), LOGGED, 5)
  {
    LedgersAreSums(ActiveOf(tag), steps);
    LedgersAreSums(StatsActive, steps);
    hide Exec, Sum;
    SharesCount(Exec(steps).value.conns);
    SharesOfLabel(Exec(steps).value.conns, tag);
    assert tag == [] ==> WithToken(Exec(steps).value.conns, {}) == [];
  }

  lemma {:induction false} RestingShares(cs: seq<Conn>)
    requires forall c | c in cs :: c.pc == 0 || c.pc == RELAYING || c.pc == FINISHED
    ensures Sum(ActiveSum, cs) == Sum(StatsActive, cs) && Sum(TotalSum, cs) == Sum(StatsTotal, cs)
    ensures Sum(MetricTx, cs) == Sum(StatsTx, cs) && Sum(MetricRx, cs) == Sum(StatsRx, cs)
  {
    if cs != [] {
      RestingShares(cs[1..]);
      assert cs[0] in cs;
    }
  }

  /** Whenever no handler is in the middle of an open or a close, both ledgers agree on active
      and total connections and on the bytes in each direction. */
  lemma LedgersAgreeAtRest(steps: seq<Step>)
    requires Exec(steps).Some?
    requires forall c | c in Exec(steps).value.conns :: c.pc == 0 || c.pc == RELAYING || c.pc == FINISHED
    ensures var l := Exec(steps).value.ledger;
            && VecSum(l.metrics.active) == l.stats.active && VecSum(l.metrics.total) == l.stats.total
            && VecSum(l.metrics.tx) == l.stats.tx && VecSum(l.metrics.rx) == l.stats.rx
  {
    hide Exec, Sum;
    LedgersAreSums(ActiveSum, steps);
    LedgersAreSums(StatsActive, steps);
    LedgersAreSums(TotalSum, steps);
    LedgersAreSums(StatsTotal, steps);
    LedgersAreSums(MetricTx, steps);
    LedgersAreSums(StatsTx, steps);
    LedgersAreSums(MetricRx, steps);
    LedgersAreSums(StatsRx, steps);
    RestingShares(Exec(steps).value.conns);
  }

  function BytesOf(cs: seq<Conn>): (int, int) {
    if cs == [] then (0, 0) else (cs[0].tx + BytesOf(cs[1..]).0, cs[0].rx + BytesOf(cs[1..]).1)
  }

  lemma {:induction false} FinishedShares(cs: seq<Conn>)
    requires forall c | c in cs :: c.pc == FINISHED
    ensures Sum(StatsActive, cs) == 0 && Sum(StatsTotal, cs) == |cs| == Sum(TotalSum, cs)
    ensures Sum(StatsTx, cs) == BytesOf(cs).0 == Sum(MetricTx, cs)
    ensures Sum(StatsRx, cs) == BytesOf(cs).1 == Sum(MetricRx, cs)
    ensures Between(cs, LOGGED, 5) == 0
  {
    if cs != [] {
      FinishedShares(cs[1..]);
      assert cs[0] in cs;
    }
  }

  /** Operations that handlers still have to do. */
  function Remaining(cs: seq<Conn>): nat {
    if cs == [] then 0 else (if cs[0].pc < FINISHED then FINISHED - cs[0].pc else 0) + Remaining(cs[1..])
  }

  lemma {:induction false} RemainingUpdate(cs: seq<Conn>, i: nat)
    requires i < |cs| && cs[i].pc < FINISHED
    ensures Remaining(cs[i := cs[i].(pc := cs[i].pc + 1)]) == Remaining(cs) - 1
  {
    var c := cs[i].(pc := cs[i].pc + 1);
    if i == 0 {
      assert cs[i := c][1..] == cs[1..];
    } else {
      RemainingUpdate(cs[1..], i - 1);
      assert cs[i := c][1..] == cs[1..][i - 1 := c];
    }
  }

  /** No handler is ever stuck: from every reachable state a run goes on until all handlers have
      finished, with the same connections. */
  lemma {:induction false} HandlersCanFinish(steps: seq<Step>) returns (longer: seq<Step>)
    requires Exec(steps).Some?
    ensures steps <= longer && Exec(longer).Some?
    ensures var cs, ds := Exec(steps).value.conns, Exec(longer).value.conns;
            |ds| == |cs| && forall i | 0 <= i < |cs| :: ds[i] == cs[i].(pc := FINISHED)
    decreases Remaining(Exec(steps).value.conns)
  {
    var s := Exec(steps).value;
    LedgersAreSums(TotalSum, steps);
    if i :| 0 <= i < |s.conns| && s.conns[i].pc < FINISHED {
      var next := steps + [Advance(i)];
      assert next[..|next| - 1] == steps;
      RemainingUpdate(s.conns, i);
      assert Exec(next).Some?;
      hide Program, ApplyOp, Remaining;
      longer := HandlersCanFinish(next);
    } else {
      longer := steps;
      assert forall c | c in s.conns :: c.pc <= FINISHED;
    }
  }

  /** New connections can begin at any time. */
  lemma ConnectionsCanBegin(steps: seq<Step>, token: Text, tx: nat, rx: nat)
    requires Exec(steps).Some?
    ensures Exec(steps + [Begin(token, tx, rx)]) ==
            Some(Exec(steps).value.(conns := Exec(steps).value.conns + [Conn(token, tx, rx, 0)]))
  {
    assert (steps + [Begin(token, tx, rx)])[..|steps|] == steps;
  }

  /** When all handlers are done the aggregator has nothing active, every connection counted
      once, and byte totals that are the sums of what the relays reported. */
  lemma FinalTotals(steps: seq<Step>)
    requires Exec(steps).Some?
    requires forall c | c in Exec(steps).value.conns :: c.pc == FINISHED
    ensures var s := Exec(steps).value;
            s.ledger.stats == Stats(0, |s.conns|, BytesOf(s.conns).0, BytesOf(s.conns).1)
  {
    hide Exec, Sum;
    LedgersAreSums(StatsActive, steps);
    LedgersAreSums(StatsTotal, steps);
    LedgersAreSums(StatsTx, steps);
    LedgersAreSums(StatsRx, steps);
    FinishedShares(Exec(steps).value.conns);
  }

  /** Then the metrics of each token are those of its own connections: none active, each counted
      once, and the sums of what their relays reported; an empty token is "unknown". */
  lemma FinalTokenTotals(steps: seq<Step>, tag: Text)
    requires Exec(steps).Some? && tag != []
    requires forall c | c in Exec(steps).value.conns :: c.pc == FINISHED
    ensures var s := Exec(steps).value;
            var m, mine := s.ledger.metrics, WithToken(s.conns, if tag == UNKNOWN then {UNKNOWN, []} else {tag});
            && Get(m.active, tag) == 0 && Get(m.total, tag) == |mine|
            && Get(m.tx, tag) == BytesOf(mine).0 && Get(m.rx, tag) == BytesOf(mine).1
  {
    hide Exec, Sum;
    var conns := Exec(steps).value.conns;
    LedgersAreSums(ActiveOf(tag), steps);
    LedgersAreSums(TotalOf(tag), steps);
    LedgersAreSums(TxOf(tag), steps);
    LedgersAreSums(RxOf(tag), steps);
    SharesOfLabel(conns, tag);
    hide *;
    FinishedShares(WithToken(conns, TokensOf(tag)));
    assert TokensOf(tag) == if tag == UNKNOWN then {UNKNOWN, []} else {tag} by { LabelTokens(tag); }
  }

  lemma LabelTokens(tag: Text)
    requires tag != []
    ensures TokensOf(tag) == if tag == UNKNOWN then {UNKNOWN, []} else {tag}
  {
  }
}
