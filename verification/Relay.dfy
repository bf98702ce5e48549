/** The bidirectional relay: two copiers over two connections, each closing its destination. */
module Relay {
  import opened Bytes

  /** How a copier's reads ended: the source's own end, or any error. */
  datatype End = CleanEof | Failed

  /** Where one copier is: blocked in Read; inside Write with `done` bytes accepted so far;
      returned from Write with n but not yet counted; about to close; finished. */
  datatype Pc =
    | Reading
    | Writing(chunk: seq<byte>, done: nat, last: Option<End>)
    | Counting(n: nat, ok: bool, last: Option<End>)
    | Closing(end: End)
    | Done(end: End)

  /** One direction: bytes its source has yet to produce and has produced, bytes its destination
      accepted, the counting writer's n, and whether the destination has been closed. */
  datatype Flow = Flow(coming: seq<byte>, taken: seq<byte>, accepted: seq<byte>, count: nat, pc: Pc, closed: bool)

  /** toA reads from b and closes a; toB reads from a and closes b. So the source of each flow
      is closed exactly when the other flow has closed its destination. */
  datatype State = State(toA: Flow, toB: Flow)

  datatype FlowStep =
    | ReadData(n: nat, last: Option<End>)
    | ReadEnd(end: End)
    | Accept(k: nat)
    | WriteReturns(ok: bool)
    | Count
    | Close

  datatype Step = StepA(x: FlowStep) | StepB(x: FlowStep)

  /** One step of one copier. Reads give at least one byte or an error, nothing but an error
      once the source is closed, and a clean end only when the source has nothing left; a write
      may accept its bytes piecemeal and fail at any point. */
  function Move(f: Flow, x: FlowStep, srcClosed: bool): Option<Flow> {
    match x
    case ReadData(n, end) =>
      if f.pc.Reading? && !srcClosed && 1 <= n <= |f.coming| && (end == Some(CleanEof) ==> n == |f.coming|)
      then Some(f.(pc := Writing(f.coming[..n], 0, end), taken := f.taken + f.coming[..n], coming := f.coming[n..]))
      else None
    case ReadEnd(end) =>
      if f.pc.Reading? && (end.CleanEof? ==> !srcClosed && f.coming == []) then Some(f.(pc := Closing(end))) else None
    case Accept(k) =>
      if f.pc.Writing? && 1 <= k && f.pc.done + k <= |f.pc.chunk| && !f.closed
      then Some(f.(accepted := f.accepted + f.pc.chunk[f.pc.done..f.pc.done + k], pc := f.pc.(done := f.pc.done + k)))
      else None
    case WriteReturns(ok) =>
      if f.pc.Writing? && (ok ==> f.pc.done == |f.pc.chunk|)
      then Some(f.(pc := Counting(f.pc.done, ok, f.pc.last))) else None
    case Count =>
      if f.pc.Counting? then
        var next := if !f.pc.ok then Closing(Failed) else if f.pc.last.Some? then Closing(f.pc.last.value) else Reading;
        Some(f.(count := f.count + f.pc.n, pc := next))
      else None
    case Close =>
      if f.pc.Closing? then Some(f.(pc := Done(f.pc.end), closed := true)) else None
  }

  function Apply(s: State, x: Step): Option<State> {
    match x
    case StepA(y) => (match Move(s.toA, y, s.toB.closed) case Some(f) => Some(s.(toA := f)) case None => None)
    case StepB(y) => (match Move(s.toB, y, s.toA.closed) case Some(f) => Some(s.(toB := f)) case None => None)
  }

  function Start(input: seq<byte>): Flow { Flow(input, [], [], 0, Reading, false) }

  /** The state of a run on what a and b are going to send, or None when it is not a run. */
  function Exec(fromA: seq<byte>, fromB: seq<byte>, steps: seq<Step>): Option<State> {
    if steps == [] then Some(State(Start(fromB), Start(fromA)))
    else match Exec(fromA, fromB, steps[..|steps| - 1])
      case None => None
      case Some(s) => Apply(s, steps[|steps| - 1])
  }

  // ----------------------------------------------------------------- invariant

  /** Bytes accepted by the destination that n does not count yet. */
  function Uncounted(pc: Pc): nat {
    match pc case Writing(_, done, _) => done case Counting(n, _, _) => n case _ => 0
  }

  predicate EndedClean(pc: Pc) {
    match pc
    case Writing(_, _, last) => last == Some(CleanEof)
    case Counting(_, _, last) => last == Some(CleanEof)
    case Closing(end) => end.CleanEof?
    case Done(end) => end.CleanEof?
    case Reading => false
  }

  /** The part of what was taken that the destination must have accepted by now. */
  predicate Delivered(f: Flow) {
    match f.pc
    case Writing(chunk, done, _) => done <= |chunk| && f.taken == f.accepted + chunk[done..]
    case Counting(_, ok, _) => if ok then f.taken == f.accepted else f.accepted <= f.taken
    case Reading => f.taken == f.accepted
    case Closing(end) => if end.CleanEof? then f.taken == f.accepted else f.accepted <= f.taken
    case Done(end) => if end.CleanEof? then f.taken == f.accepted else f.accepted <= f.taken
  }

  predicate FlowInv(f: Flow, input: seq<byte>) {
    && input == f.taken + f.coming
    && Delivered(f)
    && f.count + Uncounted(f.pc) == |f.accepted|
    && (EndedClean(f.pc) ==> f.coming == [])
    && (f.closed <==> f.pc.Done?)
  }

  lemma ReadKeepsInv(f: Flow, n: nat, last: Option<End>, srcClosed: bool, input: seq<byte>)
    requires FlowInv(f, input) && Move(f, ReadData(n, last), srcClosed).Some?
    ensures FlowInv(Move(f, ReadData(n, last), srcClosed).value, input)
  {
    assert f.coming == f.coming[..n] + f.coming[n..];
  }

  lemma AcceptKeepsInv(f: Flow, k: nat, srcClosed: bool, input: seq<byte>)
    requires FlowInv(f, input) && Move(f, Accept(k), srcClosed).Some?
    ensures FlowInv(Move(f, Accept(k), srcClosed).value, input)
  {
    var c, d := f.pc.chunk, f.pc.done;
    assert c[d..] == c[d..d + k] + c[d + k..];
  }

  lemma MoveKeepsInv(f: Flow, x: FlowStep, srcClosed: bool, input: seq<byte>)
    requires FlowInv(f, input) && Move(f, x, srcClosed).Some?
    ensures FlowInv(Move(f, x, srcClosed).value, input)
  {
    match x
    case ReadData(n, last) => ReadKeepsInv(f, n, last, srcClosed, input);
    case Accept(k) => AcceptKeepsInv(f, k, srcClosed, input);
    case _ =>
  }

  lemma {:induction false} InvRun(fromA: seq<byte>, fromB: seq<byte>, steps: seq<Step>)
    requires Exec(fromA, fromB, steps).Some?
    ensures var s := Exec(fromA, fromB, steps).value; FlowInv(s.toA, fromB) && FlowInv(s.toB, fromA)
  {
    if steps != [] {
      var t, x := steps[..|steps| - 1], steps[|steps| - 1];
      InvRun(fromA, fromB, t);
      var s := Exec(fromA, fromB, t).value;
      match x
      case StepA(y) => MoveKeepsInv(s.toA, y, s.toB.closed, fromB);
      case StepB(y) => MoveKeepsInv(s.toB, y, s.toA.closed, fromA);
    }
  }

  // ------------------------------------------------------------------ theorems

  /** At every moment of every interleaving each side has accepted a prefix of what the other
      produced, in order and without gaps, and each counter is the number of accepted bytes less
      those of a write that has not been counted yet. */
  lemma RelaysPrefixes(fromA: seq<byte>, fromB: seq<byte>, steps: seq<Step>)
    requires Exec(fromA, fromB, steps).Some?
    ensures var s := Exec(fromA, fromB, steps).value;
            && s.toA.accepted <= s.toA.taken <= fromB && s.toB.accepted <= s.toB.taken <= fromA
            && s.toA.count + Uncounted(s.toA.pc) == |s.toA.accepted|
            && s.toB.count + Uncounted(s.toB.pc) == |s.toB.accepted|
  {
    InvRun(fromA, fromB, steps);
  }

  /** A copier that ended on a clean end of its source delivered all the source ever produced. */
  lemma CleanEndDeliversAll(fromA: seq<byte>, fromB: seq<byte>, steps: seq<Step>)
    requires Exec(fromA, fromB, steps).Some?
    ensures var s := Exec(fromA, fromB, steps).value;
            && (s.toA.pc == Done(CleanEof) ==> s.toA.accepted == fromB)
            && (s.toB.pc == Done(CleanEof) ==> s.toB.accepted == fromA)
  {
    InvRun(fromA, fromB, steps);
  }

  /** When Relay returns, both connections are closed and (tx, rx) are exactly the numbers of
      bytes a and b accepted. */
  lemma ReturnValues(fromA: seq<byte>, fromB: seq<byte>, steps: seq<Step>)
    requires Exec(fromA, fromB, steps).Some?
    requires var s := Exec(fromA, fromB, steps).value; s.toA.pc.Done? && s.toB.pc.Done?
    ensures var s := Exec(fromA, fromB, steps).value;
            s.toA.closed && s.toB.closed && s.toA.count == |s.toA.accepted| && s.toB.count == |s.toB.accepted|
  {
    InvRun(fromA, fromB, steps);
  }

  /** The step by which a copier's loop comes to this end: a read that gave it, or for a failure
      also a failed write. */
  predicate Brings(x: FlowStep, end: End) {
    x == ReadEnd(end) || (x.ReadData? && x.last == Some(end)) || (x == WriteReturns(false) && end == Failed)
  }

  ghost predicate Brought(steps: seq<Step>, ofA: bool, end: End) {
    exists i | 0 <= i < |steps| :: steps[i].StepA? == ofA && Brings(steps[i].x, end)
  }

  /** Every end a copier has in mind was brought by one of its steps. */
  ghost predicate CauseInv(pc: Pc, steps: seq<Step>, ofA: bool) {
    match pc
    case Reading => true
    case Writing(_, _, last) => last.Some? ==> Brought(steps, ofA, last.value)
    case Counting(_, ok, last) =>
      (!ok ==> Brought(steps, ofA, Failed)) && (last.Some? ==> Brought(steps, ofA, last.value))
    case Closing(end) => Brought(steps, ofA, end)
    case Done(end) => Brought(steps, ofA, end)
  }

  lemma BroughtStays(steps: seq<Step>, x: Step, ofA: bool, end: End)
    ensures Brought(steps + [x], ofA, end) <==> Brought(steps, ofA, end) || (x.StepA? == ofA && Brings(x.x, end))
  {
    hide Brings;
    var longer := steps + [x];
    if x.StepA? == ofA && Brings(x.x, end) { assert longer[|steps|] == x; }
    assert forall i | 0 <= i < |steps| :: longer[i] == steps[i];
  }

  lemma CauseStep(steps: seq<Step>, x: Step, ofA: bool, f: Flow, srcClosed: bool)
    requires CauseInv(f.pc, steps, ofA)
    requires x.StepA? == ofA ==> Move(f, x.x, srcClosed).Some?
    ensures CauseInv(if x.StepA? == ofA then Move(f, x.x, srcClosed).value.pc else f.pc, steps + [x], ofA)
  {
    hide Brought;
    forall end
      ensures Brought(steps + [x], ofA, end) <==> Brought(steps, ofA, end) || (x.StepA? == ofA && Brings(x.x, end))
    {
      BroughtStays(steps, x, ofA, end);
    }
  }

  lemma {:induction false} CauseRun(fromA: seq<byte>, fromB: seq<byte>, steps: seq<Step>)
    requires Exec(fromA, fromB, steps).Some?
    ensures var s := Exec(fromA, fromB, steps).value;
            CauseInv(s.toA.pc, steps, true) && CauseInv(s.toB.pc, steps, false)
  {
    if steps != [] {
      var t, x := steps[..|steps| - 1], steps[|steps| - 1];
      CauseRun(fromA, fromB, t);
      hide CauseInv, Move;
      var s := Exec(fromA, fromB, t).value;
      assert steps == t + [x];
      CauseStep(t, x, true, s.toA, s.toB.closed);
      CauseStep(t, x, false, s.toB, s.toA.closed);
    }
  }

  /** A copier goes on until something ends it: when it is done, one of its reads gave the end it
      is done with, or, if it failed, one of its writes did. A good write never ends it. */
  lemma EndsHaveCauses(fromA: seq<byte>, fromB: seq<byte>, steps: seq<Step>, end: End)
    requires Exec(fromA, fromB, steps).Some?
    ensures Exec(fromA, fromB, steps).value.toA.pc == Done(end) ==>
              exists i | 0 <= i < |steps| && steps[i].StepA? ::
                || steps[i].x == ReadEnd(end) || (steps[i].x.ReadData? && steps[i].x.last == Some(end))
                || (end == Failed && steps[i].x == WriteReturns(false))
    ensures Exec(fromA, fromB, steps).value.toB.pc == Done(end) ==>
              exists i | 0 <= i < |steps| && steps[i].StepB? ::
                || steps[i].x == ReadEnd(end) || (steps[i].x.ReadData? && steps[i].x.last == Some(end))
                || (end == Failed && steps[i].x == WriteReturns(false))
  {
    hide Exec;
    CauseRun(fromA, fromB, steps);
    var s := Exec(fromA, fromB, steps).value;
    assert s.toB.pc == Done(end) ==> Brought(steps, false, end);
    assert s.toA.pc == Done(end) ==> Brought(steps, true, end);
    hide CauseInv;
  }

  /** Several moves of one copier whose source is open. */
  function Moves(f: Flow, xs: seq<FlowStep>): Option<Flow>
    decreases |xs|
  {
    if xs == [] then Some(f)
    else match Move(f, xs[0], false)
      case None => None
      case Some(g) => Moves(g, xs[1..])
  }

  /** Any part of what is coming can go through, after which it is delivered and counted and the
      copier reads on; when it was the last part and the read said so, the copier closes instead. */
  lemma ChunkGoesThrough(f: Flow, n: nat, clean: bool)
    requires f.pc.Reading? && !f.closed && 1 <= n <= |f.coming| && (clean ==> n == |f.coming|)
    ensures var last := if clean then Some(CleanEof) else None;
            Moves(f, [ReadData(n, last), Accept(n), WriteReturns(true), Count] + if clean then [Close] else []) ==
            Some(Flow(f.coming[n..], f.taken + f.coming[..n], f.accepted + f.coming[..n], f.count + n,
                      if clean then Done(CleanEof) else Reading, clean))
  {
    var last := if clean then Some(CleanEof) else None;
    var xs := [ReadData(n, last), Accept(n), WriteReturns(true), Count] + if clean then [Close] else [];
    var c := f.coming[..n];
    var f1 := f.(pc := Writing(c, 0, last), taken := f.taken + c, coming := f.coming[n..]);
    var f2 := f1.(accepted := f.accepted + c, pc := Writing(c, n, last));
    var f3 := f2.(pc := Counting(n, true, last));
    var f4 := f3.(count := f.count + n, pc := if clean then Closing(CleanEof) else Reading);
    assert c[0..0 + n] == c;
    assert Move(f, xs[0], false) == Some(f1) && Move(f1, xs[1], false) == Some(f2);
    assert Move(f2, xs[2], false) == Some(f3) && Move(f3, xs[3], false) == Some(f4);
    hide Move;
    OneMove(f, xs, f1);
    OneMove(f1, xs[1..], f2);
    OneMove(f2, xs[1..][1..], f3);
    OneMove(f3, xs[1..][1..][1..], f4);
    assert xs[1..][1..][1..][1..] == if clean then [Close] else [];
    if clean {
      LastMove(f4);
    }
  }

  lemma OneMove(f: Flow, xs: seq<FlowStep>, g: Flow)
    requires xs != [] && Move(f, xs[0], false) == Some(g)
    ensures Moves(f, xs) == Moves(g, xs[1..])
  {
  }

  lemma LastMove(f: Flow)
    requires f.pc == Closing(CleanEof)
    ensures Moves(f, [Close]) == Some(f.(pc := Done(CleanEof), closed := true))
  {
    OneMove(f, [Close], f.(pc := Done(CleanEof), closed := true));
  }

  lemma Then(fromA: seq<byte>, fromB: seq<byte>, steps: seq<Step>, s: State, ofA: bool, x: FlowStep, f: Flow)
    returns (longer: seq<Step>)
    requires Exec(fromA, fromB, steps) == Some(s)
    requires if ofA then Move(s.toA, x, s.toB.closed) == Some(f) else Move(s.toB, x, s.toA.closed) == Some(f)
    ensures Exec(fromA, fromB, longer) == Some(if ofA then s.(toA := f) else s.(toB := f))
  {
    longer := steps + [if ofA then StepA(x) else StepB(x)];
    assert longer[..|longer| - 1] == steps;
  }

  /** One copier delivers all its source sends and is about to close. */
  lemma DeliverAll(fromA: seq<byte>, fromB: seq<byte>, steps: seq<Step>, s: State, ofA: bool)
    returns (longer: seq<Step>)
    requires Exec(fromA, fromB, steps) == Some(s) && !s.toA.closed && !s.toB.closed
    requires if ofA then s.toA == Start(fromB) else s.toB == Start(fromA)
    ensures var input := if ofA then fromB else fromA;
            var f := Flow([], input, input, |input|, Closing(CleanEof), false);
            Exec(fromA, fromB, longer) == Some(if ofA then s.(toA := f) else s.(toB := f))
  {
    hide Exec;
    var input := if ofA then fromB else fromA;
    var n, last, f := |input|, Some(CleanEof), Start(input);
    var t := s;
    longer := steps;
    if n == 0 {
      f := f.(pc := Closing(CleanEof));
      longer := Then(fromA, fromB, longer, t, ofA, ReadEnd(CleanEof), f);
    } else {
      assert input[..n] == input && input[n..] == [] && input[0..0 + n] == input && [] + input == input;
      f := Flow([], input, [], 0, Writing(input, 0, last), false);
      longer := Then(fromA, fromB, longer, t, ofA, ReadData(n, last), f);
      t := if ofA then t.(toA := f) else t.(toB := f);
      f := Flow([], input, input, 0, Writing(input, n, last), false);
      longer := Then(fromA, fromB, longer, t, ofA, Accept(n), f);
      t := if ofA then t.(toA := f) else t.(toB := f);
      f := f.(pc := Counting(n, true, last));
      longer := Then(fromA, fromB, longer, t, ofA, WriteReturns(true), f);
      t := if ofA then t.(toA := f) else t.(toB := f);
      f := f.(count := n, pc := Closing(CleanEof));
      longer := Then(fromA, fromB, longer, t, ofA, Count, f);
    }
  }

  /** Every transfer can complete: for all inputs there is a run in which each side accepts all that
      the other sends, both counters say so, and both copiers end cleanly. */
  lemma TransfersCanComplete(fromA: seq<byte>, fromB: seq<byte>) returns (steps: seq<Step>)
    ensures Exec(fromA, fromB, steps) ==
            Some(State(Flow([], fromB, fromB, |fromB|, Done(CleanEof), true),
                       Flow([], fromA, fromA, |fromA|, Done(CleanEof), true)))
  {
    var s := State(Start(fromB), Start(fromA));
    assert Exec(fromA, fromB, []) == Some(s);
    hide Exec;
    steps := DeliverAll(fromA, fromB, [], s, true);
    s := s.(toA := Flow([], fromB, fromB, |fromB|, Closing(CleanEof), false));
    steps := DeliverAll(fromA, fromB, steps, s, false);
    s := s.(toB := Flow([], fromA, fromA, |fromA|, Closing(CleanEof), false));
    var f := s.toA.(pc := Done(CleanEof), closed := true);
    steps := Then(fromA, fromB, steps, s, true, Close, f);
    s := s.(toA := f);
    f := s.toB.(pc := Done(CleanEof), closed := true);
    steps := Then(fromA, fromB, steps, s, false, Close, f);
  }

  // --------------------------------------------------------------- termination

  function FlowMeasure(f: Flow): nat {
    match f.pc
    case Writing(chunk, done, _) => 4 * |f.coming| + (if done <= |chunk| then |chunk| - done else 0) + 4
    case Counting(_, _, _) => 4 * |f.coming| + 3
    case Reading => 4 * |f.coming| + 2
    case Closing(_) => 1
    case Done(_) => 0
  }

  function Measure(s: State): nat { FlowMeasure(s.toA) + FlowMeasure(s.toB) }

  lemma StepDecreases(s: State, x: Step)
    requires Apply(s, x).Some?
    ensures Measure(Apply(s, x).value) < Measure(s)
  {
  }

  /** No interleaving takes more than 4 steps per byte to be sent, and 4 more. */
  lemma {:induction false} RunsAreBounded(fromA: seq<byte>, fromB: seq<byte>, steps: seq<Step>)
    requires Exec(fromA, fromB, steps).Some?
    ensures |steps| + Measure(Exec(fromA, fromB, steps).value) <= 4 * (|fromA| + |fromB|) + 4
  {
    if steps != [] {
      var t := steps[..|steps| - 1];
      RunsAreBounded(fromA, fromB, t);
      StepDecreases(Exec(fromA, fromB, t).value, steps[|steps| - 1]);
    }
  }

  /** The step a copier takes without its peers doing anything: none while it waits for data
      from a source that is still open. */
  function OwedStep(f: Flow, srcClosed: bool): Option<FlowStep> {
    match f.pc
    case Reading => if srcClosed then Some(ReadEnd(Failed)) else None
    case Writing(_, _, _) => Some(WriteReturns(false))
    case Counting(_, _, _) => Some(Count)
    case Closing(_) => Some(Close)
    case Done(_) => None
  }

  /** Once either copier has finished, the other one owes a step until it has finished too; with
      RunsAreBounded, Relay returns after finitely many steps of that copier alone. */
  lemma NoDeadlockAfterOneEnds(fromA: seq<byte>, fromB: seq<byte>, steps: seq<Step>)
    requires Exec(fromA, fromB, steps).Some?
    ensures var s := Exec(fromA, fromB, steps).value;
            && (s.toA.pc.Done? && !s.toB.pc.Done? ==>
                  OwedStep(s.toB, s.toA.closed).Some? && Apply(s, StepB(OwedStep(s.toB, s.toA.closed).value)).Some?)
            && (s.toB.pc.Done? && !s.toA.pc.Done? ==>
                  OwedStep(s.toA, s.toB.closed).Some? && Apply(s, StepA(OwedStep(s.toA, s.toB.closed).value)).Some?)
  {
    InvRun(fromA, fromB, steps);
  }

  // ------------------------------------------------------- one copier, as code

  /** What one turn of io.Copy meets: a read's bytes and error, and how many of those bytes the
      destination accepts before it reports success or failure. */
  datatype Turn = Turn(chunk: seq<byte>, end: Option<End>, accept: nat, ok: bool)

  function Chunks(turns: seq<Turn>): seq<byte> {
    if turns == [] then [] else Chunks(turns[..|turns| - 1]) + turns[|turns| - 1].chunk
  }

  predicate WroteAll(t: Turn) { t.chunk == [] || (t.ok && t.accept == |t.chunk|) }

  class CountingWriter {
    var accepted: seq<byte>
    var n: nat
    var closed: bool

    ghost predicate Valid()
      reads this
    {
      n == |accepted|
    }

    constructor ()
      ensures Valid() && accepted == [] && !closed
    {
      accepted, n, closed := [], 0, false;
    }

    method Write(p: seq<byte>, accept: nat, ok: bool) returns (nw: nat, success: bool)
      requires Valid() && !closed && accept <= |p|
      modifies this
      ensures Valid() && !closed
      ensures nw == accept && success == ok && accepted == old(accepted) + p[..nw] && n == old(n) + nw
    {
      accepted := accepted + p[..accept];
      n := n + accept;
      nw, success := accept, ok;
    }

    /** One copier of Relay, run against a script of its environment: it goes on to the first
        failed or short write or the first error of a read, and closes. */
    method CopyAndClose(turns: seq<Turn>) returns (end: End, read: nat)
      requires Valid() && accepted == [] && !closed
      requires forall t | t in turns :: t.accept <= |t.chunk|
      modifies this
      ensures Valid() && n == |accepted| && closed && read <= |turns|
      ensures forall i | 0 <= i < read - 1 ::
                && turns[i].end.None?
                && (turns[i].chunk == [] || (turns[i].ok && turns[i].accept == |turns[i].chunk|))
      ensures read < |turns| ==>
                read > 0 &&
                var t := turns[read - 1];
                t.end.Some? || (t.chunk != [] && (!t.ok || t.accept < |t.chunk|))
      ensures read > 0 ==> accepted == Chunks(turns[..read - 1]) + turns[read - 1].chunk[..turns[read - 1].accept]
      ensures end == if read > 0 && turns[read - 1].end.Some?
                        && (turns[read - 1].chunk == []
                            || (turns[read - 1].ok && turns[read - 1].accept == |turns[read - 1].chunk|))
                     then turns[read - 1].end.value
                     else Failed
    {
      end, read := Failed, 0;
      while read < |turns|
        invariant Valid() && !closed && read <= |turns| && end.Failed?
        invariant accepted == Chunks(turns[..read])
        invariant forall i | 0 <= i < read :: WroteAll(turns[i]) && turns[i].end.None?
        invariant read > 0 ==> accepted == Chunks(turns[..read - 1]) + turns[read - 1].chunk[..turns[read - 1].accept]
      {
        var t := turns[read];
        assert turns[..read + 1][..read] == turns[..read];
        read := read + 1;
        if t.chunk != [] {
          var nw, ok := Write(t.chunk, t.accept, t.ok);
          if !ok || nw != |t.chunk| { break; }
        }
        if t.end.Some? {
          end := t.end.value;
          break;
        }
      }
      closed := true;
    }
  }
}
