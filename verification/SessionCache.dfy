/** The client's shared multiplexed session: one cached session, used by concurrent dial calls. */
module SessionCache {
  import opened Bytes

  /** Sessions are numbered in the order they are established. */
  type Sid = nat

  // ---------------------------------------------------------------- the object

  class MuxDialer {
    var session: Option<Sid>

    constructor ()
      ensures session == None
    {
      session := None;
    }

    /** getSession, while `closed` sessions are closed and dialling would give `dialled`. */
    method GetSession(closed: set<Sid>, dialled: Option<Sid>) returns (r: Option<Sid>)
      modifies this
      ensures old(Usable(session, closed)) ==> r == old(session) && session == old(session)
      ensures !old(Usable(session, closed)) ==>
                r == dialled && session == if dialled.Some? then dialled else old(session)
    {
      if session.Some? && session.value !in closed {
        return session;
      }
      if dialled.None? {
        return None;
      }
      session := dialled;
      return dialled;
    }

    /** dial: a failed Open clears the cache, whatever it holds by then. */
    method Dial(closed: set<Sid>, dialled: Option<Sid>, opens: bool) returns (r: Option<Sid>)
      modifies this
      ensures r.Some? <==> opens && (old(Usable(session, closed)) || dialled.Some?)
      ensures r.Some? ==> r == session && (r == old(session) || r == dialled)
      ensures !opens && (old(Usable(session, closed)) || dialled.Some?) ==> session == None
      ensures !old(Usable(session, closed)) && dialled.None? ==> session == old(session)
    {
      r := GetSession(closed, dialled);
      if r.Some? && !opens {
        session := None;
        r := None;
      }
    }
  }

  predicate Usable(session: Option<Sid>, closed: set<Sid>) { session.Some? && session.value !in closed }

  // ------------------------------------------------------- interleaved dial calls

  /** One dial call: before getSession, dialling with the lock held, holding a session it is
      about to open a stream on, about to clear the cache, and its two ends. */
  datatype Pc = Start | Dialling | Holding(sid: Sid) | Clearing | Returned(sid: Sid) | Failed

  /** `replaced` and `cleared` record why cached sessions left the cache: overwritten by a new
      one, or thrown out after a failed Open. */
  datatype State = State(
    session: Option<Sid>, lock: Option<nat>, calls: seq<Pc>,
    established: nat, closed: set<Sid>, failedOpens: nat,
    replaced: set<Sid>, cleared: nat)

  datatype Step =
    | NewCall
    | Enter(p: nat)
    | Dialled(p: nat, ok: bool)
    | Open(p: nat, ok: bool)
    | Clear(p: nat)
    | Closes(sid: Sid)

  const INIT: State := State(None, None, [], 0, {}, 0, {}, 0)

  function Apply(s: State, x: Step): Option<State> {
    match x
    case NewCall => Some(s.(calls := s.calls + [Start]))
    case Enter(p) =>
      if p >= |s.calls| || !s.calls[p].Start? || s.lock.Some? then None
      else if Usable(s.session, s.closed) then Some(s.(calls := s.calls[p := Holding(s.session.value)]))
      else Some(s.(calls := s.calls[p := Dialling], lock := Some(p)))
    case Dialled(p, ok) =>
      if p >= |s.calls| || !s.calls[p].Dialling? then None
      else if !ok then Some(s.(calls := s.calls[p := Failed], lock := None))
      else Some(s.(calls := s.calls[p := Holding(s.established)], lock := None,
                   session := Some(s.established), established := s.established + 1,
                   replaced := s.replaced + if s.session.Some? then {s.session.value} else {}))
    case Open(p, ok) =>
      if p >= |s.calls| || !s.calls[p].Holding? then None
      else if ok then Some(s.(calls := s.calls[p := Returned(s.calls[p].sid)]))
      else Some(s.(calls := s.calls[p := Clearing], failedOpens := s.failedOpens + 1))
    case Clear(p) =>
      if p >= |s.calls| || !s.calls[p].Clearing? || s.lock.Some? then None
      else Some(s.(calls := s.calls[p := Failed], session := None,
                   cleared := s.cleared + if s.session.Some? then 1 else 0))
    case Closes(sid) => if sid < s.established then Some(s.(closed := s.closed + {sid})) else None
  }

  function Exec(steps: seq<Step>): Option<State> {
    if steps == [] then Some(INIT)
    else match Exec(steps[..|steps| - 1])
      case None => None
      case Some(s) => Apply(s, steps[|steps| - 1])
  }

  function Pending(calls: seq<Pc>): nat {
    if calls == [] then 0 else (if calls[0].Clearing? then 1 else 0) + Pending(calls[1..])
  }

  lemma {:induction false} PendingUpdate(calls: seq<Pc>, p: nat, c: Pc)
    requires p < |calls|
    ensures Pending(calls[p := c]) + (if calls[p].Clearing? then 1 else 0)
            == Pending(calls) + if c.Clearing? then 1 else 0
  {
    if p == 0 {
      assert calls[p := c][1..] == calls[1..];
    } else {
      PendingUpdate(calls[1..], p - 1, c);
      assert calls[p := c][1..] == calls[1..][p - 1 := c];
    }
  }

  lemma {:induction false} PendingAppend(calls: seq<Pc>)
    ensures Pending(calls + [Start]) == Pending(calls)
  {
    if calls == [] {
      assert calls + [Start] == [Start];
    } else {
      assert (calls + [Start])[1..] == calls[1..] + [Start];
      PendingAppend(calls[1..]);
    }
  }

  /** Only the holder of the lock dials, and then what is cached, if anything, is closed. */
  predicate LockInv(s: State) {
    && (forall p | 0 <= p < |s.calls| :: s.calls[p].Dialling? <==> s.lock == Some(p))
    && (s.lock.Some? ==> s.lock.value < |s.calls|)
    && (s.lock.Some? ==> !Usable(s.session, s.closed))
  }

  /** Every session established is cached, was replaced after it closed, or was cleared. */
  predicate CountInv(s: State) {
    && s.established == |s.replaced| + s.cleared + (if s.session.Some? then 1 else 0)
    && s.replaced <= s.closed
    && (forall x | x in s.closed :: x < s.established)
    && (s.session.Some? ==> s.session.value < s.established && s.session.value !in s.replaced)
    && s.cleared + Pending(s.calls) <= s.failedOpens
  }

  predicate HeldInv(s: State) {
    forall p | 0 <= p < |s.calls| :: s.calls[p].Holding? || s.calls[p].Returned? ==> s.calls[p].sid < s.established
  }

  lemma LockStep(s: State, x: Step)
    requires LockInv(s) && Apply(s, x).Some?
    ensures LockInv(Apply(s, x).value)
  {
  }

  lemma HeldStep(s: State, x: Step)
    requires HeldInv(s) && (s.session.Some? ==> s.session.value < s.established) && Apply(s, x).Some?
    ensures HeldInv(Apply(s, x).value)
  {
  }

  lemma PendingStep(s: State, x: Step)
    requires Apply(s, x).Some?
    ensures var t := Apply(s, x).value;
            Pending(t.calls) + s.failedOpens == Pending(s.calls) + t.failedOpens - if x.Clear? then 1 else 0
  {
    hide Pending;
    match x
    case NewCall => PendingAppend(s.calls);
    case Enter(p) =>
      PendingUpdate(s.calls, p, if Usable(s.session, s.closed) then Holding(s.session.value) else Dialling);
    case Dialled(p, ok) => PendingUpdate(s.calls, p, if ok then Holding(s.established) else Failed);
    case Open(p, ok) => PendingUpdate(s.calls, p, if ok then Returned(s.calls[p].sid) else Clearing);
    case Clear(p) => PendingUpdate(s.calls, p, Failed);
    case Closes(_) =>
  }

  lemma InvStep(s: State, x: Step)
    requires LockInv(s) && CountInv(s) && HeldInv(s) && Apply(s, x).Some?
    ensures LockInv(Apply(s, x).value) && CountInv(Apply(s, x).value) && HeldInv(Apply(s, x).value)
  {
    LockStep(s, x);
    HeldStep(s, x);
    PendingStep(s, x);
    CountStep(s, x);
  }

  lemma CountStep(s: State, x: Step)
    requires CountInv(s) && Apply(s, x).Some?
    requires x.Dialled? ==> !Usable(s.session, s.closed)
    requires var t := Apply(s, x).value;
             Pending(t.calls) + s.failedOpens == Pending(s.calls) + t.failedOpens - if x.Clear? then 1 else 0
    ensures CountInv(Apply(s, x).value)
  {
    hide Pending;
    match x
    case Dialled(p, ok) => if s.session.Some? { assert s.session.value !in s.replaced; }
    case _ =>
  }

  lemma {:induction false} InvRun(steps: seq<Step>)
    requires Exec(steps).Some?
    ensures var s := Exec(steps).value; LockInv(s) && CountInv(s) && HeldInv(s)
  {
    if steps != [] {
      InvRun(steps[..|steps| - 1]);
      InvStep(Exec(steps[..|steps| - 1]).value, steps[|steps| - 1]);
    }
  }

  lemma {:induction false} SubsetSize(a: set<Sid>, b: set<Sid>)
    requires a <= b
    ensures |a| <= |b|
  {
    if a != {} {
      var x :| x in a;
      SubsetSize(a - {x}, b - {x});
    }
  }

  // ------------------------------------------------------------------ theorems

  /** Over every interleaving: sessions established are at most one more than the sessions that
      closed and the Opens that failed. */
  lemma SessionsAreBounded(steps: seq<Step>)
    requires Exec(steps).Some?
    ensures var s := Exec(steps).value; s.established <= 1 + |s.closed| + s.failedOpens
  {
    InvRun(steps);
    var s := Exec(steps).value;
    SubsetSize(s.replaced, s.closed);
  }

  /** A run in which no session closes and no Open fails uses one session for everything. */
  lemma QuietRunsShareOneSession(steps: seq<Step>)
    requires Exec(steps).Some?
    requires Exec(steps).value.closed == {} && Exec(steps).value.failedOpens == 0
    ensures var s := Exec(steps).value;
            && s.established <= 1
            && forall p | 0 <= p < |s.calls| :: s.calls[p].Holding? || s.calls[p].Returned? ==> s.calls[p].sid == 0
  {
    InvRun(steps);
    SessionsAreBounded(steps);
  }

  /** At most one call dials at any time. */
  lemma OneDiallerAtATime(steps: seq<Step>, p: nat, q: nat)
    requires Exec(steps).Some?
    requires p < |Exec(steps).value.calls| && q < |Exec(steps).value.calls|
    requires Exec(steps).value.calls[p].Dialling? && Exec(steps).value.calls[q].Dialling?
    ensures p == q
  {
    InvRun(steps);
  }

  lemma Then(steps: seq<Step>, x: Step, s: State) returns (longer: seq<Step>)
    requires Exec(steps).Some? && Apply(Exec(steps).value, x) == Some(s)
    ensures longer == steps + [x] && Exec(longer) == Some(s)
  {
    longer := steps + [x];
    assert longer[..|longer| - 1] == steps;
  }

  /** The lock is always held by a dialling call, and however its dial ends, it gives the lock back. */
  lemma LockIsGivenBack(steps: seq<Step>, ok: bool)
    requires Exec(steps).Some? && Exec(steps).value.lock.Some?
    ensures var s := Exec(steps).value;
            && s.lock.value < |s.calls| && s.calls[s.lock.value] == Dialling
            && Apply(s, Dialled(s.lock.value, ok)).Some?
            && Apply(s, Dialled(s.lock.value, ok)).value.lock == None
            && Apply(s, Dialled(s.lock.value, ok)).value.calls[s.lock.value] ==
               if ok then Holding(s.established) else Failed
  {
    InvRun(steps);
  }

  /** No call is ever stuck: in every reachable state a call that has not ended can take a step of
      its own, or waits for the lock while its holder can take one. */
  lemma NoDeadlock(steps: seq<Step>, p: nat) returns (x: Step)
    requires Exec(steps).Some? && p < |Exec(steps).value.calls|
    requires !Exec(steps).value.calls[p].Returned? && !Exec(steps).value.calls[p].Failed?
    ensures Apply(Exec(steps).value, x).Some?
    ensures x in {Enter(p), Dialled(p, true), Open(p, true), Clear(p)}
            || (Exec(steps).value.lock.Some? && x == Dialled(Exec(steps).value.lock.value, true))
  {
    InvRun(steps);
    var s := Exec(steps).value;
    if s.calls[p].Holding? {
      x := Open(p, true);
    } else if s.lock.Some? {
      x := Dialled(s.lock.value, true);
    } else {
      x := if s.calls[p].Start? then Enter(p) else Clear(p);
    }
  }

  /** How calls end: one has returned a session exactly when its Open worked, and has failed exactly
      when its dial failed or it has cleared the cache, which only a failed Open makes it do. */
  lemma {:induction false} CallsEndAsTheyShould(steps: seq<Step>, p: nat)
    requires Exec(steps).Some?
    ensures var calls := Exec(steps).value.calls;
            && ((p < |calls| && calls[p].Returned?) <==> Open(p, true) in steps)
            && ((p < |calls| && calls[p].Failed?) <==> Dialled(p, false) in steps || Clear(p) in steps)
            && ((p < |calls| && calls[p].Clearing?) || Clear(p) in steps <==> Open(p, false) in steps)
  {
    if steps != [] {
      var before, x := steps[..|steps| - 1], steps[|steps| - 1];
      CallsEndAsTheyShould(before, p);
      assert steps == before + [x];
      CallStep(Exec(before).value, x, p);
      hide Exec, Apply;
      assert forall y :: y in steps <==> y in before || y == x;
    }
  }

  lemma CallStep(s: State, x: Step, p: nat)
    requires Apply(s, x).Some?
    ensures var c := if p < |s.calls| then Some(s.calls[p]) else None;
            var t := Apply(s, x).value.calls;
            var d := if p < |t| then Some(t[p]) else None;
            && (d.Some? && d.value.Returned? <==> (c.Some? && c.value.Returned?) || x == Open(p, true))
            && (d.Some? && d.value.Failed? <==> (c.Some? && c.value.Failed?) || x == Dialled(p, false) || x == Clear(p))
            && (d.Some? && d.value.Clearing? <==>
                  (c.Some? && c.value.Clearing? && x != Clear(p)) || x == Open(p, false))
  {
  }

  predicate HasSession(c: Pc) { c.Holding? || c.Returned? }

  /** In step x from s, call p gets session sid: it observes it cached and not closed, or it has
      just dialled it. */
  predicate Gets(s: State, x: Step, p: nat, sid: Sid) {
    || (x == Enter(p) && s.session == Some(sid) && sid !in s.closed)
    || (x == Dialled(p, true) && sid == s.established)
  }

  lemma HoldingStep(s: State, x: Step, p: nat)
    requires Apply(s, x).Some? && p < |Apply(s, x).value.calls| && HasSession(Apply(s, x).value.calls[p])
    ensures var t := Apply(s, x).value;
            if p < |s.calls| && HasSession(s.calls[p]) then t.calls[p].sid == s.calls[p].sid
            else Gets(s, x, p, t.calls[p].sid) && t.session == Some(t.calls[p].sid)
  {
  }

  /** A session that a call holds or has returned was cached when the call got it, and then it was
      either observed not closed or just dialled by this call, in every interleaving. */
  lemma HeldWasUsable(steps: seq<Step>, p: nat) returns (i: nat)
    requires Exec(steps).Some? && p < |Exec(steps).value.calls|
    requires Exec(steps).value.calls[p].Holding? || Exec(steps).value.calls[p].Returned?
    ensures i < |steps| && Exec(steps[..i]).Some? && Exec(steps[..i + 1]).Some?
    ensures var s, sid := Exec(steps[..i]).value, Exec(steps).value.calls[p].sid;
            && Exec(steps[..i + 1]).value.session == Some(sid)
            && ((steps[i] == Enter(p) && s.session == Some(sid) && sid !in s.closed)
                || (steps[i] == Dialled(p, true) && sid == s.established))
  {
    hide Exec;
    i := GotWhen(steps, p);
  }

  lemma {:induction false} GotWhen(steps: seq<Step>, p: nat) returns (i: nat)
    requires Exec(steps).Some? && p < |Exec(steps).value.calls| && HasSession(Exec(steps).value.calls[p])
    ensures i < |steps| && Exec(steps[..i]).Some? && Exec(steps[..i + 1]).Some?
    ensures var sid := Exec(steps).value.calls[p].sid;
            Gets(Exec(steps[..i]).value, steps[i], p, sid) && Exec(steps[..i + 1]).value.session == Some(sid)
  {
    i := |steps| - 1;
    var before := steps[..i];
    var s := Exec(before).value;
    assert steps[..i + 1] == steps;
    HoldingStep(s, steps[i], p);
    if p < |s.calls| && HasSession(s.calls[p]) {
      hide Exec, Apply, Gets;
      i := GotWhen(before, p);
      assert before[..i] == steps[..i] && before[..i + 1] == steps[..i + 1];
    }
  }

  /** The bound is exact: for all m and n there is a run with m closed sessions and n failed
      Opens that establishes 1 + m + n of them, so n + 1 are open at once. Each failed Open throws
      out a session that other calls still use, and each close makes the next call dial. */
  lemma {:induction false} BoundIsTight(m: nat, n: nat) returns (steps: seq<Step>)
    ensures Exec(steps).Some?
    ensures var s := Exec(steps).value;
            && |s.closed| == m && s.failedOpens == n && s.established == 1 + m + n
            && s.session == Some(m + n) && m + n !in s.closed && s.lock == None
    decreases m + n
  {
    hide Exec;
    if m + n == 0 {
      EmptyRun();
      steps := OneMoreSession([], INIT);
    } else if m > 0 {
      steps := BoundIsTight(m - 1, n);
      var s := Exec(steps).value;
      s := s.(closed := s.closed + {m - 1 + n});
      steps := Then(steps, Closes(m - 1 + n), s);
      steps := OneMoreSession(steps, s);
    } else {
      steps := BoundIsTight(m, n - 1);
      steps := OneFailedOpen(steps, Exec(steps).value);
      steps := OneMoreSession(steps, Exec(steps).value);
    }
  }

  /** A call whose Open fails throws the cached session out. */
  lemma OneFailedOpen(steps: seq<Step>, s: State) returns (longer: seq<Step>)
    requires Exec(steps) == Some(s) && Usable(s.session, s.closed) && s.lock == None
    ensures Exec(longer).Some?
    ensures var t := Exec(longer).value;
            && t.closed == s.closed && t.failedOpens == s.failedOpens + 1 && t.established == s.established
            && t.session == None && t.lock == None
  {
    hide Exec;
    var p := |s.calls|;
    var t := s.(calls := s.calls + [Start]);
    longer := Then(steps, NewCall, t);
    t := t.(calls := t.calls[p := Holding(s.session.value)]);
    longer := Then(longer, Enter(p), t);
    t := t.(calls := t.calls[p := Clearing], failedOpens := t.failedOpens + 1);
    longer := Then(longer, Open(p, false), t);
    t := t.(calls := t.calls[p := Failed], session := None, cleared := t.cleared + 1);
    longer := Then(longer, Clear(p), t);
  }

  /** A call that finds nothing usable dials a session. */
  lemma OneMoreSession(steps: seq<Step>, s: State) returns (longer: seq<Step>)
    requires Exec(steps) == Some(s) && !Usable(s.session, s.closed) && s.lock == None
    ensures Exec(longer).Some?
    ensures var t := Exec(longer).value;
            && t.closed == s.closed && t.failedOpens == s.failedOpens && t.established == s.established + 1
            && t.session == Some(s.established) && s.established !in t.closed && t.lock == None
  {
    hide Exec;
    InvRun(steps);
    var p := |s.calls|;
    var t := s.(calls := s.calls + [Start]);
    longer := Then(steps, NewCall, t);
    t := t.(calls := t.calls[p := Dialling], lock := Some(p));
    longer := Then(longer, Enter(p), t);
    t := t.(calls := t.calls[p := Holding(t.established)], lock := None, session := Some(t.established),
            established := t.established + 1,
            replaced := t.replaced + if t.session.Some? then {t.session.value} else {});
    longer := Then(longer, Dialled(p, true), t);
  }

  lemma EmptyRun()
    ensures Exec([]) == Some(INIT)
  {
  }
}
