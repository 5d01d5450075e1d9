/** internal/alert/hedge.go. One Send runs a launch loop and then a drain loop, while every attempt
    is a goroutine that calls the downstream dispatcher and puts its result in a channel of capacity
    MaxHedges + 1. Attempt k returns out(k); the scheduler is arbitrary. */
module Hedge {
  import opened Common
  import Machine

  datatype Attempt = Calling | Ready | Sent

  /** Where the caller's code stands. Launching and Draining carry the loop counter. */
  datatype Pc =
    | Launching(i: nat)
    | Draining(i: nat, lastErr: Option<string>)
    | Returned(result: Outcome)
    | Aborted

  /** queue holds, oldest first, the attempts whose results are in the channel. taken and early are
      history variables: the attempts whose results were received, and how many of them by the
      launch loop. */
  datatype State = State(attempts: seq<Attempt>, queue: seq<nat>, pc: Pc, taken: seq<nat>, early: nat)

  datatype Event =
    | Finish(k: nat)   // attempt k's downstream call returns
    | Deliver(k: nat)  // attempt k's goroutine writes to the channel
    | Timer            // the hedge delay elapses
    | Cancel           // the context is done
    | Receive          // the caller reads the channel

  /** MaxHedges as NewHedgeDispatcher stores it. */
  function Normalize(maxHedges: int): (m: nat)
    ensures m >= 1 && (maxHedges >= 1 ==> m == maxHedges) && (maxHedges < 1 ==> m == 1)
  {
    if maxHedges < 1 then 1 else maxHedges
  }

  const START := State([Calling], [], Launching(0), [], 0)

  function LoopAt(m: nat, i: nat): Pc {
    if i < m then Launching(i) else Draining(0, None)
  }

  function DrainAt(m: nat, i: nat, lastErr: Option<string>): Pc {
    if i < m + 1 then Draining(i, lastErr)
    else Returned(if lastErr.None? then Success else Failure(lastErr.value))
  }

  function AfterReceive(m: nat, pc: Pc, r: Outcome): Pc
    requires pc.Launching? || pc.Draining?
  {
    match r
    case Success => Returned(Success)
    case Failure(e) => if pc.Launching? then LoopAt(m, pc.i + 1) else DrainAt(m, pc.i + 1, Some(e))
  }

  function Next(m: nat, out: nat -> Outcome, s: State, e: Event): Option<State> {
    match e
    case Finish(k) =>
      if k < |s.attempts| && s.attempts[k] == Calling
      then Some(s.(attempts := s.attempts[k := Ready])) else None
    case Deliver(k) =>
      if k < |s.attempts| && s.attempts[k] == Ready && |s.queue| < m + 1
      then Some(s.(attempts := s.attempts[k := Sent], queue := s.queue + [k])) else None
    case Timer =>
      if s.pc.Launching?
      then Some(s.(attempts := s.attempts + [Calling], pc := LoopAt(m, s.pc.i + 1))) else None
    case Cancel =>
      if s.pc.Launching? then Some(s.(pc := Aborted)) else None
    case Receive =>
      if (s.pc.Launching? || s.pc.Draining?) && s.queue != []
      then Some(s.(queue := s.queue[1..],
                   taken := s.taken + [s.queue[0]],
                   early := s.early + (if s.pc.Launching? then 1 else 0),
                   pc := AfterReceive(m, s.pc, out(s.queue[0]))))
      else None
  }

  function Step(m: nat, out: nat -> Outcome): (State, Event) -> Option<State> {
    (s, e) => Next(m, out, s, e)
  }

  ghost predicate Reachable(m: nat, out: nat -> Outcome, s: State) {
    Machine.Reaches(Step(m, out), START, s)
  }

  ghost predicate AllTakenFailed(out: nat -> Outcome, s: State) {
    forall k :: k in s.taken ==> out(k).Failure?
  }

  /** The last received result is the error e. */
  ghost predicate LastTaken(out: nat -> Outcome, s: State, e: Option<string>) {
    s.taken != [] && e.Some? && out(s.taken[|s.taken| - 1]) == Failure(e.value)
  }

  /** The channel and the received results together are exactly the attempts that have sent. */
  ghost predicate ChannelInv(s: State) {
    && |s.queue| + |s.taken| == Count(s.attempts, Sent)
    && (forall k :: k in s.queue || k in s.taken ==> k < |s.attempts| && s.attempts[k] == Sent)
    && (forall k :: 0 <= k < |s.attempts| && s.attempts[k] == Sent ==> k in s.queue || k in s.taken)
  }

  ghost predicate CallerInv(m: nat, out: nat -> Outcome, s: State) {
    match s.pc
    case Launching(i) =>
      i < m && AllTakenFailed(out, s) && |s.taken| == s.early && |s.attempts| + s.early == 1 + i
    case Draining(i, lastErr) =>
      && i < m + 1 && AllTakenFailed(out, s)
      && |s.taken| == s.early + i && |s.attempts| + s.early == m + 1
      && (if i == 0 then lastErr == None else LastTaken(out, s, lastErr))
    case Returned(Success) =>
      s.taken != [] && out(s.taken[|s.taken| - 1]).Success?
    case Returned(Failure(e)) =>
      && AllTakenFailed(out, s) && LastTaken(out, s, Some(e))
      && |s.taken| == s.early + m + 1 && |s.attempts| + s.early == m + 1
    case Aborted => AllTakenFailed(out, s) && |s.taken| == s.early && |s.attempts| + s.early <= m
  }

  ghost predicate Inv(m: nat, out: nat -> Outcome, s: State) {
    1 <= |s.attempts| <= m + 1 && ChannelInv(s) && CallerInv(m, out, s)
  }

  lemma ChannelStep(m: nat, out: nat -> Outcome, s: State, e: Event)
    requires ChannelInv(s) && Next(m, out, s, e).Some?
    ensures ChannelInv(Next(m, out, s, e).value)
  {
    var t := Next(m, out, s, e).value;
    match e
    case Finish(k) => CountUpdate(s.attempts, k, Ready, Sent);
    case Deliver(k) => CountUpdate(s.attempts, k, Sent, Sent);
    case Timer => CountConcat(s.attempts, [Calling], Sent);
    case Cancel =>
    case Receive =>
      assert s.queue == [s.queue[0]] + s.queue[1..];
      assert forall k :: k in s.queue || k in s.taken <==> k in t.queue || k in t.taken;
  }

  lemma CallerStep(m: nat, out: nat -> Outcome, s: State, e: Event)
    requires Inv(m, out, s) && Next(m, out, s, e).Some?
    ensures CallerInv(m, out, Next(m, out, s, e).value)
  {
    var t := Next(m, out, s, e).value;
    match e
    case Finish(k) => assert t.taken == s.taken && |t.attempts| == |s.attempts|;
    case Deliver(k) => assert t.taken == s.taken && |t.attempts| == |s.attempts|;
    case Timer => assert t.taken == s.taken;
    case Cancel =>
    case Receive =>
      CountFull(s.attempts, Sent);
      assert t.taken[|t.taken| - 1] == s.queue[0];
  }

  lemma InvPreserved(m: nat, out: nat -> Outcome)
    ensures Machine.Preserved(Step(m, out), s => Inv(m, out, s))
  {
    forall s, e | Inv(m, out, s) && Next(m, out, s, e).Some?
      ensures Inv(m, out, Next(m, out, s, e).value)
    {
      ChannelStep(m, out, s, e);
      CallerStep(m, out, s, e);
    }
  }

  lemma ReachableInv(m: nat, out: nat -> Outcome, s: State)
    requires m >= 1 && Reachable(m, out, s)
    ensures Inv(m, out, s)
  {
    var schedule :| Machine.Exec(Step(m, out), START, schedule) == Some(s);
    InvPreserved(m, out);
    Machine.AlwaysHolds(Step(m, out), t => Inv(m, out, t), START, schedule);
  }

  /** Over every schedule: at most MaxHedges + 1 attempts start, a goroutine with a result always
      finds room in the channel, and nil is returned only when some attempt returned nil. */
  lemma Safety(m: nat, out: nat -> Outcome, s: State)
    requires m >= 1 && Reachable(m, out, s)
    ensures |s.attempts| <= m + 1
    ensures forall k :: 0 <= k < |s.attempts| && s.attempts[k] == Ready ==> Next(m, out, s, Deliver(k)).Some?
    ensures s.pc == Returned(Success) ==>
              exists k :: 0 <= k < |s.attempts| && s.attempts[k] == Sent && out(k).Success?
  {
    ReachableInv(m, out, s);
    CountFull(s.attempts, Sent);
    if s.pc == Returned(Success) {
      assert s.taken[|s.taken| - 1] in s.taken;
    }
  }

  /** Entering the drain, the attempts launched plus the results already consumed by the launch loop
      make MaxHedges + 1; so the drain waits for `early` results that cannot come. */
  lemma DrainEntry(m: nat, out: nat -> Outcome, s: State)
    requires m >= 1 && Reachable(m, out, s) && s.pc.Draining? && s.pc.i == 0
    ensures |s.attempts| + |s.taken| == m + 1
    ensures |s.attempts| - |s.taken| == m + 1 - 2 * s.early
  {
    ReachableInv(m, out, s);
  }

  // ---- What each event does ----------------------------------------------------------------

  /** In the launch loop, and only there, a done context ends the call at once with the context's error:
      nothing is launched, received or delivered by it. */
  lemma CancelExactly(m: nat, out: nat -> Outcome, s: State)
    ensures Next(m, out, s, Cancel).Some? <==> s.pc.Launching?
    ensures s.pc.Launching? ==> Next(m, out, s, Cancel) == Some(s.(pc := Aborted))
  {
  }

  /** In the launch loop, and only there, the timer launches exactly one more attempt and uses up one turn
      of the loop. */
  lemma TimerExactly(m: nat, out: nat -> Outcome, s: State)
    requires m >= 1 && Reachable(m, out, s)
    ensures Next(m, out, s, Timer).Some? <==> s.pc.Launching?
    ensures s.pc.Launching? ==>
              var t := Next(m, out, s, Timer).value;
              && t.attempts == s.attempts + [Calling] && t.queue == s.queue && t.taken == s.taken
              && t.early == s.early && (t.pc.Launching? <==> |t.attempts| + s.early <= m)
              && (!t.pc.Launching? ==> t.pc.Draining?)
  {
    ReachableInv(m, out, s);
  }

  /** In both loops the caller takes the oldest result as soon as there is one, and returns nil at once
      when it is a success. Nothing is received outside the loops. */
  lemma ReceiveExactly(m: nat, out: nat -> Outcome, s: State)
    requires m >= 1 && Reachable(m, out, s)
    ensures Next(m, out, s, Receive).Some? <==> (s.pc.Launching? || s.pc.Draining?) && s.queue != []
    ensures Next(m, out, s, Receive).Some? ==>
              var t := Next(m, out, s, Receive).value;
              && t.attempts == s.attempts && s.queue == [t.taken[|s.taken|]] + t.queue
              && t.taken[..|s.taken|] == s.taken && |t.taken| == |s.taken| + 1
              && t.early == s.early + (if s.pc.Launching? then 1 else 0)
              && (t.pc == Returned(Success) <==> out(s.queue[0]).Success?)
  {
    ReachableInv(m, out, s);
  }

  /** Each attempt can finish its call and then put its result in the channel, in every state that can be
      reached, also after the call has returned or was cancelled; that changes nothing for the caller. */
  lemma AttemptsFinish(m: nat, out: nat -> Outcome, s: State, k: nat)
    requires m >= 1 && Reachable(m, out, s) && k < |s.attempts|
    ensures Next(m, out, s, Finish(k)) ==
            if s.attempts[k] == Calling then Some(s.(attempts := s.attempts[k := Ready])) else None
    ensures Next(m, out, s, Deliver(k)) ==
            if s.attempts[k] == Ready then Some(s.(attempts := s.attempts[k := Sent], queue := s.queue + [k]))
            else None
  {
    Safety(m, out, s);
  }

  /** A call ends with the context's error if and only if its context was done while it was launching.
      Every run launches one attempt and then one per timer event, and receives once per receive event. */
  lemma {:induction false} RunCounts(m: nat, out: nat -> Outcome, s: State, run: seq<Event>, t: State)
    requires Machine.Exec(Step(m, out), s, run) == Some(t)
    ensures t.pc.Aborted? <==> s.pc.Aborted? || Cancel in run
    ensures |t.attempts| == |s.attempts| + Count(run, Timer)
    ensures |t.taken| == |s.taken| + Count(run, Receive)
    ensures Count(run, Cancel) <= 1
    decreases |run|
  {
    if run != [] {
      var u := Next(m, out, s, run[0]).value;
      RunCounts(m, out, u, run[1..], t);
      if run[0] == Cancel {
        AbortedStays(m, out, u, run[1..], t);
      }
    }
  }

  lemma {:induction false} AbortedStays(m: nat, out: nat -> Outcome, s: State, run: seq<Event>, t: State)
    requires Machine.Exec(Step(m, out), s, run) == Some(t) && s.pc.Aborted?
    ensures t.pc.Aborted? && t.taken == s.taken && |t.attempts| == |s.attempts|
    ensures Cancel !in run && Timer !in run && Receive !in run && Count(run, Cancel) == 0
    decreases |run|
  {
    if run != [] {
      AbortedStays(m, out, Next(m, out, s, run[0]).value, run[1..], t);
    }
  }

  /** From the first attempt on: the call is aborted if and only if a Cancel was taken, and after that no
      attempt is launched and no result is received. */
  lemma AbortedExactly(m: nat, out: nat -> Outcome, run: seq<Event>)
    requires m >= 1 && Machine.Exec(Step(m, out), START, run).Some?
    ensures
      var t := Machine.Exec(Step(m, out), START, run).value;
      && (t.pc.Aborted? <==> Cancel in run)
      && |t.attempts| == 1 + Count(run, Timer) && |t.taken| == Count(run, Receive)
      && (t.pc.Aborted? ==> Count(run, Timer) + Count(run, Receive) < m && AllTakenFailed(out, t))
  {
    var t := Machine.Exec(Step(m, out), START, run).value;
    RunCounts(m, out, START, run, t);
    ReachableInv(m, out, t);
  }

  function Weight(a: Attempt): nat {
    match a case Calling => 3 case Ready => 2 case Sent => 0
  }

  function Weights(s: seq<Attempt>): nat {
    if s == [] then 0 else Weight(s[0]) + Weights(s[1..])
  }

  lemma {:induction false} WeightsUpdate(s: seq<Attempt>, k: nat, a: Attempt)
    requires k < |s|
    ensures Weights(s[k := a]) == Weights(s) - Weight(s[k]) + Weight(a)
  {
    if k == 0 {
      assert s[k := a][1..] == s[1..];
    } else {
      WeightsUpdate(s[1..], k - 1, a);
      assert s[k := a][1..] == s[1..][k - 1 := a];
    }
  }

  lemma {:induction false} WeightsAppend(s: seq<Attempt>, a: Attempt)
    ensures Weights(s + [a]) == Weights(s) + Weight(a)
  {
    if s != [] {
      WeightsAppend(s[1..], a);
      assert (s + [a])[1..] == s[1..] + [a];
    }
  }

  function Measure(m: nat, s: State): int {
    (if s.pc.Launching? && s.pc.i <= m then 4 * (m - s.pc.i) else 0) + Weights(s.attempts) + |s.queue|
  }

  lemma MeasureDrops(m: nat, out: nat -> Outcome, s: State, e: Event)
    requires Inv(m, out, s) && Next(m, out, s, e).Some?
    ensures 0 <= Measure(m, Next(m, out, s, e).value) < Measure(m, s)
  {
    match e
    case Finish(k) => WeightsUpdate(s.attempts, k, Ready);
    case Deliver(k) => WeightsUpdate(s.attempts, k, Sent);
    case Timer => WeightsAppend(s.attempts, Calling);
    case Cancel =>
    case Receive =>
  }

  /** Every run is finite, however it is scheduled: at most 4 * MaxHedges + 3 steps. */
  lemma RunsEnd(m: nat, out: nat -> Outcome, schedule: seq<Event>)
    requires m >= 1 && Machine.Exec(Step(m, out), START, schedule).Some?
    ensures |schedule| <= 4 * m + 3
  {
    forall s, e | Inv(m, out, s) && Next(m, out, s, e).Some?
      ensures 0 <= Measure(m, Next(m, out, s, e).value) < Measure(m, s)
    {
      MeasureDrops(m, out, s, e);
    }
    InvPreserved(m, out);
    Machine.RunsAreBounded(Step(m, out), s => Inv(m, out, s), s => Measure(m, s), START, schedule);
    assert START.attempts[1..] == [];
  }

  ghost predicate AllFail(out: nat -> Outcome, s: State) {
    forall k :: 0 <= k < |s.attempts| ==> out(k).Failure?
  }

  /** How every run that was not cancelled ends. It returns nil exactly when some launched attempt
      returned nil. When all failed, it returns the last received error exactly when no failure was
      received in the launch loop, and otherwise stays in the drain with nothing left to wait for. */
  lemma FinalOutcome(m: nat, out: nat -> Outcome, s: State)
    requires m >= 1 && Reachable(m, out, s) && Machine.Quiescent(Step(m, out), s) && !s.pc.Aborted?
    ensures s.pc == Returned(Success) <==> !AllFail(out, s)
    ensures s.pc.Returned? && s.pc.result.Failure? <==> AllFail(out, s) && s.early == 0
    ensures s.pc.Draining? <==> AllFail(out, s) && s.early > 0
    ensures s.pc.Returned? && s.pc.result.Failure? ==>
              |s.attempts| == m + 1 && s.taken != [] && out(s.taken[|s.taken| - 1]) == s.pc.result
  {
    ReachableInv(m, out, s);
    CountFull(s.attempts, Sent);
    forall k | 0 <= k < |s.attempts| ensures s.attempts[k] == Sent {
      assert Step(m, out)(s, Finish(k)).None? && Step(m, out)(s, Deliver(k)).None?;
    }
    assert Step(m, out)(s, Timer).None? && Step(m, out)(s, Receive).None?;
    if s.pc.Returned? && s.pc.result.Success? {
      assert s.taken[|s.taken| - 1] in s.taken;
    }
  }

  /** In the drain after a failure consumed by the launch loop, with only failures to come. */
  ghost predicate Stuck(m: nat, out: nat -> Outcome, s: State) {
    Inv(m, out, s) && s.pc.Draining? && s.early > 0 && AllFail(out, s)
  }

  lemma StuckStays(m: nat, out: nat -> Outcome, s: State, e: Event)
    requires Stuck(m, out, s) && Next(m, out, s, e).Some?
    ensures Stuck(m, out, Next(m, out, s, e).value)
  {
    var t := Next(m, out, s, e).value;
    ChannelStep(m, out, s, e);
    CallerStep(m, out, s, e);
    CountFull(t.attempts, Sent);
  }

  /** Once the drain has begun after a failure consumed by the launch loop, and every launched
      attempt fails, no continuation of the run ever returns. */
  lemma DrainNeverReturns(m: nat, out: nat -> Outcome, s: State, schedule: seq<Event>)
    requires m >= 1 && Reachable(m, out, s) && s.pc.Draining? && s.early > 0 && AllFail(out, s)
    ensures Machine.Exec(Step(m, out), s, schedule).Some? ==>
              Machine.Exec(Step(m, out), s, schedule).value.pc.Draining?
  {
    ReachableInv(m, out, s);
    var stuck := (t: State) => Stuck(m, out, t);
    forall t, e | stuck(t) && Next(m, out, t, e).Some?
      ensures stuck(Next(m, out, t, e).value)
    {
      StuckStays(m, out, t, e);
    }
    Machine.AlwaysHolds(Step(m, out), stuck, s, schedule);
  }

  function AlwaysFails(e: string): nat -> Outcome {
    k => Failure(e)
  }

  /** The documented result for an all-failing send is not reached when the primary fails before the
      first hedge delay: with one hedge the caller waits for ever. */
  lemma AllFailCanHang(e: string) returns (s: State)
    ensures Reachable(1, AlwaysFails(e), s)
    ensures AllFail(AlwaysFails(e), s) && s.pc.Draining?
    ensures Machine.Quiescent(Step(1, AlwaysFails(e)), s)
  {
    var out := AlwaysFails(e);
    Machine.ReachSelf(Step(1, out), START);
    var s1 := Machine.ReachStep(Step(1, out), START, START, Finish(0));
    var s2 := Machine.ReachStep(Step(1, out), START, s1, Deliver(0));
    s := Machine.ReachStep(Step(1, out), START, s2, Receive);
    assert s.attempts == [Sent] && s.queue == [];
  }

}
