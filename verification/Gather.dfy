/** internal/alert/quorum.go: a send to all targets at once that returns as soon as the answer is
    settled. */
module Quorum {
  import opened Common
  import Machine

  /** Go's division by two truncates toward zero. */
  function DefaultRequired(total: int): int {
    (if total >= 0 then total / 2 else -(-total / 2)) + 1
  }

  predicate Validate(total: int, required: int) {
    total > 0 && 0 < required <= total
  }

  /** The default policy is valid exactly for a positive total, and requires the least strict
      majority. */
  lemma DefaultIsMajority(total: int)
    ensures Validate(total, DefaultRequired(total)) <==> total > 0
    ensures total > 0 ==> 2 * DefaultRequired(total) > total >= 2 * (DefaultRequired(total) - 1)
  {
  }

  lemma {:induction false} CountIsMultiplicity(s: seq<bool>, x: bool)
    ensures Count(s, x) == multiset(s)[x]
  {
    if s != [] {
      CountIsMultiplicity(s[1..], x);
      assert s == [s[0]] + s[1..];
    }
  }

  lemma {:induction false} CountBoth(s: seq<bool>)
    ensures Count(s, true) + Count(s, false) == |s|
  {
    if s != [] {
      CountBoth(s[1..]);
      assert s[0] == true || s[0] == false;
    }
  }

  /** The results received so far force the answer, whatever the missing ones are. */
  ghost predicate Settled(total: nat, required: nat, prefix: seq<bool>, answer: bool) {
    forall rest: seq<bool> :: |prefix| + |rest| == total ==> (Count(prefix + rest, true) >= required <==> answer)
  }

  lemma SettledBySuccesses(total: nat, required: nat, prefix: seq<bool>)
    requires Count(prefix, true) >= required
    ensures Settled(total, required, prefix, true)
  {
    forall rest: seq<bool> | |prefix| + |rest| == total ensures Count(prefix + rest, true) >= required {
      CountConcat(prefix, rest, true);
    }
  }

  lemma SettledByFailures(total: nat, required: nat, prefix: seq<bool>)
    requires Count(prefix, false) > total - required
    ensures Settled(total, required, prefix, false)
  {
    forall rest: seq<bool> | |prefix| + |rest| == total ensures Count(prefix + rest, true) < required {
      CountConcat(prefix, rest, false);
      CountBoth(prefix + rest);
    }
  }

  lemma {:induction false} AllEqual(n: nat, x: bool) returns (s: seq<bool>)
    ensures |s| == n && Count(s, x) == n && Count(s, !x) == 0
  {
    s := seq(n, _ => x);
    CountFull(s, x);
    CountNone(s, !x);
  }

  /** Below both thresholds either answer is still possible. */
  lemma Unsettled(total: nat, required: nat, prefix: seq<bool>, answer: bool)
    requires |prefix| <= total && required <= total
    requires Count(prefix, true) < required && Count(prefix, false) <= total - required
    ensures !Settled(total, required, prefix, answer)
  {
    var rest := AllEqual(total - |prefix|, !answer);
    CountConcat(prefix, rest, true);
    CountBoth(prefix);
    assert Count(prefix + rest, true) >= required <==> !answer;
  }

  lemma CountPrefix(s: seq<bool>, i: nat, x: bool)
    requires i < |s|
    ensures Count(s[..i + 1], x) == Count(s[..i], x) + (if s[i] == x then 1 else 0)
  {
    assert s[..i + 1] == s[..i] + [s[i]];
    CountConcat(s[..i], [s[i]], x);
  }

  /** While the counts stay below both thresholds, no prefix so far settles the answer. */
  lemma NothingSettledYet(total: nat, required: nat, arrivals: seq<bool>, i: nat)
    requires i < |arrivals| == total && required <= total
    requires Count(arrivals[..i], true) < required && Count(arrivals[..i], false) <= total - required
    ensures forall k, answer :: 0 <= k <= i ==> !Settled(total, required, arrivals[..k], answer)
  {
    forall k, answer | 0 <= k <= i ensures !Settled(total, required, arrivals[..k], answer) {
      assert arrivals[..i] == arrivals[..k] + arrivals[k..i];
      CountConcat(arrivals[..k], arrivals[k..i], true);
      CountConcat(arrivals[..k], arrivals[k..i], false);
      Unsettled(total, required, arrivals[..k], answer);
    }
  }

  /** The answer that settles a prefix is the answer for all the results. */
  lemma SettledIsFinal(total: nat, required: nat, arrivals: seq<bool>, i: nat, answer: bool)
    requires i <= |arrivals| == total && Settled(total, required, arrivals[..i], answer)
    ensures multiset(arrivals)[true] >= required <==> answer
  {
    assert arrivals == arrivals[..i] + arrivals[i..];
    CountIsMultiplicity(arrivals, true);
  }

  /** The receive loop of Send. arrivals[k] tells whether the k-th result to arrive is a success.
      Whatever the order, the answer is nil exactly when at least `required` targets succeed; the loop
      stops at the first prefix that settles it, so the return after the loop is never reached. */
  method Collect(total: nat, required: nat, arrivals: seq<bool>) returns (ok: bool, received: nat)
    requires Validate(total, required) && |arrivals| == total
    ensures ok <==> multiset(arrivals)[true] >= required
    ensures received <= total && Settled(total, required, arrivals[..received], ok)
    ensures forall k, answer :: 0 <= k < received ==> !Settled(total, required, arrivals[..k], answer)
  {
    ok, received := false, 0;
    var successes, failures := 0, 0;
    for i := 0 to |arrivals|
      invariant successes == Count(arrivals[..i], true) < required
      invariant failures == Count(arrivals[..i], false) <= total - required
    {
      NothingSettledYet(total, required, arrivals, i);
      CountPrefix(arrivals, i, true);
      CountPrefix(arrivals, i, false);
      if arrivals[i] {
        successes := successes + 1;
        if successes >= required {
          SettledBySuccesses(total, required, arrivals[..i + 1]);
          SettledIsFinal(total, required, arrivals, i + 1, true);
          return true, i + 1;
        }
      } else {
        failures := failures + 1;
        if failures > total - required {
          SettledByFailures(total, required, arrivals[..i + 1]);
          SettledIsFinal(total, required, arrivals, i + 1, false);
          return false, i + 1;
        }
      }
    }
    CountBoth(arrivals[..|arrivals|]);
    assert false;
  }

  // ---- The goroutines around the loop ------------------------------------------------------

  /** One target's goroutine: calling, result sent, or finished with wg.Done. */
  datatype Sender = Calling | Sent | Finished

  datatype Pc = Receiving(successes: nat, failures: nat) | Returned(ok: bool) | FellThrough

  /** taken is a history variable: the results received. */
  datatype State = State(senders: seq<Sender>, queue: seq<bool>, closed: bool, taken: seq<bool>, pc: Pc)

  datatype Event =
    | Deliver(i: nat)  // the target answers and its result enters the channel
    | Done(i: nat)     // wg.Done
    | Close            // wg.Wait returns and the channel is closed
    | Receive          // one turn of the loop
    | EndOfResults     // the channel is closed and empty

  function AfterReceive(total: nat, required: nat, pc: Pc, ok: bool): Pc
    requires pc.Receiving?
  {
    if ok then
      if pc.successes + 1 >= required then Returned(true) else Receiving(pc.successes + 1, pc.failures)
    else if pc.failures + 1 > total - required then Returned(false)
    else Receiving(pc.successes, pc.failures + 1)
  }

  /** outcome[i] tells whether target i succeeds. A send on a closed channel would panic; it has no
      successor here. */
  function Next(required: nat, outcome: seq<bool>, s: State, e: Event): Option<State>
  {
    match e
    case Deliver(i) =>
      if i < |s.senders| && i < |outcome| && s.senders[i] == Calling && |s.queue| < |outcome| && !s.closed
      then Some(s.(senders := s.senders[i := Sent], queue := s.queue + [outcome[i]])) else None
    case Done(i) =>
      if i < |s.senders| && s.senders[i] == Sent then Some(s.(senders := s.senders[i := Finished])) else None
    case Close =>
      if !s.closed && (forall i :: 0 <= i < |s.senders| ==> s.senders[i] == Finished)
      then Some(s.(closed := true)) else None
    case Receive =>
      if s.pc.Receiving? && s.queue != [] then
        Some(s.(queue := s.queue[1..], taken := s.taken + [s.queue[0]],
                pc := AfterReceive(|outcome|, required, s.pc, s.queue[0])))
      else None
    case EndOfResults =>
      if s.pc.Receiving? && s.queue == [] && s.closed then Some(s.(pc := FellThrough)) else None
  }

  function Step(required: nat, outcome: seq<bool>): (State, Event) -> Option<State> {
    (s, e) => Next(required, outcome, s, e)
  }

  function Start(total: nat): State {
    State(seq(total, _ => Calling), [], false, [], Receiving(0, 0))
  }

  ghost predicate Reachable(required: nat, outcome: seq<bool>, s: State) {
    Machine.Reaches(Step(required, outcome), Start(|outcome|), s)
  }

  /** Successes among the targets that have not answered. */
  function Awaited(senders: seq<Sender>, outcome: seq<bool>): nat
    requires |senders| == |outcome|
  {
    if senders == [] then 0
    else (if senders[0] == Calling && outcome[0] then 1 else 0) + Awaited(senders[1..], outcome[1..])
  }

  lemma {:induction false} AwaitedUpdate(senders: seq<Sender>, outcome: seq<bool>, i: nat, t: Sender)
    requires |senders| == |outcome| && i < |senders| && t != Calling
    ensures Awaited(senders[i := t], outcome) ==
            Awaited(senders, outcome) - (if senders[i] == Calling && outcome[i] then 1 else 0)
  {
    if i == 0 {
      assert senders[i := t][1..] == senders[1..];
    } else {
      AwaitedUpdate(senders[1..], outcome[1..], i - 1, t);
      assert senders[i := t][1..] == senders[1..][i - 1 := t];
    }
  }

  lemma {:induction false} AwaitedBound(senders: seq<Sender>, outcome: seq<bool>)
    requires |senders| == |outcome|
    ensures Awaited(senders, outcome) <= Count(senders, Calling)
    ensures (forall i :: 0 <= i < |senders| ==> senders[i] == Calling) ==>
              Awaited(senders, outcome) == Count(outcome, true)
  {
    if senders != [] {
      AwaitedBound(senders[1..], outcome[1..]);
    }
  }

  ghost predicate PcInv(required: nat, outcome: seq<bool>, s: State) {
    var good, bad := Count(s.taken, true), Count(s.taken, false);
    match s.pc
    case Receiving(successes, failures) =>
      successes == good < required && failures == bad <= |outcome| - required
    case Returned(ok) => if ok then good >= required else bad > |outcome| - required
    case FellThrough => false
  }

  ghost predicate Inv(required: nat, outcome: seq<bool>, s: State) {
    && |s.senders| == |outcome|
    && Count(s.senders, Calling) + |s.queue| + |s.taken| == |outcome|
    && Awaited(s.senders, outcome) + Count(s.queue, true) + Count(s.taken, true) == Count(outcome, true)
    && (s.closed ==> forall i :: 0 <= i < |s.senders| ==> s.senders[i] == Finished)
    && PcInv(required, outcome, s)
  }

  lemma ReceiveKeeps(required: nat, outcome: seq<bool>, s: State)
    requires Inv(required, outcome, s) && Next(required, outcome, s, Receive).Some?
    ensures Inv(required, outcome, Next(required, outcome, s, Receive).value)
  {
    var x := s.queue[0];
    assert s.queue == [x] + s.queue[1..];
    CountConcat([x], s.queue[1..], true);
    CountConcat(s.taken, [x], true);
    CountConcat(s.taken, [x], false);
  }

  lemma StepKeeps(required: nat, outcome: seq<bool>, s: State, e: Event)
    requires Validate(|outcome|, required) && Inv(required, outcome, s) && Next(required, outcome, s, e).Some?
    ensures Inv(required, outcome, Next(required, outcome, s, e).value)
  {
    match e
    case Deliver(i) =>
      CountUpdate(s.senders, i, Sent, Calling);
      AwaitedUpdate(s.senders, outcome, i, Sent);
      CountConcat(s.queue, [outcome[i]], true);
    case Done(i) =>
      CountUpdate(s.senders, i, Finished, Calling);
      AwaitedUpdate(s.senders, outcome, i, Finished);
    case Close =>
    case Receive => ReceiveKeeps(required, outcome, s);
    case EndOfResults =>
      CountNone(s.senders, Calling);
      CountBoth(s.taken);
      assert false;
  }

  lemma InvPreserved(required: nat, outcome: seq<bool>)
    requires Validate(|outcome|, required)
    ensures Machine.Preserved(Step(required, outcome), s => Inv(required, outcome, s))
    ensures Inv(required, outcome, Start(|outcome|))
  {
    forall t, e | Inv(required, outcome, t) && Next(required, outcome, t, e).Some?
      ensures Inv(required, outcome, Next(required, outcome, t, e).value)
    {
      StepKeeps(required, outcome, t, e);
    }
    CountFull(Start(|outcome|).senders, Calling);
    AwaitedBound(Start(|outcome|).senders, outcome);
  }

  lemma ReachableInv(required: nat, outcome: seq<bool>, s: State)
    requires Validate(|outcome|, required) && Reachable(required, outcome, s)
    ensures Inv(required, outcome, s)
  {
    var schedule :| Machine.Exec(Step(required, outcome), Start(|outcome|), schedule) == Some(s);
    InvPreserved(required, outcome);
    Machine.AlwaysHolds(Step(required, outcome), t => Inv(required, outcome, t), Start(|outcome|), schedule);
  }

  /** Over every schedule: a target that answers always finds room in an open channel, also after an
      early return; the error return after the loop is never reached; and what Send returned is right
      for the targets' outcomes. */
  lemma Safety(required: nat, outcome: seq<bool>, s: State)
    requires Validate(|outcome|, required) && Reachable(required, outcome, s)
    ensures |s.senders| == |outcome|
    ensures forall i :: 0 <= i < |outcome| && s.senders[i] == Calling ==>
              Next(required, outcome, s, Deliver(i)).Some?
    ensures !s.pc.FellThrough?
    ensures s.pc.Returned? ==> (s.pc.ok <==> Count(outcome, true) >= required)
  {
    ReachableInv(required, outcome, s);
    forall i | 0 <= i < |outcome| && s.senders[i] == Calling ensures Count(s.senders, Calling) > 0 {
      CountSome(s.senders, i);
    }
    AwaitedBound(s.senders, outcome);
    CountBoth(s.taken);
    CountBoth(s.queue);
  }

  /** The error return after the loop is where the caller would go from an empty, closed channel. */
  lemma EndExactly(required: nat, outcome: seq<bool>, s: State)
    ensures Next(required, outcome, s, EndOfResults) ==
            if s.pc.Receiving? && s.queue == [] && s.closed then Some(s.(pc := FellThrough)) else None
  {
  }

  function Measure(s: State): int {
    3 * Count(s.senders, Calling) + Count(s.senders, Sent) + |s.queue|
    + (if s.closed then 0 else 1) + (if s.pc.Receiving? then 1 else 0)
  }

  /** Every run is finite, and one that can go no further has returned the right answer with every
      target's goroutine finished and the channel closed. */
  lemma EveryRunReturns(required: nat, outcome: seq<bool>, schedule: seq<Event>)
    requires Validate(|outcome|, required)
    requires Machine.Exec(Step(required, outcome), Start(|outcome|), schedule).Some?
    ensures |schedule| <= 3 * |outcome| + 2
    ensures
      var s := Machine.Exec(Step(required, outcome), Start(|outcome|), schedule).value;
      Machine.Quiescent(Step(required, outcome), s) ==>
        && s.pc == Returned(Count(outcome, true) >= required) && s.closed
        && forall i :: 0 <= i < |s.senders| ==> s.senders[i] == Finished
  {
    var step := Step(required, outcome);
    forall t, e | Inv(required, outcome, t) && Next(required, outcome, t, e).Some?
      ensures 0 <= Measure(Next(required, outcome, t, e).value) < Measure(t)
    {
      if e.Deliver? || e.Done? {
        var to := if e.Deliver? then Sent else Finished;
        CountUpdate(t.senders, e.i, to, Calling);
        CountUpdate(t.senders, e.i, to, Sent);
      }
    }
    InvPreserved(required, outcome);
    var start := Start(|outcome|);
    CountFull(start.senders, Calling);
    CountNone(start.senders, Sent);
    Machine.RunsAreBounded(step, t => Inv(required, outcome, t), Measure, start, schedule);
    var s := Machine.Exec(step, start, schedule).value;
    Safety(required, outcome, s);
    if Machine.Quiescent(step, s) {
      Stopped(required, outcome, s);
    }
  }

  lemma Stopped(required: nat, outcome: seq<bool>, s: State)
    requires Validate(|outcome|, required) && Reachable(required, outcome, s)
    requires Machine.Quiescent(Step(required, outcome), s)
    ensures s.pc.Returned? && s.closed
    ensures forall i :: 0 <= i < |s.senders| ==> s.senders[i] == Finished
  {
    Safety(required, outcome, s);
    var step := Step(required, outcome);
    forall i | 0 <= i < |s.senders| ensures s.senders[i] == Finished {
      assert step(s, Deliver(i)).None? && step(s, Done(i)).None?;
    }
    assert step(s, Close).None? && step(s, Receive).None? && step(s, EndOfResults).None?;
  }
}

/** internal/poller/poller.go. */
module Poller {
  import opened Common

  datatype PortState = Closed | Open

  datatype Target = Target(host: string, port: int)

  datatype Result = Result(host: string, port: int, state: PortState, err: Option<string>)

  /** dialled is what the network answers: None when the connection succeeds, otherwise its error. */
  function Poll(t: Target, dialled: Option<string>): Result {
    match dialled
    case Some(e) => Result(t.host, t.port, Closed, Some(e))
    case None => Result(t.host, t.port, Open, None)
  }

  /** Every goroutine sends one (index, result) pair; dialled[i] is the network's answer to the i-th of
      them, and `order` is the order in which they arrive. For every arrival order, results[i] is the poll
      of targets[i], also among equal targets whose dials end differently. */
  method PollAll(targets: seq<Target>, dialled: seq<Option<string>>, order: seq<nat>)
    returns (results: array<Result>)
    requires |dialled| == |targets|
    requires multiset(order) == multiset(seq(|targets|, i => i))
    ensures fresh(results) && results.Length == |targets|
    ensures forall i :: 0 <= i < |targets| ==> results[i] == Poll(targets[i], dialled[i])
    ensures forall i :: 0 <= i < |targets| ==>
              && results[i].host == targets[i].host && results[i].port == targets[i].port
              && (results[i].state == Open <==> dialled[i] == None) && results[i].err == dialled[i]
  {
    results := new Result[|targets|](_ => Result("", 0, Closed, None));
    var indices := seq(|targets|, i => i);
    forall k | 0 <= k < |order| ensures order[k] < |targets| {
      assert order[k] in multiset(order) && order[k] in indices;
    }
    for j := 0 to |order|
      invariant forall k :: 0 <= k < j ==> results[order[k]] == Poll(targets[order[k]], dialled[order[k]])
    {
      var idx := order[j];
      results[idx] := Poll(targets[idx], dialled[idx]);
    }
    forall i | 0 <= i < |targets| ensures results[i] == Poll(targets[i], dialled[i]) {
      assert indices[i] == i && i in multiset(indices) && i in order;
    }
  }
}
