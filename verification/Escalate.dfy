/** internal/alert/escalation.go and escalation_dispatcher.go. */
module Escalate {
  import opened Common
  import Keys

  datatype Policy = Policy(threshold: int, minDuration: int)

  datatype Entry = Entry(count: int, firstSeen: int)

  type Table = map<string, Entry>

  function RecordKey(t: Table, key: string, now: int): Table {
    t[key := if key in t then t[key].(count := t[key].count + 1) else Entry(1, now)]
  }

  predicate Escalates(p: Policy, t: Table, key: string, now: int) {
    key in t && t[key].count + 1 >= p.threshold && now - t[key].firstSeen >= p.minDuration
  }

  function CountKey(t: Table, key: string): int {
    if key in t then t[key].count else 0
  }

  class Escalator {
    const policy: Policy
    var state: Table

    constructor (p: Policy)
      ensures policy == p && state == map[]
    {
      policy := p;
      state := map[];
    }

    method Record(key: string, now: int) returns (escalate: bool)
      modifies this
      ensures state == RecordKey(old(state), key, now)
      ensures escalate == Escalates(policy, old(state), key, now)
    {
      if key !in state {
        state := state[key := Entry(1, now)];
        return false;
      }
      var s := Entry(state[key].count + 1, state[key].firstSeen);
      state := state[key := s];
      var duration := now - s.firstSeen;
      return s.count >= policy.threshold && duration >= policy.minDuration;
    }

    method Reset(key: string)
      modifies this
      ensures state == old(state) - {key}
    {
      state := state - {key};
    }

    method Count(key: string) returns (count: int)
      ensures count == CountKey(state, key)
    {
      if key in state {
        return state[key].count;
      }
      return 0;
    }
  }

  /** escalationKey: the state is part of the key. */
  function EscalationKey(port: int, state: string): string {
    "port:" + Keys.Key(port, state)
  }

  lemma EscalationKeyInjective(port: int, state: string, port': int, state': string)
    requires EscalationKey(port, state) == EscalationKey(port', state')
    ensures port == port' && state == state'
  {
    assert EscalationKey(port, state)[5..] == Keys.Key(port, state);
    assert EscalationKey(port', state')[5..] == Keys.Key(port', state');
    Keys.KeyInjective(port, state, port', state');
  }

  /** One Send: the clock reading of Record and whether the primary dispatcher accepts. */
  datatype Send = Send(n: Notification, now: int, accepted: bool)

  function Apply(t: Table, s: Send): Table {
    if !s.accepted then t
    else if s.n.state == "closed" then RecordKey(t, EscalationKey(s.n.port, s.n.state), s.now)
    else t - {EscalationKey(s.n.port, s.n.state)}
  }

  predicate Forwards(p: Policy, t: Table, s: Send) {
    s.accepted && s.n.state == "closed" && Escalates(p, t, EscalationKey(s.n.port, s.n.state), s.now)
  }

  /** The dispatcher's Send: ok is the primary's result, escalated whether the escalation channel is
      used as well. */
  method Dispatch(e: Escalator, s: Send) returns (ok: bool, escalated: bool)
    modifies e
    ensures ok == s.accepted
    ensures e.state == Apply(old(e.state), s) && escalated == Forwards(e.policy, old(e.state), s)
    ensures s.accepted && s.n.state != "closed" ==>
              e.state == old(e.state) - {EscalationKey(s.n.port, s.n.state)} && !escalated
    ensures !s.accepted ==> e.state == old(e.state) && !escalated
  {
    if !s.accepted {
      return false, false;
    }
    var key := EscalationKey(s.n.port, s.n.state);
    escalated := false;
    if s.n.state == "closed" {
      escalated := e.Record(key, s.now);
    } else {
      e.Reset(key);
    }
    ok := true;
  }

  function Run(sends: seq<Send>): Table {
    if sends == [] then map[] else Apply(Run(sends[..|sends| - 1]), sends[|sends| - 1])
  }

  predicate IsClosed(s: Send, port: int) {
    s.accepted && s.n.port == port && s.n.state == "closed"
  }

  predicate IsRecovery(s: Send, port: int) {
    s.accepted && s.n.port == port && s.n.state != "closed"
  }

  /** The accepted closed notifications of a port, in order. */
  function Closed(sends: seq<Send>, port: int): seq<Send> {
    if sends == [] then []
    else Closed(sends[..|sends| - 1], port)
         + (if IsClosed(sends[|sends| - 1], port) then [sends[|sends| - 1]] else [])
  }

  /** Over any run the entry of a port's closed key counts every closed notification ever dispatched for
      it and keeps the time of the first: the Reset on recovery has another key. */
  lemma {:induction false} NeverReset(sends: seq<Send>, port: int)
    ensures
      var key := EscalationKey(port, "closed");
      var closed := Closed(sends, port);
      Get(Run(sends), key) == if closed == [] then None else Some(Entry(|closed|, closed[0].now))
    decreases |sends|
  {
    if sends != [] {
      var init, s := sends[..|sends| - 1], sends[|sends| - 1];
      NeverReset(init, port);
      var key := EscalationKey(s.n.port, s.n.state);
      if key == EscalationKey(port, "closed") {
        EscalationKeyInjective(s.n.port, s.n.state, port, "closed");
      }
    }
  }

  /** When the escalation channel is used: on the k-th closed notification of the port since the start,
      k >= 2, once k reaches the threshold and the first one is MinDuration old. */
  lemma EscalatesExactly(p: Policy, sends: seq<Send>, s: Send, port: int)
    requires s.n.port == port
    ensures
      var closed := Closed(sends, port);
      Forwards(p, Run(sends), s) <==>
        && IsClosed(s, port) && |closed| >= 1
        && |closed| + 1 >= p.threshold && s.now - closed[0].now >= p.minDuration
  {
    NeverReset(sends, port);
  }

  /** What the documentation promises Count to be: closed notifications since the last recovery. */
  function SinceRecovery(sends: seq<Send>, port: int): int {
    if sends == [] then 0
    else
      var s := sends[|sends| - 1];
      if IsRecovery(s, port) then 0
      else SinceRecovery(sends[..|sends| - 1], port) + (if IsClosed(s, port) then 1 else 0)
  }

  /** Some dispatched closed notification of the port is followed by a dispatched recovery. */
  ghost predicate ClosedThenRecovered(sends: seq<Send>, port: int) {
    exists i, j :: 0 <= i < j < |sends| && IsClosed(sends[i], port) && IsRecovery(sends[j], port)
  }

  lemma {:induction false} SinceRecoveryAtMost(sends: seq<Send>, port: int)
    ensures 0 <= SinceRecovery(sends, port) <= |Closed(sends, port)|
    ensures SinceRecovery(sends, port) == |Closed(sends, port)| <==> !ClosedThenRecovered(sends, port)
    ensures Closed(sends, port) != [] <==> exists i :: 0 <= i < |sends| && IsClosed(sends[i], port)
    decreases |sends|
  {
    if sends != [] {
      var init, last := sends[..|sends| - 1], |sends| - 1;
      SinceRecoveryAtMost(init, port);
      assert forall i :: 0 <= i < last ==> init[i] == sends[i];
      if ClosedThenRecovered(init, port) {
        var i, j :| 0 <= i < j < |init| && IsClosed(init[i], port) && IsRecovery(init[j], port);
        assert IsClosed(sends[i], port) && IsRecovery(sends[j], port);
      }
      if Closed(init, port) != [] {
        var i :| 0 <= i < |init| && IsClosed(init[i], port);
        assert IsClosed(sends[i], port);
      }
    }
  }

  /** The count meets the documented reset exactly when no dispatched closed notification of the port
      was followed by a dispatched recovery. */
  lemma CountIsSinceRecoveryExactly(sends: seq<Send>, port: int)
    ensures CountKey(Run(sends), EscalationKey(port, "closed")) == |Closed(sends, port)|
    ensures CountKey(Run(sends), EscalationKey(port, "closed")) == SinceRecovery(sends, port) <==>
              !ClosedThenRecovered(sends, port)
  {
    NeverReset(sends, port);
    SinceRecoveryAtMost(sends, port);
  }

  /** For instance, a port that closes, recovers and closes again counts two, and so can escalate at a
      threshold of two although it has just failed once since recovering. */
  lemma RecoveryDoesNotReset(port: int)
    ensures
      var note := (state: string) => Notification(port, state, 0, "");
      var sends := [Send(note("closed"), 0, true), Send(note("open"), 1, true)];
      && SinceRecovery(sends, port) == 0
      && Forwards(Policy(2, 0), Run(sends), Send(note("closed"), 2, true))
  {
    var a := Send(Notification(port, "closed", 0, ""), 0, true);
    var b := Send(Notification(port, "open", 0, ""), 1, true);
    var c := Send(Notification(port, "closed", 0, ""), 2, true);
    assert [a, b][..1] == [a] && [a][..0] == [];
    assert Closed([a], port) == [a] && Closed([a, b], port) == [a];
    EscalatesExactly(Policy(2, 0), [a, b], c, port);
  }
}
