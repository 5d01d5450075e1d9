/** internal/history/history.go and query.go. */
module History {
  import opened Common
  import Modular

  /** Zero stands for Go's zero time. */
  const ZERO_TIME := 0

  datatype Event = Event(port: int, host: string, state: string, timestamp: int)

  /** Port 0, an empty state, a zero Since and a Limit that is not positive do not filter. */
  datatype EventFilter = EventFilter(port: int, state: string, since: int, limit: int)

  function Stamp(e: Event, now: int): Event {
    if e.timestamp == ZERO_TIME then e.(timestamp := now) else e
  }

  predicate Matches(f: EventFilter, e: Event) {
    && (f.port != 0 ==> e.port == f.port)
    && (f.state != "" ==> e.state == f.state)
    && (f.since != ZERO_TIME ==> e.timestamp >= f.since)
  }

  /** All matching events, in order. */
  function Select(f: EventFilter, events: seq<Event>): seq<Event> {
    if events == [] then []
    else
      var e := events[|events| - 1];
      Select(f, events[..|events| - 1]) + (if Matches(f, e) then [e] else [])
  }

  function Answer(f: EventFilter, events: seq<Event>): seq<Event> {
    if f.limit > 0 then LastN(f.limit, Select(f, events)) else Select(f, events)
  }

  /** Which events a filter asks for. */
  function Wanted(f: EventFilter, events: seq<Event>): nat -> bool {
    (i: nat) =>
      && i < |events|
      && (f.port == 0 || events[i].port == f.port)
      && (f.state == "" || events[i].state == f.state)
      && (f.since == ZERO_TIME || events[i].timestamp >= f.since)
  }

  /** The last `limit` elements, or all of them when the limit is not positive. */
  function Tail(limit: int, s: seq<Event>): seq<Event> {
    if 0 < limit < |s| then s[|s| - limit..] else s
  }

  lemma {:induction false} SelectPrefix(f: EventFilter, events: seq<Event>, n: nat)
    requires n <= |events|
    ensures Select(f, events[..n]) == Filter(events[..n], Wanted(f, events))
  {
    if n > 0 {
      SelectPrefix(f, events, n - 1);
      FilterNext(events, n - 1, Wanted(f, events));
      assert events[..n][..n - 1] == events[..n - 1];
    }
  }

  /** The answer is the last `limit` of the events asked for, in order. */
  lemma AnswerExactly(f: EventFilter, events: seq<Event>)
    ensures Answer(f, events) == Tail(f.limit, Filter(events, Wanted(f, events)))
  {
    SelectPrefix(f, events, |events|);
    assert events[..|events|] == events;
  }

  /** The index of the latest event of the port. */
  function LatestIndex(port: int, events: seq<Event>): (r: Option<nat>)
    ensures r.Some? ==>
              r.value < |events| && events[r.value].port == port
              && forall j :: r.value < j < |events| ==> events[j].port != port
    ensures r.None? ==> forall j :: 0 <= j < |events| ==> events[j].port != port
  {
    if events == [] then None
    else if events[|events| - 1].port == port then Some(|events| - 1)
    else LatestIndex(port, events[..|events| - 1])
  }

  function LatestState(port: int, events: seq<Event>): Option<string> {
    var i := LatestIndex(port, events);
    if i.Some? then Some(events[i.value].state) else None
  }

  /** The latest state of a port is the state of its last event. */
  lemma LatestStateExactly(port: int, events: seq<Event>, i: nat)
    requires i < |events| && events[i].port == port && forall j :: i < j < |events| ==> events[j].port != port
    ensures LatestState(port, events) == Some(events[i].state)
  {
    assert LatestIndex(port, events) == Some(i);
  }

  /** The entry that Summary shows for a port, if it shows one. */
  function Shown(port: int, configured: seq<int>, events: seq<Event>): Option<string> {
    var latest := LatestState(port, events);
    if latest.Some? then latest else if port in configured then Some("unknown") else None
  }

  /** Slot Rem(j, |slots|) holds the j-th event ever recorded, for each of the last `count`. */
  ghost predicate Holds(slots: seq<Event>, history: seq<Event>, count: nat)
    requires |slots| > 0 && count <= |history|
  {
    forall j :: |history| - count <= j < |history| ==> slots[Modular.Rem(j, |slots|)] == history[j]
  }

  /** Writing the next event into the slot of its own index, over the oldest one when the ring is full. */
  lemma HoldsNext(slots: seq<Event>, history: seq<Event>, count: nat, e: Event)
    requires |slots| > 0 && count <= |history| && Holds(slots, history, count)
    ensures
      var count' := if count < |slots| then count + 1 else count;
      count <= |slots| ==> Holds(slots[Modular.Rem(|history|, |slots|) := e], history + [e], count')
  {
    var n, cap := |history|, |slots|;
    forall j | n - cap < j < n && 0 <= j ensures Modular.Rem(j, cap) != Modular.Rem(n, cap) {
      Modular.DistinctSlots(j, n, cap);
    }
  }

  /** Reading from the slot of the oldest stored event onwards. */
  lemma HoldsAt(slots: seq<Event>, history: seq<Event>, count: nat, i: nat)
    requires |slots| > 0 && i < count <= |history| && Holds(slots, history, count)
    ensures
      var start := Modular.Rem(|history| - count, |slots|);
      slots[Modular.Rem(start + i, |slots|)] == history[|history| - count + i]
  {
    Modular.RemAdd(|history| - count, i, |slots|);
    var j := |history| - count + i;
    assert history[j] == slots[Modular.Rem(j, |slots|)];
  }

  lemma SliceSnoc(s: seq<Event>, lo: nat, hi: nat)
    requires lo <= hi < |s|
    ensures s[lo..hi + 1] == s[lo..hi] + [s[hi]]
  {
  }

  class Ring {
    const cap: nat
    const events: array<Event>
    var head: nat
    var count: nat
    ghost var history: seq<Event>

    ghost predicate Valid()
      reads this, events
    {
      && cap > 0 && events.Length == cap
      && count == (if |history| < cap then |history| else cap)
      && head == Modular.Rem(|history|, cap)
      && Holds(events[..], history, count)
    }

    constructor (capacity: int)
      ensures Valid() && fresh(events) && history == []
      ensures cap == if capacity <= 0 then 100 else capacity
    {
      var c := if capacity <= 0 then 100 else capacity;
      cap := c;
      events := new Event[c](_ => Event(0, "", "", ZERO_TIME));
      head, count, history := 0, 0, [];
    }

    method Record(e: Event, now: int)
      requires Valid()
      modifies this, events
      ensures Valid() && history == old(history) + [Stamp(e, now)]
      ensures Stamp(e, now) == if e.timestamp == ZERO_TIME then Event(e.port, e.host, e.state, now) else e
    {
      var e' := if e.timestamp == ZERO_TIME then e.(timestamp := now) else e;
      ghost var n := |history|;
      HoldsNext(events[..], history, count, e');
      Modular.RemAdd(n, 1, cap);
      ghost var slots := events[..][head := e'];
      events[head] := e';
      assert events[..] == slots;
      head := Modular.Wrap(head + 1, cap);
      if count < cap {
        count := count + 1;
      }
      history := history + [e'];
    }

    method Snapshot() returns (out: seq<Event>)
      requires Valid()
      ensures out == LastN(cap, history)
    {
      out := [];
      var start := Oldest();
      ghost var first := |history| - count;
      for i := 0 to count
        invariant out == history[first..first + i]
      {
        var e := At(start, i);
        SliceSnoc(history, first, first + i);
        out := out + [e];
      }
    }

    /** The slot of the oldest stored event. */
    method Oldest() returns (start: nat)
      requires Valid()
      ensures start == Modular.Rem(|history| - count, cap)
    {
      Modular.StartIndex(|history|, count, cap);
      start := Modular.Wrap(head - count + cap, cap);
    }

    /** The i-th oldest stored event. */
    method At(start: nat, i: nat) returns (e: Event)
      requires Valid() && i < count && start == Modular.Rem(|history| - count, cap)
      ensures e == history[|history| - count + i]
    {
      HoldsAt(events[..], history, count, i);
      var slot := Modular.Wrap(start + i, cap);
      e := events[slot];
    }

    method Len() returns (n: nat)
      requires Valid()
      ensures n == if |history| < cap then |history| else cap
    {
      n := count;
    }

    /** The last Limit matches among the events still stored, oldest first. */
    method Query(f: EventFilter) returns (results: seq<Event>)
      requires Valid()
      ensures results == Answer(f, LastN(cap, history))
    {
      var snapshot := Snapshot();
      results := [];
      for i := 0 to |snapshot|
        invariant results == Select(f, snapshot[..i])
      {
        var e := snapshot[i];
        assert snapshot[..i + 1] == snapshot[..i] + [e];
        assert snapshot[..i + 1][..i] == snapshot[..i];
        if f.port != 0 && e.port != f.port {
          continue;
        }
        if f.state != "" && e.state != f.state {
          continue;
        }
        if f.since != ZERO_TIME && e.timestamp < f.since {
          continue;
        }
        results := results + [e];
      }
      assert snapshot[..|snapshot|] == snapshot;
      if f.limit > 0 && |results| > f.limit {
        results := results[|results| - f.limit..];
      }
    }

    method Summary(ports: seq<int>) returns (last: map<int, string>)
      requires Valid()
      ensures Shows(last, ports, LastN(cap, history))
    {
      var snapshot := Snapshot();
      last := AllUnknown(ports);
      for i := 0 to |snapshot|
        invariant Shows(last, ports, snapshot[..i])
      {
        assert snapshot[..i + 1] == snapshot[..i] + [snapshot[i]];
        ShowsNext(last, ports, snapshot[..i], snapshot[i]);
        last := last[snapshot[i].port := snapshot[i].state];
      }
      assert snapshot[..|snapshot|] == snapshot;
    }

    method AllUnknown(ports: seq<int>) returns (last: map<int, string>)
      ensures Shows(last, ports, [])
    {
      last := map[];
      for i := 0 to |ports|
        invariant forall port :: Get(last, port) == if port in ports[..i] then Some("unknown") else None
      {
        assert ports[..i + 1] == ports[..i] + [ports[i]];
        last := last[ports[i] := "unknown"];
      }
      assert ports[..|ports|] == ports;
    }
  }

  /** The map has exactly the entries that Summary promises for these events. */
  ghost predicate Shows(last: map<int, string>, configured: seq<int>, events: seq<Event>) {
    forall port :: Get(last, port) == Shown(port, configured, events)
  }

  lemma ShowsNext(last: map<int, string>, configured: seq<int>, events: seq<Event>, e: Event)
    requires Shows(last, configured, events)
    ensures Shows(last[e.port := e.state], configured, events + [e])
  {
    ShownSnoc(configured, events, e);
  }

  lemma ShownSnoc(configured: seq<int>, events: seq<Event>, e: Event)
    ensures forall port :: Shown(port, configured, events + [e]) ==
              if e.port == port then Some(e.state) else Shown(port, configured, events)
  {
    assert (events + [e])[..|events|] == events;
  }

  lemma {:induction false} SelectConcat(f: EventFilter, a: seq<Event>, b: seq<Event>)
    ensures Select(f, a + b) == Select(f, a) + Select(f, b)
    decreases |b|
  {
    if b == [] {
      assert a + b == a;
    } else {
      var init, e := b[..|b| - 1], b[|b| - 1];
      SelectConcat(f, a, init);
      assert (a + b)[..|a + b| - 1] == a + init;
    }
  }

  /** What the ring answers is what the complete history would answer if and only if Limit matches
      survive in the ring or no match was evicted. */
  lemma QueryIsCompleteExactly(f: EventFilter, cap: nat, history: seq<Event>)
    ensures
      var stored := LastN(cap, history);
      var evicted := history[..|history| - |stored|];
      Answer(f, stored) == Answer(f, history) <==>
        (f.limit > 0 && |Select(f, stored)| >= f.limit) || Select(f, evicted) == []
  {
    var stored := LastN(cap, history);
    var evicted := history[..|history| - |stored|];
    assert history == evicted + stored;
    SelectConcat(f, evicted, stored);
    var s, e := Select(f, stored), Select(f, evicted);
    if f.limit > 0 && |s| >= f.limit {
      assert LastN(f.limit, e + s) == LastN(f.limit, s);
    } else if e == [] {
      assert e + s == s;
    }
  }

  lemma {:induction false} LatestConcat(port: int, a: seq<Event>, b: seq<Event>)
    ensures LatestIndex(port, b).Some? ==>
              LatestIndex(port, a + b) == Some(|a| + LatestIndex(port, b).value)
    ensures LatestIndex(port, b).None? ==> LatestIndex(port, a + b) == LatestIndex(port, a)
    decreases |b|
  {
    if b == [] {
      assert a + b == a;
    } else {
      LatestConcat(port, a, b[..|b| - 1]);
      assert (a + b)[..|a + b| - 1] == a + b[..|b| - 1];
    }
  }

  /** The latest event of a port, found among the stored ones or, failing that, the evicted ones. */
  lemma LatestAcross(port: int, cap: nat, history: seq<Event>)
    requires LatestIndex(port, history).Some?
    ensures
      var stored := LastN(cap, history);
      if LatestIndex(port, history).value >= |history| - cap
      then LatestState(port, stored) == LatestState(port, history)
      else LatestState(port, stored) == None
  {
    var stored := LastN(cap, history);
    var evicted := history[..|history| - |stored|];
    assert history == evicted + stored;
    LatestConcat(port, evicted, stored);
  }

  /** Summary shows a recorded port's true latest state exactly when the port's latest record is among
      the last cap; otherwise it shows "unknown" or nothing (which is the truth only for a configured
      port whose recorded state happens to be that word). */
  lemma SummaryIsTrueExactly(port: int, configured: seq<int>, cap: nat, history: seq<Event>)
    requires LatestIndex(port, history).Some?
    ensures
      var shown := Shown(port, configured, LastN(cap, history));
      var truth := LatestState(port, history);
      var survives := LatestIndex(port, history).value >= |history| - cap;
      && (shown == truth <==> survives || (port in configured && truth == Some("unknown")))
      && (!survives ==> shown == if port in configured then Some("unknown") else None)
  {
    LatestAcross(port, cap, history);
  }
}

/** internal/alert/audit.go: a bounded log that shifts a slice. */
module Audit {
  import opened Common

  class AuditLog<T> {
    const cap: nat
    var entries: seq<T>
    ghost var history: seq<T>

    /** Like the ring's Snapshot, the log is the last cap of everything recorded. */
    ghost predicate Valid()
      reads this
    {
      cap > 0 && entries == LastN(cap, history)
    }

    constructor (capacity: int)
      ensures Valid() && history == []
      ensures cap == if capacity <= 0 then 256 else capacity
    {
      cap := if capacity <= 0 then 256 else capacity;
      entries, history := [], [];
    }

    method Record(e: T)
      requires Valid()
      modifies this
      ensures Valid() && history == old(history) + [e]
    {
      if |entries| >= cap {
        entries := entries[1..];
      }
      entries := entries + [e];
      history := history + [e];
    }

    method Snapshot() returns (out: seq<T>)
      requires Valid()
      ensures out == LastN(cap, history)
    {
      out := entries;
    }
  }
}
