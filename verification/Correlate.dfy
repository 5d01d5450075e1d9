/** internal/alert/correlate.go: an anchored window per key that forwards once. */
module Correlate {
  import opened Common
  import Keyed
  import Keys

  datatype Policy = Policy(window: int, minEvents: int)

  datatype Entry = Entry(count: int, firstSeen: int, lastNotif: Notification)

  /** One call of Record and its clock reading. */
  datatype Call = Call(n: Notification, now: int)

  function Decide(p: Policy, s: Option<Entry>, r: Call): (Option<Entry>, bool) {
    if s.None? || r.now - s.value.firstSeen > p.window then (Some(Entry(1, r.now, r.n)), false)
    else
      var e := Entry(s.value.count + 1, s.value.firstSeen, r.n);
      (Some(e), e.count == p.minEvents)
  }

  function Gate(p: Policy): (Option<Entry>, Call) -> (Option<Entry>, bool) {
    (s, r) => Decide(p, s, r)
  }

  class Correlator {
    const policy: Policy
    var entries: map<string, Entry>

    constructor (p: Policy)
      ensures policy == p && entries == map[]
    {
      policy := p;
      entries := map[];
    }

    method Record(n: Notification, now: int) returns (forward: bool)
      modifies this
      ensures (entries, forward) ==
              Keyed.Apply(Gate(policy), old(entries), Keys.Key(n.port, n.state), Call(n, now))
    {
      var key := Keys.Key(n.port, n.state);
      if key !in entries || now - entries[key].firstSeen > policy.window {
        entries := entries[key := Entry(1, now, n)];
        return false;
      }
      var e := Entry(entries[key].count + 1, entries[key].firstSeen, n);
      entries := entries[key := e];
      return e.count == policy.minEvents;
    }

    method Reset()
      modifies this
      ensures entries == map[]
    {
      entries := map[];
    }
  }

  function Answers(p: Policy, s: Option<Entry>, records: seq<Call>): (r: seq<bool>)
    ensures |r| == |records|
  {
    Keyed.RunOne(Gate(p), s, records).1
  }

  /** How many of the records, from the first on, fall in the window anchored at a. */
  function InWindow(p: Policy, a: int, records: seq<Call>): (k: nat)
    ensures k <= |records|
    ensures forall i :: 0 <= i < k ==> records[i].now - a <= p.window
    ensures k < |records| ==> records[k].now - a > p.window
  {
    if records == [] || records[0].now - a > p.window then 0 else 1 + InWindow(p, a, records[1..])
  }

  /** The records cut into anchored windows: each begins at the first record that its predecessor does
      not cover. */
  function Windows(p: Policy, records: seq<Call>): seq<seq<Call>>
    decreases |records|
  {
    if records == [] then []
    else
      var k := 1 + InWindow(p, records[0].now, records[1..]);
      [records[..k]] + Windows(p, records[k..])
  }

  /** A window of n records: false everywhere but at the MinEvents-th record, and there only when that
      is not the first. */
  function OnceEach(p: Policy, windows: seq<seq<Call>>): seq<bool> {
    if windows == [] then []
    else seq(|windows[0]|, i => i > 0 && i + 1 == p.minEvents) + OnceEach(p, windows[1..])
  }

  /** What remains of a window, from an entry that has already counted `count` records. */
  lemma {:induction false} RestOfWindow(p: Policy, e: Entry, records: seq<Call>)
    ensures
      var k := InWindow(p, e.firstSeen, records);
      Answers(p, Some(e), records) ==
      seq(k, (i: int) => e.count + i + 1 == p.minEvents) + Answers(p, None, records[k..])
    decreases |records|
  {
    var k := InWindow(p, e.firstSeen, records);
    if records == [] {
    } else if records[0].now - e.firstSeen > p.window {
      assert Decide(p, Some(e), records[0]) == Decide(p, None, records[0]);
      assert records[k..] == records;
      assert Answers(p, Some(e), records) == Answers(p, None, records);
      assert seq(k, (i: int) => e.count + i + 1 == p.minEvents) == [];
    } else {
      var e' := Entry(e.count + 1, e.firstSeen, records[0].n);
      RestOfWindow(p, e', records[1..]);
      var rest := Answers(p, None, records[k..]);
      assert records[1..][k - 1..] == records[k..];
      var later := seq(k - 1, (i: int) => e'.count + i + 1 == p.minEvents);
      assert Answers(p, Some(e), records) == [e'.count == p.minEvents] + (later + rest);
      assert [e'.count == p.minEvents] + later == seq(k, (i: int) => e.count + i + 1 == p.minEvents);
      ConsConcat(e'.count == p.minEvents, later, rest);
    }
  }

  /** The answers, for every run of one key and any clock: each anchored window forwards exactly its
      MinEvents-th record, if it has that many and MinEvents >= 2, and nothing else. */
  lemma {:induction false} OncePerWindow(p: Policy, records: seq<Call>)
    ensures Answers(p, None, records) == OnceEach(p, Windows(p, records))
    decreases |records|
  {
    if records != [] {
      var e := Entry(1, records[0].now, records[0].n);
      var k := InWindow(p, e.firstSeen, records[1..]);
      RestOfWindow(p, e, records[1..]);
      OncePerWindow(p, records[1 + k..]);
      assert records[1..][k..] == records[1 + k..];
      var rest := Answers(p, None, records[1 + k..]);
      var later := seq(k, (i: int) => e.count + i + 1 == p.minEvents);
      assert Answers(p, None, records) == [false] + (later + rest);
      ConsConcat(false, later, rest);
      assert |records[..1 + k]| == 1 + k;
      assert [false] + later == seq(|records[..1 + k]|, i => i > 0 && i + 1 == p.minEvents);
    }
  }

  /** How many windows hold at least MinEvents records. */
  function FullWindows(p: Policy, windows: seq<seq<Call>>): nat {
    if windows == [] then 0
    else (if |windows[0]| >= p.minEvents then 1 else 0) + FullWindows(p, windows[1..])
  }

  lemma {:induction false} CountOnce(p: Policy, n: nat)
    requires p.minEvents >= 2
    ensures Count(seq(n, i => i > 0 && i + 1 == p.minEvents), true) == if n >= p.minEvents then 1 else 0
  {
    var s := seq(n, i => i > 0 && i + 1 == p.minEvents);
    if n == 0 {
    } else {
      var shorter := seq(n - 1, i => i > 0 && i + 1 == p.minEvents);
      CountOnce(p, n - 1);
      assert s == shorter + [n - 1 > 0 && n == p.minEvents];
      CountConcat(shorter, [n - 1 > 0 && n == p.minEvents], true);
    }
  }

  function TotalLength(windows: seq<seq<Call>>): nat {
    if windows == [] then 0 else |windows[0]| + TotalLength(windows[1..])
  }

  lemma {:induction false} WindowsCover(p: Policy, records: seq<Call>)
    ensures TotalLength(Windows(p, records)) == |records|
    decreases |records|
  {
    if records != [] {
      var k := 1 + InWindow(p, records[0].now, records[1..]);
      WindowsCover(p, records[k..]);
    }
  }

  lemma {:induction false} CountForwards(p: Policy, windows: seq<seq<Call>>)
    requires p.minEvents >= 2
    ensures Count(OnceEach(p, windows), true) == FullWindows(p, windows)
    ensures FullWindows(p, windows) * p.minEvents <= TotalLength(windows)
  {
    if windows != [] {
      CountForwards(p, windows[1..]);
      CountOnce(p, |windows[0]|);
      var first := seq(|windows[0]|, i => i > 0 && i + 1 == p.minEvents);
      CountConcat(first, OnceEach(p, windows[1..]), true);
      MulPred(FullWindows(p, windows), p.minEvents);
    }
  }

  /** A key forwards once per window that receives MinEvents records, so at most records / MinEvents
      times. */
  lemma ForwardsPerRecords(p: Policy, records: seq<Call>)
    requires p.minEvents >= 2
    ensures Count(Answers(p, None, records), true) == FullWindows(p, Windows(p, records))
    ensures Count(Answers(p, None, records), true) * p.minEvents <= |records|
  {
    OncePerWindow(p, records);
    WindowsCover(p, records);
    CountForwards(p, Windows(p, records));
  }

  // ---- Anchors -----------------------------------------------------------------------------

  /** The record that anchors the window of record i: the window of record i - 1 while that lasts, else
      record i itself. */
  function Anchor(p: Policy, records: seq<Call>, i: nat): (a: nat)
    requires i < |records|
    ensures a <= i
  {
    if i == 0 then 0
    else
      var a := Anchor(p, records, i - 1);
      if records[i].now - records[a].now > p.window then i else a
  }

  lemma {:induction false} AnchorOfPrefix(p: Policy, records: seq<Call>, more: seq<Call>, i: nat)
    requires i < |records|
    ensures Anchor(p, records + more, i) == Anchor(p, records, i)
  {
    if i > 0 {
      AnchorOfPrefix(p, records, more, i - 1);
    }
  }

  /** All records from a window's anchor on have that anchor. */
  lemma {:induction false} AnchorBetween(p: Policy, records: seq<Call>, j: nat, i: nat)
    requires i < |records| && Anchor(p, records, i) <= j <= i
    ensures Anchor(p, records, j) == Anchor(p, records, i)
  {
    if j < i {
      AnchorBetween(p, records, j, i - 1);
    }
  }

  lemma {:induction false} AnchorsAscend(p: Policy, records: seq<Call>, j: nat, i: nat)
    requires j <= i < |records|
    ensures Anchor(p, records, j) <= Anchor(p, records, i)
  {
    if j < i {
      AnchorsAscend(p, records, j, i - 1);
    }
  }

  /** The entry that the records of `past` leave: the distance to the anchor, the anchor's time, and the
      last notification. */
  predicate Tracks(p: Policy, past: seq<Call>, s: Option<Entry>) {
    match s
    case None => past == []
    case Some(e) =>
      && past != []
      && var a := Anchor(p, past, |past| - 1);
      e.count == |past| - a && e.firstSeen == past[a].now && e.lastNotif == past[|past| - 1].n
  }

  lemma TracksNext(p: Policy, past: seq<Call>, s: Option<Entry>, r: Call)
    requires Tracks(p, past, s)
    ensures
      var (s', ok) := Decide(p, s, r);
      && Tracks(p, past + [r], s')
      && (ok <==> p.minEvents >= 2 && |past| + 1 - Anchor(p, past + [r], |past|) == p.minEvents)
  {
    if past != [] {
      AnchorOfPrefix(p, past, [r], |past| - 1);
    }
  }

  lemma {:induction false} ForwardedFrom(p: Policy, past: seq<Call>, s: Option<Entry>, records: seq<Call>, i: nat)
    requires Tracks(p, past, s) && i < |records|
    ensures
      var all := past + records;
      var m := |past| + i;
      Answers(p, s, records)[i] <==> p.minEvents >= 2 && m + 1 - Anchor(p, all, m) == p.minEvents
    decreases |records|
  {
    var (s', ok) := Decide(p, s, records[0]);
    var past' := past + [records[0]];
    TracksNext(p, past, s, records[0]);
    assert past' + records[1..] == past + records;
    assert Answers(p, s, records) == [ok] + Answers(p, s', records[1..]);
    if i == 0 {
      AnchorOfPrefix(p, past', records[1..], |past|);
    } else {
      ForwardedFrom(p, past', s', records[1..], i - 1);
    }
  }

  /** Record i is forwarded exactly when it is the MinEvents-th of its window and not the first: for every
      run of a key and any clock. */
  lemma ForwardedExactly(p: Policy, records: seq<Call>, i: nat)
    requires i < |records|
    ensures Answers(p, None, records)[i] <==> p.minEvents >= 2 && i + 1 - Anchor(p, records, i) == p.minEvents
  {
    assert [] + records == records;
    ForwardedFrom(p, [], None, records, i);
  }

  /** Some record up to i in the window of record i has been forwarded. */
  predicate Reported(p: Policy, records: seq<Call>, i: nat)
    requires i < |records|
  {
    exists j :: Anchor(p, records, i) <= j <= i && Answers(p, None, records)[j]
  }

  /** The window of record i has forwarded exactly when its anchor lies at least MinEvents - 1 records
      back. */
  lemma ReportedExactly(p: Policy, records: seq<Call>, i: nat)
    requires i < |records|
    ensures Reported(p, records, i) <==> p.minEvents >= 2 && i - Anchor(p, records, i) >= p.minEvents - 1
  {
    var a := Anchor(p, records, i);
    if p.minEvents >= 2 && i - a >= p.minEvents - 1 {
      var j := a + p.minEvents - 1;
      AnchorBetween(p, records, j, i);
      ForwardedExactly(p, records, j);
    }
    if j :| a <= j <= i && Answers(p, None, records)[j] {
      AnchorBetween(p, records, j, i);
      ForwardedExactly(p, records, j);
    }
  }

  /** Record i finds no window that still covers it. */
  predicate OpensWindow(p: Policy, records: seq<Call>, i: nat)
    requires i < |records|
  {
    i == 0 || records[i].now - records[Anchor(p, records, i - 1)].now > p.window
  }

  lemma OpensExactly(p: Policy, records: seq<Call>, i: nat)
    requires i < |records|
    ensures OpensWindow(p, records, i) <==> Anchor(p, records, i) == i
  {
  }

  /** The last MinEvents records are reported together exactly when none of them after the first opens a
      new window, whatever their times. */
  lemma BurstReportedExactly(p: Policy, records: seq<Call>, i: nat)
    requires p.minEvents >= 2 && p.minEvents - 1 <= i < |records|
    ensures Reported(p, records, i) <==>
            forall k :: i - p.minEvents + 1 < k <= i ==> !OpensWindow(p, records, k)
  {
    ReportedExactly(p, records, i);
    var a := Anchor(p, records, i);
    var first := i - p.minEvents + 1;
    if a > first {
      AnchorBetween(p, records, a, i);
      OpensExactly(p, records, a);
    }
    if k :| first < k <= i && OpensWindow(p, records, k) {
      OpensExactly(p, records, k);
      AnchorsAscend(p, records, k, i);
    }
  }

  /** The clock never runs backwards. */
  ghost predicate InOrder(records: seq<Call>) {
    forall i, j :: 0 <= i <= j < |records| ==> records[i].now <= records[j].now
  }

  /** Some run forwards something if and only if MinEvents >= 2: the first record of a window never
      forwards, whatever the documentation says of MinEvents = 1. Under a nondecreasing clock the window
      must not be negative either. */
  lemma CanForwardExactly(p: Policy, n: Notification)
    ensures (exists records :: true in Answers(p, None, records)) <==> p.minEvents >= 2
    ensures (exists records :: InOrder(records) && true in Answers(p, None, records)) <==>
            p.minEvents >= 2 && p.window >= 0
  {
    if p.minEvents >= 2 {
      var late := if p.window >= 0 then 0 else p.window;
      var records := seq(p.minEvents, i => Call(n, if i == 0 then 0 else late));
      OneWindow(p, records, p.minEvents - 1);
      ForwardedExactly(p, records, p.minEvents - 1);
      assert Answers(p, None, records)[p.minEvents - 1];
      assert p.window >= 0 ==> InOrder(records);
    }
    forall records: seq<Call> | true in Answers(p, None, records)
      ensures p.minEvents >= 2 && (InOrder(records) ==> p.window >= 0)
    {
      var i :| 0 <= i < |records| && Answers(p, None, records)[i];
      ForwardedExactly(p, records, i);
      if p.window < 0 && InOrder(records) {
        AllAnchors(p, records, i);
      }
    }
  }

  lemma AllAnchors(p: Policy, records: seq<Call>, i: nat)
    requires p.window < 0 && InOrder(records) && i < |records|
    ensures Anchor(p, records, i) == i
  {
  }

  lemma {:induction false} OneWindow(p: Policy, records: seq<Call>, i: nat)
    requires i < |records| && forall j :: 0 < j <= i ==> records[j].now - records[0].now <= p.window
    ensures Anchor(p, records, i) == 0
  {
    if i > 0 {
      OneWindow(p, records, i - 1);
    }
  }

  // ---- Times -------------------------------------------------------------------------------

  /** The times of the forwarded records. */
  function ForwardTimes(p: Policy, s: Option<Entry>, records: seq<Call>): seq<int>
    decreases |records|
  {
    if records == [] then []
    else
      var (s', ok) := Decide(p, s, records[0]);
      (if ok then [records[0].now] else []) + ForwardTimes(p, s', records[1..])
  }

  /** The entry counts at least one record, none before `from`, and the window is anchored earlier. */
  predicate Sound(p: Policy, s: Option<Entry>, from: int) {
    s.Some? ==> s.value.count >= 1 && s.value.firstSeen <= from
  }

  /** From a window anchored at a whose forward has happened, the i-th later forward comes after more
      than i + 1 windows; if it has not happened, one window sooner. */
  lemma {:induction false} ForwardsAreApart(p: Policy, e: Entry, from: int, records: seq<Call>, i: nat)
    requires p.minEvents >= 2 && p.window >= 0 && e.count >= 1 && e.firstSeen <= from
    requires InOrder(records) && (records != [] ==> from <= records[0].now)
    requires i < |ForwardTimes(p, Some(e), records)|
    ensures
      var t := ForwardTimes(p, Some(e), records)[i];
      if e.count >= p.minEvents then t > e.firstSeen + (i + 1) * p.window
      else if i == 0 then t >= e.firstSeen
      else t > e.firstSeen + i * p.window
    decreases |records|
  {
    var now := records[0].now;
    var (s', ok) := Decide(p, Some(e), records[0]);
    var rest := ForwardTimes(p, s', records[1..]);
    MulPred(i + 1, p.window);
    MulPred(i, p.window);
    if ok {
      assert ForwardTimes(p, Some(e), records) == [now] + rest;
      if i > 0 {
        ForwardsAreApart(p, s'.value, now, records[1..], i - 1);
      }
    } else {
      assert ForwardTimes(p, Some(e), records) == rest;
      ForwardsAreApart(p, s'.value, now, records[1..], i);
    }
  }

  /** Under a nondecreasing clock, forwards i and j of a key are more than j - i - 1 windows apart; so n
      forwards span more than (n - 2) * WindowDuration. */
  lemma {:induction false} ForwardSpan(p: Policy, s: Option<Entry>, from: int, records: seq<Call>, i: nat, j: nat)
    requires p.minEvents >= 2 && p.window >= 0 && Sound(p, s, from)
    requires InOrder(records) && (records != [] ==> from <= records[0].now)
    requires i < j < |ForwardTimes(p, s, records)|
    ensures ForwardTimes(p, s, records)[j] - ForwardTimes(p, s, records)[i] > (j - i - 1) * p.window
    decreases |records|
  {
    var now := records[0].now;
    var (s', ok) := Decide(p, s, records[0]);
    var rest := ForwardTimes(p, s', records[1..]);
    if ok {
      assert ForwardTimes(p, s, records) == [now] + rest;
      if i == 0 {
        ForwardsAreApart(p, s'.value, now, records[1..], j - 1);
        MulPred(j, p.window);
        assert now - s'.value.firstSeen <= p.window;
      } else {
        ForwardSpan(p, s', now, records[1..], i - 1, j - 1);
      }
    } else {
      assert ForwardTimes(p, s, records) == rest;
      ForwardSpan(p, s', now, records[1..], i, j);
    }
  }

  /** The entry counts the last records of `past`, the first of them at firstSeen. */
  predicate CountsTail(s: Option<Entry>, past: seq<Call>) {
    match s
    case None => past == []
    case Some(e) => 1 <= e.count <= |past| && past[|past| - e.count].now == e.firstSeen
  }

  /** Behind every forward there are MinEvents records within WindowDuration. */
  lemma {:induction false} ForwardHasEvidence(p: Policy, past: seq<Call>, s: Option<Entry>, records: seq<Call>, i: nat)
    requires CountsTail(s, past) && i < |records| && Answers(p, s, records)[i]
    ensures
      var all := past + records;
      var last := |past| + i;
      1 <= p.minEvents <= last + 1 && all[last].now - all[last + 1 - p.minEvents].now <= p.window
    decreases |records|
  {
    var (s', ok) := Decide(p, s, records[0]);
    var past' := past + [records[0]];
    assert past' + records[1..] == past + records;
    assert Answers(p, s, records) == [ok] + Answers(p, s', records[1..]);
    assert past'[|past'| - s'.value.count].now == s'.value.firstSeen;
    if i > 0 {
      ForwardHasEvidence(p, past', s', records[1..], i - 1);
    }
  }

  // ---- Anchored windows against sliding ones -----------------------------------------------

  /** Records i .. j lie within one WindowDuration. */
  predicate Burst(p: Policy, records: seq<Call>, i: nat, j: nat) {
    i <= j < |records| && records[j].now - records[i].now <= p.window
  }

  /** By record j, some window with one of the records i .. j has forwarded. */
  predicate BurstNoticed(p: Policy, records: seq<Call>, i: nat, j: nat)
    requires j < |records|
  {
    exists k: nat :: i <= k <= j && Reported(p, records, k)
  }

  /** Twice MinEvents less two records within one WindowDuration are always noticed. */
  lemma LongBurstNoticed(p: Policy, records: seq<Call>, i: nat, j: nat)
    requires p.minEvents >= 2 && InOrder(records)
    requires Burst(p, records, i, j) && j - i + 1 >= 2 * p.minEvents - 2
    ensures BurstNoticed(p, records, i, j)
  {
    var a := Anchor(p, records, j);
    ReportedExactly(p, records, j);
    if a > i {
      AnchorBetween(p, records, a, j);
      var a' := Anchor(p, records, a - 1);
      assert records[a].now - records[a'].now > p.window;
      assert a' < i;
      ReportedExactly(p, records, a - 1);
    }
  }

  /** The sliding window of the documentation: every MinEvents records within one WindowDuration are
      noticed. */
  ghost predicate SlidingHolds(p: Policy) {
    forall records, i: nat, j: nat ::
      InOrder(records) && Burst(p, records, i, j) && j - i + 1 == p.minEvents ==> BurstNoticed(p, records, i, j)
  }

  lemma WithinAnchor(p: Policy, records: seq<Call>, i: nat)
    requires p.window >= 0 && i < |records|
    ensures records[i].now - records[Anchor(p, records, i)].now <= p.window
  {
  }

  /** With a window of zero a burst is a run of equal times, and the first of them opens its window. */
  lemma InstantBurstNoticed(p: Policy, records: seq<Call>, i: nat, j: nat)
    requires p.minEvents >= 2 && p.window == 0 && InOrder(records)
    requires Burst(p, records, i, j) && j - i + 1 == p.minEvents
    ensures BurstNoticed(p, records, i, j)
  {
    forall k: nat | i < k <= j ensures !OpensWindow(p, records, k) {
      WithinAnchor(p, records, k - 1);
      assert records[i].now <= records[k - 1].now <= records[k].now <= records[j].now;
    }
    BurstReportedExactly(p, records, j);
  }

  /** One record, MinEvents - 2 at the end of its window and two just after it. */
  function Straddling(p: Policy, n: Notification): seq<Call>
    requires p.minEvents >= 3
  {
    seq(p.minEvents + 1, i => Call(n, if i == 0 then 0 else if i < p.minEvents - 1 then p.window else p.window + 1))
  }

  lemma StraddlingUnnoticed(p: Policy, n: Notification)
    requires p.minEvents >= 3 && p.window >= 1
    ensures InOrder(Straddling(p, n)) && Burst(p, Straddling(p, n), 1, p.minEvents)
    ensures !BurstNoticed(p, Straddling(p, n), 1, p.minEvents)
  {
    var records := Straddling(p, n);
    OneWindow(p, records, p.minEvents - 2);
    assert Anchor(p, records, p.minEvents - 1) == p.minEvents - 1;
    forall k: nat | 1 <= k <= p.minEvents ensures !Reported(p, records, k) {
      ReportedExactly(p, records, k);
      if k < p.minEvents - 1 {
        OneWindow(p, records, k);
      }
    }
  }

  /** Exactly which policies behave as the documentation says: the anchored window notices every such
      burst when MinEvents is 2, or when the window is zero and MinEvents more; otherwise only a policy
      that makes such bursts impossible does. */
  lemma SlidingExactly(p: Policy, n: Notification)
    ensures SlidingHolds(p) <==>
            p.minEvents == 2 || (p.minEvents > 2 && p.window == 0) || p.minEvents <= 0 || p.window < 0
  {
    if p.minEvents == 1 && p.window >= 0 {
      var records := [Call(n, 0)];
      ReportedExactly(p, records, 0);
      assert Burst(p, records, 0, 0) && !BurstNoticed(p, records, 0, 0);
    } else if p.minEvents >= 3 && p.window >= 1 {
      StraddlingUnnoticed(p, n);
    } else {
      forall records: seq<Call>, i: nat, j: nat |
        InOrder(records) && Burst(p, records, i, j) && j - i + 1 == p.minEvents
        ensures BurstNoticed(p, records, i, j)
      {
        assert records[i].now <= records[j].now;
        if p.minEvents == 2 {
          LongBurstNoticed(p, records, i, j);
        } else {
          InstantBurstNoticed(p, records, i, j);
        }
      }
    }
  }

  /** The smallest such policy: three records within one WindowDuration need not forward when an earlier
      record anchored the window. */
  lemma AnchoredNotSliding(n: Notification)
    ensures
      var p := Policy(10, 3);
      var records := [Call(n, 0), Call(n, 8), Call(n, 12), Call(n, 14)];
      records[3].now - records[1].now <= p.window && Answers(p, None, records) == [false, false, false, false]
  {
    var p := Policy(10, 3);
    var r := [Call(n, 0), Call(n, 8), Call(n, 12), Call(n, 14)];
    assert r[1..] == [Call(n, 8), Call(n, 12), Call(n, 14)];
    assert r[1..][1..] == [Call(n, 12), Call(n, 14)];
    assert r[1..][1..][1..] == [Call(n, 14)] && r[1..][1..][1..][1..] == [];
    assert Answers(p, Some(Entry(1, 12, n)), r[1..][1..][1..]) == [false];
    assert Answers(p, Some(Entry(2, 0, n)), r[1..][1..]) == [false, false];
    assert Answers(p, Some(Entry(1, 0, n)), r[1..]) == [false, false, false];
  }
}
