/** Go slices of stamps that are pruned and appended in place (window.go:57-70, throttle.go:64-77). */
module Stamps {
  import opened Common
  import Slices
  import Sliding

  /** A slice header: the backing array and the length in use; the array's length is the capacity. */
  datatype Slice = Slice(data: array<int>, len: nat)

  /** pruned := ts[:0], then append every stamp after the cutoff, all in ts's own backing array. */
  method PruneInPlace(ts: Slice, cutoff: int) returns (pruned: Slice)
    requires ts.len <= ts.data.Length
    modifies ts.data
    ensures pruned.data == ts.data && pruned.len <= ts.len
    ensures pruned.data[..pruned.len] == Sliding.Recent(old(ts.data[..ts.len]), cutoff)
  {
    var n := 0;
    for i := 0 to ts.len
      invariant n <= i
      invariant ts.data[..n] == Sliding.Recent(old(ts.data[..i]), cutoff)
      invariant ts.data[i..] == old(ts.data[i..])
    {
      var t := ts.data[i];
      assert t == old(ts.data[i..])[0] == old(ts.data[i]);
      assert old(ts.data[..i + 1]) == old(ts.data[..i]) + [t];
      Sliding.RecentSnoc(old(ts.data[..i]), t, cutoff);
      assert ts.data[i + 1..] == ts.data[i..][1..];
      if t > cutoff {
        ts.data[n] := t;
        n := n + 1;
      }
    }
    pruned := Slice(ts.data, n);
  }

  /** The loop of Count. */
  method CountRecent(ts: Slice, cutoff: int) returns (count: nat)
    requires ts.len <= ts.data.Length
    ensures count == |Sliding.Recent(ts.data[..ts.len], cutoff)|
  {
    count := 0;
    for i := 0 to ts.len
      invariant count == |Sliding.Recent(ts.data[..i], cutoff)|
    {
      assert ts.data[..i + 1] == ts.data[..i] + [ts.data[i]];
      Sliding.RecentSnoc(ts.data[..i], ts.data[i], cutoff);
      if ts.data[i] > cutoff {
        count := count + 1;
      }
    }
  }

  /** Prune, then reject or append: the part of Allow that works on one slice. */
  method AllowSlice(ts: Slice, now: int, size: int, max: int) returns (r: Slice, ok: bool)
    requires ts.len <= ts.data.Length
    modifies ts.data
    ensures r.data == ts.data || fresh(r.data)
    ensures r.len <= r.data.Length
    ensures (Some(r.data[..r.len]), ok) ==
            Sliding.Decide(size, max, Some(old(ts.data[..ts.len])), Sliding.Allow(now))
  {
    r := PruneInPlace(ts, now - size);
    ok := r.len < max;
    if ok {
      var data := Slices.Append(r.data, r.len, now);
      r := Slice(data, r.len + 1);
    }
  }

  /** A map from keys to slices; no two keys share a backing array. */
  ghost predicate Separate(m: map<string, Slice>) {
    && (forall k :: k in m ==> m[k].len <= m[k].data.Length)
    && (forall k, k' :: k in m && k' in m && k != k' ==> m[k].data != m[k'].data)
  }

  ghost function Arrays(m: map<string, Slice>): set<object> {
    set k | k in m :: m[k].data
  }

  ghost function Contents(m: map<string, Slice>): map<string, seq<int>>
    requires Separate(m)
    reads Arrays(m)
  {
    map k | k in m :: m[k].data[..m[k].len]
  }

  lemma MapUpdate(t: map<string, seq<int>>, t': map<string, seq<int>>, key: string, value: seq<int>)
    requires t'.Keys == t.Keys + {key} && t'[key] == value
    requires forall k :: k in t && k != key ==> t'[k] == t[k]
    ensures t' == t[key := value]
  {
  }

  /** The body shared by both Allow methods, once the key is known: it decides from the key's own
      stamps and leaves every other slice alone. */
  method AllowKey(m: map<string, Slice>, key: string, now: int, size: int, max: int)
    returns (m': map<string, Slice>, ok: bool)
    requires Separate(m)
    modifies Arrays(m)
    ensures Separate(m') && fresh(Arrays(m') - Arrays(m))
    ensures m'.Keys == m.Keys + {key}
    ensures (Some(m'[key].data[..m'[key].len]), ok) ==
            Sliding.Decide(size, max, Get(old(Contents(m)), key), Sliding.Allow(now))
    ensures forall k :: k in m && k != key ==>
              m'[k] == m[k] && m[k].data[..m[k].len] == old(m[k].data[..m[k].len])
  {
    var ts: Slice;
    if key in m {
      ts := m[key];
    } else {
      var empty := new int[0];
      ts := Slice(empty, 0);
    }
    assert ts.data[..ts.len] == Sliding.StampsOf(Get(Contents(m), key));
    var r;
    r, ok := AllowSlice(ts, now, size, max);
    m' := m[key := r];
  }
}

/** internal/alert/window.go. */
module WindowCounters {
  import opened Common
  import Keyed
  import Sliding
  import Stamps

  class WindowCounter {
    const size: int
    const maxEvents: nat
    var timestamps: map<string, Stamps.Slice>

    ghost predicate Valid()
      reads this
    {
      Stamps.Separate(timestamps) && size > 0 && maxEvents > 0
    }

    ghost function Footprint(): set<object>
      reads this
    {
      Stamps.Arrays(timestamps)
    }

    /** The stamps stored for each key. */
    ghost function Table(): map<string, seq<int>>
      requires Valid()
      reads this, Footprint()
    {
      Stamps.Contents(timestamps)
    }

    constructor (size: int, maxEvents: int)
      ensures Valid() && Table() == map[]
      ensures this.size == (if size <= 0 then 60_000_000_000 else size)
      ensures this.maxEvents == (if maxEvents <= 0 then 10 else maxEvents)
    {
      this.size := if size <= 0 then 60_000_000_000 else size;
      this.maxEvents := if maxEvents <= 0 then 10 else maxEvents;
      timestamps := map[];
    }

    /** The in-place code is one call of the sliding gate on the key's own stamps. */
    method Allow(key: string, now: int) returns (ok: bool)
      requires Valid()
      modifies this, Footprint()
      ensures Valid() && fresh(Footprint() - old(Footprint()))
      ensures (Table(), ok) == Keyed.Apply(Sliding.Gate(size, maxEvents), old(Table()), key, Sliding.Allow(now))
    {
      ghost var table := Table();
      timestamps, ok := Stamps.AllowKey(timestamps, key, now, size, maxEvents);
      ghost var s := Sliding.Decide(size, maxEvents, Get(table, key), Sliding.Allow(now)).0;
      assert Keyed.Apply(Sliding.Gate(size, maxEvents), table, key, Sliding.Allow(now)) == (table[key := s.value], ok);
      Stamps.MapUpdate(table, Table(), key, s.value);
    }

    method Reset(key: string)
      requires Valid()
      modifies this
      ensures Valid() && Footprint() <= old(Footprint())
      ensures Table() == old(Table()) - {key}
      ensures (Table(), true) == Keyed.Apply(Sliding.Gate(size, maxEvents), old(Table()), key, Sliding.Reset)
    {
      timestamps := timestamps - {key};
      assert Table() == old(Table()) - {key};
    }

    method Count(key: string, now: int) returns (count: nat)
      requires Valid()
      ensures count == |Sliding.Recent(Sliding.StampsOf(Get(Table(), key)), now - size)|
    {
      count := 0;
      if key in timestamps {
        count := Stamps.CountRecent(timestamps[key], now - size);
      }
    }

    /** The key has a stamp in the window that ends now. */
    ghost predicate Active(k: string, now: int)
      requires Valid()
      reads this, Footprint()
    {
      k in timestamps && exists t :: t in timestamps[k].data[..timestamps[k].len] && t > now - size
    }

    /** The active keys, each once. */
    method Keys(now: int) returns (keys: seq<string>)
      requires Valid()
      ensures forall k :: k in keys <==> Active(k, now)
      ensures forall i, j :: 0 <= i < j < |keys| ==> keys[i] != keys[j]
    {
      keys := [];
      var rest := timestamps.Keys;
      while rest != {}
        invariant rest <= timestamps.Keys
        invariant forall k :: k in keys <==> k !in rest && Active(k, now)
        invariant forall i, j :: 0 <= i < j < |keys| ==> keys[i] != keys[j]
        decreases rest
      {
        var key :| key in rest;
        rest := rest - {key};
        var active := IsActive(key, now);
        if active {
          keys := AppendNew(keys, key);
        }
      }
    }

    /** The inner loop of Keys. */
    method IsActive(key: string, now: int) returns (active: bool)
      requires Valid() && key in timestamps
      ensures active <==> Active(key, now)
    {
      var count := Stamps.CountRecent(timestamps[key], now - size);
      Sliding.RecentMembers(timestamps[key].data[..timestamps[key].len], now - size);
      active := count > 0;
    }
  }

  function AppendNew(keys: seq<string>, key: string): (r: seq<string>)
    requires key !in keys && forall i, j :: 0 <= i < j < |keys| ==> keys[i] != keys[j]
    ensures forall i, j :: 0 <= i < j < |r| ==> r[i] != r[j]
    ensures forall k :: k in r <==> k in keys || k == key
  {
    assert forall i :: 0 <= i < |keys| ==> keys[i] in keys;
    keys + [key]
  }

  /** What Allow and Count mean over a whole run: starting from an empty counter and under a
      nondecreasing clock, key k is admitted exactly when fewer than maxEvents of all its grants since
      its last Reset lie in (now - size, now], and Count is the number of those grants. Calls on other
      keys make no difference. */
  lemma CountsAllGrants(size: int, max: int, calls: seq<(string, Sliding.Call)>, k: string, from: int, later: int)
    requires
      var own := Keyed.OfKey(calls, Keyed.Payloads(calls), k);
      Sliding.Ordered(from, own) && Sliding.LastNow(from, own) <= later
    ensures
      var own := Keyed.OfKey(calls, Keyed.Payloads(calls), k);
      var (table, answers) := Keyed.Run(Sliding.Gate(size, max), map[], calls);
      var granted := Keyed.OfKey(calls, answers, k);
      && Sliding.AnsweredByGrants(size, max, own, granted)
      && |Sliding.Recent(Sliding.StampsOf(Get(table, k)), later - size)| ==
         Sliding.CountIn(Sliding.SinceReset(own, granted), later - size, later)
  {
    var own := Keyed.OfKey(calls, Keyed.Payloads(calls), k);
    Keyed.PerKey(Sliding.Gate(size, max), map[], calls, k);
    assert Get<string, seq<int>>(map[], k) == None;
    Sliding.AllAnswered(size, max, from, own);
    Sliding.StoredExactly(size, max, from, own, later);
  }
}

/** internal/alert/window_dispatcher.go: Send admits a notification by the counter's gate on the key
    of its port and state. */
module WindowDispatchers {
  import opened Common
  import Keyed
  import Keys
  import Sliding
  import opened WindowCounters

  /** A Send and the clock reading of its Allow. */
  datatype Send = Send(n: Notification, now: int)

  /** Send itself: downstream is what the next dispatcher returns; the result is None when the window
      limit is reached. */
  method Deliver(counter: WindowCounter, s: Send, downstream: Outcome) returns (result: Option<Outcome>)
    requires counter.Valid()
    modifies counter, counter.Footprint()
    ensures counter.Valid() && fresh(counter.Footprint() - old(counter.Footprint()))
    ensures (counter.Table(), result.Some?) ==
            Keyed.Apply(Sliding.Gate(counter.size, counter.maxEvents), old(counter.Table()),
                        Keys.Key(s.n.port, s.n.state), Sliding.Allow(s.now))
    ensures result.Some? ==> result.value == downstream
  {
    var ok := counter.Allow(Keys.Key(s.n.port, s.n.state), s.now);
    result := if ok then Some(downstream) else None;
  }

  function Calls(sends: seq<Send>): seq<(string, Sliding.Call)> {
    seq(|sends|, i requires 0 <= i < |sends| =>
      (Keys.Key(sends[i].n.port, sends[i].n.state), Sliding.Allow(sends[i].now)))
  }

  /** The times at which notifications of the port and state went on to the next dispatcher. */
  function Forwarded(sends: seq<Send>, admitted: seq<bool>, port: int, state: string): seq<int>
    requires |admitted| == |sends|
  {
    if sends == [] then []
    else (if sends[0].n.port == port && sends[0].n.state == state && admitted[0] then [sends[0].now] else [])
         + Forwarded(sends[1..], admitted[1..], port, state)
  }

  predicate Chronological(from: int, sends: seq<Send>)
    decreases |sends|
  {
    sends == [] || (from <= sends[0].now && Chronological(sends[0].now, sends[1..]))
  }

  /** The calls that reach one key, read off the Sends. */
  function OwnCalls(sends: seq<Send>, port: int, state: string): seq<Sliding.Call> {
    if sends == [] then []
    else (if sends[0].n.port == port && sends[0].n.state == state then [Sliding.Allow(sends[0].now)] else [])
         + OwnCalls(sends[1..], port, state)
  }

  /** By injectivity of the key, no other port and state contributes. */
  lemma {:induction false} KeySeesOwnCalls(sends: seq<Send>, port: int, state: string)
    ensures Keyed.OfKey(Calls(sends), Keyed.Payloads(Calls(sends)), Keys.Key(port, state)) ==
            OwnCalls(sends, port, state)
    decreases |sends|
  {
    if sends != [] {
      var calls := Calls(sends);
      assert calls[1..] == Calls(sends[1..]);
      assert Keyed.Payloads(calls)[1..] == Keyed.Payloads(calls[1..]);
      KeySeesOwnCalls(sends[1..], port, state);
      if calls[0].0 == Keys.Key(port, state) {
        Keys.KeyInjective(port, state, sends[0].n.port, sends[0].n.state);
      }
    }
  }

  lemma {:induction false} OwnCallsOrdered(sends: seq<Send>, port: int, state: string, from: int)
    requires Chronological(from, sends)
    ensures Sliding.Reset !in OwnCalls(sends, port, state) && Sliding.Ordered(from, OwnCalls(sends, port, state))
    decreases |sends|
  {
    if sends != [] {
      OwnCallsOrdered(sends[1..], port, state, sends[0].now);
      Sliding.OrderedEarlier(from, sends[0].now, OwnCalls(sends[1..], port, state));
      var rest := OwnCalls(sends[1..], port, state);
      if sends[0].n.port == port && sends[0].n.state == state {
        assert ([Sliding.Allow(sends[0].now)] + rest)[1..] == rest;
      } else {
        assert [] + rest == rest;
      }
    }
  }

  lemma {:induction false} ForwardedAreGrants(sends: seq<Send>, admitted: seq<bool>, port: int, state: string)
    requires |admitted| == |sends|
    ensures
      var answers := Keyed.OfKey(Calls(sends), admitted, Keys.Key(port, state));
      && |OwnCalls(sends, port, state)| == |answers|
      && Sliding.Grants(OwnCalls(sends, port, state), answers) == Forwarded(sends, admitted, port, state)
    decreases |sends|
  {
    if sends != [] {
      var calls := Calls(sends);
      assert calls[1..] == Calls(sends[1..]);
      ForwardedAreGrants(sends[1..], admitted[1..], port, state);
      var answers := Keyed.OfKey(calls[1..], admitted[1..], Keys.Key(port, state));
      var rest := OwnCalls(sends[1..], port, state);
      if calls[0].0 == Keys.Key(port, state) {
        Keys.KeyInjective(port, state, sends[0].n.port, sends[0].n.state);
        var own := [Sliding.Allow(sends[0].now)] + rest;
        assert own[1..] == rest;
        Sliding.GrantsNext(own, admitted[0], answers);
        assert OwnCalls(sends, port, state) == own;
        assert Keyed.OfKey(calls, admitted, Keys.Key(port, state)) == [admitted[0]] + answers;
      } else {
        assert OwnCalls(sends, port, state) == rest;
        assert sends[0].n.port != port || sends[0].n.state != state;
        assert Keyed.OfKey(calls, admitted, Keys.Key(port, state)) == answers;
        assert Forwarded(sends, admitted, port, state) == Forwarded(sends[1..], admitted[1..], port, state);
      }
    }
  }

  /** The dispatcher's promise: over any run of Sends under a nondecreasing clock, for every port and
      state, every interval of the window's length forwards at most maxEvents notifications, and every
      interval of length at most k windows at most k * maxEvents. */
  lemma AtMostMaxEventsForwarded(size: int, max: nat, sends: seq<Send>, from: int,
                                 port: int, state: string, a: int, b: int, k: nat)
    requires size > 0 && Chronological(from, sends) && a <= b <= a + k * size
    ensures
      var admitted := Keyed.Run(Sliding.Gate(size, max), map[], Calls(sends)).1;
      var times := Forwarded(sends, admitted, port, state);
      Sliding.InWindow(times, a, size) <= max && Sliding.CountIn(times, a, b) <= k * max
  {
    var calls := Calls(sends);
    var key := Keys.Key(port, state);
    var admitted := Keyed.Run(Sliding.Gate(size, max), map[], calls).1;
    KeySeesOwnCalls(sends, port, state);
    OwnCallsOrdered(sends, port, state, from);
    ForwardedAreGrants(sends, admitted, port, state);
    Keyed.PerKey(Sliding.Gate(size, max), map[], calls, key);
    assert Get<string, seq<int>>(map[], key) == None;
    Sliding.WindowBound(size, max, from, OwnCalls(sends, port, state), a, b, k);
  }
}

/** internal/alert/throttle.go: the same window without policy defaults; Reset clears every key. */
module Throttlers {
  import opened Common
  import Keyed
  import Keys
  import Sliding
  import Stamps

  class Throttler {
    const maxBurst: int
    const burstWindow: int
    var timestamps: map<string, Stamps.Slice>

    ghost predicate Valid()
      reads this
    {
      Stamps.Separate(timestamps)
    }

    ghost function Footprint(): set<object>
      reads this
    {
      Stamps.Arrays(timestamps)
    }

    ghost function Table(): map<string, seq<int>>
      requires Valid()
      reads this, Footprint()
    {
      Stamps.Contents(timestamps)
    }

    constructor (maxBurst: int, burstWindow: int)
      ensures Valid() && Table() == map[]
      ensures this.maxBurst == maxBurst && this.burstWindow == burstWindow
    {
      this.maxBurst, this.burstWindow := maxBurst, burstWindow;
      timestamps := map[];
    }

    method Allow(port: int, state: string, now: int) returns (ok: bool)
      requires Valid()
      modifies this, Footprint()
      ensures Valid() && fresh(Footprint() - old(Footprint()))
      ensures (Table(), ok) == Apply(burstWindow, maxBurst, old(Table()), Attempt(port, state, now))
    {
      var key := Keys.Key(port, state);
      ghost var table := Table();
      timestamps, ok := Stamps.AllowKey(timestamps, key, now, burstWindow, maxBurst);
      ghost var s := Sliding.Decide(burstWindow, maxBurst, Get(table, key), Sliding.Allow(now)).0;
      Stamps.MapUpdate(table, Table(), key, s.value);
    }

    method Reset()
      requires Valid()
      modifies this
      ensures Valid() && Table() == map[] == Apply(burstWindow, maxBurst, old(Table()), ResetAll).0
    {
      timestamps := map[];
    }
  }

  /** There is no policy default here: a burst limit of zero or less admits nothing, ever. */
  lemma {:induction false} NonPositiveBurst(
    window: int, max: int, s: Option<seq<int>>, calls: seq<Sliding.Call>, i: nat)
    requires max <= 0 && Sliding.Reset !in calls && i < |calls|
    ensures !Keyed.RunOne(Sliding.Gate(window, max), s, calls).1[i]
    decreases |calls|
  {
    if i > 0 {
      NonPositiveBurst(window, max, Sliding.Decide(window, max, s, calls[0]).0, calls[1..], i - 1);
    }
  }

  // ---- Whole runs --------------------------------------------------------------------------

  datatype Op = Attempt(port: int, state: string, now: int) | ResetAll

  function Apply(window: int, max: int, table: map<string, seq<int>>, op: Op): (map<string, seq<int>>, bool) {
    match op
    case Attempt(port, state, now) =>
      Keyed.Apply(Sliding.Gate(window, max), table, Keys.Key(port, state), Sliding.Allow(now))
    case ResetAll => (map[], true)
  }

  /** The answers of a run; a Reset answers true. */
  function Answers(window: int, max: int, table: map<string, seq<int>>, ops: seq<Op>): (answers: seq<bool>)
    ensures |answers| == |ops|
    decreases |ops|
  {
    if ops == [] then []
    else
      var (t, ok) := Apply(window, max, table, ops[0]);
      [ok] + Answers(window, max, t, ops[1..])
  }

  /** What one port and state sees of an operation: its own attempts and every Reset. */
  function Seen(op: Op, port: int, state: string): seq<Sliding.Call> {
    match op
    case Attempt(p, s, now) => if p == port && s == state then [Sliding.Allow(now)] else []
    case ResetAll => [Sliding.Reset]
  }

  function Own(ops: seq<Op>, port: int, state: string): seq<Sliding.Call> {
    if ops == [] then [] else Seen(ops[0], port, state) + Own(ops[1..], port, state)
  }

  function OwnAnswers(ops: seq<Op>, answers: seq<bool>, port: int, state: string): seq<bool>
    requires |answers| == |ops|
  {
    if ops == [] then []
    else (if Seen(ops[0], port, state) == [] then [] else [answers[0]])
         + OwnAnswers(ops[1..], answers[1..], port, state)
  }

  /** The times at which attempts of one port and state were admitted. */
  function Admitted(ops: seq<Op>, answers: seq<bool>, port: int, state: string): seq<int>
    requires |answers| == |ops|
  {
    if ops == [] then []
    else (if ops[0].Attempt? && ops[0].port == port && ops[0].state == state && answers[0] then [ops[0].now] else [])
         + Admitted(ops[1..], answers[1..], port, state)
  }

  predicate Chronological(from: int, ops: seq<Op>)
    decreases |ops|
  {
    ops == [] ||
    match ops[0]
    case ResetAll => Chronological(from, ops[1..])
    case Attempt(_, _, now) => from <= now && Chronological(now, ops[1..])
  }

  function Resets(ops: seq<Op>): nat {
    if ops == [] then 0 else (if ops[0].ResetAll? then 1 else 0) + Resets(ops[1..])
  }

  lemma SeenStep(window: int, max: int, table: map<string, seq<int>>, op: Op, port: int, state: string)
    ensures
      var key := Keys.Key(port, state);
      var (t, ok) := Apply(window, max, table, op);
      if Seen(op, port, state) == [] then Get(t, key) == Get(table, key)
      else Sliding.Decide(window, max, Get(table, key), Seen(op, port, state)[0]) == (Get(t, key), ok)
  {
    if op.Attempt? && Keys.Key(op.port, op.state) == Keys.Key(port, state) {
      Keys.KeyInjective(port, state, op.port, op.state);
    }
  }

  /** Each port and state gets the run of the sliding gate that its own attempts and the Resets make. */
  lemma {:induction false} PerPortAndState(
    window: int, max: int, table: map<string, seq<int>>, ops: seq<Op>, port: int, state: string)
    ensures
      OwnAnswers(ops, Answers(window, max, table, ops), port, state) ==
      Keyed.RunOne(Sliding.Gate(window, max), Get(table, Keys.Key(port, state)), Own(ops, port, state)).1
    decreases |ops|
  {
    if ops != [] {
      var (t, ok) := Apply(window, max, table, ops[0]);
      var rest := Answers(window, max, t, ops[1..]);
      var key := Keys.Key(port, state);
      PerPortAndState(window, max, t, ops[1..], port, state);
      SeenStep(window, max, table, ops[0], port, state);
      var own := Own(ops, port, state);
      assert ([ok] + rest)[1..] == rest;
      if Seen(ops[0], port, state) == [] {
        assert own == Own(ops[1..], port, state);
        assert OwnAnswers(ops, [ok] + rest, port, state) == OwnAnswers(ops[1..], rest, port, state);
      } else {
        assert own[0] == Seen(ops[0], port, state)[0] && own[1..] == Own(ops[1..], port, state);
        Sliding.RunOneNext(Sliding.Gate(window, max), Get(table, key), own);
        assert OwnAnswers(ops, [ok] + rest, port, state) == [ok] + OwnAnswers(ops[1..], rest, port, state);
      }
    }
  }

  lemma {:induction false} AdmittedAreGrants(ops: seq<Op>, answers: seq<bool>, port: int, state: string)
    requires |answers| == |ops|
    ensures
      var own, oks := Own(ops, port, state), OwnAnswers(ops, answers, port, state);
      |own| == |oks| && Sliding.Grants(own, oks) == Admitted(ops, answers, port, state)
      && Sliding.Resets(own) == Resets(ops)
    decreases |ops|
  {
    if ops != [] {
      var own, rest := Own(ops, port, state), Own(ops[1..], port, state);
      var oks := OwnAnswers(ops[1..], answers[1..], port, state);
      AdmittedAreGrants(ops[1..], answers[1..], port, state);
      if Seen(ops[0], port, state) == [] {
        assert own == rest;
        assert OwnAnswers(ops, answers, port, state) == oks;
        assert Admitted(ops, answers, port, state) == Admitted(ops[1..], answers[1..], port, state);
      } else {
        assert own[0] == Seen(ops[0], port, state)[0] && own[1..] == rest;
        assert OwnAnswers(ops, answers, port, state) == [answers[0]] + oks;
        Sliding.GrantsNext(own, answers[0], oks);
      }
    }
  }

  lemma {:induction false} OwnOrdered(ops: seq<Op>, port: int, state: string, from: int)
    requires Chronological(from, ops)
    ensures Sliding.Ordered(from, Own(ops, port, state))
    decreases |ops|
  {
    if ops != [] {
      var own, rest := Own(ops, port, state), Own(ops[1..], port, state);
      var from' := if ops[0].Attempt? then ops[0].now else from;
      OwnOrdered(ops[1..], port, state, from');
      Sliding.OrderedEarlier(from, from', rest);
      if Seen(ops[0], port, state) == [] {
        assert own == rest;
      } else {
        assert own[0] == Seen(ops[0], port, state)[0] && own[1..] == rest;
      }
    }
  }

  /** Under a nondecreasing clock an attempt is admitted exactly when fewer than maxBurst of all the
      admitted attempts of its port and state since the last Reset lie in the window. */
  lemma CountsSinceReset(window: int, max: int, ops: seq<Op>, from: int, port: int, state: string)
    requires Chronological(from, ops)
    ensures
      var own, granted := Own(ops, port, state), OwnAnswers(ops, Answers(window, max, map[], ops), port, state);
      Sliding.AnsweredByGrants(window, max, own, granted)
  {
    var own := Own(ops, port, state);
    PerPortAndState(window, max, map[], ops, port, state);
    assert Get<string, seq<int>>(map[], Keys.Key(port, state)) == None;
    OwnOrdered(ops, port, state, from);
    Sliding.AllAnswered(window, max, from, own);
  }

  /** For every port and state and any run of attempts and n Resets, every interval of the window's length
      admits at most (n + 1) * maxBurst attempts, and every interval of length at most k windows at most k
      times as many; without a Reset that is maxBurst per window. */
  lemma AtMostMaxBurstAdmitted(window: int, max: nat, ops: seq<Op>, from: int,
                               port: int, state: string, a: int, b: int, k: nat)
    requires window > 0 && Chronological(from, ops) && a <= b <= a + k * window
    ensures
      var times := Admitted(ops, Answers(window, max, map[], ops), port, state);
      var budget := (Resets(ops) + 1) * max;
      Sliding.InWindow(times, a, window) <= budget && Sliding.CountIn(times, a, b) <= k * budget
  {
    var own, answers := Own(ops, port, state), Answers(window, max, map[], ops);
    PerPortAndState(window, max, map[], ops, port, state);
    assert Get<string, seq<int>>(map[], Keys.Key(port, state)) == None;
    AdmittedAreGrants(ops, answers, port, state);
    OwnOrdered(ops, port, state, from);
    Sliding.WindowBoundAcrossResets(window, max, from, own, a, b, k);
    assert Sliding.Budget(max, own) == (Resets(ops) + 1) * max;
  }
}

/** internal/alert/alert.go. */
module Limiters {
  import Cooldown
  import Keyed
  import Sliding

  class Limiter {
    const cooldown: int
    var last: map<string, int>

    constructor (cooldown: int)
      ensures this.cooldown == cooldown && last == map[]
    {
      this.cooldown := cooldown;
      last := map[];
    }

    method Allow(key: string, now: int) returns (ok: bool)
      modifies this
      ensures (last, ok) == Keyed.Apply(Cooldown.Gate(cooldown), old(last), key, Sliding.Allow(now))
    {
      if key in last {
        if now - last[key] < cooldown {
          assert last[key := last[key]] == last;
          return false;
        }
      }
      last := last[key := now];
      ok := true;
    }

    method Reset(key: string)
      modifies this
      ensures last == old(last) - {key}
      ensures (last, true) == Keyed.Apply(Cooldown.Gate(cooldown), old(last), key, Sliding.Reset)
    {
      last := last - {key};
    }
  }
}

/** internal/alert/dedup.go. */
module Deduplicators {
  import Cooldown
  import Keyed
  import Sliding

  class Deduplicator {
    const window: int
    var last: map<string, int>

    constructor (window: int)
      ensures this.window == window && last == map[]
    {
      this.window := window;
      last := map[];
    }

    method Allow(key: string, now: int) returns (ok: bool)
      modifies this
      ensures (last, ok) == Keyed.Apply(Cooldown.Gate(window), old(last), key, Sliding.Allow(now))
    {
      if key in last && now - last[key] < window {
        assert last[key := last[key]] == last;
        return false;
      }
      last := last[key := now];
      ok := true;
    }

    method Reset(key: string)
      modifies this
      ensures last == old(last) - {key}
      ensures (last, true) == Keyed.Apply(Cooldown.Gate(window), old(last), key, Sliding.Reset)
    {
      last := last - {key};
    }
  }
}
