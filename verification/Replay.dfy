/** internal/alert/replay.go. Record and the two ends of Replay each hold the mutex; between them
    Replay sends without it, so other calls interleave. */
module Replay {
  import opened Common
  import Machine

  datatype Entry = Entry(note: Notification, storedAt: int)

  predicate Expired(now: int, maxAge: int, e: Entry) {
    now - e.storedAt > maxAge
  }

  /** The unexpired entries among es whose send failed, in order; accepted[i] is the result of
      sending es[i]. */
  function Unsent(now: int, maxAge: int, es: seq<Entry>, accepted: seq<bool>): seq<Entry>
    requires |accepted| == |es|
  {
    if es == [] then []
    else (if Expired(now, maxAge, es[0]) || accepted[0] then [] else [es[0]])
         + Unsent(now, maxAge, es[1..], accepted[1..])
  }

  /** One more turn of the send loop. */
  lemma {:induction false} UnsentNext(now: int, maxAge: int, es: seq<Entry>, accepted: seq<bool>, i: nat)
    requires |accepted| == |es| && i < |es|
    ensures Unsent(now, maxAge, es[..i + 1], accepted[..i + 1]) ==
            Unsent(now, maxAge, es[..i], accepted[..i])
            + (if Expired(now, maxAge, es[i]) || accepted[i] then [] else [es[i]])
  {
    if i == 0 {
      assert es[..1] == [es[0]] && accepted[..1] == [accepted[0]];
    } else {
      UnsentNext(now, maxAge, es[1..], accepted[1..], i - 1);
      assert es[..i + 1][1..] == es[1..][..i] && es[..i][1..] == es[1..][..i - 1];
      assert accepted[..i + 1][1..] == accepted[1..][..i] && accepted[..i][1..] == accepted[1..][..i - 1];
    }
  }

  /** The candidates that were too old to send. */
  function Stale(now: int, maxAge: int, es: seq<Entry>): seq<Entry> {
    if es == [] then []
    else (if Expired(now, maxAge, es[0]) then [es[0]] else []) + Stale(now, maxAge, es[1..])
  }

  /** The candidates that were sent without error. */
  function Accepted(now: int, maxAge: int, es: seq<Entry>, accepted: seq<bool>): seq<Entry>
    requires |accepted| == |es|
  {
    if es == [] then []
    else (if !Expired(now, maxAge, es[0]) && accepted[0] then [es[0]] else [])
         + Accepted(now, maxAge, es[1..], accepted[1..])
  }

  /** Each candidate meets exactly one of the three ends. */
  lemma {:induction false} CandidatesPartition(now: int, maxAge: int, es: seq<Entry>, accepted: seq<bool>)
    requires |accepted| == |es|
    ensures multiset(Stale(now, maxAge, es)) + multiset(Accepted(now, maxAge, es, accepted))
            + multiset(Unsent(now, maxAge, es, accepted)) == multiset(es)
    ensures |Unsent(now, maxAge, es, accepted)| <= |es|
  {
    if es != [] {
      var x, stale, sent, unsent := es[0], Stale(now, maxAge, es[1..]),
        Accepted(now, maxAge, es[1..], accepted[1..]), Unsent(now, maxAge, es[1..], accepted[1..]);
      CandidatesPartition(now, maxAge, es[1..], accepted[1..]);
      HeadBag(es);
      PlaceHead(x, multiset(stale), multiset(sent), multiset(unsent));
      if Expired(now, maxAge, x) {
        HeadBag([x] + stale);
      } else if accepted[0] {
        HeadBag([x] + sent);
      } else {
        HeadBag([x] + unsent);
      }
    }
  }

  lemma PlaceHead(x: Entry, a: multiset<Entry>, b: multiset<Entry>, c: multiset<Entry>)
    ensures (multiset{x} + a) + b + c == multiset{x} + (a + b + c)
    ensures a + (multiset{x} + b) + c == multiset{x} + (a + b + c)
    ensures a + b + (multiset{x} + c) == multiset{x} + (a + b + c)
  {
  }

  /** Which candidates a Replay retains. */
  function Retained(now: int, maxAge: int, es: seq<Entry>, accepted: seq<bool>): nat -> bool
    requires |accepted| == |es|
  {
    (i: nat) => i < |es| && now - es[i].storedAt <= maxAge && !accepted[i]
  }

  /** The kept entries are those at most maxAge old whose send failed, in order. */
  lemma UnsentExactly(now: int, maxAge: int, es: seq<Entry>, accepted: seq<bool>)
    requires |accepted| == |es|
    ensures Unsent(now, maxAge, es, accepted) == Filter(es, Retained(now, maxAge, es, accepted))
  {
    UnsentPrefix(now, maxAge, es, accepted, |es|);
    assert es[..|es|] == es && accepted[..|es|] == accepted;
  }

  lemma {:induction false} UnsentPrefix(now: int, maxAge: int, es: seq<Entry>, accepted: seq<bool>, n: nat)
    requires |accepted| == |es| && n <= |es|
    ensures Unsent(now, maxAge, es[..n], accepted[..n]) == Filter(es[..n], Retained(now, maxAge, es, accepted))
  {
    if n > 0 {
      UnsentPrefix(now, maxAge, es, accepted, n - 1);
      UnsentNext(now, maxAge, es, accepted, n - 1);
      FilterNext(es, n - 1, Retained(now, maxAge, es, accepted));
    }
  }

  /** The three ends by age: expired entries are older than maxAge, the others are not. */
  lemma {:induction false} EndsByAge(now: int, maxAge: int, es: seq<Entry>, accepted: seq<bool>)
    requires |accepted| == |es|
    ensures forall e :: e in Stale(now, maxAge, es) ==> now - e.storedAt > maxAge
    ensures forall e :: e in Accepted(now, maxAge, es, accepted) ==> now - e.storedAt <= maxAge
    ensures forall e :: e in Unsent(now, maxAge, es, accepted) ==> now - e.storedAt <= maxAge
  {
    if es != [] {
      EndsByAge(now, maxAge, es[1..], accepted[1..]);
    }
  }

  /** What a Push onto the buffer evicts: the oldest entry of a full one. */
  ghost function Dropped(capacity: nat, buf: seq<Entry>): multiset<Entry> {
    if |buf| >= capacity && buf != [] then multiset{buf[0]} else multiset{}
  }

  lemma PushBag(capacity: nat, buf: seq<Entry>, x: Entry)
    ensures multiset(Push(capacity, buf, x)) + Dropped(capacity, buf) == multiset(buf) + multiset{x}
  {
    if |buf| >= capacity && buf != [] {
      assert buf == [buf[0]] + buf[1..];
      assert multiset(buf) == multiset{buf[0]} + multiset(buf[1..]);
    }
  }

  lemma Exchange(a: multiset<Entry>, b: multiset<Entry>, c: multiset<Entry>, m: multiset<Entry>,
                 x: multiset<Entry>, p: multiset<Entry>, d: multiset<Entry>)
    requires p + d == m + x
    ensures a + b + c + m + x == (a + d) + b + c + p
  {
    assert a + b + c + m + x == a + b + c + (m + x);
  }

  lemma Regroup(a: multiset<Entry>, b: multiset<Entry>, c: multiset<Entry>,
                s: multiset<Entry>, t: multiset<Entry>, u: multiset<Entry>)
    ensures a + b + c + (s + t + u) == a + (b + s) + (c + t) + u
  {
  }

  lemma NewOnes(bag: multiset<Entry>, es: seq<Entry>)
    ensures forall e :: (bag + multiset(es))[e] > bag[e] ==> e in es
  {
  }

  lemma BookedByAge(now: int, maxAge: int, es: seq<Entry>, accepted: seq<bool>,
                    expired: multiset<Entry>, delivered: multiset<Entry>)
    requires |accepted| == |es|
    ensures
      var expired' := expired + multiset(Stale(now, maxAge, es));
      forall e :: expired'[e] > expired[e] ==> now - e.storedAt > maxAge
    ensures
      var delivered' := delivered + multiset(Accepted(now, maxAge, es, accepted));
      forall e :: e in Unsent(now, maxAge, es, accepted) || delivered'[e] > delivered[e] ==> now - e.storedAt <= maxAge
  {
    NewOnes(expired, Stale(now, maxAge, es));
    NewOnes(delivered, Accepted(now, maxAge, es, accepted));
    EndsByAge(now, maxAge, es, accepted);
  }

  /** The replayer when no call overlaps another. The ghost bags follow every entry ever recorded. */
  class Replayer {
    const maxEvents: nat
    const maxAge: int
    var buf: seq<Entry>
    ghost var recorded: multiset<Entry>
    ghost var evicted: multiset<Entry>
    ghost var expired: multiset<Entry>
    ghost var delivered: multiset<Entry>

    /** Every recorded entry is in exactly one place, with its multiplicity. */
    ghost predicate Valid()
      reads this
    {
      && maxEvents >= 1 && maxAge >= 1 && |buf| <= maxEvents
      && recorded == evicted + expired + delivered + multiset(buf)
    }

    constructor (maxEvents: int, maxAge: int)
      ensures Valid() && buf == [] && recorded == multiset{}
      ensures this.maxEvents == (if maxEvents <= 0 then 64 else maxEvents)
      ensures this.maxAge == (if maxAge <= 0 then 600_000_000_000 else maxAge)
    {
      this.maxEvents := if maxEvents <= 0 then 64 else maxEvents;
      this.maxAge := if maxAge <= 0 then 600_000_000_000 else maxAge;
      buf := [];
      recorded, evicted, expired, delivered := multiset{}, multiset{}, multiset{}, multiset{};
    }

    method Record(n: Notification, now: int)
      requires Valid()
      modifies this
      ensures Valid()
      ensures buf == Push(maxEvents, old(buf), Entry(n, now))
      ensures recorded == old(recorded) + multiset{Entry(n, now)}
      ensures expired == old(expired) && delivered == old(delivered)
      ensures evicted == old(evicted) + Dropped(maxEvents, old(buf))
    {
      var entry := Entry(n, now);
      PushBag(maxEvents, buf, entry);
      Exchange(evicted, expired, delivered, multiset(buf), multiset{entry},
               multiset(Push(maxEvents, buf, entry)), Dropped(maxEvents, buf));
      evicted := evicted + Dropped(maxEvents, buf);
      if |buf| >= maxEvents {
        buf := buf[1..];
      }
      buf := buf + [entry];
      recorded := recorded + multiset{entry};
    }

    /** accepted[i] is the oracle for sending the i-th buffered entry. The result is the number of
        failures that Replay reports. */
    method Replay(now: int, accepted: seq<bool>) returns (failures: nat)
      requires Valid() && |accepted| == |buf|
      modifies this
      ensures Valid()
      ensures buf == Unsent(now, maxAge, old(buf), accepted) && failures == |buf|
      ensures recorded == old(recorded) && evicted == old(evicted)
      ensures expired == old(expired) + multiset(Stale(now, maxAge, old(buf)))
      ensures delivered == old(delivered) + multiset(Accepted(now, maxAge, old(buf), accepted))
      ensures buf == Filter(old(buf), Retained(now, maxAge, old(buf), accepted))
      ensures forall e :: e in buf || delivered[e] > old(delivered[e]) ==> now - e.storedAt <= maxAge
      ensures forall e :: expired[e] > old(expired[e]) ==> now - e.storedAt > maxAge
    {
      ghost var es, exp, del := buf, expired, delivered;
      failures := Resend(now, accepted);
      BookedByAge(now, maxAge, es, accepted, exp, del);
      UnsentExactly(now, maxAge, es, accepted);
    }

    /** The copy, the loop and the write-back. */
    method Resend(now: int, accepted: seq<bool>) returns (failures: nat)
      requires Valid() && |accepted| == |buf|
      modifies this
      ensures Valid()
      ensures buf == Unsent(now, maxAge, old(buf), accepted) && failures == |buf|
      ensures recorded == old(recorded) && evicted == old(evicted)
      ensures expired == old(expired) + multiset(Stale(now, maxAge, old(buf)))
      ensures delivered == old(delivered) + multiset(Accepted(now, maxAge, old(buf), accepted))
    {
      var candidates := buf;
      var failed := SendLoop(candidates, now, accepted);
      CandidatesPartition(now, maxAge, candidates, accepted);
      Regroup(evicted, expired, delivered, multiset(Stale(now, maxAge, candidates)),
              multiset(Accepted(now, maxAge, candidates, accepted)), multiset(failed));
      buf := failed;
      expired := expired + multiset(Stale(now, maxAge, candidates));
      delivered := delivered + multiset(Accepted(now, maxAge, candidates, accepted));
      failures := |failed|;
    }

    method SendLoop(candidates: seq<Entry>, now: int, accepted: seq<bool>) returns (failed: seq<Entry>)
      requires |accepted| == |candidates|
      ensures failed == Unsent(now, maxAge, candidates, accepted)
      ensures failed == Filter(candidates, Retained(now, maxAge, candidates, accepted))
    {
      failed := [];
      for i := 0 to |candidates|
        invariant failed == Unsent(now, maxAge, candidates[..i], accepted[..i])
      {
        UnsentNext(now, maxAge, candidates, accepted, i);
        if now - candidates[i].storedAt > maxAge {
          continue;
        }
        if !accepted[i] {
          failed := failed + [candidates[i]];
        }
      }
      assert candidates[..|candidates|] == candidates && accepted[..|candidates|] == accepted;
      UnsentExactly(now, maxAge, candidates, accepted);
    }
  }

  // ---- Interleaved calls -------------------------------------------------------------------

  /** An entry with the ordinal of the Record call that stored it. */
  datatype Item = Item(id: nat, entry: Entry)

  /** One caller of Replay: between calls, or sending. The last three are history variables: how many
      Record calls had happened when the candidates were copied, the ordinals of the candidates, and
      those of them that this call found expired or delivered. */
  datatype Caller =
    | Idle
    | Sending(now: int, todo: seq<Item>, failed: seq<Item>, since: nat, copied: set<nat>, ended: set<nat>)

  /** recorded counts Record calls. The others are history variables: the ordinals of entries that were
      last pushed out of the buffer by a Record (evicted) or dropped from it by a write-back that had
      not copied them (overwritten), and of those that some call found expired or delivered. */
  datatype State = State(
    buf: seq<Item>, callers: seq<Caller>, recorded: nat,
    evicted: set<nat>, overwritten: set<nat>, expired: set<nat>, delivered: multiset<nat>)

  datatype Event =
    | Record(entry: Entry)
    | Begin(c: nat, now: int)      // lock, copy the buffer, unlock, read the clock
    | Advance(c: nat, ok: bool)    // one turn of the send loop
    | WriteBack(c: nat)            // lock, assign the failed entries, unlock

  function Ids(s: seq<Item>): set<nat> {
    set x | x in s :: x.id
  }

  function Next(maxEvents: nat, maxAge: int, s: State, e: Event): Option<State> {
    match e
    case Record(entry) =>
      var full := |s.buf| >= maxEvents && s.buf != [];
      Some(s.(buf := Push(maxEvents, s.buf, Item(s.recorded, entry)),
              recorded := s.recorded + 1,
              evicted := s.evicted + (if full then {s.buf[0].id} else {})))
    case Begin(c, now) =>
      if c < |s.callers| && s.callers[c].Idle?
      then Some(s.(callers := s.callers[c := Sending(now, s.buf, [], s.recorded, Ids(s.buf), {})])) else None
    case Advance(c, ok) =>
      if c < |s.callers| && s.callers[c].Sending? && s.callers[c].todo != [] then
        var r := s.callers[c];
        var x := r.todo[0];
        if Expired(r.now, maxAge, x.entry) then
          Some(s.(callers := s.callers[c := r.(todo := r.todo[1..], ended := r.ended + {x.id})],
                  expired := s.expired + {x.id}))
        else if ok then
          Some(s.(callers := s.callers[c := r.(todo := r.todo[1..], ended := r.ended + {x.id})],
                  delivered := s.delivered + multiset{x.id}))
        else
          Some(s.(callers := s.callers[c := r.(todo := r.todo[1..], failed := r.failed + [x])]))
      else None
    case WriteBack(c) =>
      if c < |s.callers| && s.callers[c].Sending? && s.callers[c].todo == [] then
        var r := s.callers[c];
        Some(s.(buf := r.failed, callers := s.callers[c := Idle],
                evicted := s.evicted - Ids(r.failed),
                overwritten := s.overwritten - Ids(r.failed) + (Ids(s.buf) - r.copied)))
      else None
  }

  function Step(maxEvents: nat, maxAge: int): (State, Event) -> Option<State> {
    (s, e) => Next(maxEvents, maxAge, s, e)
  }

  function Start(callers: nat): State {
    State([], seq(callers, _ => Idle), 0, {}, {}, {}, multiset{})
  }

  ghost predicate Reachable(maxEvents: nat, maxAge: int, callers: nat, s: State) {
    Machine.Reaches(Step(maxEvents, maxAge), Start(callers), s)
  }

  predicate Distinct(s: seq<Item>) {
    forall i, j :: 0 <= i < j < |s| ==> s[i].id != s[j].id
  }

  /** Some call found the entry expired or delivered it. */
  predicate Ended(s: State, id: nat) {
    id in s.expired || id in s.delivered
  }

  /** The entry is in the buffer, was pushed out or dropped from it, or has ended. */
  predicate Known(s: State, id: nat) {
    id in Ids(s.buf) || id in s.evicted || id in s.overwritten || Ended(s, id)
  }

  /** Each copied entry is still to be sent, has failed or has ended: exactly one of the three. */
  ghost predicate CallerInv(maxEvents: nat, s: State, r: Caller) {
    r.Sending? ==>
      && r.since <= s.recorded && |r.todo| + |r.failed| <= maxEvents
      && Distinct(r.todo) && Distinct(r.failed)
      && r.copied == Ids(r.todo) + Ids(r.failed) + r.ended
      && Ids(r.todo) !! Ids(r.failed) && Ids(r.todo) !! r.ended && Ids(r.failed) !! r.ended
      && (forall id :: id in r.copied ==> id < r.since)
      && (forall id :: id in r.ended ==> Ended(s, id))
  }

  ghost predicate BufferInv(maxEvents: nat, s: State) {
    && |s.buf| <= maxEvents && Distinct(s.buf)
    && Ids(s.buf) !! s.evicted && Ids(s.buf) !! s.overwritten && s.evicted !! s.overwritten
    && (forall id: nat :: Known(s, id) <==> id < s.recorded)
  }

  ghost predicate Inv(maxEvents: nat, s: State) {
    BufferInv(maxEvents, s) && forall c :: 0 <= c < |s.callers| ==> CallerInv(maxEvents, s, s.callers[c])
  }

  lemma IdsSplit(s: seq<Item>)
    requires s != []
    ensures Ids(s) == {s[0].id} + Ids(s[1..])
    ensures Distinct(s) ==> Distinct(s[1..]) && s[0].id !in Ids(s[1..])
  {
    assert s == [s[0]] + s[1..];
  }

  lemma IdsSnoc(s: seq<Item>, x: Item)
    ensures Ids(s + [x]) == Ids(s) + {x.id}
    ensures Distinct(s) && x.id !in Ids(s) ==> Distinct(s + [x])
  {
    assert x in s + [x];
    forall y | y in s ensures y in s + [x] {}
    forall i | 0 <= i < |s| ensures s[i].id in Ids(s) {}
  }

  /** A caller whose own data did not change keeps its invariant while more entries end. */
  lemma CallerFrame(maxEvents: nat, s: State, t: State, r: Caller)
    requires CallerInv(maxEvents, s, r) && s.recorded <= t.recorded
    requires forall id :: Ended(s, id) ==> Ended(t, id)
    ensures CallerInv(maxEvents, t, r)
  {
  }

  lemma RecordKeeps(maxEvents: nat, maxAge: int, s: State, entry: Entry)
    requires maxEvents >= 1 && Inv(maxEvents, s)
    ensures Inv(maxEvents, Next(maxEvents, maxAge, s, Record(entry)).value)
  {
    var x := Item(s.recorded, entry);
    var t := Next(maxEvents, maxAge, s, Record(entry)).value;
    assert !Known(s, x.id);
    if |s.buf| >= maxEvents {
      IdsSplit(s.buf);
      IdsSnoc(s.buf[1..], x);
    } else {
      IdsSnoc(s.buf, x);
    }
    forall id: nat ensures Known(t, id) <==> id < t.recorded {
      assert Known(s, id) <==> id < s.recorded;
    }
    forall c | 0 <= c < |s.callers| ensures CallerInv(maxEvents, t, t.callers[c]) {
      CallerFrame(maxEvents, s, t, s.callers[c]);
    }
  }

  lemma BeginKeeps(maxEvents: nat, maxAge: int, s: State, c: nat, now: int)
    requires Inv(maxEvents, s) && Next(maxEvents, maxAge, s, Begin(c, now)).Some?
    ensures Inv(maxEvents, Next(maxEvents, maxAge, s, Begin(c, now)).value)
  {
    var t := Next(maxEvents, maxAge, s, Begin(c, now)).value;
    forall id: nat ensures Known(t, id) <==> id < t.recorded {
      assert Known(s, id) <==> id < s.recorded;
    }
    forall d | 0 <= d < |t.callers| ensures CallerInv(maxEvents, t, t.callers[d]) {
      if d == c {
        forall id | id in Ids(s.buf) ensures id < s.recorded {
          assert Known(s, id);
        }
      } else {
        CallerFrame(maxEvents, s, t, s.callers[d]);
      }
    }
  }

  lemma AdvanceKeeps(maxEvents: nat, maxAge: int, s: State, c: nat, ok: bool)
    requires Inv(maxEvents, s) && Next(maxEvents, maxAge, s, Advance(c, ok)).Some?
    ensures Inv(maxEvents, Next(maxEvents, maxAge, s, Advance(c, ok)).value)
  {
    var t := Next(maxEvents, maxAge, s, Advance(c, ok)).value;
    var r := s.callers[c];
    var x := r.todo[0];
    assert CallerInv(maxEvents, s, r);
    IdsSplit(r.todo);
    IdsSnoc(r.failed, x);
    assert Known(s, x.id);
    forall id: nat ensures Known(t, id) <==> id < t.recorded {
      assert Known(s, id) <==> id < s.recorded;
    }
    forall d | 0 <= d < |t.callers| ensures CallerInv(maxEvents, t, t.callers[d]) {
      CallerFrame(maxEvents, s, t, s.callers[d]);
    }
  }

  lemma WriteBackKeeps(maxEvents: nat, maxAge: int, s: State, c: nat)
    requires Inv(maxEvents, s) && Next(maxEvents, maxAge, s, WriteBack(c)).Some?
    ensures Inv(maxEvents, Next(maxEvents, maxAge, s, WriteBack(c)).value)
  {
    var t := Next(maxEvents, maxAge, s, WriteBack(c)).value;
    var r := s.callers[c];
    assert CallerInv(maxEvents, s, r) && Ids(r.todo) == {};
    forall id: nat ensures Known(t, id) <==> id < t.recorded {
      assert Known(s, id) <==> id < s.recorded;
    }
    forall d | 0 <= d < |t.callers| ensures CallerInv(maxEvents, t, t.callers[d]) {
      CallerFrame(maxEvents, s, t, s.callers[d]);
    }
  }

  lemma StepKeeps(maxEvents: nat, maxAge: int, s: State, e: Event)
    requires maxEvents >= 1 && Inv(maxEvents, s) && Next(maxEvents, maxAge, s, e).Some?
    ensures Inv(maxEvents, Next(maxEvents, maxAge, s, e).value)
  {
    match e
    case Record(entry) => RecordKeeps(maxEvents, maxAge, s, entry);
    case Begin(c, now) => BeginKeeps(maxEvents, maxAge, s, c, now);
    case Advance(c, ok) => AdvanceKeeps(maxEvents, maxAge, s, c, ok);
    case WriteBack(c) => WriteBackKeeps(maxEvents, maxAge, s, c);
  }

  lemma ReachableInv(maxEvents: nat, maxAge: int, callers: nat, s: State)
    requires maxEvents >= 1 && Reachable(maxEvents, maxAge, callers, s)
    ensures Inv(maxEvents, s)
  {
    var schedule :| Machine.Exec(Step(maxEvents, maxAge), Start(callers), schedule) == Some(s);
    forall t, e | Inv(maxEvents, t) && Next(maxEvents, maxAge, t, e).Some?
      ensures Inv(maxEvents, Next(maxEvents, maxAge, t, e).value)
    {
      StepKeeps(maxEvents, maxAge, t, e);
    }
    Machine.AlwaysHolds(Step(maxEvents, maxAge), t => Inv(maxEvents, t), Start(callers), schedule);
  }

  /** When each step can be taken: a Record always, and a call begins, takes one turn per candidate and
      then writes back. */
  lemma StepsOfCall(maxEvents: nat, maxAge: int, s: State, c: nat)
    requires c < |s.callers|
    ensures forall entry :: Next(maxEvents, maxAge, s, Record(entry)).Some?
    ensures forall now :: Next(maxEvents, maxAge, s, Begin(c, now)).Some? <==> s.callers[c].Idle?
    ensures forall ok :: Next(maxEvents, maxAge, s, Advance(c, ok)).Some? <==>
                         s.callers[c].Sending? && s.callers[c].todo != []
    ensures Next(maxEvents, maxAge, s, WriteBack(c)).Some? <==> s.callers[c].Sending? && s.callers[c].todo == []
  {
  }

  /** A turn of the loop takes the oldest remaining candidate. One older than maxAge, by the call's own
      clock reading, expires; any other is sent, and is delivered or fails as the send returns. The buffer
      and the other callers are untouched. */
  lemma TurnByAge(maxEvents: nat, maxAge: int, s: State, c: nat, ok: bool)
    requires c < |s.callers| && s.callers[c].Sending? && s.callers[c].todo != []
    ensures Next(maxEvents, maxAge, s, Advance(c, ok)).Some?
    ensures
      var t := Next(maxEvents, maxAge, s, Advance(c, ok)).value;
      var r, r' := s.callers[c], t.callers[c];
      var x := r.todo[0];
      var age := r.now - x.entry.storedAt;
      && r'.Sending? && r'.todo == r.todo[1..]
      && t.expired == s.expired + (if age > maxAge then {x.id} else {})
      && t.delivered == s.delivered + (if age <= maxAge && ok then multiset{x.id} else multiset{})
      && r'.failed == r.failed + (if age <= maxAge && !ok then [x] else [])
      && t.buf == s.buf && t.callers[c := Idle] == s.callers[c := Idle]
  {
  }

  /** How the sends of call c came out, in a run. */
  function Sends(run: seq<Event>, c: nat): seq<bool> {
    if run == [] then []
    else (if run[0].Advance? && run[0].c == c then [run[0].ok] else []) + Sends(run[1..], c)
  }

  /** The failed entries of a call that has sent all its candidates, when it started to send from r. */
  predicate LoopResult(maxAge: int, r: Caller, sends: seq<bool>, through: Caller) {
    && r.Sending? && through.Sending? && |sends| == |r.todo|
    && Entries(through.failed) == Entries(r.failed) + Unsent(r.now, maxAge, Entries(r.todo), sends)
  }

  lemma LoopResultTurn(maxEvents: nat, maxAge: int, s: State, c: nat, ok: bool, sends: seq<bool>, through: Caller)
    requires c < |s.callers| && s.callers[c].Sending? && s.callers[c].todo != []
    requires LoopResult(maxAge, Next(maxEvents, maxAge, s, Advance(c, ok)).value.callers[c], sends, through)
    ensures LoopResult(maxAge, s.callers[c], [ok] + sends, through)
  {
    var r := s.callers[c];
    var t := Next(maxEvents, maxAge, s, Advance(c, ok)).value;
    TurnByAge(maxEvents, maxAge, s, c, ok);
    UnsentHead(r.now, maxAge, r.todo, [ok] + sends);
    assert ([ok] + sends)[1..] == sends;
    Reassociate(Entries(r.failed), Entries(t.callers[c].failed)[|r.failed|..],
                Unsent(r.now, maxAge, Entries(r.todo[1..]), sends));
  }

  lemma OthersTurn(maxEvents: nat, maxAge: int, s: State, e: Event, c: nat)
    requires Next(maxEvents, maxAge, s, e).Some? && c < |s.callers| && s.callers[c].Sending?
    requires e != WriteBack(c) && !(e.Advance? && e.c == c)
    ensures
      var t := Next(maxEvents, maxAge, s, e).value;
      |t.callers| == |s.callers| && t.callers[c] == s.callers[c]
  {
  }

  /** A call's loop is unaffected by what interleaves with it: when it is through, its failed entries are
      the candidates at most maxAge old whose own send failed, in order. */
  lemma {:induction false} LoopUnaffected(maxEvents: nat, maxAge: int, s: State, c: nat, run: seq<Event>, t: State)
    requires c < |s.callers| && s.callers[c].Sending? && WriteBack(c) !in run
    requires Machine.Exec(Step(maxEvents, maxAge), s, run) == Some(t)
    requires c < |t.callers| && t.callers[c].Sending? && t.callers[c].todo == []
    ensures LoopResult(maxAge, s.callers[c], Sends(run, c), t.callers[c])
    decreases |run|
  {
    if run == [] {
      assert Entries(t.callers[c].failed) + [] == Entries(t.callers[c].failed);
    } else {
      var e, u := run[0], Next(maxEvents, maxAge, s, run[0]).value;
      var rest := Sends(run[1..], c);
      if e.Advance? && e.c == c {
        LoopUnaffected(maxEvents, maxAge, u, c, run[1..], t);
        LoopResultTurn(maxEvents, maxAge, s, c, e.ok, rest, t.callers[c]);
      } else {
        OthersTurn(maxEvents, maxAge, s, e, c);
        LoopUnaffected(maxEvents, maxAge, u, c, run[1..], t);
        assert [] + rest == rest;
      }
    }
  }

  /** A Record stores its entry as the sequential method does. */
  lemma RecordAlone(maxEvents: nat, maxAge: int, s: State, entry: Entry)
    ensures
      var t := Next(maxEvents, maxAge, s, Record(entry)).value;
      && Entries(t.buf) == Push(maxEvents, Entries(s.buf), entry)
      && t.callers == s.callers && t.recorded == s.recorded + 1
  {
  }

  /** Whatever Records and Replays interleave: an entry was recorded if and only if it is buffered, was
      pushed out, was dropped by a write-back that had not copied it, or has expired or been delivered.
      The first three exclude each other, and the buffer holds no entry twice and keeps its bound. */
  lemma Conservation(maxEvents: nat, maxAge: int, callers: nat, s: State)
    requires maxEvents >= 1 && Reachable(maxEvents, maxAge, callers, s)
    ensures |s.buf| <= maxEvents && Distinct(s.buf)
    ensures Ids(s.buf) !! s.evicted && Ids(s.buf) !! s.overwritten && s.evicted !! s.overwritten
    ensures forall id: nat :: Known(s, id) <==> id < s.recorded
  {
    ReachableInv(maxEvents, maxAge, callers, s);
  }

  // ---- What a write-back loses -------------------------------------------------------------

  /** A write-back discards from the buffer exactly the entries that its own call found expired or
      delivered, and those that its call had not copied. */
  lemma WriteBackDiscards(maxEvents: nat, maxAge: int, callers: nat, s: State, c: nat, id: nat)
    requires maxEvents >= 1 && Reachable(maxEvents, maxAge, callers, s)
    requires Next(maxEvents, maxAge, s, WriteBack(c)).Some? && id in Ids(s.buf)
    ensures
      var r := s.callers[c];
      && (id !in Ids(Next(maxEvents, maxAge, s, WriteBack(c)).value.buf) <==> id in r.ended || id !in r.copied)
      && (id in r.ended ==> id in r.copied && Ended(s, id))
  {
    ReachableInv(maxEvents, maxAge, callers, s);
    assert CallerInv(maxEvents, s, s.callers[c]);
  }

  /** What one write-back loses, with any number of callers: a buffered entry leaves without having been
      ended by that call if and only if the call had not copied it, and the history books exactly these
      as overwritten. Every other copied entry stays or has ended. */
  lemma OverwriteExact(maxEvents: nat, maxAge: int, callers: nat, s: State, c: nat)
    requires maxEvents >= 1 && Reachable(maxEvents, maxAge, callers, s)
    requires Next(maxEvents, maxAge, s, WriteBack(c)).Some?
    ensures
      var t := Next(maxEvents, maxAge, s, WriteBack(c)).value;
      var r := s.callers[c];
      && (forall id :: id in Ids(s.buf) && id !in Ids(t.buf) && id !in r.ended <==> id in Ids(s.buf) - r.copied)
      && t.overwritten - s.overwritten == Ids(s.buf) - r.copied
      && (forall id :: id in r.copied && !Ended(s, id) ==> id in Ids(t.buf))
  {
    ReachableInv(maxEvents, maxAge, callers, s);
    assert CallerInv(maxEvents, s, s.callers[c]);
  }

  /** The event puts the entry into the buffer. */
  predicate Brings(s: State, e: Event, id: nat) {
    match e
    case Record(_) => id == s.recorded
    case WriteBack(c) => c < |s.callers| && s.callers[c].Sending? && id in Ids(s.callers[c].failed)
    case _ => false
  }

  /** Event i of the run from s puts the entry into the buffer. */
  predicate BroughtAt(maxEvents: nat, maxAge: int, s: State, run: seq<Event>, i: nat, id: nat) {
    i < |run| &&
    match Machine.Exec(Step(maxEvents, maxAge), s, run[..i])
    case None => false
    case Some(t) => Brings(t, run[i], id)
  }

  lemma BroughtLater(maxEvents: nat, maxAge: int, s: State, run: seq<Event>, i: nat, id: nat)
    requires run != [] && Next(maxEvents, maxAge, s, run[0]).Some?
    requires BroughtAt(maxEvents, maxAge, Next(maxEvents, maxAge, s, run[0]).value, run[1..], i, id)
    ensures BroughtAt(maxEvents, maxAge, s, run, i + 1, id)
  {
    assert run[..i + 1][1..] == run[1..][..i];
  }

  /** What is in the buffer after a run was there before, or one of the run's events put it there. */
  lemma {:induction false} HowItCame(maxEvents: nat, maxAge: int, s: State, run: seq<Event>, id: nat)
    requires Machine.Exec(Step(maxEvents, maxAge), s, run).Some?
    requires id in Ids(Machine.Exec(Step(maxEvents, maxAge), s, run).value.buf)
    ensures id in Ids(s.buf) || exists i: nat :: BroughtAt(maxEvents, maxAge, s, run, i, id)
    decreases |run|
  {
    if run != [] {
      var t := Next(maxEvents, maxAge, s, run[0]).value;
      HowItCame(maxEvents, maxAge, t, run[1..], id);
      if i: nat :| BroughtAt(maxEvents, maxAge, t, run[1..], i, id) {
        BroughtLater(maxEvents, maxAge, s, run, i, id);
      } else if id !in Ids(s.buf) {
        StepBrings(maxEvents, maxAge, s, run[0], id);
        assert run[..0] == [];
        assert BroughtAt(maxEvents, maxAge, s, run, 0, id);
      }
    }
  }

  lemma StepBrings(maxEvents: nat, maxAge: int, s: State, e: Event, id: nat)
    requires Next(maxEvents, maxAge, s, e).Some? && id !in Ids(s.buf)
    requires id in Ids(Next(maxEvents, maxAge, s, e).value.buf)
    ensures Brings(s, e, id)
  {
    if e.Record? {
      var x := Item(s.recorded, e.entry);
      IdsSnoc(s.buf, x);
      if s.buf != [] {
        IdsSplit(s.buf);
        IdsSnoc(s.buf[1..], x);
      }
    }
  }

  /** Until its own write-back, a call keeps the copy it began with. */
  lemma {:induction false} CopyIsKept(maxEvents: nat, maxAge: int, s: State, run: seq<Event>, c: nat)
    requires Machine.Exec(Step(maxEvents, maxAge), s, run).Some? && WriteBack(c) !in run
    requires c < |s.callers| && s.callers[c].Sending?
    ensures
      var t := Machine.Exec(Step(maxEvents, maxAge), s, run).value;
      && |t.callers| == |s.callers| && t.callers[c].Sending?
      && t.callers[c].copied == s.callers[c].copied && t.callers[c].since == s.callers[c].since
    decreases |run|
  {
    if run != [] {
      CopyIsKept(maxEvents, maxAge, Next(maxEvents, maxAge, s, run[0]).value, run[1..], c);
    }
  }

  /** The caller can see the cause of every loss: what a write-back loses was put into the buffer, after
      the call had copied it, by a Record or by the write-back of another call. When neither happened in
      between nothing is lost. */
  lemma LossIsInterference(maxEvents: nat, maxAge: int, s: State, c: nat, now: int, run: seq<Event>, id: nat)
    requires Next(maxEvents, maxAge, s, Begin(c, now)).Some? && WriteBack(c) !in run
    requires Machine.Exec(Step(maxEvents, maxAge), Next(maxEvents, maxAge, s, Begin(c, now)).value, run).Some?
    ensures
      var begun := Next(maxEvents, maxAge, s, Begin(c, now)).value;
      var t := Machine.Exec(Step(maxEvents, maxAge), begun, run).value;
      && c < |t.callers| && t.callers[c].Sending? && t.callers[c].copied == Ids(s.buf)
      && (id in Ids(t.buf) - t.callers[c].copied ==>
            exists i: nat :: BroughtAt(maxEvents, maxAge, begun, run, i, id)
                             && (run[i].Record? || (run[i].WriteBack? && run[i].c != c)))
      && ((forall e :: e in run ==> !e.Record? && !e.WriteBack?) ==> Ids(t.buf) <= t.callers[c].copied)
  {
    var begun := Next(maxEvents, maxAge, s, Begin(c, now)).value;
    var t := Machine.Exec(Step(maxEvents, maxAge), begun, run).value;
    CopyIsKept(maxEvents, maxAge, begun, run, c);
    if id in Ids(t.buf) - t.callers[c].copied {
      HowItCame(maxEvents, maxAge, begun, run, id);
      var i: nat :| BroughtAt(maxEvents, maxAge, begun, run, i, id);
      assert run[i] in run;
    }
    if forall e :: e in run ==> !e.Record? && !e.WriteBack? {
      forall x | x in Ids(t.buf) ensures x in Ids(s.buf) {
        HowItCame(maxEvents, maxAge, begun, run, x);
        if i: nat :| BroughtAt(maxEvents, maxAge, begun, run, i, x) {
          assert run[i] in run;
        }
      }
    }
  }

  /** Of the n entries recorded since the snapshot, those not pushed out by newer ones are the tail of
      the buffer; the rest of the buffer was copied. */
  predicate TailIsNew(maxEvents: nat, s: State, since: nat, copied: set<nat>) {
    && since <= s.recorded && |s.buf| <= maxEvents
    && var n := s.recorded - since;
    && (n <= |s.buf| || |s.buf| == maxEvents)
    && (forall j :: 0 <= j < |s.buf| ==>
          if j >= |s.buf| - n then s.buf[j].id == s.recorded - |s.buf| + j
          else s.buf[j].id in copied)
  }

  lemma {:induction false} TailGrows(
    maxEvents: nat, maxAge: int, s: State, run: seq<Event>, since: nat, copied: set<nat>)
    requires maxEvents >= 1 && TailIsNew(maxEvents, s, since, copied)
    requires Machine.Exec(Step(maxEvents, maxAge), s, run).Some? && forall e :: e in run ==> !e.WriteBack?
    ensures TailIsNew(maxEvents, Machine.Exec(Step(maxEvents, maxAge), s, run).value, since, copied)
    decreases |run|
  {
    if run != [] {
      var t := Next(maxEvents, maxAge, s, run[0]).value;
      if run[0].Record? {
        TailPush(maxEvents, maxAge, s, run[0].entry, since, copied);
      } else {
        assert run[0] in run && t.buf == s.buf && t.recorded == s.recorded;
      }
      TailGrows(maxEvents, maxAge, t, run[1..], since, copied);
    }
  }

  lemma TailPush(maxEvents: nat, maxAge: int, s: State, entry: Entry, since: nat, copied: set<nat>)
    requires maxEvents >= 1 && TailIsNew(maxEvents, s, since, copied)
    ensures TailIsNew(maxEvents, Next(maxEvents, maxAge, s, Record(entry)).value, since, copied)
  {
    var t := Next(maxEvents, maxAge, s, Record(entry)).value;
    var d := if |s.buf| >= maxEvents then 1 else 0;
    assert forall j :: 0 <= j < |t.buf| - 1 ==> t.buf[j] == s.buf[j + d];
  }

  /** When no write-back of another call comes between a call's snapshot and its own write-back, with
      any number of callers, the loss has a closed form: the last min(n, MaxEvents) of the n entries
      recorded in between. So nothing is lost if and only if nothing was recorded. */
  lemma UncontendedLoss(maxEvents: nat, maxAge: int, callers: nat, s: State, c: nat, now: int, run: seq<Event>)
    requires maxEvents >= 1 && Reachable(maxEvents, maxAge, callers, s)
    requires Next(maxEvents, maxAge, s, Begin(c, now)).Some? && forall e :: e in run ==> !e.WriteBack?
    requires Machine.Exec(Step(maxEvents, maxAge), Next(maxEvents, maxAge, s, Begin(c, now)).value, run).Some?
    ensures
      var begun := Next(maxEvents, maxAge, s, Begin(c, now)).value;
      var t := Machine.Exec(Step(maxEvents, maxAge), begun, run).value;
      && c < |t.callers| && t.callers[c].Sending? && s.recorded <= t.recorded
      && (forall id: nat :: id in Ids(t.buf) - t.callers[c].copied <==>
                            s.recorded <= id < t.recorded && t.recorded - maxEvents <= id)
      && (Ids(t.buf) <= t.callers[c].copied <==> t.recorded == s.recorded)
  {
    ReachableInv(maxEvents, maxAge, callers, s);
    var begun := Next(maxEvents, maxAge, s, Begin(c, now)).value;
    var t := Machine.Exec(Step(maxEvents, maxAge), begun, run).value;
    var copied := Ids(s.buf);
    CopyIsKept(maxEvents, maxAge, begun, run, c);
    forall j | 0 <= j < |s.buf| ensures s.buf[j].id in copied {}
    TailGrows(maxEvents, maxAge, begun, run, s.recorded, copied);
    forall id: nat
      ensures id in Ids(t.buf) - copied <==> s.recorded <= id < t.recorded && t.recorded - maxEvents <= id
    {
      TailMembers(maxEvents, s, t, id);
    }
    if s.recorded < t.recorded {
      assert t.recorded - 1 in Ids(t.buf) - copied;
    }
  }

  lemma TailMembers(maxEvents: nat, s: State, t: State, id: nat)
    requires maxEvents >= 1 && BufferInv(maxEvents, s) && TailIsNew(maxEvents, t, s.recorded, Ids(s.buf))
    ensures id in Ids(t.buf) - Ids(s.buf) <==>
            s.recorded <= id < t.recorded && t.recorded - maxEvents <= id
  {
    if id in Ids(s.buf) {
      assert Known(s, id);
    }
    if s.recorded <= id < t.recorded && t.recorded - maxEvents <= id {
      var j := id + |t.buf| - t.recorded;
      assert 0 <= j < |t.buf| && t.buf[j].id == id && t.buf[j] in t.buf;
    }
  }

  /** The entry was recorded and neither the buffer nor any caller's loop holds it any more. */
  ghost predicate Gone(s: State, id: nat) {
    && id < s.recorded && id !in Ids(s.buf)
    && forall c :: 0 <= c < |s.callers| && s.callers[c].Sending? ==>
         id !in Ids(s.callers[c].todo) && id !in Ids(s.callers[c].failed)
  }

  /** The histories agree about the entry. */
  predicate SameFate(s: State, t: State, id: nat) {
    && (id in s.evicted <==> id in t.evicted) && (id in s.overwritten <==> id in t.overwritten)
    && (id in s.expired <==> id in t.expired) && s.delivered[id] == t.delivered[id]
  }

  lemma GoneStep(maxEvents: nat, maxAge: int, s: State, e: Event, id: nat)
    requires Gone(s, id) && Next(maxEvents, maxAge, s, e).Some?
    ensures
      var t := Next(maxEvents, maxAge, s, e).value;
      Gone(t, id) && SameFate(s, t, id)
  {
    match e
    case Record(entry) =>
      if id in Ids(Push(maxEvents, s.buf, Item(s.recorded, entry))) {
        StepBrings(maxEvents, maxAge, s, e, id);
      }
      if s.buf != [] {
        IdsSplit(s.buf);
      }
    case Begin(c, now) =>
    case Advance(c, ok) =>
      var r := s.callers[c];
      IdsSplit(r.todo);
      IdsSnoc(r.failed, r.todo[0]);
    case WriteBack(c) =>
  }

  /** The loss is final: once neither the buffer nor a caller's loop holds an entry, no continuation of
      the run delivers, expires, evicts or buffers it. */
  lemma {:induction false} LostForGood(maxEvents: nat, maxAge: int, s: State, schedule: seq<Event>, id: nat)
    requires Gone(s, id) && Machine.Exec(Step(maxEvents, maxAge), s, schedule).Some?
    ensures
      var t := Machine.Exec(Step(maxEvents, maxAge), s, schedule).value;
      Gone(t, id) && SameFate(s, t, id)
    decreases |schedule|
  {
    if schedule != [] {
      var t := Next(maxEvents, maxAge, s, schedule[0]).value;
      GoneStep(maxEvents, maxAge, s, schedule[0], id);
      LostForGood(maxEvents, maxAge, t, schedule[1..], id);
    }
  }

  lemma OneId(x: Item)
    ensures Ids([]) == {} && Ids([x]) == {x.id}
  {
    assert x in [x];
  }

  function Fresh(buf: seq<Item>, callers: seq<Caller>): State {
    State(buf, callers, |buf|, {}, {}, {}, multiset{})
  }

  lemma FirstRecord(maxEvents: nat, maxAge: int, callers: seq<Caller>, entry: Entry)
    ensures Next(maxEvents, maxAge, Fresh([], callers), Record(entry)) == Some(Fresh([Item(0, entry)], callers))
  {
    var t := Next(maxEvents, maxAge, Fresh([], callers), Record(entry)).value;
    assert t.buf == [Item(0, entry)] && t.evicted == {};
  }

  /** The write-back of a call that began with an empty buffer. */
  lemma EmptyWriteBack(maxEvents: nat, maxAge: int, s: State, x: Item, c: nat)
    requires s.buf == [x] && c < |s.callers| && s.callers[c].Sending?
    requires s.callers[c].todo == s.callers[c].failed == [] && s.callers[c].copied == {}
    ensures Next(maxEvents, maxAge, s, WriteBack(c)) ==
            Some(s.(buf := [], callers := s.callers[c := Idle], overwritten := s.overwritten + {x.id}))
  {
    OneId(x);
    var t := Next(maxEvents, maxAge, s, WriteBack(c)).value;
    assert t.evicted == s.evicted && t.overwritten == s.overwritten + {x.id};
  }

  /** The loss does occur: an entry recorded while a Replay of an empty buffer is under way is gone
      afterwards, neither sent, nor expired, nor evicted. */
  lemma RecordDuringReplayIsLost(maxEvents: nat, maxAge: int, entry: Entry, now: int) returns (s: State)
    requires maxEvents >= 1
    ensures Reachable(maxEvents, maxAge, 1, s) && Gone(s, 0) && s.overwritten == {0}
    ensures s.expired == s.evicted == {} && s.delivered == multiset{}
  {
    var step := Step(maxEvents, maxAge);
    var x, call := Item(0, entry), Sending(now, [], [], 0, {}, {});
    OneId(x);
    Machine.ReachSelf(step, Start(1));
    s := Machine.ReachStep(step, Start(1), Start(1), Begin(0, now));
    assert s == Fresh([], [call]);
    FirstRecord(maxEvents, maxAge, [call], entry);
    s := Machine.ReachStep(step, Start(1), s, Record(entry));
    EmptyWriteBack(maxEvents, maxAge, s, x, 0);
    s := Machine.ReachStep(step, Start(1), s, WriteBack(0));
  }

  /** Caller 0 writes back an empty buffer over an entry that caller 1 has meanwhile copied. */
  lemma OverwrittenWhileHeld(maxEvents: nat, maxAge: int, entry: Entry) returns (s: State)
    requires maxEvents >= 1
    ensures Reachable(maxEvents, maxAge, 2, s)
    ensures
      var held := Sending(entry.storedAt, [Item(0, entry)], [], 1, {0}, {});
      s == State([], [Idle, held], 1, {}, {0}, {}, multiset{})
  {
    var step := Step(maxEvents, maxAge);
    var x, now := Item(0, entry), entry.storedAt;
    var first := Sending(now, [], [], 0, {}, {});
    OneId(x);
    Machine.ReachSelf(step, Start(2));
    s := Machine.ReachStep(step, Start(2), Start(2), Begin(0, now));
    assert s == Fresh([], [first, Idle]);
    FirstRecord(maxEvents, maxAge, [first, Idle], entry);
    s := Machine.ReachStep(step, Start(2), s, Record(entry));
    s := Machine.ReachStep(step, Start(2), s, Begin(1, now));
    assert s == Fresh([x], [first, Sending(now, [x], [], 1, {0}, {})]);
    EmptyWriteBack(maxEvents, maxAge, s, x, 0);
    s := Machine.ReachStep(step, Start(2), s, WriteBack(0));
  }

  /** Caller 1 then fails to send the entry, while caller 0 has begun again with the empty buffer. */
  lemma FailedWhileSending(maxEvents: nat, maxAge: int, entry: Entry) returns (s: State)
    requires maxEvents >= 1 && maxAge >= 0
    ensures Reachable(maxEvents, maxAge, 2, s)
    ensures
      var now := entry.storedAt;
      var failed := Sending(now, [], [Item(0, entry)], 1, {0}, {});
      s == State([], [Sending(now, [], [], 1, {}, {}), failed], 1, {}, {0}, {}, multiset{})
  {
    var step := Step(maxEvents, maxAge);
    var x, now := Item(0, entry), entry.storedAt;
    OneId(x);
    s := OverwrittenWhileHeld(maxEvents, maxAge, entry);
    s := Machine.ReachStep(step, Start(2), s, Begin(0, now));
    assert s == State([], [Sending(now, [], [], 1, {}, {}), Sending(now, [x], [], 1, {0}, {})],
                      1, {}, {0}, {}, multiset{});
    assert [] + [x] == [x] && [x][1..] == [];
    s := Machine.ReachStep(step, Start(2), s, Advance(1, false));
  }

  lemma ReturnedByWriteBack(maxEvents: nat, maxAge: int, s: State, x: Item, c: nat)
    requires c < |s.callers| && s.callers[c].Sending? && s.callers[c].todo == [] && s.callers[c].failed == [x]
    requires s.buf == [] && s.evicted == {} && s.overwritten == {x.id}
    ensures Next(maxEvents, maxAge, s, WriteBack(c)) ==
            Some(s.(buf := [x], callers := s.callers[c := Idle], overwritten := {}))
  {
    OneId(x);
    var t := Next(maxEvents, maxAge, s, WriteBack(c)).value;
    assert t.evicted == {} && t.overwritten == {};
  }

  /** With two callers an entry that failed to send, was written back and is older than the other call's
      snapshot is lost as well, although nothing was recorded since that snapshot. */
  lemma FailedEntryIsLost(maxEvents: nat, maxAge: int, entry: Entry) returns (s: State, t: State)
    requires maxEvents >= 1 && maxAge >= 0
    ensures Reachable(maxEvents, maxAge, 2, s) && Next(maxEvents, maxAge, s, WriteBack(0)) == Some(t)
    ensures s.callers[0].Sending? && s.callers[0].since == s.recorded && Ids(s.buf) == {0}
    ensures Gone(t, 0) && t.overwritten == {0}
    ensures t.expired == t.evicted == {} && t.delivered == multiset{}
  {
    var x := Item(0, entry);
    OneId(x);
    var before := FailedWhileSending(maxEvents, maxAge, entry);
    ReturnedByWriteBack(maxEvents, maxAge, before, x, 1);
    s := Machine.ReachStep(Step(maxEvents, maxAge), Start(2), before, WriteBack(1));
    assert s.callers == [before.callers[0], Idle];
    EmptyWriteBack(maxEvents, maxAge, s, x, 0);
    t := Next(maxEvents, maxAge, s, WriteBack(0)).value;
    assert t.callers == [Idle, Idle];
  }

  // ---- Deliveries --------------------------------------------------------------------------

  /** One caller: what was delivered is not sent again. */
  ghost predicate SoloInv(s: State) {
    && |s.callers| == 1
    && (forall id :: s.delivered[id] <= 1)
    && match s.callers[0]
       case Idle => forall id :: id in s.delivered ==> id !in Ids(s.buf)
       case Sending(_, todo, failed, _, _, _) =>
         forall id :: id in s.delivered ==> id !in Ids(todo) && id !in Ids(failed)
  }

  lemma DeliveredIsOld(maxEvents: nat, maxAge: int, s: State, e: Event, id: nat)
    requires maxEvents >= 1 && Inv(maxEvents, s) && e.Record? && id in s.delivered
    requires id in Ids(Next(maxEvents, maxAge, s, e).value.buf)
    ensures id in Ids(s.buf)
  {
    assert Known(s, id);
    if id !in Ids(s.buf) {
      StepBrings(maxEvents, maxAge, s, e, id);
    }
  }

  lemma SoloStep(maxEvents: nat, maxAge: int, s: State, e: Event)
    requires maxEvents >= 1 && Inv(maxEvents, s) && SoloInv(s) && Next(maxEvents, maxAge, s, e).Some?
    ensures SoloInv(Next(maxEvents, maxAge, s, e).value)
  {
    match e
    case Record(entry) =>
      forall id | id in s.delivered && id in Ids(Next(maxEvents, maxAge, s, e).value.buf)
        ensures id in Ids(s.buf)
      {
        DeliveredIsOld(maxEvents, maxAge, s, e, id);
      }
    case Begin(c, now) =>
    case Advance(c, ok) => SoloAdvance(maxEvents, maxAge, s, ok);
    case WriteBack(c) =>
  }

  lemma SoloAdvance(maxEvents: nat, maxAge: int, s: State, ok: bool)
    requires Inv(maxEvents, s) && SoloInv(s) && Next(maxEvents, maxAge, s, Advance(0, ok)).Some?
    ensures SoloInv(Next(maxEvents, maxAge, s, Advance(0, ok)).value)
  {
    var r := s.callers[0];
    assert CallerInv(maxEvents, s, r);
    IdsSplit(r.todo);
    IdsSnoc(r.failed, r.todo[0]);
  }

  /** With a single caller every entry is delivered at most once. */
  lemma DeliveredOnce(maxEvents: nat, maxAge: int, s: State, id: nat)
    requires maxEvents >= 1 && Reachable(maxEvents, maxAge, 1, s)
    ensures s.delivered[id] <= 1
  {
    var schedule :| Machine.Exec(Step(maxEvents, maxAge), Start(1), schedule) == Some(s);
    var inv := (t: State) => Inv(maxEvents, t) && SoloInv(t);
    forall t, e | inv(t) && Next(maxEvents, maxAge, t, e).Some?
      ensures inv(Next(maxEvents, maxAge, t, e).value)
    {
      StepKeeps(maxEvents, maxAge, t, e);
      SoloStep(maxEvents, maxAge, t, e);
    }
    Machine.AlwaysHolds(Step(maxEvents, maxAge), inv, Start(1), schedule);
  }

  /** The caller has the entry among those still to send, and not too old for this call. */
  predicate Pending(maxAge: int, r: Caller, id: nat) {
    r.Sending? && exists x :: x in r.todo && x.id == id && r.now - x.entry.storedAt <= maxAge
  }

  /** Some call can still send the entry: it is pending or has failed in a caller's loop, or it is in the
      buffer and some caller is free to begin. */
  ghost predicate Deliverable(maxAge: int, s: State, id: nat) {
    || (exists c :: 0 <= c < |s.callers| && Pending(maxAge, s.callers[c], id))
    || (exists c :: 0 <= c < |s.callers| && s.callers[c].Sending? && id in Ids(s.callers[c].failed))
    || (id in Ids(s.buf) && exists c :: 0 <= c < |s.callers| && s.callers[c].Idle?)
  }

  /** No step makes an entry deliverable, and only deliverable entries are delivered. */
  lemma DeliverableBefore(maxEvents: nat, maxAge: int, s: State, e: Event, id: nat)
    requires Next(maxEvents, maxAge, s, e).Some? && id < s.recorded
    requires
      var t := Next(maxEvents, maxAge, s, e).value;
      t.delivered[id] > s.delivered[id] || Deliverable(maxAge, t, id)
    ensures Deliverable(maxAge, s, id)
  {
    var t := Next(maxEvents, maxAge, s, e).value;
    match e
    case Record(entry) =>
      assert t.callers == s.callers;
      if id in Ids(t.buf) && id !in Ids(s.buf) {
        StepBrings(maxEvents, maxAge, s, e, id);
      }
    case Begin(c, now) =>
    case Advance(c, ok) =>
      var r := s.callers[c];
      IdsSnoc(r.failed, r.todo[0]);
      assert r.todo[0] in r.todo;
    case WriteBack(c) =>
  }

  /** A caller that sends one after another until it comes to the entry. */
  lemma {:induction false} SendPending(maxEvents: nat, maxAge: int, s: State, c: nat, id: nat)
    returns (schedule: seq<Event>)
    requires c < |s.callers| && Pending(maxAge, s.callers[c], id)
    ensures Delivers(maxEvents, maxAge, s, schedule, id)
    decreases |s.callers[c].todo|
  {
    var r := s.callers[c];
    var x := r.todo[0];
    if x.id == id && !Expired(r.now, maxAge, x.entry) {
      var t := Next(maxEvents, maxAge, s, Advance(c, true)).value;
      schedule := [Advance(c, true)];
      assert schedule[1..] == [] && Machine.Exec(Step(maxEvents, maxAge), t, []) == Some(t);
    } else {
      var t := Next(maxEvents, maxAge, s, Advance(c, false)).value;
      var y :| y in r.todo && y.id == id && !Expired(r.now, maxAge, y.entry);
      assert y in t.callers[c].todo;
      var rest := SendPending(maxEvents, maxAge, t, c, id);
      DeliversAfter(maxEvents, maxAge, s, Advance(c, false), rest, id);
      schedule := [Advance(c, false)] + rest;
    }
  }

  /** The schedule is a run from s that delivers the entry. */
  predicate Delivers(maxEvents: nat, maxAge: int, s: State, schedule: seq<Event>, id: nat) {
    match Machine.Exec(Step(maxEvents, maxAge), s, schedule)
    case None => false
    case Some(t) => t.delivered[id] > s.delivered[id]
  }

  lemma DeliversAfter(maxEvents: nat, maxAge: int, s: State, e: Event, schedule: seq<Event>, id: nat)
    requires Next(maxEvents, maxAge, s, e).Some?
    requires Delivers(maxEvents, maxAge, Next(maxEvents, maxAge, s, e).value, schedule, id)
    requires Next(maxEvents, maxAge, s, e).value.delivered[id] >= s.delivered[id]
    ensures Delivers(maxEvents, maxAge, s, [e] + schedule, id)
  {
    assert ([e] + schedule)[1..] == schedule;
  }

  /** A free caller takes the entry from the buffer, with a clock that does not expire it. */
  lemma SendBuffered(maxEvents: nat, maxAge: int, s: State, c: nat, id: nat) returns (schedule: seq<Event>)
    requires maxAge >= 0 && c < |s.callers| && s.callers[c].Idle? && id in Ids(s.buf)
    ensures Delivers(maxEvents, maxAge, s, schedule, id)
  {
    var x :| x in s.buf && x.id == id;
    var e := Begin(c, x.entry.storedAt);
    var t := Next(maxEvents, maxAge, s, e).value;
    assert x in t.callers[c].todo && !Expired(t.callers[c].now, maxAge, x.entry);
    var rest := SendPending(maxEvents, maxAge, t, c, id);
    DeliversAfter(maxEvents, maxAge, s, e, rest, id);
    schedule := [e] + rest;
  }

  /** A caller that has failed to send the entry finishes, writes it back and begins again. */
  lemma {:induction false} SendFailed(maxEvents: nat, maxAge: int, s: State, c: nat, id: nat)
    returns (schedule: seq<Event>)
    requires maxAge >= 0 && c < |s.callers| && s.callers[c].Sending? && id in Ids(s.callers[c].failed)
    ensures Delivers(maxEvents, maxAge, s, schedule, id)
    decreases |s.callers[c].todo|
  {
    var r := s.callers[c];
    var rest;
    if r.todo == [] {
      var t := Next(maxEvents, maxAge, s, WriteBack(c)).value;
      rest := SendBuffered(maxEvents, maxAge, t, c, id);
      DeliversAfter(maxEvents, maxAge, s, WriteBack(c), rest, id);
      schedule := [WriteBack(c)] + rest;
    } else {
      var t := Next(maxEvents, maxAge, s, Advance(c, false)).value;
      IdsSnoc(r.failed, r.todo[0]);
      rest := SendFailed(maxEvents, maxAge, t, c, id);
      DeliversAfter(maxEvents, maxAge, s, Advance(c, false), rest, id);
      schedule := [Advance(c, false)] + rest;
    }
  }

  lemma {:induction false} DeliveriesNeed(maxEvents: nat, maxAge: int, s: State, schedule: seq<Event>, id: nat)
    requires id < s.recorded && Delivers(maxEvents, maxAge, s, schedule, id)
    ensures Deliverable(maxAge, s, id)
    decreases |schedule|
  {
    var t := Next(maxEvents, maxAge, s, schedule[0]).value;
    if t.delivered[id] <= s.delivered[id] {
      DeliveriesNeed(maxEvents, maxAge, t, schedule[1..], id);
    }
    DeliverableBefore(maxEvents, maxAge, s, schedule[0], id);
  }

  /** Exactly when an entry can be delivered, for the first time or, with several callers, again: in any
      state with any number of callers, some continuation delivers it if and only if it is deliverable. */
  lemma DeliverableExactly(maxEvents: nat, maxAge: int, s: State, id: nat)
    requires maxAge >= 0 && id < s.recorded
    ensures (exists schedule :: Delivers(maxEvents, maxAge, s, schedule, id)) <==> Deliverable(maxAge, s, id)
  {
    if schedule :| Delivers(maxEvents, maxAge, s, schedule, id) {
      DeliveriesNeed(maxEvents, maxAge, s, schedule, id);
    }
    if Deliverable(maxAge, s, id) {
      var schedule;
      if c :| 0 <= c < |s.callers| && Pending(maxAge, s.callers[c], id) {
        schedule := SendPending(maxEvents, maxAge, s, c, id);
      } else if c :| 0 <= c < |s.callers| && s.callers[c].Sending? && id in Ids(s.callers[c].failed) {
        schedule := SendFailed(maxEvents, maxAge, s, c, id);
      } else {
        var c :| 0 <= c < |s.callers| && s.callers[c].Idle?;
        schedule := SendBuffered(maxEvents, maxAge, s, c, id);
      }
    }
  }

  /** Two callers have begun with the same single entry. */
  lemma BothHold(maxEvents: nat, maxAge: int, entry: Entry) returns (s: State)
    requires maxEvents >= 1
    ensures Reachable(maxEvents, maxAge, 2, s)
    ensures
      var copy := Sending(entry.storedAt, [Item(0, entry)], [], 1, {0}, {});
      s == Fresh([Item(0, entry)], [copy, copy])
  {
    var step := Step(maxEvents, maxAge);
    var x, now := Item(0, entry), entry.storedAt;
    var copy := Sending(now, [x], [], 1, {0}, {});
    OneId(x);
    Machine.ReachSelf(step, Start(2));
    assert Start(2) == Fresh([], [Idle, Idle]);
    FirstRecord(maxEvents, maxAge, [Idle, Idle], entry);
    s := Machine.ReachStep(step, Start(2), Start(2), Record(entry));
    s := Machine.ReachStep(step, Start(2), s, Begin(0, now));
    assert s == Fresh([x], [copy, Idle]);
    s := Machine.ReachStep(step, Start(2), s, Begin(1, now));
    assert s == Fresh([x], [copy, copy]);
  }

  /** Two overlapping calls can deliver the same entry twice. */
  lemma DeliveredTwice(maxEvents: nat, maxAge: int, entry: Entry) returns (s: State)
    requires maxEvents >= 1 && maxAge >= 0
    ensures Reachable(maxEvents, maxAge, 2, s) && s.delivered[0] == 2
  {
    var step := Step(maxEvents, maxAge);
    s := BothHold(maxEvents, maxAge, entry);
    var copy := s.callers[1];
    TurnByAge(maxEvents, maxAge, s, 0, true);
    s := Machine.ReachStep(step, Start(2), s, Advance(0, true));
    assert s.callers[1] == copy;
    TurnByAge(maxEvents, maxAge, s, 1, true);
    s := Machine.ReachStep(step, Start(2), s, Advance(1, true));
  }

  // ---- Calls that nothing interleaves with -------------------------------------------------

  function Advances(c: nat, accepted: seq<bool>): seq<Event> {
    if accepted == [] then [] else [Advance(c, accepted[0])] + Advances(c, accepted[1..])
  }

  function Entries(s: seq<Item>): seq<Entry> {
    seq(|s|, i requires 0 <= i < |s| => s[i].entry)
  }

  /** Caller c is in its loop and the buffer is still the one it copied. */
  ghost predicate Undisturbed(s: State, c: nat) {
    && c < |s.callers| && s.callers[c].Sending? && Ids(s.buf) == s.callers[c].copied
    && Ids(s.callers[c].todo) + Ids(s.callers[c].failed) <= s.callers[c].copied
    && s.callers[c].copied !! s.overwritten
  }

  lemma AdvanceAlone(maxEvents: nat, maxAge: int, s: State, c: nat, ok: bool)
    requires Undisturbed(s, c) && s.callers[c].todo != []
    ensures
      var r := s.callers[c];
      var e := r.todo[0].entry;
      var next := Next(maxEvents, maxAge, s, Advance(c, ok));
      && next.Some? && Undisturbed(next.value, c) && next.value.overwritten == s.overwritten
      && next.value.callers[c := Idle] == s.callers[c := Idle]
      && next.value.callers[c].now == r.now && next.value.callers[c].todo == r.todo[1..]
      && Entries(next.value.callers[c].failed) ==
         Entries(r.failed) + (if Expired(r.now, maxAge, e) || ok then [] else [e])
  {
    var r := s.callers[c];
    IdsSplit(r.todo);
    IdsSnoc(r.failed, r.todo[0]);
  }

  lemma WriteBackAlone(maxEvents: nat, maxAge: int, s: State, c: nat)
    requires Undisturbed(s, c) && s.callers[c].todo == []
    ensures
      var result := Machine.Exec(Step(maxEvents, maxAge), s, [WriteBack(c)]);
      && result.Some? && result.value.callers == s.callers[c := Idle]
      && result.value.overwritten == s.overwritten && result.value.buf == s.callers[c].failed
  {
    var t := Next(maxEvents, maxAge, s, WriteBack(c)).value;
    assert t.overwritten == s.overwritten;
    assert [WriteBack(c)][1..] == [];
    assert Machine.Exec(Step(maxEvents, maxAge), t, []) == Some(t);
  }

  lemma UnsentHead(now: int, maxAge: int, todo: seq<Item>, accepted: seq<bool>)
    requires |accepted| == |todo| > 0
    ensures
      var e := todo[0].entry;
      Unsent(now, maxAge, Entries(todo), accepted) ==
      (if Expired(now, maxAge, e) || accepted[0] then [] else [e])
      + Unsent(now, maxAge, Entries(todo[1..]), accepted[1..])
  {
    assert Entries(todo)[1..] == Entries(todo[1..]);
  }

  /** The send loop of one caller, run without interruption and then written back. */
  lemma {:induction false} LoopAlone(maxEvents: nat, maxAge: int, s: State, c: nat, accepted: seq<bool>)
    requires Undisturbed(s, c) && |accepted| == |s.callers[c].todo|
    ensures
      var r := s.callers[c];
      var result := Machine.Exec(Step(maxEvents, maxAge), s, Advances(c, accepted) + [WriteBack(c)]);
      && result.Some? && result.value.callers == s.callers[c := Idle]
      && result.value.overwritten == s.overwritten
      && Entries(result.value.buf) == Entries(r.failed) + Unsent(r.now, maxAge, Entries(r.todo), accepted)
    decreases |accepted|
  {
    var step := Step(maxEvents, maxAge);
    var schedule := Advances(c, accepted) + [WriteBack(c)];
    var r := s.callers[c];
    if accepted == [] {
      assert schedule == [WriteBack(c)];
      WriteBackAlone(maxEvents, maxAge, s, c);
    } else {
      assert schedule[0] == Advance(c, accepted[0]);
      assert schedule[1..] == Advances(c, accepted[1..]) + [WriteBack(c)];
      AdvanceAlone(maxEvents, maxAge, s, c, accepted[0]);
      var t := step(s, schedule[0]).value;
      LoopAlone(maxEvents, maxAge, t, c, accepted[1..]);
      assert Machine.Exec(step, s, schedule) == Machine.Exec(step, t, schedule[1..]);
      UnsentHead(r.now, maxAge, r.todo, accepted);
      Reassociate(Entries(r.failed), Entries(t.callers[c].failed)[|r.failed|..],
                  Unsent(r.now, maxAge, Entries(r.todo[1..]), accepted[1..]));
    }
  }

  /** A Replay that nothing interleaves with overwrites nothing and leaves exactly the unexpired
      entries whose send failed, in their order: the result of the sequential method. */
  lemma UninterruptedReplay(maxEvents: nat, maxAge: int, callers: nat, s: State, c: nat, now: int, accepted: seq<bool>)
    requires maxEvents >= 1 && Reachable(maxEvents, maxAge, callers, s)
    requires c < |s.callers| && s.callers[c].Idle? && |accepted| == |s.buf|
    ensures
      var run := [Begin(c, now)] + (Advances(c, accepted) + [WriteBack(c)]);
      var result := Machine.Exec(Step(maxEvents, maxAge), s, run);
      && result.Some? && result.value.overwritten == s.overwritten
      && Entries(result.value.buf) == Unsent(now, maxAge, Entries(s.buf), accepted)
  {
    Conservation(maxEvents, maxAge, callers, s);
    var step := Step(maxEvents, maxAge);
    var run := [Begin(c, now)] + (Advances(c, accepted) + [WriteBack(c)]);
    var t := step(s, Begin(c, now)).value;
    assert run[0] == Begin(c, now) && run[1..] == Advances(c, accepted) + [WriteBack(c)];
    LoopAlone(maxEvents, maxAge, t, c, accepted);
  }
}
