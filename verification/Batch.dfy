/** internal/alert/batch.go: a buffer that is flushed into fresh slices and reused in place. */
module Batching {
  import opened Common
  import Slices

  function Concat(batches: seq<seq<Notification>>): seq<Notification> {
    if batches == [] then [] else Concat(batches[..|batches| - 1]) + batches[|batches| - 1]
  }

  lemma ConcatSnoc(batches: seq<seq<Notification>>, b: seq<Notification>)
    ensures Concat(batches + [b]) == Concat(batches) + b
  {
    assert (batches + [b])[..|batches|] == batches;
  }

  /** The arrays hold these contents. */
  ghost predicate Hold(arrays: seq<array<Notification>>, contents: seq<seq<Notification>>)
    reads arrays
  {
    |arrays| == |contents| && forall i :: 0 <= i < |arrays| ==> arrays[i][..] == contents[i]
  }

  class Batcher {
    const maxSize: nat
    /** buf[..len] is the Go slice; the array is its backing store. */
    var buf: array<Notification>
    var len: nat
    /** The slices handed to flushFn, in the order they were made. */
    var batches: seq<array<Notification>>
    /** What those slices held when they were made, and everything ever added. */
    ghost var snapshots: seq<seq<Notification>>
    ghost var added: seq<Notification>

    /** Nothing is lost, repeated or reordered; every batch has 1..MaxSize items and still holds what it
        was made with, for it never shares the buffer's backing array. */
    ghost predicate Valid()
      reads this, buf, batches
    {
      && len <= buf.Length && len < maxSize
      && buf !in batches && Hold(batches, snapshots)
      && (forall i :: 0 <= i < |snapshots| ==> 1 <= |snapshots[i]| <= maxSize)
      && Concat(snapshots) + buf[..len] == added
    }

    ghost function View(): State
      requires len <= buf.Length
      reads this, buf
    {
      State(snapshots, buf[..len])
    }

    constructor (maxSize: int)
      ensures Valid() && fresh(buf) && added == [] && batches == []
      ensures this.maxSize == if maxSize <= 0 then 10 else maxSize
    {
      this.maxSize := if maxSize <= 0 then 10 else maxSize;
      buf := new Notification[0];
      len, batches, snapshots, added := 0, [], [], [];
    }

    /** flush: copy the slice, hand the copy over, and truncate to buf[:0]. */
    method Flush()
      requires len <= buf.Length && len <= maxSize && maxSize > 0
      requires buf !in batches && Hold(batches, snapshots)
      requires forall i :: 0 <= i < |snapshots| ==> 1 <= |snapshots[i]| <= maxSize
      requires Concat(snapshots) + buf[..len] == added
      modifies this`len, this`batches, this`snapshots
      ensures Valid() && len == 0
      ensures snapshots == old(snapshots) + (if old(len) == 0 then [] else [old(buf[..len])])
      ensures old(batches) <= batches && forall b :: b in batches && b !in old(batches) ==> fresh(b)
    {
      if len == 0 {
        return;
      }
      var snap := Slices.Copy(buf, len, len);
      assert snap[..] == buf[..len];
      ConcatSnoc(snapshots, buf[..len]);
      batches := batches + [snap];
      snapshots := snapshots + [buf[..len]];
      len := 0;
    }

    method Add(n: Notification)
      requires Valid()
      modifies this, buf
      ensures Valid() && added == old(added) + [n]
      ensures old(batches) <= batches && forall b :: b in batches && b !in old(batches) ==> fresh(b)
      ensures buf == old(buf) || fresh(buf)
      ensures View() == Apply(maxSize, old(View()), Op.Add(n))
      ensures old(len) + 1 < maxSize ==>
                snapshots == old(snapshots) && buf[..len] == old(buf[..len]) + [n]
      ensures old(len) + 1 >= maxSize ==>
                snapshots == old(snapshots) + [old(buf[..len]) + [n]] && len == 0
    {
      buf := Slices.Append(buf, len, n);
      len := len + 1;
      added := added + [n];
      assert Concat(snapshots) + old(buf[..len]) + [n] == Concat(snapshots) + (old(buf[..len]) + [n]);
      if len >= maxSize {
        Flush();
      }
    }

    /** One tick of Run: the lock is held around flush. */
    method Tick()
      requires Valid()
      modifies this`len, this`batches, this`snapshots
      ensures Valid() && View() == Apply(maxSize, old(View()), Op.Tick)
      ensures len == 0 && snapshots == old(snapshots) + (if old(len) == 0 then [] else [old(buf[..len])])
      ensures old(batches) <= batches && forall b :: b in batches && b !in old(batches) ==> fresh(b)
    {
      Flush();
    }
  }

  // ---- Whole runs --------------------------------------------------------------------------

  datatype Op = Add(n: Notification) | Tick

  /** The snapshots made and the items still buffered. */
  datatype State = State(snapshots: seq<seq<Notification>>, buffered: seq<Notification>)

  function Cut(s: State): State {
    if s.buffered == [] then s else State(s.snapshots + [s.buffered], [])
  }

  /** One operation, as the contracts of Add and Tick state it. */
  function Apply(maxSize: nat, s: State, op: Op): State {
    match op
    case Add(n) =>
      var t := s.(buffered := s.buffered + [n]);
      if |t.buffered| >= maxSize then Cut(t) else t
    case Tick => Cut(s)
  }

  function Run(maxSize: nat, ops: seq<Op>): State {
    if ops == [] then State([], []) else Apply(maxSize, Run(maxSize, ops[..|ops| - 1]), ops[|ops| - 1])
  }

  function Added(ops: seq<Op>): seq<Notification> {
    if ops == [] then []
    else Added(ops[..|ops| - 1]) + (if ops[|ops| - 1].Add? then [ops[|ops| - 1].n] else [])
  }

  lemma CutKeeps(maxSize: nat, s: State)
    requires |s.buffered| <= maxSize
    requires forall i :: 0 <= i < |s.snapshots| ==> 1 <= |s.snapshots[i]| <= maxSize
    ensures Concat(Cut(s).snapshots) + Cut(s).buffered == Concat(s.snapshots) + s.buffered
    ensures forall i :: 0 <= i < |Cut(s).snapshots| ==> 1 <= |Cut(s).snapshots[i]| <= maxSize
    ensures Cut(s).buffered == []
  {
    if s.buffered != [] {
      ConcatSnoc(s.snapshots, s.buffered);
    }
  }

  lemma OpConserves(maxSize: nat, s: State, op: Op)
    requires |s.buffered| < maxSize
    requires forall i :: 0 <= i < |s.snapshots| ==> 1 <= |s.snapshots[i]| <= maxSize
    ensures
      var t := Apply(maxSize, s, op);
      && Concat(t.snapshots) + t.buffered == Concat(s.snapshots) + s.buffered + (if op.Add? then [op.n] else [])
      && |t.buffered| < maxSize
      && forall i :: 0 <= i < |t.snapshots| ==> 1 <= |t.snapshots[i]| <= maxSize
  {
    match op
    case Add(n) => CutKeeps(maxSize, s.(buffered := s.buffered + [n]));
    case Tick => CutKeeps(maxSize, s);
  }

  /** For every interleaving of Adds and ticks, the batches in the order they were made, followed by
      the buffer, are exactly the notifications added, in order; each batch has 1..MaxSize items. */
  lemma {:induction false} RunConserves(maxSize: nat, ops: seq<Op>)
    requires maxSize > 0
    ensures
      var s := Run(maxSize, ops);
      && Concat(s.snapshots) + s.buffered == Added(ops) && |s.buffered| < maxSize
      && forall i :: 0 <= i < |s.snapshots| ==> 1 <= |s.snapshots[i]| <= maxSize
    decreases |ops|
  {
    if ops != [] {
      var init, op := ops[..|ops| - 1], ops[|ops| - 1];
      RunConserves(maxSize, init);
      OpConserves(maxSize, Run(maxSize, init), op);
      assert Added(init) + [] == Added(init);
    }
  }

  /** Where the cuts are: an Add cuts a batch exactly when it is the MaxSize-th item since the last cut,
      and the batch then has MaxSize items; a tick cuts exactly when something is buffered. */
  lemma CutsExactly(maxSize: nat, ops: seq<Op>, op: Op)
    requires maxSize > 0
    ensures
      var s, t := Run(maxSize, ops), Run(maxSize, ops + [op]);
      match op
      case Add(n) =>
        if |s.buffered| + 1 == maxSize
        then t.buffered == [] && t.snapshots == s.snapshots + [s.buffered + [n]]
        else t.buffered == s.buffered + [n] && t.snapshots == s.snapshots
      case Tick =>
        t.buffered == [] && t.snapshots == s.snapshots + (if s.buffered == [] then [] else [s.buffered])
  {
    assert (ops + [op])[..|ops|] == ops;
    RunConserves(maxSize, ops);
  }

  /** The flush that Run makes when its context is cancelled leaves nothing behind. */
  lemma CancellationFlushesAll(maxSize: nat, ops: seq<Op>)
    requires maxSize > 0
    ensures Run(maxSize, ops + [Tick]).buffered == []
    ensures Concat(Run(maxSize, ops + [Tick]).snapshots) == Added(ops)
  {
    RunConserves(maxSize, ops);
    assert (ops + [Tick])[..|ops|] == ops;
    var s := Run(maxSize, ops);
    CutKeeps(maxSize, s);
    assert Concat(Cut(s).snapshots) + [] == Concat(Cut(s).snapshots);
  }
}
