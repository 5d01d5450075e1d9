/** internal/alert/priorityqueue.go. */
module PriorityQueues {
  import opened Common

  /** A queued notification with its priority, 0 (low) to 3 (critical). */
  datatype Item = Item(note: Notification, priority: int)

  predicate InRange(priority: int) {
    0 <= priority <= 3
  }

  ghost predicate AllInRange(items: seq<Item>) {
    forall i :: 0 <= i < |items| ==> InRange(items[i].priority)
  }

  /** The items of one priority, in order. */
  function Level(items: seq<Item>, p: int): seq<Item> {
    if items == [] then []
    else Level(items[..|items| - 1], p) + (if items[|items| - 1].priority == p then [items[|items| - 1]] else [])
  }

  function Notes(items: seq<Item>): seq<Notification> {
    seq(|items|, i requires 0 <= i < |items| => items[i].note)
  }

  /** Highest priority first, arrival order within a priority. */
  function Delivery(items: seq<Item>): seq<Item> {
    From(items, 3)
  }

  /** The levels from p down to 0. */
  function From(items: seq<Item>, p: int): seq<Item>
    requires p >= -1
    decreases p + 1
  {
    if p < 0 then [] else Level(items, p) + From(items, p - 1)
  }

  ghost predicate Descending(items: seq<Item>) {
    forall i, j :: 0 <= i < j < |items| ==> items[i].priority >= items[j].priority
  }

  /** The same items of every priority in the same order. */
  ghost predicate SameLevels(a: seq<Item>, b: seq<Item>) {
    forall p :: Level(a, p) == Level(b, p)
  }

  /** A rearrangement of `items` with priorities descending that keeps the order within each. */
  ghost predicate StableSort(items: seq<Item>, sorted: seq<Item>) {
    Descending(sorted) && multiset(sorted) == multiset(items) && SameLevels(sorted, items)
  }

  lemma {:induction false} LevelMembers(items: seq<Item>, p: int)
    ensures forall i :: 0 <= i < |Level(items, p)| ==> Level(items, p)[i].priority == p && Level(items, p)[i] in items
  {
    if items != [] {
      LevelMembers(items[..|items| - 1], p);
    }
  }

  lemma {:induction false} LevelConcat(a: seq<Item>, b: seq<Item>, p: int)
    ensures Level(a + b, p) == Level(a, p) + Level(b, p)
    decreases |b|
  {
    if b == [] {
      assert a + b == a;
    } else {
      LevelConcat(a, b[..|b| - 1], p);
      assert (a + b)[..|a + b| - 1] == a + b[..|b| - 1];
    }
  }

  lemma {:induction false} LevelOfUniform(items: seq<Item>, q: int, p: int)
    requires forall i :: 0 <= i < |items| ==> items[i].priority == q
    ensures Level(items, p) == if p == q then items else []
  {
    if items != [] {
      LevelOfUniform(items[..|items| - 1], q, p);
    }
  }

  lemma LevelOfLevel(items: seq<Item>, q: int, p: int)
    ensures Level(Level(items, q), p) == if p == q then Level(items, q) else []
  {
    LevelMembers(items, q);
    LevelOfUniform(Level(items, q), q, p);
  }

  lemma {:induction false} LevelOfFrom(items: seq<Item>, k: int, p: int)
    requires k >= -1
    ensures Level(From(items, k), p) == if 0 <= p <= k then Level(items, p) else []
    decreases k + 1
  {
    if k >= 0 {
      LevelConcat(Level(items, k), From(items, k - 1), p);
      LevelOfLevel(items, k, p);
      LevelOfFrom(items, k - 1, p);
      assert [] + Level(From(items, k - 1), p) == Level(From(items, k - 1), p);
      assert Level(items, p) + [] == Level(items, p);
    }
  }

  lemma {:induction false} LevelOutOfRange(items: seq<Item>, p: int)
    requires AllInRange(items) && !InRange(p)
    ensures Level(items, p) == []
  {
    if items != [] {
      LevelOutOfRange(items[..|items| - 1], p);
    }
  }

  lemma DescendingConcat(a: seq<Item>, b: seq<Item>, k: int)
    requires forall i :: 0 <= i < |a| ==> a[i].priority == k
    requires Descending(b) && forall i :: 0 <= i < |b| ==> b[i].priority < k
    ensures Descending(a + b) && forall i :: 0 <= i < |a + b| ==> (a + b)[i].priority <= k
  {
  }

  lemma {:induction false} FromDescends(items: seq<Item>, k: int)
    requires k >= -1
    ensures Descending(From(items, k))
    ensures forall i :: 0 <= i < |From(items, k)| ==> From(items, k)[i].priority <= k
    decreases k + 1
  {
    if k >= 0 {
      LevelMembers(items, k);
      FromDescends(items, k - 1);
      DescendingConcat(Level(items, k), From(items, k - 1), k);
    }
  }

  lemma {:induction false} LevelMultiplicity(items: seq<Item>, x: Item)
    ensures multiset(Level(items, x.priority))[x] == multiset(items)[x]
  {
    if items != [] {
      var init, y := items[..|items| - 1], items[|items| - 1];
      LevelMultiplicity(init, x);
      assert items == init + [y];
      assert multiset(items) == multiset(init) + multiset{y};
      assert multiset(Level(init, x.priority) + [y]) == multiset(Level(init, x.priority)) + multiset{y};
    }
  }

  lemma SameLevelsSameItems(a: seq<Item>, b: seq<Item>)
    requires SameLevels(a, b)
    ensures multiset(a) == multiset(b)
  {
    forall x ensures multiset(a)[x] == multiset(b)[x] {
      LevelMultiplicity(a, x);
      LevelMultiplicity(b, x);
      assert Level(a, x.priority) == Level(b, x.priority);
    }
  }

  /** The delivery order is a stable sort by descending priority. */
  lemma DeliveryIsStableSort(items: seq<Item>)
    requires AllInRange(items)
    ensures StableSort(items, Delivery(items))
  {
    forall p ensures Level(Delivery(items), p) == Level(items, p) {
      LevelOfFrom(items, 3, p);
      if !InRange(p) {
        LevelOutOfRange(items, p);
      }
    }
    SameLevelsSameItems(Delivery(items), items);
    FromDescends(items, 3);
  }

  /** And it is the only one. */
  lemma {:induction false} StableSortUnique(a: seq<Item>, b: seq<Item>)
    requires Descending(a) && Descending(b) && SameLevels(a, b)
    ensures a == b
    decreases |a| + |b|
  {
    if a == [] || b == [] {
      EmptyLevels(a, b);
    } else {
      SameLast(a, b);
      DropLast(a, b);
      StableSortUnique(a[..|a| - 1], b[..|b| - 1]);
      assert a == a[..|a| - 1] + [a[|a| - 1]] && b == b[..|b| - 1] + [b[|b| - 1]];
    }
  }

  lemma LastInLevel(a: seq<Item>)
    requires a != []
    ensures
      var level := Level(a, a[|a| - 1].priority);
      level != [] && level[|level| - 1] == a[|a| - 1]
  {
  }

  lemma EmptyLevels(a: seq<Item>, b: seq<Item>)
    requires SameLevels(a, b) && (a == [] || b == [])
    ensures a == b
  {
    if a != [] {
      LastInLevel(a);
    }
    if b != [] {
      LastInLevel(b);
    }
  }

  lemma SameLast(a: seq<Item>, b: seq<Item>)
    requires a != [] && b != [] && Descending(a) && Descending(b) && SameLevels(a, b)
    ensures a[|a| - 1] == b[|b| - 1]
  {
    LastIsLeast(a, b);
    LastIsLeast(b, a);
    LastInLevel(a);
    LastInLevel(b);
    assert Level(a, a[|a| - 1].priority) == Level(b, a[|a| - 1].priority);
  }

  lemma DropLast(a: seq<Item>, b: seq<Item>)
    requires a != [] && b != [] && a[|a| - 1] == b[|b| - 1] && SameLevels(a, b)
    ensures SameLevels(a[..|a| - 1], b[..|b| - 1])
  {
    var a', b' := a[..|a| - 1], b[..|b| - 1];
    forall p ensures Level(a', p) == Level(b', p) {
      assert Level(a, p) == Level(b, p);
      if a[|a| - 1].priority == p {
        assert Level(a', p) == Level(a, p)[..|Level(a, p)| - 1];
        assert Level(b', p) == Level(b, p)[..|Level(b, p)| - 1];
      } else {
        assert Level(a', p) == Level(a, p) && Level(b', p) == Level(b, p);
      }
    }
  }

  lemma LastIsLeast(a: seq<Item>, b: seq<Item>)
    requires a != [] && b != [] && Descending(a) && SameLevels(a, b)
    ensures a[|a| - 1].priority <= b[|b| - 1].priority
  {
    var y := b[|b| - 1];
    assert Level(b, y.priority) == Level(a, y.priority);
    assert y in Level(b, y.priority) by {
      assert Level(b, y.priority)[|Level(b, y.priority)| - 1] == y;
    }
    LevelMembers(a, y.priority);
    var i :| 0 <= i < |a| && a[i] == y;
  }

  lemma {:induction false} FromSame(items: seq<Item>, rest: seq<Item>, k: int)
    requires k >= -1 && forall q :: 0 <= q <= k ==> Level(rest, q) == Level(items, q)
    ensures From(items, k) == From(rest, k)
    decreases k + 1
  {
    if k >= 0 {
      FromSame(items, rest, k - 1);
    }
  }

  /** rest is items without the first one of priority p. */
  ghost predicate Taken(items: seq<Item>, p: int, first: Item, rest: seq<Item>) {
    && Level(items, p) != [] && first == Level(items, p)[0]
    && forall q :: Level(rest, q) == if q == p then Level(items, p)[1..] else Level(items, q)
  }

  ghost predicate EmptyAbove(items: seq<Item>, p: int) {
    forall q :: p < q <= 3 ==> Level(items, q) == []
  }

  lemma HeadOfFrom(items: seq<Item>, p: int, first: Item, rest: seq<Item>)
    requires 0 <= p && Taken(items, p, first, rest)
    ensures From(items, p) == [first] + From(rest, p)
  {
    FromSame(items, rest, p - 1);
    var level := Level(items, p);
    assert level == [first] + level[1..];
    ConsConcat(first, Level(rest, p), From(rest, p - 1));
  }

  lemma {:induction false} SkipEmpty(items: seq<Item>, p: int, k: int)
    requires 0 <= p <= k <= 3 && EmptyAbove(items, p)
    ensures From(items, k) == From(items, p)
    decreases k
  {
    if k > p {
      SkipEmpty(items, p, k - 1);
      assert Level(items, k) == [];
    }
  }

  /** Taking the first item of the highest occupied priority takes the first item to deliver. */
  lemma DeliveryHead(items: seq<Item>, p: int, first: Item, rest: seq<Item>)
    requires 0 <= p <= 3 && Taken(items, p, first, rest) && EmptyAbove(items, p)
    ensures Delivery(items) == [first] + Delivery(rest)
  {
    forall q | p < q <= 3 ensures Level(rest, q) == [] {
      assert Level(items, q) == [];
    }
    HeadOfFrom(items, p, first, rest);
    SkipEmpty(items, p, 3);
    SkipEmpty(rest, p, 3);
  }

  /** The buckets hold the items by priority. */
  ghost predicate Stored(buckets: seq<seq<Notification>>, items: seq<Item>) {
    |buckets| == 4 && forall p :: 0 <= p < 4 ==> buckets[p] == Notes(Level(items, p))
  }

  lemma StoredPut(buckets: seq<seq<Notification>>, items: seq<Item>, x: Item)
    requires Stored(buckets, items) && InRange(x.priority)
    ensures Stored(buckets[x.priority := buckets[x.priority] + [x.note]], items + [x])
  {
    assert (items + [x])[..|items|] == items;
    assert Notes(Level(items, x.priority) + [x]) == Notes(Level(items, x.priority)) + [x.note];
  }

  lemma StoredTake(buckets: seq<seq<Notification>>, items: seq<Item>, p: int, first: Item, rest: seq<Item>)
    requires Stored(buckets, items) && InRange(p) && Taken(items, p, first, rest)
    ensures buckets[p] != [] && buckets[p][0] == first.note && Stored(buckets[p := buckets[p][1..]], rest)
  {
    NotesTail(Level(items, p));
    forall q | 0 <= q < 4 ensures buckets[p := buckets[p][1..]][q] == Notes(Level(rest, q)) {
      assert Level(rest, q) == if q == p then Level(items, p)[1..] else Level(items, q);
    }
  }

  lemma NotesTail(items: seq<Item>)
    requires items != []
    ensures Notes(items)[1..] == Notes(items[1..]) && Notes(items)[0] == items[0].note
  {
  }

  class PriorityQueue {
    const capacity: nat
    const buckets: array<seq<Notification>>
    var size: nat
    /** The items in the queue in order of arrival. */
    ghost var pending: seq<Item>

    ghost predicate Valid()
      reads this, buckets
    {
      && capacity > 0 && buckets.Length == 4 && AllInRange(pending)
      && Stored(buckets[..], pending)
      && size == |buckets[0]| + |buckets[1]| + |buckets[2]| + |buckets[3]| == |pending| <= capacity
    }

    constructor (capacity: int)
      ensures Valid() && fresh(buckets) && pending == []
      ensures this.capacity == if capacity <= 0 then 256 else capacity
    {
      this.capacity := if capacity <= 0 then 256 else capacity;
      buckets := new seq<Notification>[4](_ => []);
      size, pending := 0, [];
    }

    /** Refused when the priority is out of range or the queue is full; otherwise queued last. */
    method Enqueue(n: Notification, priority: int) returns (ok: bool)
      requires Valid()
      modifies this, buckets
      ensures Valid()
      ensures ok <==> 0 <= priority <= 3 && |old(pending)| < capacity
      ensures pending == if ok then old(pending) + [Item(n, priority)] else old(pending)
    {
      if priority < 0 || priority > 3 {
        return false;
      }
      if size >= capacity {
        return false;
      }
      ghost var x := Item(n, priority);
      ghost var after := buckets[..][priority := buckets[priority] + [n]];
      StoredPut(buckets[..], pending, x);
      buckets[priority] := buckets[priority] + [n];
      assert buckets[..] == after;
      size := size + 1;
      pending := pending + [x];
      return true;
    }

    /** Removes the first item of the delivery order, if there is one. */
    method Dequeue() returns (result: Option<Notification>, ghost taken: Item)
      requires Valid()
      modifies this, buckets
      ensures Valid()
      ensures result.None? <==> old(pending) == []
      ensures result.None? ==> pending == old(pending)
      ensures result.Some? ==>
                Delivery(old(pending)) == [taken] + Delivery(pending) && result.value == taken.note
    {
      var p := 3;
      result := None;
      taken := Item(Notification(0, "", 0, ""), 0);
      while p >= 0
        invariant -1 <= p <= 3
        invariant forall q :: p < q <= 3 ==> |buckets[q]| == 0
        decreases p
      {
        if |buckets[p]| > 0 {
          result, taken := TakeFrom(p);
          return;
        }
        p := p - 1;
      }
      assert |pending| == 0;
    }

    /** The body of the loop once the highest occupied bucket is found. */
    method TakeFrom(p: nat) returns (result: Option<Notification>, ghost taken: Item)
      requires Valid() && p <= 3 && |buckets[p]| > 0
      requires forall q :: p < q <= 3 ==> |buckets[q]| == 0
      modifies this, buckets
      ensures Valid()
      ensures result == Some(taken.note) && old(pending) != []
      ensures Delivery(old(pending)) == [taken] + Delivery(pending)
    {
      ghost var rest;
      taken, rest := TakeFirst(buckets[..], pending, p);
      ghost var after := buckets[..][p := buckets[p][1..]];
      result := Some(buckets[p][0]);
      buckets[p] := buckets[p][1..];
      assert buckets[..] == after;
      size := size - 1;
      pending := rest;
    }
  }

  lemma TakeFirst(buckets: seq<seq<Notification>>, items: seq<Item>, p: nat) returns (taken: Item, rest: seq<Item>)
    requires Stored(buckets, items) && AllInRange(items) && p <= 3 && buckets[p] != []
    requires forall q :: p < q <= 3 ==> |buckets[q]| == 0
    ensures |rest| == |items| - 1 && AllInRange(rest) && buckets[p][0] == taken.note
    ensures Stored(buckets[p := buckets[p][1..]], rest)
    ensures Delivery(items) == [taken] + Delivery(rest)
  {
    assert buckets[p] == Notes(Level(items, p));
    taken, rest := RemoveFirst(items, p);
    forall q | p < q <= 3 ensures Level(items, q) == [] {
      assert buckets[q] == Notes(Level(items, q));
    }
    DeliveryHead(items, p, taken, rest);
    StoredTake(buckets, items, p, taken, rest);
  }

  /** Removing the earliest item of a priority touches no other priority. */
  lemma {:induction false} RemoveFirst(items: seq<Item>, p: int) returns (first: Item, rest: seq<Item>)
    requires Level(items, p) != []
    ensures Taken(items, p, first, rest) && |rest| == |items| - 1
    ensures AllInRange(items) ==> AllInRange(rest)
  {
    var init, x := items[..|items| - 1], items[|items| - 1];
    if Level(init, p) == [] {
      first, rest := x, init;
    } else {
      first, rest := RemoveFirst(init, p);
      forall q ensures Level(rest + [x], q) == Level(rest, q) + (if x.priority == q then [x] else []) {
        assert (rest + [x])[..|rest|] == rest;
      }
      rest := rest + [x];
    }
  }

  /** Dequeue until the queue is empty or a send fails; accepts[k] is the result of the k-th send. What
      was delivered, then the item whose send failed (which is in neither place), then what remains, is
      the stable sort of what was queued. */
  method Drain(q: PriorityQueue, accepts: seq<bool>)
    returns (ok: bool, delivered: seq<Notification>, ghost sent: seq<Item>, ghost lost: seq<Item>)
    requires q.Valid() && |accepts| >= |q.pending|
    modifies q, q.buckets
    ensures q.Valid() && delivered == Notes(sent)
    ensures sent + lost + Delivery(q.pending) == Delivery(old(q.pending))
    ensures forall k :: 0 <= k < |sent| ==> accepts[k]
    ensures ok ==> lost == [] && q.pending == []
    ensures !ok ==> |lost| == 1 && !accepts[|sent|]
  {
    delivered, sent, lost := [], [], [];
    while true
      invariant q.Valid() && delivered == Notes(sent) && |sent| + |q.pending| == |old(q.pending)|
      invariant sent + Delivery(q.pending) == Delivery(old(q.pending))
      invariant forall k :: 0 <= k < |sent| ==> accepts[k]
      decreases q.size
    {
      ghost var before := q.pending;
      var n, taken := q.Dequeue();
      if n.None? {
        assert sent + [] + Delivery(q.pending) == sent + Delivery(q.pending);
        return true, delivered, sent, [];
      }
      assert sent + Delivery(before) == sent + [taken] + Delivery(q.pending);
      if !accepts[|delivered|] {
        return false, delivered, sent, [taken];
      }
      delivered := delivered + [n.value];
      sent := sent + [taken];
    }
  }
}
