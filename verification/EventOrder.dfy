/** The timestamp reorder queue as a sequence: what is queued, what is delivered, in which order. */
module EventOrder {

  datatype Item = Item(ts: int, event: int)

  /** `items` is the queue in delivery order, `log` what was delivered. */
  datatype State = State(items: seq<Item>, log: seq<Item>, lastFlush: int, roundFlush: int, maxTs: int, unordered: nat)

  predicate Sorted(s: seq<Item>) { forall i, j :: 0 <= i < j < |s| ==> s[i].ts <= s[j].ts }

  /** After every item that is not later. */
  function Enter(s: seq<Item>, x: Item): (r: seq<Item>)
    ensures multiset(r) == multiset(s) + multiset{x}
  {
    if s == [] then [x]
    else if x.ts < s[0].ts then assert multiset([x] + s) == multiset{x} + multiset(s); [x] + s
    else assert s == [s[0]] + s[1..]; [s[0]] + Enter(s[1..], x)
  }

  lemma {:induction false} EnterSorted(s: seq<Item>, x: Item)
    requires Sorted(s)
    ensures Sorted(Enter(s, x))
  {
    if s != [] && x.ts >= s[0].ts {
      EnterSorted(s[1..], x);
      var r := Enter(s[1..], x);
      forall y | y in r ensures s[0].ts <= y.ts {
        assert y in multiset(r);
        assert y == x || y in s[1..];
      }
    }
  }

  function Entered(st: State, x: Item): State {
    st.(items := Enter(st.items, x), maxTs := if x.ts > st.maxTs then x.ts else st.maxTs)
  }

  /** An event below `last_flush` is counted. */
  function Noted(st: State, ts: int): State { if ts < st.lastFlush then st.(unordered := st.unordered + 1) else st }

  function Queued(st: State, x: Item): State { Entered(Noted(st, x.ts), x) }

  /** The first `k` items delivered. */
  function Delivered(st: State, k: nat): State
    requires k <= |st.items|
  {
    if k == 0 then st
    else st.(items := st.items[k..], log := st.log + st.items[..k], lastFlush := st.items[k - 1].ts)
  }

  /** How many items a flush up to `limit`, of at most `n`, delivers when none is refused. */
  function Due(items: seq<Item>, limit: int, n: nat): (k: nat)
    requires n > 0
    ensures k <= |items| && k <= n
    ensures limit == 0 ==> k == 0
    ensures limit != 0 ==> forall i :: 0 <= i < k ==> items[i].ts <= limit
    ensures limit != 0 ==> k == n || k == |items| || items[k].ts > limit
  {
    if limit == 0 || items == [] || items[0].ts > limit then 0
    else if n == 1 then 1
    else 1 + Due(items[1..], limit, n - 1)
  }

  /** The same when `deliver` may refuse: how many are delivered, and the code of the refusal. */
  function Taken(items: seq<Item>, limit: int, n: nat, deliver: Item -> int): (r: (nat, int))
    requires n > 0
    ensures r.0 <= Due(items, limit, n)
    ensures (forall x :: deliver(x) == 0) ==> r == (Due(items, limit, n), 0)
    ensures r.1 == 0 ==> r.0 == Due(items, limit, n)
    ensures r.1 != 0 ==> r.0 < |items| && deliver(items[r.0]) == r.1
  {
    if limit == 0 || items == [] || items[0].ts > limit then (0, 0)
    else if deliver(items[0]) != 0 then (0, deliver(items[0]))
    else if n == 1 then (1, 0)
    else
      var (k, code) := Taken(items[1..], limit, n - 1, deliver);
      (1 + k, code)
  }

  lemma TakenStep(items: seq<Item>, limit: int, n: nat, deliver: Item -> int)
    requires n > 0 && limit != 0 && items != [] && items[0].ts <= limit
    ensures deliver(items[0]) != 0 ==> Taken(items, limit, n, deliver) == (0, deliver(items[0]))
    ensures deliver(items[0]) == 0 && n == 1 ==> Taken(items, limit, n, deliver) == (1, 0)
    ensures deliver(items[0]) == 0 && n > 1 ==>
              var r := Taken(items[1..], limit, n - 1, deliver);
              Taken(items, limit, n, deliver) == (1 + r.0, r.1)
  {}

  lemma DeliveredNext(st: State, k: nat)
    requires k < |st.items|
    ensures Delivered(st, k + 1) == Delivered(Delivered(st, k), 1)
  {
    assert st.items[..k + 1] == st.items[..k] + [st.items[k]];
    assert st.items[k..][..1] == [st.items[k]];
    assert st.log + st.items[..k + 1] == st.log + st.items[..k] + [st.items[k]];
    assert st.items[k..][1..] == st.items[k + 1..];
  }

  function Flushed(st: State, limit: int, n: nat): State
    requires n > 0
  { Delivered(st, Due(st.items, limit, n)) }

  /** A flush of the events up to the largest timestamp seen by the flush before. */
  function RoundFlushed(st: State): State {
    if st.items == [] then st else Flushed(st, st.roundFlush, |st.items|).(roundFlush := st.maxTs)
  }

  // ----- runs -----

  /** `Cut` is a flush that a refusal ended after `k` events; `Forced` a queue call that found no memory, so that
      `k` events were delivered before it was tried again, and `kept` if there was memory then. */
  datatype Op = Queue(x: Item) | Flush(limit: int, n: nat) | Round | Cut(k: nat) | Forced(x: Item, k: nat, kept: bool)

  function CutAt(st: State, k: nat): State { Delivered(st, if k <= |st.items| then k else |st.items|) }

  function Step(st: State, op: Op): State
    requires op.Flush? ==> op.n > 0
  {
    match op
    case Queue(x) => Queued(st, x)
    case Flush(limit, n) => Flushed(st, limit, n)
    case Round => RoundFlushed(st)
    case Cut(k) => CutAt(st, k)
    case Forced(x, k, kept) => var after := CutAt(Noted(st, x.ts), k); if kept then Entered(after, x) else after
  }

  /** Counts of flushes are positive. */
  predicate Proper(ops: seq<Op>) { forall op :: op in ops ==> op.Flush? ==> op.n > 0 }

  function Run(st: State, ops: seq<Op>): State
    requires Proper(ops)
    decreases |ops|
  {
    if ops == [] then st else Run(Step(st, ops[0]), ops[1..])
  }

  const START: State := State([], [], 0, 0, 0, 0)

  /** Everything queued and delivered so far is what was put in, and the queue is in order. */
  predicate Ordered(st: State) { Sorted(st.items) && Sorted(st.log) }

  predicate NotBefore(s: seq<Item>, t: int) { forall x :: x in s ==> t <= x.ts }

  predicate UpTo(s: seq<Item>, t: int) { forall x :: x in s ==> x.ts <= t }

  /** Nothing delivered is later than anything queued. */
  predicate Caught(st: State) { Ordered(st) && NotBefore(st.items, st.lastFlush) && UpTo(st.log, st.lastFlush) }

  lemma CutCaught(st: State, k: nat)
    requires Caught(st)
    ensures Caught(CutAt(st, k))
  {
    DeliveredCaught(st, if k <= |st.items| then k else |st.items|);
  }

  lemma QueuedCaught(st: State, x: Item)
    requires Caught(st) && x.ts >= st.lastFlush
    ensures Caught(Queued(st, x))
  {
    EnteredCaught(Noted(st, x.ts), x);
  }

  lemma EnteredCaught(st: State, x: Item)
    requires Caught(st) && x.ts >= st.lastFlush
    ensures Caught(Entered(st, x))
  {
    EnterSorted(st.items, x);
    forall y | y in Enter(st.items, x) ensures st.lastFlush <= y.ts {
      assert y in multiset(Enter(st.items, x));
      assert y == x || y in st.items;
    }
  }

  lemma DeliveredCaught(st: State, k: nat)
    requires Caught(st) && k <= |st.items|
    ensures Caught(Delivered(st, k))
  {
    if k > 0 {
      Split(st.items, k);
      SortedAppend(st.log, st.items[..k], st.lastFlush);
      assert st.items[k - 1] in st.items;
    }
  }

  /** No event enters below `last_flush`. */
  predicate InTime(st: State, ops: seq<Op>)
    requires Proper(ops)
    decreases |ops|
  {
    ops == [] || (!Late(st, ops[0]) && InTime(Step(st, ops[0]), ops[1..]))
  }

  predicate Late(st: State, op: Op) {
    match op
    case Queue(x) => x.ts < st.lastFlush
    case Forced(x, k, kept) => kept && x.ts < CutAt(Noted(st, x.ts), k).lastFlush
    case _ => false
  }

  /** Whatever the kinds, limits and sizes of the flushes, a run in which no event enters below `last_flush`
      delivers in time order. */
  lemma {:induction false} RunCaught(st: State, ops: seq<Op>)
    requires Proper(ops)
    requires Caught(st) && InTime(st, ops)
    ensures Caught(Run(st, ops))
    decreases |ops|
  {
    if ops != [] {
      var op := ops[0];
      match op {
        case Queue(x) => QueuedCaught(st, x);
        case Flush(limit, n) => DeliveredCaught(st, Due(st.items, limit, n));
        case Round => if st.items != [] { DeliveredCaught(st, Due(st.items, st.roundFlush, |st.items|)); }
        case Cut(k) => CutCaught(st, k);
        case Forced(x, k, kept) =>
          CutCaught(Noted(st, x.ts), k);
          if kept { EnteredCaught(CutAt(Noted(st, x.ts), k), x); }
      }
      RunCaught(Step(st, op), ops[1..]);
    }
  }

  /** Every event queued is delivered or still queued, once. */
  function Puts(ops: seq<Op>): multiset<Item> {
    if ops == [] then multiset{} else PutBy(ops[0]) + Puts(ops[1..])
  }

  function PutBy(op: Op): multiset<Item> {
    if op.Queue? || (op.Forced? && op.kept) then multiset{op.x} else multiset{}
  }

  function Held(st: State): multiset<Item> { multiset(st.items) + multiset(st.log) }

  lemma DeliveredHeld(st: State, k: nat)
    requires k <= |st.items|
    ensures Held(Delivered(st, k)) == Held(st)
  {
    assert st.items == st.items[..k] + st.items[k..];
  }

  lemma StepHeld(st: State, op: Op)
    requires op.Flush? ==> op.n > 0
    ensures Held(Step(st, op)) == Held(st) + PutBy(op)
  {
    hide Delivered; hide Due; hide Entered; hide Noted; hide Held; hide CutAt;
    match op
    case Queue(x) => NotedHeld(st, x.ts); EnteredHeld(Noted(st, x.ts), x);
    case Flush(limit, n) => DeliveredHeld(st, Due(st.items, limit, n));
    case Round => RoundHeld(st);
    case Cut(k) => CutHeld(st, k);
    case Forced(x, k, kept) =>
      NotedHeld(st, x.ts);
      CutHeld(Noted(st, x.ts), k);
      if kept { EnteredHeld(CutAt(Noted(st, x.ts), k), x); }
  }

  lemma CutHeld(st: State, k: nat)
    ensures Held(CutAt(st, k)) == Held(st)
  {
    DeliveredHeld(st, if k <= |st.items| then k else |st.items|);
  }

  lemma RoundHeld(st: State)
    ensures Held(RoundFlushed(st)) == Held(st)
  {
    if st.items != [] { DeliveredHeld(st, Due(st.items, st.roundFlush, |st.items|)); }
  }

  lemma NotedHeld(st: State, t: int)
    ensures Held(Noted(st, t)) == Held(st)
  {}

  lemma EnteredHeld(st: State, x: Item)
    ensures Held(Entered(st, x)) == Held(st) + multiset{x}
  {}

  lemma {:induction false} RunHeld(st: State, ops: seq<Op>)
    requires Proper(ops)
    ensures Held(Run(st, ops)) == Held(st) + Puts(ops)
    decreases |ops|
  {
    hide Step; hide Held; hide PutBy;
    if ops != [] {
      StepHeld(st, ops[0]);
      RunHeld(Step(st, ops[0]), ops[1..]);
    }
  }

  // ----- only ROUND flushes -----

  /** Events queued after a flush are not below that flush's limit, `floor`. */
  predicate AboveFloor(st: State, floor: int, ops: seq<Op>)
    requires forall op :: op in ops ==> op.Queue? || op.Round?
    decreases |ops|
  {
    ops == [] ||
    match ops[0]
    case Queue(x) => x.ts >= floor && x.ts > 0 && AboveFloor(Step(st, ops[0]), floor, ops[1..])
    case Round => AboveFloor(Step(st, ops[0]), st.roundFlush, ops[1..])
    case _ => false
  }

  predicate RoundInv(st: State, floor: int) {
    && Ordered(st) && NotBefore(st.items, floor) && UpTo(st.log, floor)
    && floor <= st.roundFlush <= st.maxTs && UpTo(st.items, st.maxTs)
    && NotBefore(st.items, 1)
  }

  lemma RoundStep(st: State, floor: int)
    requires RoundInv(st, floor)
    ensures RoundInv(RoundFlushed(st), st.roundFlush)
  {
    if st.items != [] {
      var k := Due(st.items, st.roundFlush, |st.items|);
      var a, b := st.items[..k], st.items[k..];
      Split(st.items, k);
      assert NotBefore(b, st.roundFlush) && UpTo(a, st.roundFlush);
      SortedAppend(st.log, a, floor);
    }
  }

  lemma Split(s: seq<Item>, k: nat)
    requires k <= |s| && Sorted(s)
    ensures Sorted(s[..k]) && Sorted(s[k..])
    ensures forall x :: x in s[..k] || x in s[k..] ==> x in s
    ensures k < |s| ==> NotBefore(s[k..], s[k].ts)
    ensures 0 < k ==> UpTo(s[..k], s[k - 1].ts) && NotBefore(s[k..], s[k - 1].ts)
  {}

  lemma SortedAppend(a: seq<Item>, b: seq<Item>, t: int)
    requires Sorted(a) && Sorted(b) && UpTo(a, t) && NotBefore(b, t)
    ensures Sorted(a + b)
  {
    forall i, j | 0 <= i < j < |a + b| ensures (a + b)[i].ts <= (a + b)[j].ts {
      if i < |a| <= j { assert a[i] in a && b[j - |a|] in b; }
    }
  }

  lemma RoundQueue(st: State, floor: int, x: Item)
    requires RoundInv(st, floor) && x.ts >= floor && x.ts > 0
    ensures RoundInv(Queued(st, x), floor)
  {
    EnterSorted(st.items, x);
    forall y | y in Enter(st.items, x) ensures y == x || y in st.items {
      assert y in multiset(Enter(st.items, x));
    }
  }

  /** With only ROUND flushes it is enough that events queued after a flush are not below its limit. */
  lemma {:induction false} RoundRun(st: State, floor: int, ops: seq<Op>)
    requires forall op :: op in ops ==> op.Queue? || op.Round?
    requires RoundInv(st, floor) && AboveFloor(st, floor, ops)
    ensures Ordered(Run(st, ops))
    decreases |ops|
  {
    if ops != [] {
      if ops[0].Queue? {
        RoundQueue(st, floor, ops[0].x);
        RoundRun(Step(st, ops[0]), floor, ops[1..]);
      } else {
        RoundStep(st, floor);
        RoundRun(Step(st, ops[0]), st.roundFlush, ops[1..]);
      }
    }
  }

  // ----- the count of unordered events -----

  /** `nr_unordered_events` never decreases, and grows exactly if some queue call is below `last_flush`, as long
      as no call is forced. */
  lemma {:induction false} UnorderedCounts(st: State, ops: seq<Op>)
    requires Proper(ops)
    ensures Run(st, ops).unordered >= st.unordered
    ensures (forall op :: op in ops ==> !op.Forced?) ==> (InTime(st, ops) <==> Run(st, ops).unordered == st.unordered)
    decreases |ops|
  {
    if ops != [] { UnorderedCounts(Step(st, ops[0]), ops[1..]); }
  }

  /** The log only grows, and `last_flush` is the time of its last entry. */
  predicate LastIs(st: State) { if st.log == [] then st.lastFlush == 0 else st.log[|st.log| - 1].ts == st.lastFlush }

  lemma StepGrows(st: State, op: Op)
    requires op.Flush? ==> op.n > 0
    ensures st.log <= Step(st, op).log
    ensures LastIs(st) ==> LastIs(Step(st, op))
  {
    hide Delivered; hide Due; hide Enter;
    match op
    case Queue(x) =>
    case Flush(limit, n) => Appended(st, Due(st.items, limit, n));
    case Round => if st.items != [] { Appended(st, Due(st.items, st.roundFlush, |st.items|)); }
    case Cut(k) => Appended(st, if k <= |st.items| then k else |st.items|);
    case Forced(x, k, _) => Appended(Noted(st, x.ts), if k <= |st.items| then k else |st.items|);
  }

  lemma Appended(st: State, k: nat)
    requires k <= |st.items|
    ensures st.log <= Delivered(st, k).log && (LastIs(st) ==> LastIs(Delivered(st, k)))
  {
    if k > 0 { assert (st.log + st.items[..k])[|st.log| + k - 1] == st.items[k - 1]; }
  }

  lemma {:induction false} RunGrows(st: State, ops: seq<Op>)
    requires Proper(ops)
    ensures st.log <= Run(st, ops).log
    decreases |ops|
  {
    if ops != [] {
      StepGrows(st, ops[0]);
      RunGrows(Step(st, ops[0]), ops[1..]);
    }
  }

  /** An event in the queue of a run that drains comes out behind what was delivered before. */
  lemma ComesOut(st: State, ops: seq<Op>, x: Item) returns (j: nat)
    requires Proper(ops)
    requires x in st.items && Run(st, ops).items == []
    ensures st.log <= Run(st, ops).log && |st.log| <= j < |Run(st, ops).log| && Run(st, ops).log[j] == x
  {
    hide Run; hide Puts;
    RunGrows(st, ops);
    RunHeld(st, ops);
    j := InRest(st, Run(st, ops), Puts(ops), x);
  }

  lemma InRest(st: State, end: State, more: multiset<Item>, x: Item) returns (j: nat)
    requires st.log <= end.log && x in st.items && end.items == [] && Held(end) == Held(st) + more
    ensures |st.log| <= j < |end.log| && end.log[j] == x
  {
    var rest := end.log[|st.log|..];
    assert end.log == st.log + rest;
    assert multiset(st.items)[x] + multiset(st.log)[x] <= Held(end)[x];
    assert multiset(end.log)[x] == multiset(st.log)[x] + multiset(rest)[x];
    assert x in multiset(rest);
    var i :| 0 <= i < |rest| && rest[i] == x;
    j := |st.log| + i;
  }

  /** Events that enter have a time above 0, as the queue call checks. */
  predicate Stamped(ops: seq<Op>) { forall op :: op in ops ==> (op.Queue? || op.Forced?) ==> op.x.ts > 0 }

  lemma {:induction false} LateBreaks(st: State, ops: seq<Op>)
    requires Proper(ops)
    requires LastIs(st) && Run(st, ops).items == [] && !InTime(st, ops) && Stamped(ops)
    ensures !Sorted(Run(st, ops).log)
    decreases |ops|
  {
    var op, rest := ops[0], ops[1..];
    var st' := Step(st, op);
    assert Run(st, ops) == Run(st', rest);
    assert forall o :: o in rest ==> o in ops;
    StepGrows(st, op);
    if Late(st, op) {
      LateStep(st, op);
      hide Run; hide InTime; hide Step;
      var j := ComesOut(st', rest, op.x);
      assert Run(st', rest).log[|st'.log| - 1] == st'.log[|st'.log| - 1];
    } else {
      LateBreaks(st', rest);
    }
  }

  lemma LateStep(st: State, op: Op)
    requires Late(st, op) && LastIs(st) && op.x.ts > 0
    ensures var st' := Step(st, op);
            op.x in st'.items && st'.log != [] && op.x.ts < st'.log[|st'.log| - 1].ts
  {
    StepGrows(st, op);
    var after := if op.Queue? then Noted(st, op.x.ts) else CutAt(Noted(st, op.x.ts), op.k);
    assert op.x in Enter(after.items, op.x) by { assert op.x in multiset(Enter(after.items, op.x)); }
  }

  /** For any run that ends with an empty queue, events were delivered in time order if and only if none entered
      below `last_flush`. */
  lemma OrderedIffInTime(ops: seq<Op>)
    requires Proper(ops)
    requires Stamped(ops) && Run(START, ops).items == []
    ensures Sorted(Run(START, ops).log) <==> InTime(START, ops)
  {
    if InTime(START, ops) { RunCaught(START, ops); } else { LateBreaks(START, ops); }
  }

  /** If no call was forced, that is if and only if no event was counted as unordered. */
  lemma OrderedIffNoneUnordered(ops: seq<Op>)
    requires Proper(ops)
    requires Stamped(ops) && Run(START, ops).items == [] && forall op :: op in ops ==> !op.Forced?
    ensures Sorted(Run(START, ops).log) <==> Run(START, ops).unordered == 0
  {
    UnorderedCounts(START, ops);
    OrderedIffInTime(ops);
  }

  /** A forced call may make its own event late, and it is not counted. */
  lemma ForcedUncounted()
    ensures var ops := [Queue(Item(20, 1)), Forced(Item(10, 2), 32, true), Flush(99, 9)];
            Run(START, ops).items == [] && Run(START, ops).unordered == 0 && !Sorted(Run(START, ops).log)
  {
    var st1 := Step(START, Queue(Item(20, 1)));
    var st2 := Step(st1, Forced(Item(10, 2), 32, true));
    assert st2 == State([Item(10, 2)], [Item(20, 1)], 20, 0, 20, 0);
    var st3 := Step(st2, Flush(99, 9));
    assert st3.log == [Item(20, 1), Item(10, 2)];
    assert st3.log[0].ts > st3.log[1].ts;
    assert Run(st3, []) == st3;
    assert [Forced(Item(10, 2), 32, true), Flush(99, 9)][1..] == [Flush(99, 9)];
    assert Run(st2, [Flush(99, 9)]) == st3;
    assert Run(st1, [Forced(Item(10, 2), 32, true), Flush(99, 9)]) == st3;
  }

  lemma {:induction false} RunLast(st: State, ops: seq<Op>, op: Op)
    requires Proper(ops + [op])
    ensures (op.Flush? ==> op.n > 0) && Proper(ops)
    ensures Run(st, ops + [op]) == Step(Run(st, ops), op)
    decreases |ops|
  {
    assert op in ops + [op] && forall o :: o in ops ==> o in ops + [op];
    if ops == [] {
      assert ops + [op] == [op];
      assert Run(Step(st, op), []) == Step(st, op);
    } else {
      assert (ops + [op])[1..] == ops[1..] + [op];
      assert forall o :: o in ops[1..] + [op] ==> o in ops + [op];
      RunLast(Step(st, ops[0]), ops[1..], op);
    }
  }
}
