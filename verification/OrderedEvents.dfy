/** The timestamp reorder queue: event slots carved from buffers, kept in a red-black tree while
    queued and on a free list otherwise. */
module OrderedEvents {
  import opened RbStore
  import opened RbCached
  import opened EventOrder

  const SLOTS: int := 1365 // (64 KiB - 16) / 48
  const BUFFER_SIZE: int := 65536

  /** An event as the caller passes it: its address, its contents and `header.size`. */
  datatype Event = Event(ptr: int, what: int, size: nat)

  /** What a slot holds besides its timestamp; `ptr` 0 is NULL. */
  datatype Body = Body(size: int, ptr: int, what: int)

  // ----- slots -----

  /** Every slot handed out so far, 1 to `used`, is in exactly one place. */
  ghost predicate Partition(order: seq<Ref>, cache: seq<Ref>, used: nat) {
    forall s: Ref :: (multiset(order) + multiset(cache))[s] == if 1 <= s <= used then 1 else 0
  }

  predicate Emptied(cache: seq<Ref>, body: map<Ref, Body>) { forall s :: s in cache ==> s in body && body[s].ptr == 0 }

  // ----- memory accounting -----

  predicate LiveIn(order: seq<Ref>, body: map<Ref, Body>) { forall s :: s in order ==> s in body }

  function Bytes(order: seq<Ref>, body: map<Ref, Body>): int
    requires LiveIn(order, body)
  { if order == [] then 0 else body[order[0]].size + Bytes(order[1..], body) }

  lemma {:induction false} BytesAppend(a: seq<Ref>, b: seq<Ref>, body: map<Ref, Body>)
    requires forall s :: s in a + b ==> s in body
    ensures (forall s :: s in a ==> s in body) && (forall s :: s in b ==> s in body)
    ensures Bytes(a + b, body) == Bytes(a, body) + Bytes(b, body)
  {
    assert forall s :: s in a ==> s in a + b;
    assert forall s :: s in b ==> s in a + b;
    if a == [] {
      assert a + b == b;
    } else {
      assert (a + b)[1..] == a[1..] + b;
      BytesAppend(a[1..], b, body);
    }
  }

  lemma {:induction false} BytesSame(s: seq<Ref>, b: map<Ref, Body>, b': map<Ref, Body>)
    requires forall n :: n in s ==> n in b && n in b' && b[n].size == b'[n].size
    ensures Bytes(s, b) == Bytes(s, b')
  {
    if s != [] { BytesSame(s[1..], b, b'); }
  }

  lemma {:induction false} BytesInsertion(s: seq<Ref>, n: Ref, key: map<Ref, int>, body: map<Ref, Body>)
    requires Keyed(s, key) && n in key && n in body && (forall m :: m in s ==> m in body)
    ensures forall m :: m in Insertion(s, n, key) ==> m in body
    ensures Bytes(Insertion(s, n, key), body) == Bytes(s, body) + body[n].size
  {
    if s != [] && key[n] >= key[s[0]] {
      BytesInsertion(s[1..], n, key, body);
      assert Insertion(s, n, key)[1..] == Insertion(s[1..], n, key);
    } else if s != [] {
      assert ([n] + s)[1..] == s;
    }
  }

  /** The live copies are exactly the events of the queued slots, one each. */
  ghost predicate Owned(order: seq<Ref>, body: map<Ref, Body>, copies: set<int>)
    requires forall s :: s in order ==> s in body
  {
    && (forall s :: s in order ==> body[s].ptr in copies)
    && (forall s, t :: s in order && t in order && s != t ==> body[s].ptr != body[t].ptr)
    && (forall c :: c in copies ==> exists s :: s in order && body[s].ptr == c)
  }

  // ----- the queue as items -----

  function ItemOf(n: Ref, ts: map<Ref, int>, body: map<Ref, Body>): Item
    requires n in ts && n in body
  { Item(ts[n], body[n].what) }

  function Items(s: seq<Ref>, ts: map<Ref, int>, body: map<Ref, Body>): (r: seq<Item>)
    requires forall n :: n in s ==> n in ts && n in body
    ensures |r| == |s| && forall i :: 0 <= i < |s| ==> r[i] == ItemOf(s[i], ts, body)
  { if s == [] then [] else [ItemOf(s[0], ts, body)] + Items(s[1..], ts, body) }

  lemma ItemsFront(n: Ref, s: seq<Ref>, ts: map<Ref, int>, body: map<Ref, Body>)
    requires n in ts && n in body && forall m :: m in s ==> m in ts && m in body
    ensures Items([n] + s, ts, body) == [ItemOf(n, ts, body)] + Items(s, ts, body)
  {
    assert ([n] + s)[1..] == s;
  }

  lemma EnterFront(first: Item, s: seq<Item>, x: Item)
    requires first.ts <= x.ts
    ensures Enter([first] + s, x) == [first] + Enter(s, x)
  {
    assert ([first] + s)[1..] == s;
  }

  lemma {:induction false} ItemsInsertion(s: seq<Ref>, n: Ref, ts: map<Ref, int>, body: map<Ref, Body>)
    requires n in ts && n in body && forall m :: m in s ==> m in ts && m in body
    ensures forall m :: m in Insertion(s, n, ts) ==> m in ts && m in body
    ensures Items(Insertion(s, n, ts), ts, body) == Enter(Items(s, ts, body), ItemOf(n, ts, body))
  {
    if s == [] {
    } else if ts[n] < ts[s[0]] {
      assert ([n] + s)[1..] == s;
    } else {
      ItemsInsertion(s[1..], n, ts, body);
      var r := Insertion(s[1..], n, ts);
      ItemsFront(s[0], r, ts, body);
      ItemsFront(s[0], s[1..], ts, body);
      assert s == [s[0]] + s[1..];
      EnterFront(ItemOf(s[0], ts, body), Items(s[1..], ts, body), ItemOf(n, ts, body));
    }
  }

  lemma ItemsSame(s: seq<Ref>, ts: map<Ref, int>, body: map<Ref, Body>, ts': map<Ref, int>, body': map<Ref, Body>)
    requires forall n :: n in s ==>
               n in ts && n in body && n in ts' && n in body' && ts[n] == ts'[n] && body[n].what == body'[n].what
    ensures Items(s, ts, body) == Items(s, ts', body')
  {}

  // ----- the books -----

  /** `live` slots hold an event each, `cache` slots none; the totals and the copies add up. */
  ghost predicate Sound(live: seq<Ref>, cache: seq<Ref>, used: nat, body: map<Ref, Body>, buffers: nat, curAlloc: int,
                        copy: bool, copies: set<int>, nextCopy: int) {
    && Partition(live, cache, used)
    && (forall s :: s in live ==> s in body && body[s].ptr != 0) && Emptied(cache, body)
    && curAlloc == buffers * BUFFER_SIZE + (if copy then Bytes(live, body) else 0)
    && (if copy then Owned(live, body, copies) else copies == {})
    && nextCopy > 0 && (forall c :: c in copies ==> c < nextCopy)
  }

  function Used(buffers: nat, current: bool, idx: nat): int {
    if current then (buffers - 1) * SLOTS + idx else buffers * SLOTS
  }

  lemma PartitionFacts(live: seq<Ref>, cache: seq<Ref>, used: nat)
    requires Partition(live, cache, used)
    ensures forall s :: s in live ==> s !in cache && 1 <= s <= used
    ensures forall s :: s in cache ==> s !in live && 1 <= s <= used
    ensures cache != [] ==> cache[0] !in cache[1..]
  {
    forall s | s in live ensures s !in cache && 1 <= s <= used { assert (multiset(live) + multiset(cache))[s] >= 1; }
    forall s | s in cache ensures s !in live && 1 <= s <= used { assert (multiset(live) + multiset(cache))[s] >= 1; }
    if cache != [] {
      assert cache == [cache[0]] + cache[1..];
      assert (multiset(live) + multiset(cache))[cache[0]] <= 1;
    }
  }

  /** A slot leaves the cache, or is the next unused one, and gets an event. */
  lemma Allotted(live: seq<Ref>, cache: seq<Ref>, used: nat, body: map<Ref, Body>, buffers: nat, curAlloc: int,
                 copy: bool, copies: set<int>, nextCopy: int,
                 n: Ref, b: Body, fresh_: bool)
    requires Sound(live, cache, used, body, buffers, curAlloc, copy, copies, nextCopy)
    requires if fresh_ then n == used + 1 else cache != [] && n == cache[0]
    requires b.ptr != 0 && (copy ==> b.ptr == nextCopy)
    ensures n !in live
    ensures Sound([n] + live, if fresh_ then cache else cache[1..], if fresh_ then used + 1
                                                                    else used, body[n := b], buffers,
                  if copy then curAlloc + b.size else curAlloc, copy, if copy then copies + {nextCopy}
                                                                      else copies, if copy then nextCopy + 1
                                                                                   else nextCopy)
  {
    PartitionFacts(live, cache, used);
    var cache' := if fresh_ then cache else cache[1..];
    var body' := body[n := b];
    var live' := [n] + live;
    PartitionMore(live, cache, used, n, fresh_);
    hide Partition;
    if !fresh_ { assert forall s :: s in cache' ==> s in cache; }
    assert Emptied(cache', body');
    assert forall s :: s in live' ==> s in body' && body'[s].ptr != 0;
    assert live'[1..] == live;
    BytesSame(live, body, body');
    assert Bytes(live', body') == b.size + Bytes(live, body);
    if copy { OwnedMore(live, body, copies, n, b, nextCopy); }
  }

  lemma PartitionMore(live: seq<Ref>, cache: seq<Ref>, used: nat, n: Ref, fresh_: bool)
    requires Partition(live, cache, used) && if fresh_ then n == used + 1 else cache != [] && n == cache[0]
    ensures Partition([n] + live, if fresh_ then cache else cache[1..], if fresh_ then used + 1 else used)
  {
    assert multiset([n] + live) == multiset{n} + multiset(live);
    if fresh_ {
      assert multiset([n] + live) + multiset(cache) == multiset(live) + multiset(cache) + multiset{n};
    } else {
      assert cache == [n] + cache[1..];
      assert multiset([n] + live) + multiset(cache[1..]) == multiset(live) + multiset(cache);
    }
  }

  lemma OwnedMore(live: seq<Ref>, body: map<Ref, Body>, copies: set<int>, n: Ref, b: Body, c: int)
    requires (forall s :: s in live ==>
                s in body) && Owned(live, body, copies) && n !in live && b.ptr == c && c !in copies
    ensures forall s :: s in [n] + live ==> s in body[n := b]
    ensures Owned([n] + live, body[n := b], copies + {c})
  {
    var body' := body[n := b];
    forall d | d in copies + {c} ensures exists s :: s in [n] + live && body'[s].ptr == d {
      if d == c { assert n in [n] + live; } else {
        var s :| s in live && body[s].ptr == d;
        assert s in [n] + live && body'[s].ptr == d;
      }
    }
  }

  /** Only the slots matter, not their order. */
  lemma Reordered(live: seq<Ref>, live': seq<Ref>, cache: seq<Ref>, used: nat, body: map<Ref, Body>, buffers: nat,
                  curAlloc: int, copy: bool, copies: set<int>, nextCopy: int)
    requires Sound(live, cache, used, body, buffers, curAlloc, copy, copies, nextCopy)
    requires multiset(live') == multiset(live) && LiveIn(live', body) && LiveIn(live, body)
    requires Bytes(live', body) == Bytes(live, body)
    ensures Sound(live', cache, used, body, buffers, curAlloc, copy, copies, nextCopy)
  {
    assert forall s :: s in live' <==> s in multiset(live');
    assert forall s :: s in live <==> s in multiset(live);
    assert forall s :: s in live' <==> s in live;
    if copy {
      forall c | c in copies ensures exists s :: s in live' && body[s].ptr == c {
        var s :| s in live && body[s].ptr == c;
        assert s in live';
      }
    }
  }

  /** The first slot returns to the cache without its event. */
  lemma Returned(n: Ref, live: seq<Ref>, cache: seq<Ref>, used: nat, body: map<Ref, Body>, buffers: nat, curAlloc: int,
                 copy: bool, copies: set<int>, nextCopy: int)
    requires Sound([n] + live, cache, used, body, buffers, curAlloc, copy, copies, nextCopy)
    ensures n in body && n !in live && (copy ==> body[n].ptr in copies)
    ensures Sound(live, [n] + cache, used, body[n := body[n].(ptr := 0)], buffers, if copy then curAlloc - body[n].size
                                                                                   else curAlloc,
                  copy, if copy then copies - {body[n].ptr} else copies, nextCopy)
  {
    assert n in [n] + live;
    assert forall s :: s in live ==> s in [n] + live;
    assert multiset([n] + live) == multiset{n} + multiset(live);
    assert multiset([n] + cache) == multiset{n} + multiset(cache);
    assert n !in live by { assert (multiset([n] + live) + multiset(cache))[n] <= 1; }
    var body' := body[n := body[n].(ptr := 0)];
    assert multiset(live) + multiset([n] + cache) == multiset([n] + live) + multiset(cache);
    assert Partition(live, [n] + cache, used);
    assert Emptied([n] + cache, body');
    assert ([n] + live)[1..] == live;
    BytesSame(live, body, body');
    assert Bytes([n] + live, body) == body[n].size + Bytes(live, body');
    if copy { OwnedLess(n, live, body, copies); }
  }

  lemma OwnedLess(n: Ref, live: seq<Ref>, body: map<Ref, Body>, copies: set<int>)
    requires (forall s :: s in [n] + live ==> s in body) && Owned([n] + live, body, copies) && n !in live
    ensures n in body && (forall s :: s in live ==> s in body) && body[n].ptr in copies
    ensures Owned(live, body[n := body[n].(ptr := 0)], copies - {body[n].ptr})
  {
    assert n in [n] + live;
    assert forall s :: s in live ==> s in [n] + live;
    var body' := body[n := body[n].(ptr := 0)];
    forall c | c in copies - {body[n].ptr} ensures exists s :: s in live && body'[s].ptr == c {
      var s :| s in [n] + live && body[s].ptr == c;
      assert s in live && body'[s].ptr == c;
    }
  }

  // ----- the queue -----

  const U32: int := 0x1_0000_0000
  const ETIME: int := 62
  const ENOMEM: int := 12

  class EventQueue {
    const events: RbRootCached
    const deliver: Item -> int
    const copyOnQueue: bool
    const maxAlloc: int
    const grant: nat -> bool // which allocations the system grants

    var asked: nat
    var ts: map<Ref, int>
    var body: map<Ref, Body>
    var cache: seq<Ref>
    var buffers: nat
    var current: bool
    var bufferIdx: nat
    var curAlloc: int
    var copies: set<int> // the copies not yet freed
    var nextCopy: int
    var nrEvents: nat
    var maxTs: int
    var last: Ref
    var lastFlush: int
    var roundFlush: int
    var nrUnordered: nat
    var log: seq<Item> // what `deliver` accepted

    constructor (deliver: Item -> int, copyOnQueue: bool, maxAlloc: int, grant: nat -> bool)
      ensures Valid() && Abs() == START && fresh(events) && fresh(events.rb) && buffers == 0 && curAlloc == 0
      ensures this.deliver == deliver && this.copyOnQueue == copyOnQueue && this.maxAlloc == maxAlloc
      ensures this.grant == grant
    {
      this.deliver, this.copyOnQueue, this.maxAlloc, this.grant := deliver, copyOnQueue, maxAlloc, grant;
      events := new RbRootCached();
      asked, ts, body, cache, buffers := 0, map[], map[], [], 0;
      current, bufferIdx, curAlloc, copies, nextCopy := false, 0, 0, {}, 1;
      nrEvents, maxTs, last, lastFlush, roundFlush, nrUnordered, log := 0, 0, NULL, 0, 0, 0, [];
    }

    ghost function Order(): seq<Ref>
      reads this, events
    { events.Order() }

    ghost predicate Books(live: seq<Ref>)
      reads this`current, this`buffers, this`bufferIdx, this`cache, this`body, this`curAlloc, this`copies, this`nextCopy
    {
      && (current ==> buffers > 0 && 1 <= bufferIdx < SLOTS)
      && Sound(live, cache, Used(buffers, current, bufferIdx), body, buffers, curAlloc, copyOnQueue, copies, nextCopy)
    }

    ghost predicate Valid()
      reads this, events, events.rb
    {
      && events.Valid() && Books(Order()) && Keyed(Order(), ts) && RbCached.Sorted(Order(), ts)
      && nrEvents == |Order()| && (last != NULL ==> last in ts)
    }

    /** What is queued and what was delivered. */
    ghost function Abs(): State
      requires Valid()
      reads this, events, events.rb
    { State(Items(Order(), ts, body), log, lastFlush, roundFlush, maxTs, nrUnordered) }

    /** `dup_event`: the event itself, or a copy within the limit, or 0. */
    method DupEvent(e: Event) returns (ptr: int)
      requires Valid() && e.ptr != 0
      modifies this`asked
      ensures if copyOnQueue then ptr == 0 || ptr == nextCopy else ptr == e.ptr
      ensures (forall i :: grant(i)) && curAlloc + e.size < maxAlloc ==> ptr != 0
    {
      if !copyOnQueue { return e.ptr; }
      if curAlloc + e.size < maxAlloc {
        var granted := grant(asked);
        asked := asked + 1;
        if granted { return nextCopy; }
      }
      return 0;
    }

    /** The books before a slot, just taken from the cache or from a buffer, is filled. */
    ghost predicate Taking(slot: Ref, unused: bool)
      reads this, events
    {
      && (current ==> buffers > 0 && 1 <= bufferIdx < SLOTS) && Used(buffers, current, bufferIdx) >= 1
      && (unused ==> slot == Used(buffers, current, bufferIdx))
      && Sound(Order(), if unused then cache else [slot] + cache, if unused then Used(buffers, current, bufferIdx) - 1
                                                                  else Used(buffers, current, bufferIdx),
               body, buffers, curAlloc, copyOnQueue, copies, nextCopy)
    }

    /** A slot from the cache, the current buffer or a new buffer. */
    method TakeSlot() returns (slot: Ref, ghost unused: bool)
      requires Valid()
      modifies this`asked, this`cache, this`buffers, this`current, this`bufferIdx, this`curAlloc
      ensures slot == NULL ==> Valid() && curAlloc == old(curAlloc)
      ensures slot != NULL ==> Taking(slot, unused)
      ensures (forall i :: grant(i)) && old(curAlloc) + BUFFER_SIZE < maxAlloc ==> slot != NULL
    {
      hide RbRootCached.Valid; hide RbRootCached.Order; hide Sound; hide Keyed; hide RbCached.Sorted; hide Items;
      ghost var used := Used(buffers, current, bufferIdx);
      unused := cache == [];
      if cache != [] {
        slot := cache[0];
        assert cache == [slot] + cache[1..];
        SlotRange(Order(), cache, used, body, buffers, curAlloc, copyOnQueue, copies, nextCopy);
        cache := cache[1..];
      } else if current {
        slot := (buffers - 1) * SLOTS + bufferIdx + 1;
        bufferIdx := bufferIdx + 1;
        if bufferIdx == SLOTS { current := false; }
      } else if curAlloc + BUFFER_SIZE < maxAlloc {
        var granted := grant(asked);
        asked := asked + 1;
        if !granted { return NULL, unused; }
        NewBuffer(Order(), cache, used, body, buffers, curAlloc, copyOnQueue, copies, nextCopy);
        curAlloc := curAlloc + BUFFER_SIZE;
        buffers := buffers + 1;
        current, bufferIdx := true, 1;
        slot := (buffers - 1) * SLOTS + 1;
      } else {
        return NULL, unused;
      }
    }

    /** `alloc_event`: a slot holding the event. */
    method AllocEvent(e: Event) returns (slot: Ref)
      requires Valid() && e.ptr != 0
      modifies this`asked, this`body, this`cache, this`buffers, this`current, this`bufferIdx, this`curAlloc
      modifies this`copies, this`nextCopy
      ensures slot == NULL ==> Valid() && body == old(body) && curAlloc == old(curAlloc)
      ensures slot != NULL ==> Books([slot] + Order()) && slot !in Order() && slot in body && body[slot].what == e.what
      ensures slot != NULL ==> body == old(body)[slot := body[slot]]
      ensures (forall i :: grant(i)) && old(curAlloc) + e.size + BUFFER_SIZE < maxAlloc ==> slot != NULL
    {
      hide RbRootCached.Valid; hide RbRootCached.Order; hide Sound; hide Keyed; hide RbCached.Sorted; hide Items;
      var ptr := DupEvent(e);
      if ptr == 0 { return NULL; }
      ghost var unused;
      slot, unused := TakeSlot();
      if slot == NULL { return; }
      ghost var used := Used(buffers, current, bufferIdx);
      assert !unused ==> ([slot] + cache)[1..] == cache;
      Allotted(Order(), if unused then cache else [slot] + cache, if unused then used - 1 else used,
               body, buffers, curAlloc, copyOnQueue, copies, nextCopy,
               slot, NewBody(slot, e, ptr), unused);
      body := body[slot := NewBody(slot, e, ptr)];
      if copyOnQueue {
        copies := copies + {ptr};
        nextCopy := nextCopy + 1;
        curAlloc := curAlloc + e.size;
      }
    }

    /** The slot's contents; its size field is only written when events are copied. */
    function NewBody(slot: Ref, e: Event, ptr: int): Body
      reads this
    { Body(if copyOnQueue then e.size else if slot in body then body[slot].size else 0, ptr, e.what) }

    /** `queue_event` for a filled slot. */
    method QueueEvent(slot: Ref, t: int)
      requires events.Valid() && Books([slot] + Order()) && slot != NULL && slot !in Order() && slot in body
      requires Keyed(Order(), ts) && RbCached.Sorted(Order(), ts) && nrEvents == |Order()|
      requires (last != NULL ==> last in ts)
      modifies this`ts, this`nrEvents, this`last, this`maxTs, events, events.rb
      ensures Valid() && ts == old(ts)[slot := t] && Keyed(old(Order()), ts)
      ensures Order() == Insertion(old(Order()), slot, ts)
      ensures maxTs == if t > old(maxTs) then t else old(maxTs)
    {
      hide RbRootCached.Valid; hide RbRootCached.Order; hide Sound; hide Keyed; hide RbCached.Sorted; hide Items;
      hide Insertion;
      Inserted(Order(), slot, t, ts, cache, Used(buffers, current, bufferIdx), body, buffers, curAlloc, copyOnQueue,
               copies, nextCopy);
      ts := ts[slot := t];
      nrEvents := nrEvents + 1;
      if t > maxTs {
        last := slot;
        maxTs := t;
      }
      events.Add(slot, ts);
    }

    lemma LiveOrder()
      requires Valid()
      ensures LiveIn(Order(), body) && NULL !in Order() && forall s :: s in Order() ==> s in ts && s in body
    {
      SoundLive(Order(), cache, Used(buffers, current, bufferIdx), body, buffers, curAlloc, copyOnQueue, copies,
                nextCopy);
    }

    /** `ordered_events__new_event`: allocate, stamp and queue. */
    method NewEvent(t: int, e: Event) returns (slot: Ref)
      requires Valid() && e.ptr != 0
      modifies this, events, events.rb
      ensures Valid() && Abs() == if slot == NULL then old(Abs()) else Entered(old(Abs()), Item(t, e.what))
      ensures (forall i :: grant(i)) && old(curAlloc) + e.size + BUFFER_SIZE < maxAlloc ==> slot != NULL
    {
      hide RbRootCached.Valid; hide RbRootCached.Order; hide Books; hide Keyed; hide RbCached.Sorted; hide Items;
      hide Enter; hide Insertion; hide LiveIn;
      LiveOrder();
      ghost var body0 := body;
      slot := AllocEvent(e);
      if slot == NULL { return; }
      Enqueue(slot, t, body0);
    }

    /** A filled slot into the queue: one item more. */
    method Enqueue(slot: Ref, t: int, ghost body0: map<Ref, Body>)
      requires events.Valid() && Books([slot] + Order()) && slot != NULL && slot !in Order() && slot in body
      requires Keyed(Order(), ts) && RbCached.Sorted(Order(), ts) && nrEvents == |Order()|
      requires (last != NULL ==> last in ts)
      requires LiveIn(Order(), body0) && body == body0[slot := body[slot]]
      requires (forall s :: s in Order() ==> s in ts && s in body0)
      modifies this`ts, this`nrEvents, this`last, this`maxTs, events, events.rb
      ensures Valid()
      ensures Abs() ==
              Entered(old(State(Items(Order(), ts, body0), log, lastFlush, roundFlush, maxTs, nrUnordered)),
                      Item(t, body[slot].what))
    {
      hide RbRootCached.Valid; hide RbRootCached.Order; hide Books; hide Keyed; hide RbCached.Sorted; hide Items;
      hide Enter; hide Insertion; hide LiveIn;
      ghost var order, ts0 := Order(), ts;
      QueueEvent(slot, t);
      Entering(order, slot, ts0, body0, ts, body);
    }

    /** `ordered_events__delete`: out of the tree, into the cache, its copy freed. */
    method Delete(slot: Ref)
      requires Valid() && slot in Order()
      modifies this`cache, this`nrEvents, this`curAlloc, this`copies, this`body, events, events.rb
      ensures Valid() && Order() == Removed(old(Order()), slot) && cache == [slot] + old(cache)
      ensures slot in old(body) && body == old(body)[slot := old(body)[slot].(ptr := 0)]
    {
      hide RbRootCached.Valid; hide RbRootCached.Order; hide Sound; hide Keyed; hide RbCached.Sorted; hide Items;
      hide Removed;
      TakenOut(Order(), slot, ts, cache, Used(buffers, current, bufferIdx), body, buffers, curAlloc, copyOnQueue,
               copies, nextCopy);
      events.EraseCached(slot);
      cache := [slot] + cache;
      nrEvents := nrEvents - 1;
      if copyOnQueue {
        curAlloc := curAlloc - body[slot].size;
        FreeCopy(body[slot].ptr);
      }
      body := body[slot := body[slot].(ptr := 0)];
    }

    /** `free` of a copy that is still allocated. */
    method FreeCopy(ptr: int)
      requires ptr in copies
      modifies this`copies
      ensures copies == old(copies) - {ptr}
    { copies := copies - {ptr}; }

    /** The first queued event, accepted by `deliver`, leaves the queue. */
    method Dequeue(pos: Ref)
      requires Valid() && Order() != [] && pos == Order()[0]
      modifies this`cache, this`nrEvents, this`curAlloc, this`copies, this`body, this`log, this`lastFlush, events
      modifies events.rb
      ensures Valid() && Abs() == Delivered(old(Abs()), 1) && Order() == old(Order())[1..]
    {
      hide RbRootCached.Valid; hide RbRootCached.Order; hide Books; hide LiveIn; hide Removed; hide Keyed;
      hide RbCached.Sorted; hide Items;
      ghost var order, body0, st := Order(), body, Abs();
      LiveOrder();
      RemovedHead(order);
      assert pos in order;
      KeyedLive(order, ts, body);
      log := log + [ItemOf(pos, ts, body)];
      Delete(pos);
      lastFlush := ts[pos];
      TailItems(order, ts, body0, body);
      assert st.items[..1] == [ItemOf(pos, ts, body0)];
    }

    /** One turn of `do_flush` at the first queued event. */
    method FlushOne(pos: Ref, limit: int) returns (next: Ref, late: bool, ret: int)
      requires Valid() && pos != NULL && pos == Head(Order())
      modifies this`cache, this`nrEvents, this`curAlloc, this`copies, this`body, this`log, this`lastFlush, events
      modifies events.rb
      ensures Valid() && old(Abs()).items != []
      ensures late <==> old(Abs()).items[0].ts > limit
      ensures ret == if late then 0 else deliver(old(Abs()).items[0])
      ensures Abs() == if late || ret != 0 then old(Abs()) else Delivered(old(Abs()), 1)
      ensures if late || ret != 0 then Order() == old(Order()) else next == Head(Order()) && |Order()| < |old(Order())|
    {
      hide RbRootCached.Valid; hide RbRootCached.Order; hide Sound; hide Keyed; hide RbCached.Sorted; hide Delivered;
      hide Items;
      assert pos == Order()[0] && pos in Order() && Rest(Order(), pos) == Order()[1..];
      SoundLive(Order(), cache, Used(buffers, current, bufferIdx), body, buffers, curAlloc, copyOnQueue, copies,
                nextCopy);
      KeyedLive(Order(), ts, body);
      ItemsFirst(Order(), ts, body);
      next := events.Successor(pos);
      late, ret := ts[pos] > limit, 0;
      if late { return; }
      ret := deliver(ItemOf(pos, ts, body));
      if ret != 0 { return; }
      Dequeue(pos);
    }

    /** The state of a flush: `k` events delivered, and more to come unless it has ended. */
    ghost predicate Midway(st: State, k: nat, all: (nat, int), limit: int, n: int, ended: bool)
      requires Valid() && 0 <= n < U32
      reads this, events, events.rb
    {
      if ended then k <= |st.items| && Abs() == Delivered(st, k) && all == (k, 0)
      else Flushing(st, Abs(), k, all, limit, Budget(n), deliver)
    }

    /** One turn of `do_flush`, with the count. */
    method FlushCounted(pos: Ref, limit: int, n: int, ghost st: State, ghost k: nat, ghost all: (nat, int))
      returns (next: Ref, n': int, ended: bool, ret: int, ghost k': nat)
      requires Valid() && 0 <= n < U32 && pos != NULL && pos == Head(Order()) && Midway(st, k, all, limit, n, false)
      modifies this`cache, this`nrEvents, this`curAlloc, this`copies, this`body, this`log, this`lastFlush, events
      modifies events.rb
      ensures Valid() && 0 <= n' < U32
      ensures ret != 0 ==> k' <= |st.items| && Abs() == Delivered(st, k') && all == (k', ret)
      ensures ret == 0 ==>
                Midway(st, k', all, limit, n', ended) && if ended then |Order()| <= |old(Order())|
                                                         else |Order()| < |old(Order())| && next == Head(Order())
    {
      hide Valid; hide Abs; hide Order; hide Delivered; hide Taken; hide Flushing;
      FlushTurn(st, Abs(), k, all, limit, Budget(n), deliver);
      k', n', ended := k, n, true;
      var late;
      next, late, ret := FlushOne(pos, limit);
      if !late && ret == 0 {
        k' := k + 1;
        n' := (n + U32 - 1) % U32;
        ended := n' == 0;
      }
    }

    /** `do_flush`: deliver from the front up to `limit`, at most `n` events; 0 means as many as a
        32-bit counter allows. */
    method DoFlush(limit: int, n: int) returns (ret: int)
      requires Valid() && 0 <= n < U32
      modifies this`cache, this`nrEvents, this`curAlloc, this`copies, this`body, this`log, this`lastFlush, this`last
      modifies events, events.rb
      ensures Valid()
      ensures var (k, code) := Taken(old(Abs()).items, limit, Budget(n), deliver);
              ret == code && Abs() == Delivered(old(Abs()), k)
    {
      ghost var st := Abs();
      var next := events.FirstCached();
      assert next == Head(Order());
      hide Valid; hide Abs; hide Order; hide Delivered; hide Taken; hide Flushing;
      ghost var all, k := Taken(st.items, limit, Budget(n), deliver), 0;
      FlushStart(st, limit, Budget(n), deliver);
      ret := 0;
      if limit == 0 { return; }
      var n, ended := n, false;
      while next != NULL && !ended
        invariant Valid() && 0 <= n < U32 && (!ended ==> next == Head(Order())) && Midway(st, k, all, limit, n, ended)
        decreases |Order()|, !ended
      {
        next, n, ended, ret, k := FlushCounted(next, limit, n, st, k, all);
        if ret != 0 { return; }
      }
      ret := 0;
      if !ended {
        NoneQueued();
        FlushTurn(st, Abs(), k, all, limit, Budget(n), deliver);
      }
      ForgetLast();
    }

    /** `__ordered_events__flush`: everything due by the rule of `how`. */
    method Flush(how: How, arg: int) returns (err: int)
      requires Valid() && 0 <= arg < U64
      modifies this`cache, this`nrEvents, this`curAlloc, this`copies, this`body, this`log, this`lastFlush, this`last
      modifies this`roundFlush, events, events.rb
      ensures Valid()
      ensures var half := old(Half());
              (Abs(), err) == if how.FlushHalf? && old(last) == NULL then (old(Abs()), 0)
                              else FlushedBy(old(Abs()), how, arg, half, deliver)
      ensures how.FlushFinal? && (forall x :: deliver(x) == 0) && |old(Abs()).items| < U32 &&
              EventOrder.Sorted(old(Abs()).items) && (forall x :: x in old(Abs()).items ==> 0 < x.ts < U64) ==>
                Abs().items == []
    {
      KindsAll(how, arg);
      FirstStamp();
      if nrEvents == 0 { return 0; }
      if how.FlushHalf? && last == NULL { return 0; }
      var limit, n := FlushLimit(how, arg);
      hide Valid; hide Abs; hide Order; hide Delivered; hide Taken; hide LimitOf;
      err := DoFlush(limit, n);
      if err == 0 && how.FlushRound? { CloseRound(); }
    }

    lemma KindsAll(how: How, arg: int)
      requires Valid() && 0 <= arg < U64
      ensures var st := Abs();
              how.FlushFinal? && (forall x :: deliver(x) == 0) && |st.items| < U32 && EventOrder.Sorted(st.items) &&
              (forall x :: x in st.items ==> 0 < x.ts < U64) ==>
                FlushedBy(st, how, arg, Half(), deliver).0.items == []
    {
      var st := Abs();
      hide Valid; hide Abs; hide FlushedBy; hide Half;
      if how.FlushFinal? && (forall x :: deliver(x) == 0) && |st.items| < U32 && EventOrder.Sorted(st.items) &&
         forall x :: x in st.items ==> 0 < x.ts < U64 {
        FlushKinds(st, how, arg, Half(), deliver);
      }
    }

    /** How far and how many. */
    method FlushLimit(how: How, arg: int) returns (limit: int, n: int)
      requires Valid() && 0 <= arg < U64 && nrEvents > 0 && (how.FlushHalf? ==> last != NULL)
      ensures Abs().items != [] && limit == LimitOf(Abs(), how, arg, if last != NULL then ts[last] else 0)
      ensures n == (if how.FlushN? then arg else |Abs().items|) % U32
      ensures Abs().maxTs == maxTs
    {
      FirstStamp();
      hide RbRootCached.Valid; hide RbRootCached.Order; hide Sound; hide Keyed; hide RbCached.Sorted; hide Items;
      n := nrEvents % U32;
      limit := 0;
      match how {
        case FlushFinal => limit := U64 - 1;
        case FlushTop => limit := U64 - 1;
        case FlushHalf =>
          var first := events.FirstCached();
          limit := (ts[first] + (ts[last] - ts[first]) % U64 / 2) % U64;
        case FlushN => limit := U64 - 1; n := arg % U32;
        case FlushTime => limit := arg;
        case FlushRound => limit := roundFlush;
        case FlushNone =>
      }
    }

    method CloseRound()
      requires Valid()
      modifies this`roundFlush
      ensures Valid() && Abs() == old(Abs()).(roundFlush := maxTs)
    { roundFlush := maxTs; }

    lemma FirstStamp()
      requires Valid()
      ensures nrEvents == |Abs().items|
      ensures nrEvents > 0 ==> Head(events.Order()) in ts && Abs().items[0].ts == ts[Head(events.Order())]
    {
      if Order() != [] {
        assert Order()[0] in Order();
        SoundLive(Order(), cache, Used(buffers, current, bufferIdx), body, buffers, curAlloc, copyOnQueue, copies,
                  nextCopy);
        KeyedLive(Order(), ts, body);
        ItemsFirst(Order(), ts, body);
      }
    }

    /** The timestamp of the event noted as the last. */
    ghost function Half(): int
      requires Valid()
      reads this, events, events.rb
    { if last != NULL then ts[last] else 0 }

    lemma Emptied()
      requires Valid()
      ensures Abs().log == log && (nrEvents == 0 ==> Abs().items == [])
    {
      FirstStamp();
    }

    /** `ordered_events__queue`: a failed allocation forces 32 deliveries and is tried again. */
    method Queue(e: Event, t: int) returns (err: int, ghost retried: bool)
      requires Valid() && e.ptr != 0 && 0 <= t < U64
      modifies this, events, events.rb
      ensures Valid()
      ensures t == 0 || t == U64 - 1 ==> err == -ETIME && Abs() == old(Abs())
      ensures t != 0 && t != U64 - 1 ==>
                && (err == 0 || (err == -ENOMEM && retried))
                && var noted := Noted(old(Abs()), t);
                   var flushed := if retried then FlushedBy(noted, FlushN, 32, 0, deliver).0 else noted;
                   Abs() == if err == 0 then Entered(flushed, Item(t, e.what)) else flushed
      ensures (forall i :: grant(i)) && old(curAlloc) + e.size + BUFFER_SIZE < maxAlloc ==> !retried
    {
      retried := false;
      if t == 0 || t == U64 - 1 { return -ETIME, false; }
      CountLate(t);
      hide Valid; hide Abs; hide Order; hide Entered; hide Noted; hide FlushedBy;
      var slot := NewEvent(t, e);
      if slot == NULL {
        retried := true;
        var _ := Flush(FlushN, 32);
        HalfUnused(32, deliver);
        slot := NewEvent(t, e);
      }
      err := if slot == NULL then -ENOMEM else 0;
    }

    method CountLate(t: int)
      requires Valid()
      modifies this`nrUnordered
      ensures Valid() && Abs() == Noted(old(Abs()), t)
    {
      if t < lastFlush { nrUnordered := nrUnordered + 1; }
    }

    /** `ordered_events_buffer__free`: the copies of the first `max` slots of a buffer. */
    method FreeBuffer(base: nat, max: nat, ghost order: seq<Ref>, ghost todo: set<Ref>)
      requires copyOnQueue ==> LiveIn(order, body) && Unfreed(order, body, copies, todo)
      requires copyOnQueue ==>
                 forall s: Ref :: base < s <= base + max ==> s in todo && s in body && (body[s].ptr != 0 ==> s in order)
      requires !copyOnQueue ==> copies == {}
      modifies this`copies
      ensures if copyOnQueue then Unfreed(order, body, copies, todo - Range(base, base + max)) else copies == {}
    {
      if copyOnQueue {
        hide LiveIn;
        var i := 0;
        while i < max
          invariant 0 <= i <= max && Unfreed(order, body, copies, todo - Range(base, base + i))
        {
          var slot := base + i + 1;
          FreeOne(order, body, copies, todo - Range(base, base + i), slot);
          if body[slot].ptr != 0 { FreeCopy(body[slot].ptr); }
          i := i + 1;
          assert todo - Range(base, base + i - 1) - {slot} == todo - Range(base, base + i);
        }
      }
    }

    /** The copies of the slots up to `used` are all that is left to free. */
    ghost predicate FreeUpTo(order: seq<Ref>, used: nat)
      reads this
    {
      && LiveIn(order, body) && (if copyOnQueue then Unfreed(order, body, copies, Range(0, used)) else copies == {})
      && forall s :: s in Range(0, used) ==> s in body && (body[s].ptr != 0 ==> s in order)
    }

    /** One buffer after another from the end. */
    method FreeFrom(base: nat, max: nat, ghost order: seq<Ref>)
      requires FreeUpTo(order, base + max)
      modifies this`copies
      ensures FreeUpTo(order, base)
    {
      FreeBuffer(base, max, order, Range(0, base + max));
      assert Range(0, base + max) - Range(base, base + max) == Range(0, base);
    }

    /** `ordered_events__free`: every copy is freed, and none twice. */
    method Free()
      requires Valid()
      modifies this`copies
      ensures copies == {}
    {
      hide Valid; hide FreeUpTo; hide Order;
      ghost var order := Order();
      StartFree();
      var b := buffers;
      if b == 0 { FreedAll(order); return; }
      if current {
        b := b - 1;
        FreeFrom(b * SLOTS, bufferIdx, order);
      }
      while b > 0
        invariant 0 <= b <= buffers && FreeUpTo(order, b * SLOTS)
      {
        b := b - 1;
        FreeFrom(b * SLOTS, SLOTS, order);
      }
      FreedAll(order);
    }

    lemma StartFree()
      requires Valid()
      ensures (current ==> buffers > 0) && Used(buffers, current, bufferIdx) >= 0
      ensures FreeUpTo(Order(), Used(buffers, current, bufferIdx))
    {
      FreeFacts(Order(), cache, Used(buffers, current, bufferIdx), body, buffers, curAlloc, copyOnQueue, copies,
                nextCopy);
    }

    lemma FreedAll(order: seq<Ref>)
      requires FreeUpTo(order, 0)
      ensures copies == {}
    {
      NoneLeft(order, body, copies, Range(0, 0), 0, copyOnQueue);
    }

    lemma NoneQueued()
      requires Valid() && Head(Order()) == NULL
      ensures Abs().items == []
    {
      SoundLive(Order(), cache, Used(buffers, current, bufferIdx), body, buffers, curAlloc, copyOnQueue, copies,
                nextCopy);

    }

    /** An empty queue has no last event. */
    method ForgetLast()
      requires Valid()
      modifies this`last
      ensures Valid() && Abs() == old(Abs())
    {
      var empty := events.IsEmpty();
      if empty { last := NULL; }
    }
  }

  /** `k` of `all` events are delivered and the rest of the flush starts at `now`. */
  predicate Flushing(st: State, now: State, k: nat, all: (nat, int), limit: int, n: nat, deliver: Item -> int) {
    && n > 0 && limit != 0 && k <= |st.items| && now == Delivered(st, k)
    && var rest := Taken(now.items, limit, n, deliver);
       all == (k + rest.0, rest.1)
  }

  lemma FlushStart(st: State, limit: int, n: nat, deliver: Item -> int)
    requires n > 0
    ensures Delivered(st, 0) == st && (limit == 0 ==> Taken(st.items, limit, n, deliver) == (0, 0))
    ensures limit != 0 ==> Flushing(st, st, 0, Taken(st.items, limit, n, deliver), limit, n, deliver)
  {}

  /** What one turn of the flush does to the account. */
  lemma FlushTurn(st: State, now: State, k: nat, all: (nat, int), limit: int, n: nat, deliver: Item -> int)
    requires Flushing(st, now, k, all, limit, n, deliver)
    ensures k <= |st.items| && now == Delivered(st, k)
    ensures now.items == [] || now.items[0].ts > limit ==> all == (k, 0)
    ensures now.items != [] && now.items[0].ts <= limit ==>
              if deliver(now.items[0]) != 0 then all == (k, deliver(now.items[0]))
              else if n == 1 then k + 1 <= |st.items| && Delivered(now, 1) == Delivered(st, k + 1) && all == (k + 1, 0)
              else Flushing(st, Delivered(now, 1), k + 1, all, limit, n - 1, deliver)
  {
    if now.items != [] && now.items[0].ts <= limit {
      DeliveredNext(st, k);
      TakenStep(now.items, limit, n, deliver);
      assert Delivered(now, 1).items == now.items[1..];
    }
  }

  lemma ItemsFirst(order: seq<Ref>, ts: map<Ref, int>, body: map<Ref, Body>)
    requires order != [] && (forall s :: s in order ==> s in ts && s in body)
    ensures Items(order, ts, body)[0] == ItemOf(order[0], ts, body)
  {}

  datatype How = FlushNone | FlushFinal | FlushRound | FlushHalf | FlushTop | FlushTime | FlushN

  const U64: int := 0x1_0000_0000_0000_0000

  /** The limit a flush goes up to; `half` is the timestamp of the event noted as the last. */
  function LimitOf(st: State, how: How, arg: int, half: int): int
    requires st.items != []
  {
    match how
    case FlushNone => 0
    case FlushFinal => U64 - 1
    case FlushTop => U64 - 1
    case FlushN => U64 - 1
    case FlushTime => arg
    case FlushRound => st.roundFlush
    case FlushHalf => (st.items[0].ts + (half - st.items[0].ts) % U64 / 2) % U64
  }

  function FlushedBy(st: State, how: How, arg: int, half: int, deliver: Item -> int): (State, int)
    requires 0 <= arg < U64
  {
    if st.items == [] then (st, 0)
    else
      var n := Budget((if how.FlushN? then arg else |st.items|) % U32);
      var (k, code) := Taken(st.items, LimitOf(st, how, arg, half), n, deliver);
      var after := Delivered(st, k);
      (if how.FlushRound? && code == 0 then after.(roundFlush := st.maxTs) else after, code)
  }

  lemma HalfUnused(arg: int, deliver: Item -> int)
    requires 0 <= arg < U64
    ensures forall st: State, half: int ::
              FlushedBy(st, FlushN, arg, half, deliver) == FlushedBy(st, FlushN, arg, 0, deliver)
  {}

  /** With `deliver` accepting everything and fewer than 2^32 events queued, a flush is a step of the
      abstract queue. */
  lemma FlushIsStep(st: State, how: How, arg: int, half: int, deliver: Item -> int)
    requires 0 <= arg < U64 && |st.items| < U32 && forall x :: deliver(x) == 0
    ensures FlushedBy(st, how, arg, half, deliver) ==
            (if st.items == [] then st
             else if how.FlushRound? then RoundFlushed(st)
             else Flushed(st, LimitOf(st, how, arg, half), Budget((if how.FlushN? then arg else |st.items|) % U32)), 0)
  {}

  /** What each kind of flush leaves, when delivery accepts everything and timestamps are words: nothing; nothing
      delivered; all later than a time; all but the first `arg`; all later than the newest of the round before,
      and all later than half way between the first and the event noted as the last. */
  lemma FlushKinds(st: State, how: How, arg: int, half: int, deliver: Item -> int)
    requires 0 <= arg < U64 && |st.items| < U32 && EventOrder.Sorted(st.items) && forall x :: deliver(x) == 0
    requires forall x :: x in st.items ==> 0 < x.ts < U64
    ensures var s' := FlushedBy(st, how, arg, half, deliver).0;
            var k := |st.items| - |s'.items|;
            && 0 <= k <= |st.items| && s'.items == st.items[k..] && s'.log == st.log + st.items[..k]
            && (how.FlushFinal? || how.FlushTop? ==> s'.items == [])
            && (how.FlushNone? ==> k == 0)
            && (how.FlushTime? && arg > 0 ==> Parted(st.items, k, arg))
            && (how.FlushN? && 0 < arg < U32 ==> k == if arg < |st.items| then arg else |st.items|)
            && (how.FlushRound? && st.roundFlush > 0 ==> Parted(st.items, k, st.roundFlush))
            && (how.FlushRound? && st.items != [] ==> s'.roundFlush == st.maxTs)
            && (how.FlushHalf? && st.items != [] && st.items[0].ts <= half < U64 ==>
                  Parted(st.items, k, st.items[0].ts + (half - st.items[0].ts) / 2))
  {
    hide FlushedBy; hide Due; hide LimitOf; hide EventOrder.Sorted;
    FlushedIs(st, how, arg, half, deliver);
    if st.items != [] { KindParts(st.items, st, how, arg, half); }
  }

  lemma FlushedIs(st: State, how: How, arg: int, half: int, deliver: Item -> int)
    requires 0 <= arg < U64 && forall x :: deliver(x) == 0
    ensures var s' := FlushedBy(st, how, arg, half, deliver).0;
            var k := |st.items| - |s'.items|;
            && 0 <= k <= |st.items| && s'.items == st.items[k..] && s'.log == st.log + st.items[..k]
            && (st.items != [] ==>
                  && k == Due(st.items, LimitOf(st, how, arg, half),
                              Budget((if how.FlushN? then arg else |st.items|) % U32))
                  && (how.FlushRound? ==> s'.roundFlush == st.maxTs))
  {
    hide Taken; hide Due; hide LimitOf;
    if st.items != [] {
      var n := Budget((if how.FlushN? then arg else |st.items|) % U32);
      var limit := LimitOf(st, how, arg, half);
      assert Taken(st.items, limit, n, deliver) == (Due(st.items, limit, n), 0);
    }
  }

  lemma KindParts(items: seq<Item>, st: State, how: How, arg: int, half: int)
    requires items == st.items != [] && |items| < U32 && EventOrder.Sorted(items) && 0 <= arg < U64
    requires forall x :: x in items ==> 0 < x.ts < U64
    ensures var k := Due(items, LimitOf(st, how, arg, half), Budget((if how.FlushN? then arg else |items|) % U32));
            && (how.FlushFinal? || how.FlushTop? ==> k == |items|)
            && (how.FlushNone? ==> k == 0)
            && (how.FlushTime? && arg > 0 ==> Parted(items, k, arg))
            && (how.FlushN? && 0 < arg < U32 ==> k == if arg < |items| then arg else |items|)
            && (how.FlushRound? && st.roundFlush > 0 ==> Parted(items, k, st.roundFlush))
            && (how.FlushHalf? && items[0].ts <= half < U64 ==>
                  Parted(items, k, items[0].ts + (half - items[0].ts) / 2))
  {
    hide Due; hide Parted; hide EventOrder.Sorted;
    assert items[0] in items;
    var n := Budget((if how.FlushN? then arg else |items|) % U32);
    var limit := LimitOf(st, how, arg, half);
    assert how.FlushHalf? && items[0].ts <= half < U64 ==> limit == items[0].ts + (half - items[0].ts) / 2;
    if limit >= 0 { DueParts(items, limit, n); }
  }

  /** The first `k` are not later than `limit` and the others are. */
  predicate Parted(items: seq<Item>, k: nat, limit: int)
    requires k <= |items|
  {
    (forall i :: 0 <= i < k ==> items[i].ts <= limit) && forall i :: k <= i < |items| ==> items[i].ts > limit
  }

  lemma DueParts(items: seq<Item>, limit: int, n: nat)
    requires n > 0 && EventOrder.Sorted(items) && limit >= 0
    ensures var k := Due(items, limit, n);
            && (limit == 0 ==> k == 0)
            && (limit > 0 && n >= |items| ==> Parted(items, k, limit))
            && (limit > 0 && (forall x :: x in items ==> x.ts <= limit) ==> k == if n < |items| then n else |items|)
  {
    hide Due;
    var k := Due(items, limit, n);
    if limit > 0 && k < |items| { assert items[k] in items; }
  }

  function Range(lo: nat, hi: nat): (r: set<Ref>)
    ensures forall s :: s in r <==> lo < s <= hi
  { if hi <= lo then {} else Range(lo, hi - 1) + {hi} }

  /** The live copies are exactly the events of the queued slots in `todo`. */
  ghost predicate Unfreed(order: seq<Ref>, body: map<Ref, Body>, copies: set<int>, todo: set<Ref>)
    requires LiveIn(order, body)
  {
    && (forall s :: s in order ==> body[s].ptr != 0 && (s in todo ==> body[s].ptr in copies))
    && (forall s, u :: s in order && u in order && s != u ==> body[s].ptr != body[u].ptr)
    && (forall c :: c in copies ==> exists s :: s in order && s in todo && body[s].ptr == c)
  }

  lemma FreeOne(order: seq<Ref>, body: map<Ref, Body>, copies: set<int>, todo: set<Ref>, n: Ref)
    requires LiveIn(order, body) && Unfreed(order, body, copies, todo) && n in todo && n in body
    requires (body[n].ptr != 0 ==> n in order)
    ensures body[n].ptr != 0 ==> body[n].ptr in copies
    ensures Unfreed(order, body, if body[n].ptr != 0 then copies - {body[n].ptr} else copies, todo - {n})
  {
    var copies' := if body[n].ptr != 0 then copies - {body[n].ptr} else copies;
    forall c | c in copies' ensures exists s :: s in order && s in todo - {n} && body[s].ptr == c {
      var s :| s in order && s in todo && body[s].ptr == c;
      assert s in todo - {n};
    }
  }

  lemma FreeFacts(order: seq<Ref>, cache: seq<Ref>, used: nat, body: map<Ref, Body>, buffers: nat, curAlloc: int,
                  copy: bool, copies: set<int>, nextCopy: int)
    requires Sound(order, cache, used, body, buffers, curAlloc, copy, copies, nextCopy)
    ensures LiveIn(order, body) && (if copy then Unfreed(order, body, copies, Range(0, used)) else copies == {})
    ensures forall s :: s in Range(0, used) ==> s in body && (body[s].ptr != 0 ==> s in order)
    ensures forall s :: s in order ==> s in Range(0, used)
  {
    PartitionFacts(order, cache, used);
    forall s | s in Range(0, used) ensures s in body && (body[s].ptr != 0 ==> s in order) {
      assert (multiset(order) + multiset(cache))[s] == 1;
      assert s in order || s in cache;
    }
    if copy {
      forall c | c in copies ensures exists s :: s in order && s in Range(0, used) && body[s].ptr == c {
        var s :| s in order && body[s].ptr == c;
        assert s in Range(0, used);
      }
    }
  }

  lemma NoneLeft(order: seq<Ref>, body: map<Ref, Body>, copies: set<int>, todo: set<Ref>, used: nat, copy: bool)
    requires LiveIn(order, body)
    requires (if copy then Unfreed(order, body, copies, todo) else copies == {}) && todo == Range(0, used) && used == 0
    ensures copies == {}
  {
    if copy {
      assert forall s :: s !in todo;
      assert forall c :: c !in copies;
    }
  }

  function Budget(n: int): nat
    requires 0 <= n < U32
  { if n == 0 then U32 else n }

  lemma KeyedLive(order: seq<Ref>, ts: map<Ref, int>, body: map<Ref, Body>)
    requires Keyed(order, ts) && LiveIn(order, body)
    ensures forall s :: s in order ==> s in ts && s in body
  {}

  lemma TailItems(order: seq<Ref>, ts: map<Ref, int>, body: map<Ref, Body>, body': map<Ref, Body>)
    requires order != [] && (forall s :: s in order ==> s in ts && s in body)
    requires body' == body[order[0] := body[order[0]].(ptr := 0)]
    ensures Items(order[1..], ts, body') == Items(order, ts, body)[1..]
    ensures Items(order, ts, body)[..1] == [ItemOf(order[0], ts, body)]
  {}

  lemma RemovedHead(s: seq<Ref>)
    requires s != []
    ensures Removed(s, s[0]) == s[1..]
  {}

  lemma {:induction false} RemovedBag(s: seq<Ref>, n: Ref, body: map<Ref, Body>)
    requires n in s && LiveIn(s, body)
    ensures multiset(s) == multiset(Removed(s, n)) + multiset{n} && LiveIn(Removed(s, n), body)
    ensures Bytes(s, body) == Bytes(Removed(s, n), body) + body[n].size
  {
    assert s == [s[0]] + s[1..];
    if s[0] != n {
      RemovedBag(s[1..], n, body);
      assert Removed(s, n)[1..] == Removed(s[1..], n);
    }
  }

  lemma {:induction false} RemovedSorted(s: seq<Ref>, n: Ref, ts: map<Ref, int>)
    requires Keyed(s, ts) && RbCached.Sorted(s, ts)
    ensures Keyed(Removed(s, n), ts) && RbCached.Sorted(Removed(s, n), ts)
    ensures s != [] && Removed(s, n) != [] ==> ts[s[0]] <= ts[Removed(s, n)[0]]
  {
    if s != [] {
      SortedTail(s, ts);
      if s[0] != n {
        RemovedSorted(s[1..], n, ts);
        SortedFront(s[0], Removed(s[1..], n), ts);
      }
    }
  }

  /** The books once a slot has left the queue. */
  lemma TakenOut(order: seq<Ref>, n: Ref, ts: map<Ref, int>, cache: seq<Ref>, used: nat, body: map<Ref, Body>,
                 buffers: nat, curAlloc: int, copy: bool, copies: set<int>, nextCopy: int)
    requires Sound(order, cache, used, body, buffers, curAlloc, copy, copies, nextCopy)
    requires Keyed(order, ts) && RbCached.Sorted(order, ts) && n in order
    ensures n in body && n !in Removed(order, n) && (copy ==> body[n].ptr in copies)
    ensures |Removed(order, n)| + 1 == |order|
    ensures Keyed(Removed(order, n), ts) && RbCached.Sorted(Removed(order, n), ts)
    ensures Sound(Removed(order, n), [n] + cache, used, body[n := body[n].(ptr := 0)], buffers,
                  if copy then curAlloc - body[n].size else curAlloc,
                  copy, if copy then copies - {body[n].ptr} else copies, nextCopy)
  {
    hide Sound; hide Removed;
    var rest := Removed(order, n);
    SoundLive(order, cache, used, body, buffers, curAlloc, copy, copies, nextCopy);
    RemovedBag(order, n, body);
    RemovedSorted(order, n, ts);
    assert ([n] + rest)[1..] == rest;
    assert |multiset(order)| == |multiset(rest)| + 1;
    Reordered(order, [n] + rest, cache, used, body, buffers, curAlloc, copy, copies, nextCopy);
    Returned(n, rest, cache, used, body, buffers, curAlloc, copy, copies, nextCopy);
  }

  lemma SoundLive(live: seq<Ref>, cache: seq<Ref>, used: nat, body: map<Ref, Body>, buffers: nat, curAlloc: int,
                  copy: bool, copies: set<int>, nextCopy: int)
    requires Sound(live, cache, used, body, buffers, curAlloc, copy, copies, nextCopy)
    ensures LiveIn(live, body) && NULL !in live
  {
    PartitionFacts(live, cache, used);
  }

  lemma StampOther(order: seq<Ref>, ts: map<Ref, int>, n: Ref, t: int)
    requires Keyed(order, ts) && RbCached.Sorted(order, ts) && n !in order
    ensures Keyed(order, ts[n := t]) && RbCached.Sorted(order, ts[n := t])
  {}

  /** The books once the slot in hand is in the queue. */
  lemma Inserted(order: seq<Ref>, n: Ref, t: int, ts: map<Ref, int>, cache: seq<Ref>, used: nat, body: map<Ref, Body>,
                 buffers: nat, curAlloc: int, copy: bool, copies: set<int>, nextCopy: int)
    requires Sound([n] + order, cache, used, body, buffers, curAlloc, copy, copies, nextCopy)
    requires Keyed(order, ts) && RbCached.Sorted(order, ts) && n !in order
    ensures var ts' := ts[n := t];
            && Keyed(order, ts') && RbCached.Sorted(order, ts') && |Insertion(order, n, ts')| == |order| + 1
            && Keyed(Insertion(order, n, ts'), ts') && RbCached.Sorted(Insertion(order, n, ts'), ts')
            && Sound(Insertion(order, n, ts'), cache, used, body, buffers, curAlloc, copy, copies, nextCopy)
  {
    hide Sound; hide Insertion;
    var ts' := ts[n := t];
    SoundLive([n] + order, cache, used, body, buffers, curAlloc, copy, copies, nextCopy);
    StampOther(order, ts, n, t);
    InsertionSorted(order, n, ts');
    InsertedBag(order, n, ts', body);
    Reordered([n] + order, Insertion(order, n, ts'), cache, used, body, buffers, curAlloc, copy, copies, nextCopy);
  }

  /** The items with one more slot. */
  lemma Entering(order: seq<Ref>, n: Ref, ts0: map<Ref, int>, body0: map<Ref, Body>, ts: map<Ref, int>, body: map<Ref,
                 Body>)
    requires Keyed(order, ts0) && LiveIn(order, body0) && n !in order && n in ts && n in body
    requires ts == ts0[n := ts[n]] && body == body0[n := body[n]]
    ensures Keyed(order, ts) && (forall m :: m in Insertion(order, n, ts) ==> m in ts && m in body)
    ensures Items(Insertion(order, n, ts), ts, body) == Enter(Items(order, ts0, body0), ItemOf(n, ts, body))
    ensures |Insertion(order, n, ts)| == |order| + 1
  {
    ItemsSame(order, ts0, body0, ts, body);
    ItemsInsertion(order, n, ts, body);
    assert |multiset(Insertion(order, n, ts))| == |multiset(order)| + 1;
  }

  lemma InsertedBag(order: seq<Ref>, n: Ref, ts: map<Ref, int>, body: map<Ref, Body>)
    requires Keyed(order, ts) && n in ts && LiveIn([n] + order, body)
    ensures multiset(Insertion(order, n, ts)) == multiset([n] + order)
    ensures LiveIn(Insertion(order, n, ts), body) && LiveIn([n] + order, body)
    ensures Bytes([n] + order, body) == Bytes(Insertion(order, n, ts), body)
    ensures |Insertion(order, n, ts)| == |order| + 1
  {
    assert |multiset(Insertion(order, n, ts))| == |multiset(order)| + 1;
    assert n in [n] + order;
    assert forall m :: m in order ==> m in [n] + order;
    BytesInsertion(order, n, ts, body);
    assert ([n] + order)[1..] == order;
  }

  lemma NewBuffer(live: seq<Ref>, cache: seq<Ref>, used: nat, body: map<Ref, Body>, buffers: nat, curAlloc: int,
                  copy: bool, copies: set<int>, nextCopy: int)
    requires Sound(live, cache, used, body, buffers, curAlloc, copy, copies, nextCopy)
    ensures Sound(live, cache, used, body, buffers + 1, curAlloc + BUFFER_SIZE, copy, copies, nextCopy)
  {}

  lemma SlotRange(live: seq<Ref>, cache: seq<Ref>, used: nat, body: map<Ref, Body>, buffers: nat, curAlloc: int,
                  copy: bool, copies: set<int>, nextCopy: int)
    requires Sound(live, cache, used, body, buffers, curAlloc, copy, copies, nextCopy) && cache != []
    ensures used >= 1 && cache[0] != NULL
  {
    PartitionFacts(live, cache, used);
    assert cache[0] in cache;
  }

  // ----- sessions -----

  datatype Call = Arrive(e: Event, t: int) | Push(how: How, arg: int)

  predicate Usable(c: Call) {
    match c
    case Arrive(e, t) => e.ptr != 0 && 0 <= t < U64
    case Push(_, arg) => 0 <= arg < U64
  }

  /** What is to be queued: the smallest and the largest timestamp are refused. */
  function Arrivals(c: Call): seq<Item> {
    if c.Arrive? && c.t != 0 && c.t != U64 - 1 then [Item(c.t, c.e.what)] else []
  }

  function AllArrivals(calls: seq<Call>): seq<Item> {
    if calls == [] then [] else AllArrivals(calls[..|calls| - 1]) + Arrivals(calls[|calls| - 1])
  }

  function Asked(op: Op): seq<Item> { if op.Queue? || op.Forced? then [op.x] else [] }

  function AllAsked(ops: seq<Op>): seq<Item> {
    if ops == [] then [] else AllAsked(ops[..|ops| - 1]) + Asked(ops[|ops| - 1])
  }

  /** What a flush does as a step. */
  ghost function FlushOp(st: State, how: How, arg: int, half: int, deliver: Item -> int): Op
    requires 0 <= arg < U64
  {
    if st.items == [] then Cut(0)
    else
      var n := Budget((if how.FlushN? then arg else |st.items|) % U32);
      var (k, code) := Taken(st.items, LimitOf(st, how, arg, half), n, deliver);
      if code != 0 then Cut(k) else if how.FlushRound? then Round else Flush(LimitOf(st, how, arg, half), n)
  }

  lemma FlushSteps(st: State, how: How, arg: int, half: int, deliver: Item -> int)
    requires 0 <= arg < U64 && |st.items| < U32
    ensures var op := FlushOp(st, how, arg, half, deliver);
            && (op.Flush? ==> op.n > 0) && Asked(op) == [] && FlushedBy(st, how, arg, half, deliver).0 == Step(st, op)
  {
    hide Delivered; hide Taken; hide Due; hide LimitOf;
    if st.items == [] {
      NoDelivery(st);
    } else {
      var limit, n := LimitOf(st, how, arg, half), Budget((if how.FlushN? then arg else |st.items|) % U32);
      TakenDue(st.items, limit, n, deliver);
      assert how.FlushRound? ==> limit == st.roundFlush && n == |st.items| by { RoundLimit(st, arg, half); }
    }
  }

  lemma TakenDue(items: seq<Item>, limit: int, n: nat, deliver: Item -> int)
    requires n > 0
    ensures var r := Taken(items, limit, n, deliver); r.0 <= |items| && (r.1 == 0 ==> r.0 == Due(items, limit, n))
  {
    hide Due; hide Taken;
  }

  lemma RoundLimit(st: State, arg: int, half: int)
    requires st.items != [] && |st.items| < U32
    ensures LimitOf(st, FlushRound, arg, half) == st.roundFlush && Budget(|st.items| % U32) == |st.items|
  {}

  /** How many events a queue call that found no memory makes way with. */
  ghost function Way(st: State, deliver: Item -> int): nat {
    if st.items == [] then 0 else Taken(st.items, U64 - 1, 32, deliver).0
  }

  lemma ForcedSteps(st: State, x: Item, kept: bool, deliver: Item -> int)
    ensures var flushed := FlushedBy(Noted(st, x.ts), FlushN, 32, 0, deliver).0;
            Step(st, Forced(x, Way(st, deliver), kept)) == if kept then Entered(flushed, x) else flushed
  {
    hide Entered; hide Taken; hide Delivered;
    var noted := Noted(st, x.ts);
    assert noted.items == st.items;
    assert CutAt(noted, Way(st, deliver)) == FlushedBy(noted, FlushN, 32, 0, deliver).0 by {
      NoDelivery(noted);
      assert st.items != [] ==> LimitOf(noted, FlushN, 32, 0) == U64 - 1 && Budget(32 % U32) == 32;
    }
  }

  lemma NoDelivery(st: State)
    ensures Delivered(st, 0) == st
  {}

  /** One call is at most one step of the abstract queue, for the same event. */
  method Serve(q: EventQueue, c: Call) returns (ghost ops: seq<Op>)
    requires q.Valid() && Usable(c) && |q.Abs().items| < U32
    modifies q, q.events, q.events.rb
    ensures q.Valid() && |ops| <= 1 && Proper(ops) && AllAsked(ops) == Arrivals(c)
    ensures q.Abs() == if ops == [] then old(q.Abs()) else Step(old(q.Abs()), ops[0])
  {
    hide EventQueue.Valid; hide EventQueue.Abs; hide Step; hide FlushedBy; hide Noted; hide Entered;
    ghost var st := q.Abs();
    match c {
      case Arrive(e, t) =>
        var err, retried := q.Queue(e, t);
        if t == 0 || t == U64 - 1 { ops := []; return; }
        var x := Item(t, e.what);
        if retried {
          ForcedSteps(st, x, err == 0, q.deliver);
          ops := [Forced(x, Way(st, q.deliver), err == 0)];
        } else {
          QueueSteps(st, x);
          ops := [EventOrder.Queue(x)];
        }
      case Push(how, arg) =>
        ghost var half := q.Half();
        ghost var skip := how.FlushHalf? && q.last == NULL;
        var _ := q.Flush(how, arg);
        FlushSteps(st, how, arg, half, q.deliver);
        ops := if skip then [] else [FlushOp(st, how, arg, half, q.deliver)];
    }
    if ops != [] { OneAsked(ops[0]); }
  }

  lemma QueueSteps(st: State, x: Item)
    ensures Step(st, EventOrder.Queue(x)) == Entered(Noted(st, x.ts), x)
  {}

  lemma OneAsked(op: Op)
    ensures AllAsked([op]) == Asked(op)
  {
    assert [op][..0] == [];
    assert AllAsked([]) + Asked(op) == Asked(op);
  }

  lemma {:induction false} PutsSize(ops: seq<Op>)
    ensures |Puts(ops)| <= |ops|
  {
    if ops != [] { PutsSize(ops[1..]); }
  }

  lemma FewItems(ops: seq<Op>)
    requires Proper(ops)
    ensures |Run(START, ops).items| <= |ops|
  {
    RunHeld(START, ops);
    PutsSize(ops);
    var st := Run(START, ops);
    assert |Held(st)| == |multiset(st.items)| + |multiset(st.log)|;
  }

  /** A whole session, fewer than 2^32 calls of any kind: the implementation ends in the state of a run of the
      abstract queue in which the events that were to be queued come in order, so if all is delivered in the end
      it was delivered in the order of time exactly when none entered below the last delivered time. */
  method Session(calls: seq<Call>, deliver: Item -> int, copyOnQueue: bool, maxAlloc: int, grant: nat -> bool)
    returns (q: EventQueue, ghost ops: seq<Op>)
    requires |calls| < U32 && forall c :: c in calls ==> Usable(c)
    ensures q.Valid() && Proper(ops) && Stamped(ops) && AllAsked(ops) == AllArrivals(calls)
    ensures q.Abs() == Run(START, ops)
    ensures multiset(q.Abs().items) + multiset(q.log) == Puts(ops)
    ensures q.nrEvents == 0 ==> (EventOrder.Sorted(q.log) <==> InTime(START, ops))
  {
    hide EventQueue.Valid; hide EventQueue.Abs; hide Run; hide Step; hide InTime; hide Usable;
    hide EventOrder.Sorted; hide Puts; hide AllAsked; hide AllArrivals; hide Stamped; hide Proper;
    q := new EventQueue(deliver, copyOnQueue, maxAlloc, grant);
    ops := [];
    NoCalls();
    var n := 0;
    while n < |calls|
      invariant 0 <= n <= |calls| && fresh(q) && fresh(q.events) && fresh(q.events.rb) && q.Valid()
      invariant Proper(ops) && |ops| <= n && q.Abs() == Run(START, ops) && AllAsked(ops) == AllArrivals(calls[..n])
    {
      FewItems(ops);
      assert calls[..n + 1][..n] == calls[..n];
      ghost var more := Serve(q, calls[n]);
      OneCall(calls[..n], calls[n], ops, more);
      assert calls[..n + 1] == calls[..n] + [calls[n]];
      ops := ops + more;
      n := n + 1;
    }
    assert calls[..n] == calls;
    AskedStamped(ops, calls);
    RunHeld(START, ops);
    q.Emptied();
    if q.nrEvents == 0 { OrderedIffInTime(ops); }
  }

  lemma NoCalls()
    ensures Proper([]) && Run(START, []) == START && AllAsked([]) == AllArrivals([])
  {}

  lemma OneCall(calls: seq<Call>, c: Call, ops: seq<Op>, more: seq<Op>)
    requires Proper(ops) && Proper(more) && |more| <= 1 && AllAsked(more) == Arrivals(c)
    requires AllAsked(ops) == AllArrivals(calls)
    ensures Proper(ops + more) && AllAsked(ops + more) == AllArrivals(calls + [c])
    ensures more != [] ==> Run(START, ops + more) == Step(Run(START, ops), more[0])
    ensures more == [] ==> ops + more == ops
  {
    hide Run; hide Step; hide Arrivals; hide Asked;
    assert (calls + [c])[..|calls|] == calls;
    if more != [] {
      assert more == [more[0]];
      assert (ops + more)[..|ops|] == ops && more[..0] == [] && AllAsked([]) == [];
      RunLast(START, ops, more[0]);
    } else {
      assert ops + more == ops && AllArrivals(calls) + [] == AllArrivals(calls);
    }
  }

  lemma {:induction false} AskedStamped(ops: seq<Op>, calls: seq<Call>)
    requires AllAsked(ops) == AllArrivals(calls) && forall c :: c in calls ==> Usable(c)
    ensures Stamped(ops)
  {
    ArrivalsStamped(calls);
    forall op | op in ops && (op.Queue? || op.Forced?) ensures op.x.ts > 0 { AskedIn(ops, op); }
  }

  lemma {:induction false} ArrivalsStamped(calls: seq<Call>)
    requires forall c :: c in calls ==> Usable(c)
    ensures forall x :: x in AllArrivals(calls) ==> x.ts > 0
  {
    if calls != [] { ArrivalsStamped(calls[..|calls| - 1]); assert calls[|calls| - 1] in calls; }
  }

  lemma {:induction false} AskedIn(ops: seq<Op>, op: Op)
    requires op in ops && (op.Queue? || op.Forced?)
    ensures op.x in AllAsked(ops)
  {
    if ops[|ops| - 1] != op { AskedIn(ops[..|ops| - 1], op); }
  }
}
