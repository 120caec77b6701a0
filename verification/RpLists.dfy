/** The allocator's free lists: linked through the first word of each free block, and the place each
    block is in. */
module RpLists {
  import opened Options

  /** A block of a page, by index. */
  datatype Block = Block(page: nat, idx: nat)

  /** The lists a free block can be on. `Drained` is the list the owner has taken from the heap's
      deferred frees and is working through. */
  datatype ListId =
    | PageLocal(page: nat) | PageThread(page: nat)
    | HeapLocal(class_: nat) | HeapThread(type_: nat) | Drained

  /** A block is held by the user, in the hands of a thread between two places, or on a list. */
  datatype Place = User | Hand(thread: nat) | On(list: ListId)

  /** The list heads and the first words of the blocks, with the contents of each list and the place
      of each block beside them. */
  datatype Mem = Mem(head: map<ListId, Option<Block>>, next: map<Block, Option<Block>>, lists: map<ListId, seq<Block>>,
                     where: map<Block, Place>)

  predicate NoDup(s: seq<Block>) { forall i, j :: 0 <= i < j < |s| ==> s[i] != s[j] }

  function Top(s: seq<Block>): Option<Block> { if s == [] then None else Some(s[0]) }

  /** Following the links from the first block of `s` visits `s` and ends. */
  predicate Linked(next: map<Block, Option<Block>>, s: seq<Block>) {
    forall i :: 0 <= i < |s| ==> s[i] in next && next[s[i]] == Top(s[i + 1..])
  }

  /** Exactly the blocks on the list are placed there. */
  ghost predicate Placed(where: map<Block, Place>, l: ListId, s: seq<Block>) {
    forall b :: b in s <==> b in where && where[b] == On(l)
  }

  ghost predicate ListOk(m: Mem, l: ListId) {
    && l in m.lists && l in m.head && m.head[l] == Top(m.lists[l])
    && NoDup(m.lists[l]) && Linked(m.next, m.lists[l]) && Placed(m.where, l, m.lists[l])
  }

  ghost predicate Ok(m: Mem) { forall l :: l in m.lists ==> ListOk(m, l) }

  /** Everything placed is placed on a known list. */
  ghost predicate Known(m: Mem) { forall b :: b in m.where && m.where[b].On? ==> m.where[b].list in m.lists }

  // ----- what does not change a list -----

  lemma LinkedSame(next: map<Block, Option<Block>>, next': map<Block, Option<Block>>, s: seq<Block>)
    requires Linked(next, s) && forall b :: b in s ==> b in next' && b in next && next'[b] == next[b]
    ensures Linked(next', s)
  {
    forall i | 0 <= i < |s| ensures s[i] in next' && next'[s[i]] == Top(s[i + 1..]) { assert s[i] in s; }
  }

  /** A list is unaffected when its blocks keep their links and no block enters or leaves it. */
  lemma ListSame(m: Mem, m': Mem, l: ListId)
    requires ListOk(m, l) && l in m'.lists && m'.lists[l] == m.lists[l] && l in m'.head && m'.head[l] == m.head[l]
    requires forall b :: b in m.lists[l] ==> b in m.next && b in m'.next && m'.next[b] == m.next[b]
    requires Placed(m'.where, l, m.lists[l])
    ensures ListOk(m', l)
  {
    LinkedSame(m.next, m'.next, m.lists[l]);
  }

  /** Writing the first word of a block that is on no list. */
  function WriteNext(m: Mem, b: Block, v: Option<Block>): Mem { m.(next := m.next[b := v]) }

  lemma WriteOk(m: Mem, b: Block, v: Option<Block>)
    requires Ok(m) && b in m.where && !m.where[b].On?
    ensures Ok(WriteNext(m, b, v))
  {
    var m' := WriteNext(m, b, v);
    forall l | l in m'.lists ensures ListOk(m', l) {
      assert ListOk(m, l);
      OnListNext(m, l);
      ListSame(m, m', l);
    }
  }

  lemma OnListNext(m: Mem, l: ListId)
    requires ListOk(m, l)
    ensures forall b :: b in m.lists[l] ==> b in m.next
  {}

  /** A block changes hands outside the lists. */
  function Hold(m: Mem, b: Block, p: Place): Mem { m.(where := m.where[b := p]) }

  lemma HoldOk(m: Mem, b: Block, p: Place)
    requires Ok(m) && (b in m.where ==> !m.where[b].On?) && !p.On?
    ensures Ok(Hold(m, b, p))
  {
    var m' := Hold(m, b, p);
    forall l | l in m'.lists ensures ListOk(m', l) {
      assert ListOk(m, l);
      OnListNext(m, l);
      ListSame(m, m', l);
    }
  }

  // ----- push, pop, take all -----

  /** A block whose first word holds the current head becomes the head. */
  function Push(m: Mem, l: ListId, b: Block): Mem
    requires l in m.lists
  {
    m.(head := m.head[l := Some(b)], lists := m.lists[l := [b] + m.lists[l]], where := m.where[b := On(l)])
  }

  lemma PushOk(m: Mem, l: ListId, b: Block)
    requires Ok(m) && l in m.lists && b in m.where && !m.where[b].On? && b in m.next && l in m.head
    requires m.next[b] == m.head[l]
    ensures Ok(Push(m, l, b))
  {
    var m' := Push(m, l, b);
    forall k | k in m'.lists ensures ListOk(m', k) {
      assert ListOk(m, k);
      OnListNext(m, k);
      if k == l { PushOne(m, l, b); } else { ListSame(m, m', k); }
    }
  }

  lemma PushOne(m: Mem, l: ListId, b: Block)
    requires ListOk(m, l) && b in m.where && !m.where[b].On? && b in m.next && m.next[b] == m.head[l]
    ensures ListOk(Push(m, l, b), l)
  {
    var s := m.lists[l];
    var t := [b] + s;
    assert b !in s;
    forall i | 0 <= i < |t| ensures t[i] in m.next && m.next[t[i]] == Top(t[i + 1..]) {
      if i == 0 { assert t[1..] == s; } else { assert t[i] == s[i - 1] && t[i + 1..] == s[i..]; }
    }
    forall i, j | 0 <= i < j < |t| ensures t[i] != t[j] {
      assert t[j] == s[j - 1];
      if i == 0 { assert s[j - 1] in s; } else { assert t[i] == s[i - 1]; }
    }
    assert forall c :: c in t <==> c == b || c in s;
  }

  /** The head block leaves the list; the word in it is the new head. */
  function Pop(m: Mem, l: ListId, p: Place): Mem
    requires l in m.lists && m.lists[l] != [] && m.lists[l][0] in m.next
  {
    var b := m.lists[l][0];
    m.(head := m.head[l := m.next[b]], lists := m.lists[l := m.lists[l][1..]], where := m.where[b := p])
  }

  lemma PopOk(m: Mem, l: ListId, p: Place)
    requires Ok(m) && l in m.lists && m.lists[l] != [] && !p.On?
    ensures m.lists[l][0] in m.next && m.lists[l][0] in m.where && m.where[m.lists[l][0]] == On(l)
    ensures l in m.head && m.head[l] == Some(m.lists[l][0])
    ensures Ok(Pop(m, l, p))
  {
    assert ListOk(m, l);
    assert m.lists[l][0] in m.lists[l];
    var m' := Pop(m, l, p);
    forall k | k in m'.lists ensures ListOk(m', k) {
      assert ListOk(m, k);
      OnListNext(m, k);
      if k == l { PopOne(m, l, p); } else { ListSame(m, m', k); }
    }
  }

  lemma PopOne(m: Mem, l: ListId, p: Place)
    requires ListOk(m, l) && m.lists[l] != [] && !p.On?
    ensures m.lists[l][0] in m.next
    ensures ListOk(Pop(m, l, p), l)
  {
    var s := m.lists[l];
    var t := s[1..];
    assert s[0] in m.next && m.next[s[0]] == Top(s[1..]);
    forall i | 0 <= i < |t|
      ensures t[i] in m.next && m.next[t[i]] == Top(t[i + 1..])
    {
      assert t[i] == s[i + 1] && t[i + 1..] == s[i + 2..];
    }
    assert forall c :: c in t <==> c in s && c != s[0];
  }

  /** A whole list moves to an empty one. */
  function TakeAll(m: Mem, l: ListId, k: ListId): Mem
    requires l in m.lists && l in m.head
  {
    m.(head := m.head[k := m.head[l]][l := None], lists := m.lists[k := m.lists[l]][l := []],
       where := map b | b in m.where :: if m.where[b] == On(l) then On(k) else m.where[b])
  }

  lemma TakeAllOk(m: Mem, l: ListId, k: ListId)
    requires Ok(m) && l in m.lists && k in m.lists && l != k && m.lists[k] == []
    ensures l in m.head && Ok(TakeAll(m, l, k))
  {
    assert ListOk(m, l) && ListOk(m, k);
    var m' := TakeAll(m, l, k);
    forall j | j in m'.lists ensures ListOk(m', j) {
      assert ListOk(m, j);
      if j != l && j != k { OnListNext(m, j); ListSame(m, m', j); }
    }
  }

  // ----- carving out and giving back the blocks of a page -----

  predicate InRun(b: Block, p: nat, from: nat, n: nat) { b.page == p && from <= b.idx < from + n }

  /** The blocks of a page with indices from `from` on. */
  function Run(p: nat, from: nat, n: nat): (r: seq<Block>)
    ensures |r| == n && forall i :: 0 <= i < n ==> r[i] == Block(p, from + i)
  { seq(n, i requires 0 <= i => Block(p, from + i)) }

  lemma RunHas(p: nat, from: nat, n: nat)
    ensures forall b :: b in Run(p, from, n) <==> InRun(b, p, from, n)
  {
    var s := Run(p, from, n);
    forall b | InRun(b, p, from, n) ensures b in s { assert s[b.idx - from] == b; }
  }

  /** Fresh blocks, linked in order, as the contents of an empty list. */
  function Carve(m: Mem, l: ListId, p: nat, from: nat, n: nat): Mem {
    var s := Run(p, from, n);
    var fresh_ := set b | b in s;
    m.(head := m.head[l := Top(s)], lists := m.lists[l := s],
       next := map b | b in m.next.Keys + fresh_ ::
         if b in fresh_ then (if b.idx + 1 < from + n then Some(Block(p, b.idx + 1)) else None) else m.next[b],
       where := map b | b in m.where.Keys + fresh_ :: if b in fresh_ then On(l) else m.where[b])
  }

  lemma CarveOk(m: Mem, l: ListId, p: nat, from: nat, n: nat)
    requires Ok(m) && l in m.lists && m.lists[l] == [] && forall b :: b in m.where ==> !InRun(b, p, from, n)
    ensures Ok(Carve(m, l, p, from, n))
  {
    var m' := Carve(m, l, p, from, n);
    RunHas(p, from, n);
    forall k | k in m'.lists ensures ListOk(m', k) {
      assert ListOk(m, k);
      if k == l { CarveOne(m, l, p, from, n); } else {
        OnListNext(m, k);
        ListSame(m, m', k);
      }
    }
  }

  lemma CarveOne(m: Mem, l: ListId, p: nat, from: nat, n: nat)
    requires ListOk(m, l) && m.lists[l] == []
    ensures ListOk(Carve(m, l, p, from, n), l)
  {
    var m' := Carve(m, l, p, from, n);
    var s := Run(p, from, n);
    forall i | 0 <= i < n ensures s[i] in m'.next && m'.next[s[i]] == Top(s[i + 1..]) {
      assert s[i] in s;
      if i + 1 < n { assert s[i + 1..][0] == s[i + 1]; }
    }
    assert forall b :: b in m.where ==> m.where[b] != On(l);
  }

  /** All blocks of a list cease to exist. */
  function Drop(m: Mem, l: ListId): Mem
    requires l in m.lists
  {
    m.(head := m.head[l := None], lists := m.lists[l := []],
       where := map b | b in m.where && m.where[b] != On(l) :: m.where[b])
  }

  lemma DropOk(m: Mem, l: ListId)
    requires Ok(m) && l in m.lists
    ensures Ok(Drop(m, l))
  {
    var m' := Drop(m, l);
    forall k | k in m'.lists ensures ListOk(m', k) {
      assert ListOk(m, k);
      if k != l { OnListNext(m, k); ListSame(m, m', k); }
    }
  }

  /** A new page brings two empty lists. */
  function Open(m: Mem, p: nat): Mem {
    m.(head := m.head[PageLocal(p) := None][PageThread(p) := None],
       lists := m.lists[PageLocal(p) := []][PageThread(p) := []])
  }

  lemma OpenOk(m: Mem, p: nat)
    requires Ok(m) && Known(m) && PageLocal(p) !in m.lists && PageThread(p) !in m.lists
    ensures Ok(Open(m, p))
  {
    var m' := Open(m, p);
    forall k | k in m'.lists ensures ListOk(m', k) {
      if k in m.lists { assert ListOk(m, k); OnListNext(m, k); ListSame(m, m', k); }
    }
  }

  // ----- counting -----

  predicate Within(s: seq<Block>, p: nat, n: nat) { forall b :: b in s ==> b.page == p && b.idx < n }

  function Indices(s: seq<Block>): set<nat> { set b | b in s :: b.idx }

  function UpTo(n: nat): (r: set<nat>)
    ensures |r| == n && forall i: nat :: i in r <==> i < n
  { if n == 0 then {} else UpTo(n - 1) + {n - 1} }

  lemma {:induction false} IndicesSize(s: seq<Block>, p: nat, n: nat)
    requires NoDup(s) && Within(s, p, n)
    ensures |Indices(s)| == |s|
  {
    if s != [] {
      var t := s[1..];
      assert forall b :: b in t ==> b in s;
      IndicesSize(t, p, n);
      assert s[0].idx !in Indices(t) by {
        forall b | b in t
          ensures b.idx != s[0].idx
        {
          var i :| 0 <= i < |t| && t[i] == b; assert s[i + 1] == b && s[0] in s;
        }
      }
      assert Indices(s) == Indices(t) + {s[0].idx} by {
        forall b | b in s ensures b.idx in Indices(t) + {s[0].idx} { if b != s[0] { assert b in t; } }
      }
    }
  }

  lemma SubsetSize(a: set<nat>, b: set<nat>)
    requires a <= b
    ensures |a| <= |b| && (|a| == |b| ==> a == b)
  {
    assert b == a + (b - a);
    assert |b| == |a| + |b - a|;
  }

  /** Different blocks below `n`: no more than `n`, and if `n` then all of them. */
  lemma AtMost(s: seq<Block>, p: nat, n: nat)
    requires NoDup(s) && Within(s, p, n)
    ensures |s| <= n && (|s| == n ==> forall i: nat :: i < n ==> Block(p, i) in s)
  {
    IndicesSize(s, p, n);
    SubsetSize(Indices(s), UpTo(n));
    if |s| == n {
      forall i: nat | i < n ensures Block(p, i) in s {
        assert i in UpTo(n) && i in Indices(s);
        var b :| b in s && b.idx == i;
      }
    }
  }

  // ----- what the operations leave alone -----

  const OWNER: nat := 0

  /** In the hands of a thread other than the owner. */
  predicate Foreign(m: Mem, b: Block) { b in m.where && m.where[b].Hand? && m.where[b].thread != OWNER }

  /** The blocks in other threads' hands and their first words are untouched. */
  ghost predicate ForeignSame(m: Mem, m': Mem) {
    && (forall b :: Foreign(m, b) ==>
          Foreign(m', b) && m'.where[b] == m.where[b] && (b in m.next ==> b in m'.next && m'.next[b] == m.next[b]))
    && (forall b :: Foreign(m', b) ==> Foreign(m, b))
  }

  /** The lists and the set of blocks of a page are untouched. */
  ghost predicate PageSame(m: Mem, m': Mem, p: nat) {
    && (PageLocal(p) in m.lists ==> PageLocal(p) in m'.lists && m'.lists[PageLocal(p)] == m.lists[PageLocal(p)])
    && (PageThread(p) in m.lists ==> PageThread(p) in m'.lists && m'.lists[PageThread(p)] == m.lists[PageThread(p)])
    && (forall b: Block :: b.page == p ==> (b in m'.where <==> b in m.where))
  }

  /** So are all pages but `p`. */
  ghost predicate Elsewhere(m: Mem, m': Mem, p: nat) { forall q :: q != p ==> PageSame(m, m', q) }

  /** The heap's own lists lose blocks at most. */
  ghost predicate HeapShrinks(m: Mem, m': Mem) {
    forall c, b :: HeapLocal(c) in m'.lists && b in m'.lists[HeapLocal(c)] ==>
      HeapLocal(c) in m.lists && b in m.lists[HeapLocal(c)]
  }

  ghost predicate Steady(m: Mem, m': Mem) {
    Ok(m') && Known(m') && m'.lists.Keys == m.lists.Keys && ForeignSame(m, m') && HeapShrinks(m, m')
  }

  lemma SteadyTwice(m: Mem, m1: Mem, m2: Mem)
    requires Steady(m, m1) && Steady(m1, m2)
    ensures Steady(m, m2)
  {
    hide Ok; hide Known;
    forall c, b | HeapLocal(c) in m2.lists && b in m2.lists[HeapLocal(c)]
      ensures HeapLocal(c) in m.lists && b in m.lists[HeapLocal(c)]
    {
      assert HeapLocal(c) in m1.lists && b in m1.lists[HeapLocal(c)];
    }
    assert ForeignSame(m, m2);
  }

  lemma ElsewhereTwice(m: Mem, m1: Mem, m2: Mem, p: nat)
    requires Elsewhere(m, m1, p) && Elsewhere(m1, m2, p)
    ensures Elsewhere(m, m2, p)
  {
    forall q | q != p ensures PageSame(m, m2, q) { assert PageSame(m, m1, q) && PageSame(m1, m2, q); }
  }

  /** The page a list belongs to, if any. */
  predicate PageList(l: ListId, p: nat) { (l.PageLocal? || l.PageThread?) ==> l.page == p }

  lemma PopSteady(m: Mem, l: ListId, pl: Place)
    requires Ok(m) && Known(m) && l in m.lists && m.lists[l] != [] && !pl.On? && !(pl.Hand? && pl.thread != OWNER)
    ensures m.lists[l][0] in m.next && m.lists[l][0] in m.where && m.where[m.lists[l][0]] == On(l)
    ensures Steady(m, Pop(m, l, pl))
  {
    hide Ok; hide ListOk;
    PopOk(m, l, pl);
  }

  lemma PopElsewhere(m: Mem, l: ListId, pl: Place, p: nat)
    requires l in m.lists && m.lists[l] != [] && m.lists[l][0] in m.next && m.lists[l][0] in m.where && PageList(l, p)
    ensures Elsewhere(m, Pop(m, l, pl), p) && Pop(m, l, pl).where.Keys == m.where.Keys
  {}

  lemma PushSteady(m: Mem, l: ListId, b: Block)
    requires Ok(m) && Known(m) && l in m.lists && !l.HeapLocal? && b in m.where && !m.where[b].On? && !Foreign(m, b)
    requires b in m.next && l in m.head && m.next[b] == m.head[l]
    ensures Steady(m, Push(m, l, b))
  {
    hide Ok; hide ListOk;
    PushOk(m, l, b);
  }

  lemma PushElsewhere(m: Mem, l: ListId, b: Block, p: nat)
    requires l in m.lists && b in m.where && PageList(l, p)
    ensures Elsewhere(m, Push(m, l, b), p) && Push(m, l, b).where.Keys == m.where.Keys
  {}

  lemma WriteSteady(m: Mem, b: Block, v: Option<Block>)
    requires Ok(m) && Known(m) && b in m.where && !m.where[b].On? && !Foreign(m, b)
    ensures Steady(m, WriteNext(m, b, v)) && forall p :: PageSame(m, WriteNext(m, b, v), p)
  {
    WriteOk(m, b, v);
    hide Ok;
  }

  lemma HoldSteady(m: Mem, b: Block, pl: Place)
    requires Ok(m) && Known(m) && (b in m.where ==> !m.where[b].On? && !Foreign(m, b)) && !pl.On?
    requires !(pl.Hand? && pl.thread != OWNER)
    ensures Steady(m, Hold(m, b, pl))
  {
    HoldOk(m, b, pl);
    hide Ok;
  }

  lemma HoldElsewhere(m: Mem, b: Block, pl: Place)
    ensures Elsewhere(m, Hold(m, b, pl), b.page) && (b in m.where ==> PageSame(m, Hold(m, b, pl), b.page))
  {}

  lemma TakeSteady(m: Mem, l: ListId, k: ListId)
    requires Ok(m) && Known(m) && l in m.lists && k in m.lists && l != k && m.lists[k] == [] && !k.HeapLocal?
    ensures l in m.head && Steady(m, TakeAll(m, l, k))
  {
    hide Ok; hide ListOk;
    TakeAllOk(m, l, k);
  }

  lemma TakeElsewhere(m: Mem, l: ListId, k: ListId, p: nat)
    requires l in m.lists && l in m.head && PageList(l, p) && PageList(k, p)
    ensures Elsewhere(m, TakeAll(m, l, k), p) && TakeAll(m, l, k).where.Keys == m.where.Keys
  {}

  lemma TakeToHeap(m: Mem, l: ListId, k: ListId)
    requires Ok(m) && Known(m) && l in m.lists && k in m.lists && l != k && m.lists[k] == []
    ensures l in m.head && Ok(TakeAll(m, l, k)) && Known(TakeAll(m, l, k)) && ForeignSame(m, TakeAll(m, l, k))
    ensures TakeAll(m, l, k).lists.Keys == m.lists.Keys
  {
    hide Ok; hide ListOk;
    TakeAllOk(m, l, k);
  }

  lemma CarveSteady(m: Mem, l: ListId, p: nat, from: nat, n: nat)
    requires Ok(m) && Known(m) && l in m.lists && m.lists[l] == [] && !l.HeapLocal? && forall b :: b in m.where ==>
               !InRun(b, p, from, n)
    ensures Steady(m, Carve(m, l, p, from, n))
  {
    hide Ok; hide ListOk;
    CarveOk(m, l, p, from, n);
    RunHas(p, from, n);
  }

  lemma CarveElsewhere(m: Mem, l: ListId, p: nat, from: nat, n: nat)
    requires l in m.lists && PageList(l, p)
    ensures Elsewhere(m, Carve(m, l, p, from, n), p)
    ensures forall b :: b in Carve(m, l, p, from, n).where <==> b in m.where || InRun(b, p, from, n)
    ensures forall b :: b in m.where && !InRun(b, p, from, n) ==> Carve(m, l, p, from, n).where[b] == m.where[b]
    ensures forall b :: InRun(b, p, from, n) ==> Carve(m, l, p, from, n).where[b] == On(l)
  {
    RunHas(p, from, n);
  }

  lemma DropSteady(m: Mem, l: ListId)
    requires Ok(m) && Known(m) && l in m.lists && !l.HeapLocal?
    ensures Steady(m, Drop(m, l))
  {
    hide Ok; hide ListOk;
    DropOk(m, l);
  }
}
