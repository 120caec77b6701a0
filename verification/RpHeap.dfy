/** One thread's heap shared with other threads that free its blocks: every atomic step of block
    allocation and deallocation, in any interleaving. */
module RpHeap {
  import opened Options
  import opened RpLists
  import RpSizes


  /** `get_page_type`: small, medium or large. */
  function TypeOf(class_: nat): (t: nat)
    ensures t <= 2
  { if class_ < 73 then 0 else if class_ < 97 then 1 else 2 }

  datatype Page = Page(class_: nat, count: nat, used: int, init: nat, localCount: int, threadCount: nat, full: bool,
                       free: bool)

  /** The head of a shared list as a thread reads it; a page's list packs the count with the head. */
  datatype Token = Token(head: Option<Block>, count: nat)

  /** Where the owner is: between calls, inside `page_allocate_block`, or in
      `heap_get_page_generic` taking back deferred frees. */
  datatype Owner =
    | Idle
    | Empty(p: nat)                          // no local block, shared list not looked at
    | Adopting(p: nat, tok: Token)           // shared list read, not yet exchanged
    | Initializing(p: nat)                   // shared list empty
    | Got(p: nat, b: Block)                  // a block in hand
    | Pushed(p: nat, b: Block)               // local list handed to the heap if the heap had none
    | AdoptingFull(p: nat, b: Block, tok: Token)
    | Checked(p: nat, b: Block)
    | Grabbing(type_: nat, tok: Token)       // heap's shared list read, not yet exchanged
    | Draining

  /** A thread freeing a block of this heap. */
  datatype Pusher = Chosen(b: Block, to: ListId) | Loaded(b: Block, to: ListId, tok: Token)

  datatype State = State(m: Mem, pages: map<nat, Page>, owner: Owner, pushers: map<nat, Pusher>)

  function Current(s: State, l: ListId): Token
    requires l in s.m.head
  { Token(s.m.head[l], if l.PageThread? && l.page in s.pages then s.pages[l.page].threadCount else 0) }

  // ----- what every step keeps -----

  /** The counters of a page agree with its lists and its initialized blocks. */
  ghost predicate PageOk(m: Mem, pg: Page, p: nat) {
    && PageLocal(p) in m.lists && PageThread(p) in m.lists && pg.class_ < RpSizes.CLASSES
    && pg.localCount == |m.lists[PageLocal(p)]| && pg.threadCount == |m.lists[PageThread(p)]|
    && pg.init == pg.used + pg.localCount && 0 <= pg.used && pg.init <= pg.count && 2 <= pg.count
    && (forall b :: b in m.where && b.page == p ==> b.idx < pg.init)
    && (forall i: nat :: i < pg.init ==> Block(p, i) in m.where)
    && Within(m.lists[PageLocal(p)], p, pg.init) && Within(m.lists[PageThread(p)], p, pg.init)
    && (pg.free ==> pg.used == 0 && !pg.full) && (pg.full ==> pg.used == pg.count)
  }

  ghost predicate PagesOk(s: State) {
    && (forall p :: p in s.pages ==> PageOk(s.m, s.pages[p], p))
    && (forall b :: b in s.m.where ==> b.page in s.pages)
  }

  /** The lists that exist, and what may be on them. */
  ghost predicate ListsOk(s: State) {
    && Ok(s.m) && Known(s.m) && Drained in s.m.lists
    && (forall c: nat :: c < RpSizes.CLASSES ==> HeapLocal(c) in s.m.lists)
    && (forall t: nat :: t <= 2 ==> HeapThread(t) in s.m.lists)
    && (forall p :: PageLocal(p) in s.m.lists || PageThread(p) in s.m.lists ==> p in s.pages)
    && (forall c, b :: HeapLocal(c) in s.m.lists && b in s.m.lists[HeapLocal(c)] ==>
          b.page in s.pages && s.pages[b.page].class_ == c)
  }

  predicate OwnPage(s: State, p: nat) { p in s.pages && !s.pages[p].full && !s.pages[p].free }

  predicate InHand(s: State, p: nat, b: Block) {
    OwnPage(s, p) && b.page == p && b in s.m.where && s.m.where[b] == Hand(OWNER)
  }

  predicate Bare(s: State, p: nat) { OwnPage(s, p) && s.pages[p].localCount == 0 }

  predicate OwnerOk(s: State) {
    match s.owner
    case Idle => true
    case Empty(p) => Bare(s, p) && s.pages[p].used < s.pages[p].count
    case Adopting(p, tok) => Bare(s, p) && s.pages[p].used < s.pages[p].count && s.pages[p].threadCount > 0
    case Initializing(p) => Bare(s, p) && s.pages[p].used < s.pages[p].count
    case Got(p, b) => InHand(s, p, b)
    case Pushed(p, b) => InHand(s, p, b)
    case AdoptingFull(p, b, tok) => InHand(s, p, b) && Bare(s, p) && s.pages[p].threadCount > 0
    case Checked(p, b) => InHand(s, p, b)
    case Grabbing(t, tok) => t <= 2 && HeapThread(t) in s.m.lists && s.m.lists[HeapThread(t)] != []
    case Draining => true
  }

  predicate Busy(o: Owner, p: nat) { !o.Idle? && !o.Grabbing? && !o.Draining? && o.p == p }

  predicate Holding(o: Owner) { o.Got? || o.Pushed? || o.AdoptingFull? || o.Checked? }

  /** A page the owner may allocate from has room, the hand holds what `owner` says, and the drained
      list is empty except while draining. */
  ghost predicate OwnerFits(s: State) {
    && OwnerOk(s)
    && (forall p :: p in s.pages && !s.pages[p].full && !s.pages[p].free && !Busy(s.owner, p) ==>
          s.pages[p].used < s.pages[p].count)
    && (forall b :: b in s.m.where && s.m.where[b] == Hand(OWNER) ==> Holding(s.owner) && s.owner.b == b)
    && (Drained in s.m.lists && !s.owner.Draining? ==> s.m.lists[Drained] == [])
  }

  predicate PusherOk(s: State, t: nat, q: Pusher) {
    && t != OWNER && q.b in s.m.where && s.m.where[q.b] == Hand(t) && q.b.page in s.pages
    && (q.to == PageThread(q.b.page) || q.to == HeapThread(TypeOf(s.pages[q.b.page].class_)))
    && (q.Loaded? ==> q.b in s.m.next && s.m.next[q.b] == q.tok.head)
  }

  ghost predicate PushersOk(s: State) {
    && (forall t :: t in s.pushers ==> PusherOk(s, t, s.pushers[t]))
    && (forall b :: b in s.m.where && s.m.where[b].Hand? && s.m.where[b].thread != OWNER ==>
          s.m.where[b].thread in s.pushers && s.pushers[s.m.where[b].thread].b == b)
  }

  ghost predicate Inv(s: State) { ListsOk(s) && PagesOk(s) && OwnerFits(s) && PushersOk(s) }

  // ----- steps -----

  datatype Act =
    | HeapPop(c: nat)
    | AllocStart(p: nat)
    | AllocLoad
    | AdoptExchange
    | AdoptRetry
    | AllocInit(extra: nat)
    | AllocPush
    | AllocCheck
    | AllocEnd
    | FreeLocal(b: Block)
    | GrabLoad(t: nat)
    | GrabExchange
    | GrabRetry
    | DrainOne
    | DrainEnd
    | Reuse(p: nat, class_: nat, count: nat)
    | NewPage(p: nat, class_: nat, count: nat)
    | UserWrite(b: Block, v: Option<Block>)
    | FreeStart(t: nat, b: Block)
    | FreeLoad(t: nat)
    | FreeExchange(t: nat)
    | FreeRetry(t: nat)

  function SetPage(s: State, p: nat, pg: Page): State { s.(pages := s.pages[p := pg]) }

  /** `heap_pop_local_free`. */
  ghost predicate CanHeapPop(s: State, c: nat) {
    s.owner.Idle? && c < RpSizes.CLASSES && HeapLocal(c) in s.m.lists && s.m.lists[HeapLocal(c)] != [] &&
    s.m.lists[HeapLocal(c)][0] in s.m.next
  }
  ghost function DoHeapPop(s: State, c: nat): State
    requires CanHeapPop(s, c)
  { s.(m := Pop(s.m, HeapLocal(c), User)) }

  /** `page_get_local_free_block`. */
  ghost predicate HasLocal(s: State, p: nat) {
    p in s.pages && PageLocal(p) in s.m.lists && s.m.lists[PageLocal(p)] != [] && s.m.lists[PageLocal(p)][0] in s.m.next
  }
  ghost function GetLocal(s: State, p: nat): State
    requires HasLocal(s, p)
  {
    var b := s.m.lists[PageLocal(p)][0];
    var pg := s.pages[p];
    var s' := SetPage(s, p, pg.(localCount := pg.localCount - 1, used := pg.used + 1));
    s'.(m := Pop(s.m, PageLocal(p), Hand(OWNER)), owner := Got(p, b))
  }

  lemma PopMembers(m: Mem, l: ListId, p: Place)
    requires l in m.lists && m.lists[l] != [] && m.lists[l][0] in m.next
    ensures forall b :: b in Pop(m, l, p).lists[l] ==> b in m.lists[l]
  {}

  // ----- frames -----

  /** A free page has all its blocks on its own list. */
  lemma FreePage(s: State, p: nat)
    requires Ok(s.m) && PagesOk(s) && p in s.pages && s.pages[p].free
    ensures forall b :: b in s.m.where && b.page == p ==> s.m.where[b] == On(PageLocal(p))
  {
    assert PageOk(s.m, s.pages[p], p);
    assert ListOk(s.m, PageLocal(p));
    AtMost(s.m.lists[PageLocal(p)], p, s.pages[p].init);
  }

  lemma PushersKept(s: State, s': State)
    requires PushersOk(s) && ForeignSame(s.m, s'.m) && s'.pushers == s.pushers
    requires forall p :: p in s.pages ==> p in s'.pages && s'.pages[p].class_ == s.pages[p].class_
    ensures PushersOk(s')
  {
    forall t | t in s'.pushers ensures PusherOk(s', t, s'.pushers[t]) {
      assert PusherOk(s, t, s.pushers[t]);
      assert Foreign(s.m, s.pushers[t].b);
    }
    forall b | Foreign(s'.m, b) ensures s'.m.where[b].thread in s'.pushers && s'.pushers[s'.m.where[b].thread].b == b {
      assert Foreign(s.m, b);
    }
  }

  lemma ListsKept(s: State, s': State)
    requires ListsOk(s) && Steady(s.m, s'.m) && s'.pages.Keys == s.pages.Keys
    requires forall p :: p in s.pages ==> s'.pages[p].class_ == s.pages[p].class_
    ensures ListsOk(s')
  {
    hide Ok; hide Known; hide ForeignSame;
    forall c, b | HeapLocal(c) in s'.m.lists && b in s'.m.lists[HeapLocal(c)]
      ensures b.page in s'.pages && s'.pages[b.page].class_ == c
    {
      assert HeapLocal(c) in s.m.lists && b in s.m.lists[HeapLocal(c)];
    }
  }

  lemma PageKept(m: Mem, m': Mem, pg: Page, p: nat)
    requires PageOk(m, pg, p) && PageSame(m, m', p)
    ensures PageOk(m', pg, p)
  {}

  lemma PagesKept(s: State, s': State, q: nat)
    requires PagesOk(s) && s'.pages.Keys == s.pages.Keys && q in s.pages
    requires PageOk(s'.m, s'.pages[q], q) && Elsewhere(s.m, s'.m, q)
    requires forall p :: p in s.pages && p != q ==> s'.pages[p] == s.pages[p]
    ensures PagesOk(s')
  {
    forall p | p in s'.pages ensures PageOk(s'.m, s'.pages[p], p) {
      if p != q { PageKept(s.m, s'.m, s.pages[p], p); }
    }
    forall b | b in s'.m.where ensures b.page in s'.pages {
      if b.page != q { assert PageSame(s.m, s'.m, b.page); }
    }
  }

  /** A step that works on page `q` alone. */
  lemma Close(s: State, s': State, q: nat)
    requires Inv(s) && Steady(s.m, s'.m) && Elsewhere(s.m, s'.m, q) && s'.pages.Keys == s.pages.Keys && q in s.pages
    requires s'.pushers == s.pushers
    requires forall p :: p in s.pages && p != q ==> s'.pages[p] == s.pages[p]
    requires s'.pages[q].class_ == s.pages[q].class_ && PageOk(s'.m, s'.pages[q], q) && OwnerFits(s')
    ensures Inv(s')
  {
    hide ListsOk; hide PagesOk; hide OwnerFits; hide PushersOk; hide PageOk; hide Elsewhere; hide Ok; hide Known;
    hide ForeignSame; hide HeapShrinks;
    ListsKept(s, s');
    PagesKept(s, s', q);
    PushersKept(s, s');
  }

  /** A step that only moves the owner on. */
  lemma OwnerMoves(s: State, o: Owner)
    requires Inv(s) && OwnerFits(s.(owner := o))
    ensures Inv(s.(owner := o))
  {
    var s' := s.(owner := o);
    hide Ok; hide Known; hide PageOk; hide OwnerFits;
    assert ListsOk(s') && PagesOk(s');
    forall t | t in s'.pushers ensures PusherOk(s', t, s'.pushers[t]) { assert PusherOk(s, t, s.pushers[t]); }
  }

  // ----- owner steps -----

  lemma HeapPopInv(s: State, c: nat)
    requires Inv(s) && CanHeapPop(s, c)
    ensures Inv(DoHeapPop(s, c))
  {
    hide Ok; hide Steady; hide Elsewhere; hide PageOk;
    var l := HeapLocal(c);
    PopSteady(s.m, l, User);
    var s' := DoHeapPop(s, c);
    var q := s.m.lists[l][0].page;
    PopElsewhere(s.m, l, User, q);
    assert s.m.lists[l][0] in s.m.lists[l];
    PageKept(s.m, s'.m, s.pages[q], q);
    Close(s, s', q);
  }

  lemma GetLocalInv(s: State, p: nat)
    requires Inv(s) && HasLocal(s, p) && OwnPage(s, p) && (s.owner.Idle? || (s.owner.Adopting? && s.owner.p == p))
    ensures Inv(GetLocal(s, p))
  {
    hide Ok; hide Steady; hide Elsewhere; hide PageOk; hide OwnerFits;
    var l := PageLocal(p);
    PopSteady(s.m, l, Hand(OWNER));
    PopElsewhere(s.m, l, Hand(OWNER), p);
    GetLocalPage(s, p);
    GetLocalOwner(s, p);
    Close(s, GetLocal(s, p), p);
  }

  lemma GetLocalOwner(s: State, p: nat)
    requires OwnerFits(s) && HasLocal(s, p) && PageOk(s.m, s.pages[p], p) && OwnPage(s, p)
    requires (s.owner.Idle? || (s.owner.Adopting? && s.owner.p == p))
    ensures OwnerFits(GetLocal(s, p))
  {
    assert s.m.lists[PageLocal(p)][0] in s.m.lists[PageLocal(p)];
  }

  lemma GetLocalPage(s: State, p: nat)
    requires HasLocal(s, p) && PageOk(s.m, s.pages[p], p) && s.m.lists[PageLocal(p)][0] in s.m.where
    requires !s.pages[p].free && !s.pages[p].full
    ensures PageOk(GetLocal(s, p).m, GetLocal(s, p).pages[p], p)
  {
    PopMembers(s.m, PageLocal(p), Hand(OWNER));
  }

  /** `page_adopt_thread_free_block_list`: the shared list becomes the page's own. */
  ghost predicate CanAdopt(s: State, p: nat) { p in s.pages && PageThread(p) in s.m.lists && PageThread(p) in s.m.head }

  function Adopt(s: State, p: nat, o: Owner): State
    requires p in s.pages && PageThread(p) in s.m.lists && PageThread(p) in s.m.head
  {
    var pg := s.pages[p];
    var s' := SetPage(s, p, pg.(localCount := pg.threadCount, used := pg.used - pg.threadCount, threadCount := 0));
    s'.(m := TakeAll(s.m, PageThread(p), PageLocal(p)), owner := o)
  }

  lemma AdoptPage(s: State, p: nat, o: Owner)
    requires CanAdopt(s, p) && Ok(s.m) && PageOk(s.m, s.pages[p], p) && Bare(s, p)
    ensures PageOk(Adopt(s, p, o).m, Adopt(s, p, o).pages[p], p)
  {
    assert ListOk(s.m, PageThread(p));
    AtMost(s.m.lists[PageThread(p)], p, s.pages[p].init);
  }

  lemma AdoptOwner(s: State, p: nat, o: Owner)
    requires OwnerFits(s) && CanAdopt(s, p) && Bare(s, p) && Busy(s.owner, p) && s.pages[p].threadCount > 0
    requires 0 <= s.pages[p].used <= s.pages[p].count
    requires if s.owner.AdoptingFull? then o == Checked(p, s.owner.b) else s.owner.Adopting? && o == Idle
    ensures OwnerFits(Adopt(s, p, o))
  {}

  lemma AdoptInv(s: State, p: nat, o: Owner)
    requires Inv(s) && CanAdopt(s, p) && (s.owner.Adopting? || s.owner.AdoptingFull?) && s.owner.p == p
    requires if s.owner.AdoptingFull? then o == Checked(p, s.owner.b) else o == Idle
    ensures Inv(Adopt(s, p, o))
  {
    hide Ok; hide Known; hide Steady; hide Elsewhere; hide PageOk; hide PagesOk; hide PushersOk;
    PageFacts(s, p);
    PageRange(s, p);
    AdoptPage(s, p, o);
    AdoptOwner(s, p, o);
    hide OwnerFits;
    TakeSteady(s.m, PageThread(p), PageLocal(p));
    TakeElsewhere(s.m, PageThread(p), PageLocal(p), p);
    Close(s, Adopt(s, p, o), p);
  }

  lemma PageRange(s: State, p: nat)
    requires PagesOk(s) && p in s.pages
    ensures 0 <= s.pages[p].used <= s.pages[p].count
  {
    assert PageOk(s.m, s.pages[p], p);
  }

  /** `page_initialize_blocks`: one block for the caller and `extra` more for the page's list. */
  ghost predicate CanInit(s: State, p: nat, extra: nat) {
    p in s.pages && s.pages[p].init + 1 + extra <= s.pages[p].count && PageLocal(p) in s.m.lists
  }

  function Init(s: State, p: nat, extra: nat): State
    requires p in s.pages
  {
    var pg := s.pages[p];
    var b := Block(p, pg.init);
    SetPage(s, p, pg.(init := pg.init + 1 + extra, used := pg.used + 1, localCount := extra))
      .(m := Carve(Hold(s.m, b, Hand(OWNER)), PageLocal(p), p, pg.init + 1, extra), owner := Got(p, b))
  }

  lemma InitPage(s: State, p: nat, extra: nat)
    requires CanInit(s, p, extra) && PageOk(s.m, s.pages[p], p) && Bare(s, p)
    ensures PageOk(Init(s, p, extra).m, Init(s, p, extra).pages[p], p)
  {
    hide Carve;
    var m1 := Hold(s.m, Block(p, s.pages[p].init), Hand(OWNER));
    CarveElsewhere(m1, PageLocal(p), p, s.pages[p].init + 1, extra);
    CarveLists(m1, PageLocal(p), p, s.pages[p].init + 1, extra);
    RunHas(p, s.pages[p].init + 1, extra);
    hide Elsewhere;
  }

  lemma InitOwner(s: State, p: nat, extra: nat)
    requires OwnerFits(s) && CanInit(s, p, extra) && s.owner == Initializing(p) && PageOk(s.m, s.pages[p], p)
    ensures OwnerFits(Init(s, p, extra))
  {
    hide PageOk; hide Carve;
    var m1 := Hold(s.m, Block(p, s.pages[p].init), Hand(OWNER));
    CarveElsewhere(m1, PageLocal(p), p, s.pages[p].init + 1, extra);
    CarveLists(m1, PageLocal(p), p, s.pages[p].init + 1, extra);
  }

  lemma CarveLists(m: Mem, l: ListId, p: nat, from: nat, n: nat)
    ensures l in Carve(m, l, p, from, n).lists && Carve(m, l, p, from, n).lists[l] == Run(p, from, n)
    ensures forall k :: k != l ==> (k in Carve(m, l, p, from, n).lists <==> k in m.lists)
    ensures forall k :: k != l && k in m.lists ==> Carve(m, l, p, from, n).lists[k] == m.lists[k]
  {}

  lemma PageFacts(s: State, p: nat)
    requires PagesOk(s) && p in s.pages
    ensures PageOk(s.m, s.pages[p], p) && PageLocal(p) in s.m.lists && PageThread(p) in s.m.lists
    ensures s.pages[p].localCount == 0 ==> s.m.lists[PageLocal(p)] == []
    ensures forall b :: b in s.m.where && b.page == p ==> b.idx < s.pages[p].init
  {}

  lemma InitInv(s: State, p: nat, extra: nat)
    requires Inv(s) && CanInit(s, p, extra) && s.owner == Initializing(p)
    ensures Inv(Init(s, p, extra))
  {
    hide Ok; hide Known; hide Elsewhere; hide ForeignSame; hide HeapShrinks; hide PageOk; hide Carve; hide PagesOk;
    hide PushersOk;
    var pg := s.pages[p];
    var b := Block(p, pg.init);
    PageFacts(s, p);
    InitPage(s, p, extra);
    InitOwner(s, p, extra);
    hide OwnerFits;
    var m1 := Hold(s.m, b, Hand(OWNER));
    HoldSteady(s.m, b, Hand(OWNER));
    HoldElsewhere(s.m, b, Hand(OWNER));
    CarveSteady(m1, PageLocal(p), p, pg.init + 1, extra);
    CarveElsewhere(m1, PageLocal(p), p, pg.init + 1, extra);
    SteadyTwice(s.m, m1, Init(s, p, extra).m);
    ElsewhereTwice(s.m, m1, Init(s, p, extra).m, p);
    Close(s, Init(s, p, extra), p);
  }

  /** `page_push_local_free_to_heap`: the page's list becomes the heap's for the size class. */
  predicate ShouldPush(s: State, p: nat)
    requires p in s.pages && PageLocal(p) in s.m.lists && HeapLocal(s.pages[p].class_) in s.m.lists
  { s.m.lists[PageLocal(p)] != [] && s.m.lists[HeapLocal(s.pages[p].class_)] == [] }

  function PushToHeap(s: State, p: nat, o: Owner): State
    requires p in s.pages && PageLocal(p) in s.m.lists && PageLocal(p) in s.m.head
  {
    var pg := s.pages[p];
    var s' := SetPage(s, p, pg.(used := pg.used + pg.localCount, localCount := 0));
    s'.(m := TakeAll(s.m, PageLocal(p), HeapLocal(pg.class_)), owner := o)
  }

  lemma PushPage(s: State, p: nat, o: Owner)
    requires p in s.pages && PageOk(s.m, s.pages[p], p) && PageLocal(p) in s.m.head && OwnPage(s, p)
    ensures PageOk(PushToHeap(s, p, o).m, PushToHeap(s, p, o).pages[p], p)
  {}

  lemma PushOwner(s: State, p: nat, b: Block)
    requires OwnerFits(s) && p in s.pages && PageLocal(p) in s.m.lists && PageLocal(p) in s.m.head
    requires s.owner == Got(p, b)
    ensures OwnerFits(PushToHeap(s, p, Pushed(p, b)))
  {}

  lemma PushLists(s: State, p: nat, o: Owner)
    requires ListsOk(s) && p in s.pages && PageOk(s.m, s.pages[p], p) && HeapLocal(s.pages[p].class_) in s.m.lists
    requires ShouldPush(s, p)
    ensures PageLocal(p) in s.m.head && ListsOk(PushToHeap(s, p, o)) && ForeignSame(s.m, PushToHeap(s, p, o).m)
  {
    hide Ok; hide Known; hide ForeignSame;
    TakeToHeap(s.m, PageLocal(p), HeapLocal(s.pages[p].class_));
  }

  lemma PushInv(s: State, p: nat, b: Block)
    requires Inv(s) && s.owner == Got(p, b) && p in s.pages && PageLocal(p) in s.m.lists
    requires HeapLocal(s.pages[p].class_) in s.m.lists && ShouldPush(s, p)
    ensures PageLocal(p) in s.m.head && Inv(PushToHeap(s, p, Pushed(p, b)))
  {
    hide Ok; hide Known; hide ForeignSame; hide Elsewhere; hide PageOk; hide PagesOk; hide PushersOk;
    PageFacts(s, p);
    var o := Pushed(p, b);
    PushLists(s, p, o);
    PushPage(s, p, o);
    PushOwner(s, p, b);
    TakeElsewhere(s.m, PageLocal(p), HeapLocal(s.pages[p].class_), p);
    hide OwnerFits; hide ListsOk;
    PagesKept(s, PushToHeap(s, p, o), p);
    PushersKept(s, PushToHeap(s, p, o));
  }

  /** The end of `page_allocate_block`: a page with every block in use is full. */
  function Finish(s: State, p: nat, b: Block): State
    requires p in s.pages
  {
    var pg := s.pages[p];
    SetPage(s, p, pg.(full := pg.used == pg.count)).(m := Hold(s.m, b, User), owner := Idle)
  }

  lemma FinishInv(s: State, p: nat, b: Block)
    requires Inv(s) && s.owner == Checked(p, b)
    ensures p in s.pages && Inv(Finish(s, p, b))
  {
    hide Ok; hide Known; hide Steady; hide Elsewhere; hide PageOk; hide PagesOk; hide PushersOk;
    PageFacts(s, p);
    PageRange(s, p);
    HoldSteady(s.m, b, User);
    HoldElsewhere(s.m, b, User);
    FinishPage(s, p, b);
    Close(s, Finish(s, p, b), p);
  }

  lemma FinishPage(s: State, p: nat, b: Block)
    requires p in s.pages && PageOk(s.m, s.pages[p], p) && b in s.m.where && OwnPage(s, p)
    ensures PageOk(Finish(s, p, b).m, Finish(s, p, b).pages[p], p)
  {}

  /** `page_put_local_free_block`: the block onto its page's list; an unused page becomes free, a full
      one available. */
  function PutLocal(s: State, b: Block): State
    requires b.page in s.pages && PageLocal(b.page) in s.m.lists && PageLocal(b.page) in s.m.head
  {
    var p := b.page;
    var pg := s.pages[p];
    var used := pg.used - 1;
    SetPage(s, p, pg.(localCount := pg.localCount + 1, used := used, free := used == 0,
                      full := if used == 0 then pg.full else false))
      .(m := Push(WriteNext(s.m, b, s.m.head[PageLocal(p)]), PageLocal(p), b))
  }

  /** A block off the page's list is in use. */
  lemma UsedBlock(m: Mem, pg: Page, b: Block)
    requires Ok(m) && PageOk(m, pg, b.page) && b in m.where && m.where[b] != On(PageLocal(b.page))
    ensures pg.used >= 1 && !pg.free
  {
    assert ListOk(m, PageLocal(b.page));
    AtMost(m.lists[PageLocal(b.page)], b.page, pg.init);
  }

  lemma PutPage(s: State, b: Block)
    requires b.page in s.pages && PageLocal(b.page) in s.m.lists && PageLocal(b.page) in s.m.head && b in s.m.where
    requires PageOk(s.m, s.pages[b.page], b.page) && s.pages[b.page].used >= 1
    ensures PageOk(PutLocal(s, b).m, PutLocal(s, b).pages[b.page], b.page)
  {}

  lemma PutMem(m: Mem, b: Block)
    requires Ok(m) && Known(m) && PageLocal(b.page) in m.lists && b in m.where && m.where[b] == User
    ensures PageLocal(b.page) in m.head
    ensures var m' := Push(WriteNext(m, b, m.head[PageLocal(b.page)]), PageLocal(b.page), b);
            Steady(m, m') && Elsewhere(m, m', b.page)
  {
    var l := PageLocal(b.page);
    HasHead(m, l);
    hide Ok; hide Known; hide ForeignSame; hide HeapShrinks; hide PageSame;
    var m1 := WriteNext(m, b, m.head[l]);
    WriteSteady(m, b, m.head[l]);
    PushSteady(m1, l, b);
    PushElsewhere(m1, l, b, b.page);
    SteadyTwice(m, m1, Push(m1, l, b));
    AllElsewhere(m, m1, b.page);
    ElsewhereTwice(m, m1, Push(m1, l, b), b.page);
  }

  lemma HasHead(m: Mem, l: ListId)
    requires Ok(m) && l in m.lists
    ensures l in m.head && m.head[l] == Top(m.lists[l])
  {
    assert ListOk(m, l);
  }

  lemma BlockPage(s: State, b: Block)
    requires PagesOk(s) && b in s.m.where
    ensures b.page in s.pages
  {}

  lemma PutInv(s: State, b: Block)
    requires Inv(s) && (s.owner.Idle? || s.owner.Draining?) && b in s.m.where && s.m.where[b] == User
    ensures b.page in s.pages && PageLocal(b.page) in s.m.lists && PageLocal(b.page) in s.m.head && Inv(PutLocal(s, b))
  {
    hide Ok; hide Known; hide Steady; hide Elsewhere; hide PageOk; hide PushersOk; hide PagesOk;
    var p := b.page;
    BlockPage(s, b);
    PageFacts(s, p);
    PutMem(s.m, b);
    PageRange(s, p);
    UsedBlock(s.m, s.pages[p], b);
    PutPage(s, b);
    PutOwner(s, b);
    hide OwnerFits;
    Close(s, PutLocal(s, b), p);
  }

  lemma AllElsewhere(m: Mem, m': Mem, p: nat)
    requires forall q :: PageSame(m, m', q)
    ensures Elsewhere(m, m', p)
  {}

  lemma PutOwner(s: State, b: Block)
    requires OwnerFits(s) && (s.owner.Idle? || s.owner.Draining?) && b in s.m.where && s.m.where[b] == User
    requires b.page in s.pages && PageLocal(b.page) in s.m.lists && PageLocal(b.page) in s.m.head
    requires 1 <= s.pages[b.page].used <= s.pages[b.page].count
    ensures OwnerFits(PutLocal(s, b))
  {}

  /** A step that changes no page. */
  lemma CloseNone(s: State, s': State)
    requires Inv(s) && Steady(s.m, s'.m) && s'.pages == s.pages && s'.pushers == s.pushers && OwnerFits(s')
    requires forall q :: PageSame(s.m, s'.m, q)
    ensures Inv(s')
  {
    hide ListsOk; hide OwnerFits; hide PushersOk; hide PageOk; hide Ok; hide Known; hide ForeignSame; hide HeapShrinks;
    ListsKept(s, s');
    PushersKept(s, s');
    forall p | p in s'.pages ensures PageOk(s'.m, s'.pages[p], p) { PageKept(s.m, s'.m, s.pages[p], p); }
    forall b | b in s'.m.where ensures b.page in s'.pages { assert PageSame(s.m, s'.m, b.page); }
  }

  /** `heap_get_page_generic` takes the heap's shared list. */
  function Grab(s: State, t: nat): State
    requires HeapThread(t) in s.m.lists && HeapThread(t) in s.m.head
  { s.(m := TakeAll(s.m, HeapThread(t), Drained), owner := Draining) }

  lemma GrabInv(s: State, t: nat)
    requires Inv(s) && s.owner.Grabbing? && s.owner.type_ == t
    ensures HeapThread(t) in s.m.lists && HeapThread(t) in s.m.head && Inv(Grab(s, t))
  {
    hide Ok; hide Known; hide Steady; hide PageOk; hide PagesOk; hide PushersOk;
    TakeSteady(s.m, HeapThread(t), Drained);
    TakeNoPage(s.m, HeapThread(t), Drained);
    GrabOwner(s, t);
    hide OwnerFits;
    CloseNone(s, Grab(s, t));
  }

  lemma TakeNoPage(m: Mem, l: ListId, k: ListId)
    requires l in m.lists && l in m.head && !l.PageLocal? && !l.PageThread? && !k.PageLocal? && !k.PageThread?
    ensures forall q :: PageSame(m, TakeAll(m, l, k), q)
  {}

  lemma GrabOwner(s: State, t: nat)
    requires OwnerFits(s) && s.owner.Grabbing? && s.owner.type_ == t && HeapThread(t) in s.m.head
    ensures OwnerFits(Grab(s, t))
  {}

  /** One deferred block: off the taken list, then freed as if the user had freed it. */
  ghost predicate CanDrain(s: State) {
    s.owner.Draining? && Drained in s.m.lists && s.m.lists[Drained] != [] && s.m.lists[Drained][0] in s.m.next
  }
  ghost function Unlist(s: State): State
    requires CanDrain(s)
  { s.(m := Pop(s.m, Drained, User)) }

  lemma UnlistInv(s: State)
    requires Inv(s) && CanDrain(s)
    ensures Inv(Unlist(s)) && s.m.lists[Drained][0] in Unlist(s).m.where
    ensures Unlist(s).m.where[s.m.lists[Drained][0]] == User
  {
    hide Ok; hide Known; hide Steady; hide PageOk; hide PagesOk; hide PushersOk;
    PopSteady(s.m, Drained, User);
    PopNoPage(s.m, Drained, User);
    UnlistOwner(s);
    hide OwnerFits;
    CloseNone(s, Unlist(s));
  }

  lemma PopNoPage(m: Mem, l: ListId, pl: Place)
    requires l in m.lists && m.lists[l] != [] && m.lists[l][0] in m.next && m.lists[l][0] in m.where && !l.PageLocal?
    requires !l.PageThread?
    ensures forall q :: PageSame(m, Pop(m, l, pl), q)
  {}

  lemma UnlistOwner(s: State)
    requires OwnerFits(s) && CanDrain(s) && s.m.lists[Drained][0] in s.m.where
    ensures OwnerFits(Unlist(s))
  {}

  /** `heap_make_free_page_available`: a free page for another size class. */
  function Remake(s: State, p: nat, class_: nat, count: nat): State
    requires p in s.pages && PageLocal(p) in s.m.lists
  {
    SetPage(s, p, Page(class_, count, 0, 0, 0, 0, false, false)).(m := Drop(s.m, PageLocal(p)))
  }

  lemma RemakeInv(s: State, p: nat, class_: nat, count: nat)
    requires Inv(s) && s.owner.Idle? && p in s.pages && s.pages[p].free && class_ < RpSizes.CLASSES && count >= 2
    ensures PageLocal(p) in s.m.lists && Inv(Remake(s, p, class_, count))
  {
    hide Ok; hide Known; hide PageOk; hide Elsewhere;
    PageFacts(s, p);
    FreePage(s, p);
    var s' := Remake(s, p, class_, count);
    DropSteady(s.m, PageLocal(p));
    hide PagesOk; hide PushersOk;
    RemakeLists(s, p, class_, count);
    RemakePage(s, p, class_, count);
    RemakeOwner(s, p, class_, count);
    DropElsewhere(s.m, PageLocal(p), p);
    hide OwnerFits; hide ListsOk;
    PagesKept(s, s', p);
    PushersRemade(s, s', p);
  }

  lemma DropElsewhere(m: Mem, l: ListId, p: nat)
    requires l in m.lists && PageList(l, p) && (forall b :: b in m.where && m.where[b] == On(l) ==> b.page == p)
    ensures Elsewhere(m, Drop(m, l), p)
  {}

  ghost predicate AllLocal(m: Mem, p: nat) {
    forall b :: b in m.where && b.page == p ==> m.where[b] == On(PageLocal(p))
  }

  lemma RemakeLists(s: State, p: nat, class_: nat, count: nat)
    requires ListsOk(s) && p in s.pages && PageLocal(p) in s.m.lists && Steady(s.m, Drop(s.m, PageLocal(p)))
    requires AllLocal(s.m, p)
    ensures ListsOk(Remake(s, p, class_, count))
  {
    var s' := Remake(s, p, class_, count);
    forall c, b | HeapLocal(c) in s'.m.lists && b in s'.m.lists[HeapLocal(c)]
      ensures b.page in s'.pages && s'.pages[b.page].class_ == c
    {
      assert ListOk(s.m, HeapLocal(c));
      assert b in s.m.lists[HeapLocal(c)];
    }
  }

  lemma RemakePage(s: State, p: nat, class_: nat, count: nat)
    requires p in s.pages && PageOk(s.m, s.pages[p], p) && Ok(s.m) && AllLocal(s.m, p)
    requires class_ < RpSizes.CLASSES && count >= 2
    ensures PageOk(Remake(s, p, class_, count).m, Remake(s, p, class_, count).pages[p], p)
    ensures forall b :: b in s.m.where && s.m.where[b] == On(PageLocal(p)) ==> b.page == p
  {
    assert ListOk(s.m, PageThread(p)) && ListOk(s.m, PageLocal(p));
    NoneShared(s.m.lists[PageThread(p)], s.m.where, p, s.pages[p].init);
  }

  lemma NoneShared(l: seq<Block>, where: map<Block, Place>, p: nat, n: nat)
    requires Within(l, p, n) && Placed(where, PageThread(p), l)
    requires (forall b :: b in where && b.page == p ==> where[b] == On(PageLocal(p)))
    ensures l == []
  {
    if l != [] { FirstIn(l); }
  }

  lemma FirstIn(l: seq<Block>)
    requires l != []
    ensures l[0] in l
  {}

  lemma RemakeOwner(s: State, p: nat, class_: nat, count: nat)
    requires OwnerFits(s) && s.owner.Idle? && p in s.pages && PageLocal(p) in s.m.lists && count >= 2
    ensures OwnerFits(Remake(s, p, class_, count))
  {}

  lemma PushersRemade(s: State, s': State, p: nat)
    requires PushersOk(s) && ForeignSame(s.m, s'.m) && s'.pushers == s.pushers && s'.pages.Keys == s.pages.Keys
    requires AllLocal(s.m, p)
    requires forall q :: q in s.pages && q != p ==> s'.pages[q].class_ == s.pages[q].class_
    ensures PushersOk(s')
  {
    forall t | t in s'.pushers ensures PusherOk(s', t, s'.pushers[t]) {
      assert PusherOk(s, t, s.pushers[t]);
      assert Foreign(s.m, s.pushers[t].b);
    }
    forall b | Foreign(s'.m, b) ensures s'.m.where[b].thread in s'.pushers && s'.pushers[s'.m.where[b].thread].b == b {
      assert Foreign(s.m, b);
    }
  }

  /** `span_allocate_page`: a new page. */
  function AddPage(s: State, p: nat, class_: nat, count: nat): State {
    SetPage(s, p, Page(class_, count, 0, 0, 0, 0, false, false)).(m := Open(s.m, p))
  }

  lemma AddPageInv(s: State, p: nat, class_: nat, count: nat)
    requires Inv(s) && s.owner.Idle? && p !in s.pages && class_ < RpSizes.CLASSES && count >= 2
    ensures Inv(AddPage(s, p, class_, count))
  {
    hide Ok; hide PageOk;
    var s' := AddPage(s, p, class_, count);
    OpenOk(s.m, p);
    assert ListsOk(s') by { hide PagesOk; hide OwnerFits; hide PushersOk; }
    AddPagePages(s, p, class_, count);
    AddPageRest(s, p, class_, count);
  }

  lemma AddPagePages(s: State, p: nat, class_: nat, count: nat)
    requires PagesOk(s) && p !in s.pages && class_ < RpSizes.CLASSES && count >= 2
    ensures PagesOk(AddPage(s, p, class_, count))
  {
    var s' := AddPage(s, p, class_, count);
    forall q | q in s'.pages ensures PageOk(s'.m, s'.pages[q], q) {
      if q != p { assert PageOk(s.m, s.pages[q], q); }
    }
  }

  lemma AddPageRest(s: State, p: nat, class_: nat, count: nat)
    requires OwnerFits(s) && PushersOk(s) && s.owner.Idle? && p !in s.pages && count >= 2
    ensures OwnerFits(AddPage(s, p, class_, count)) && PushersOk(AddPage(s, p, class_, count))
  {
    var s' := AddPage(s, p, class_, count);
    forall t | t in s'.pushers ensures PusherOk(s', t, s'.pushers[t]) { assert PusherOk(s, t, s.pushers[t]); }
  }

  /** The user writes to a block it holds. */
  lemma UserWriteInv(s: State, b: Block, v: Option<Block>)
    requires Inv(s) && b in s.m.where && s.m.where[b] == User
    ensures Inv(s.(m := WriteNext(s.m, b, v)))
  {
    hide Ok; hide Known; hide Steady; hide PageOk; hide PagesOk; hide PushersOk;
    WriteSteady(s.m, b, v);
    hide PageSame;
    CloseNone(s, s.(m := WriteNext(s.m, b, v)));
  }

  // ----- other threads -----

  /** The list a block is pushed to: the heap's when the page reads as full, else the page's. */
  function Target(s: State, b: Block): ListId
    requires b.page in s.pages
  { if s.pages[b.page].full then HeapThread(TypeOf(s.pages[b.page].class_)) else PageThread(b.page) }

  function Choose(s: State, t: nat, b: Block): State
    requires b.page in s.pages
  { s.(m := Hold(s.m, b, Hand(t)), pushers := s.pushers[t := Chosen(b, Target(s, b))]) }

  /** The lists and pages are as before. */
  lemma SameLists(s: State, s': State)
    requires ListsOk(s) && PagesOk(s) && s'.pages == s.pages && s'.m.lists == s.m.lists
    requires s'.m.where.Keys == s.m.where.Keys && Ok(s'.m)
    requires forall b :: b in s'.m.where && s'.m.where[b].On? ==> s'.m.where[b] == s.m.where[b]
    ensures ListsOk(s') && PagesOk(s')
  {
    hide Ok;
    forall p | p in s'.pages ensures PageOk(s'.m, s'.pages[p], p) { assert PageOk(s.m, s.pages[p], p); }
  }

  lemma ChooseInv(s: State, t: nat, b: Block)
    requires Inv(s) && t != OWNER && t !in s.pushers && b in s.m.where && s.m.where[b] == User
    ensures b.page in s.pages && Inv(Choose(s, t, b))
  {
    hide Ok; hide Known; hide PageOk;
    BlockPage(s, b);
    HoldOk(s.m, b, Hand(t));
    var s' := Choose(s, t, b);
    assert ListsOk(s') && PagesOk(s') by { hide OwnerFits; hide PushersOk; SameLists(s, s'); }
    hide ListsOk; hide PagesOk;
    assert OwnerFits(s') by { hide PushersOk; }
    ChoosePushers(s, t, b);
    hide OwnerFits; hide PushersOk;
  }

  lemma ChoosePushers(s: State, t: nat, b: Block)
    requires PushersOk(s) && t != OWNER && t !in s.pushers && b in s.m.where && s.m.where[b] == User
    requires b.page in s.pages
    ensures PushersOk(Choose(s, t, b))
  {
    var s' := Choose(s, t, b);
    forall u | u in s'.pushers ensures PusherOk(s', u, s'.pushers[u]) {
      if u != t { assert PusherOk(s, u, s.pushers[u]); }
    }
  }

  /** The head is read and written into the block. */
  function Load(s: State, t: nat): State
    requires t in s.pushers && s.pushers[t].to in s.m.head
  {
    var q := s.pushers[t];
    var tok := Current(s, q.to);
    s.(m := WriteNext(s.m, q.b, tok.head), pushers := s.pushers[t := Loaded(q.b, q.to, tok)])
  }

  lemma TargetKnown(s: State, t: nat)
    requires ListsOk(s) && PagesOk(s) && PushersOk(s) && t in s.pushers
    ensures PusherOk(s, t, s.pushers[t]) && s.pushers[t].to in s.m.lists && s.pushers[t].to in s.m.head
    ensures !s.pushers[t].to.HeapLocal?
  {
    assert PusherOk(s, t, s.pushers[t]);
    assert PageOk(s.m, s.pages[s.pushers[t].b.page], s.pushers[t].b.page);
    assert ListOk(s.m, s.pushers[t].to);
  }

  lemma LoadInv(s: State, t: nat)
    requires Inv(s) && t in s.pushers
    ensures s.pushers[t].to in s.m.head && Inv(Load(s, t))
  {
    hide Ok; hide Known; hide PageOk; hide ListOk;
    TargetKnown(s, t);
    var q := s.pushers[t];
    WriteOk(s.m, q.b, s.m.head[q.to]);
    var s' := Load(s, t);
    assert ListsOk(s') && PagesOk(s') by { hide OwnerFits; hide PushersOk; SameLists(s, s'); }
    hide ListsOk; hide PagesOk;
    assert OwnerFits(s') by { hide PushersOk; }
    LoadPushers(s, t);
    hide OwnerFits; hide PushersOk;
  }

  lemma LoadPushers(s: State, t: nat)
    requires PushersOk(s) && t in s.pushers && s.pushers[t].to in s.m.head
    ensures PushersOk(Load(s, t))
  {
    var s' := Load(s, t);
    assert PusherOk(s, t, s.pushers[t]);
    forall u | u in s'.pushers ensures PusherOk(s', u, s'.pushers[u]) { assert PusherOk(s, u, s.pushers[u]); }
  }

  /** The exchange succeeds: the block is the new head and the count one more than the count read. */
  function Exchange(s: State, t: nat): State
    requires t in s.pushers && s.pushers[t].Loaded? && s.pushers[t].to in s.m.lists && s.pushers[t].b.page in s.pages
  {
    var q := s.pushers[t];
    var p := q.b.page;
    (if q.to.PageThread? then SetPage(s, p, s.pages[p].(threadCount := q.tok.count + 1)) else s)
      .(m := Push(s.m, q.to, q.b), pushers := s.pushers - {t})
  }

  lemma ExchangeInv(s: State, t: nat)
    requires Inv(s) && t in s.pushers && s.pushers[t].Loaded? && s.pushers[t].to in s.m.head
    requires s.pushers[t].tok == Current(s, s.pushers[t].to)
    ensures s.pushers[t].to in s.m.lists && s.pushers[t].b.page in s.pages && Inv(Exchange(s, t))
  {
    hide Ok; hide Known; hide PageOk; hide ListOk; hide Elsewhere;
    TargetKnown(s, t);
    var q := s.pushers[t];
    var p := q.b.page;
    var s' := Exchange(s, t);
    PushOk(s.m, q.to, q.b);
    PushElsewhere(s.m, q.to, q.b, p);
    PageFacts(s, p);
    ExchangePage(s, t);
    assert PagesOk(s') by { hide OwnerFits; hide PushersOk; hide ListsOk; PagesKept(s, s', p); }
    assert ListsOk(s') by { hide OwnerFits; hide PushersOk; hide PagesOk; ExchangeLists(s, t); }
    ExchangeRest(s, t);
    hide ListsOk; hide PagesOk; hide OwnerFits; hide PushersOk;
  }

  lemma ExchangePage(s: State, t: nat)
    requires t in s.pushers && s.pushers[t].Loaded? && PusherOk(s, t, s.pushers[t]) && s.pushers[t].to in s.m.lists
    requires s.pushers[t].to in s.m.head
    requires PageOk(s.m, s.pages[s.pushers[t].b.page], s.pushers[t].b.page)
    requires s.pushers[t].tok == Current(s, s.pushers[t].to)
    ensures PageOk(Exchange(s, t).m, Exchange(s, t).pages[s.pushers[t].b.page], s.pushers[t].b.page)
  {}

  lemma ExchangeLists(s: State, t: nat)
    requires ListsOk(s) && t in s.pushers && s.pushers[t].Loaded? && s.pushers[t].to in s.m.lists
    requires s.pushers[t].b.page in s.pages && !s.pushers[t].to.HeapLocal?
    requires Ok(Exchange(s, t).m)
    ensures ListsOk(Exchange(s, t))
  {
    hide Ok;
  }

  lemma ExchangeRest(s: State, t: nat)
    requires OwnerFits(s) && PushersOk(s) && t in s.pushers && s.pushers[t].Loaded? && s.pushers[t].to in s.m.lists
    requires s.pushers[t].to != Drained
    requires s.pushers[t].b.page in s.pages
    ensures OwnerFits(Exchange(s, t)) && PushersOk(Exchange(s, t))
  {
    var s' := Exchange(s, t);
    assert PusherOk(s, t, s.pushers[t]);
    forall u | u in s'.pushers ensures PusherOk(s', u, s'.pushers[u]) { assert PusherOk(s, u, s.pushers[u]); }
  }

  // ----- runs -----

  /** When a step can be taken. */
  ghost predicate Enabled(s: State, a: Act) {
    match a
    case HeapPop(c) => CanHeapPop(s, c)
    case AllocStart(p) =>
      s.owner.Idle? && OwnPage(s, p) && PageLocal(p) in s.m.lists && (s.m.lists[PageLocal(p)] != [] ==> HasLocal(s, p))
    case AllocLoad => s.owner.Empty? && PageThread(s.owner.p) in s.m.head
    case AdoptExchange =>
      (s.owner.Adopting? || s.owner.AdoptingFull?) && CanAdopt(s, s.owner.p) &&
      s.owner.tok == Current(s, PageThread(s.owner.p))
    case AdoptRetry => (s.owner.Adopting? || s.owner.AdoptingFull?) && PageThread(s.owner.p) in s.m.head
    case AllocInit(extra) => s.owner.Initializing? && CanInit(s, s.owner.p, extra)
    case AllocPush =>
      s.owner.Got? && s.owner.p in s.pages && PageLocal(s.owner.p) in s.m.lists && PageLocal(s.owner.p) in s.m.head &&
      HeapLocal(s.pages[s.owner.p].class_) in s.m.lists
    case AllocCheck => s.owner.Pushed? && s.owner.p in s.pages && PageThread(s.owner.p) in s.m.head
    case AllocEnd => s.owner.Checked? && s.owner.p in s.pages
    case FreeLocal(b) =>
      s.owner.Idle? && b in s.m.where && s.m.where[b] == User && b.page in s.pages && PageLocal(b.page) in s.m.lists &&
      PageLocal(b.page) in s.m.head
    case GrabLoad(t) => s.owner.Idle? && t <= 2 && HeapThread(t) in s.m.head && s.m.head[HeapThread(t)].Some?
    case GrabExchange =>
      s.owner.Grabbing? && HeapThread(s.owner.type_) in s.m.lists && HeapThread(s.owner.type_) in s.m.head &&
      s.owner.tok == Current(s, HeapThread(s.owner.type_))
    case GrabRetry => s.owner.Grabbing? && HeapThread(s.owner.type_) in s.m.head
    case DrainOne =>
      CanDrain(s) &&
      var b := s.m.lists[Drained][0];
      b.page in s.pages && PageLocal(b.page) in s.m.lists && PageLocal(b.page) in s.m.head
    case DrainEnd => s.owner.Draining? && Drained in s.m.lists && s.m.lists[Drained] == []
    case Reuse(p, class_, count) =>
      s.owner.Idle? && p in s.pages && s.pages[p].free && PageLocal(p) in s.m.lists &&
      class_ < RpSizes.CLASSES && count >= 2
    case NewPage(p, class_, count) => s.owner.Idle? && p !in s.pages && class_ < RpSizes.CLASSES && count >= 2
    case UserWrite(b, v) => b in s.m.where && s.m.where[b] == User
    case FreeStart(t, b) => t != OWNER && t !in s.pushers && b in s.m.where && s.m.where[b] == User && b.page in s.pages
    case FreeLoad(t) => t in s.pushers && s.pushers[t].Chosen? && s.pushers[t].to in s.m.head
    case FreeExchange(t) =>
      t in s.pushers && s.pushers[t].Loaded? && s.pushers[t].to in s.m.head && s.pushers[t].to in s.m.lists &&
      s.pushers[t].b.page in s.pages && s.pushers[t].tok == Current(s, s.pushers[t].to)
    case FreeRetry(t) => t in s.pushers && s.pushers[t].Loaded? && s.pushers[t].to in s.m.head
  }

  ghost function Step(s: State, a: Act): State
    requires Enabled(s, a)
  {
    match a
    case HeapPop(c) => DoHeapPop(s, c)
    case AllocStart(p) => if s.m.lists[PageLocal(p)] != [] then GetLocal(s, p) else s.(owner := Empty(p))
    case AllocLoad =>
      var p := s.owner.p;
      var tok := Current(s, PageThread(p));
      s.(owner := if tok.count == 0 then Initializing(p) else Adopting(p, tok))
    case AdoptExchange =>
      var p := s.owner.p;
      if s.owner.AdoptingFull? then Adopt(s, p, Checked(p, s.owner.b))
      else var s1 := Adopt(s, p, Idle); if HasLocal(s1, p) then GetLocal(s1, p) else s1
    case AdoptRetry =>
      var tok := Current(s, PageThread(s.owner.p));
      s.(owner := if s.owner.Adopting? then Adopting(s.owner.p, tok) else AdoptingFull(s.owner.p, s.owner.b, tok))
    case AllocInit(extra) => Init(s, s.owner.p, extra)
    case AllocPush =>
      var o := Pushed(s.owner.p, s.owner.b);
      if ShouldPush(s, s.owner.p) then PushToHeap(s, s.owner.p, o) else s.(owner := o)
    case AllocCheck =>
      var p := s.owner.p;
      var pg := s.pages[p];
      s.(owner := if pg.used == pg.count && pg.localCount == 0 && pg.threadCount > 0
                  then AdoptingFull(p, s.owner.b, Current(s, PageThread(p)))
                  else Checked(p, s.owner.b))
    case AllocEnd => Finish(s, s.owner.p, s.owner.b)
    case FreeLocal(b) => PutLocal(s, b)
    case GrabLoad(t) => s.(owner := Grabbing(t, Current(s, HeapThread(t))))
    case GrabExchange => Grab(s, s.owner.type_)
    case GrabRetry => s.(owner := Grabbing(s.owner.type_, Current(s, HeapThread(s.owner.type_))))
    case DrainOne => PutLocal(Unlist(s), s.m.lists[Drained][0])
    case DrainEnd => s.(owner := Idle)
    case Reuse(p, class_, count) => Remake(s, p, class_, count)
    case NewPage(p, class_, count) => AddPage(s, p, class_, count)
    case UserWrite(b, v) => s.(m := WriteNext(s.m, b, v))
    case FreeStart(t, b) => Choose(s, t, b)
    case FreeLoad(t) => Load(s, t)
    case FreeExchange(t) => Exchange(s, t)
    case FreeRetry(t) => Load(s, t)
  }

  /** The steps of the owner that only read. */
  predicate OnlyReads(a: Act) {
    a.AllocLoad? || a.AdoptRetry? || a.AllocCheck? || a.GrabLoad? || a.GrabRetry? || a.DrainEnd?
  }

  lemma ReadsFit(s: State, a: Act)
    requires OwnerFits(s) && Enabled(s, a) && OnlyReads(a)
    requires (a.GrabLoad? ==> HeapThread(a.t) in s.m.lists && s.m.lists[HeapThread(a.t)] != [])
    ensures Step(s, a) == s.(owner := Step(s, a).owner) && OwnerFits(Step(s, a))
  {}

  lemma OwnerReads(s: State, a: Act)
    requires Inv(s) && Enabled(s, a) && OnlyReads(a)
    ensures Inv(Step(s, a))
  {
    hide Ok; hide Known; hide PushersOk; hide PagesOk; hide OwnerFits; hide Step;
    if a.GrabLoad? { HasHead(s.m, HeapThread(a.t)); }
    ReadsFit(s, a);
    hide Enabled;
    OwnerMoves(s, Step(s, a).owner);
  }

  lemma AllocStartInv(s: State, p: nat)
    requires Inv(s) && Enabled(s, AllocStart(p))
    ensures Inv(Step(s, AllocStart(p)))
  {
    hide Ok; hide Known; hide PageOk; hide PushersOk;
    PageFacts(s, p);
    if s.m.lists[PageLocal(p)] != [] {
      GetLocalInv(s, p);
    } else {
      LocalLength(s, p);
      hide PagesOk;
      assert OwnerFits(s.(owner := Empty(p)));
      OwnerMoves(s, Empty(p));
    }
  }

  lemma LocalLength(s: State, p: nat)
    requires PagesOk(s) && p in s.pages
    ensures PageLocal(p) in s.m.lists && s.pages[p].localCount == |s.m.lists[PageLocal(p)]|
    ensures PageThread(p) in s.m.lists && s.pages[p].threadCount == |s.m.lists[PageThread(p)]|
  {
    assert PageOk(s.m, s.pages[p], p);
  }

  lemma AdoptExchangeInv(s: State)
    requires Inv(s) && Enabled(s, AdoptExchange)
    ensures Inv(Step(s, AdoptExchange))
  {
    hide Ok; hide Known; hide PageOk; hide PushersOk; hide PagesOk; hide ListsOk;
    var p := s.owner.p;
    if s.owner.AdoptingFull? {
      hide OwnerFits;
      AdoptInv(s, p, Checked(p, s.owner.b));
    } else {
      AdoptInv(s, p, Idle);
      var s1 := Adopt(s, p, Idle);
      assert OwnPage(s1, p);
      if HasLocal(s1, p) { GetLocalInv(s1, p); }
    }
  }

  /** Adopting hands the caller a block: the shared list was not empty. */
  lemma AdoptFinds(s: State)
    requires Inv(s) && Enabled(s, AdoptExchange) && s.owner.Adopting?
    ensures Step(s, AdoptExchange).owner.Got?
  {
    var p := s.owner.p;
    var s1 := Adopt(s, p, Idle);
    LocalLength(s, p);
    assert ListOk(s.m, PageThread(p));
    assert s1.m.lists[PageLocal(p)] == s.m.lists[PageThread(p)] != [];
    assert s1.m.lists[PageLocal(p)][0] in s1.m.next;
  }

  lemma AllocPushInv(s: State)
    requires Inv(s) && Enabled(s, AllocPush)
    ensures Inv(Step(s, AllocPush))
  {
    hide Ok; hide Known; hide PageOk; hide PushersOk; hide PagesOk; hide ListsOk;
    var p, b := s.owner.p, s.owner.b;
    if ShouldPush(s, p) {
      hide OwnerFits;
      PushInv(s, p, b);
    } else {
      assert OwnerFits(s.(owner := Pushed(p, b)));
      OwnerMoves(s, Pushed(p, b));
    }
  }

  /** Every step of every thread keeps the invariant. */
  lemma StepInv(s: State, a: Act)
    requires Inv(s) && Enabled(s, a)
    ensures Inv(Step(s, a))
  {
    hide Inv;
    match a
    case HeapPop(c) => HeapPopInv(s, c);
    case AllocStart(p) => AllocStartInv(s, p);
    case AllocLoad => OwnerReads(s, a);
    case AdoptExchange => AdoptExchangeInv(s);
    case AdoptRetry => OwnerReads(s, a);
    case AllocInit(extra) => InitInv(s, s.owner.p, extra);
    case AllocPush => AllocPushInv(s);
    case AllocCheck => OwnerReads(s, a);
    case AllocEnd => FinishInv(s, s.owner.p, s.owner.b);
    case FreeLocal(b) => PutInv(s, b);
    case GrabLoad(t) => OwnerReads(s, a);
    case GrabExchange => GrabInv(s, s.owner.type_);
    case GrabRetry => OwnerReads(s, a);
    case DrainOne => UnlistInv(s); PutInv(Unlist(s), s.m.lists[Drained][0]);
    case DrainEnd => OwnerReads(s, a);
    case Reuse(p, class_, count) => RemakeInv(s, p, class_, count);
    case NewPage(p, class_, count) => AddPageInv(s, p, class_, count);
    case UserWrite(b, v) => UserWriteInv(s, b, v);
    case FreeStart(t, b) => ChooseInv(s, t, b);
    case FreeLoad(t) => LoadInv(s, t);
    case FreeExchange(t) => ExchangeInv(s, t);
    case FreeRetry(t) => LoadInv(s, t);
  }

  /** A heap without pages. */
  function NoLists(): (r: set<ListId>)
    ensures forall l :: l in r <==>
              l == Drained || (l.HeapLocal? && l.class_ < RpSizes.CLASSES) || (l.HeapThread? && l.type_ <= 2)
  {
    (set c: nat | c < RpSizes.CLASSES :: HeapLocal(c)) + (set t: nat | t <= 2 :: HeapThread(t)) + {Drained}
  }

  function Start(): State {
    State(Mem(map l | l in NoLists() :: None, map[], map l | l in NoLists() :: [], map[]), map[], Idle, map[])
  }

  lemma StartInv()
    ensures Inv(Start())
  {}

  ghost predicate Runs(s: State, acts: seq<Act>)
    decreases |acts|
  { acts == [] || (Enabled(s, acts[0]) && Runs(Step(s, acts[0]), acts[1..])) }

  ghost function After(s: State, acts: seq<Act>): State
    requires Runs(s, acts)
    decreases |acts|
  { if acts == [] then s else After(Step(s, acts[0]), acts[1..]) }

  /** In every state that any interleaving of any threads reaches, the invariant holds. */
  lemma {:induction false} RunInv(s: State, acts: seq<Act>)
    requires Inv(s) && Runs(s, acts)
    ensures Inv(After(s, acts))
    decreases |acts|
  {
    hide Inv; hide Enabled; hide Step;
    if acts != [] {
      StepInv(s, acts[0]);
      RunInv(Step(s, acts[0]), acts[1..]);
    }
  }

  // ----- what the invariant says -----

  /** Every initialized block has one place, and is on a list exactly if that is its place. */
  lemma OnePlace(acts: seq<Act>, p: nat, i: nat, l: ListId)
    requires Runs(Start(), acts)
    ensures var s := After(Start(), acts);
            && (p in s.pages ==> (i < s.pages[p].init <==> Block(p, i) in s.m.where))
            && (l in s.m.lists ==>
                && l in s.m.head && s.m.head[l] == Top(s.m.lists[l]) && Linked(s.m.next, s.m.lists[l])
                && NoDup(s.m.lists[l])
                && (Block(p, i) in s.m.lists[l] <==> Block(p, i) in s.m.where && s.m.where[Block(p, i)] == On(l)))
  {
    StartInv();
    RunInv(Start(), acts);
    var s := After(Start(), acts);
    hide After; hide Runs;
    if p in s.pages { assert PageOk(s.m, s.pages[p], p); }
    if l in s.m.lists { assert ListOk(s.m, l); }
  }

  /** The counters of every page are exact, even when the same head recurs between a thread's read of
      the shared list and its exchange. */
  lemma CountsExact(acts: seq<Act>, p: nat)
    requires Runs(Start(), acts)
    ensures var s := After(Start(), acts);
            p in s.pages ==>
              && PageLocal(p) in s.m.lists && PageThread(p) in s.m.lists
              && s.pages[p].init == s.pages[p].used + s.pages[p].localCount
              && s.pages[p].localCount == |s.m.lists[PageLocal(p)]|
              && s.pages[p].threadCount == |s.m.lists[PageThread(p)]|
              && s.pages[p].init <= s.pages[p].count
  {
    StartInv();
    RunInv(Start(), acts);
    var s := After(Start(), acts);
    hide After; hide Runs;
    if p in s.pages { assert PageOk(s.m, s.pages[p], p); }
  }

  /** The block a step hands to the user, if any. */
  ghost function Gives(s: State, a: Act): Option<Block>
    requires Enabled(s, a)
  {
    match a
    case HeapPop(c) => Some(s.m.lists[HeapLocal(c)][0])
    case AllocEnd => Some(s.owner.b)
    case _ => None
  }

  /** A block handed out was not held, and belongs to a page of the size class asked for. */
  lemma GivesFree(s: State, a: Act)
    requires Inv(s) && Enabled(s, a) && Gives(s, a).Some?
    ensures var b := Gives(s, a).value;
            && b in s.m.where && s.m.where[b] != User && b in Step(s, a).m.where && Step(s, a).m.where[b] == User
            && b.page in s.pages && (a.HeapPop? ==> s.pages[b.page].class_ == a.c)
            && (a.AllocEnd? ==> b.page == s.owner.p)
  {
    hide Known; hide PushersOk; hide PageOk;
    if a.HeapPop? {
      PopOk(s.m, HeapLocal(a.c), User);
      assert s.m.lists[HeapLocal(a.c)][0] in s.m.lists[HeapLocal(a.c)];
    }
  }

  /** The user gives the block back. */
  predicate Frees(a: Act, b: Block) { a == FreeLocal(b) || (a.FreeStart? && a.b == b) }

  lemma HeldStep(s: State, a: Act, b: Block)
    requires Inv(s) && Enabled(s, a) && b in s.m.where && s.m.where[b] == User && !Frees(a, b)
    ensures b in Step(s, a).m.where && Step(s, a).m.where[b] == User
  {
    hide Ok; hide Known; hide PageOk; hide ListsOk; hide PagesOk; hide PushersOk; hide OwnerFits;
    match a
    case HeapPop(c) => HeldPop(s, HeapLocal(c), User, b);
    case AllocStart(p) => if s.m.lists[PageLocal(p)] != [] { HeldPop(s, PageLocal(p), Hand(OWNER), b); }
    case AdoptExchange => HeldAdopt(s, b);
    case DrainOne => HeldPop(s, Drained, User, b);
    case AllocInit(extra) => HeldInit(s, extra, b);
    case FreeExchange(t) => HeldExchange(s, t, b);
    case AllocEnd => HeldEnd(s, b);
    case _ =>
  }

  lemma {:induction false} HeldOn(s: State, acts: seq<Act>, b: Block)
    requires Inv(s) && Runs(s, acts) && b in s.m.where && s.m.where[b] == User
    requires forall a :: a in acts ==> !Frees(a, b)
    ensures b in After(s, acts).m.where && After(s, acts).m.where[b] == User
    decreases |acts|
  {
    hide Inv; hide Enabled; hide Step;
    if acts != [] {
      assert acts[0] in acts;
      HeldStep(s, acts[0], b);
      StepInv(s, acts[0]);
      HeldOn(Step(s, acts[0]), acts[1..], b);
    }
  }

  // ----- over runs -----

  /** Whatever has happened, a block handed out was with nobody and is of the size class asked for. */
  lemma GivenOnce(acts: seq<Act>, a: Act)
    requires Runs(Start(), acts) && Enabled(After(Start(), acts), a) && Gives(After(Start(), acts), a).Some?
    ensures var s := After(Start(), acts);
            var b := Gives(s, a).value;
            && b in s.m.where && s.m.where[b] != User && b in Step(s, a).m.where && Step(s, a).m.where[b] == User
            && b.page in s.pages && (a.HeapPop? ==> s.pages[b.page].class_ == a.c)
            && (a.AllocEnd? ==> b.page == s.owner.p)
  {
    hide Inv; hide Enabled; hide Step; hide Gives; hide After; hide Runs;
    StartInv();
    RunInv(Start(), acts);
    GivesFree(After(Start(), acts), a);
  }

  /** A block that is held stays held through any further run that does not free it. */
  lemma HeldUntilFreed(acts: seq<Act>, more: seq<Act>, b: Block)
    requires Runs(Start(), acts) && Runs(After(Start(), acts), more)
    requires b in After(Start(), acts).m.where && After(Start(), acts).m.where[b] == User
    requires forall a :: a in more ==> !Frees(a, b)
    ensures var s := After(After(Start(), acts), more); b in s.m.where && s.m.where[b] == User
  {
    hide Inv; hide After; hide Runs;
    StartInv();
    RunInv(Start(), acts);
    HeldOn(After(Start(), acts), more, b);
  }

  /** No block is handed out twice without being freed between: in any run, if step `a` and a later step `c` hand
      out the same block, some step between them frees it. */
  lemma NeverTwice(acts: seq<Act>, a: Act, more: seq<Act>, c: Act, b: Block)
    requires Runs(Start(), acts) && Enabled(After(Start(), acts), a) && Runs(Step(After(Start(), acts), a), more)
    requires Enabled(After(Step(After(Start(), acts), a), more), c)
    requires Gives(After(Start(), acts), a) == Some(b)
    requires Gives(After(Step(After(Start(), acts), a), more), c) == Some(b)
    ensures exists f :: f in more && Frees(f, b)
  {
    hide Inv; hide Enabled; hide Step; hide Gives; hide After; hide Runs; hide Frees;
    StartInv();
    RunInv(Start(), acts);
    var s := After(Start(), acts);
    GivesFree(s, a);
    StepInv(s, a);
    RunInv(Step(s, a), more);
    GivesFree(After(Step(s, a), more), c);
    if forall f :: f in more ==> !Frees(f, b) { HeldOn(Step(s, a), more, b); }
  }

  lemma HeldPop(s: State, l: ListId, pl: Place, b: Block)
    requires Inv(s) && l in s.m.lists && s.m.lists[l] != [] && b in s.m.where && s.m.where[b] == User && !pl.On?
    ensures s.m.lists[l][0] in s.m.next && b in Pop(s.m, l, pl).where && b != s.m.lists[l][0]
    ensures Pop(s.m, l, pl).where[b] == User
  {
    hide Known; hide PagesOk; hide PushersOk; hide OwnerFits;
    PopOk(s.m, l, pl);
  }

  lemma HeldInit(s: State, extra: nat, b: Block)
    requires Inv(s) && Enabled(s, AllocInit(extra)) && b in s.m.where && s.m.where[b] == User
    ensures b in Step(s, AllocInit(extra)).m.where && Step(s, AllocInit(extra)).m.where[b] == User
  {
    hide Ok; hide Known; hide PushersOk; hide OwnerFits; hide PageOk; hide Carve;
    var p := s.owner.p;
    PageFacts(s, p);
    CarveElsewhere(Hold(s.m, Block(p, s.pages[p].init), Hand(OWNER)), PageLocal(p), p, s.pages[p].init + 1, extra);
  }

  lemma HeldExchange(s: State, t: nat, b: Block)
    requires Inv(s) && Enabled(s, FreeExchange(t)) && b in s.m.where && s.m.where[b] == User
    ensures b in Step(s, FreeExchange(t)).m.where && Step(s, FreeExchange(t)).m.where[b] == User
  {
    hide Ok; hide Known; hide PagesOk; hide OwnerFits;
    assert PusherOk(s, t, s.pushers[t]);
  }

  lemma HeldEnd(s: State, b: Block)
    requires Inv(s) && Enabled(s, AllocEnd) && b in s.m.where && s.m.where[b] == User
    ensures b in Step(s, AllocEnd).m.where && Step(s, AllocEnd).m.where[b] == User
  {
    hide Ok; hide Known; hide PagesOk; hide PushersOk;
  }

  lemma HeldAdopt(s: State, b: Block)
    requires Inv(s) && Enabled(s, AdoptExchange) && b in s.m.where && s.m.where[b] == User
    ensures b in Step(s, AdoptExchange).m.where && Step(s, AdoptExchange).m.where[b] == User
  {
    hide PushersOk; hide PageOk;
    var p := s.owner.p;
    if s.owner.Adopting? {
      AdoptInv(s, p, Idle);
      var s1 := Adopt(s, p, Idle);
      if HasLocal(s1, p) { PopOk(s1.m, PageLocal(p), Hand(OWNER)); }
    }
  }

  // ----- no thread gets stuck -----

  /** In every state reached, an adoption of the foreign list gets a block out of it. */
  lemma AdoptGets(acts: seq<Act>)
    requires Runs(Start(), acts) && Enabled(After(Start(), acts), AdoptExchange) && After(Start(), acts).owner.Adopting?
    ensures Step(After(Start(), acts), AdoptExchange).owner.Got?
  {
    hide Inv; hide Enabled; hide Step; hide After; hide Runs;
    StartInv();
    RunInv(Start(), acts);
    AdoptFinds(After(Start(), acts));
  }

  /** In every state reached, inside an operation the owner has a next step: in particular a page with nothing free
      has a block left to initialize, and a shared list once seen non-empty stays so. */
  lemma OwnerProceeds(acts: seq<Act>) returns (a: Act)
    requires Runs(Start(), acts) && !After(Start(), acts).owner.Idle?
    ensures var s := After(Start(), acts);
            && Enabled(s, a) && (s.owner.Initializing? ==> a.AllocInit?)
            && (a.AdoptRetry? ==> s.owner.p in s.pages && s.pages[s.owner.p].threadCount > 0)
  {
    hide Inv; hide Enabled; hide After; hide Runs;
    StartInv();
    RunInv(Start(), acts);
    a := OwnerNext(After(Start(), acts));
  }

  /** Inside an operation the owner always has a next step: in particular a page with nothing free has
      a block left to initialize, and a shared list once seen non-empty stays so. */
  lemma OwnerNext(s: State) returns (a: Act)
    requires Inv(s) && !s.owner.Idle?
    ensures Enabled(s, a) && (s.owner.Initializing? ==> a.AllocInit?)
    ensures (a.AdoptRetry? ==> s.owner.p in s.pages && s.pages[s.owner.p].threadCount > 0)
  {
    hide Ok; hide Known; hide PushersOk; hide PagesOk;
    match s.owner {
      case Grabbing(t, tok) =>
        HasHead(s.m, HeapThread(t));
        a := if tok == Current(s, HeapThread(t)) then GrabExchange else GrabRetry;
      case Draining => a := DrainProceeds(s);
      case Empty(p) => BusyFacts(s, p); a := AllocLoad;
      case Adopting(p, tok) =>
        BusyFacts(s, p); a := if tok == Current(s, PageThread(p)) then AdoptExchange else AdoptRetry;
      case Initializing(p) => BusyFacts(s, p); a := AllocInit(0);
      case Got(p, b) => BusyFacts(s, p); a := AllocPush;
      case Pushed(p, b) => BusyFacts(s, p); a := AllocCheck;
      case AdoptingFull(p, b, tok) =>
        BusyFacts(s, p); a := if tok == Current(s, PageThread(p)) then AdoptExchange else AdoptRetry;
      case Checked(p, b) => a := AllocEnd;
    }
  }

  lemma DrainProceeds(s: State) returns (a: Act)
    requires Inv(s) && s.owner.Draining?
    ensures Enabled(s, a)
  {
    hide Ok; hide Known; hide PushersOk; hide OwnerFits; hide PagesOk;
    if s.m.lists[Drained] == [] { return DrainEnd; }
    PopOk(s.m, Drained, User);
    var b := s.m.lists[Drained][0];
    BlockPage(s, b);
    BusyFacts(s, b.page);
    a := DrainOne;
  }

  lemma BusyFacts(s: State, p: nat)
    requires Inv(s) && p in s.pages
    ensures PageLocal(p) in s.m.lists && PageThread(p) in s.m.lists && PageLocal(p) in s.m.head
    ensures PageThread(p) in s.m.head
    ensures HeapLocal(s.pages[p].class_) in s.m.lists && s.pages[p].init == s.pages[p].used + s.pages[p].localCount
  {
    hide Known; hide PushersOk; hide OwnerFits;
    assert PageOk(s.m, s.pages[p], p);
    HasHead(s.m, PageLocal(p));
    HasHead(s.m, PageThread(p));
  }
}
