/** Nothing freed is forgotten: free and full pages are known as such, free blocks are used before new ones are made,
    and a block of a full page freed by another thread makes the page available again. */
module RpReturns {
  import opened Options
  import opened RpLists
  import opened RpHeap

  // ----- free and full pages -----

  /** Outside an operation on it, a page is free exactly when blocks were made and none is used. */
  ghost predicate FreeKnown(s: State) {
    && (forall p :: p in s.pages && s.pages[p].free ==> s.pages[p].init > 0)
    && (forall p :: p in s.pages && !Busy(s.owner, p) && s.pages[p].used == 0 && s.pages[p].init > 0 ==>
          s.pages[p].free)
  }

  lemma PutFree(s: State, b: Block)
    requires Inv(s) && FreeKnown(s) && b in s.m.where && s.m.where[b] == User && !Busy(s.owner, b.page)
    ensures b.page in s.pages && PageLocal(b.page) in s.m.lists && PageLocal(b.page) in s.m.head
    ensures FreeKnown(PutLocal(s, b))
  {
    hide Known; hide PushersOk; hide OwnerFits; hide Ok;
    PageFacts(s, b.page);
    HasHead(s.m, PageLocal(b.page));
  }

  lemma EndFree(s: State)
    requires Inv(s) && FreeKnown(s) && s.owner.Checked?
    ensures s.owner.p in s.pages && FreeKnown(Finish(s, s.owner.p, s.owner.b))
  {
    hide Known; hide PushersOk; hide ListsOk; hide PageOk; hide Ok;
    HeldIsUsed(s);
    hide OwnerFits; hide PagesOk;
  }

  /** The page of the block in the owner's hand is in use. */
  lemma HeldIsUsed(s: State)
    requires Inv(s) && s.owner.Checked?
    ensures s.owner.p in s.pages && s.pages[s.owner.p].used >= 1 && !s.pages[s.owner.p].free
  {
    hide Known; hide PushersOk; hide PageOk; hide Ok;
    PageFacts(s, s.owner.p);
    UsedBlock(s.m, s.pages[s.owner.p], s.owner.b);
  }

  lemma StaysBusy(s: State, s': State, p: nat)
    requires FreeKnown(s) && s'.pages.Keys == s.pages.Keys && p in s.pages && Busy(s'.owner, p) && !s'.pages[p].free
    requires (s.owner.Idle? || Busy(s.owner, p)) && forall q :: q in s.pages && q != p ==> s'.pages[q] == s.pages[q]
    ensures FreeKnown(s')
  {}

  lemma AdoptPages(s: State, p: nat, o: Owner)
    requires CanAdopt(s, p)
    ensures var r := Adopt(s, p, o);
            && r.owner == o && r.pages.Keys == s.pages.Keys && r.pages[p].free == s.pages[p].free
            && forall q :: q in s.pages && q != p ==> r.pages[q] == s.pages[q]
  {
    hide TakeAll;
  }

  lemma GetPages(s: State, p: nat)
    requires HasLocal(s, p)
    ensures var r := GetLocal(s, p);
            && r.pages.Keys == s.pages.Keys && r.pages[p].free == s.pages[p].free && Busy(r.owner, p)
            && forall q :: q in s.pages && q != p ==> r.pages[q] == s.pages[q]
  {
    hide Pop;
  }

  lemma AdoptStep(s: State)
    requires Enabled(s, AdoptExchange)
    ensures var p := s.owner.p;
            Step(s, AdoptExchange) ==
            if s.owner.AdoptingFull? then Adopt(s, p, Checked(p, s.owner.b))
            else var r := Adopt(s, p, Idle); if HasLocal(r, p) then GetLocal(r, p) else r
  {
    hide Adopt; hide GetLocal; hide HasLocal;
  }

  lemma AdoptingPage(s: State)
    requires OwnerFits(s) && Enabled(s, AdoptExchange)
    ensures CanAdopt(s, s.owner.p) && !s.pages[s.owner.p].free && Busy(s.owner, s.owner.p)
  {}

  lemma AdoptFree(s: State)
    requires Inv(s) && FreeKnown(s) && Enabled(s, AdoptExchange)
    ensures FreeKnown(Step(s, AdoptExchange))
  {
    var s', p := Step(s, AdoptExchange), s.owner.p;
    AdoptingPage(s);
    AdoptStep(s);
    if s.owner.Adopting? { AdoptFinds(s); }
    hide Inv; hide Enabled; hide Step; hide Adopt; hide GetLocal; hide FreeKnown;
    AdoptPages(s, p, if s.owner.AdoptingFull? then Checked(p, s.owner.b) else Idle);
    if s.owner.Adopting? {
      var r := Adopt(s, p, Idle);
      if HasLocal(r, p) { GetPages(r, p); }
    }
    StaysBusy(s, s', p);
  }

  /** Every step of every thread keeps this. */
  lemma StepFree(s: State, a: Act)
    requires Inv(s) && FreeKnown(s) && Enabled(s, a)
    ensures FreeKnown(Step(s, a))
  {
    hide Ok; hide Known; hide PushersOk; hide PagesOk; hide ListsOk; hide FreeKnown;
    match a
    case FreeLocal(b) => PutFree(s, b);
    case DrainOne =>
      UnlistInv(s);
      Unlisted(s);
      PutFree(Unlist(s), s.m.lists[Drained][0]);
    case AdoptExchange => AdoptFree(s);
    case AllocEnd => EndFree(s);
    case AllocStart(p) => StaysBusy(s, Step(s, a), p);
    case AllocInit(_) => StaysBusy(s, Step(s, a), s.owner.p);
    case AllocPush => StaysBusy(s, Step(s, a), s.owner.p);
    case AllocLoad => StaysBusy(s, Step(s, a), s.owner.p);
    case AdoptRetry => StaysBusy(s, Step(s, a), s.owner.p);
    case AllocCheck => StaysBusy(s, Step(s, a), s.owner.p);
    case HeapPop(_) => SamePages(s, a);
    case GrabLoad(_) => SamePages(s, a);
    case GrabExchange => SamePages(s, a);
    case GrabRetry => SamePages(s, a);
    case DrainEnd => SamePages(s, a);
    case UserWrite(_, _) => SamePages(s, a);
    case FreeStart(_, _) => SamePages(s, a);
    case _ => OtherFree(s, a);
  }

  lemma Unlisted(s: State)
    requires CanDrain(s) && FreeKnown(s)
    ensures FreeKnown(Unlist(s))
  {}

  lemma SamePages(s: State, a: Act)
    requires FreeKnown(s) && Enabled(s, a)
    requires a.HeapPop? || a.GrabLoad? || a.GrabExchange? || a.GrabRetry? || a.DrainEnd? || a.UserWrite? || a.FreeStart?
    ensures FreeKnown(Step(s, a))
  {
    hide FreeKnown; hide Pop; hide TakeAll;
    var r := Step(s, a);
    assert r.pages == s.pages && forall p :: Busy(s.owner, p) ==> Busy(r.owner, p);
    hide Enabled; hide Step;
    KnownSame(s, r);
  }

  lemma KnownSame(s: State, r: State)
    requires FreeKnown(s) && r.pages == s.pages && forall p :: Busy(s.owner, p) ==> Busy(r.owner, p)
    ensures FreeKnown(r)
  {}

  /** The steps that make an empty page or count what is on the shared list. */
  lemma OtherFree(s: State, a: Act)
    requires FreeKnown(s) && Enabled(s, a)
    requires a.Reuse? || a.NewPage? || a.FreeLoad? || a.FreeExchange? || a.FreeRetry?
    ensures FreeKnown(Step(s, a))
  {
    hide Push; hide Drop; hide Open;
  }

  lemma {:induction false} RunFree(s: State, acts: seq<Act>)
    requires Inv(s) && FreeKnown(s) && Runs(s, acts)
    ensures FreeKnown(After(s, acts))
    decreases |acts|
  {
    hide Inv; hide FreeKnown; hide Enabled; hide Step;
    if acts != [] {
      StepInv(s, acts[0]);
      StepFree(s, acts[0]);
      RunFree(Step(s, acts[0]), acts[1..]);
    }
  }

  /** In every state reached, a page that no operation is at is marked free exactly when none of the blocks made is
      used, and full exactly when all it has room for are. */
  lemma FlagsExact(acts: seq<Act>, p: nat)
    requires Runs(Start(), acts)
    ensures var s := After(Start(), acts);
            p in s.pages && !Busy(s.owner, p) ==>
              var pg := s.pages[p];
              (pg.free <==> pg.used == 0 && pg.init > 0) && (pg.full <==> pg.used == pg.count)
  {
    StartInv();
    RunInv(Start(), acts);
    RunFree(Start(), acts);
    var s := After(Start(), acts);
    hide After; hide Runs; hide Ok; hide Known; hide PushersOk;
    if p in s.pages { assert PageOk(s.m, s.pages[p], p); }
  }

  // ----- free blocks first -----

  /** In every state reached: a page's own list is used before the shared one is looked at; new blocks are made only
      if the shared list was seen empty; and a page all in use is left only if the shared list was seen empty. */
  lemma FreeFirst(acts: seq<Act>, p: nat)
    requires Runs(Start(), acts)
    ensures var s := After(Start(), acts);
            && (Enabled(s, AllocStart(p)) ==>
                  (Step(s, AllocStart(p)).owner.Got? <==> s.m.lists[PageLocal(p)] != []))
            && (Enabled(s, AllocLoad) ==>
                  var q := s.owner.p;
                  && PageThread(q) in s.m.lists
                  && (Step(s, AllocLoad).owner.Adopting? <==> s.m.lists[PageThread(q)] != [])
                  && (Step(s, AllocLoad).owner.Initializing? <==> s.m.lists[PageThread(q)] == []))
            && (Enabled(s, AllocCheck) ==>
                  var q := s.owner.p;
                  && PageThread(q) in s.m.lists
                  && (Step(s, AllocCheck).owner.AdoptingFull? <==>
                        s.pages[q].used == s.pages[q].count && s.m.lists[PageThread(q)] != []))
  {
    hide Inv; hide After; hide Runs; hide Enabled; hide Step;
    StartInv();
    RunInv(Start(), acts);
    var s := After(Start(), acts);
    if Enabled(s, AllocStart(p)) { StartsLocal(s, p); }
    if Enabled(s, AllocLoad) { LoadReads(s); }
    if Enabled(s, AllocCheck) { CheckReads(s); }
  }

  lemma StartsLocal(s: State, p: nat)
    requires Enabled(s, AllocStart(p))
    ensures PageLocal(p) in s.m.lists && (Step(s, AllocStart(p)).owner.Got? <==> s.m.lists[PageLocal(p)] != [])
  {
    hide Pop;
  }

  lemma LoadReads(s: State)
    requires Inv(s) && Enabled(s, AllocLoad)
    ensures var q := s.owner.p;
            && s.owner.Empty? && PageThread(q) in s.m.lists
            && (Step(s, AllocLoad).owner.Adopting? <==> s.m.lists[PageThread(q)] != [])
            && (Step(s, AllocLoad).owner.Initializing? <==> s.m.lists[PageThread(q)] == [])
  {
    hide Ok; hide Known; hide PushersOk; hide ListsOk; hide PageOk;
    LocalLength(s, s.owner.p);
  }

  lemma CheckReads(s: State)
    requires Inv(s) && Enabled(s, AllocCheck)
    ensures var q := s.owner.p;
            && s.owner.Pushed? && q in s.pages && PageThread(q) in s.m.lists
            && (Step(s, AllocCheck).owner.AdoptingFull? <==>
                  s.pages[q].used == s.pages[q].count && s.m.lists[PageThread(q)] != [])
  {
    hide Ok; hide Known; hide PushersOk; hide ListsOk; hide OwnerFits;
    assert PageOk(s.m, s.pages[s.owner.p], s.owner.p);
    hide PagesOk;
  }

  /** Handing over: afterwards the heap has blocks of the class ready, or the page has none left. */
  lemma HandsOver(s: State)
    requires Inv(s) && Enabled(s, AllocPush)
    ensures var p, h := s.owner.p, HeapLocal(s.pages[s.owner.p].class_);
            var m := Step(s, AllocPush).m;
            && PageLocal(p) in m.lists && h in m.lists
            && m.lists[h] == (if s.m.lists[h] == [] then s.m.lists[PageLocal(p)] else s.m.lists[h])
            && m.lists[PageLocal(p)] == (if s.m.lists[h] == [] then [] else s.m.lists[PageLocal(p)])
  {
    hide Ok; hide Known; hide PushersOk; hide ListsOk; hide PagesOk;
  }

  // ----- a block of a full page comes back -----

  lemma RunCons(s: State, a: Act, rest: seq<Act>)
    requires Enabled(s, a) && Runs(Step(s, a), rest)
    ensures Runs(s, [a] + rest) && After(s, [a] + rest) == After(Step(s, a), rest)
  {
    hide Enabled; hide Step;
    assert ([a] + rest)[1..] == rest && ([a] + rest)[0] == a;
  }

  lemma RunThree(s: State, a: Act, b: Act, c: Act)
    requires Enabled(s, a) && Enabled(Step(s, a), b) && Enabled(Step(Step(s, a), b), c)
    ensures Runs(s, [a, b, c]) && After(s, [a, b, c]) == Step(Step(Step(s, a), b), c)
  {
    hide Enabled; hide Step;
    RunCons(Step(Step(s, a), b), c, []);
    RunCons(Step(s, a), b, [c]);
    RunCons(s, a, [b, c]);
    assert [c] + [] == [c] && [b] + [c] == [b, c] && [a] + [b, c] == [a, b, c];
  }

  ghost predicate Ready(s: State, t: nat, b: Block) {
    && s.owner.Idle? && t != OWNER && t !in s.pushers && b in s.m.where && s.m.where[b] == User
    && b.page in s.pages && s.pages[b.page].full
  }

  /** Undisturbed, another thread gets the block onto the heap's shared list. */
  lemma FreesFull(s: State, t: nat, b: Block)
    requires Inv(s) && Ready(s, t, b)
    ensures var h := HeapThread(TypeOf(s.pages[b.page].class_));
            && Runs(s, [FreeStart(t, b), FreeLoad(t), FreeExchange(t)])
            && var r := After(s, [FreeStart(t, b), FreeLoad(t), FreeExchange(t)]);
               r.owner.Idle? && r.pages == s.pages && h in r.m.lists && Top(r.m.lists[h]) == Some(b)
  {
    hide After; hide Runs; hide Inv; hide Enabled; hide Step;
    var h := HeapThread(TypeOf(s.pages[b.page].class_));
    HeapListed(s, h.type_);
    Starts(s, t, b);
    var s1 := Step(s, FreeStart(t, b));
    Loads(s1, t, b, h);
    var s2 := Step(s1, FreeLoad(t));
    Exchanges(s2, t, b, h);
    RunThree(s, FreeStart(t, b), FreeLoad(t), FreeExchange(t));
  }

  lemma HeapListed(s: State, c: nat)
    requires Inv(s) && c <= 2
    ensures HeapThread(c) in s.m.lists && HeapThread(c) in s.m.head
  {
    hide Known; hide PushersOk; hide PagesOk; hide OwnerFits; hide Ok;
    HasHead(s.m, HeapThread(c));
  }

  lemma Starts(s: State, t: nat, b: Block)
    requires Ready(s, t, b)
    ensures Enabled(s, FreeStart(t, b))
    ensures var r := Step(s, FreeStart(t, b));
            && r.owner == s.owner && r.pages == s.pages && r.m.lists == s.m.lists && r.m.head == s.m.head
            && t in r.pushers && r.pushers[t] == Chosen(b, HeapThread(TypeOf(s.pages[b.page].class_)))
  {}

  lemma Loads(s: State, t: nat, b: Block, h: ListId)
    requires t in s.pushers && s.pushers[t] == Chosen(b, h) && h in s.m.head && h.HeapThread?
    ensures Enabled(s, FreeLoad(t))
    ensures var r := Step(s, FreeLoad(t));
            && r.owner == s.owner && r.pages == s.pages && r.m.lists == s.m.lists && r.m.head == s.m.head
            && t in r.pushers && r.pushers[t] == Loaded(b, h, Current(r, h))
  {}

  lemma Exchanges(s: State, t: nat, b: Block, h: ListId)
    requires h in s.m.head && h in s.m.lists && h.HeapThread? && b.page in s.pages
    requires t in s.pushers && s.pushers[t] == Loaded(b, h, Current(s, h))
    ensures Enabled(s, FreeExchange(t))
    ensures var r := Step(s, FreeExchange(t));
            r.owner == s.owner && r.pages == s.pages && h in r.m.lists && Top(r.m.lists[h]) == Some(b)
  {}

  /** Undisturbed, the owner takes that list and frees its first block. */
  lemma DrainsFull(s: State, c: nat, b: Block)
    requires Inv(s) && s.owner.Idle? && c <= 2 && HeapThread(c) in s.m.lists && Top(s.m.lists[HeapThread(c)]) == Some(b)
    requires b.page in s.pages && s.pages[b.page].full
    ensures Runs(s, [GrabLoad(c), GrabExchange, DrainOne])
    ensures var r := After(s, [GrabLoad(c), GrabExchange, DrainOne]);
            && b.page in r.pages && PageLocal(b.page) in r.m.lists && Top(r.m.lists[PageLocal(b.page)]) == Some(b)
            && !r.pages[b.page].full && r.pages[b.page].used == r.pages[b.page].count - 1
  {
    hide Inv; hide Enabled; hide Step; hide After; hide Runs;
    Grabs(s, c, b);
    StepInv(s, GrabLoad(c));
    var s1 := Step(s, GrabLoad(c));
    StepInv(s1, GrabExchange);
    Drains(Step(s1, GrabExchange), b);
    RunThree(s, GrabLoad(c), GrabExchange, DrainOne);
  }

  lemma Grabs(s: State, c: nat, b: Block)
    requires Inv(s) && s.owner.Idle? && c <= 2 && HeapThread(c) in s.m.lists && Top(s.m.lists[HeapThread(c)]) == Some(b)
    ensures Enabled(s, GrabLoad(c)) && Enabled(Step(s, GrabLoad(c)), GrabExchange)
    ensures var r := Step(Step(s, GrabLoad(c)), GrabExchange);
            r.owner.Draining? && r.pages == s.pages && Drained in r.m.lists && Top(r.m.lists[Drained]) == Some(b)
  {
    hide Known; hide PushersOk; hide Ok; hide PagesOk; hide OwnerFits; hide ListOk;
    HasHead(s.m, HeapThread(c));
    hide ListsOk;
  }

  lemma Drains(s: State, b: Block)
    requires Inv(s) && s.owner.Draining? && Drained in s.m.lists && Top(s.m.lists[Drained]) == Some(b)
    requires b.page in s.pages && s.pages[b.page].full
    ensures Enabled(s, DrainOne)
    ensures var r := Step(s, DrainOne);
            && b.page in r.pages && PageLocal(b.page) in r.m.lists && Top(r.m.lists[PageLocal(b.page)]) == Some(b)
            && !r.pages[b.page].full && r.pages[b.page].used == r.pages[b.page].count - 1
  {
    hide Known; hide PushersOk; hide Ok; hide OwnerFits;
    assert PageOk(s.m, s.pages[b.page], b.page);
    HasHead(s.m, PageLocal(b.page));
    OnNext(s, b);
    hide PagesOk; hide ListsOk;
  }

  lemma OnNext(s: State, b: Block)
    requires Inv(s) && Drained in s.m.lists && Top(s.m.lists[Drained]) == Some(b)
    ensures b in s.m.next
  {
    hide Known; hide PushersOk; hide PagesOk; hide OwnerFits;
    assert ListOk(s.m, Drained);
  }

  lemma {:induction false} RunsOn(s: State, acts: seq<Act>, more: seq<Act>)
    requires Runs(s, acts) && Runs(After(s, acts), more)
    ensures Runs(s, acts + more) && After(s, acts + more) == After(After(s, acts), more)
    decreases |acts|
  {
    hide Enabled; hide Step;
    if acts == [] {
      assert acts + more == more;
    } else {
      RunsOn(Step(s, acts[0]), acts[1..], more);
      RunCons(s, acts[0], acts[1..] + more);
      assert [acts[0]] + (acts[1..] + more) == acts + more;
    }
  }

  /** Whatever has happened: when another thread frees a block of a full page, three steps of it and three of the
      owner make the page available, with that block to be handed out next. */
  lemma ComesBack(acts: seq<Act>, t: nat, b: Block)
    requires Runs(Start(), acts) && Ready(After(Start(), acts), t, b)
    ensures var s := After(Start(), acts);
            var c := TypeOf(s.pages[b.page].class_);
            var more := [FreeStart(t, b), FreeLoad(t), FreeExchange(t)] + [GrabLoad(c), GrabExchange, DrainOne];
            && Runs(s, more)
            && var r := After(s, more);
               && b.page in r.pages && !r.pages[b.page].full && r.pages[b.page].used == r.pages[b.page].count - 1
               && PageLocal(b.page) in r.m.lists && Top(r.m.lists[PageLocal(b.page)]) == Some(b)
  {
    hide Inv; hide Enabled; hide Step; hide After; hide Runs; hide Ready;
    StartInv();
    RunInv(Start(), acts);
    Returns(After(Start(), acts), t, b);
  }

  lemma Returns(s: State, t: nat, b: Block)
    requires Inv(s) && Ready(s, t, b)
    ensures var c := TypeOf(s.pages[b.page].class_);
            var more := [FreeStart(t, b), FreeLoad(t), FreeExchange(t)] + [GrabLoad(c), GrabExchange, DrainOne];
            && Runs(s, more)
            && var r := After(s, more);
               && b.page in r.pages && !r.pages[b.page].full && r.pages[b.page].used == r.pages[b.page].count - 1
               && PageLocal(b.page) in r.m.lists && Top(r.m.lists[PageLocal(b.page)]) == Some(b)
  {
    hide Inv; hide Enabled; hide Step; hide After; hide Runs;
    var c := TypeOf(s.pages[b.page].class_);
    var first, then_ := [FreeStart(t, b), FreeLoad(t), FreeExchange(t)], [GrabLoad(c), GrabExchange, DrainOne];
    FreesFull(s, t, b);
    RunInv(s, first);
    DrainsFull(After(s, first), c, b);
    RunsOn(s, first, then_);
  }
}
