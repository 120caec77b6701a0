/** What a tracker of allocations has live and has matched after any run, and when exactly. */
module LeakRuns {
  import opened LostWindow

  /** `granted` when there is memory for the entry. */
  datatype Call = Alloc(ptr: int, size: nat, granted: bool) | Free(ptr: int)

  type Run = seq<Note<Call>>

  /** What is live, by address, and the allocation it comes from. */
  ghost function Live(h: Run): (live: map<int, nat>)
    ensures forall p :: p in live ==> live[p] < |h| && h[live[p]].Event? && h[live[p]].what.Alloc?
    decreases |h|, 0
  {
    if h == [] then map[]
    else
      var r := h[..|h| - 1];
      match h[|h| - 1]
      case Lose(_, _) => Live(r)
      case Event(t, Alloc(ptr, _, granted)) =>
        if Skim(Listed(r), t).drop || !granted then LiveAt(r, t) else LiveAt(r, t)[ptr := |r|]
      case Event(t, Free(ptr)) =>
        if Skim(Listed(r), t).drop then LiveAt(r, t) else LiveAt(r, t) - {ptr}
  }

  /** What of it an event at `t` finds. */
  ghost function LiveAt(r: Run, t: int): (live: map<int, nat>)
    ensures forall p :: p in live ==> live[p] < |r| && r[live[p]].Event? && r[live[p]].what.Alloc?
    decreases |r|, 1
  {
    if Skim(Listed(r), t).clear then map[] else Live(r)
  }

  ghost function Matches(h: Run): seq<Match> {
    if h == [] then []
    else
      var r := h[..|h| - 1];
      Matches(r) + match h[|h| - 1]
                   case Event(t, Free(ptr)) =>
                     if Skim(Listed(r), t).drop || ptr !in LiveAt(r, t) then []
                     else [Match(LiveAt(r, t)[ptr], |r|)]
                   case _ => []
  }

  lemma AfterLose(r: Run, start: int, end: int)
    ensures var h := r + [Lose(start, end)];
            && (Ordered(r) ==> Ordered(h)) && Listed(h) == Enlist(Listed(r), Window(start, end, false))
            && Live(h) == Live(r) && Matches(h) == Matches(r)
  {
    var h := r + [Lose(start, end)];
    assert h[..|h| - 1] == r;
  }

  lemma AfterEvent(r: Run, x: Note<Call>)
    requires x.Event?
    ensures var h, v, live := r + [x], Skim(Listed(r), x.time), LiveAt(r, x.time);
            && Listed(h) == v.ws
            && Live(h) == (if v.drop then live
                           else match x.what
                                case Alloc(ptr, _, granted) => if granted then live[ptr := |r|] else live
                                case Free(ptr) => live - {ptr})
            && Matches(h) == Matches(r) + (if !v.drop && x.what.Free? && x.what.ptr in live
                                           then [Match(live[x.what.ptr], |r|)] else [])
  {
    hide Skim; hide LiveAt;
    var h := r + [x];
    assert h[..|h| - 1] == r && h[|h| - 1] == x;
  }

  // ----- the same without the tracker -----

  predicate Starts(x: Note<Call>, ptr: int) { x.Event? && x.what.Alloc? && x.what.granted && x.what.ptr == ptr }

  predicate Ends(x: Note<Call>, ptr: int) { x.Event? && x.what.Free? && x.what.ptr == ptr }

  predicate Touches(x: Note<Call>, ptr: int) { Starts(x, ptr) || Ends(x, ptr) }

  /** Allocation `i` of `ptr`, outside every window, nothing since at that address and no window begun. */
  predicate IsLive(h: Run, ptr: int, i: nat) {
    && i < |h| && Starts(h[i], ptr) && Survives(h, i)
    && forall m :: i < m < |h| ==> !Touches(h[m], ptr)
  }

  /** Free `j` of what allocation `i` got, nothing at that address between, and no window between. */
  predicate IsMatch(h: Run, i: nat, j: nat) {
    && i < j < |h| && h[j].Event? && h[j].what.Free? && Starts(h[i], h[j].what.ptr)
    && (forall m :: i < m < j ==> !Touches(h[m], h[j].what.ptr))
    && Through(h, i, j)
  }

  /** An event that goes on with what is live. */
  lemma LiveStep(r: Run, x: Note<Call>, ptr: int, i: nat)
    requires x.Event? && Ordered(r + [x]) && i < |r|
    ensures var v := Skim(Listed(r), x.time);
            && (IsLive(r + [x], ptr, i) <==> IsLive(r, ptr, i) && !v.clear && !Touches(x, ptr))
            && (v.drop ==> !IsLive(r + [x], ptr, i) && (!IsLive(r, ptr, i) || v.clear))
  {
    var h := r + [x];
    EventKeeps(r, x);
    hide Survives; hide Skim; hide Ordered;
    assert forall m :: 0 <= m < |r| ==> h[m] == r[m];
    assert IsLive(h, ptr, i) ==> !Touches(h[|r|], ptr);
  }

  lemma LoseStep(r: Run, x: Note<Call>, ptr: int, i: nat)
    requires x.Lose? && i < |r|
    ensures IsLive(r + [x], ptr, i) <==> IsLive(r, ptr, i)
  {
    SurvivesLater(r, x, i);
    hide Survives;
    assert forall m :: 0 <= m < |r| ==> (r + [x])[m] == r[m];
  }

  lemma NewOne(r: Run, x: Note<Call>, p: int)
    requires Ordered(r + [x])
    ensures IsLive(r + [x], p, |r|) <==> Starts(x, p) && !Skim(Listed(r), x.time).drop
  {
    if x.Event? { EventKeeps(r, x); }
  }

  ghost predicate LiveIs(live: map<int, nat>, h: Run) {
    forall p, i: nat :: (p in live && live[p] == i) <==> IsLive(h, p, i)
  }

  /** What is live after any run is what was allocated outside the windows and neither freed, nor allocated
      again, nor separated from the last event by a window. */
  lemma {:induction false} LiveExactly(h: Run)
    requires Ordered(h)
    ensures LiveIs(Live(h), h)
  {
    if h == [] { return; }
    var r, x := h[..|h| - 1], h[|h| - 1];
    assert h == r + [x];
    OrderedPrefix(r, x);
    LiveExactly(r);
    forall p, i: nat ensures (p in Live(h) && Live(h)[p] == i) <==> IsLive(h, p, i) { LiveOne(r, x, p, i); }
  }

  lemma LiveOne(r: Run, x: Note<Call>, p: int, i: nat)
    requires Ordered(r + [x]) && LiveIs(Live(r), r)
    ensures (p in Live(r + [x]) && Live(r + [x])[p] == i) <==> IsLive(r + [x], p, i)
  {
    var h := r + [x];
    assert h[..|h| - 1] == r && h[|h| - 1] == x;
    assert (p in Live(r) && Live(r)[p] == i) <==> IsLive(r, p, i);
    if i == |r| { NewOne(r, x, p); }
    else if i > |r| { }
    else if x.Lose? { LoseStep(r, x, p, i); }
    else { LiveStep(r, x, p, i); hide IsLive; hide Skim; hide Listed; }
  }

  lemma MatchLater(r: Run, x: Note<Call>, i: nat, j: nat)
    requires j < |r|
    ensures IsMatch(r + [x], i, j) <==> IsMatch(r, i, j)
  {
    if i < j && r[i].Event? && r[j].Event? { Earlier(r, x, i, j); }
    hide Through;
    assert forall m :: 0 <= m < |r| ==> (r + [x])[m] == r[m];
  }

  lemma MatchLast(r: Run, x: Note<Call>, i: nat)
    requires x.Event? && x.what.Free? && Ordered(r + [x]) && i < |r|
    ensures IsMatch(r + [x], i, |r|) <==> IsLive(r, x.what.ptr, i) && !Skim(Listed(r), x.time).clear
    ensures IsMatch(r + [x], i, |r|) ==> !Skim(Listed(r), x.time).drop
  {
    EventKeeps(r, x);
    if r[i].Event? { LastDecides(r + [x], i); }
    hide Survives; hide Skim; hide Ordered; hide Through;
    assert forall m :: 0 <= m < |r| ==> (r + [x])[m] == r[m];
  }

  /** A free is matched with an allocation exactly when they are of the same address, nothing happened at it
      between them, and no window of lost events told by then reaches between them; and at most once. */
  lemma {:induction false} MatchesExactly(h: Run)
    requires Ordered(h)
    ensures forall i: nat, j: nat :: Match(i, j) in Matches(h) <==> IsMatch(h, i, j)
    ensures forall a, b :: 0 <= a < b < |Matches(h)| ==> Matches(h)[a].second < Matches(h)[b].second
  {
    if h == [] { return; }
    var r, x := h[..|h| - 1], h[|h| - 1];
    assert h == r + [x];
    OrderedPrefix(r, x);
    LiveExactly(r);
    MatchesExactly(r);
    forall i: nat, j: nat ensures Match(i, j) in Matches(h) <==> IsMatch(h, i, j) { MatchOne(r, x, i, j); }
    MatchesBelow(r);
  }

  lemma MatchOne(r: Run, x: Note<Call>, i: nat, j: nat)
    requires Ordered(r + [x]) && LiveIs(Live(r), r)
    requires forall i: nat, j: nat :: Match(i, j) in Matches(r) <==> IsMatch(r, i, j)
    ensures Match(i, j) in Matches(r + [x]) <==> IsMatch(r + [x], i, j)
  {
    var h := r + [x];
    assert h[..|h| - 1] == r && h[|h| - 1] == x;
    MatchesBelow(r);
    assert Match(i, j) in Matches(r) <==> IsMatch(r, i, j);
    if j < |r| { MatchLater(r, x, i, j); hide IsMatch; hide Skim; }
    else if j == |r| && x.Event? && x.what.Free? && i < j {
      MatchLast(r, x, i);
      LiveStep(r, x, x.what.ptr, i);
      assert (x.what.ptr in Live(r) && Live(r)[x.what.ptr] == i) <==> IsLive(r, x.what.ptr, i);
      hide IsMatch; hide IsLive; hide Skim;
    }
  }

  lemma {:induction false} MatchesBelow(h: Run)
    ensures forall m :: m in Matches(h) ==> m.second < |h|
  {
    if h != [] { MatchesBelow(h[..|h| - 1]); }
  }

  // ----- counters -----

  /** Event `i` is let through. */
  predicate Passes(h: Run, i: nat) { i < |h| && h[i].Event? && !Inside(h, i) }

  /** Allocations and frees let through. */
  ghost function Allocs(h: Run): set<nat> {
    set i: nat | i < |h| && h[i].Event? && h[i].what.Alloc? && h[i].what.granted && Passes(h, i)
  }

  ghost function Frees(h: Run): set<nat> {
    set i: nat | i < |h| && h[i].Event? && h[i].what.Free? && Passes(h, i)
  }

  lemma CountOne(r: Run, x: Note<Call>)
    requires Ordered(r + [x])
    ensures |Allocs(r + [x])| == |Allocs(r)| +
            if x.Event? && x.what.Alloc? && x.what.granted && !Skim(Listed(r), x.time).drop then 1 else 0
    ensures |Frees(r + [x])| == |Frees(r)| +
            if x.Event? && x.what.Free? && !Skim(Listed(r), x.time).drop then 1 else 0
  {
    hide Allocs; hide Frees; hide Passes; hide Ordered; hide Skim;
    PassesSame(r, x);
    AllocsMore(r, x);
    FreesMore(r, x);
  }

  lemma AllocsMore(r: Run, x: Note<Call>)
    requires forall i: nat :: i < |r| ==> (Passes(r + [x], i) <==> Passes(r, i))
    ensures |r| !in Allocs(r)
    ensures Allocs(r + [x]) == Allocs(r) +
            if x.Event? && x.what.Alloc? && x.what.granted && Passes(r + [x], |r|) then {|r|} else {}
  {
    hide Passes;
    var more := x.Event? && x.what.Alloc? && x.what.granted && Passes(r + [x], |r|);
    forall i: nat ensures i in Allocs(r + [x]) <==> i in Allocs(r) || (i == |r| && more) { }
  }

  lemma FreesMore(r: Run, x: Note<Call>)
    requires forall i: nat :: i < |r| ==> (Passes(r + [x], i) <==> Passes(r, i))
    ensures |r| !in Frees(r)
    ensures Frees(r + [x]) == Frees(r) + if x.Event? && x.what.Free? && Passes(r + [x], |r|) then {|r|} else {}
  {
    hide Passes;
    var more := x.Event? && x.what.Free? && Passes(r + [x], |r|);
    forall i: nat ensures i in Frees(r + [x]) <==> i in Frees(r) || (i == |r| && more) { }
  }

  lemma PassesSame(r: Run, x: Note<Call>)
    requires Ordered(r + [x])
    ensures x.Event? ==> (Passes(r + [x], |r|) <==> !Skim(Listed(r), x.time).drop)
    ensures forall i: nat :: i < |r| ==> (Passes(r + [x], i) <==> Passes(r, i))
  {
    if x.Event? { EventKeeps(r, x); }
    forall i: nat | i < |r| && r[i].Event? ensures Inside(r + [x], i) <==> Inside(r, i) { Earlier(r, x, i, i); }
  }

  // ----- no match across a window -----

  lemma MatchesAreEvents(h: Run)
    requires Ordered(h)
    ensures forall m :: m in Matches(h) ==> m.first < m.second < |h| && h[m.first].Event? && h[m.second].Event?
  {
    hide Matches; hide Through; hide Touches; hide Ordered;
    forall m | m in Matches(h) ensures m.first < m.second < |h| && h[m.first].Event? && h[m.second].Event? {
      MatchesExactly(h);
      assert Match(m.first, m.second) == m && IsMatch(h, m.first, m.second);
    }
  }

  /** Every match is apart from every window told before the free, and from every timely one. */
  lemma NoneAcross(h: Run, m: Match, k: nat)
    requires Ordered(h) && m in Matches(h) && k < |h| && h[k].Lose? && (k < m.second || Timely(h, k))
    ensures m.first < m.second < |h| && h[m.first].Event? && h[m.second].Event?
    ensures Apart(h[k].start, h[k].end, PairOf(h, m))
  {
    hide Matches; hide Through; hide Ordered; hide Touches;
    MatchesExactly(h);
    assert Match(m.first, m.second) == m && IsMatch(h, m.first, m.second);
    MatchApart(h, m, k);
  }

  /** What is live lies outside every window told before it, every timely one, and every one followed by an
      event. */
  lemma LiveOutside(h: Run, p: int, k: nat)
    requires Ordered(h) && p in Live(h) && k < |h| && h[k].Lose?
    requires k < Live(h)[p] || Timely(h, k) || exists m :: k < m < |h| && h[m].Event?
    ensures h[Live(h)[p]].time <= h[k].start || h[k].end <= h[Live(h)[p]].time
  {
    hide Live; hide LiveAt; hide Survives; hide Ordered;
    LiveExactly(h);
    assert IsLive(h, p, Live(h)[p]);
    KeptApart(h, Live(h)[p], k);
  }

  // ----- the run theorem -----

  /** Matched are exactly the pairs that should be, and live what should be. */
  ghost predicate Right(h: Run, matches: seq<Match>, live: set<int>) {
    && (forall i: nat, j: nat :: Match(i, j) in matches <==> IsMatch(h, i, j))
    && (forall p :: p in live <==> exists i: nat :: IsLive(h, p, i))
  }

  lemma RunRight(h: Run)
    requires Ordered(h)
    ensures Right(h, Matches(h), Live(h).Keys) && NoSpan(h, Matches(h))
  {
    hide IsMatch; hide IsLive; hide Ordered; hide Timely; hide Apart; hide Matches; hide Live;
    MatchesExactly(h);
    LiveExactly(h);
    forall p ensures p in Live(h) <==> exists i: nat :: IsLive(h, p, i) {
      if p in Live(h) { assert IsLive(h, p, Live(h)[p]); }
    }
    forall m, k: nat | m in Matches(h) && k < |h| && h[k].Lose? && (k < m.second || Timely(h, k))
      ensures Clear(h, m, k)
    { NoneAcross(h, m, k); }
  }

  /** A window told after the free, and after its own start, comes too late. */
  lemma LateWindow()
    ensures var h := [Event(5, Alloc(1, 8, true)), Event(30, Free(1)), Lose(10, 20)];
            Ordered(h) && Match(0, 1) in Matches(h) && !Apart(10, 20, PairOf(h, Match(0, 1)))
  {
    var h := [Event(5, Alloc(1, 8, true)), Event(30, Free(1)), Lose(10, 20)];
    MatchesExactly(h);
    assert IsMatch(h, 0, 1);
  }
}
