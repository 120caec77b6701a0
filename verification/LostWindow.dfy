/** Periods in which events were lost: pairs of events must not reach across one. */
module LostWindow {

  datatype Window = Window(start: int, end: int, reclaim: bool)

  /** Times of two matched events. */
  datatype Pair = Pair(first: int, second: int)

  /** Wholly before the window or wholly after it. */
  predicate Apart(start: int, end: int, p: Pair) { p.second <= start || end <= p.first }

  // ----- the list of windows -----

  predicate Sorted(ws: seq<Window>) { forall i, j :: 0 <= i < j < |ws| ==> ws[i].start <= ws[j].start }

  /** A new window goes behind those that do not start later. */
  function Enlist(ws: seq<Window>, w: Window): (r: seq<Window>)
    ensures forall x :: x in r <==> x in ws || x == w
  {
    if ws == [] || ws[0].start > w.start then [w] + ws else [ws[0]] + Enlist(ws[1..], w)
  }

  lemma {:induction false} EnlistSorted(ws: seq<Window>, w: Window)
    requires Sorted(ws)
    ensures Sorted(Enlist(ws, w))
  {
    if ws != [] && ws[0].start <= w.start {
      EnlistSorted(ws[1..], w);
      var r := Enlist(ws[1..], w);
      forall x | x in r ensures ws[0].start <= x.start { assert x in ws[1..] || x == w; }
      Front(ws[0], r);
    }
  }

  lemma Front(w: Window, r: seq<Window>)
    requires Sorted(r) && forall x :: x in r ==> w.start <= x.start
    ensures Sorted([w] + r)
  {
    forall i, j | 0 <= i < j < |[w] + r| ensures ([w] + r)[i].start <= ([w] + r)[j].start {
      assert ([w] + r)[j] == r[j - 1] && r[j - 1] in r;
    }
  }

  // ----- an event meets the windows -----

  /** What is left of the list, whether everything tracked is thrown away, whether the event is dropped. */
  datatype Verdict = Verdict(ws: seq<Window>, clear: bool, drop: bool)

  function Skim(ws: seq<Window>, t: int): Verdict {
    if ws == [] || t <= ws[0].start then Verdict(ws, false, false)
    else if t < ws[0].end then Verdict([ws[0].(reclaim := true)] + ws[1..], !ws[0].reclaim, true)
    else
      var v := Skim(ws[1..], t);
      Verdict(v.ws, !ws[0].reclaim || v.clear, v.drop)
  }

  /** Nothing happens before the first start. */
  lemma SkimEarly(ws: seq<Window>, t: int)
    requires forall w :: w in ws ==> t <= w.start
    ensures Skim(ws, t) == Verdict(ws, false, false)
  {
    if ws != [] { assert ws[0] in ws; }
  }

  lemma SkimClears(ws: seq<Window>, t: int, w: Window)
    requires Sorted(ws) && w in ws && w.start < t && forall x :: x in ws ==> !x.reclaim
    ensures Skim(ws, t).clear
  {
    assert ws[0] in ws;
    var j :| 0 <= j < |ws| && ws[j] == w;
    assert j == 0 || ws[0].start <= ws[j].start;
  }

  /** An event is dropped exactly inside a window of the list, and otherwise only later windows stay. */
  lemma {:induction false} SkimDrops(ws: seq<Window>, t: int)
    requires Sorted(ws)
    ensures Skim(ws, t).drop <==> exists w :: w in ws && w.start < t < w.end
    ensures !Skim(ws, t).drop ==> forall w :: w in Skim(ws, t).ws ==> t <= w.start
    ensures Sorted(Skim(ws, t).ws)
    decreases |ws|
  {
    if ws == [] {
    } else if t <= ws[0].start {
      forall w | w in ws ensures t <= w.start { }
    } else if t < ws[0].end {
      assert ws[0] in ws;
      var r := Skim(ws, t).ws;
      forall i, j | 0 <= i < j < |r| ensures r[i].start <= r[j].start { assert r[j] == ws[j]; }
    } else {
      SkimDrops(ws[1..], t);
      assert forall w :: w in ws <==> w == ws[0] || w in ws[1..];
    }
  }

  /** Where the windows of the new list come from, and what becomes of the old ones. */
  lemma {:induction false} SkimParts(ws: seq<Window>, t: int)
    ensures forall w :: w in Skim(ws, t).ws ==>
              w in ws || (w.reclaim && w.start < t && (w in ws || w.(reclaim := false) in ws))
    ensures forall w :: w in ws ==> (w.start < t && w.end <= t) || w in Skim(ws, t).ws ||
                                    w.(reclaim := true) in Skim(ws, t).ws
    decreases |ws|
  {
    if ws == [] || t <= ws[0].start {
    } else if t < ws[0].end {
      var r := Skim(ws, t).ws;
      assert r[0] == ws[0].(reclaim := true) && ws[0] in ws && r[0] in r;
      assert !ws[0].reclaim ==> r[0].(reclaim := false) == ws[0];
      assert forall w :: w in r ==> w == r[0] || w in ws[1..];
      assert forall w :: w in ws ==> w == ws[0] || w in r;
    } else {
      SkimParts(ws[1..], t);
      assert forall w :: w in ws <==> w == ws[0] || w in ws[1..];
    }
  }

  // ----- runs -----

  /** What a tracker is told: a window of lost events, or an event, its time and what it says. */
  datatype Note<T> = Lose(start: int, end: int) | Event(time: int, what: T)

  /** Events come in the order of time. Windows may be told at any moment. */
  predicate Ordered<T>(h: seq<Note<T>>) {
    forall i, j :: 0 <= i < j < |h| && h[i].Event? && h[j].Event? ==> h[i].time <= h[j].time
  }

  /** No event of `h` is later than `t`. */
  predicate Upto<T>(h: seq<Note<T>>, t: int) { forall i :: 0 <= i < |h| && h[i].Event? ==> h[i].time <= t }

  /** The windows listed after `h`. */
  function Listed<T>(h: seq<Note<T>>): seq<Window> {
    if h == [] then []
    else
      var ws := Listed(h[..|h| - 1]);
      match h[|h| - 1]
      case Lose(start, end) => Enlist(ws, Window(start, end, false))
      case Event(t, _) => Skim(ws, t).ws
  }

  /** The events let through since everything tracked was last thrown away. */
  ghost function Kept<T>(h: seq<Note<T>>): set<nat> {
    if h == [] then {}
    else
      var r := h[..|h| - 1];
      match h[|h| - 1]
      case Lose(_, _) => Kept(r)
      case Event(t, _) =>
        var v := Skim(Listed(r), t);
        (if v.clear then {} else Kept(r)) + if v.drop then {} else {|r|}
  }

  // ----- the same, said of the notes alone -----

  /** Event `i` lies inside a window told before. */
  predicate Inside<T>(h: seq<Note<T>>, i: nat)
    requires i < |h| && h[i].Event?
  {
    exists k :: 0 <= k < i && h[k].Lose? && h[k].start < h[i].time < h[k].end
  }

  /** Window `k` was told and over when event `i` came. */
  predicate Behind<T>(h: seq<Note<T>>, k: nat, i: nat)
    requires k < |h| && h[k].Lose? && i < |h| && h[i].Event?
  {
    k < i && h[k].start < h[i].time && h[k].end <= h[i].time
  }

  /** At event `m` no window told so far has begun since event `i`. */
  predicate Through<T>(h: seq<Note<T>>, i: nat, m: nat)
    requires i < |h| && h[i].Event? && m < |h| && h[m].Event?
  {
    forall k :: 0 <= k < m && h[k].Lose? ==> h[m].time <= h[k].start || Behind(h, k, i)
  }

  /** Event `i` is let through and no window has begun since. */
  predicate Survives<T>(h: seq<Note<T>>, i: nat) {
    && i < |h| && h[i].Event? && !Inside(h, i)
    && forall m :: i < m < |h| && h[m].Event? ==> Through(h, i, m)
  }

  /** The later event decides. */
  lemma ThroughEarlier<T>(h: seq<Note<T>>, i: nat, m: nat, j: nat)
    requires Ordered(h) && i < m < j < |h| && h[i].Event? && h[m].Event? && h[j].Event? && Through(h, i, j)
    ensures Through(h, i, m)
  {}

  /** Events with no window between them are inside none. */
  lemma ThroughOutside<T>(h: seq<Note<T>>, i: nat, j: nat)
    requires Ordered(h) && i < j < |h| && h[i].Event? && h[j].Event? && Through(h, i, j)
    ensures !Inside(h, i) && !Inside(h, j)
  {}

  /** That is: `i` is inside no window, and every window told by `m` starts before `i` and was known to it, or
      starts no earlier than `m`. */
  lemma ThroughSays<T>(h: seq<Note<T>>, i: nat, m: nat)
    requires Ordered(h) && i < m < |h| && h[i].Event? && h[m].Event?
    ensures Through(h, i, m) <==>
            !Inside(h, i) && forall k :: 0 <= k < m && h[k].Lose? ==>
              h[m].time <= h[k].start || (k < i && h[k].start < h[i].time)
  {
    if Through(h, i, m) { ThroughOutside(h, i, m); }
  }

  // ----- what the list stands for -----

  predicate IsNote<T>(h: seq<Note<T>>, k: nat, w: Window) { k < |h| && h[k] == Lose(w.start, w.end) }

  /** Window `k` ended before some later event. */
  predicate Over<T>(h: seq<Note<T>>, k: nat)
    requires k < |h| && h[k].Lose?
  {
    exists m :: k < m < |h| && h[m].Event? && Behind(h, k, m)
  }

  predicate InList<T>(x: Note<T>, ws: seq<Window>)
    requires x.Lose?
  {
    Window(x.start, x.end, false) in ws || Window(x.start, x.end, true) in ws
  }

  predicate Begun<T>(h: seq<Note<T>>, w: Window) { exists m :: 0 <= m < |h| && h[m].Event? && w.start < h[m].time }

  /** The list holds the windows told that are not over; those marked have begun. */
  ghost predicate Sound<T>(h: seq<Note<T>>, ws: seq<Window>) {
    && Sorted(ws)
    && (forall w :: w in ws && w.reclaim ==> Begun(h, w))
    && (forall w :: w in ws ==> exists k: nat :: IsNote(h, k, w))
    && (forall k :: 0 <= k < |h| && h[k].Lose? ==> Over(h, k) || InList(h[k], ws))
  }

  /** While event `i` is kept the list holds, unmarked, the windows told that were not over at `i`. */
  ghost predicate Since<T>(h: seq<Note<T>>, ws: seq<Window>, i: nat) {
    && i < |h| && h[i].Event?
    && (forall w :: w in ws ==> !w.reclaim && exists k: nat :: IsNote(h, k, w) && !Behind(h, k, i))
    && (forall k :: 0 <= k < |h| && h[k].Lose? ==> Behind(h, k, i) || Window(h[k].start, h[k].end, false) in ws)
  }

  lemma LoseSound<T>(h: seq<Note<T>>, ws: seq<Window>, start: int, end: int)
    requires Sound(h, ws)
    ensures Sound(h + [Lose(start, end)], Enlist(ws, Window(start, end, false)))
  {
    var g := h + [Lose(start, end)];
    var w0 := Window(start, end, false);
    EnlistSorted(ws, w0);
    forall w | w in Enlist(ws, w0) && w.reclaim ensures Begun(g, w) {
      var m :| 0 <= m < |h| && h[m].Event? && w.start < h[m].time;
      assert g[m] == h[m];
    }
    forall w | w in Enlist(ws, w0) ensures exists k: nat :: IsNote(g, k, w) {
      if w == w0 { assert IsNote(g, |h|, w); }
      else { var k: nat :| IsNote(h, k, w); assert IsNote(g, k, w); }
    }
    forall k | 0 <= k < |g| && g[k].Lose? ensures Over(g, k) || InList(g[k], Enlist(ws, w0)) {
      if k < |h| && Over(h, k) { OverLater(h, Lose(start, end), k); }
    }
  }

  lemma OverLater<T>(h: seq<Note<T>>, x: Note<T>, k: nat)
    requires k < |h| && h[k].Lose? && Over(h, k)
    ensures Over(h + [x], k)
  {
    var m :| k < m < |h| && h[m].Event? && Behind(h, k, m);
    assert (h + [x])[m] == h[m] && Behind(h + [x], k, m);
  }

  lemma EventSound<T>(h: seq<Note<T>>, ws: seq<Window>, x: Note<T>)
    requires x.Event? && Sound(h, ws)
    ensures Sound(h + [x], Skim(ws, x.time).ws)
  {
    var g := h + [x];
    var r := Skim(ws, x.time).ws;
    SkimDrops(ws, x.time);
    SkimParts(ws, x.time);
    forall w | w in r && w.reclaim ensures Begun(g, w) {
      if w in ws {
        var m :| 0 <= m < |h| && h[m].Event? && w.start < h[m].time;
        assert g[m] == h[m];
      } else { assert g[|h|] == x; }
    }
    forall w | w in r ensures exists k: nat :: IsNote(g, k, w) {
      var k: nat :| IsNote(h, k, if w in ws then w else w.(reclaim := false));
      assert IsNote(g, k, w);
    }
    forall k | 0 <= k < |g| && g[k].Lose? ensures Over(g, k) || InList(g[k], r) {
      if Over(h, k) { OverLater(h, x, k); }
      else if g[k].start < x.time && g[k].end <= x.time { assert Behind(g, k, |h|); }
    }
  }

  /** An event is dropped exactly when it lies inside a window told before. */
  lemma DropIffInside<T>(h: seq<Note<T>>, ws: seq<Window>, x: Note<T>)
    requires x.Event? && Sound(h, ws) && Upto(h, x.time)
    ensures Skim(ws, x.time).drop <==> Inside(h + [x], |h|)
  {
    var g := h + [x];
    SkimDrops(ws, x.time);
    if Skim(ws, x.time).drop {
      var w :| w in ws && w.start < x.time < w.end;
      var k: nat :| IsNote(h, k, w);
      assert g[k] == h[k];
    }
    if Inside(g, |h|) {
      var k :| 0 <= k < |h| && g[k].Lose? && g[k].start < x.time < g[k].end;
      assert g[k] == h[k] && !Over(h, k) && InList(h[k], ws);
    }
  }

  /** An event let through: only unmarked windows are left, and those not in the list are behind it. */
  lemma SinceSelf<T>(h: seq<Note<T>>, ws: seq<Window>, x: Note<T>)
    requires x.Event? && Sound(h, ws) && Upto(h, x.time) && !Skim(ws, x.time).drop
    ensures Since(h + [x], Skim(ws, x.time).ws, |h|)
  {
    var g := h + [x];
    var r := Skim(ws, x.time).ws;
    SkimDrops(ws, x.time);
    EventSound(h, ws, x);
    assert Upto(g, x.time);
    forall w | w in r ensures !w.reclaim && exists k: nat :: IsNote(g, k, w) && !Behind(g, k, |h|) {
      var k: nat :| IsNote(g, k, w);
    }
    forall k | 0 <= k < |g| && g[k].Lose? ensures Behind(g, k, |h|) || Window(g[k].start, g[k].end, false) in r {
      if Over(g, k) {
        var m :| k < m < |g| && g[m].Event? && Behind(g, k, m);
        assert Behind(g, k, |h|);
      } else { assert InList(g[k], r); }
    }
  }

  /** Everything is thrown away exactly when a window has begun since `i`, and else the list stays. */
  lemma ClearIffBegun<T>(h: seq<Note<T>>, ws: seq<Window>, i: nat, x: Note<T>)
    requires x.Event? && Sorted(ws) && Since(h, ws, i) && Upto(h, x.time)
    ensures Skim(ws, x.time).clear <==> !Through(h + [x], i, |h|)
    ensures !Skim(ws, x.time).clear ==> Skim(ws, x.time) == Verdict(ws, false, false) && Since(h + [x], ws, i)
  {
    var g := h + [x];
    if Through(g, i, |h|) {
      forall w | w in ws ensures x.time <= w.start {
        var k: nat :| IsNote(h, k, w) && !Behind(h, k, i);
        assert g[k] == h[k] && !Behind(g, k, i);
      }
      SkimEarly(ws, x.time);
      SinceLater(h, ws, i, x);
    } else {
      var k :| 0 <= k < |h| && g[k].Lose? && !(x.time <= g[k].start || Behind(g, k, i));
      assert g[k] == h[k] && !Behind(h, k, i);
      SkimClears(ws, x.time, Window(h[k].start, h[k].end, false));
    }
  }

  lemma SinceLater<T>(h: seq<Note<T>>, ws: seq<Window>, i: nat, x: Note<T>)
    requires Since(h, ws, i)
    ensures x.Event? ==> Since(h + [x], ws, i)
    ensures x.Lose? ==> Since(h + [x], Enlist(ws, Window(x.start, x.end, false)), i)
  {
    var g := h + [x];
    forall w | w in ws ensures exists k: nat :: IsNote(g, k, w) && !Behind(g, k, i) {
      var k: nat :| IsNote(h, k, w) && !Behind(h, k, i);
      assert IsNote(g, k, w) && !Behind(g, k, i);
    }
    forall k | 0 <= k < |h| && h[k].Lose? ensures Behind(g, k, i) || Window(h[k].start, h[k].end, false) in ws { }
    if x.Lose? { assert IsNote(g, |h|, Window(x.start, x.end, false)) && !Behind(g, |h|, i); }
  }

  // ----- the run theorem -----

  lemma SurvivesLater<T>(h: seq<Note<T>>, x: Note<T>, i: nat)
    requires i < |h|
    ensures Survives(h + [x], i) <==> Survives(h, i) && (x.Event? ==> Through(h + [x], i, |h|))
  {
    var g := h + [x];
    if h[i].Event? {
      Earlier(h, x, i, i);
      forall m | i < m < |h| && h[m].Event? ensures Through(g, i, m) <==> Through(h, i, m) { Earlier(h, x, i, m); }
      if Survives(g, i) {
        forall m | i < m < |h| && h[m].Event? ensures Through(h, i, m) { assert g[m] == h[m] && Through(g, i, m); }
      }
    }
  }

  /** Whatever the notes: the list is sound, and what is kept are exactly the events outside every window told
      before them with no window begun since. */
  lemma {:induction false} KeptExactly<T>(h: seq<Note<T>>)
    requires Ordered(h)
    ensures Sound(h, Listed(h))
    ensures forall i: nat :: i in Kept(h) <==> Survives(h, i)
    ensures forall i: nat :: i in Kept(h) ==> Since(h, Listed(h), i)
  {
    if h == [] { return; }
    var r, x := h[..|h| - 1], h[|h| - 1];
    assert h == r + [x];
    KeptExactly(r);
    if x.Lose? {
      LoseSound(r, Listed(r), x.start, x.end);
      forall i: nat ensures i in Kept(h) <==> Survives(h, i) { if i < |r| { SurvivesLater(r, x, i); } }
      forall i: nat | i in Kept(h) ensures Since(h, Listed(h), i) { SinceLater(r, Listed(r), i, x); }
    } else {
      KeptEvent(r, x);
    }
  }

  lemma OrderedLast<T>(r: seq<Note<T>>, x: Note<T>)
    requires x.Event?
    ensures Ordered(r + [x]) <==> Ordered(r) && Upto(r, x.time)
  {
    var h := r + [x];
    if Ordered(h) {
      forall i | 0 <= i < |r| && r[i].Event? ensures r[i].time <= x.time { assert h[i] == r[i] && h[|r|] == x; }
      forall i, j | 0 <= i < j < |r| && r[i].Event? && r[j].Event? ensures r[i].time <= r[j].time {
        assert h[i] == r[i] && h[j] == r[j];
      }
    }
  }

  lemma KeptEvent<T>(r: seq<Note<T>>, x: Note<T>)
    requires x.Event? && Ordered(r + [x]) && Sound(r, Listed(r))
    requires forall i: nat :: i in Kept(r) <==> Survives(r, i)
    requires forall i: nat :: i in Kept(r) ==> Since(r, Listed(r), i)
    ensures var h := r + [x];
            && Sound(h, Listed(h)) && (forall i: nat :: i in Kept(h) <==> Survives(h, i))
            && forall i: nat :: i in Kept(h) ==> Since(h, Listed(h), i)
  {
    var h := r + [x];
    assert h[..|h| - 1] == r;
    OrderedLast(r, x);
    var ws := Listed(r);
    EventSound(r, ws, x);
    DropIffInside(r, ws, x);
    forall i: nat ensures (i in Kept(h) <==> Survives(h, i)) && (i in Kept(h) ==> Since(h, Listed(h), i)) {
      if i < |r| {
        SurvivesLater(r, x, i);
        if i in Kept(r) { ClearIffBegun(r, ws, i, x); }
        else { KeptOld(r, i); }
      } else if i == |r| && !Skim(ws, x.time).drop {
        SinceSelf(r, ws, x);
      }
    }
  }

  lemma {:induction false} KeptOld<T>(h: seq<Note<T>>, i: nat)
    ensures i in Kept(h) ==> i < |h|
  {
    if h != [] { KeptOld(h[..|h| - 1], i); }
  }

  /** What one event does, said of the notes: it is dropped exactly inside a window, and what was kept before it
      stays exactly if nothing is thrown away, which is so whenever anything was kept and it is dropped. */
  lemma EventKeeps<T>(r: seq<Note<T>>, x: Note<T>)
    requires x.Event? && Ordered(r + [x])
    ensures var h, v := r + [x], Skim(Listed(r), x.time);
            && (v.drop <==> Inside(h, |r|)) && (Survives(h, |r|) <==> !v.drop)
            && (forall i: nat :: i < |r| ==> (Survives(h, i) <==> !v.clear && Survives(r, i)))
            && (v.drop ==> forall i: nat :: i < |r| ==> !Survives(h, i))
  {
    hide Sound; hide Since; hide Inside; hide Survives; hide Ordered; hide Skim;
    var h := r + [x];
    assert h[..|h| - 1] == r;
    OrderedLast(r, x);
    KeptExactly(r);
    KeptExactly(h);
    DropIffInside(r, Listed(r), x);
    KeptOld(r, |r|);
    forall i: nat | i < |r| && Survives(h, i) ensures !Inside(h, |r|) { KeptOutside(h, i); }
  }

  lemma KeptOutside<T>(h: seq<Note<T>>, i: nat)
    requires Ordered(h) && h != [] && h[|h| - 1].Event? && i < |h| - 1 && Survives(h, i)
    ensures !Inside(h, |h| - 1)
  {
    ThroughOutside(h, i, |h| - 1);
  }

  /** The last event decides what survives. */
  lemma LastDecides<T>(h: seq<Note<T>>, i: nat)
    requires Ordered(h) && h != [] && h[|h| - 1].Event? && i < |h| - 1 && h[i].Event?
    ensures Survives(h, i) <==> Through(h, i, |h| - 1)
  {
    if Through(h, i, |h| - 1) {
      ThroughOutside(h, i, |h| - 1);
      forall m | i < m < |h| && h[m].Event? ensures Through(h, i, m) {
        if m < |h| - 1 { ThroughEarlier(h, i, m, |h| - 1); }
      }
    }
  }

  /** Later notes change nothing between two events, nor whether one is inside a window. */
  lemma Earlier<T>(h: seq<Note<T>>, x: Note<T>, i: nat, j: nat)
    requires i < |h| && j < |h| && h[i].Event? && h[j].Event?
    ensures Through(h + [x], i, j) <==> Through(h, i, j)
    ensures Inside(h + [x], i) <==> Inside(h, i)
  {
    var g := h + [x];
    forall k | 0 <= k < |h| ensures g[k] == h[k] && (h[k].Lose? ==> Behind(g, k, i) == Behind(h, k, i)) { }
    if Through(g, i, j) {
      forall k | 0 <= k < j && h[k].Lose? ensures h[j].time <= h[k].start || Behind(h, k, i) { assert g[k] == h[k]; }
    }
    if Inside(g, i) { var k :| 0 <= k < i && g[k].Lose? && g[k].start < g[i].time < g[k].end; assert h[k] == g[k]; }
    if Inside(h, i) { var k :| 0 <= k < i && h[k].Lose? && h[k].start < h[i].time < h[k].end; assert h[k] == g[k]; }
  }

  lemma OrderedPrefix<T>(r: seq<Note<T>>, x: Note<T>)
    requires Ordered(r + [x])
    ensures Ordered(r)
  {
    forall i, j | 0 <= i < j < |r| && r[i].Event? && r[j].Event? ensures r[i].time <= r[j].time {
      assert (r + [x])[i] == r[i] && (r + [x])[j] == r[j];
    }
  }

  // ----- no match across a window -----

  /** Events by position: `second` was matched with `first`. */
  datatype Match = Match(first: nat, second: nat)

  function PairOf<T>(h: seq<Note<T>>, m: Match): Pair
    requires m.first < |h| && h[m.first].Event? && m.second < |h| && h[m.second].Event?
  {
    Pair(h[m.first].time, h[m.second].time)
  }

  /** Window `k` starts no earlier than any event before it was told. */
  predicate Timely<T>(h: seq<Note<T>>, k: nat)
    requires k < |h| && h[k].Lose?
  {
    forall m :: 0 <= m < k && h[m].Event? ==> h[m].time <= h[k].start
  }

  /** Two events with no window between them are apart from every window told before the second, and from every
      timely one. */
  lemma MatchApart<T>(h: seq<Note<T>>, m: Match, k: nat)
    requires Ordered(h) && m.first < m.second < |h| && h[m.first].Event? && h[m.second].Event?
    requires Through(h, m.first, m.second) && k < |h| && h[k].Lose? && (k < m.second || Timely(h, k))
    ensures Apart(h[k].start, h[k].end, PairOf(h, m))
  {}

  /** Match `m` is of two events apart from window `k`. */
  predicate Clear<T>(h: seq<Note<T>>, m: Match, k: nat)
    requires k < |h| && h[k].Lose?
  {
    && m.first < m.second < |h| && h[m.first].Event? && h[m.second].Event?
    && Apart(h[k].start, h[k].end, PairOf(h, m))
  }

  /** No match reaches across a window told before its second event, or a timely one. */
  ghost predicate NoSpan<T>(h: seq<Note<T>>, matches: seq<Match>) {
    forall m, k: nat :: m in matches && k < |h| && h[k].Lose? && (k < m.second || Timely(h, k)) ==> Clear(h, m, k)
  }

  /** What is kept lies outside every window told before it, every timely one, and every one followed by an
      event. */
  lemma KeptApart<T>(h: seq<Note<T>>, i: nat, k: nat)
    requires Ordered(h) && Survives(h, i) && k < |h| && h[k].Lose?
    requires k < i || Timely(h, k) || exists m :: k < m < |h| && h[m].Event?
    ensures h[i].time <= h[k].start || h[k].end <= h[i].time
  {
    if k > i && exists m :: k < m < |h| && h[m].Event? {
      var m :| k < m < |h| && h[m].Event?;
      assert Through(h, i, m) && !Behind(h, k, i);
    }
  }
}
