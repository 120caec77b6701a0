/** The two profilers that match events and must not match across lost events. */
module Trackers {
  import opened LostWindow
  import L = LeakRuns
  import R = RequestRuns

  // ----- kmemleak -----

  datatype Backup = Backup(time: int, size: nat)

  lemma NotEmpty(s: set<int>)
    requires s != {}
    ensures exists p :: p in s
  {
    assert (forall p :: p !in s) ==> s == {};
  }

  ghost function Some(s: set<int>): (p: int)
    requires s != {}
    ensures p in s
  { NotEmpty(s); var p :| p in s; p }

  /** The bytes the live allocations occupy. */
  ghost function Bytes(alloc: map<int, Backup>): int
    decreases |alloc|
  {
    if alloc.Keys == {} then 0
    else
      var p := Some(alloc.Keys);
      alloc[p].size + Bytes(alloc - {p})
  }

  lemma BytesPick(alloc: map<int, Backup>) returns (q: int)
    requires alloc.Keys != {}
    ensures q in alloc && Bytes(alloc) == alloc[q].size + Bytes(alloc - {q})
  {
    q := Some(alloc.Keys);
  }

  /** Whichever entry is counted first. */
  lemma {:induction false} BytesLess(alloc: map<int, Backup>, p: int)
    requires p in alloc
    ensures Bytes(alloc) == alloc[p].size + Bytes(alloc - {p})
    decreases |alloc|
  {
    hide Bytes;
    var q := BytesPick(alloc);
    if q != p {
      BytesLess(alloc - {q}, p);
      BytesLess(alloc - {p}, q);
      assert alloc - {q} - {p} == alloc - {p} - {q};
    }
  }

  lemma BytesMore(alloc: map<int, Backup>, p: int, b: Backup)
    requires p !in alloc
    ensures Bytes(alloc[p := b]) == Bytes(alloc) + b.size && |alloc[p := b]| == |alloc| + 1
  {
    hide Bytes;
    assert alloc[p := b] - {p} == alloc;
    BytesLess(alloc[p := b], p);
    assert alloc[p := b].Keys == alloc.Keys + {p};
    assert |alloc[p := b].Keys| == |alloc.Keys| + 1;
  }

  /** The entries of what is live. */
  ghost function Entries(h: L.Run, live: map<int, nat>): map<int, Backup>
    requires forall p :: p in live ==> live[p] < |h| && h[live[p]].Event? && h[live[p]].what.Alloc?
  {
    map p | p in live :: Backup(h[live[p]].time, h[live[p]].what.size)
  }

  ghost function Now(h: L.Run): map<int, Backup> { Entries(h, L.Live(h)) }

  /** What is still live when an event at `t` has met the windows. */
  function Cleared(ws: seq<Window>, alloc: map<int, Backup>, t: int): map<int, Backup> {
    if Skim(ws, t).clear then map[] else alloc
  }

  function With(alloc: map<int, Backup>, ptr: int, b: Backup): map<int, Backup> { alloc[ptr := b] }

  function Without(alloc: map<int, Backup>, ptr: int): map<int, Backup> { alloc - {ptr} }

  lemma EntriesLater(r: L.Run, x: Note<L.Call>, live: map<int, nat>)
    requires forall p :: p in live ==> live[p] < |r| && r[live[p]].Event? && r[live[p]].what.Alloc?
    ensures forall p :: p in live ==> (r + [x])[live[p]].Event? && (r + [x])[live[p]].what.Alloc?
    ensures Entries(r + [x], live) == Entries(r, live)
  {
    assert forall p :: p in live ==> (r + [x])[live[p]] == r[live[p]];
  }

  lemma EntriesFound(r: L.Run, t: int)
    ensures Entries(r, L.LiveAt(r, t)) == Cleared(Listed(r), Now(r), t)
  {
    hide Skim;
  }

  lemma AfterAlloc(r: L.Run, t: int, ptr: int, size: nat, granted: bool)
    ensures var h, v := r + [Event(t, L.Alloc(ptr, size, granted))], Skim(Listed(r), t);
            && Listed(h) == v.ws && L.Matches(h) == L.Matches(r)
            && Now(h) == if v.drop || !granted then Cleared(Listed(r), Now(r), t)
                         else With(Cleared(Listed(r), Now(r), t), ptr, Backup(t, size))
  {
    hide Skim; hide L.LiveAt; hide Cleared; hide L.Live; hide L.Matches; hide Listed;
    var x := Event(t, L.Alloc(ptr, size, granted));
    var live := L.LiveAt(r, t);
    L.AfterEvent(r, x);
    EntriesFound(r, t);
    EntriesLater(r, x, live);
  }

  lemma AfterFree(r: L.Run, t: int, ptr: int)
    ensures var h, v, live := r + [Event(t, L.Free(ptr))], Skim(Listed(r), t), L.LiveAt(r, t);
            && Listed(h) == v.ws && (ptr in live <==> ptr in Cleared(Listed(r), Now(r), t))
            && L.Matches(h) == L.Matches(r) + (if v.drop || ptr !in live then [] else [Match(live[ptr], |r|)])
            && Now(h) == if v.drop then Cleared(Listed(r), Now(r), t) else Without(Cleared(Listed(r), Now(r), t), ptr)
  {
    hide Skim; hide L.LiveAt; hide Cleared; hide L.Live; hide L.Matches; hide Listed;
    var x := Event(t, L.Free(ptr));
    var live := L.LiveAt(r, t);
    L.AfterEvent(r, x);
    EntriesFound(r, t);
    EntriesLater(r, x, live);
  }

  class Kmemleak {
    var alloc: map<int, Backup>     // live allocations by address
    var lost: seq<Window>
    var allocNum: int
    var allocMem: int
    var totalAlloc: nat
    var totalFree: nat
    ghost var run: L.Run            // everything told so far
    ghost var matches: seq<Match>   // frees that found their allocation

    constructor ()
      ensures Valid() && run == []
    {
      alloc, lost, allocNum, allocMem, totalAlloc, totalFree := map[], [], 0, 0, 0, 0;
      run, matches := [], [];
      new;
      assert Now(run) == map[];
    }

    ghost predicate Exact()
      reads this`alloc, this`allocNum, this`allocMem
    { allocNum == |alloc| && allocMem == Bytes(alloc) }

    /** Everything held is what the run so far makes of it, and the counters are exact. */
    ghost predicate Valid()
      reads this
    {
      && Exact() && Ordered(run) && lost == Listed(run) && alloc == Now(run) && matches == L.Matches(run)
      && totalAlloc == |L.Allocs(run)| && totalFree == |L.Frees(run)|
    }

    /** Nothing matched and nothing live reaches across a window of the run told before it, followed by an event,
        or no earlier than the events before. */
    lemma NothingSpans(k: nat)
      requires Valid() && k < |run| && run[k].Lose?
      ensures forall m :: m in matches ==> m.first < m.second < |run| && run[m.first].Event? && run[m.second].Event?
      ensures forall m :: m in matches && (k < m.second || Timely(run, k)) ==>
                Apart(run[k].start, run[k].end, PairOf(run, m))
      ensures Timely(run, k) || (exists m :: k < m < |run| && run[m].Event?) ==>
                forall p :: p in alloc ==> alloc[p].time <= run[k].start || run[k].end <= alloc[p].time
    {
      hide Listed; hide Bytes; hide L.Allocs; hide L.Frees; hide Timely; hide Ordered;
      L.MatchesAreEvents(run);
      forall m | m in matches && (k < m.second || Timely(run, k))
        ensures Apart(run[k].start, run[k].end, PairOf(run, m))
      { L.NoneAcross(run, m, k); }
      if Timely(run, k) || exists m :: k < m < |run| && run[m].Event? {
        forall p | p in alloc ensures alloc[p].time <= run[k].start || run[k].end <= alloc[p].time {
          L.LiveOutside(run, p, k);
        }
      }
    }

    /** `kmemleak_lost`. */
    method Lost(start: int, end: int)
      requires Valid()
      modifies this`lost, this`run
      ensures Valid() && run == old(run) + [Lose(start, end)]
      ensures lost == Enlist(old(lost), Window(start, end, false))
    {
      hide Bytes; hide Listed; hide L.Allocs; hide L.Frees; hide Entries; hide L.Matches; hide Ordered; hide L.Live;
      hide Enlist;
      L.AfterLose(run, start, end);
      EntriesLater(run, Lose(start, end), L.Live(run));
      lost := Inserted(lost, Window(start, end, false));
      run := run + [Lose(start, end)];
      L.CountOne(old(run), Lose(start, end));
    }

    /** `lost_reclaim`: report and forget everything live. */
    method Reclaim()
      requires Exact()
      modifies this`alloc, this`allocNum, this`allocMem
      ensures Exact() && alloc == map[]
    {
      if alloc != map[] {
        alloc, allocNum, allocMem := map[], 0, 0;
      }
    }

    /** `kmemleak_event_lost` for an event at `t`. */
    method EventLost(t: int) returns (drop: bool)
      requires Exact()
      modifies this`alloc, this`allocNum, this`allocMem, this`lost
      ensures Exact() && lost == Skim(old(lost), t).ws && drop == Skim(old(lost), t).drop
      ensures alloc == Cleared(old(lost), old(alloc), t)
    {
      var clear;
      lost, clear, drop := Skimmed(lost, t);
      if clear { Reclaim(); }
    }

    /** The allocation part of `kmemleak_sample`; `granted` when memory for the entry is. An allocation at
        an address still live replaces it. */
    method Alloc(t: int, ptr: int, size: nat, granted: bool)
      requires Valid() && Upto(run, t)
      modifies this
      ensures Valid() && run == old(run) + [Event(t, L.Alloc(ptr, size, granted))]
      ensures lost == Skim(old(lost), t).ws && matches == old(matches)
      ensures var live := Cleared(old(lost), old(alloc), t);
              alloc == if Skim(old(lost), t).drop || !granted then live else With(live, ptr, Backup(t, size))
    {
      hide Bytes; hide Skim; hide Listed; hide L.Allocs; hide L.Frees; hide Now; hide L.Matches; hide Ordered;
      hide L.LiveAt; hide Cleared; hide Upto; hide Exact; hide With;
      ghost var x := Event(t, L.Alloc(ptr, size, granted));
      OrderedLast(run, x);
      AfterAlloc(run, t, ptr, size, granted);
      L.CountOne(run, x);
      run := run + [x];
      var drop := EventLost(t);
      if drop || !granted { return; }
      Insert(ptr, Backup(t, size));
      totalAlloc := totalAlloc + 1;
    }

    /** `alloc_new` and `alloc_insert`; an entry with the same address goes first. */
    method Insert(ptr: int, b: Backup)
      requires Exact()
      modifies this`alloc, this`allocNum, this`allocMem
      ensures Exact() && alloc == With(old(alloc), ptr, b)
    {
      hide Bytes;
      if ptr in alloc { Erase(ptr); }
      BytesMore(alloc, ptr, b);
      alloc := alloc[ptr := b];
      allocNum, allocMem := allocNum + 1, allocMem + b.size;
    }

    /** `alloc_erase`. */
    method Erase(ptr: int)
      requires Exact() && ptr in alloc
      modifies this`alloc, this`allocNum, this`allocMem
      ensures Exact() && alloc == old(alloc) - {ptr}
    {
      BytesLess(alloc, ptr);
      assert (alloc - {ptr}).Keys == alloc.Keys - {ptr};
      assert |(alloc - {ptr}).Keys| == |alloc.Keys| - 1;
      allocNum, allocMem := allocNum - 1, allocMem - alloc[ptr].size;
      alloc := alloc - {ptr};
    }

    /** `alloc_find` and `alloc_erase`. */
    method Release(ptr: int) returns (found: bool)
      requires Exact()
      modifies this`alloc, this`allocNum, this`allocMem
      ensures Exact() && alloc == Without(old(alloc), ptr) && found == (ptr in old(alloc))
    {
      found := ptr in alloc;
      if found { Erase(ptr); }
    }

    /** The free part: a free of a live allocation matches it. */
    method Free(t: int, ptr: int)
      requires Valid() && Upto(run, t)
      modifies this
      ensures Valid() && run == old(run) + [Event(t, L.Free(ptr))]
      ensures lost == Skim(old(lost), t).ws
      ensures var live := Cleared(old(lost), old(alloc), t);
              if Skim(old(lost), t).drop then alloc == live && matches == old(matches)
              else alloc == Without(live, ptr) &&
                   matches == old(matches) + if ptr in live then [Match(L.LiveAt(old(run), t)[ptr], |old(run)|)] else []
    {
      hide Bytes; hide Skim; hide Listed; hide L.Allocs; hide L.Frees; hide Now; hide L.Matches; hide Ordered;
      hide L.LiveAt; hide Cleared; hide Upto; hide Exact; hide Without;
      ghost var x := Event(t, L.Free(ptr));
      ghost var r := run;
      OrderedLast(run, x);
      AfterFree(run, t, ptr);
      L.CountOne(run, x);
      run := run + [x];
      var drop := EventLost(t);
      if drop { return; }
      var found := Release(ptr);
      if found { matches := matches + [Match(L.LiveAt(r, t)[ptr], |r|)]; }
      totalFree := totalFree + 1;
    }
  }

  /** A whole session, whatever allocations, frees and windows it is told of: matched is exactly each free with
      the allocation of its address, if nothing happened there between them and no window comes between; nothing
      reaches across a window; and live is exactly the rest. */
  method LeakSession(h: L.Run) returns (k: Kmemleak)
    requires Ordered(h)
    ensures k.Valid() && k.run == h
    ensures L.Right(h, k.matches, k.alloc.Keys) && NoSpan(h, k.matches)
  {
    hide L.Right; hide NoSpan; hide Ordered; hide Bytes; hide Skim; hide Listed; hide L.Allocs; hide L.Frees;
    hide Now; hide L.Matches; hide L.Live; hide Cleared; hide Upto;
    k := new Kmemleak();
    var n := 0;
    while n < |h|
      invariant 0 <= n <= |h| && fresh(k) && k.Valid() && k.run == h[..n]
    {
      assert h[..n + 1] == h[..n] + [h[n]];
      match h[n] {
        case Lose(start, end) => k.Lost(start, end);
        case Event(t, Alloc(ptr, size, granted)) => PrefixUpto(h, n); k.Alloc(t, ptr, size, granted);
        case Event(t, Free(ptr)) => PrefixUpto(h, n); k.Free(t, ptr);
      }
      n := n + 1;
    }
    assert h[..n] == h;
    EntriesKeys(h);
    L.RunRight(h);
  }

  lemma EntriesKeys(h: L.Run)
    ensures Now(h).Keys == L.Live(h).Keys
  {}

  lemma PrefixUpto<T>(h: seq<Note<T>>, n: nat)
    requires Ordered(h) && n < |h| && h[n].Event?
    ensures Upto(h[..n], h[n].time)
  {}

  // ----- the list of windows, shared by both -----

  /** Find the place of a new window. */
  method Inserted(ws: seq<Window>, w: Window) returns (r: seq<Window>)
    ensures r == Enlist(ws, w)
  {
    var i := 0;
    while i < |ws| && ws[i].start <= w.start
      invariant 0 <= i <= |ws| && Enlist(ws, w) == ws[..i] + Enlist(ws[i..], w)
    {
      assert ws[..i + 1] == ws[..i] + [ws[i]] && ws[i..][1..] == ws[i + 1..] && ws[i..][0] == ws[i];
      i := i + 1;
    }
    r := ws[..i] + ([w] + ws[i..]);
  }

  /** Walk the windows for an event at `t`: what is tracked is thrown away once per window entered. */
  method Skimmed(ws: seq<Window>, t: int) returns (rest: seq<Window>, clear: bool, drop: bool)
    ensures rest == Skim(ws, t).ws && clear == Skim(ws, t).clear && drop == Skim(ws, t).drop
  {
    rest, clear, drop := ws, false, false;
    while rest != []
      invariant Skim(ws, t).ws == Skim(rest, t).ws && Skim(ws, t).clear == (clear || Skim(rest, t).clear)
      invariant Skim(ws, t).drop == Skim(rest, t).drop && !drop
      decreases |rest|
    {
      if t <= rest[0].start { return; }
      if !rest[0].reclaim { clear := true; }
      if t < rest[0].end {
        rest := [rest[0].(reclaim := true)] + rest[1..];
        drop := true;
        return;
      }
      rest := rest[1..];
    }
  }

  // ----- blktrace -----

  const STAGES: nat := 4   // request got, inserted, issued, completed

  /** Latencies from the stage before: how many, their sum, smallest and largest. */
  datatype Iostat = Iostat(n: nat, sum: int, min: int, max: int)

  function Sum(s: seq<Pair>): int { if s == [] then 0 else Sum(s[..|s| - 1]) + R.Latency(s[|s| - 1]) }

  /** The statistics of a stage are those of the pairs recorded for it. */
  predicate Describes(st: Iostat, s: seq<Pair>) {
    && st.n == |s| && st.sum == Sum(s)
    && (forall p :: p in s ==> st.min <= R.Latency(p) <= st.max)
    && (s != [] ==> (exists p :: p in s && R.Latency(p) == st.min) && exists p :: p in s && R.Latency(p) == st.max)
    && (s == [] ==> st.min == R.FLUSH && st.max == 0)
  }

  function Counted(st: Iostat, d: int): Iostat {
    Iostat(st.n + 1, st.sum + d, if d < st.min then d else st.min, if d > st.max then d else st.max)
  }

  lemma OneMore(st: Iostat, s: seq<Pair>, p: Pair)
    requires Describes(st, s) && 0 <= R.Latency(p) <= R.FLUSH
    ensures Describes(Counted(st, R.Latency(p)), s + [p])
  {
    var t := s + [p];
    assert t[..|t| - 1] == s && t[|t| - 1] == p && p in t;
    assert forall x :: x in s ==> x in t;
    if s != [] {
      var a :| a in s && R.Latency(a) == st.min;
      var b :| b in s && R.Latency(b) == st.max;
      assert a in t && b in t;
    }
  }

  /** The requests tracked. */
  ghost function TracksOf(h: R.Run, ids: seq<nat>): (ts: seq<R.Track>)
    requires forall q :: q in ids ==> q < |h| && h[q].Event?
    ensures |ts| == |ids|
  {
    seq(|ids|, i requires 0 <= i < |ids| => assert ids[i] in ids; h[ids[i]].what.r)
  }

  /** Times are words of 64 bits, and there are four stages. */
  predicate Fit(x: Note<R.Step>) {
    x.Event? ==> x.time == x.what.r.time && 0 <= x.time <= R.FLUSH && x.what.r.stage < STAGES
  }

  /** What the search finds, when there is one, overlaps on the same device. */
  ghost predicate Finds(r: R.Run, x: Note<R.Step>) {
    x.Event? && !R.Skips(r, x.time, x.what) && x.what.hit >= 0 ==>
      && x.what.hit < |R.TrackedAt(r, x.time)|
      && Overlaps(TracksOf(r, R.TrackedAt(r, x.time))[x.what.hit], x.what.r)
  }

  /** `request_track_node_cmp` finds requests that overlap on the same device. */
  predicate Overlaps(a: R.Track, b: R.Track) {
    a.dev == b.dev && a.sector < b.sector + b.count && b.sector < a.sector + a.count
  }

  lemma TracksLater(r: R.Run, x: Note<R.Step>, ids: seq<nat>)
    requires forall q :: q in ids ==> q < |r| && r[q].Event?
    ensures forall q :: q in ids ==> q < |r + [x]| && (r + [x])[q].Event?
    ensures TracksOf(r + [x], ids) == TracksOf(r, ids)
  {}

  lemma TracksMoved(h: R.Run, ids: seq<nat>, stage: nat, x: nat, hit: int)
    requires x < |h| && h[x].Event? && forall q :: q in ids ==> q < |h| && h[q].Event?
    ensures TracksOf(h, R.Moved<nat>(ids, stage, x, hit)) == R.Moved(TracksOf(h, ids), stage, h[x].what.r, hit)
  {
    var a, b := TracksOf(h, R.Moved<nat>(ids, stage, x, hit)), R.Moved(TracksOf(h, ids), stage, h[x].what.r, hit);
    assert |a| == |b|;
    forall i | 0 <= i < |a| ensures a[i] == b[i] { }
  }

  class Blktrace {
    var tracks: seq<R.Track>
    var lost: seq<Window>
    var stats: seq<Iostat>
    ghost var run: R.Run              // everything told so far
    ghost var matches: seq<Match>     // latencies counted

    constructor ()
      ensures Valid() && run == []
    {
      tracks, lost, run, matches := [], [], [], [];
      stats := [Iostat(0, 0, R.FLUSH, 0), Iostat(0, 0, R.FLUSH, 0), Iostat(0, 0, R.FLUSH, 0), Iostat(0, 0, R.FLUSH, 0)];
    }

    /** Everything held is what the run so far makes of it. */
    ghost predicate Valid()
      reads this
    {
      && Ordered(run) && (forall x :: x in run ==> Fit(x)) && lost == Listed(run)
      && tracks == TracksOf(run, R.Tracked(run)) && matches == R.Matches(run)
      && |stats| == STAGES && forall i :: 0 <= i < STAGES ==> Describes(stats[i], R.AtStage(run, i))
    }

    /** No latency counted, at any stage, and no request tracked reaches across a window of the run told before
        it, followed by an event, or no earlier than the events before. */
    lemma NothingSpans(k: nat)
      requires Valid() && k < |run| && run[k].Lose?
      ensures forall m :: m in matches ==> m.first < m.second < |run| && run[m.first].Event? && run[m.second].Event?
      ensures forall m :: m in matches && (k < m.second || Timely(run, k)) ==>
                Apart(run[k].start, run[k].end, PairOf(run, m))
      ensures Timely(run, k) || (exists m :: k < m < |run| && run[m].Event?) ==>
                forall r :: r in tracks ==> r.time <= run[k].start || run[k].end <= r.time
    {
      hide Listed; hide Describes; hide Timely; hide Ordered; hide R.Matches; hide R.AtStage; hide Fit;
      R.MatchesBelow(run);
      forall m | m in matches && (k < m.second || Timely(run, k))
        ensures Apart(run[k].start, run[k].end, PairOf(run, m))
      { R.NoneAcross(run, m, k); }
      if Timely(run, k) || exists m :: k < m < |run| && run[m].Event? {
        forall r | r in tracks ensures r.time <= run[k].start || run[k].end <= r.time {
          var q := TrackAt(run, R.Tracked(run), r);
          R.TrackedOutside(run, q, k);
          SameTime(run[q]);
        }
      }
    }

    /** `blktrace_lost`. */
    method Lost(start: int, end: int)
      requires Valid()
      modifies this`lost, this`run
      ensures Valid() && run == old(run) + [Lose(start, end)]
      ensures lost == Enlist(old(lost), Window(start, end, false))
    {
      hide Listed; hide Describes; hide R.Matches; hide R.AtStage; hide R.Tracked; hide Ordered;
      AfterGap(run, start, end);
      lost := Inserted(lost, Window(start, end, false));
      run := run + [Lose(start, end)];
    }

    /** `blktrace_event_lost`. */
    method EventLost(t: int) returns (drop: bool)
      modifies this`tracks, this`lost
      ensures lost == Skim(old(lost), t).ws && drop == Skim(old(lost), t).drop
      ensures tracks == if Skim(old(lost), t).clear then [] else old(tracks)
    {
      var clear;
      lost, clear, drop := Skimmed(lost, t);
      if clear { tracks := []; }
    }

    /** The tracking part of `blktrace_sample`; `hit` is the request the search of the tracks finds, or
        -1. */
    method Sample(r: R.Track, hit: int)
      requires Valid() && Upto(run, r.time) && Fit(Event(r.time, R.Step(r, hit)))
      requires Finds(run, Event(r.time, R.Step(r, hit)))
      modifies this
      ensures Valid() && run == old(run) + [Event(r.time, R.Step(r, hit))]
      ensures lost == Skim(old(lost), r.time).ws
      ensures var live := if Skim(old(lost), r.time).clear then [] else old(tracks);
              if Skim(old(lost), r.time).drop || r.sector == R.FLUSH
              then tracks == live && stats == old(stats) && matches == old(matches)
              else
                && tracks == R.Moved(live, r.stage, r, hit)
                && (if hit < 0 then stats == old(stats) && matches == old(matches)
                    else
                      && hit < |live| && Overlaps(live[hit], r) && |matches| == |old(matches)| + 1
                      && stats == old(stats)[r.stage := Counted(old(stats)[r.stage], r.time - live[hit].time)])
    {
      hide Skim; hide Listed; hide Describes; hide R.Matches; hide R.AtStage; hide Ordered; hide R.Moved;
      hide R.Tracked; hide TracksOf; hide R.TrackedAt; hide R.Newest; hide Overlaps; hide Upto; hide Counted;
      ghost var x := Event(r.time, R.Step(r, hit));
      ghost var before := run;
      ghost var ids := R.TrackedAt(before, r.time);
      OrderedLast(run, x);
      AfterSample(run, x);
      SampleTracks(run, x);
      LiveTracks(run, r.time);
      if R.Newest(run + [x]) == [] { StageSame(run, x); }
      run := run + [x];
      var drop := EventLost(r.time);
      if drop || r.sector == R.FLUSH { return; }
      if hit >= 0 {
        HitTrack(before, ids, hit);
        StageMore(before, x, stats);
        Record(tracks[hit], r);
        matches := matches + [Match(ids[hit], |before|)];
      }
      Follow(r, hit);
    }

    /** The request moves on to its new stage, is done, or is new. */
    method Follow(r: R.Track, hit: int)
      requires hit < |tracks|
      modifies this`tracks
      ensures tracks == R.Moved(old(tracks), r.stage, r, hit)
    {
      if hit >= 0 {
        if r.stage != R.COMPLETE {
          tracks := tracks[hit := r];
        } else {
          tracks := tracks[..hit] + tracks[hit + 1..];
        }
      } else if r.stage != R.COMPLETE {
        tracks := tracks + [r];
      }
    }

    /** The latency from the stage before, `prev`. */
    method Record(prev: R.Track, r: R.Track)
      requires |stats| == STAGES && r.stage < STAGES
      modifies this`stats
      ensures stats == old(stats)[r.stage := Counted(old(stats)[r.stage], r.time - prev.time)]
    {
      var st, d := stats[r.stage], r.time - prev.time;
      if d < st.min { st := st.(min := d); }
      if d > st.max { st := st.(max := d); }
      stats := stats[r.stage := st.(n := st.n + 1, sum := st.sum + d)];
    }
  }

  lemma TrackAt(h: R.Run, ids: seq<nat>, r: R.Track) returns (q: nat)
    requires (forall q :: q in ids ==> q < |h| && h[q].Event?) && r in TracksOf(h, ids)
    ensures q in ids && h[q].what.r == r
  {
    var i :| 0 <= i < |ids| && TracksOf(h, ids)[i] == r;
    q := ids[i];
  }

  lemma LiveTracks(r: R.Run, t: int)
    ensures TracksOf(r, R.TrackedAt(r, t)) == if Skim(Listed(r), t).clear then [] else TracksOf(r, R.Tracked(r))
  {}

  lemma HitTrack(r: R.Run, ids: seq<nat>, hit: nat)
    requires (forall q :: q in ids ==> q < |r| && r[q].Event?) && hit < |ids|
    ensures ids[hit] in ids && TracksOf(r, ids)[hit] == r[ids[hit]].what.r
  {}

  lemma AfterGap(r: R.Run, start: int, end: int)
    ensures var h := r + [Lose(start, end)];
            && (Ordered(r) ==> Ordered(h)) && Listed(h) == Enlist(Listed(r), Window(start, end, false))
            && R.Tracked(h) == R.Tracked(r) && TracksOf(h, R.Tracked(h)) == TracksOf(r, R.Tracked(r))
            && R.Matches(h) == R.Matches(r) && forall s: nat :: R.AtStage(h, s) == R.AtStage(r, s)
  {
    var h := r + [Lose(start, end)];
    assert h[..|h| - 1] == r && R.Newest(h) == [];
    TracksLater(r, Lose(start, end), R.Tracked(r));
    forall s: nat ensures R.AtStage(h, s) == R.AtStage(r, s) { assert R.NewestAt(h, s) == []; }
  }

  lemma AfterSample(r: R.Run, x: Note<R.Step>)
    requires x.Event?
    ensures var h, ids, s := r + [x], R.TrackedAt(r, x.time), x.what;
            && Listed(h) == Skim(Listed(r), x.time).ws
            && R.Tracked(h) == (if R.Skips(r, x.time, s) then ids else R.Moved<nat>(ids, s.r.stage, |r|, s.hit))
            && R.Newest(h) == (if R.Skips(r, x.time, s) || !(0 <= s.hit < |ids|) then []
                               else [Match(ids[s.hit], |r|)])
            && R.Matches(h) == R.Matches(r) + R.Newest(h)
  {
    hide Skim; hide R.Moved; hide R.TrackedAt; hide R.Skips;
    var h := r + [x];
    assert h[..|h| - 1] == r && h[|h| - 1] == x;
  }

  lemma SampleTracks(r: R.Run, x: Note<R.Step>)
    requires x.Event?
    ensures var h, ids, s := r + [x], R.TrackedAt(r, x.time), x.what;
            TracksOf(h, R.Tracked(h)) == if R.Skips(r, x.time, s) then TracksOf(r, ids)
                                         else R.Moved(TracksOf(r, ids), s.r.stage, s.r, s.hit)
  {
    hide Skim; hide R.Moved; hide TracksOf; hide R.TrackedAt; hide R.Skips; hide R.Tracked; hide R.Newest;
    var h, ids, s := r + [x], R.TrackedAt(r, x.time), x.what;
    assert h[|r|] == x;
    AfterSample(r, x);
    TracksLater(r, x, ids);
    if !R.Skips(r, x.time, s) { TracksMoved(h, ids, s.r.stage, |r|, s.hit); }
  }

  lemma StageSame(r: R.Run, x: Note<R.Step>)
    requires R.Newest(r + [x]) == []
    ensures forall s: nat :: R.AtStage(r + [x], s) == R.AtStage(r, s)
  {
    hide R.Newest;
    var h := r + [x];
    assert h[..|h| - 1] == r;
    forall s: nat ensures R.AtStage(h, s) == R.AtStage(r, s) { assert R.NewestAt(h, s) == []; }
  }

  /** The statistics after a sample that found its request. */
  lemma StageMore(r: R.Run, x: Note<R.Step>, stats: seq<Iostat>)
    requires x.Event? && Ordered(r + [x]) && Fit(x) && forall y :: y in r ==> Fit(y)
    requires var ids := R.TrackedAt(r, x.time);
             !R.Skips(r, x.time, x.what) && 0 <= x.what.hit < |ids|
    requires |stats| == STAGES && forall i :: 0 <= i < STAGES ==> Describes(stats[i], R.AtStage(r, i))
    ensures var ids, s := R.TrackedAt(r, x.time), x.what.r.stage;
            ids[x.what.hit] in ids &&
            var st := Counted(stats[s], x.time - r[ids[x.what.hit]].what.r.time);
            forall i :: 0 <= i < STAGES ==> Describes(stats[s := st][i], R.AtStage(r + [x], i))
  {
    hide Describes; hide Skim;
    var h, ids, s := r + [x], R.TrackedAt(r, x.time), x.what.r.stage;
    assert h[..|h| - 1] == r && ids[x.what.hit] in ids;
    var q := ids[x.what.hit];
    assert R.Newest(h) == [Match(q, |r|)];
    assert r[q] in r && h[q] == r[q] && h[|r|] == x;
    var p := Pair(r[q].time, x.time);
    assert R.NewestAt(h, s) == [p];
    OneMore(stats[s], R.AtStage(r, s), p);
    forall i | 0 <= i < STAGES && i != s ensures R.AtStage(h, i) == R.AtStage(r, i) { assert R.NewestAt(h, i) == []; }
  }

  /** Each sample finds, if anything, a tracked request that overlaps it. */
  ghost predicate Findable(h: R.Run) { forall n :: 0 <= n < |h| ==> Finds(h[..n], h[n]) }

  /** A whole session: every latency counted is from the last sample of a request still open to the sample that
      found it, exactly where no window comes between, and none reaches across a window; and the statistics of
      each stage are those of the latencies that end there. */
  method RequestSession(h: R.Run) returns (k: Blktrace)
    requires Ordered(h) && Findable(h) && forall x :: x in h ==> Fit(x)
    ensures k.Valid() && k.run == h
    ensures R.Right(h, k.matches) && NoSpan(h, k.matches)
  {
    hide R.Right; hide NoSpan; hide Ordered; hide Fit; hide Finds; hide Skim; hide Listed; hide TracksOf;
    hide R.Matches; hide R.Tracked; hide R.AtStage; hide Describes; hide Upto; hide R.Moved; hide Overlaps;
    k := new Blktrace();
    var n := 0;
    while n < |h|
      invariant 0 <= n <= |h| && fresh(k) && k.Valid() && k.run == h[..n]
    {
      assert h[..n + 1] == h[..n] + [h[n]];
      match h[n] {
        case Lose(start, end) => k.Lost(start, end);
        case Event(t, s) =>
          PrefixUpto(h, n);
          SameTime(h[n]);
          k.Sample(s.r, s.hit);
      }
      n := n + 1;
    }
    assert h[..n] == h;
    R.RunRight(h);
  }

  lemma SameTime(x: Note<R.Step>)
    requires x.Event? && Fit(x)
    ensures x.time == x.what.r.time && x == Event(x.what.r.time, R.Step(x.what.r, x.what.hit))
  {}
}
