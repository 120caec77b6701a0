/** Which block requests are tracked and which latencies are counted after any run, and when exactly. */
module RequestRuns {
  import opened LostWindow

  const COMPLETE: nat := 3                        // after request got, inserted, issued
  const FLUSH: int := 0xFFFF_FFFF_FFFF_FFFF       // the sector of a flush request

  datatype Track = Track(stage: nat, dev: int, sector: int, count: int, time: int)

  /** A sample, and where the search of the tracked requests ends, or -1. */
  datatype Step = Step(r: Track, hit: int)

  type Run = seq<Note<Step>>

  /** The samples that tracked requests stand at. */
  ghost function Tracked(h: Run): (ids: seq<nat>)
    ensures forall q :: q in ids ==> q < |h| && h[q].Event?
    decreases |h|, 0
  {
    if h == [] then []
    else
      var r := h[..|h| - 1];
      match h[|h| - 1]
      case Lose(_, _) => Tracked(r)
      case Event(t, s) => if Skips(r, t, s) then TrackedAt(r, t) else Moved<nat>(TrackedAt(r, t), s.r.stage, |r|, s.hit)
  }

  /** What of them an event at `t` finds. */
  ghost function TrackedAt(r: Run, t: int): (ids: seq<nat>)
    ensures forall q :: q in ids ==> q < |r| && r[q].Event?
    decreases |r|, 1
  {
    if Skim(Listed(r), t).clear then [] else Tracked(r)
  }

  /** Inside a window, or a flush request. */
  predicate Skips(r: Run, t: int, s: Step) { Skim(Listed(r), t).drop || s.r.sector == FLUSH }

  /** The tracks after `x`, at a stage, found at `hit`: moved on, done, or, when none is found, new. */
  function Moved<T>(tracks: seq<T>, stage: nat, x: T, hit: int): (r: seq<T>)
    ensures forall q :: q in r ==> q in tracks || q == x
  {
    if 0 <= hit < |tracks| then
      if stage != COMPLETE then tracks[hit := x] else tracks[..hit] + tracks[hit + 1..]
    else if stage != COMPLETE then tracks + [x] else tracks
  }

  /** The latencies counted. */
  ghost function Matches(h: Run): seq<Match> {
    if h == [] then [] else Matches(h[..|h| - 1]) + Newest(h)
  }

  /** The one the last sample adds. */
  ghost function Newest(h: Run): (ms: seq<Match>)
    requires h != []
    ensures |ms| <= 1 && (ms != [] ==> h[|h| - 1].Event?)
    ensures forall m :: m in ms ==> m.first < m.second == |h| - 1 && h[m.first].Event?
  {
    var r := h[..|h| - 1];
    match h[|h| - 1]
    case Lose(_, _) => []
    case Event(t, s) =>
      var ids := TrackedAt(r, t);
      if Skips(r, t, s) || !(0 <= s.hit < |ids|) then [] else assert ids[s.hit] in ids; [Match(ids[s.hit], |r|)]
  }

  // ----- the same without the tracker -----

  /** Sample `i` is of a request that goes on. */
  predicate Opens(x: Note<Step>) { x.Event? && x.what.r.sector != FLUSH && x.what.r.stage != COMPLETE }

  /** Sample `i` opened or moved a request, no later one took it on, and no window has begun since. */
  ghost predicate IsTracked(h: Run, i: nat) {
    i < |h| && Opens(h[i]) && Survives(h, i) && forall j: nat :: Match(i, j) !in Matches(h)
  }

  predicate Distinct(ids: seq<nat>) { forall a, b :: 0 <= a < b < |ids| ==> ids[a] != ids[b] }

  lemma MovedIn(ids: seq<nat>, stage: nat, x: nat, hit: int, i: nat)
    requires Distinct(ids) && x !in ids
    ensures Distinct(Moved<nat>(ids, stage, x, hit))
    ensures i in Moved<nat>(ids, stage, x, hit) <==>
            (i in ids && !(0 <= hit < |ids| && ids[hit] == i)) || (i == x && stage != COMPLETE)
  {
    var r := Moved<nat>(ids, stage, x, hit);
    if i in ids && !(0 <= hit < |ids| && ids[hit] == i) {
      var a :| 0 <= a < |ids| && ids[a] == i;
      if 0 <= hit < |ids| && stage == COMPLETE { assert r[if a < hit then a else a - 1] == i; }
      else { assert r[a] == i; }
    }
    if i == x && stage != COMPLETE { assert r[if 0 <= hit < |ids| then hit else |ids|] == i; }
  }

  lemma {:induction false} MatchesBelow(h: Run)
    ensures forall m :: m in Matches(h) ==> m.first < m.second < |h| && h[m.first].Event? && h[m.second].Event?
  {
    if h != [] { MatchesBelow(h[..|h| - 1]); }
  }

  /** The requests tracked after any run are exactly those. */
  lemma {:induction false} TrackedExactly(h: Run)
    requires Ordered(h)
    ensures Distinct(Tracked(h)) && forall i: nat :: i in Tracked(h) <==> IsTracked(h, i)
  {
    if h == [] { return; }
    var r, x := h[..|h| - 1], h[|h| - 1];
    assert h == r + [x];
    OrderedPrefix(r, x);
    TrackedExactly(r);
    forall i: nat ensures Distinct(Tracked(h)) && (i in Tracked(h) <==> IsTracked(h, i)) {
      if x.Lose? { LoseStep(r, x, i); } else { EventStep(r, x, i); }
    }
  }

  lemma LoseStep(r: Run, x: Note<Step>, i: nat)
    requires x.Lose? && (i in Tracked(r) <==> IsTracked(r, i))
    ensures Tracked(r + [x]) == Tracked(r) && (i in Tracked(r + [x]) <==> IsTracked(r + [x], i))
  {
    var h := r + [x];
    assert h[..|h| - 1] == r && h[|h| - 1] == x && Newest(h) == [];
    if i < |r| { SurvivesLater(r, x, i); }
    hide Survives;
  }

  lemma EventStep(r: Run, x: Note<Step>, i: nat)
    requires x.Event? && Ordered(r + [x]) && Distinct(Tracked(r)) && (i in Tracked(r) <==> IsTracked(r, i))
    ensures Distinct(Tracked(r + [x])) && (i in Tracked(r + [x]) <==> IsTracked(r + [x], i))
  {
    hide Survives; hide Skim; hide Ordered;
    var h := r + [x];
    assert h[..|h| - 1] == r && h[|h| - 1] == x;
    EventKeeps(r, x);
    MatchesBelow(r);
    var ids := TrackedAt(r, x.time);
    assert |r| !in ids;
    if !Skips(r, x.time, x.what) { MovedIn(ids, x.what.r.stage, |r|, x.what.hit, i); }
    StillOpen(r, x, i);
  }

  /** What the last sample takes on. */
  lemma StillOpen(r: Run, x: Note<Step>, i: nat)
    requires x.Event?
    ensures var ids, s := TrackedAt(r, x.time), x.what;
            (forall j: nat :: Match(i, j) !in Matches(r + [x])) <==>
            (forall j: nat :: Match(i, j) !in Matches(r)) &&
            !(!Skips(r, x.time, s) && 0 <= s.hit < |ids| && ids[s.hit] == i)
  {
    hide Skips; hide TrackedAt;
    var h := r + [x];
    assert h[..|h| - 1] == r && h[|h| - 1] == x;
    assert forall m :: m in Matches(h) <==> m in Matches(r) || m in Newest(h);
    if Newest(h) != [] { assert Newest(h)[0] in Newest(h); }
  }

  /** A sample is offered exactly the requests still open with no window since their last sample. */
  lemma OfferedExactly(r: Run, x: Note<Step>, i: nat)
    requires x.Event? && Ordered(r + [x]) && i < |r| && r[i].Event?
    ensures i in TrackedAt(r, x.time) <==>
            Opens(r[i]) && Through(r + [x], i, |r|) && forall j: nat :: Match(i, j) !in Matches(r)
  {
    OrderedPrefix(r, x);
    TrackedExactly(r);
    EventKeeps(r, x);
    LastDecides(r + [x], i);
    hide Survives; hide Skim; hide Ordered; hide Through; hide Matches; hide Tracked;
  }

  /** Sample `j` is let through and the search ends at the request that stands at sample `i`. */
  ghost predicate Takes(h: Run, i: nat, j: nat) {
    && j < |h| && h[j].Event? && !Inside(h, j) && h[j].what.r.sector != FLUSH
    && 0 <= h[j].what.hit < |TrackedAt(h[..j], h[j].time)|
    && TrackedAt(h[..j], h[j].time)[h[j].what.hit] == i
  }

  lemma TakesLater(r: Run, x: Note<Step>, i: nat, j: nat)
    requires j < |r|
    ensures Takes(r + [x], i, j) <==> Takes(r, i, j)
  {
    assert (r + [x])[..j] == r[..j];
    if r[j].Event? { Earlier(r, x, j, j); }
    hide Inside; hide TrackedAt;
  }

  lemma TakesLast(r: Run, x: Note<Step>, i: nat)
    requires Ordered(r + [x])
    ensures Takes(r + [x], i, |r|) <==> Match(i, |r|) in Newest(r + [x])
  {
    var h := r + [x];
    assert h[..|r|] == r && h[..|h| - 1] == r;
    if x.Event? { EventKeeps(r, x); }
    hide Inside; hide TrackedAt; hide Survives; hide Skim; hide Listed;
  }

  /** A latency is counted for each sample that is let through and finds a request. */
  lemma {:induction false} MatchesExactly(h: Run, i: nat, j: nat)
    requires Ordered(h)
    ensures Match(i, j) in Matches(h) <==> Takes(h, i, j)
  {
    hide Takes; hide Ordered; hide Newest;
    if h == [] { TakesNone(i, j); return; }
    var r, x := h[..|h| - 1], h[|h| - 1];
    assert h == r + [x];
    OrderedPrefix(r, x);
    MatchesExactly(r, i, j);
    MatchesBelow(r);
    if j < |r| { TakesLater(r, x, i, j); }
    else if j == |r| { TakesLast(r, x, i); }
    else { TakesBelow(h, i, j); }
  }

  lemma TakesNone(i: nat, j: nat)
    ensures !Takes([], i, j)
  {}

  lemma TakesBelow(h: Run, i: nat, j: nat)
    ensures Takes(h, i, j) ==> j < |h|
  {}

  /** It is counted from the last sample of a request still open, once, with no window between. */
  lemma {:induction false} MatchesOpen(h: Run, i: nat, j: nat)
    requires Ordered(h) && Match(i, j) in Matches(h)
    ensures i < j < |h| && Opens(h[i]) && h[j].Event? && Through(h, i, j)
    ensures forall l: nat | l < j :: Match(i, l) !in Matches(h)
  {
    hide Ordered; hide Newest; hide Through; hide Opens;
    var r, x := h[..|h| - 1], h[|h| - 1];
    assert h == r + [x];
    OrderedPrefix(r, x);
    MatchesBelow(r);
    if j < |r| {
      MatchesOpen(r, i, j);
      Earlier(r, x, i, j);
    } else {
      NewestOpen(r, x, i);
    }
  }

  lemma NewestOpen(r: Run, x: Note<Step>, i: nat)
    requires Ordered(r + [x]) && Match(i, |r|) in Newest(r + [x])
    ensures i < |r| && x.Event? && Opens(r[i]) && Through(r + [x], i, |r|)
    ensures forall j: nat :: Match(i, j) !in Matches(r)
  {
    assert (r + [x])[..|r|] == r;
    OfferedExactly(r, x, i);
  }

  /** Every latency counted is apart from every window told before its end, and from every timely one. */
  lemma NoneAcross(h: Run, m: Match, k: nat)
    requires Ordered(h) && m in Matches(h) && k < |h| && h[k].Lose? && (k < m.second || Timely(h, k))
    ensures m.first < m.second < |h| && h[m.first].Event? && h[m.second].Event?
    ensures Apart(h[k].start, h[k].end, PairOf(h, m))
  {
    hide Matches; hide Through; hide Ordered; hide TrackedAt;
    assert Match(m.first, m.second) == m;
    MatchesOpen(h, m.first, m.second);
    MatchApart(h, m, k);
  }

  /** Tracked requests stand at a sample outside every window told before it, every timely one, and every one
      followed by an event. */
  lemma TrackedOutside(h: Run, i: nat, k: nat)
    requires Ordered(h) && i in Tracked(h) && k < |h| && h[k].Lose?
    requires k < i || Timely(h, k) || exists m :: k < m < |h| && h[m].Event?
    ensures h[i].time <= h[k].start || h[k].end <= h[i].time
  {
    hide Tracked; hide Survives; hide Ordered;
    TrackedExactly(h);
    KeptApart(h, i, k);
  }

  // ----- the run theorem -----

  /** A latency is counted exactly for each sample that is let through and finds a request, from the last sample
      of a request still open with no window between. */
  ghost predicate Right(h: Run, matches: seq<Match>) {
    && (forall i: nat, j: nat :: Match(i, j) in matches <==> Takes(h, i, j))
    && (forall i: nat, j: nat :: Match(i, j) in matches ==> Continues(h, i, j))
  }

  predicate Continues(h: Run, i: nat, j: nat) { i < j < |h| && Opens(h[i]) && h[j].Event? && Through(h, i, j) }

  lemma RunRight(h: Run)
    requires Ordered(h)
    ensures Right(h, Matches(h)) && NoSpan(h, Matches(h))
  {
    hide Takes; hide Ordered; hide Timely; hide Apart; hide Matches; hide Through; hide Opens;
    forall i: nat, j: nat ensures Match(i, j) in Matches(h) <==> Takes(h, i, j) { MatchesExactly(h, i, j); }
    forall i: nat, j: nat | Match(i, j) in Matches(h) ensures Continues(h, i, j) { MatchesOpen(h, i, j); Opened(h[i]); }
    forall m, k: nat | m in Matches(h) && k < |h| && h[k].Lose? && (k < m.second || Timely(h, k))
      ensures Clear(h, m, k)
    { NoneAcross(h, m, k); }
  }

  lemma Opened(x: Note<Step>)
    requires Opens(x)
    ensures x.Event?
  {}

  // ----- latencies by stage -----

  function Latency(p: Pair): int { p.second - p.first }

  /** The pairs counted at stage `s`, in order. */
  ghost function AtStage(h: Run, s: nat): seq<Pair> {
    if h == [] then [] else AtStage(h[..|h| - 1], s) + NewestAt(h, s)
  }

  ghost function NewestAt(h: Run, s: nat): seq<Pair>
    requires h != []
  {
    if Newest(h) == [] || h[|h| - 1].what.r.stage != s then []
    else [Pair(h[Newest(h)[0].first].time, h[|h| - 1].time)]
  }

  /** These are the latencies counted that end at that stage. */
  lemma {:induction false} AtStageExactly(h: Run, s: nat, p: Pair)
    ensures p in AtStage(h, s) <==>
            exists m :: m in Matches(h) && IsAt(h, m, s, p)
  {
    hide Newest; hide IsAt;
    if h == [] { return; }
    var r := h[..|h| - 1];
    AtStageExactly(r, s, p);
    MatchesBelow(r);
    forall m | m in Matches(r) ensures IsAt(h, m, s, p) <==> IsAt(r, m, s, p) { IsAtLater(h, m, s, p); }
    forall m | m in Newest(h) ensures IsAt(h, m, s, p) <==> p in NewestAt(h, s) { NewestIsAt(h, m, s, p); }
    if p in NewestAt(h, s) { assert Newest(h)[0] in Newest(h) && Newest(h)[0] in Matches(h); }
    if p in AtStage(r, s) { var m :| m in Matches(r) && IsAt(r, m, s, p); assert m in Matches(h); }
  }

  lemma IsAtLater(h: Run, m: Match, s: nat, p: Pair)
    requires h != [] && m.first < |h| - 1 && m.second < |h| - 1
    ensures IsAt(h, m, s, p) <==> IsAt(h[..|h| - 1], m, s, p)
  {}

  lemma NewestIsAt(h: Run, m: Match, s: nat, p: Pair)
    requires h != [] && m in Newest(h)
    ensures IsAt(h, m, s, p) <==> p in NewestAt(h, s)
  {}

  predicate IsAt(h: Run, m: Match, s: nat, p: Pair) {
    && m.first < |h| && m.second < |h| && h[m.first].Event? && h[m.second].Event?
    && h[m.second].what.r.stage == s && p == PairOf(h, m)
  }
}
