/** The search among the tracked block requests: what it finds, and how long the order it relies on lasts. */
module RequestSearch {
  import opened RbSpec
  import R = RequestRuns
  import Trackers

  /** `request_track_node_cmp`: positive when `a` lies behind `b`, negative when before it. */
  function Compare(a: R.Track, b: R.Track): int {
    if a.dev > b.dev then 1
    else if a.dev < b.dev then -1
    else if a.sector >= b.sector + b.count then 1
    else if a.sector + a.count <= b.sector then -1
    else 0
  }

  predicate Covers(a: R.Track, x: int) { a.sector <= x < a.sector + a.count }

  /** Some sector is common to both. */
  ghost predicate Share(a: R.Track, b: R.Track) { a.dev == b.dev && exists x :: Covers(a, x) && Covers(b, x) }

  predicate NotEmpty(x: R.Track) { x.count > 0 }

  /** Equal means overlapping, and that means a common sector. */
  lemma EqualIffOverlap(a: R.Track, b: R.Track)
    ensures Compare(a, b) == 0 <==> Trackers.Overlaps(a, b)
    ensures NotEmpty(a) && NotEmpty(b) ==> (Trackers.Overlaps(a, b) <==> Share(a, b))
  {
    if Trackers.Overlaps(a, b) && NotEmpty(a) && NotEmpty(b) {
      var x := if a.sector < b.sector then b.sector else a.sector;
      assert Covers(a, x) && Covers(b, x);
    }
  }

  lemma Opposite(a: R.Track, b: R.Track)
    requires NotEmpty(a) && NotEmpty(b)
    ensures Compare(a, b) == -Compare(b, a)
  {}

  /** Two requests for no sector at one place each lie behind the other. */
  lemma EmptyBehindItself(a: R.Track, b: R.Track)
    requires a.dev == b.dev && a.sector == b.sector && a.count == b.count == 0
    ensures Compare(a, b) == 1 == Compare(b, a)
  {}

  /** What lies before another request does not lie further behind. */
  lemma Monotone(a: R.Track, b: R.Track, r: R.Track)
    requires a.count >= 0 && b.count >= 0 && Compare(a, b) < 0
    ensures Compare(a, r) <= Compare(b, r)
  {}

  ghost predicate Sorted(s: seq<R.Track>) {
    && (forall x :: x in s ==> NotEmpty(x))
    && forall i, j :: 0 <= i < j < |s| ==> Compare(s[i], s[j]) < 0
  }

  lemma SortedParts(l: seq<R.Track>, x: R.Track, r: seq<R.Track>)
    requires Sorted(l + [x] + r)
    ensures Sorted(l) && Sorted(r) && NotEmpty(x)
    ensures (forall a :: a in l ==> Compare(a, x) < 0) && forall b :: b in r ==> Compare(x, b) < 0
  {
    var s := l + [x] + r;
    assert s[|l|] == x && x in s;
    forall a | a in l ensures Compare(a, x) < 0 && NotEmpty(a) {
      var i :| 0 <= i < |l| && l[i] == a;
      assert s[i] == a && a in s;
    }
    forall b | b in r ensures Compare(x, b) < 0 && NotEmpty(b) {
      var i :| 0 <= i < |r| && r[i] == b;
      assert s[|l| + 1 + i] == b && b in s;
    }
    forall i, j | 0 <= i < j < |l| ensures Compare(l[i], l[j]) < 0 { assert s[i] == l[i] && s[j] == l[j]; }
    forall i, j | 0 <= i < j < |r| ensures Compare(r[i], r[j]) < 0 {
      assert s[|l| + 1 + i] == r[i] && s[|l| + 1 + j] == r[j];
    }
  }

  /** Some request of the tree overlaps. */
  ghost predicate Among(t: Tree<R.Track>, r: R.Track) { exists x :: x in InOrder(t) && Trackers.Overlaps(x, r) }

  lemma GoLeft(t: Tree<R.Track>, r: R.Track)
    requires t.T? && Sorted(InOrder(t)) && Compare(t.n, r) > 0
    ensures Sorted(InOrder(t.l)) && (Among(t, r) <==> Among(t.l, r))
  {
    SortedParts(InOrder(t.l), t.n, InOrder(t.r));
    forall x | x in InOrder(t.r) ensures !Trackers.Overlaps(x, r) { Monotone(t.n, x, r); EqualIffOverlap(x, r); }
    EqualIffOverlap(t.n, r);
  }

  lemma GoRight(t: Tree<R.Track>, r: R.Track)
    requires t.T? && Sorted(InOrder(t)) && Compare(t.n, r) < 0
    ensures Sorted(InOrder(t.r)) && (Among(t, r) <==> Among(t.r, r))
  {
    SortedParts(InOrder(t.l), t.n, InOrder(t.r));
    forall x | x in InOrder(t.l) ensures !Trackers.Overlaps(x, r) { Monotone(x, t.n, r); EqualIffOverlap(x, r); }
    EqualIffOverlap(t.n, r);
  }

  /** `rblist__find`, down to the node found or to `Nil`. What it finds is tracked and overlaps; while the requests are
      in order it finds one whenever there is one. */
  method Find(tree: Tree<R.Track>, r: R.Track) returns (hit: Tree<R.Track>)
    requires NotEmpty(r)
    ensures hit.T? ==> hit.n in InOrder(tree) && Trackers.Overlaps(hit.n, r)
    ensures Sorted(InOrder(tree)) ==> (hit.T? <==> Among(tree, r))
  {
    hide Sorted; hide Compare; hide Trackers.Overlaps;
    hit := tree;
    while hit.T?
      invariant forall x :: x in InOrder(hit) ==> x in InOrder(tree)
      invariant Sorted(InOrder(tree)) ==> Sorted(InOrder(hit)) && (Among(tree, r) <==> Among(hit, r))
      decreases hit
    {
      assert hit.n in InOrder(hit);
      EqualIffOverlap(hit.n, r);
      if Compare(hit.n, r) > 0 {
        if Sorted(InOrder(hit)) { GoLeft(hit, r); }
        hit := hit.l;
      } else if Compare(hit.n, r) < 0 {
        if Sorted(InOrder(hit)) { GoRight(hit, r); }
        hit := hit.r;
      } else {
        return;
      }
    }
  }

  /** A request found is overwritten in place. The order lasts exactly if the new one overlaps no other. */
  lemma OverwriteKeepsOrder(s: seq<R.Track>, k: nat, r: R.Track)
    requires Sorted(s) && k < |s| && NotEmpty(r) && Trackers.Overlaps(s[k], r)
    ensures Sorted(s[k := r]) <==> forall j :: 0 <= j < |s| && j != k ==> !Trackers.Overlaps(s[j], r)
  {
    hide Compare; hide Trackers.Overlaps;
    var t := s[k := r];
    EqualIffOverlap(s[k], r);
    forall j | 0 <= j < |s| && j != k
      ensures (j < k ==> (Compare(s[j], r) < 0 <==> !Trackers.Overlaps(s[j], r)))
      ensures (k < j ==> (Compare(r, s[j]) < 0 <==> !Trackers.Overlaps(s[j], r)))
    { Beside(s, k, r, j); }
    if Sorted(t) {
      forall j | 0 <= j < |s| && j != k ensures !Trackers.Overlaps(s[j], r) {
        assert t[j] == s[j] && t[k] == r;
        if j < k { assert Compare(t[j], t[k]) < 0; } else { assert Compare(t[k], t[j]) < 0; }
      }
    }
  }

  lemma Beside(s: seq<R.Track>, k: nat, r: R.Track, j: nat)
    requires Sorted(s) && k < |s| && j < |s| && j != k && NotEmpty(r) && Compare(s[k], r) == 0
    ensures j < k ==> (Compare(s[j], r) < 0 <==> !Trackers.Overlaps(s[j], r))
    ensures k < j ==> (Compare(r, s[j]) < 0 <==> !Trackers.Overlaps(s[j], r))
  {
    hide Compare; hide Trackers.Overlaps;
    assert s[j] in s && s[k] in s;
    EqualIffOverlap(s[j], r);
    Opposite(s[j], r);
    if j < k { Monotone(s[j], s[k], r); } else { Monotone(s[k], s[j], r); }
  }

  /** It need not: the second half of one request and the first of the next. */
  lemma OverwriteBreaksOrder()
    ensures var s := [R.Track(0, 1, 0, 8, 0), R.Track(0, 1, 8, 8, 0)];
            var r := R.Track(2, 1, 4, 8, 5);
            Sorted(s) && Trackers.Overlaps(s[0], r) && !Sorted(s[0 := r])
  {
    var s := [R.Track(0, 1, 0, 8, 0), R.Track(0, 1, 8, 8, 0)];
    var r := R.Track(2, 1, 4, 8, 5);
    OverwriteKeepsOrder(s, 0, r);
    assert Trackers.Overlaps(s[1], r);
  }
}
