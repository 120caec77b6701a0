/** The quantile sketch as it is kept: one array of centroids, the merged ones first. */
module TDigest {
  import opened DigestSpec
  import opened DigestQuantile

  // ----- extremes and permutations -----

  ghost predicate IsMin(s: seq<Centroid>, v: real) {
    (exists c :: c in s && c.mean == v) && forall c :: c in s ==> v <= c.mean
  }

  ghost predicate IsMax(s: seq<Centroid>, v: real) {
    (exists c :: c in s && c.mean == v) && forall c :: c in s ==> c.mean <= v
  }

  lemma SortedEnds(s: seq<Centroid>)
    requires Sorted(s) && s != []
    ensures IsMin(s, s[0].mean) && IsMax(s, s[|s| - 1].mean)
  {
    assert s[0] in s && s[|s| - 1] in s;
  }

  /** Only which centroids there are matters. */
  lemma SameMembers(s: seq<Centroid>, t: seq<Centroid>, v: real)
    requires multiset(s) == multiset(t)
    ensures IsMin(s, v) <==> IsMin(t, v)
    ensures IsMax(s, v) <==> IsMax(t, v)
  {
    assert forall c :: c in s <==> c in multiset(s);
    assert forall c :: c in t <==> c in multiset(t);
    assert forall c :: c in s <==> c in t;
  }

  /** Replacing a part by one with the same extremes. */
  lemma SameExtremes(a: seq<Centroid>, a': seq<Centroid>, b: seq<Centroid>, lo: real, hi: real, v: real, w: real)
    requires IsMin(a, lo) && IsMin(a', lo) && IsMax(a, hi) && IsMax(a', hi)
    ensures IsMin(a + b, v) ==> IsMin(a' + b, v)
    ensures IsMax(a + b, w) ==> IsMax(a' + b, w)
  {
    if IsMin(a + b, v) {
      var c :| c in a' && c.mean == lo;
      var d :| d in a + b && d.mean == v;
      assert c in a' + b && (d in b ==> d in a' + b);
      assert forall x :: x in b ==> x in a + b;
      var e :| e in a && e.mean == lo;
      assert e in a + b;
      assert if d in b then d in a' + b && d.mean == v else c.mean == v;
    }
    if IsMax(a + b, w) {
      var c :| c in a' && c.mean == hi;
      var d :| d in a + b && d.mean == w;
      assert c in a' + b && (d in b ==> d in a' + b);
      assert forall x :: x in b ==> x in a + b;
      var e :| e in a && e.mean == hi;
      assert e in a + b;
      assert if d in b then d in a' + b && d.mean == w else c.mean == w;
    }
  }

  lemma RemoveOne(b: seq<Centroid>, j: nat)
    requires j < |b|
    ensures multiset(b[..j] + b[j + 1..]) == multiset(b) - multiset{b[j]}
    ensures Weight(b) == Weight(b[..j] + b[j + 1..]) + b[j].weight
    ensures Sum(b) == Sum(b[..j] + b[j + 1..]) + b[j].mean * b[j].weight as real
  {
    hide Weight; hide Sum;
    var l, x, r := b[..j], b[j], b[j + 1..];
    assert b == l + ([x] + r);
    BagOf(l, x, r);
    WeightAppend(l, [x] + r);
    WeightAppend(l, r);
    WeightFirst(x, r);
    SumAppend(l, [x] + r);
    SumAppend(l, r);
    SumAppend([x], r);
    SumOne(x);
  }

  lemma BagOf(l: seq<Centroid>, x: Centroid, r: seq<Centroid>)
    ensures multiset(l + r) == multiset(l + ([x] + r)) - multiset{x}
  {
    assert multiset(l + ([x] + r)) == multiset(l) + (multiset{x} + multiset(r));
  }

  lemma WeightFirst(x: Centroid, r: seq<Centroid>)
    ensures Weight([x] + r) == x.weight + Weight(r)
  {
    assert ([x] + r)[1..] == r;
  }

  lemma {:induction false} WeightPerm(a: seq<Centroid>, b: seq<Centroid>)
    requires multiset(a) == multiset(b)
    ensures Weight(a) == Weight(b) && Sum(a) == Sum(b)
  {
    hide Weight; hide Sum;
    if a == [] {
      assert |multiset(b)| == 0;
    } else {
      var j := PlaceOf(a, b);
      assert a[..0] + a[1..] == a[1..];
      RemoveOne(a, 0);
      RemoveOne(b, j);
      WeightPerm(a[1..], b[..j] + b[j + 1..]);
    }
  }

  lemma PlaceOf(a: seq<Centroid>, b: seq<Centroid>) returns (j: nat)
    requires a != [] && multiset(a) == multiset(b)
    ensures j < |b| && b[j] == a[0]
  {
    assert a[0] in multiset(a);
    j :| 0 <= j < |b| && b[j] == a[0];
  }

  lemma PositivePerm(a: seq<Centroid>, b: seq<Centroid>)
    requires multiset(a) == multiset(b) && Positive(a)
    ensures Positive(b)
  {
    forall i | 0 <= i < |b| ensures b[i].weight >= 1 { assert b[i] in multiset(b); }
  }

  // ----- the sketch -----

  lemma PassKeeps(s: seq<Centroid>, z: real)
    requires s != [] && Positive(s) && Sorted(s) && Weight(s) > 0
    ensures var r := Compacted(s, z); Sorted(r) && Positive(r) && Weight(r) == Weight(s) && Sum(r) == Sum(s)
  {
    hide Pass; hide Weight; hide Sum; hide Sorted; hide Positive;
    assert s == [s[0]] + s[1..];
    Parts(s);
    PassWeight(s[0], s[1..], 0, Weight(s), z);
    PassSum(s[0], s[1..], 0, Weight(s), z);
    PassSorted(s[0], s[1..], 0, Weight(s), z);
  }

  lemma Parts(s: seq<Centroid>)
    requires s != [] && Positive(s)
    ensures Weight(s) == s[0].weight + Weight(s[1..]) && Sum(s) == s[0].mean * s[0].weight as real + Sum(s[1..])
    ensures s[0].weight >= 1 && Positive(s[1..])
  {}

  /** What a merge of all centroids, sorted as `order`, yields. */
  lemma MergeFacts(all: seq<Centroid>, order: seq<Centroid>, z: real)
    requires all != [] && Positive(all) && Sorted(order) && multiset(order) == multiset(all)
    ensures order != [] && Positive(order) && Weight(order) == Weight(all) > 0
    ensures var r := Compacted(order, z);
            && Sorted(r) && Positive(r) && Weight(r) == Weight(all) && Sum(r) == Sum(all)
            && r[0] == order[0] && r[|r| - 1] == order[|order| - 1]
    ensures IsMin(all, order[0].mean) && IsMax(all, order[|order| - 1].mean)
  {
    hide Sum; hide Pass;
    assert |multiset(order)| == |multiset(all)|;
    PositivePerm(all, order);
    WeightPerm(all, order);
    WeightPositive(all);
    PassKeeps(order, z);
    EndsKept(order, z);
    SortedEnds(order);
    SameMembers(order, all, order[0].mean);
    SameMembers(order, all, order[|order| - 1].mean);
  }

  /** The smallest and largest samples seen by the last merge are the outer centroids; `min` is the
      smallest, `max` the largest but never below its initial value. */
  ghost predicate Extremes(m: seq<Centroid>, min: real, max: real, maxDouble: real, minDouble: real,
                           seen: seq<Centroid>) {
    if seen == [] then m == [] && min == maxDouble && max == minDouble
    else
      && m != [] && IsMin(seen, m[0].mean) && IsMax(seen, m[|m| - 1].mean)
      && min == m[0].mean && max == Max(minDouble, m[|m| - 1].mean)
  }

  ghost predicate Within(added: seq<Centroid>, maxDouble: real) {
    forall c :: c in added ==> c.mean <= maxDouble && c.weight >= 1
  }

  /** The first `merged` of `all` centroids are merged; they and the rest stand for all of `added`. */
  ghost predicate Sound(all: seq<Centroid>, merged: nat, mergedWeight: int, unmergedWeight: int, min: real, max: real,
                        maxDouble: real, minDouble: real, added: seq<Centroid>, seen: seq<Centroid>) {
    && merged <= |all| && Positive(all) && Sorted(all[..merged])
    && mergedWeight == Weight(all[..merged]) && unmergedWeight == Weight(all[merged..])
    && Weight(added) == mergedWeight + unmergedWeight && Sum(added) == Sum(all)
    && Extremes(all[..merged], min, max, maxDouble, minDouble, seen)
    && added == seen + all[merged..] && Within(added, maxDouble)
  }

  lemma AddedExtremes(m: seq<Centroid>, u: seq<Centroid>, min: real, max: real, maxDouble: real, minDouble: real,
                      seen: seq<Centroid>, lo: real, hi: real)
    requires Sorted(m) && Extremes(m, min, max, maxDouble, minDouble, seen) && Within(seen + u, maxDouble)
    requires IsMin(m + u, lo) && IsMax(m + u, hi)
    ensures IsMin(seen + u, lo) && IsMax(seen + u, hi) && Min(min, lo) == lo && Max(max, hi) == Max(minDouble, hi)
  {
    if seen == [] {
      assert m + u == u && seen + u == u;
    } else {
      SortedEnds(m);
      hide Sorted;
      SameExtremes(m, seen, u, m[0].mean, m[|m| - 1].mean, lo, hi);
      assert (m + u)[0] == m[0] && (m + u)[|m| - 1] == m[|m| - 1];
      OuterBounds(m + u, |m| - 1, lo, hi);
    }
  }

  lemma OuterBounds(s: seq<Centroid>, k: nat, lo: real, hi: real)
    requires k < |s| && IsMin(s, lo) && IsMax(s, hi)
    ensures lo <= s[0].mean && s[k].mean <= hi
  {
    assert s[0] in s && s[k] in s;
  }

  /** The books after a merge. */
  lemma MergeSound(all: seq<Centroid>, merged: nat, mergedWeight: int, unmergedWeight: int, min: real, max: real,
                   maxDouble: real, minDouble: real, added: seq<Centroid>, seen: seq<Centroid>, order: seq<Centroid>,
                   z: real)
    requires Sound(all, merged, mergedWeight, unmergedWeight, min, max, maxDouble, minDouble, added, seen) && all != []
    requires Sorted(order) && multiset(order) == multiset(all)
    ensures order != [] && |order| == |all| && Positive(order) && Weight(order) == mergedWeight + unmergedWeight > 0
    ensures var r := Compacted(order, z);
            Sound(r, |r|, Weight(order), 0, Min(min, r[0].mean), Max(max, r[|r| - 1].mean), maxDouble, minDouble,
                  added, added)
  {
    hide Compacted; hide IsMin; hide IsMax; hide Weight; hide Sum; hide Positive; hide Sorted;
    hide Within;
    var m, u := all[..merged], all[merged..];
    assert all == m + u;
    MergeFacts(all, order, z);
    WeightAppend(m, u);
    assert |multiset(order)| == |multiset(all)|;
    AddedExtremes(m, u, min, max, maxDouble, minDouble, seen, order[0].mean, order[|order| - 1].mean);
    var r := Compacted(order, z);
    assert r[..|r|] == r && r[|r|..] == [] && added + r[|r|..] == added;
    assert added != [] by { AddedSome(added, order[0].mean); }
    assert Weight([]) == 0 by { WeightNone(); }
  }

  lemma WeightNone()
    ensures Weight([]) == 0
  {}

  lemma AddedSome(s: seq<Centroid>, v: real)
    requires IsMin(s, v)
    ensures s != []
  {}

  /** One more sample. */
  lemma AppendSound(all: seq<Centroid>, merged: nat, mergedWeight: int, unmergedWeight: int, min: real, max: real,
                    maxDouble: real, minDouble: real, added: seq<Centroid>, seen: seq<Centroid>, c: Centroid)
    requires Sound(all, merged, mergedWeight, unmergedWeight, min, max, maxDouble, minDouble, added, seen)
    requires c.weight >= 1 && c.mean <= maxDouble
    ensures Sound(all + [c], merged, mergedWeight, unmergedWeight + c.weight, min, max, maxDouble, minDouble,
                  added + [c], seen)
  {
    hide Sorted; hide Extremes;
    assert (all + [c])[..merged] == all[..merged] && (all + [c])[merged..] == all[merged..] + [c];
    WeightAppend(all[merged..], [c]);
    WeightAppend(added, [c]);
    SumAppend(all, [c]);
    SumAppend(added, [c]);
    SumOne(c);
    assert added + [c] == seen + (all[merged..] + [c]);
  }

  /** What a query needs to know about a merged digest. */
  lemma ViewGood(all: seq<Centroid>, mergedWeight: int, min: real, max: real, maxDouble: real, minDouble: real,
                 added: seq<Centroid>)
    requires Sound(all, |all|, mergedWeight, 0, min, max, maxDouble, minDouble, added, added)
    ensures Good(Digest(all, min, max)) && mergedWeight == Weight(all) == Weight(added) && Sum(all) == Sum(added)
    ensures added != [] ==> all != [] && IsMin(added, min) && exists m :: IsMax(added, m) && max == Max(minDouble, m)
    ensures added != [] ==> (IsMax(added, max) <==> exists c :: c in added && c.mean >= minDouble)
  {
    assert all[..|all|] == all;
    hide Sound; hide Sorted;
    if added != [] {
      SoundExtremes(all, mergedWeight, min, max, maxDouble, minDouble, added);
      MaxExactly(added, all[|all| - 1].mean, max, minDouble);
    }
  }

  lemma SoundExtremes(all: seq<Centroid>, mergedWeight: int, min: real, max: real, maxDouble: real, minDouble: real,
                      added: seq<Centroid>)
    requires Sound(all, |all|, mergedWeight, 0, min, max, maxDouble, minDouble, added, added)
    ensures Extremes(all, min, max, maxDouble, minDouble, added)
  {
    assert all[..|all|] == all;
  }

  /** The recorded maximum is the largest sample exactly when some sample reaches its initial value. */
  lemma MaxExactly(added: seq<Centroid>, hi: real, max: real, minDouble: real)
    requires IsMax(added, hi) && max == Max(minDouble, hi)
    ensures IsMax(added, max) <==> exists c :: c in added && c.mean >= minDouble
  {
    var c :| c in added && c.mean == hi;
    if hi >= minDouble { assert c in added && c.mean >= minDouble; }
  }

  /** All answers lie between the smallest and the largest sample exactly when there is only one centroid or
      the largest sample reaches the initial value of the maximum. */
  lemma AnswersAmongSamples(all: seq<Centroid>, mergedWeight: int, min: real, max: real, maxDouble: real,
                            minDouble: real,
                            added: seq<Centroid>, hi: real)
    requires Sound(all, |all|, mergedWeight, 0, min, max, maxDouble, minDouble, added, added) && IsMax(added, hi)
    ensures IsMin(added, min)
    ensures (forall q :: Quantile(Digest(all, min, max), q).Val? ==> min <= Quantile(Digest(all, min, max), q).v <= hi)
            <==> |all| < 2 || hi >= minDouble
  {
    hide Sound; hide Sorted; hide Quantile; hide Good;
    var d := Digest(all, min, max);
    assert added != [];
    ViewGood(all, mergedWeight, min, max, maxDouble, minDouble, added);
    SoundExtremes(all, mergedWeight, min, max, maxDouble, minDouble, added);
    var top := all[|all| - 1].mean;
    assert top == hi by { SameMax(added, top, hi); }
    if |all| < 2 {
      forall q | Quantile(d, q).Val? ensures min <= Quantile(d, q).v <= hi { OneAnswer(d, q); }
    } else {
      forall q | Quantile(d, q).Val? ensures min <= Quantile(d, q).v <= max { WithinMinMax(d, q); }
      LastQuantile(d);
    }
  }

  lemma SameMax(s: seq<Centroid>, a: real, b: real)
    requires IsMax(s, a) && IsMax(s, b)
    ensures a == b
  {}

  lemma OneAnswer(d: Digest, q: real)
    requires |d.s| == 1 && Quantile(d, q).Val?
    ensures Quantile(d, q).v == d.s[0].mean
  {}

  /** Two negative samples: the last quantile is the initial value of the maximum, above both. */
  lemma NegativeSamples(maxDouble: real, minDouble: real)
    requires 0.0 < minDouble < maxDouble
    ensures var s := [Centroid(-2.0, 1), Centroid(-1.0, 1)];
            && Sound(s, 2, 2, 0, -2.0, minDouble, maxDouble, minDouble, s, s)
            && Quantile(Digest(s, -2.0, minDouble), 1.0) == Val(minDouble)
  {
    var s := [Centroid(-2.0, 1), Centroid(-1.0, 1)];
    assert s[1..] == [Centroid(-1.0, 1)] && s[1..][1..] == [];
    assert Weight(s[1..]) == 1 && Weight(s) == 2;
    assert s[..2] == s && s[2..] == [] && s + [] == s;
    SortedEnds(s);
    LastQuantile(Digest(s, -2.0, minDouble));
  }

  class Sketch {
    var centroids: array<Centroid>
    var merged: nat
    var unmerged: nat
    var mergedWeight: int
    var unmergedWeight: int
    var min: real
    var max: real
    const maxDouble: real
    const minDouble: real
    ghost var added: seq<Centroid>  // every sample added
    ghost var seen: seq<Centroid>   // those before the last merge

    constructor (cap: nat, maxDouble: real, minDouble: real)
      ensures Valid() && added == [] && fresh(centroids) && centroids.Length == cap
      ensures this.maxDouble == maxDouble && this.minDouble == minDouble
    {
      centroids := new Centroid[cap](_ => Centroid(0.0, 0));
      merged, unmerged, mergedWeight, unmergedWeight := 0, 0, 0, 0;
      min, max := maxDouble, minDouble;
      this.maxDouble, this.minDouble := maxDouble, minDouble;
      added, seen := [], [];
    }

    ghost predicate Valid()
      reads this, centroids
    {
      && merged + unmerged <= centroids.Length
      && Sound(centroids[..merged + unmerged], merged, mergedWeight, unmergedWeight, min, max, maxDouble, minDouble,
               added, seen)
    }

    /** The digest a query looks at. */
    ghost function View(): Digest
      requires merged <= centroids.Length
      reads this, centroids
    { Digest(centroids[..merged], min, max) }

    /** The array after `qsort`: some sorted order of the first centroids. */
    method Place(order: seq<Centroid>)
      requires |order| <= centroids.Length
      modifies centroids
      ensures centroids[..|order|] == order && centroids[|order|..] == old(centroids[|order|..])
    {
      var i := 0;
      while i < |order|
        invariant 0 <= i <= |order| && centroids[..i] == order[..i] && centroids[|order|..] == old(centroids[|order|..])
      {
        centroids[i] := order[i];
        assert centroids[..i + 1] == order[..i + 1];
        i := i + 1;
      }
    }

    /** The loop of `merge`, in place: each centroid joins the current one or becomes it. */
    method Compact(n: nat, total: int, z: real) returns (last: nat)
      requires 1 <= n <= centroids.Length && Positive(centroids[..n]) && total == Weight(centroids[..n]) && total > 0
      modifies centroids
      ensures last < n && centroids[..last + 1] == Compacted(old(centroids[..n]), z)
      ensures centroids[n..] == old(centroids[n..]) && forall j :: last < j < n ==> centroids[j] == Centroid(0.0, 0)
    {
      ghost var s := centroids[..n];
      ghost var goal := Compacted(s, z);
      assert goal == Pass(s[0], s[1..], 0, total, z);
      hide Weight; hide Compacted;
      var before := 0;
      var cur, i := 0, 1;
      while i < n
        invariant 0 <= cur < i <= n && centroids[cur].weight >= 1
        invariant forall j :: i <= j < n ==> centroids[j] == s[j]
        invariant forall j :: n <= j < centroids.Length ==> centroids[j] == old(centroids[j])
        invariant forall j :: cur < j < i ==> centroids[j] == Centroid(0.0, 0)
        invariant goal == centroids[..cur] + Pass(centroids[cur], s[i..], before, total, z)
      {
        assert centroids[i] == s[i] && s[i..][0] == s[i] && s[i..][1..] == s[i + 1..];
        cur, before := JoinOrMove(cur, i, before, total, z, s[i..]);
        i := i + 1;
      }
      last := cur;
      assert s[n..] == [] && centroids[..cur + 1] == centroids[..cur] + [centroids[cur]];
    }

    /** One turn of that loop. */
    method JoinOrMove(cur: nat, i: nat, before: int, total: int, z: real, ghost rest: seq<Centroid>) returns (cur': nat,
                      before': int)
      requires cur < i < centroids.Length && total > 0 && centroids[cur].weight >= 1 && rest != []
      requires rest[0] == centroids[i] && Positive(rest)
      requires forall j :: cur < j < i ==> centroids[j] == Centroid(0.0, 0)
      modifies centroids
      ensures cur' <= i && centroids[cur'].weight >= 1 && forall j :: i < j < centroids.Length ==>
                centroids[j] == old(centroids[j])
      ensures forall j :: cur' < j < i + 1 ==> centroids[j] == Centroid(0.0, 0)
      ensures centroids[..cur'] + Pass(centroids[cur'], rest[1..], before', total, z) ==
              old(centroids[..cur]) + Pass(old(centroids[cur]), rest, before, total, z)
    {
      var c, x := centroids[cur], centroids[i];
      cur', before' := cur, before;
      if Joins(c.weight, x.weight, before, total, z) {
        centroids[cur] := Absorb(c, x);
        assert centroids[..cur] == old(centroids[..cur]);
      } else {
        before' := before + c.weight;
        cur' := cur + 1;
        centroids[cur'] := x;
        assert centroids[..cur'] == old(centroids[..cur]) + [c];
      }
      if cur' != i { centroids[i] := Centroid(0.0, 0); }
    }

    lemma NothingNew()
      requires Valid() && unmerged == 0
      ensures seen == added
    {
      assert centroids[..merged + unmerged][merged..] == [];
    }

    /** `merge`: `order` is what sorting leaves, `z` the scale for the total weight. */
    method Merge(order: seq<Centroid>, z: real)
      requires Valid()
      requires (unmerged > 0 ==> Sorted(order) && multiset(order) == multiset(centroids[..merged + unmerged]))
      modifies this`merged, this`unmerged, this`mergedWeight, this`unmergedWeight, this`min, this`max, this`seen
      modifies centroids
      ensures Valid() && unmerged == 0 && seen == added
      ensures old(unmerged) > 0 ==>
                order != [] && Positive(order) && Weight(order) > 0 && centroids[..merged] == Compacted(order, z)
    {
      hide Compacted; hide Sound; hide Weight; hide Positive; hide Sorted;
      if unmerged == 0 {
        NothingNew();
        return;
      }
      var n := merged + unmerged;
      MergeSound(centroids[..n], merged, mergedWeight, unmergedWeight, min, max, maxDouble, minDouble, added, seen,
                 order, z);
      var total := mergedWeight + unmergedWeight;
      Place(order);
      var last := Compact(n, total, z);
      ghost var r := centroids[..last + 1];
      assert r[0] == centroids[0] && r[|r| - 1] == centroids[last];
      Settle(last, total);
    }

    /** The counters and extremes after the loop. */
    method Settle(last: nat, total: int)
      requires last < centroids.Length
      requires Sound(centroids[..last + 1], last + 1, total, 0, Min(min, centroids[0].mean),
                     Max(max, centroids[last].mean), maxDouble, minDouble, added, added)
      modifies this`merged, this`unmerged, this`mergedWeight, this`unmergedWeight, this`min, this`max, this`seen
      ensures Valid() && unmerged == 0 && seen == added && merged == last + 1
    {
      hide Sound;
      merged, mergedWeight, unmerged, unmergedWeight := last + 1, total, 0, 0;
      min := Min(min, centroids[0].mean);
      max := Max(max, centroids[merged - 1].mean);
      seen := added;
    }

    /** `tdigest_add`: a full array is merged first; the merge must leave room. */
    method Add(mean: real, weight: int, order: seq<Centroid>, z: real)
      requires Valid() && weight >= 1 && mean <= maxDouble
      requires merged + unmerged == centroids.Length ==>
                 && unmerged > 0 && Sorted(order) && multiset(order) == multiset(centroids[..merged + unmerged])
                 && order != [] && Positive(order) && Weight(order) > 0 && |Compacted(order, z)| < centroids.Length
      modifies this, centroids
      ensures Valid() && added == old(added) + [Centroid(mean, weight)] && centroids == old(centroids)
    {
      hide Sound; hide Compacted; hide Weight; hide Positive; hide Sorted;
      if merged + unmerged == centroids.Length {
        Merge(order, z);
      }
      Push(mean, weight);
    }

    /** The sample goes behind the others. */
    method Push(mean: real, weight: int)
      requires Valid() && weight >= 1 && mean <= maxDouble && merged + unmerged < centroids.Length
      modifies this`unmerged, this`unmergedWeight, this`added, centroids
      ensures Valid() && added == old(added) + [Centroid(mean, weight)]
    {
      hide Sound;
      var n := merged + unmerged;
      AppendSound(centroids[..n], merged, mergedWeight, unmergedWeight, min, max, maxDouble, minDouble, added, seen,
                  Centroid(mean, weight));
      centroids[n] := Centroid(mean, weight);
      unmerged := unmerged + 1;
      unmergedWeight := unmergedWeight + weight;
      added := added + [Centroid(mean, weight)];
      assert centroids[..n + 1] == centroids[..n] + [Centroid(mean, weight)];
    }

    /** `tdigest_quantile`: merge, then look the quantile up. */
    method QuantileOf(q: real, order: seq<Centroid>, z: real) returns (r: Answer)
      requires Valid()
      requires (unmerged > 0 ==> Sorted(order) && multiset(order) == multiset(centroids[..merged + unmerged]))
      modifies this`merged, this`unmerged, this`mergedWeight, this`unmergedWeight, this`min, this`max, this`seen
      modifies centroids
      ensures Valid() && unmerged == 0 && added == old(added) && Good(View()) && r == Quantile(View(), q)
      ensures Weight(View().s) == Weight(added) && Sum(View().s) == Sum(added)
      ensures added != [] ==> IsMin(added, min) && exists m :: IsMax(added, m) && max == Max(minDouble, m)
      ensures forall hi :: IsMax(added, hi) && (merged < 2 || hi >= minDouble) && r.Val? ==> min <= r.v <= hi
    {
      hide Sound; hide At; hide Weight; hide Sum; hide Good;
      Merge(order, z);
      assert centroids[..merged + unmerged] == View().s;
      UnmergedNone();
      ViewGood(View().s, mergedWeight, min, max, maxDouble, minDouble, added);
      if q < 0.0 || q > 1.0 || merged == 0 { return NaN; }
      Bounded(q);
      if merged == 1 { return Val(centroids[0].mean); }
      var index := q * mergedWeight as real;
      assert index == Index(View(), q);
      r := LookUp(index);
    }

    lemma Bounded(q: real)
      requires Valid() && unmerged == 0 && seen == added
      ensures var r := Quantile(View(), q);
              forall hi :: IsMax(added, hi) && (merged < 2 || hi >= minDouble) && r.Val? ==> min <= r.v <= hi
    {
      hide Sound; hide Quantile; hide IsMax;
      UnmergedNone();
      assert centroids[..merged + unmerged] == View().s;
      forall hi | IsMax(added, hi) && (merged < 2 || hi >= minDouble) && Quantile(View(), q).Val?
        ensures min <= Quantile(View(), q).v <= hi
      {
        AnswersAmongSamples(View().s, mergedWeight, min, max, maxDouble, minDouble, added, hi);
      }
    }

    lemma UnmergedNone()
      requires Valid() && unmerged == 0
      ensures unmergedWeight == 0
    {
      assert centroids[..merged + unmerged][merged..] == [];
    }

    /** The value at an index into at least two merged centroids. */
    method LookUp(index: real) returns (r: Answer)
      requires 2 <= merged <= centroids.Length && Good(View()) && mergedWeight == Weight(View().s)
      ensures r == At(View(), index)
    {
      hide Weight; hide Gap; hide Bracketed; hide Good;
      ghost var d := View();
      var first, last := centroids[0], centroids[merged - 1];
      assert first == First(d) && last == Last(d);
      if index < 1.0 { return Val(min); }
      if first.weight > 1 && index < first.weight as real / 2.0 {
        return Val(min + Share(index - 1.0, first.weight as real / 2.0 - 1.0, first.mean - min));
      }
      if index > mergedWeight as real - 1.0 { return Val(max); }
      if last.weight > 1 && mergedWeight as real - index <= last.weight as real / 2.0 {
        var half := last.weight as real / 2.0 - 1.0;
        if half == 0.0 { return NaN; } // 0 / 0
        return Val(max - Share(mergedWeight as real - index - 1.0, half, max - last.mean));
      }
      AlwaysInGap(d, index);
      r := Interpolate(index);
    }

    /** The loop over the gaps between centroids; an index inside one is found before it ends. */
    method Interpolate(index: real) returns (r: Answer)
      requires 2 <= merged <= centroids.Length && Good(View()) && InBracket(View().s, Gap(View().s, 0, index), index)
      ensures r == Bracketed(View().s, Gap(View().s, 0, index), index)
    {
      ghost var s := View().s;
      CenterEnds(s);
      hide Center; hide Weight; hide Good;
      var before := centroids[0].weight as real / 2.0;
      var i := 0;
      while i < merged - 1
        invariant 0 <= i < merged && before == Center(s, i) && Gap(s, 0, index) == Gap(s, i, index)
      {
        var c, x := centroids[i], centroids[i + 1];
        assert c == s[i] && x == s[i + 1];
        CenterNext(s, i);
        var dw := (c.weight + x.weight) as real / 2.0;
        if before + dw > index {
          r := InGap(c, x, before, dw, index, i);
          return;
        }
        before := before + dw;
        i := i + 1;
      }
      assert false;
    }

    method InGap(c: Centroid, x: Centroid, before: real, dw: real, index: real, ghost i: nat) returns (r: Answer)
      requires merged <= centroids.Length && i + 1 < merged && c == View().s[i] && x == View().s[i + 1]
      requires before == Center(View().s, i) && dw == (c.weight + x.weight) as real / 2.0
      ensures r == Bracketed(View().s, i, index)
    {
      hide Center;
      var leftUnit, rightUnit := 0.0, 0.0;
      if c.weight == 1 {
        if index - before < 0.5 { return Val(c.mean); }
        leftUnit := 0.5;
      }
      if x.weight == 1 {
        if before + dw - index <= 0.5 { return Val(x.mean); }
        rightUnit := 0.5;
      }
      var z1 := index - before - leftUnit;
      var z2 := before + dw - index - rightUnit;
      r := if z2 + z1 > 0.0 then Val(Average(c.mean, z2, x.mean, z1)) else NaN;
    }
  }
}
