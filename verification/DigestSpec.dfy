/** A merging quantile sketch over real numbers: the merge pass and the quantile of a fixed digest. */
module DigestSpec {

  /** Weights are whole numbers of samples. */
  datatype Centroid = Centroid(mean: real, weight: int)

  predicate Positive(s: seq<Centroid>) { forall i :: 0 <= i < |s| ==> s[i].weight >= 1 }

  predicate Sorted(s: seq<Centroid>) { forall i, j :: 0 <= i < j < |s| ==> s[i].mean <= s[j].mean }

  function Weight(s: seq<Centroid>): int { if s == [] then 0 else s[0].weight + Weight(s[1..]) }

  lemma {:induction false} WeightAppend(a: seq<Centroid>, b: seq<Centroid>)
    ensures Weight(a + b) == Weight(a) + Weight(b)
  {
    if a == [] { assert a + b == b; } else {
      assert (a + b)[1..] == a[1..] + b;
      WeightAppend(a[1..], b);
    }
  }

  lemma {:induction false} WeightPositive(s: seq<Centroid>)
    requires Positive(s)
    ensures Weight(s) >= |s|
  {
    if s != [] { WeightPositive(s[1..]); }
  }

  // ----- the merge pass -----

  function Min(a: real, b: real): real { if a < b then a else b }
  function Max(a: real, b: real): real { if a > b then a else b }

  /** Whether `x` joins the current centroid of weight `w` after `before` samples of `total`. */
  predicate Joins(w: int, x: int, before: int, total: int, z: real)
    requires total > 0
  {
    var q0 := before as real / total as real;
    var q2 := (before + w + x) as real / total as real;
    (w + x) as real <= z * Min(q0 * (1.0 - q0), q2 * (1.0 - q2))
  }

  function Absorb(c: Centroid, x: Centroid): Centroid
    requires c.weight + x.weight != 0
  {
    var w := c.weight + x.weight;
    Centroid(c.mean + (x.mean - c.mean) * x.weight as real / w as real, w)
  }

  /** The centroids left of `[c] + rest` after `before` samples. */
  function Pass(c: Centroid, rest: seq<Centroid>, before: int, total: int, z: real): (r: seq<Centroid>)
    requires total > 0 && c.weight >= 1 && Positive(rest)
    ensures 1 <= |r| <= 1 + |rest|
    decreases |rest|
  {
    if rest == [] then [c]
    else if Joins(c.weight, rest[0].weight, before, total, z) then Pass(Absorb(c, rest[0]), rest[1..], before, total, z)
    else [c] + Pass(rest[0], rest[1..], before + c.weight, total, z)
  }

  /** All centroids, sorted, after one pass. */
  function Compacted(s: seq<Centroid>, z: real): (r: seq<Centroid>)
    requires s != [] && Positive(s) && Weight(s) > 0
    ensures 1 <= |r| <= |s|
  { Pass(s[0], s[1..], 0, Weight(s), z) }

  lemma {:induction false} PassWeight(c: Centroid, rest: seq<Centroid>, before: int, total: int, z: real)
    requires total > 0 && c.weight >= 1 && Positive(rest)
    ensures Weight(Pass(c, rest, before, total, z)) == c.weight + Weight(rest)
    ensures Positive(Pass(c, rest, before, total, z))
    decreases |rest|
  {
    if rest != [] {
      if Joins(c.weight, rest[0].weight, before, total, z) {
        PassWeight(Absorb(c, rest[0]), rest[1..], before, total, z);
      }
      else {
        PassWeight(rest[0], rest[1..], before + c.weight, total, z);
        assert ([c] + Pass(rest[0], rest[1..], before + c.weight, total, z))[1..] ==
               Pass(rest[0], rest[1..], before + c.weight, total, z);
      }
    }
  }

  /** An average lies between what it averages. */
  lemma Between(a: real, b: real, x: int, w: int)
    requires a <= b && 0 <= x <= w && w >= 1
    ensures a <= a + (b - a) * x as real / w as real <= b
  {
    var d, t := b - a, x as real / w as real;
    assert 0.0 <= t <= 1.0;
    assert (b - a) * x as real / w as real == d * t;
    assert 0.0 <= d * t <= d;
  }

  lemma AbsorbBetween(c: Centroid, x: Centroid)
    requires c.mean <= x.mean && c.weight >= 1 && x.weight >= 1
    ensures c.mean <= Absorb(c, x).mean <= x.mean
  {
    var w := c.weight + x.weight;
    Between(c.mean, x.mean, x.weight, w);
    var m := c.mean + (x.mean - c.mean) * x.weight as real / w as real;
    assert Absorb(c, x).mean == m;
  }

  lemma AbsorbWeight(c: Centroid, x: Centroid)
    requires c.weight >= 1 && x.weight >= 1
    ensures Absorb(c, x).weight == c.weight + x.weight
  {}

  predicate AtLeast(s: seq<Centroid>, m: real) { forall i :: 0 <= i < |s| ==> m <= s[i].mean }

  predicate AtMost(s: seq<Centroid>, m: real) { forall i :: 0 <= i < |s| ==> s[i].mean <= m }

  lemma SortedParts(c: Centroid, rest: seq<Centroid>)
    requires Sorted([c] + rest) && rest != []
    ensures c.mean <= rest[0].mean && Sorted(rest) && Sorted(rest[1..]) && AtLeast(rest[1..], rest[0].mean)
  {
    var s := [c] + rest;
    assert s[0] == c && s[1] == rest[0];
    assert forall i :: 0 <= i < |rest| ==> rest[i] == s[i + 1];
  }

  lemma SortedFront(c: Centroid, s: seq<Centroid>)
    requires Sorted(s) && AtLeast(s, c.mean)
    ensures Sorted([c] + s)
  {}

  lemma Lower(s: seq<Centroid>, m: real, m': real)
    requires AtLeast(s, m) && m' <= m
    ensures AtLeast(s, m')
  {}

  /** The means stay sorted. */
  lemma {:induction false} PassSorted(c: Centroid, rest: seq<Centroid>, before: int, total: int, z: real)
    requires total > 0 && c.weight >= 1 && Positive(rest) && Sorted([c] + rest)
    ensures Sorted(Pass(c, rest, before, total, z)) && AtLeast(Pass(c, rest, before, total, z), c.mean)
    decreases |rest|
  {
    if rest != [] {
      hide Sorted; hide AtLeast; hide Joins; hide Absorb;
      AbsorbWeight(c, rest[0]);
      var t := rest[1..];
      SortedParts(c, rest);
      if Joins(c.weight, rest[0].weight, before, total, z) {
        var d := Absorb(c, rest[0]);
        AbsorbBetween(c, rest[0]);
        Lower(t, rest[0].mean, d.mean);
        SortedFront(d, t);
        PassSorted(d, t, before, total, z);
        Lower(Pass(d, t, before, total, z), d.mean, c.mean);
      } else {
        var r := Pass(rest[0], t, before + c.weight, total, z);
        SortedFront(rest[0], t);
        PassSorted(rest[0], t, before + c.weight, total, z);
        Lower(r, rest[0].mean, c.mean);
        SortedFront(c, r);
        FrontAtLeast(c, r);
      }
    } else {
      assert Pass(c, rest, before, total, z) == [c];
    }
  }

  lemma FrontAtLeast(c: Centroid, s: seq<Centroid>)
    requires AtLeast(s, c.mean)
    ensures AtLeast([c] + s, c.mean)
  {}

  /** Nothing joins the first centroid, whatever the scale. */
  lemma FirstAlone(w: int, x: int, total: int, z: real)
    requires w >= 1 && x >= 1 && w + x <= total
    ensures !Joins(w, x, 0, total, z)
  {
    var q := (w + x) as real / total as real;
    assert 0.0 <= q <= 1.0;
    Product(q, 1.0 - q);
    assert Min(0.0, q * (1.0 - q)) == 0.0;
  }

  lemma Product(a: real, b: real)
    requires 0.0 <= a && 0.0 <= b
    ensures 0.0 <= a * b
  {}

  /** The last one joins nothing. */
  lemma LastAlone(w: int, x: int, before: int, total: int, z: real)
    requires w >= 1 && x >= 1 && before >= 0 && before + w + x == total
    ensures !Joins(w, x, before, total, z)
  {
    var q := before as real / total as real;
    assert 0.0 <= q <= 1.0;
    assert total as real / total as real == 1.0;
    Product(q, 1.0 - q);
    assert Min(q * (1.0 - q), 1.0 * (1.0 - 1.0)) == 0.0;
  }

  /** The last centroid comes out as it went in. */
  lemma {:induction false} PassLast(c: Centroid, rest: seq<Centroid>, before: int, total: int, z: real)
    requires total > 0 && c.weight >= 1 && Positive(rest) && before >= 0 && before + c.weight + Weight(rest) == total
    ensures var r := Pass(c, rest, before, total, z);
            if rest == [] then r == [c] else r[|r| - 1] == rest[|rest| - 1]
    decreases |rest|
  {
    hide Joins;
    if rest != [] {
      var t := rest[1..];
      if |rest| == 1 { LastAlone(c.weight, rest[0].weight, before, total, z); }
      if Joins(c.weight, rest[0].weight, before, total, z) { PassLast(Absorb(c, rest[0]), t, before, total, z); }
      else { PassLast(rest[0], t, before + c.weight, total, z); }
    }
  }

  /** The first and the last of the sorted centroids are never absorbed. */
  lemma EndsKept(s: seq<Centroid>, z: real)
    requires s != [] && Positive(s)
    ensures Weight(s) > 0
    ensures var r := Compacted(s, z);
            r[0] == s[0] && r[|r| - 1] == s[|s| - 1]
  {
    WeightPositive(s);
    var total := Weight(s);
    if |s| > 1 {
      WeightPositive(s[2..]);
      assert s[1..][1..] == s[2..];
      FirstAlone(s[0].weight, s[1].weight, total, z);
    }
    PassLast(s[0], s[1..], 0, total, z);
  }

  // ----- what the centroids stand for -----

  /** The sum of the samples. */
  function Sum(s: seq<Centroid>): real { if s == [] then 0.0 else s[0].mean * s[0].weight as real + Sum(s[1..]) }

  lemma {:induction false} SumAppend(a: seq<Centroid>, b: seq<Centroid>)
    ensures Sum(a + b) == Sum(a) + Sum(b)
  {
    if a == [] { assert a + b == b; } else {
      assert (a + b)[1..] == a[1..] + b;
      SumAppend(a[1..], b);
    }
  }

  lemma SumOne(c: Centroid)
    ensures Sum([c]) == c.mean * c.weight as real && Weight([c]) == c.weight
  {}

  /** Joining two centroids keeps the sum of their samples. */
  lemma AbsorbSum(c: Centroid, x: Centroid)
    requires c.weight >= 1 && x.weight >= 1
    ensures var d := Absorb(c, x);
            d.mean * d.weight as real == c.mean * c.weight as real + x.mean * x.weight as real
  {
    var w := (c.weight + x.weight) as real;
    var k := (x.mean - c.mean) * x.weight as real;
    assert k / w * w == k;
    Distribute(c.mean, k / w, w);
    Distribute(c.weight as real, x.weight as real, c.mean);
    Distribute(x.mean, -c.mean, x.weight as real);
  }

  lemma Distribute(a: real, b: real, k: real)
    ensures (a + b) * k == a * k + b * k
  {}

  /** A centroid stands for some of the samples: all their weight, at their mean. */
  ghost predicate StandsFor(c: Centroid, s: seq<Centroid>) {
    c.weight == Weight(s) && c.mean * c.weight as real == Sum(s)
  }

  /** How far the first `n` samples of `total` are from both ends: q (1 - q). */
  function Spread(n: int, total: int): real
    requires total > 0
  {
    var q := n as real / total as real;
    q * (1.0 - q)
  }

  /** The weight a centroid may have when it stands for samples `before` to `before + w` of `total`. */
  predicate Allowed(w: int, before: int, total: int, z: real)
    requires total > 0
  {
    w as real <= z * Spread(before, total) && w as real <= z * Spread(before + w, total)
  }

  lemma JoinsIffAllowed(w: int, x: int, before: int, total: int, z: real)
    requires 0 <= before && w + x >= 1 && before + w + x <= total
    ensures Joins(w, x, before, total, z) <==> Allowed(w + x, before, total, z)
  {
    hide Joins; hide Spread; hide Min; hide Allowed;
    JoinsIs(w, x, before, total, z);
    AllowedIs(w + x, before, total, z);
    SpreadPositive(before, total);
    SpreadPositive(before + w + x, total);
    MinScaled(z, Spread(before, total), Spread(before + w + x, total), (w + x) as real);
  }

  lemma AllowedIs(w: int, before: int, total: int, z: real)
    requires total > 0
    ensures Allowed(w, before, total, z) <==>
            w as real <= z * Spread(before, total) && w as real <= z * Spread(before + w, total)
  {}

  lemma JoinsIs(w: int, x: int, before: int, total: int, z: real)
    requires total > 0
    ensures Joins(w, x, before, total, z) <==>
            (w + x) as real <= z * Min(Spread(before, total), Spread(before + w + x, total))
  {}

  lemma SpreadPositive(n: int, total: int)
    requires 0 <= n <= total && total > 0
    ensures Spread(n, total) >= 0.0
  {
    Fraction(n, total);
    Product(n as real / total as real, 1.0 - n as real / total as real);
  }

  lemma MinScaled(z: real, a: real, b: real, n: real)
    requires a >= 0.0 && b >= 0.0 && n > 0.0
    ensures n <= z * Min(a, b) <==> n <= z * a && n <= z * b
  {
    if z < 0.0 {
      ScaleUp(-z, 0.0, a);
      ScaleUp(-z, 0.0, b);
    } else if a < b {
      ScaleUp(z, a, b);
    } else {
      ScaleUp(z, b, a);
    }
  }

  lemma Fraction(n: int, d: int)
    requires 0 <= n <= d && d > 0
    ensures 0.0 <= n as real / d as real <= 1.0
  {}

  lemma ScaleUp(z: real, a: real, b: real)
    requires z >= 0.0 && a <= b
    ensures z * a <= z * b
  {}

  /** `cuts` splits `s` into runs: centroid `i` of `r` stands for run `i`, is allowed that weight unless it is one
      centroid as it was, and would not be allowed the first of the next run as well. */
  ghost predicate Runs(s: seq<Centroid>, r: seq<Centroid>, cuts: seq<nat>, a: nat, z: real)
    requires Weight(s) > 0
  {
    && |cuts| == |r| + 1 && cuts[0] == a && cuts[|r|] == |s|
    && (forall i :: 0 <= i < |r| ==> Run(s, r[i], cuts[i], cuts[i + 1], z))
  }

  ghost predicate Run(s: seq<Centroid>, c: Centroid, from: nat, to: nat, z: real)
    requires Weight(s) > 0
  {
    && from < to <= |s| && StandsFor(c, s[from..to])
    && (to - from > 1 ==> Allowed(c.weight, Weight(s[..from]), Weight(s), z))
    && (to - from == 1 ==> c == s[from])
    && (to < |s| ==> !Allowed(c.weight + s[to].weight, Weight(s[..from]), Weight(s), z))
  }

  /** Each centroid left by a pass is the weighted mean of a run of the sorted centroids, and the runs are as
      long as the scale allows, from left to right. */
  lemma PassRuns(s: seq<Centroid>, z: real) returns (cuts: seq<nat>)
    requires s != [] && Positive(s)
    ensures Weight(s) > 0 && Runs(s, Compacted(s, z), cuts, 0, z)
  {
    WeightPositive(s);
    SumOne(s[0]);
    assert s[0..1] == [s[0]] && s[..0] == [];
    cuts := PassFrom(s, s[0], 0, 1, z);
  }

  lemma {:induction false} PassFrom(s: seq<Centroid>, c: Centroid, a: nat, b: nat, z: real) returns (cuts: seq<nat>)
    requires Positive(s) && Weight(s) > 0 && a < b <= |s| && c.weight >= 1 && StandsFor(c, s[a..b])
    requires b - a > 1 ==> Allowed(c.weight, Weight(s[..a]), Weight(s), z)
    requires b - a == 1 ==> c == s[a]
    ensures Runs(s, Pass(c, s[b..], Weight(s[..a]), Weight(s), z), cuts, a, z)
    decreases |s| - b
  {
    hide Weight; hide Sum; hide Absorb; hide Allowed; hide Joins;
    var before, total := Weight(s[..a]), Weight(s);
    if b == |s| {
      cuts := [a, b];
      assert Pass(c, s[b..], before, total, z) == [c];
    } else {
      var x := s[b];
      assert s[b..][0] == x && s[b..][1..] == s[b + 1..];
      RoomLeft(s, c, a, b);
      JoinsIffAllowed(c.weight, x.weight, before, total, z);
      GrowRun(s, c, a, b);
      if Joins(c.weight, x.weight, before, total, z) {
        AbsorbWeight(c, x);
        cuts := PassFrom(s, Absorb(c, x), a, b + 1, z);
      } else {
        NextRun(s, a, b);
        assert Weight(s[..b]) == before + c.weight;
        var rest := PassFrom(s, x, b, b + 1, z);
        cuts := [a] + rest;
        var r := Pass(x, s[b + 1..], before + c.weight, total, z);
        assert Pass(c, s[b..], before, total, z) == [c] + r;
        forall i | 0 <= i < |[c] + r| ensures Run(s, ([c] + r)[i], cuts[i], cuts[i + 1], z) {
          if i > 0 { assert Run(s, r[i - 1], rest[i - 1], rest[i], z); }
        }
      }
    }
  }

  lemma GrowRun(s: seq<Centroid>, c: Centroid, a: nat, b: nat)
    requires Positive(s) && a < b < |s| && c.weight >= 1 && StandsFor(c, s[a..b])
    ensures s[b].weight >= 1 && StandsFor(Absorb(c, s[b]), s[a..b + 1]) && StandsFor(s[b], s[b..b + 1])
  {
    assert s[a..b + 1] == s[a..b] + [s[b]] && s[b..b + 1] == [s[b]];
    WeightAppend(s[a..b], [s[b]]);
    SumAppend(s[a..b], [s[b]]);
    SumOne(s[b]);
    AbsorbWeight(c, s[b]);
    AbsorbSum(c, s[b]);
  }

  lemma RoomLeft(s: seq<Centroid>, c: Centroid, a: nat, b: nat)
    requires Positive(s) && a < b < |s| && StandsFor(c, s[a..b])
    ensures 0 <= Weight(s[..a]) && Weight(s[..a]) + c.weight + s[b].weight <= Weight(s) && s[b].weight >= 1
  {
    NextRun(s, a, b);
    NextRun(s, b, b + 1);
    NextRun(s, b + 1, |s|);
    assert s[b..b + 1] == [s[b]] && s[..|s|] == s;
    SumOne(s[b]);
    WeightPositive(s[..a]);
    WeightPositive(s[b + 1..]);
  }

  lemma NextRun(s: seq<Centroid>, a: nat, b: nat)
    requires a <= b <= |s|
    ensures Weight(s[..b]) == Weight(s[..a]) + Weight(s[a..b])
  {
    assert s[..b] == s[..a] + s[a..b];
    WeightAppend(s[..a], s[a..b]);
  }

  /** So the sum of the samples is kept. */
  lemma {:induction false} PassSum(c: Centroid, rest: seq<Centroid>, before: int, total: int, z: real)
    requires total > 0 && c.weight >= 1 && Positive(rest)
    ensures Sum(Pass(c, rest, before, total, z)) == c.mean * c.weight as real + Sum(rest)
    decreases |rest|
  {
    hide Joins; hide Absorb;
    SumOne(c);
    if rest != [] {
      AbsorbWeight(c, rest[0]);
      AbsorbSum(c, rest[0]);
      if Joins(c.weight, rest[0].weight, before, total, z) {
        PassSum(Absorb(c, rest[0]), rest[1..], before, total, z);
      } else {
        PassSum(rest[0], rest[1..], before + c.weight, total, z);
        SumAppend([c], Pass(rest[0], rest[1..], before + c.weight, total, z));
      }
    }
  }
}
