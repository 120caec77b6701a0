/** The quantile of a merged digest: defined everywhere but at one point, monotone, and between the
    smallest and the largest sample. */
module DigestQuantile {
  import opened DigestSpec

  datatype Answer = NaN | Val(v: real)

  // ----- averages -----

  /** `weighted_average_sorted`. */
  function AverageSorted(x1: real, w1: real, x2: real, w2: real): real
    requires w1 + w2 > 0.0
  { Max(x1, Min((x1 * w1 + x2 * w2) / (w1 + w2), x2)) }

  /** `weighted_average`. */
  function Average(x1: real, w1: real, x2: real, w2: real): real
    requires w1 + w2 > 0.0
  { if x1 <= x2 then AverageSorted(x1, w1, x2, w2) else AverageSorted(x2, w2, x1, w1) }

  /** Moving the weight towards the larger value moves the average up. */
  lemma AverageMono(x1: real, x2: real, a: real, b: real, d: real)
    requires x1 <= x2 && 0.0 <= a <= b <= d && d > 0.0
    ensures x1 <= Average(x1, d - a, x2, a) <= Average(x1, d - b, x2, b) <= x2
  {
    var fa, fb := (x1 * (d - a) + x2 * a) / d, (x1 * (d - b) + x2 * b) / d;
    Slope(x1, x2, a, d);
    Slope(x1, x2, b, d);
    var k := (x2 - x1) / d;
    assert k >= 0.0;
    Scale(k, a, b);
    Scale(k, 0.0, a);
    Scale(k, b, d);
    assert k * d == x2 - x1;
  }

  lemma Slope(x1: real, x2: real, a: real, d: real)
    requires d > 0.0
    ensures (x1 * (d - a) + x2 * a) / d == x1 + (x2 - x1) / d * a
  {
    assert x1 * (d - a) + x2 * a == x1 * d + (x2 - x1) * a;
    assert (x1 * d) / d == x1;
    assert ((x2 - x1) * a) / d == (x2 - x1) / d * a;
  }

  lemma Scale(k: real, a: real, b: real)
    requires k >= 0.0 && a <= b
    ensures k * a <= k * b
  {}

  // ----- where an index falls -----

  /** Samples up to the middle of centroid `i`. */
  function Center(s: seq<Centroid>, i: nat): real
    requires i < |s|
  { Weight(s[..i]) as real + s[i].weight as real / 2.0 }

  lemma CenterNext(s: seq<Centroid>, i: nat)
    requires i + 1 < |s|
    ensures Center(s, i + 1) == Center(s, i) + (s[i].weight + s[i + 1].weight) as real / 2.0
  {
    assert s[..i + 1] == s[..i] + [s[i]];
    WeightAppend(s[..i], [s[i]]);
    assert Weight([s[i]]) == s[i].weight;
  }

  lemma CenterEnds(s: seq<Centroid>)
    requires s != []
    ensures Center(s, 0) == s[0].weight as real / 2.0
    ensures Center(s, |s| - 1) == Weight(s) as real - s[|s| - 1].weight as real / 2.0
  {
    var n := |s| - 1;
    assert s == s[..n] + [s[n]];
    WeightAppend(s[..n], [s[n]]);
    assert Weight([s[n]]) == s[n].weight;
  }

  /** The value between centroids `i` and `i + 1`; a centroid of one sample keeps half a sample to
      either side for itself. */
  function Bracketed(s: seq<Centroid>, i: nat, index: real): Answer
    requires i + 1 < |s|
  {
    var before := Center(s, i);
    var dw := (s[i].weight + s[i + 1].weight) as real / 2.0;
    var left := if s[i].weight == 1 then 0.5 else 0.0;
    var right := if s[i + 1].weight == 1 then 0.5 else 0.0;
    if s[i].weight == 1 && index - before < 0.5 then Val(s[i].mean)
    else if s[i + 1].weight == 1 && before + dw - index <= 0.5 then Val(s[i + 1].mean)
    else
      var z1 := index - before - left;
      var z2 := before + dw - index - right;
      if z2 + z1 > 0.0 then Val(Average(s[i].mean, z2, s[i + 1].mean, z1)) else NaN
  }

  predicate InBracket(s: seq<Centroid>, i: nat, index: real) { i + 1 < |s| && Center(s, i) <= index < Center(s, i + 1) }

  /** Between two centroids the value is between their means and grows with the index. */
  lemma BracketMono(s: seq<Centroid>, i: nat, a: real, b: real)
    requires Positive(s) && Sorted(s) && InBracket(s, i, a) && InBracket(s, i, b) && a <= b
    ensures Bracketed(s, i, a).Val? && Bracketed(s, i, b).Val?
    ensures s[i].mean <= Bracketed(s, i, a).v <= Bracketed(s, i, b).v <= s[i + 1].mean
  {
    CenterNext(s, i);
    hide Center;
    var before := Center(s, i);
    var dw := (s[i].weight + s[i + 1].weight) as real / 2.0;
    var left := if s[i].weight == 1 then 0.5 else 0.0;
    var right := if s[i + 1].weight == 1 then 0.5 else 0.0;
    var d := dw - left - right;
    BracketValue(s, i, a);
    BracketValue(s, i, b);
    if !Near(s, i, a) && !Near(s, i, b) {
      AverageMono(s[i].mean, s[i + 1].mean, a - before - left, b - before - left, d);
    } else if !Near(s, i, a) {
      AverageMono(s[i].mean, s[i + 1].mean, a - before - left, a - before - left, d);
    } else if !Near(s, i, b) {
      AverageMono(s[i].mean, s[i + 1].mean, b - before - left, b - before - left, d);
    }
  }

  /** In the half sample next to a single-sample centroid. */
  predicate Near(s: seq<Centroid>, i: nat, index: real)
    requires i + 1 < |s|
  {
    || (s[i].weight == 1 && index - Center(s, i) < 0.5)
    || (s[i + 1].weight == 1 && Center(s, i) + (s[i].weight + s[i + 1].weight) as real / 2.0 - index <= 0.5)
  }

  lemma BracketValue(s: seq<Centroid>, i: nat, index: real)
    requires Positive(s) && i + 1 < |s|
    requires Center(s, i) <= index < Center(s, i) + (s[i].weight + s[i + 1].weight) as real / 2.0
    ensures !Near(s, i, index) ==>
              var left := if s[i].weight == 1 then 0.5 else 0.0;
              var right := if s[i + 1].weight == 1 then 0.5 else 0.0;
              var d := (s[i].weight + s[i + 1].weight) as real / 2.0 - left - right;
              var z := index - Center(s, i) - left;
              && d > 0.0 && 0.0 <= z <= d && Bracketed(s, i, index) == Val(Average(s[i].mean, d - z, s[i + 1].mean, z))
    ensures Near(s, i, index) ==>
              Bracketed(s, i, index) == Val(if s[i].weight == 1 && index - Center(s, i) < 0.5 then s[i].mean
                                            else s[i + 1].mean)
  {
    hide Center;
    if !Near(s, i, index) {
      var left := if s[i].weight == 1 then 0.5 else 0.0;
      var right := if s[i + 1].weight == 1 then 0.5 else 0.0;
      var d := (s[i].weight + s[i + 1].weight) as real / 2.0 - left - right;
      var z := index - Center(s, i) - left;
      assert Center(s, i) + (s[i].weight + s[i + 1].weight) as real / 2.0 - index - right == d - z;
    }
  }

  /** The first gap from `i` on whose right centre is beyond the index; the last centroid if none. */
  function Gap(s: seq<Centroid>, i: nat, index: real): (g: nat)
    requires i < |s|
    ensures i <= g < |s|
    decreases |s| - i
  { if i + 1 == |s| || Center(s, i + 1) > index then i else Gap(s, i + 1, index) }

  lemma {:induction false} GapFound(s: seq<Centroid>, i: nat, index: real)
    requires i + 1 < |s| && Center(s, i) <= index < Center(s, |s| - 1)
    ensures InBracket(s, Gap(s, i, index), index)
    decreases |s| - i
  {
    if Center(s, i + 1) <= index { GapFound(s, i + 1, index); }
  }

  lemma {:induction false} GapMono(s: seq<Centroid>, i: nat, a: real, b: real)
    requires i < |s| && a <= b
    ensures Gap(s, i, a) <= Gap(s, i, b)
    decreases |s| - i
  {
    if i + 1 < |s| && Center(s, i + 1) <= b { GapMono(s, i + 1, a, b); }
  }

  // ----- the quantile -----

  datatype Digest = Digest(s: seq<Centroid>, min: real, max: real)

  predicate Good(d: Digest) {
    && Positive(d.s) && Sorted(d.s)
    && (d.s != [] ==> d.min <= d.s[0].mean && d.s[|d.s| - 1].mean <= d.max)
  }

  function First(d: Digest): Centroid
    requires d.s != []
  { d.s[0] }

  function Last(d: Digest): Centroid
    requires d.s != []
  { d.s[|d.s| - 1] }

  predicate InHead(d: Digest, index: real)
    requires |d.s| >= 2
  { First(d).weight > 1 && index < First(d).weight as real / 2.0 }

  predicate InTail(d: Digest, index: real)
    requires |d.s| >= 2
  { Last(d).weight > 1 && Weight(d.s) as real - index <= Last(d).weight as real / 2.0 }

  /** `x` out of `d` parts of `k`. */
  function Share(x: real, d: real, k: real): real
    requires d != 0.0
  { x / d * k }

  function HeadValue(d: Digest, index: real): Answer
    requires |d.s| >= 2
  {
    var half := First(d).weight as real / 2.0 - 1.0;
    if half == 0.0 then NaN else Val(d.min + Share(index - 1.0, half, First(d).mean - d.min))
  }

  function TailValue(d: Digest, index: real): Answer
    requires |d.s| >= 2
  {
    var half := Last(d).weight as real / 2.0 - 1.0;
    if half == 0.0 then NaN else Val(d.max - Share(Weight(d.s) as real - index - 1.0, half, d.max - Last(d).mean))
  }

  /** The value at an index into at least two centroids. */
  function At(d: Digest, index: real): Answer
    requires |d.s| >= 2
  {
    if index < 1.0 then Val(d.min)
    else if InHead(d, index) then HeadValue(d, index)
    else if index > Weight(d.s) as real - 1.0 then Val(d.max)
    else if InTail(d, index) then TailValue(d, index)
    else var g := Gap(d.s, 0, index); if g + 1 < |d.s| then Bracketed(d.s, g, index) else NaN
  }

  /** `tdigest_quantile` on a merged digest. */
  function Quantile(d: Digest, q: real): Answer {
    if q < 0.0 || q > 1.0 || d.s == [] then NaN
    else if |d.s| == 1 then Val(d.s[0].mean)
    else At(d, Index(d, q))
  }

  function Index(d: Digest, q: real): real { q * Weight(d.s) as real }

  // ----- regions, from left to right -----

  function Region(d: Digest, index: real): nat
    requires |d.s| >= 2
  {
    if index < 1.0 then 0
    else if InHead(d, index) then 1
    else if index > Weight(d.s) as real - 1.0 then 4
    else if InTail(d, index) then 3
    else 2
  }

  lemma TotalWeight(d: Digest)
    requires Good(d) && |d.s| >= 2
    ensures Weight(d.s) >= First(d).weight + Last(d).weight
  {
    var s := d.s;
    var n := |s| - 1;
    assert s == [s[0]] + s[1..n] + [s[n]];
    WeightAppend([s[0]] + s[1..n], [s[n]]);
    WeightAppend([s[0]], s[1..n]);
    WeightPositive(s[1..n]);
    assert Weight([s[0]]) == s[0].weight && Weight([s[n]]) == s[n].weight;
  }

  lemma RegionMono(d: Digest, a: real, b: real)
    requires Good(d) && |d.s| >= 2 && a <= b
    ensures Region(d, a) <= Region(d, b)
  {
    TotalWeight(d);
  }

  /** The code after the loop is never reached: the index is always in a gap. */
  lemma AlwaysInGap(d: Digest, index: real)
    requires Good(d) && |d.s| >= 2 && Region(d, index) == 2
    ensures InBracket(d.s, Gap(d.s, 0, index), index)
  {
    CenterEnds(d.s);
    hide Center;
    GapFound(d.s, 0, index);
  }

  /** Both ends of each region, and order within it. */
  lemma WithinRegion(d: Digest, a: real, b: real)
    requires Good(d) && |d.s| >= 2 && a <= b && Region(d, a) == Region(d, b) && At(d, a).Val? && At(d, b).Val?
    ensures At(d, a).v <= At(d, b).v && Floor(d, Region(d, a)) <= At(d, a).v && At(d, b).v <= Ceiling(d, Region(d, a))
  {
    var r := Region(d, a);
    if r == 1 { HeadMono(d, a, b); }
    else if r == 2 { GapsMono(d, a, b); }
    else if r == 3 { TailMono(d, a, b); }
  }

  function Floor(d: Digest, r: nat): real
    requires |d.s| >= 2
  { if r <= 1 then d.min else if r == 2 then First(d).mean else if r == 3 then Last(d).mean else d.max }

  function Ceiling(d: Digest, r: nat): real
    requires |d.s| >= 2
  { if r == 0 then d.min else if r == 1 then First(d).mean else if r == 2 then Last(d).mean else d.max }

  lemma HeadMono(d: Digest, a: real, b: real)
    requires Good(d) && |d.s| >= 2 && a <= b && Region(d, a) == 1 && Region(d, b) == 1
    ensures At(d, a).Val? && At(d, b).Val? && d.min <= At(d, a).v <= At(d, b).v <= First(d).mean
  {
    hide Weight; hide Share;
    var half := First(d).weight as real / 2.0 - 1.0;
    var k := First(d).mean - d.min;
    Proportion(a - 1.0, b - 1.0, half, k);
  }

  lemma DivOrder(a: real, b: real, d: real)
    requires a <= b && d > 0.0
    ensures a / d <= b / d
  {
    var x, y := a / d, b / d;
    assert x * d == a && y * d == b;
    if x > y { Scale(d, y, x); }
  }

  lemma Proportion(a: real, b: real, d: real, k: real)
    requires 0.0 <= a <= b <= d && d > 0.0 && k >= 0.0
    ensures 0.0 <= Share(a, d, k) <= Share(b, d, k) <= k
  {
    DivOrder(0.0, a, d);
    DivOrder(a, b, d);
    DivOrder(b, d, d);
    Scale(k, 0.0, a / d);
    Scale(k, a / d, b / d);
    Scale(k, b / d, 1.0);
  }

  lemma TailMono(d: Digest, a: real, b: real)
    requires Good(d) && |d.s| >= 2 && a <= b && Region(d, a) == 3 && Region(d, b) == 3 && At(d, a).Val? && At(d, b).Val?
    ensures Last(d).mean <= At(d, a).v <= At(d, b).v <= d.max
  {
    hide Weight; hide Share;
    var half := Last(d).weight as real / 2.0 - 1.0;
    var total := Weight(d.s) as real;
    var k := d.max - Last(d).mean;
    Proportion(total - b - 1.0, total - a - 1.0, half, k);
  }

  lemma GapsMono(d: Digest, a: real, b: real)
    requires Good(d) && |d.s| >= 2 && a <= b && Region(d, a) == 2 && Region(d, b) == 2
    ensures At(d, a).Val? && At(d, b).Val? && First(d).mean <= At(d, a).v <= At(d, b).v <= Last(d).mean
  {
    hide Center; hide Bracketed; hide Gap;
    AlwaysInGap(d, a);
    AlwaysInGap(d, b);
    var i, j := Gap(d.s, 0, a), Gap(d.s, 0, b);
    GapMono(d.s, 0, a, b);
    if i == j {
      BracketMono(d.s, i, a, b);
    } else {
      BracketMono(d.s, i, a, a);
      BracketMono(d.s, j, b, b);
    }
  }

  // ----- the theorems -----

  lemma AtDefined(d: Digest, index: real)
    requires Good(d) && |d.s| >= 2
    ensures At(d, index).NaN? <==> Last(d).weight == 2 && index == Weight(d.s) as real - 1.0
  {
    hide Center; hide Gap; hide Bracketed; hide Weight;
    TotalWeight(d);
    var r := Region(d, index);
    if r == 1 { HeadMono(d, index, index); } else if r == 2 { GapsMono(d, index, index); }
  }

  /** Not a number exactly outside [0, 1], on an empty digest, and at the single index one sample from
      the end when the last centroid has weight 2. */
  lemma DefinedExactly(d: Digest, q: real)
    requires Good(d)
    ensures Quantile(d, q).NaN? <==>
            || q < 0.0 || q > 1.0 || d.s == []
            || (|d.s| >= 2 && Last(d).weight == 2 && Index(d, q) == Weight(d.s) as real - 1.0)
  {
    hide At; hide Weight; hide Index;
    if |d.s| >= 2 { AtDefined(d, Index(d, q)); }
  }

  /** It happens: samples of weight 1 and 2, two thirds of the way. */
  lemma UndefinedInside(a: real, b: real, max: real)
    requires a <= b <= max
    ensures var d := Digest([Centroid(a, 1), Centroid(b, 2)], a, max); Good(d) && Quantile(d, 2.0 / 3.0) == NaN
  {
    var s := [Centroid(a, 1), Centroid(b, 2)];
    var d := Digest(s, a, max);
    assert s[1..] == [Centroid(b, 2)] && s[1..][1..] == [];
    assert Weight(s[1..]) == 2 && Weight(s) == 3;
    DefinedExactly(d, 2.0 / 3.0);
  }

  lemma Ends(d: Digest)
    requires Good(d) && |d.s| >= 2
    ensures d.min <= First(d).mean <= Last(d).mean <= d.max
  {}

  /** Between the recorded minimum and maximum. */
  lemma WithinMinMax(d: Digest, q: real)
    requires Good(d) && Quantile(d, q).Val?
    ensures d.min <= Quantile(d, q).v <= d.max
  {
    if |d.s| >= 2 {
      hide At; hide Weight; hide Region; hide Good; hide Index;
      var index := Index(d, q);
      WithinRegion(d, index, index);
      Ends(d);
    }
  }

  /** The last quantile is the recorded maximum. */
  lemma LastQuantile(d: Digest)
    requires Good(d) && |d.s| >= 2
    ensures Quantile(d, 1.0) == Val(d.max)
  {
    TotalWeight(d);
    hide Gap; hide Weight; hide Good;
    assert Index(d, 1.0) == Weight(d.s) as real;
  }

  /** A larger quantile is not a smaller value. */
  lemma QuantileMono(d: Digest, p: real, q: real)
    requires Good(d) && p <= q && Quantile(d, p).Val? && Quantile(d, q).Val?
    ensures Quantile(d, p).v <= Quantile(d, q).v
  {
    if |d.s| >= 2 {
      IndexMono(d, p, q);
      hide At; hide Region; hide Weight; hide Good; hide Index;
      AtMono(d, Index(d, p), Index(d, q));
    }
  }

  lemma IndexMono(d: Digest, p: real, q: real)
    requires Good(d) && p <= q
    ensures Index(d, p) <= Index(d, q)
  {
    WeightPositive(d.s);
    Scale(Weight(d.s) as real, p, q);
  }

  lemma AtMono(d: Digest, a: real, b: real)
    requires Good(d) && |d.s| >= 2 && a <= b && At(d, a).Val? && At(d, b).Val?
    ensures At(d, a).v <= At(d, b).v
  {
    hide At; hide Region; hide Good;
    RegionMono(d, a, b);
    Ends(d);
    if Region(d, a) == Region(d, b) {
      WithinRegion(d, a, b);
    } else {
      WithinRegion(d, a, a);
      WithinRegion(d, b, b);
      assert Ceiling(d, Region(d, a)) <= Floor(d, Region(d, b));
    }
  }

  // ----- the values in between -----

  /** The average divides the interval in the ratio of the weights; the clamps do nothing. */
  lemma AverageExact(x1: real, x2: real, a: real, d: real)
    requires x1 <= x2 && 0.0 <= a <= d && d > 0.0
    ensures (Average(x1, d - a, x2, a) - x1) * d == a * (x2 - x1)
  {
    AverageMono(x1, x2, a, a, d);
    Slope(x1, x2, a, d);
    var k := (x2 - x1) / d;
    assert k * d == x2 - x1;
    Scale(k, 0.0, a);
    Scale(k, a, d);
    assert Average(x1, d - a, x2, a) == x1 + k * a;
    assert (k * a) * d == a * (k * d);
  }

  lemma {:induction false} CenterOrder(s: seq<Centroid>, i: nat, j: nat)
    requires Positive(s) && i <= j < |s|
    ensures Center(s, i) <= Center(s, j)
    decreases j - i
  {
    hide Center;
    if i < j {
      CenterNext(s, j - 1);
      CenterOrder(s, i, j - 1);
    }
  }

  lemma {:induction false} GapIs(s: seq<Centroid>, a: nat, i: nat, index: real)
    requires Positive(s) && a <= i && InBracket(s, i, index)
    ensures Gap(s, a, index) == i
    decreases i - a
  {
    hide Center;
    if a < i {
      CenterOrder(s, a + 1, i);
      GapIs(s, a + 1, i, index);
    }
  }

  /** Where the straight part between centroids `i` and `i + 1` starts and ends. */
  function LineFrom(s: seq<Centroid>, i: nat): real
    requires i < |s|
  { Center(s, i) + if s[i].weight == 1 then 0.5 else 0.0 }

  function LineTo(s: seq<Centroid>, i: nat): real
    requires i < |s|
  { Center(s, i) - if s[i].weight == 1 then 0.5 else 0.0 }

  /** Left of the straight part, right of it, and on it. */
  ghost predicate OnLine(s: seq<Centroid>, i: nat, index: real, v: real)
    requires i + 1 < |s|
  {
    var lo, hi := LineFrom(s, i), LineTo(s, i + 1);
    if index < lo then v == s[i].mean
    else if hi <= index then v == s[i + 1].mean
    else (v - s[i].mean) * (hi - lo) == (index - lo) * (s[i + 1].mean - s[i].mean)
  }

  /** Between two centroids the value is theirs around a single sample, and on the straight line between the two
      points otherwise. */
  lemma BetweenOnLine(d: Digest, i: nat, index: real)
    requires Good(d) && |d.s| >= 2 && Region(d, index) == 2 && InBracket(d.s, i, index)
    ensures At(d, index).Val? && OnLine(d.s, i, index, At(d, index).v)
  {
    hide Center; hide Bracketed; hide Gap; hide OnLine;
    GapIs(d.s, 0, i, index);
    BracketOnLine(d.s, i, index);
  }

  lemma BracketOnLine(s: seq<Centroid>, i: nat, index: real)
    requires Positive(s) && Sorted(s) && InBracket(s, i, index)
    ensures Bracketed(s, i, index).Val? && OnLine(s, i, index, Bracketed(s, i, index).v)
  {
    hide Center; hide Bracketed; hide Average;
    CenterNext(s, i);
    BracketValue(s, i, index);
    if !Near(s, i, index) {
      var lo, hi := LineFrom(s, i), LineTo(s, i + 1);
      LineEnds(s, i, index);
      AverageExact(s[i].mean, s[i + 1].mean, index - lo, hi - lo);
    }
  }

  lemma LineEnds(s: seq<Centroid>, i: nat, index: real)
    requires Positive(s) && InBracket(s, i, index) && !Near(s, i, index)
    ensures var lo, hi := LineFrom(s, i), LineTo(s, i + 1);
            var left := if s[i].weight == 1 then 0.5 else 0.0;
            var right := if s[i + 1].weight == 1 then 0.5 else 0.0;
            && lo <= index < hi && index - lo == index - Center(s, i) - left
            && hi - lo == (s[i].weight + s[i + 1].weight) as real / 2.0 - left - right
  {
    CenterNext(s, i);
    hide Center;
  }

  /** Before the first sample the minimum, then up to the middle of the first centroid the line from it; likewise
      at the end. */
  lemma OuterOnLine(d: Digest, index: real)
    requires Good(d) && |d.s| >= 2 && At(d, index).Val?
    ensures var v, n, a, b := At(d, index).v, Weight(d.s) as real, First(d), Last(d);
            && (index < 1.0 ==> v == d.min) && (index > n - 1.0 ==> v == d.max)
            && (1.0 <= index && a.weight > 1 && index < a.weight as real / 2.0 ==>
                  (v - d.min) * (a.weight as real / 2.0 - 1.0) == (index - 1.0) * (a.mean - d.min))
            && (index <= n - 1.0 && b.weight > 1 && n - index <= b.weight as real / 2.0 ==>
                  (d.max - v) * (b.weight as real / 2.0 - 1.0) == (n - index - 1.0) * (d.max - b.mean))
  {
    TotalWeight(d);
    hide Weight; hide Gap; hide Share;
    var n, a, b := Weight(d.s) as real, First(d), Last(d);
    if InHead(d, index) && a.weight != 2 {
      ShareExact(index - 1.0, a.weight as real / 2.0 - 1.0, a.mean - d.min);
    }
    if InTail(d, index) && b.weight != 2 {
      ShareExact(n - index - 1.0, b.weight as real / 2.0 - 1.0, d.max - b.mean);
    }
  }

  lemma ShareExact(x: real, d: real, k: real)
    requires d != 0.0
    ensures Share(x, d, k) * d == x * k
  {
    assert x / d * d == x;
    assert x / d * k * d == x / d * d * k;
  }
}
