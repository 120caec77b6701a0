/** The `~` operator's glob matcher. A C string is the sequence of its characters
    (as `char` values) without the terminator. */
module Wildcard {

  const STAR: int := 42      // *
  const QUESTION: int := 63  // ?
  const OPEN: int := 91      // [
  const CLOSE: int := 93     // ]
  const DASH: int := 45      // -
  const CARET: int := 94     // ^
  const BANG: int := 33      // !

  // ----- the declarative language -----

  /** The characters `lo` .. `hi`; a single character is a range of one. */
  datatype Item = Item(lo: int, hi: int)

  datatype Elem = Star | Any | Class(neg: bool, items: seq<Item>) | Lit(c: int)

  predicate InClass(items: seq<Item>, c: int) {
    exists i :: 0 <= i < |items| && items[i].lo <= c <= items[i].hi
  }

  predicate Accepts(e: Elem, c: int) {
    match e
    case Star => false
    case Any => true
    case Class(neg, items) => neg != InClass(items, c)
    case Lit(d) => c == d
  }

  /** The strings a sequence of pattern elements describes. */
  ghost predicate Lang(es: seq<Elem>, s: seq<int>)
    decreases |es|
  {
    if es == [] then s == []
    else if es[0].Star? then exists k :: 0 <= k <= |s| && Lang(es[1..], s[k..])
    else s != [] && Accepts(es[0], s[0]) && Lang(es[1..], s[1..])
  }

  // ----- reading a pattern -----

  predicate IsRange(p: seq<int>, i: nat) {
    i + 2 < |p| && p[i + 1] == DASH && p[i + 2] != CLOSE
  }

  /** Members of a class whose list starts at `i`; it ends at `]` or at the end of the pattern. */
  function ClassItems(p: seq<int>, i: nat): seq<Item>
    decreases |p| - i
  {
    if i >= |p| || p[i] == CLOSE then []
    else if IsRange(p, i) then [Item(p[i], p[i + 2])] + ClassItems(p, i + 3)
    else [Item(p[i], p[i])] + ClassItems(p, i + 1)
  }

  /** Index after the class whose list starts at `i`. */
  function AfterClass(p: seq<int>, i: nat): (k: nat)
    requires i <= |p|
    ensures i <= k <= |p|
    decreases |p| - i
  {
    if i == |p| then i
    else if p[i] == CLOSE then i + 1
    else AfterClass(p, if IsRange(p, i) then i + 3 else i + 1)
  }

  predicate Inverted(p: seq<int>, i: nat) {
    i < |p| && (p[i] == CARET || p[i] == BANG)
  }

  function ListStart(p: seq<int>, i: nat): nat { if Inverted(p, i) then i + 1 else i }

  /** The element at a position and where the next one starts. */
  function ElemAt(p: seq<int>, i: nat): (r: (Elem, nat))
    requires i < |p|
    ensures i < r.1 <= |p|
  {
    if p[i] == STAR then (Star, i + 1)
    else if p[i] == QUESTION then (Any, i + 1)
    else if p[i] == OPEN then
      var j := ListStart(p, i + 1);
      (Class(Inverted(p, i + 1), ClassItems(p, j)), AfterClass(p, j))
    else (Lit(p[i]), i + 1)
  }

  function Elements(p: seq<int>, i: nat): seq<Elem>
    decreases |p| - i
  {
    if i >= |p| then [] else [ElemAt(p, i).0] + Elements(p, ElemAt(p, i).1)
  }

  ghost predicate Matches(s: seq<int>, pattern: seq<int>) { Lang(Elements(pattern, 0), s) }

  // ----- the greedy argument -----

  predicate StarFree(es: seq<Elem>) { forall i :: 0 <= i < |es| ==> !es[i].Star? }

  /** Some suffix starting at `k` or later is in the language. */
  ghost predicate Later(es: seq<Elem>, s: seq<int>, k: nat) {
    exists j :: k <= j <= |s| && Lang(es, s[j..])
  }

  /** Elements without a star use up exactly one character each. */
  lemma {:induction false} FixedPrefix(seg: seq<Elem>, es: seq<Elem>, s: seq<int>)
    requires StarFree(seg) && Lang(seg + es, s)
    ensures |seg| <= |s| && Lang(es, s[|seg|..])
  {
    if seg == [] {
      assert seg + es == es && s[0..] == s;
    } else {
      assert (seg + es)[1..] == seg[1..] + es;
      assert (seg + es)[0] == seg[0];
      FixedPrefix(seg[1..], es, s[1..]);
      assert s[1..][|seg| - 1..] == s[|seg|..];
    }
  }

  lemma StarFromEarlier(es: seq<Elem>, s: seq<int>, i: nat, j: nat)
    requires i <= j <= |s| && Lang([Star] + es, s[j..])
    ensures Lang([Star] + es, s[i..])
  {
    assert ([Star] + es)[1..] == es;
    var k :| 0 <= k <= |s[j..]| && Lang(es, s[j..][k..]);
    assert s[j..][k..] == s[i..][j - i + k..];
  }

  lemma StarIsLater(es: seq<Elem>, s: seq<int>, i: nat)
    requires i <= |s|
    ensures Lang([Star] + es, s[i..]) <==> Lang(es, s[i..]) || Later(es, s, i + 1)
  {
    assert ([Star] + es)[1..] == es;
    if Lang([Star] + es, s[i..]) {
      var k :| 0 <= k <= |s[i..]| && Lang(es, s[i..][k..]);
      assert s[i..][k..] == s[i + k..];
      if k == 0 { assert s[i..][0..] == s[i..]; }
    }
    if Lang(es, s[i..]) { assert s[i..][0..] == s[i..]; }
    if Later(es, s, i + 1) {
      var j :| i + 1 <= j <= |s| && Lang(es, s[j..]);
      assert s[j..] == s[i..][j - i..];
    }
  }

  /** Only the last star has to be retried: what an earlier one could still reach, it reaches too. */
  lemma LastStarSuffices(seg: seq<Elem>, es: seq<Elem>, s: seq<int>, backup: nat, i: nat)
    requires StarFree(seg) && backup + |seg| == i <= |s|
    requires Later(seg + ([Star] + es), s, backup + 1)
    ensures Lang([Star] + es, s[i..])
  {
    var j :| backup + 1 <= j <= |s| && Lang(seg + ([Star] + es), s[j..]);
    FixedPrefix(seg, [Star] + es, s[j..]);
    assert s[j..][|seg|..] == s[j + |seg|..];
    StarFromEarlier(es, s, i, j + |seg|);
  }

  lemma NothingLater(seg: seq<Elem>, es: seq<Elem>, s: seq<int>, backup: nat)
    requires StarFree(seg) && backup + |seg| == |s|
    ensures !Later(seg + es, s, backup + 1)
  {
    if Later(seg + es, s, backup + 1) {
      var j :| backup + 1 <= j <= |s| && Lang(seg + es, s[j..]);
      FixedPrefix(seg, es, s[j..]);
    }
  }

  // ----- the matcher -----

  /** One class against one character, as the inner loop scans it. */
  method ScanClass(pattern: seq<int>, start: nat, c: int) returns (hit: bool, next: nat)
    requires start <= |pattern|
    ensures hit == InClass(ClassItems(pattern, start), c)
    ensures next == AfterClass(pattern, start)
  {
    var p := start;
    hit := false;
    while p < |pattern| && pattern[p] != CLOSE
      invariant start <= p <= |pattern|
      invariant InClass(ClassItems(pattern, start), c) == (hit || InClass(ClassItems(pattern, p), c))
      invariant AfterClass(pattern, start) == AfterClass(pattern, p)
    {
      ghost var items := ClassItems(pattern, p);
      if IsRange(pattern, p) {
        if pattern[p] <= c <= pattern[p + 2] { hit := true; assert items[0].lo <= c <= items[0].hi; }
        p := p + 3;
      } else {
        if c == pattern[p] { hit := true; assert items[0].lo <= c <= items[0].hi; }
        p := p + 1;
      }
      assert items[1..] == ClassItems(pattern, p);
      assert forall i :: 0 <= i < |items[1..]| ==> items[1..][i] == items[i + 1];
    }
    next := if p < |pattern| then p + 1 else p;
  }

  lemma StarStar(es: seq<Elem>, s: seq<int>)
    ensures Lang([Star] + ([Star] + es), s) == Lang([Star] + es, s)
  {
    assert ([Star] + ([Star] + es))[1..] == [Star] + es;
    assert s[0..] == s;
    if Lang([Star] + ([Star] + es), s) {
      var k :| 0 <= k <= |s| && Lang([Star] + es, s[k..]);
      StarFromEarlier(es, s, 0, k);
    }
  }

  /** `while (*p == '*') p++`: a run of stars means the same as one. */
  method SkipStars(pattern: seq<int>, start: nat, ghost s: seq<int>) returns (p: nat)
    requires start <= |pattern|
    ensures start <= p <= |pattern|
    ensures start < |pattern| && pattern[start] == STAR ==> start < p
    ensures p < |pattern| ==> pattern[p] != STAR
    ensures forall k :: start <= k < p ==> pattern[k] == STAR
    ensures start < p ==> Lang(Elements(pattern, start), s) == Lang([Star] + Elements(pattern, p), s)
  {
    p := start;
    while p < |pattern| && pattern[p] == STAR
      invariant start <= p <= |pattern|
      invariant forall k :: start <= k < p ==> pattern[k] == STAR
      invariant start < p ==> Lang(Elements(pattern, start), s) == Lang([Star] + Elements(pattern, p), s)
    {
      StarStar(Elements(pattern, p + 1), s);
      p := p + 1;
    }
  }

  lemma StarTakesAll(s: seq<int>)
    ensures Lang([Star], s)
  {
    assert s[|s|..] == [];
    assert Lang([Star][1..], s[|s|..]);
  }

  /** The empty string: only stars may be left. */
  lemma EmptyTail(pattern: seq<int>, start: nat, p: nat)
    requires start <= p <= |pattern|
    requires forall k :: start <= k < p ==> pattern[k] == STAR
    requires p < |pattern| ==> pattern[p] != STAR
    ensures Lang(Elements(pattern, start), []) == (p == |pattern|)
    decreases p - start
  {
    if start < p {
      EmptyTail(pattern, start + 1, p);
      var es := Elements(pattern, start);
      assert es[0] == Star && es[1..] == Elements(pattern, start + 1);
      var none: seq<int> := [];
      assert none[0..] == none;
    }
  }

  /** One element other than a star against one character. */
  method MatchOne(pattern: seq<int>, p: nat, c: int) returns (ok: bool, next: nat)
    requires p < |pattern| && pattern[p] != STAR
    ensures ok == Accepts(ElemAt(pattern, p).0, c) && next == ElemAt(pattern, p).1
  {
    if pattern[p] == QUESTION {
      ok, next := true, p + 1;
    } else if pattern[p] == OPEN {
      ok, next := ScanClass(pattern, ListStart(pattern, p + 1), c);
      if Inverted(pattern, p + 1) { ok := !ok; }
    } else {
      ok, next := pattern[p] == c, p + 1;
    }
  }

  /** What the scan knows: the answer is decided by the rest of the pattern from here, or,
      once a star has been passed, by a later start after that star. */
  ghost predicate Scan(str: seq<int>, pattern: seq<int>, s: int, p: int, star: int, backup: int, seg: seq<Elem>)
  {
    && 0 <= s <= |str| && 0 <= p <= |pattern|
    && if star == -1 then
         backup == -1 && Matches(str, pattern) == Lang(Elements(pattern, p), str[s..])
       else
         && 0 <= star < |pattern| && pattern[star] != STAR && 0 <= backup && backup + |seg| == s
         && StarFree(seg) && Elements(pattern, star) == seg + Elements(pattern, p)
         && Matches(str, pattern) ==
              (Lang(Elements(pattern, p), str[s..]) || Later(Elements(pattern, star), str, backup + 1))
  }

  lemma AtStar(str: seq<int>, pattern: seq<int>, s: int, p: int, star: int, backup: int, seg: seq<Elem>)
    requires Scan(str, pattern, s, p, star, backup, seg)
    requires p < |pattern| && pattern[p] == STAR
    ensures Matches(str, pattern) == Lang(Elements(pattern, p), str[s..])
    ensures backup < s
  {
    var es := Elements(pattern, p);
    if star != -1 {
      assert es == [Star] + Elements(pattern, p + 1);
      if Later(Elements(pattern, star), str, backup + 1) {
        LastStarSuffices(seg, Elements(pattern, p + 1), str, backup, s);
      }
      assert (seg + es)[|seg|] == Star && Elements(pattern, star)[0] == ElemAt(pattern, star).0;
    }
  }

  lemma AfterStar(str: seq<int>, pattern: seq<int>, s: int, p: int)
    requires 0 <= s <= |str| && 0 <= p < |pattern| && pattern[p] != STAR
    requires Matches(str, pattern) == Lang([Star] + Elements(pattern, p), str[s..])
    ensures Scan(str, pattern, s, p, p, s, [])
  {
    StarIsLater(Elements(pattern, p), str, s);
    assert Elements(pattern, p) == [] + Elements(pattern, p);
  }

  lemma Consume(str: seq<int>, pattern: seq<int>, s: nat, p: nat)
    requires s < |str| && p < |pattern| && pattern[p] != STAR && Accepts(ElemAt(pattern, p).0, str[s])
    ensures Lang(Elements(pattern, p), str[s..]) == Lang(Elements(pattern, ElemAt(pattern, p).1), str[s + 1..])
  {
    assert Elements(pattern, p)[1..] == Elements(pattern, ElemAt(pattern, p).1);
    assert str[s..][0] == str[s] && str[s..][1..] == str[s + 1..];
  }

  lemma Advance(str: seq<int>, pattern: seq<int>, s: int, p: int, star: int, backup: int, seg: seq<Elem>)
    requires Scan(str, pattern, s, p, star, backup, seg)
    requires s < |str| && p < |pattern| && pattern[p] != STAR && Accepts(ElemAt(pattern, p).0, str[s])
    ensures Scan(str, pattern, s + 1, ElemAt(pattern, p).1, star, backup, seg + [ElemAt(pattern, p).0])
  {
    Consume(str, pattern, s, p);
    var (e, next) := ElemAt(pattern, p);
    assert seg + ([e] + Elements(pattern, next)) == seg + [e] + Elements(pattern, next);
  }

  lemma Mismatch(str: seq<int>, pattern: seq<int>, s: int, p: int)
    requires 0 <= s < |str| && 0 <= p <= |pattern|
    requires p < |pattern| ==> pattern[p] != STAR && !Accepts(ElemAt(pattern, p).0, str[s])
    ensures !Lang(Elements(pattern, p), str[s..])
  {
    assert str[s..][0] == str[s];
  }

  lemma Retry(str: seq<int>, pattern: seq<int>, s: int, p: int, star: int, backup: int, seg: seq<Elem>)
    requires Scan(str, pattern, s, p, star, backup, seg) && star != -1 && s < |str|
    requires !Lang(Elements(pattern, p), str[s..])
    ensures Scan(str, pattern, backup + 1, star, star, backup + 1, [])
  {
    var es := Elements(pattern, star);
    assert es == [] + es;
    if Later(es, str, backup + 1) && !Lang(es, str[backup + 1..]) {
      var j :| backup + 1 <= j <= |str| && Lang(es, str[j..]);
      assert backup + 2 <= j;
    }
  }

  /** Matching `str` against `pattern` with one remembered star. */
  method WildcardMatch(str: seq<int>, pattern: seq<int>) returns (r: bool)
    ensures r == Matches(str, pattern)
  {
    var s, p := 0, 0;
    var star, backup := -1, -1;  // -1: no star seen yet
    ghost var seg: seq<Elem> := [];
    assert str[0..] == str;
    while s < |str|
      invariant Scan(str, pattern, s, p, star, backup, seg)
      decreases |str| - backup, |pattern| - p
    {
      if p < |pattern| && pattern[p] == STAR {
        AtStar(str, pattern, s, p, star, backup, seg);
        p := SkipStars(pattern, p, str[s..]);
        if p == |pattern| {
          StarTakesAll(str[s..]);
          assert [Star] + Elements(pattern, p) == [Star];
          return true;
        }
        AfterStar(str, pattern, s, p);
        star, backup, seg := p, s, [];
      } else {
        var ok, next := false, p;
        if p < |pattern| { ok, next := MatchOne(pattern, p, str[s]); }
        if ok {
          Advance(str, pattern, s, p, star, backup, seg);
          seg := seg + [ElemAt(pattern, p).0];
          s, p := s + 1, next;
        } else {
          Mismatch(str, pattern, s, p);
          if star == -1 { return false; }
          Retry(str, pattern, s, p, star, backup, seg);
          backup := backup + 1;
          p, s, seg := star, backup, [];
        }
      }
    }
    if star != -1 { NothingLater(seg, Elements(pattern, p), str, backup); }
    assert str[s..] == [];
    ghost var tail := p;
    p := SkipStars(pattern, p, []);
    EmptyTail(pattern, tail, p);
    r := p == |pattern|;
  }
}
