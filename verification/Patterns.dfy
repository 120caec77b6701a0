/** Writing patterns: how each element is spelled, and the proof that reading inverts it. */
module Patterns {
  import opened Wildcard

  predicate Single(x: Item) { x.lo == x.hi }

  /** A character stands for itself, a range is its two ends with a dash between. */
  function ItemText(x: Item): (t: seq<int>)
    ensures |t| > 0 && t[0] == x.lo
  { if Single(x) then [x.lo] else [x.lo, DASH, x.hi] }

  function ItemsText(items: seq<Item>): seq<int> {
    if items == [] then [] else ItemText(items[0]) + ItemsText(items[1..])
  }

  /** `]` cannot be listed, and a dash behind a single character would make a range, unless it is the last thing. */
  predicate Listable(items: seq<Item>) {
    && (forall x :: x in items ==> x.lo != CLOSE && x.hi != CLOSE)
    && forall k :: 0 <= k < |items| - 1 && Single(items[k]) && items[k + 1].lo == DASH ==>
         k + 2 == |items| && Single(items[k + 1])
  }

  function ElemText(e: Elem, mark: int): (t: seq<int>)
    ensures |t| > 0
  {
    match e
    case Star => [STAR]
    case Any => [QUESTION]
    case Lit(c) => [c]
    case Class(neg, items) => [OPEN] + (if neg then [mark] else []) + ItemsText(items) + [CLOSE]
  }

  /** An element that has a spelling: a literal is none of the three marks, and a list that is not inverted does not
      start with a mark of inversion. */
  predicate Spellable(e: Elem) {
    match e
    case Star => true
    case Any => true
    case Lit(c) => c != STAR && c != QUESTION && c != OPEN
    case Class(neg, items) =>
      Listable(items) && (!neg && items != [] ==> items[0].lo != CARET && items[0].lo != BANG)
  }

  function Text(es: seq<Elem>, mark: int): seq<int> {
    if es == [] then [] else ElemText(es[0], mark) + Text(es[1..], mark)
  }

  // ----- reading -----

  /** `t` stands at `i`. */
  ghost predicate Here(p: seq<int>, i: nat, t: seq<int>) { i + |t| <= |p| && p[i..i + |t|] == t }

  lemma HereSplit(p: seq<int>, i: nat, t: seq<int>, u: seq<int>)
    requires Here(p, i, t + u)
    ensures Here(p, i, t) && Here(p, i + |t|, u)
  {
    assert p[i..i + |t|] == (t + u)[..|t|];
    assert p[i + |t|..i + |t| + |u|] == (t + u)[|t|..];
  }

  lemma HereAt(p: seq<int>, i: nat, t: seq<int>, k: nat)
    requires Here(p, i, t) && k < |t|
    ensures i + k < |p| && p[i + k] == t[k]
  {
    assert p[i..i + |t|][k] == p[i + k];
  }

  /** What follows an item in its list: the next one or the end. */
  lemma TextStart(items: seq<Item>)
    ensures var t := ItemsText(items) + [CLOSE];
            && t[0] == (if items == [] then CLOSE else items[0].lo)
            && (|items| == 1 && Single(items[0]) ==> |t| == 2 && t[1] == CLOSE)
  {
    if items != [] { assert ItemsText(items) == ItemText(items[0]) + ItemsText(items[1..]); }
    if |items| == 1 { assert items[1..] == []; }
  }

  lemma {:induction false} ReadItems(p: seq<int>, i: nat, items: seq<Item>)
    requires Listable(items) && Here(p, i, ItemsText(items) + [CLOSE])
    ensures ClassItems(p, i) == items && AfterClass(p, i) == i + |ItemsText(items)| + 1
    decreases |items|
  {
    hide Here;
    if items == [] {
      HereAt(p, i, ItemsText(items) + [CLOSE], 0);
    } else {
      var x, rest := items[0], items[1..];
      var t := ItemText(x);
      var u := ItemsText(rest) + [CLOSE];
      assert ItemsText(items) + [CLOSE] == t + u;
      HereSplit(p, i, t, u);
      ReadItems(p, i + |t|, rest);
      HereAt(p, i, t, 0);
      HereAt(p, i + |t|, u, 0);
      TextStart(rest);
      assert x in items;
      if Single(x) {
        if rest != [] && rest[0].lo == DASH {
          assert Single(items[0]) && items[0 + 1].lo == DASH;
          HereAt(p, i + |t|, u, 1);
        }
        assert !IsRange(p, i);
      } else {
        HereAt(p, i, t, 1);
        HereAt(p, i, t, 2);
        assert IsRange(p, i);
      }
      assert items == [x] + rest;
    }
  }

  lemma ReadClass(p: seq<int>, i: nat, e: Elem, mark: int)
    requires e.Class? && Spellable(e) && (mark == CARET || mark == BANG) && Here(p, i, ElemText(e, mark))
    ensures i < |p| && ElemAt(p, i) == (e, i + |ElemText(e, mark)|)
  {
    hide Here; hide ClassItems; hide AfterClass; hide ItemsText; hide Listable;
    var m := if e.neg then [mark] else [];
    var u := ItemsText(e.items) + [CLOSE];
    assert ElemText(e, mark) == [OPEN] + (m + u);
    HereSplit(p, i, [OPEN], m + u);
    HereAt(p, i, [OPEN], 0);
    HereSplit(p, i + 1, m, u);
    HereAt(p, i + 1 + |m|, u, 0);
    TextStart(e.items);
    if e.neg { HereAt(p, i + 1, m, 0); }
    assert Inverted(p, i + 1) == e.neg;
    ReadItems(p, i + 1 + |m|, e.items);
  }

  lemma ReadElem(p: seq<int>, i: nat, e: Elem, mark: int)
    requires Spellable(e) && (mark == CARET || mark == BANG) && Here(p, i, ElemText(e, mark))
    ensures i < |p| && ElemAt(p, i) == (e, i + |ElemText(e, mark)|)
  {
    hide Here;
    if e.Class? { ReadClass(p, i, e, mark); } else { HereAt(p, i, ElemText(e, mark), 0); }
  }

  lemma {:induction false} ReadText(p: seq<int>, i: nat, es: seq<Elem>, mark: int)
    requires (mark == CARET || mark == BANG) && (forall e :: e in es ==> Spellable(e))
    requires Here(p, i, Text(es, mark)) && i + |Text(es, mark)| == |p|
    ensures Elements(p, i) == es
    decreases |es|
  {
    hide Here; hide ElemAt; hide Spellable; hide ElemText;
    if es != [] {
      HereSplit(p, i, ElemText(es[0], mark), Text(es[1..], mark));
      ReadElem(p, i, es[0], mark);
      ReadText(p, i + |ElemText(es[0], mark)|, es[1..], mark);
    }
  }

  /** A written pattern matches exactly the strings its elements describe. */
  lemma TextMatches(es: seq<Elem>, mark: int, s: seq<int>)
    requires (mark == CARET || mark == BANG) && forall e :: e in es ==> Spellable(e)
    ensures Elements(Text(es, mark), 0) == es && (Matches(s, Text(es, mark)) <==> Lang(es, s))
  {
    hide Elements; hide Spellable; hide Text;
    var p := Text(es, mark);
    assert p[0..|p|] == p;
    ReadText(p, 0, es, mark);
  }

  /** A list that is never closed ends with the pattern, as if it were closed there. */
  lemma {:induction false} Unclosed(p: seq<int>, i: nat)
    requires i <= |p| && forall k :: i <= k < |p| ==> p[k] != CLOSE
    ensures ClassItems(p, i) == ClassItems(p + [CLOSE], i) && AfterClass(p, i) == |p|
    decreases |p| - i
  {
    var q := p + [CLOSE];
    if i < |p| {
      assert q[i] == p[i];
      assert IsRange(q, i) == IsRange(p, i);
      Unclosed(p, if IsRange(p, i) then i + 3 else i + 1);
    }
  }
}
