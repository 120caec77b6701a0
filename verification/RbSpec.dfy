/** Red-black rebalancing on tree values: a subtree and the path from it to the root. */
module RbSpec {

  datatype Tree<N> = Nil | T(l: Tree<N>, n: N, red: bool, r: Tree<N>)

  /** What surrounds a subtree: it is the left or the right child of a node, and so on up. */
  datatype Path<N> = Top | InL(up: Path<N>, n: N, red: bool, r: Tree<N>) | InR(up: Path<N>, l: Tree<N>, n: N, red: bool)

  predicate IsRed<N>(t: Tree<N>) { t.T? && t.red }

  function Blacken<N>(t: Tree<N>): Tree<N> { if t.T? then t.(red := false) else t }

  /** The whole tree with `t` in the hole. */
  function Fill<N>(p: Path<N>, t: Tree<N>): Tree<N> {
    match p
    case Top => t
    case InL(up, n, c, r) => Fill(up, T(t, n, c, r))
    case InR(up, l, n, c) => Fill(up, T(l, n, c, t))
  }

  function InOrder<N>(t: Tree<N>): seq<N> {
    match t case Nil => [] case T(l, n, _, r) => InOrder(l) + [n] + InOrder(r)
  }

  /** What comes before and after the hole in order. */
  function Before<N>(p: Path<N>): seq<N> {
    match p
    case Top => []
    case InL(up, n, _, r) => Before(up)
    case InR(up, l, n, _) => Before(up) + InOrder(l) + [n]
  }

  function Behind<N>(p: Path<N>): seq<N> {
    match p
    case Top => []
    case InL(up, n, _, r) => [n] + InOrder(r) + Behind(up)
    case InR(up, l, n, _) => Behind(up)
  }

  lemma Regroup<N>(a: seq<N>, b: seq<N>, c: seq<N>, d: seq<N>, e: seq<N>)
    ensures a + (b + c + d) + e == a + b + (c + d + e)
    ensures a + (b + c + d) + e == a + b + c + d + e
  {}

  lemma Rotations<N>(a: seq<N>, x: seq<N>, b: seq<N>, y: seq<N>, c: seq<N>, z: seq<N>, d: seq<N>)
    ensures (a + x + b) + y + c == a + x + (b + y + c)
    ensures (a + x + b) + y + (c + z + d) == a + x + ((b + y + c) + z + d)
    ensures (a + x + b) + y + (c + z + d) == (a + x + (b + y + c)) + z + d
  {}

  lemma InOrderNode<N>(l: Tree<N>, n: N, c: bool, r: Tree<N>)
    ensures InOrder(T(l, n, c, r)) == InOrder(l) + [n] + InOrder(r)
  {}

  lemma {:induction false} FillInOrder<N>(p: Path<N>, t: Tree<N>)
    ensures InOrder(Fill(p, t)) == Before(p) + InOrder(t) + Behind(p)
  {
    hide InOrder;
    match p
    case Top =>
    case InL(up, n, c, r) =>
      FillInOrder(up, T(t, n, c, r));
      InOrderNode(t, n, c, r);
      Regroup(Before(up), InOrder(t), [n], InOrder(r), Behind(up));
    case InR(up, l, n, c) =>
      FillInOrder(up, T(l, n, c, t));
      InOrderNode(l, n, c, t);
      Regroup(Before(up), InOrder(l), [n], InOrder(t), Behind(up));
  }

  // ----- red-black properties -----

  /** Black nodes on the leftmost path; with Valid, on every path. */
  function BlackHeight<N>(t: Tree<N>): nat {
    match t case Nil => 0 case T(l, _, c, _) => BlackHeight(l) + if c then 0 else 1
  }

  /** Both children of a red node are black, and every path has the same number of black nodes. */
  predicate Valid<N>(t: Tree<N>) {
    match t
    case Nil => true
    case T(l, _, c, r) =>
      && Valid(l) && Valid(r) && BlackHeight(l) == BlackHeight(r)
      && (c ==> !IsRed(l) && !IsRed(r))
  }

  predicate RedBlack<N>(t: Tree<N>) { Valid(t) && !IsRed(t) }

  predicate HoleRed<N>(p: Path<N>) { !p.Top? && p.red }

  /** A valid surrounding for any subtree of black height `h` with a black root. */
  predicate PathOk<N>(p: Path<N>, h: nat) {
    match p
    case Top => true
    case InL(up, _, c, r) =>
      && Valid(r) && BlackHeight(r) == h && (c ==> !IsRed(r) && !up.Top? && !HoleRed(up))
      && PathOk(up, if c then h else h + 1)
    case InR(up, l, _, c) =>
      && Valid(l) && BlackHeight(l) == h && (c ==> !IsRed(l) && !up.Top? && !HoleRed(up))
      && PathOk(up, if c then h else h + 1)
  }

  /** Filling a valid surrounding with a fitting subtree gives a red-black tree. */
  lemma {:induction false} FillValid<N>(p: Path<N>, t: Tree<N>)
    requires Valid(t) && PathOk(p, BlackHeight(t))
    requires IsRed(t) ==> !p.Top? && !HoleRed(p)
    ensures RedBlack(Fill(p, t))
  {
    match p
    case Top =>
    case InL(up, n, c, r) => FillValid(up, T(t, n, c, r));
    case InR(up, l, n, c) => FillValid(up, T(l, n, c, t));
  }

  function Max(a: nat, b: nat): nat { if a > b then a else b }

  function Height<N>(t: Tree<N>): nat {
    match t case Nil => 0 case T(l, _, _, r) => 1 + Max(Height(l), Height(r))
  }

  /** The longest path is at most twice the number of black nodes on any path. */
  lemma {:induction false} HeightBound<N>(t: Tree<N>)
    requires Valid(t)
    ensures Height(t) <= 2 * BlackHeight(t) + (if IsRed(t) then 1 else 0)
  {
    match t
    case Nil =>
    case T(l, _, _, r) => HeightBound(l); HeightBound(r);
  }

  // ----- insertion -----

  /** `__rb_insert` at a red subtree `t` in the hole of `p`. */
  function FixInsert<N>(p: Path<N>, t: Tree<N>): Tree<N>
    requires IsRed(t)
    decreases p
  {
    match p
    case Top => Blacken(t)
    case InL(up, x, c, s) => if !c then Fill(p, t) else InsertUnder(up, x, T(t, x, true, s), t, true, s)
    case InR(up, s, x, c) => if !c then Fill(p, t) else InsertUnder(up, x, T(s, x, true, t), t, false, s)
  }

  /** The parent `x` is red: `par` is its subtree, `t` its child on the given side, `s` the other. */
  function InsertUnder<N>(p: Path<N>, x: N, par: Tree<N>, t: Tree<N>, left: bool, s: Tree<N>): Tree<N>
    requires IsRed(t) && IsRed(par)
    decreases p
  {
    match p
    case Top => Fill(p, par)
    case InL(up, g, gc, u) =>
      if IsRed(u) then FixInsert(up, T(Blacken(par), g, true, Blacken(u)))
      else if left then Fill(up, T(t, x, gc, T(s, g, true, u)))
      else Fill(up, T(T(s, x, true, t.l), t.n, gc, T(t.r, g, true, u)))
    case InR(up, u, g, gc) =>
      if IsRed(u) then FixInsert(up, T(Blacken(u), g, true, Blacken(par)))
      else if !left then Fill(up, T(T(u, g, true, s), x, gc, t))
      else Fill(up, T(T(u, g, true, t.l), t.n, gc, T(t.r, x, true, s)))
  }

  /** Rebalancing never changes the in-order sequence. */
  lemma {:induction false} InsertKeepsOrder<N>(p: Path<N>, t: Tree<N>)
    requires IsRed(t)
    ensures InOrder(FixInsert(p, t)) == InOrder(Fill(p, t))
    decreases p
  {
    hide InOrder;
    match p
    case Top => InOrderNode(t.l, t.n, t.red, t.r); InOrderNode(t.l, t.n, false, t.r);
    case InL(up, x, c, s) => if c { UnderKeepsOrder(up, x, T(t, x, true, s), t, true, s); }
    case InR(up, s, x, c) => if c { UnderKeepsOrder(up, x, T(s, x, true, t), t, false, s); }
  }

  /** Subtrees with the same sequence are interchangeable in a hole. */
  lemma FillSame<N>(p: Path<N>, t: Tree<N>, u: Tree<N>)
    requires InOrder(t) == InOrder(u)
    ensures InOrder(Fill(p, t)) == InOrder(Fill(p, u))
  {
    FillInOrder(p, t);
    FillInOrder(p, u);
  }

  lemma BlackenInOrder<N>(t: Tree<N>)
    ensures InOrder(Blacken(t)) == InOrder(t)
  {}

  lemma {:induction false} UnderKeepsOrder<N>(p: Path<N>, x: N, par: Tree<N>, t: Tree<N>, left: bool, s: Tree<N>)
    requires IsRed(t) && par == if left then T(t, x, true, s) else T(s, x, true, t)
    ensures InOrder(InsertUnder(p, x, par, t, left, s)) == InOrder(Fill(p, par))
    decreases p
  {
    hide InOrder; hide Blacken;
    BlackenInOrder(par);
    InOrderNode(par.l, x, true, par.r);
    match p
    case Top =>
    case InL(up, g, gc, u) =>
      BlackenInOrder(u);
      InOrderNode(par, g, gc, u);
      InOrderNode(Blacken(par), g, true, Blacken(u));
      if IsRed(u) {
        InsertKeepsOrder(up, T(Blacken(par), g, true, Blacken(u)));
        FillSame(up, T(Blacken(par), g, true, Blacken(u)), T(par, g, gc, u));
      } else if left {
        InOrderNode(s, g, true, u);
        InOrderNode(t, x, gc, T(s, g, true, u));
        Rotations(InOrder(t), [x], InOrder(s), [g], InOrder(u), [], []);
        FillSame(up, T(t, x, gc, T(s, g, true, u)), T(par, g, gc, u));
      } else {
        DoubleRotation(s, x, t, g, gc, u, true);
        FillSame(up, T(T(s, x, true, t.l), t.n, gc, T(t.r, g, true, u)), T(par, g, gc, u));
      }
    case InR(up, u, g, gc) =>
      BlackenInOrder(u);
      InOrderNode(u, g, gc, par);
      InOrderNode(Blacken(u), g, true, Blacken(par));
      if IsRed(u) {
        InsertKeepsOrder(up, T(Blacken(u), g, true, Blacken(par)));
        FillSame(up, T(Blacken(u), g, true, Blacken(par)), T(u, g, gc, par));
      } else if !left {
        InOrderNode(u, g, true, s);
        InOrderNode(T(u, g, true, s), x, gc, t);
        Rotations(InOrder(u), [g], InOrder(s), [x], InOrder(t), [], []);
        FillSame(up, T(T(u, g, true, s), x, gc, t), T(u, g, gc, par));
      } else {
        DoubleRotation(u, g, t, x, gc, s, false);
        FillSame(up, T(T(u, g, true, t.l), t.n, gc, T(t.r, x, true, s)), T(u, g, gc, par));
      }
  }

  /** Lifting the middle subtree of three above its two neighbours. */
  lemma DoubleRotation<N>(a: Tree<N>, x: N, t: Tree<N>, y: N, c: bool, d: Tree<N>, rightFirst: bool)
    requires t.T?
    ensures InOrder(T(T(a, x, true, t.l), t.n, c, T(t.r, y, true, d))) ==
            if rightFirst then InOrder(T(T(a, x, true, t), y, c, d)) else InOrder(T(a, x, c, T(t, y, true, d)))
  {
    hide InOrder;
    InOrderNode(a, x, true, t.l);
    InOrderNode(t.r, y, true, d);
    InOrderNode(T(a, x, true, t.l), t.n, c, T(t.r, y, true, d));
    InOrderNode(t.l, t.n, t.red, t.r);
    InOrderNode(a, x, true, t);
    InOrderNode(T(a, x, true, t), y, c, d);
    InOrderNode(t, y, true, d);
    InOrderNode(a, x, c, T(t, y, true, d));
    Rotations(InOrder(a), [x], InOrder(t.l), [t.n], InOrder(t.r), [y], InOrder(d));
  }

  /** From a valid surrounding and a valid red subtree, rebalancing yields a red-black tree. */
  lemma {:induction false} InsertRestores<N>(p: Path<N>, t: Tree<N>)
    requires IsRed(t) && Valid(t) && PathOk(p, BlackHeight(t))
    ensures RedBlack(FixInsert(p, t))
    decreases p
  {
    match p
    case Top =>
    case InL(up, x, c, s) => if c { UnderRestores(up, x, T(t, x, true, s), t, true, s); } else { FillValid(p, t); }
    case InR(up, s, x, c) => if c { UnderRestores(up, x, T(s, x, true, t), t, false, s); } else { FillValid(p, t); }
  }

  lemma {:induction false} UnderRestores<N>(p: Path<N>, x: N, par: Tree<N>, t: Tree<N>, left: bool, s: Tree<N>)
    requires IsRed(t) && Valid(t) && Valid(s) && !IsRed(s) && BlackHeight(s) == BlackHeight(t)
    requires par == (if left then T(t, x, true, s) else T(s, x, true, t))
    requires PathOk(p, BlackHeight(t)) && !p.Top? && !HoleRed(p)
    ensures RedBlack(InsertUnder(p, x, par, t, left, s))
    decreases p
  {
    match p
    case InL(up, g, gc, u) =>
      if IsRed(u) { InsertRestores(up, T(Blacken(par), g, true, Blacken(u))); }
      else if left { FillValid(up, T(t, x, gc, T(s, g, true, u))); }
      else { FillValid(up, T(T(s, x, true, t.l), t.n, gc, T(t.r, g, true, u))); }
    case InR(up, u, g, gc) =>
      if IsRed(u) { InsertRestores(up, T(Blacken(u), g, true, Blacken(par))); }
      else if !left { FillValid(up, T(T(u, g, true, s), x, gc, t)); }
      else { FillValid(up, T(T(u, g, true, t.l), t.n, gc, T(t.r, x, true, s))); }
  }

  /** Every surrounding of a subtree of a red-black tree is valid. */
  lemma {:induction false} FillParts<N>(p: Path<N>, t: Tree<N>)
    requires RedBlack(Fill(p, t))
    ensures Valid(t) && PathOk(p, BlackHeight(t)) && (IsRed(t) ==> !p.Top? && !HoleRed(p))
  {
    match p
    case Top =>
    case InL(up, n, c, r) => FillParts(up, T(t, n, c, r));
    case InR(up, l, n, c) => FillParts(up, T(l, n, c, t));
  }

  // ----- erasure -----

  /** One level of `____rb_erase_color` with a black sibling `s` on the right: the new subtree, and
      whether a black node is still missing. */
  function StepLeft<N>(x: N, c: bool, t: Tree<N>, s: Tree<N>): (Tree<N>, bool)
    requires s.T?
  {
    if IsRed(s.r) then (T(T(t, x, false, s.l), s.n, c, Blacken(s.r)), false)
    else if IsRed(s.l) then (T(T(t, x, false, s.l.l), s.l.n, c, T(s.l.r, s.n, false, s.r)), false)
    else (T(t, x, false, s.(red := true)), !c)
  }

  function StepRight<N>(x: N, c: bool, t: Tree<N>, s: Tree<N>): (Tree<N>, bool)
    requires s.T?
  {
    if IsRed(s.l) then (T(Blacken(s.l), s.n, c, T(s.r, x, false, t)), false)
    else if IsRed(s.r) then (T(T(s.l, s.n, false, s.r.l), s.r.n, c, T(s.r.r, x, false, t)), false)
    else (T(s.(red := true), x, false, t), !c)
  }

  /** A sibling the missing black guarantees. */
  predicate HasSibling<N>(p: Path<N>) {
    match p
    case Top => true
    case InL(_, _, _, s) => s.T? && (s.red ==> s.l.T?)
    case InR(_, s, _, _) => s.T? && (s.red ==> s.r.T?)
  }

  /** `____rb_erase_color`: the paths through `t` in the hole of `p` lack one black node. */
  function FixErase<N>(p: Path<N>, t: Tree<N>): Tree<N> {
    if !HasSibling(p) then Fill(p, t)
    else match p
      case Top => t
      case InL(up, x, c, s) =>
        if s.red then Fill(InL(up, s.n, c, s.r), StepLeft(x, true, t, s.l).0)
        else
          var (u, more) := StepLeft(x, c, t, s);
          if more then FixErase(up, u) else Fill(up, u)
      case InR(up, s, x, c) =>
        if s.red then Fill(InR(up, s.l, s.n, c), StepRight(x, true, t, s.r).0)
        else
          var (u, more) := StepRight(x, c, t, s);
          if more then FixErase(up, u) else Fill(up, u)
  }

  lemma StepLeftOrder<N>(x: N, c: bool, t: Tree<N>, s: Tree<N>)
    requires s.T?
    ensures InOrder(StepLeft(x, c, t, s).0) == InOrder(T(t, x, c, s))
  {
    hide InOrder; hide Blacken;
    InOrderNode(t, x, c, s);
    InOrderNode(s.l, s.n, s.red, s.r);
    if IsRed(s.r) {
      BlackenInOrder(s.r);
      InOrderNode(t, x, false, s.l);
      InOrderNode(T(t, x, false, s.l), s.n, c, Blacken(s.r));
      Rotations(InOrder(t), [x], InOrder(s.l), [s.n], InOrder(s.r), [], []);
    } else if IsRed(s.l) {
      var m := s.l;
      InOrderNode(m.l, m.n, m.red, m.r);
      InOrderNode(t, x, false, m.l);
      InOrderNode(m.r, s.n, false, s.r);
      InOrderNode(T(t, x, false, m.l), m.n, c, T(m.r, s.n, false, s.r));
      Rotations(InOrder(t), [x], InOrder(m.l), [m.n], InOrder(m.r), [s.n], InOrder(s.r));
    } else {
      InOrderNode(s.l, s.n, true, s.r);
      InOrderNode(t, x, false, s.(red := true));
    }
  }

  lemma StepRightOrder<N>(x: N, c: bool, t: Tree<N>, s: Tree<N>)
    requires s.T?
    ensures InOrder(StepRight(x, c, t, s).0) == InOrder(T(s, x, c, t))
  {
    hide InOrder; hide Blacken;
    InOrderNode(s, x, c, t);
    InOrderNode(s.l, s.n, s.red, s.r);
    if IsRed(s.l) {
      BlackenInOrder(s.l);
      InOrderNode(s.r, x, false, t);
      InOrderNode(Blacken(s.l), s.n, c, T(s.r, x, false, t));
      Rotations(InOrder(s.l), [s.n], InOrder(s.r), [x], InOrder(t), [], []);
    } else if IsRed(s.r) {
      var m := s.r;
      InOrderNode(m.l, m.n, m.red, m.r);
      InOrderNode(s.l, s.n, false, m.l);
      InOrderNode(m.r, x, false, t);
      InOrderNode(T(s.l, s.n, false, m.l), m.n, c, T(m.r, x, false, t));
      Rotations(InOrder(s.l), [s.n], InOrder(m.l), [m.n], InOrder(m.r), [x], InOrder(t));
    } else {
      InOrderNode(s.l, s.n, true, s.r);
      InOrderNode(s.(red := true), x, false, t);
    }
  }

  lemma {:induction false} EraseKeepsOrder<N>(p: Path<N>, t: Tree<N>)
    ensures InOrder(FixErase(p, t)) == InOrder(Fill(p, t))
  {
    hide InOrder; hide StepLeft; hide StepRight;
    if HasSibling(p) {
      match p
      case Top =>
      case InL(up, x, c, s) =>
        if s.red {
          var u := StepLeft(x, true, t, s.l).0;
          StepLeftOrder(x, true, t, s.l);
          InOrderNode(u, s.n, c, s.r);
          InOrderNode(t, x, true, s.l);
          InOrderNode(s.l, s.n, s.red, s.r);
          InOrderNode(t, x, c, s);
          Rotations(InOrder(t), [x], InOrder(s.l), [s.n], InOrder(s.r), [], []);
          FillSame(up, T(u, s.n, c, s.r), T(t, x, c, s));
        } else {
          var u := StepLeft(x, c, t, s).0;
          StepLeftOrder(x, c, t, s);
          FillSame(up, u, T(t, x, c, s));
          EraseKeepsOrder(up, u);
        }
      case InR(up, s, x, c) =>
        if s.red {
          var u := StepRight(x, true, t, s.r).0;
          StepRightOrder(x, true, t, s.r);
          InOrderNode(s.l, s.n, c, u);
          InOrderNode(s.r, x, true, t);
          InOrderNode(s.l, s.n, s.red, s.r);
          InOrderNode(s, x, c, t);
          Rotations(InOrder(s.l), [s.n], InOrder(s.r), [x], InOrder(t), [], []);
          FillSame(up, T(s.l, s.n, c, u), T(s, x, c, t));
        } else {
          var u := StepRight(x, c, t, s).0;
          StepRightOrder(x, c, t, s);
          FillSame(up, u, T(s, x, c, t));
          EraseKeepsOrder(up, u);
        }
    }
  }

  /** Where the surrounding expects one black node more than the subtree has, a sibling exists on
      every level reached and the result is a red-black tree. */
  lemma {:induction false} EraseRestores<N>(p: Path<N>, t: Tree<N>)
    requires Valid(t) && !IsRed(t) && PathOk(p, BlackHeight(t) + 1)
    ensures HasSibling(p) && RedBlack(FixErase(p, t))
  {
    match p
    case Top =>
    case InL(up, x, c, s) =>
      if s.red {
        StepLeftValid(x, true, t, s.l);
        FillValid(InL(up, s.n, c, s.r), StepLeft(x, true, t, s.l).0);
      } else {
        StepLeftValid(x, c, t, s);
        var (u, more) := StepLeft(x, c, t, s);
        if more { EraseRestores(up, u); } else { FillValid(up, u); }
      }
    case InR(up, s, x, c) =>
      if s.red {
        StepRightValid(x, true, t, s.r);
        FillValid(InR(up, s.l, s.n, c), StepRight(x, true, t, s.r).0);
      } else {
        StepRightValid(x, c, t, s);
        var (u, more) := StepRight(x, c, t, s);
        if more { EraseRestores(up, u); } else { FillValid(up, u); }
      }
  }

  lemma StepLeftValid<N>(x: N, c: bool, t: Tree<N>, s: Tree<N>)
    requires Valid(t) && !IsRed(t) && Valid(s) && s.T? && !s.red && BlackHeight(s) == BlackHeight(t) + 1
    ensures var (u, more) := StepLeft(x, c, t, s);
            Valid(u) && (IsRed(u) ==> c) && BlackHeight(u) == BlackHeight(s) + (if c then 0 else 1) - (if more then 1
                                                                                                       else 0)
            && (more ==> !c && !IsRed(u))
  {}

  lemma StepRightValid<N>(x: N, c: bool, t: Tree<N>, s: Tree<N>)
    requires Valid(t) && !IsRed(t) && Valid(s) && s.T? && !s.red && BlackHeight(s) == BlackHeight(t) + 1
    ensures var (u, more) := StepRight(x, c, t, s);
            Valid(u) && (IsRed(u) ==> c) && BlackHeight(u) == BlackHeight(s) + (if c then 0 else 1) - (if more then 1
                                                                                                       else 0)
            && (more ==> !c && !IsRed(u))
  {}

  // ----- unlinking a node -----

  /** The leftmost node of a non-empty tree. */
  function First<N>(t: Tree<N>): (s: Tree<N>)
    requires t.T?
    ensures s.T? && s.l.Nil?
  { if t.l.Nil? then t else First(t.l) }

  /** The path to the leftmost node, below `p`. */
  function FirstPath<N>(p: Path<N>, t: Tree<N>): Path<N>
    requires t.T?
    decreases t
  { if t.l.Nil? then p else FirstPath(InL(p, t.n, t.red, t.r), t.l) }

  /** A subtree takes the place and colour of the node above it, or nothing does. */
  function Close<N>(p: Path<N>, c: bool, child: Tree<N>): Tree<N> {
    if child.T? then Fill(p, child.(red := c))
    else if c then Fill(p, Nil)
    else FixErase(p, Nil)
  }

  /** `rb_erase` of the root of `t`, which sits in the hole of `p`. */
  function Erase<N>(p: Path<N>, t: Tree<N>): Tree<N>
    requires t.T?
  {
    if t.l.Nil? then Close(p, t.red, t.r)
    else if t.r.Nil? then Fill(p, t.l.(red := t.red))
    else
      var s := First(t.r);
      var q := FirstPath(InR(p, t.l, s.n, t.red), t.r);
      if s.r.T? then Fill(q, Blacken(s.r)) else if s.red then Fill(q, Nil) else FixErase(q, Nil)
  }

  lemma {:induction false} FirstPathFill<N>(p: Path<N>, t: Tree<N>)
    requires t.T?
    ensures Fill(FirstPath(p, t), First(t)) == Fill(p, t) && First(t).T? && First(t).l.Nil?
    decreases t
  {
    if !t.l.Nil? { FirstPathFill(InL(p, t.n, t.red, t.r), t.l); }
  }

  lemma {:induction false} FirstPathOrder<N>(p: Path<N>, t: Tree<N>, u: Tree<N>)
    requires t.T? && InOrder(u) == InOrder(First(t).r)
    ensures InOrder(t) != [] && First(t).T? && InOrder(t)[0] == First(t).n
    ensures InOrder(Fill(FirstPath(p, t), u)) == Before(p) + InOrder(t)[1..] + Behind(p)
    decreases t
  {
    hide InOrder;
    InOrderNode(t.l, t.n, t.red, t.r);
    if t.l.Nil? {
      assert InOrder(t.l) == [] by { NilInOrder<N>(); }
      FillInOrder(p, u);
      assert InOrder(t)[1..] == InOrder(t.r);
    } else {
      var q := InL(p, t.n, t.red, t.r);
      FirstPathOrder(q, t.l, u);
      var rest := InOrder(t.l)[1..];
      assert InOrder(t)[1..] == rest + [t.n] + InOrder(t.r);
      Regroup(Before(p), rest, [t.n], InOrder(t.r), Behind(p));
    }
  }

  lemma NilInOrder<N>()
    ensures InOrder<N>(Nil) == []
  {}

  /** Erasing a node removes exactly that node from the sequence. */
  lemma EraseOrder<N>(p: Path<N>, t: Tree<N>)
    requires t.T?
    ensures InOrder(Erase(p, t)) == Before(p) + InOrder(t.l) + InOrder(t.r) + Behind(p)
  {
    hide InOrder; hide FixErase;
    NilInOrder<N>();
    if t.l.Nil? {
      if t.r.T? { Recolour(t.r, t.red); FillInOrder(p, t.r.(red := t.red)); }
      EraseKeepsOrder(p, Nil);
      FillInOrder(p, Nil);
    } else if t.r.Nil? {
      Recolour(t.l, t.red);
      FillInOrder(p, t.l.(red := t.red));
    } else {
      FirstPathFill(p, t.r);
      var s := First(t.r);
      var base := InR(p, t.l, s.n, t.red);
      var q := FirstPath(base, t.r);
      BlackenInOrder(s.r);
      FirstPathOrder(base, t.r, s.r);
      FirstPathOrder(base, t.r, Blacken(s.r));
      EraseKeepsOrder(q, Nil);
      var ro := InOrder(t.r);
      assert ro == [s.n] + ro[1..];
      assert Before(base) + ro[1..] + Behind(base) == Before(p) + InOrder(t.l) + ro + Behind(p);
    }
  }

  lemma Recolour<N>(t: Tree<N>, c: bool)
    requires t.T?
    ensures InOrder(t.(red := c)) == InOrder(t)
  {}

  lemma {:induction false} FirstPathOk<N>(p: Path<N>, t: Tree<N>)
    requires t.T? && Valid(t) && PathOk(p, BlackHeight(t)) && (IsRed(t) ==> !p.Top? && !HoleRed(p))
    ensures Valid(First(t)) && PathOk(FirstPath(p, t), BlackHeight(First(t)))
    ensures First(t).red ==> !FirstPath(p, t).Top? && !HoleRed(FirstPath(p, t))
    decreases t
  {
    if !t.l.Nil? { FirstPathOk(InL(p, t.n, t.red, t.r), t.l); }
  }

  /** Erasing any node of a red-black tree leaves a red-black tree. */
  lemma EraseValid<N>(p: Path<N>, t: Tree<N>)
    requires t.T? && RedBlack(Fill(p, t))
    ensures RedBlack(Erase(p, t))
  {
    FillParts(p, t);
    if t.l.Nil? {
      CloseValid(p, t.red, t.r);
    } else if t.r.Nil? {
      CloseValid(p, t.red, t.l);
    } else {
      hide FixErase;
      FirstPathFill(p, t.r);
      var s := First(t.r);
      var base := InR(p, t.l, s.n, t.red);
      FirstPathOk(base, t.r);
      var q := FirstPath(base, t.r);
      if s.r.T? { FillValid(q, Blacken(s.r)); } else if s.red { FillValid(q, Nil); } else { EraseRestores(q, Nil); }
    }
  }

  lemma CloseValid<N>(p: Path<N>, c: bool, child: Tree<N>)
    requires Valid(child) && (child.T? ==> BlackHeight(child) == 0) && (c ==> !IsRed(child) && !p.Top? && !HoleRed(p))
    requires PathOk(p, if c then 0 else 1) && BlackHeight(child) == 0
    ensures RedBlack(Close(p, c, child))
  {
    if child.T? { FillValid(p, child.(red := c)); } else if c { FillValid(p, Nil); } else { EraseRestores(p, Nil); }
  }
}
