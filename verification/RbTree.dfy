/** Red-black trees rebalanced in place by pointer updates. Pointers are keys of the store `mem`. */
module RbTree {
  import opened RbSpec
  import opened RbStore

  predicate Inserting(p: Path<Ref>, t: Tree<Ref>) { IsRed(t) && Valid(t) && PathOk(p, BlackHeight(t)) }

  // ----- insertion, one case at a time -----

  lemma InsertLeft(up: Path<Ref>, g: Ref, gc: bool, u: Tree<Ref>, x: Ref, s: Tree<Ref>, t: Tree<Ref>)
    requires Inserting(InL(InL(up, g, gc, u), x, true, s), t)
    ensures !gc && !IsRed(s) && !IsRed(t.l) && !IsRed(t.r)
    ensures FixInsert(InL(InL(up, g, gc, u), x, true, s), t) ==
            if IsRed(u) then FixInsert(up, T(T(t, x, false, s), g, true, Blacken(u)))
            else Fill(up, T(t, x, gc, T(s, g, true, u)))
    ensures IsRed(u) ==> Inserting(up, T(T(t, x, false, s), g, true, Blacken(u)))
  {
    assert PathOk(InL(up, g, gc, u), BlackHeight(t));
    if IsRed(u) { assert Valid(T(t, x, false, s)) && Valid(Blacken(u)); }
  }

  lemma InsertLeftInner(up: Path<Ref>, g: Ref, gc: bool, u: Tree<Ref>, x: Ref, s: Tree<Ref>, t: Tree<Ref>)
    requires Inserting(InR(InL(up, g, gc, u), s, x, true), t)
    ensures !gc && !IsRed(s) && !IsRed(t.l) && !IsRed(t.r)
    ensures FixInsert(InR(InL(up, g, gc, u), s, x, true), t) ==
            if IsRed(u) then FixInsert(up, T(T(s, x, false, t), g, true, Blacken(u)))
            else Fill(up, T(T(s, x, true, t.l), t.n, gc, T(t.r, g, true, u)))
    ensures IsRed(u) ==> Inserting(up, T(T(s, x, false, t), g, true, Blacken(u)))
  {
    assert PathOk(InL(up, g, gc, u), BlackHeight(t));
    if IsRed(u) { assert Valid(T(s, x, false, t)) && Valid(Blacken(u)); }
  }

  lemma InsertRight(up: Path<Ref>, u: Tree<Ref>, g: Ref, gc: bool, s: Tree<Ref>, x: Ref, t: Tree<Ref>)
    requires Inserting(InR(InR(up, u, g, gc), s, x, true), t)
    ensures !gc && !IsRed(s) && !IsRed(t.l) && !IsRed(t.r)
    ensures FixInsert(InR(InR(up, u, g, gc), s, x, true), t) ==
            if IsRed(u) then FixInsert(up, T(Blacken(u), g, true, T(s, x, false, t)))
            else Fill(up, T(T(u, g, true, s), x, gc, t))
    ensures IsRed(u) ==> Inserting(up, T(Blacken(u), g, true, T(s, x, false, t)))
  {
    assert PathOk(InR(up, u, g, gc), BlackHeight(t));
    if IsRed(u) { assert Valid(T(s, x, false, t)) && Valid(Blacken(u)); }
  }

  lemma InsertRightInner(up: Path<Ref>, u: Tree<Ref>, g: Ref, gc: bool, s: Tree<Ref>, x: Ref, t: Tree<Ref>)
    requires Inserting(InL(InR(up, u, g, gc), x, true, s), t)
    ensures !gc && !IsRed(s) && !IsRed(t.l) && !IsRed(t.r)
    ensures FixInsert(InL(InR(up, u, g, gc), x, true, s), t) ==
            if IsRed(u) then FixInsert(up, T(Blacken(u), g, true, T(t, x, false, s)))
            else Fill(up, T(T(u, g, true, t.l), t.n, gc, T(t.r, x, true, s)))
    ensures IsRed(u) ==> Inserting(up, T(Blacken(u), g, true, T(t, x, false, s)))
  {
    assert PathOk(InR(up, u, g, gc), BlackHeight(t));
    if IsRed(u) { assert Valid(T(t, x, false, s)) && Valid(Blacken(u)); }
  }

  lemma LiftLeftFacts(h: Store, root: Ref, up: Path<Ref>, s: Tree<Ref>, x: Ref, xc: bool, t: Tree<Ref>, g: Ref,
                      gc: bool, u: Tree<Ref>)
    requires Zip(h, root, up, T(T(s, x, xc, t), g, gc, u)) && t.T?
    ensures x != NULL && x in h && h[x] == Cell(Root(s), t.n, g, xc)
    ensures t.n != NULL && t.n in h && h[t.n] == Cell(Root(t.l), Root(t.r), x, t.red)
    ensures g in h && h[g] == Cell(x, Root(u), Up(up), gc)
    ensures t.l.T? ==> t.l.n in h && t.l.n != NULL
    ensures {x} !! {t.n, g} && t.n != g && (t.l.T? ==> t.l.n !in {x, t.n, g})
  {
    hide Around; hide Sep; hide Nodes; hide Shape; hide SepPath; hide PathNodes;
    ApartDoubleLeft(up, s, x, t.l, t.n, t.r, g, u, gc, t.red, xc, true);
    ShapeNode(h, T(s, x, xc, t), g, gc, u, Up(up));
    ShapeNode(h, s, x, xc, t, g);
    ShapeNode(h, t.l, t.n, t.red, t.r, x);
    ShapeRoot(h, t.l, t.n);
  }

  lemma LiftRightFacts(h: Store, root: Ref, up: Path<Ref>, u: Tree<Ref>, g: Ref, gc: bool, t: Tree<Ref>, x: Ref,
                       xc: bool, s: Tree<Ref>)
    requires Zip(h, root, up, T(u, g, gc, T(t, x, xc, s))) && t.T?
    ensures x != NULL && x in h && h[x] == Cell(t.n, Root(s), g, xc)
    ensures t.n != NULL && t.n in h && h[t.n] == Cell(Root(t.l), Root(t.r), x, t.red)
    ensures g in h && h[g] == Cell(Root(u), x, Up(up), gc)
    ensures t.r.T? ==> t.r.n in h && t.r.n != NULL
    ensures {x} !! {t.n, g} && t.n != g && (t.r.T? ==> t.r.n !in {x, t.n, g})
  {
    hide Around; hide Sep; hide Nodes; hide Shape; hide SepPath; hide PathNodes;
    ApartDoubleRight(up, u, g, t.l, t.n, t.r, x, s, gc, t.red, xc, true);
    ShapeNode(h, u, g, gc, T(t, x, xc, s), Up(up));
    ShapeNode(h, t, x, xc, s, g);
    ShapeNode(h, t.l, t.n, t.red, t.r, x);
    ShapeRoot(h, t.r, t.n);
  }

  lemma InsertAtTop(t: Tree<Ref>)
    requires IsRed(t)
    ensures FixInsert(Top, t) == t.(red := false)
  {}

  lemma InsertBlack(p: Path<Ref>, t: Tree<Ref>)
    requires IsRed(t) && !p.Top? && !p.red
    ensures FixInsert(p, t) == Fill(p, t)
  {}

  lemma InsertHasGrandparent(p: Path<Ref>, t: Tree<Ref>)
    requires Inserting(p, t) && !p.Top? && p.red
    ensures !p.up.Top? && !p.up.red
  {}

  /** The subtree one level up. */
  function Above(p: Path<Ref>, t: Tree<Ref>): Tree<Ref>
    requires !p.Top?
  { if p.InL? then T(t, p.n, p.red, p.r) else T(p.l, p.n, p.red, t) }

  lemma FocusUp(h: Store, root: Ref, p: Path<Ref>, t: Tree<Ref>)
    requires !p.Top?
    ensures Zip(h, root, p, t) <==> Zip(h, root, p.up, Above(p, t))
  {
    hide Zip;
    match p
    case InL(up, n, c, r) => Refocus(h, root, up, t, n, c, r);
    case InR(up, l, n, c) => Refocus(h, root, up, l, n, c, t);
  }

  // ----- erasure, one level at a time -----

  /** The paths through `t` lack one black node. */
  predicate Deficit(p: Path<Ref>, t: Tree<Ref>) { Valid(t) && !IsRed(t) && PathOk(p, BlackHeight(t) + 1) }

  lemma DeficitLeft(up: Path<Ref>, x: Ref, c: bool, s: Tree<Ref>, t: Tree<Ref>)
    requires Deficit(InL(up, x, c, s), t)
    ensures s.T? && Valid(s)
    ensures s.red ==> s.l.T? && !s.l.red && Valid(s.l) && !StepLeft(x, true, t, s.l).1
    ensures FixErase(InL(up, x, c, s), t) ==
            if s.red then Fill(InL(up, s.n, c, s.r), StepLeft(x, true, t, s.l).0)
            else if StepLeft(x, c, t, s).1 then FixErase(up, StepLeft(x, c, t, s).0)
                 else Fill(up, StepLeft(x, c, t, s).0)
    ensures !s.red && StepLeft(x, c, t, s).1 ==> Deficit(up, StepLeft(x, c, t, s).0)
  {
    hide StepLeft;
    if s.red { StepLeftValid(x, true, t, s.l); } else { StepLeftValid(x, c, t, s); }
  }

  lemma DeficitRight(up: Path<Ref>, s: Tree<Ref>, x: Ref, c: bool, t: Tree<Ref>)
    requires Deficit(InR(up, s, x, c), t)
    ensures s.T? && Valid(s)
    ensures s.red ==> s.r.T? && !s.r.red && Valid(s.r) && !StepRight(x, true, t, s.r).1
    ensures FixErase(InR(up, s, x, c), t) ==
            if s.red then Fill(InR(up, s.l, s.n, c), StepRight(x, true, t, s.r).0)
            else if StepRight(x, c, t, s).1 then FixErase(up, StepRight(x, c, t, s).0)
                 else Fill(up, StepRight(x, c, t, s).0)
    ensures !s.red && StepRight(x, c, t, s).1 ==> Deficit(up, StepRight(x, c, t, s).0)
  {
    hide StepRight;
    if s.red { StepRightValid(x, true, t, s.r); } else { StepRightValid(x, c, t, s); }
  }

  lemma StepLeftRoot(x: Ref, c: bool, t: Tree<Ref>, s: Tree<Ref>)
    requires s.T?
    ensures StepLeft(x, c, t, s).0.T? && (StepLeft(x, c, t, s).1 ==> StepLeft(x, c, t, s).0.n == x)
  {}

  lemma StepRightRoot(x: Ref, c: bool, t: Tree<Ref>, s: Tree<Ref>)
    requires s.T?
    ensures StepRight(x, c, t, s).0.T? && (StepRight(x, c, t, s).1 ==> StepRight(x, c, t, s).0.n == x)
  {}

  lemma FixEraseTop(t: Tree<Ref>)
    ensures FixErase(Top, t) == t
  {}

  lemma SwappedSame(h: Store, p: Path<Ref>, hole: Ref)
    requires !p.Top? ==> p.n in h
    ensures Same(h, Swapped(h, p, hole), h.Keys - PathNodes(p)) && Swapped(h, p, hole).Keys == h.Keys
  {}

  lemma NearFacts(h: Store, root: Ref, p: Path<Ref>, l: Tree<Ref>, n: Ref, c: bool, s: Tree<Ref>)
    requires Zip(h, root, p, T(l, n, c, s)) && l.T? && s.T? && s.l.Nil?
    ensures n != NULL && n in h && h[n] == Cell(l.n, s.n, Up(p), c) && Around(h, root, p, n) && SepPath(p)
    ensures s.n in h && s.n != NULL && h[s.n] == Cell(NULL, Root(s.r), n, s.red) && l.n in h
    ensures (s.r.T? ==> s.r.n in h && s.r.n != NULL)
    ensures Shape(h, l, n) && Shape(h, s.r, s.n) && Apart(p, T(l, s.n, c, s.r))
    ensures {n, s.n, l.n} !! PathNodes(p) && n != s.n && n != l.n && s.n != l.n
    ensures s.r.T? ==> s.r.n !in PathNodes(p) && s.r.n !in {n, s.n, l.n} && s.r.n in Nodes(s.r)
    ensures Nodes(s.r) !! PathNodes(p) && Nodes(l) !! PathNodes(p) && Nodes(l) !! Nodes(s.r)
    ensures s.n !in Nodes(l) + Nodes(s.r) && l.n in Nodes(l)
  {
    ApartParts(p, l, n, c, s);
    ApartParts(p, s.l, s.n, s.red, s.r);
    hide Sep; hide Nodes; hide Shape; hide SepPath; hide PathNodes; hide Around;
    ShapeNode(h, l, n, c, s, Up(p));
    ShapeNode(h, s.l, s.n, s.red, s.r, n);
    ShapeRoot(h, l, n);
    ShapeRoot(h, s.r, s.n);
    SepNode(s.l, s.n, s.red, s.r);
    SepNode(l, n, c, s);
    SepNode(l, s.n, c, s.r);
  }

  /** Where the successor is and what surrounds it. */
  lemma DeepShape(h: Store, root: Ref, p: Path<Ref>, l: Tree<Ref>, n: Ref, c: bool, r: Tree<Ref>)
    requires Zip(h, root, p, T(l, n, c, r)) && l.T? && r.T? && r.l.T?
    ensures n != NULL && n in h && h[n] == Cell(l.n, r.n, Up(p), c) && Around(h, root, p, n) && l.n in h && r.n in h
    ensures var s := First(r);
            var q := FirstPath(InR(p, l, n, c), r);
            && Zip(h, root, q, s) && q.InL? && q.n in h
            && s.n != NULL && s.n in h && h[s.n] == Cell(NULL, Root(s.r), q.n, s.red)
            && (s.r.T? ==> s.r.n in h && s.r.n != NULL)
            && Zip(Cut(h, q.n, s.r), root, p, T(l, n, c, FillFirst(r, Blacken(s.r))))
  {
    var s := First(r);
    var base := InR(p, l, n, c);
    var q := FirstPath(base, r);
    assert Sep(r) by { ApartParts(p, l, n, c, r); }
    ShapeNode(h, l, n, c, r, Up(p)); ShapeRoot(h, l, n); ShapeRoot(h, r, n);
    assert Around(h, root, p, n);
    hide Zip; hide Sep; hide Nodes; hide Shape; hide SepPath; hide PathNodes; hide Around; hide Apart;
    hide FirstPath; hide FillFirst;
    Refocus(h, root, p, l, n, c, r);
    FocusFirst(h, root, base, r, s);
    FillFirstSame(r);
    FirstPathDeep(base, base, r);
    ZipRoot(h, root, q, s);
    assert s.r.T? ==> s.r.n in h && s.r.n != NULL by {
      Refocus(h, root, q, s.l, s.n, s.red, s.r);
      ZipRoot(h, root, InR(q, s.l, s.n, s.red), s.r);
    }
    CutZip(h, root, q, s);
    FocusFirst(Cut(h, q.n, s.r), root, base, r, Blacken(s.r));
    Refocus(Cut(h, q.n, s.r), root, p, l, n, c, FillFirst(r, Blacken(s.r)));
  }

  /** The node `n`, its successor at the root of `s`, the node `x` above the successor, the two
      subtrees of `n`, and `r'`, the right one without the successor, do not overlap. */
  predicate Deep(p: Path<Ref>, l: Tree<Ref>, n: Ref, r: Tree<Ref>, r': Tree<Ref>, s: Tree<Ref>, x: Ref) {
    && l.T? && r.T? && s.T?
    && Nodes(l) !! Nodes(r) && Nodes(l) !! PathNodes(p) && Nodes(r) !! PathNodes(p)
    && n !in Nodes(l) && n !in Nodes(r) && n !in PathNodes(p) && SepPath(p)
    && x in Nodes(r) && r.n in Nodes(r) && l.n in Nodes(l) && s.n in Nodes(r) && x != s.n && r.n != s.n
    && (s.r.T? ==> s.r.n in Nodes(r) && s.r.n != x && s.r.n != r.n && s.r.n != s.n)
    && r'.T? && r'.n == r.n && Nodes(r') <= Nodes(r) - {s.n}
  }

  lemma DeepApart(p: Path<Ref>, l: Tree<Ref>, n: Ref, c: bool, r: Tree<Ref>)
    requires Apart(p, T(l, n, c, r)) && l.T? && r.T? && r.l.T?
    ensures Deep(p, l, n, r, FillFirst(r, Blacken(First(r).r)), First(r), Up(FirstPath(InR(p, l, n, c), r)))
  {
    var s := First(r);
    ApartParts(p, l, n, c, r);
    RootIn(s.r);
    RecolouredApart(s.r, Blacken(s.r));
    FillFirstNodes(r, Blacken(s.r));
    FirstPathDeep(InR(p, l, n, c), InR(p, l, n, c), r);
    FirstIn(r);
    FirstSep(r);
  }

  lemma ApartSwap(p: Path<Ref>, l: Tree<Ref>, n: Ref, n': Ref, c: bool, r: Tree<Ref>)
    requires Apart(p, T(l, n, c, r)) && n' !in Nodes(l) && n' !in Nodes(r) && n' !in PathNodes(p)
    ensures Apart(p, T(l, n', c, r))
  {
    hide PathNodes; hide SepPath;
  }

  /** The stores while the successor moves. */
  predicate Moving(h: Store, h2: Store, h': Store, p: Path<Ref>, l: Tree<Ref>, c: bool, r: Tree<Ref>, s: Tree<Ref>,
                   x: Ref) {
    && l.T? && r.T? && s.T? && x in h && s.n in h && r.n in h && l.n in h && s.n != NULL
    && (s.r.T? ==> s.r.n in h && s.r.n != NULL)
    && h2 == h[x := h[x].(left := Root(s.r))]
              [s.n := h[s.n].(right := r.n)]
              [r.n := (if r.n == x then h[x].(left := Root(s.r)) else h[r.n]).(parent := s.n)]
    && h'.Keys == h.Keys && h'[s.n] == Cell(l.n, r.n, Up(p), c) && h'[l.n] == h2[l.n].(parent := s.n)
    && (s.r.T? ==> h'[s.r.n] == h2[s.r.n].(parent := x, red := false))
    && Same(h2, h', h2.Keys - {s.n, l.n} - (if s.r.T? then {s.r.n} else {}) - PathNodes(p))
  }

  lemma MovingSame(h: Store, h2: Store, h': Store, p: Path<Ref>, l: Tree<Ref>, n: Ref, c: bool, r: Tree<Ref>,
                   r': Tree<Ref>, s: Tree<Ref>, x: Ref)
    requires Deep(p, l, n, r, r', s, x) && Moving(h, h2, h', p, l, c, r, s, x)
    ensures var h1 := Cut(h, x, s.r);
            && h'[l.n] == h1[l.n].(parent := s.n) && h'[r.n] == h1[r.n].(parent := s.n)
            && Same(h1, h', (Nodes(l) - {l.n}) + (Nodes(r') - {r.n}))
  {
    hide PathNodes; hide SepPath; hide Nodes;
  }

  /** The store after the successor, cut out below `x`, took the node's place. */
  lemma DeepReplaced(h: Store, h2: Store, h': Store, root: Ref, root': Ref, p: Path<Ref>, l: Tree<Ref>, n: Ref, c: bool,
                     r: Tree<Ref>, r': Tree<Ref>, s: Tree<Ref>, x: Ref)
    requires Deep(p, l, n, r, r', s, x) && Moving(h, h2, h', p, l, c, r, s, x)
    requires Zip(Cut(h, x, s.r), root, p, T(l, n, c, r')) && Around(h', root', p, s.n)
    ensures Zip(h', root', p, T(l, s.n, c, r'))
  {
    var h1 := Cut(h, x, s.r);
    MovingSame(h, h2, h', p, l, n, c, r, r', s, x);
    hide Sep; hide Nodes; hide Shape; hide SepPath; hide PathNodes; hide Around; hide Cut;
    assert Apart(p, T(l, s.n, c, r')) by { ApartSwap(p, l, n, s.n, c, r'); }
    hide Apart; hide Zip;
    ShapeNode(h1, l, n, c, r', Up(p));
    ShapeRoot(h1, l, n);
    ShapeRoot(h1, r', n);
    hide Deep; hide Same;
    Replaced(h1, h', root', p, l, n, s.n, c, r', n, r');
  }

  lemma LeafZip(h: Store, root: Ref, p: Path<Ref>, n: Ref)
    requires n != NULL && n in h && h[n] == Cell(NULL, NULL, Up(p), true) && Around(h, root, p, n)
    requires SepPath(p) && n !in PathNodes(p)
    ensures Zip(h, root, p, T(Nil, n, true, Nil))
  {}

  lemma FirstNear(p: Path<Ref>, t: Tree<Ref>)
    requires t.T? && t.l.Nil?
    ensures FirstPath(p, t) == p && First(t) == t
  {}

  lemma UnlinkFacts(p: Path<Ref>, t: Tree<Ref>)
    requires t.T? && RedBlack(Fill(p, t))
    ensures t.l.Nil? && t.r.Nil? && !t.red ==> Deficit(p, Nil)
    ensures t.l.T? && t.r.T? ==>
              var s := First(t.r);
              var q := FirstPath(InR(p, t.l, s.n, t.red), t.r);
              !q.Top? && (s.r.Nil? && !s.red ==> Deficit(q, Nil))
  {
    FillParts(p, t);
    if t.l.T? && t.r.T? {
      var s := First(t.r);
      FirstPathOk(InR(p, t.l, s.n, t.red), t.r);
      FirstPathBelow(InR(p, t.l, s.n, t.red), t.r);
    }
  }

  lemma {:induction false} FirstPathBelow(p: Path<Ref>, t: Tree<Ref>)
    requires t.T? && !p.Top?
    ensures !FirstPath(p, t).Top?
    decreases t
  {
    if t.l.T? { FirstPathBelow(InL(p, t.n, t.red, t.r), t.l); }
  }

  class RbRoot {
    var root: Ref
    var mem: Store

    constructor ()
      ensures root == NULL && mem == map[]
    { root, mem := NULL, map[]; }

    ghost predicate At(p: Path<Ref>, t: Tree<Ref>)
      reads this
    { Zip(mem, root, p, t) }

    method SetLeft(n: Ref, x: Ref)
      requires n in mem
      modifies this`mem
      ensures mem == old(mem)[n := old(mem)[n].(left := x)]
    { mem := mem[n := mem[n].(left := x)]; }

    method SetRight(n: Ref, x: Ref)
      requires n in mem
      modifies this`mem
      ensures mem == old(mem)[n := old(mem)[n].(right := x)]
    { mem := mem[n := mem[n].(right := x)]; }

    method SetParent(n: Ref, parent: Ref)
      requires n in mem
      modifies this`mem
      ensures mem == old(mem)[n := old(mem)[n].(parent := parent)]
    { mem := mem[n := mem[n].(parent := parent)]; }

    method SetParentColor(n: Ref, parent: Ref, red: bool)
      requires n in mem
      modifies this`mem
      ensures mem == old(mem)[n := old(mem)[n].(parent := parent, red := red)]
    { mem := mem[n := mem[n].(parent := parent, red := red)]; }

    /** `__rb_change_child`. */
    method ChangeChild(old_: Ref, new_: Ref, parent: Ref, ghost p: Path<Ref>)
      requires Around(mem, root, p, old_) && SepPath(p) && parent == Up(p) && old_ !in PathNodes(p) && old_ != NULL
      modifies this
      ensures (!p.Top? ==> p.n in old(mem)) && mem == Swapped(old(mem), p, new_)
      ensures root == if p.Top? then new_ else old(root)
      ensures Around(mem, root, p, new_)
    {
      SwappedAround(mem, root, p, old_, new_);
      if p.InR? { RootIn(p.l); }
      if parent != NULL {
        if mem[parent].left == old_ { SetLeft(parent, new_); } else { SetRight(parent, new_); }
      } else {
        root := new_;
      }
    }

    /** `__rb_rotate_set_parents`. */
    method RotateSetParents(old_: Ref, new_: Ref, red: bool, ghost p: Path<Ref>)
      requires Around(mem, root, p, old_) && SepPath(p) && old_ != NULL && old_ !in PathNodes(p)
      requires new_ !in PathNodes(p) && old_ != new_
      requires old_ in mem && new_ in mem && mem[old_].parent == Up(p)
      modifies this
      ensures Around(mem, root, p, new_) && mem.Keys == old(mem).Keys
      ensures mem[new_] == old(mem[new_].(parent := mem[old_].parent, red := mem[old_].red))
      ensures mem[old_] == old(mem[old_].(parent := new_, red := red))
      ensures Same(old(mem), mem, old(mem).Keys - {old_, new_} - PathNodes(p))
    {
      var parent := mem[old_].parent;
      ghost var h := mem;
      SetParentColor(new_, parent, mem[old_].red);
      SetParentColor(old_, new_, red);
      KeepAround(h, mem, root, p, old_);
      ChangeChild(old_, new_, parent, p);
    }

    /** The links below a left rotation: `tmp` moves from `y` to `x`, and `x` below `y`. */
    method LeanLeft(x: Ref, y: Ref, tmp: Ref, black: bool)
      requires x in mem && y in mem && x != y && tmp != x && tmp != y && (tmp != NULL ==> tmp in mem)
      modifies this`mem
      ensures mem.Keys == old(mem).Keys
      ensures mem[x] == old(mem[x].(right := tmp)) && mem[y] == old(mem[y].(left := x))
      ensures tmp != NULL ==> mem[tmp] == old(mem[tmp].(parent := x, red := !black && mem[tmp].red))
      ensures Same(old(mem), mem, old(mem).Keys - {x, y} - (if tmp != NULL then {tmp} else {}))
    {
      SetRight(x, tmp);
      SetLeft(y, x);
      if tmp != NULL {
        if black { SetParentColor(tmp, x, false); } else { SetParent(tmp, x); }
      }
    }

    /** The links below a right rotation: `tmp` moves from `x` to `y`, and `y` below `x`. */
    method LeanRight(y: Ref, x: Ref, tmp: Ref, black: bool)
      requires x in mem && y in mem && x != y && tmp != x && tmp != y && (tmp != NULL ==> tmp in mem)
      modifies this`mem
      ensures mem.Keys == old(mem).Keys
      ensures mem[y] == old(mem[y].(left := tmp)) && mem[x] == old(mem[x].(right := y))
      ensures tmp != NULL ==> mem[tmp] == old(mem[tmp].(parent := y, red := !black && mem[tmp].red))
      ensures Same(old(mem), mem, old(mem).Keys - {x, y} - (if tmp != NULL then {tmp} else {}))
    {
      SetLeft(y, tmp);
      SetRight(x, y);
      if tmp != NULL {
        if black { SetParentColor(tmp, y, false); } else { SetParent(tmp, y); }
      }
    }

    /** Rotate left at `x`: its right child `y`, whose left subtree is `b`, takes its place and
        colour, and `x` gets the colour `red`. */
    method RotateLeft(x: Ref, y: Ref, tmp: Ref, red: bool, black: bool,
                      ghost p: Path<Ref>, ghost a: Tree<Ref>, ghost b: Tree<Ref>, ghost c: Tree<Ref>, ghost was: Ref)
      requires Ready(mem, root, p, x, a, x, b, y, c, was) && tmp == Root(b)
      modifies this
      ensures At(p, T(T(a, x, red, if black then Blacken(b) else b), y, old(mem[x].red), c))
      ensures mem.Keys == old(mem).Keys
    {
      ghost var h := mem;
      ghost var b' := if black then Blacken(b) else b;
      hide Around; hide Sep; hide Nodes; hide PathNodes; hide SepPath; hide Shape; hide Apart;
      ApartRotated(p, a, x, b, y, c, false, false, red, red);
      ShapeRoot(mem, b, was);
      LeanLeft(x, y, tmp, black);
      ghost var h1 := mem;
      assert Same(h, mem, PathNodes(p));
      KeepAround(h, mem, root, p, x);
      hide Distinct;
      RotateSetParents(x, y, red, p);
      SameOutside(h, h1, mem, p, a, x, b, y, c);
      hide Same;
      RotatedLeft(h, mem, root, p, a, x, red, b, b', was, y, h[x].red, c);
    }

    /** Rotate right at `y`: its left child `x`, whose right subtree is `b`, takes its place and
        colour, and `y` gets the colour `red`. */
    method RotateRight(y: Ref, x: Ref, tmp: Ref, red: bool, black: bool,
                       ghost p: Path<Ref>, ghost a: Tree<Ref>, ghost b: Tree<Ref>, ghost c: Tree<Ref>, ghost was: Ref)
      requires Ready(mem, root, p, y, a, x, b, y, c, was) && tmp == Root(b)
      modifies this
      ensures At(p, T(a, x, old(mem[y].red), T(if black then Blacken(b) else b, y, red, c)))
      ensures mem.Keys == old(mem).Keys
    {
      ghost var h := mem;
      ghost var b' := if black then Blacken(b) else b;
      hide Around; hide Sep; hide Nodes; hide PathNodes; hide SepPath; hide Shape; hide Apart;
      ApartRotated(p, a, x, b, y, c, false, false, red, red);
      ShapeRoot(mem, b, was);
      LeanRight(y, x, tmp, black);
      ghost var h1 := mem;
      assert Same(h, mem, PathNodes(p));
      KeepAround(h, mem, root, p, y);
      hide Distinct;
      RotateSetParents(y, x, red, p);
      SameOutside(h, h1, mem, p, a, x, b, y, c);
      hide Same;
      RotatedRight(h, mem, root, p, a, x, h[y].red, b, b', was, y, red, c);
    }

    /** Recolour the root of the subtree in focus. */
    method Paint(n: Ref, parent: Ref, red: bool, ghost p: Path<Ref>, ghost t: Tree<Ref>)
      requires At(p, t) && t.T? && n == t.n && parent == Up(p)
      modifies this`mem
      ensures At(p, t.(red := red)) && mem.Keys == old(mem).Keys
    {
      hide Around;
      ghost var h := mem;
      RootIn(t);
      SetParentColor(n, parent, red);
      KeepAround(h, mem, root, p, n);
      Reparented(h, mem, t, parent, parent, t.(red := red));
      RecolouredApart(t, t.(red := red));
    }

    /** The uncle on the right is red: colours flip, and the grandparent is the next node. */
    method FlipLeft(parent: Ref, gparent: Ref, uncle: Ref,
                    ghost up: Path<Ref>, ghost par: Tree<Ref>, ghost gc: bool, ghost u: Tree<Ref>)
      requires At(up, T(par, gparent, gc, u)) && par.T? && u.T? && parent == par.n && uncle == u.n
      modifies this`mem
      ensures At(up, T(par.(red := false), gparent, true, u.(red := false)))
      ensures mem.Keys == old(mem).Keys
    {
      hide Zip;
      Refocus(mem, root, up, par, gparent, gc, u);
      Paint(uncle, gparent, false, InR(up, par, gparent, gc), u);
      ghost var u' := u.(red := false);
      Refocus(mem, root, up, par, gparent, gc, u');
      Paint(parent, gparent, false, InL(up, gparent, gc, u'), par);
      ghost var par' := par.(red := false);
      Refocus(mem, root, up, par', gparent, gc, u');
      ZipRoot(mem, root, up, T(par', gparent, gc, u'));
      var above := mem[gparent].parent;
      Paint(gparent, above, true, up, T(par', gparent, gc, u'));
    }

    /** The uncle on the left is red. */
    method FlipRight(parent: Ref, gparent: Ref, uncle: Ref,
                     ghost up: Path<Ref>, ghost u: Tree<Ref>, ghost gc: bool, ghost par: Tree<Ref>)
      requires At(up, T(u, gparent, gc, par)) && par.T? && u.T? && parent == par.n && uncle == u.n
      modifies this`mem
      ensures At(up, T(u.(red := false), gparent, true, par.(red := false)))
      ensures mem.Keys == old(mem).Keys
    {
      hide Zip;
      Refocus(mem, root, up, u, gparent, gc, par);
      Paint(uncle, gparent, false, InL(up, gparent, gc, par), u);
      ghost var u' := u.(red := false);
      Refocus(mem, root, up, u', gparent, gc, par);
      Paint(parent, gparent, false, InR(up, u', gparent, gc), par);
      ghost var par' := par.(red := false);
      Refocus(mem, root, up, u', gparent, gc, par');
      ZipRoot(mem, root, up, T(u', gparent, gc, par'));
      var above := mem[gparent].parent;
      Paint(gparent, above, true, up, T(u', gparent, gc, par'));
    }

    /** The parent is the left child of the grandparent and the uncle is black. */
    method InsertTurnLeft(node: Ref, parent: Ref, gparent: Ref, ghost up: Path<Ref>, ghost gc: bool, ghost u: Tree<Ref>,
                          ghost s: Tree<Ref>, ghost t: Tree<Ref>, ghost inner: bool)
      requires At(up, T(if inner then T(s, parent, true, t) else T(t, parent, true, s), gparent, gc, u))
      requires IsRed(t) && node == t.n && !IsRed(s) && !IsRed(t.l) && !IsRed(t.r)
      modifies this
      ensures At(up, if inner then T(T(s, parent, true, t.l), node, gc, T(t.r, gparent, true, u))
                     else T(t, parent, gc, T(s, gparent, true, u)))
      ensures mem.Keys == old(mem).Keys
    {
      hide Zip; hide Ready; hide FixInsert; hide InsertUnder;
      ghost var par := if inner then T(s, parent, true, t) else T(t, parent, true, s);
      Refocus(mem, root, up, par, gparent, gc, u);
      ZipRoot(mem, root, InL(up, gparent, gc, u), par);
      ghost var q := InL(up, gparent, gc, u);
      Refocus(mem, root, q, par.l, parent, true, par.r);
      if inner { ZipUp(mem, root, InR(q, s, parent, true), t); ZipRoot(mem, root, InR(q, s, parent, true), t); }
      else { ZipUp(mem, root, InL(q, parent, true, s), t); ZipRoot(mem, root, InL(q, parent, true, s), t); }
      var tmp := mem[parent].right;
      if node == tmp {
        ghost var h := mem;
        tmp := mem[node].left;
        LiftLeft(node, parent, tmp, up, s, t, gparent, gc, u);
        tmp := mem[node].right;
        RotateRight(gparent, node, tmp, true, true, up, T(s, parent, true, t.l), t.r, u, node);
      } else {
        ReadyRight(mem, root, up, t, parent, true, s, gparent, gc, u);
        RotateRight(gparent, parent, tmp, true, true, up, t, s, u, parent);
      }
    }

    /** Left rotation at the parent, which leaves the grandparent to the rotation that follows. */
    method LiftLeft(node: Ref, parent: Ref, tmp: Ref, ghost up: Path<Ref>, ghost s: Tree<Ref>, ghost t: Tree<Ref>,
                    gparent: Ref, ghost gc: bool, ghost u: Tree<Ref>)
      requires At(up, T(T(s, parent, true, t), gparent, gc, u)) && IsRed(t) && node == t.n && !IsRed(t.l)
      requires tmp == Root(t.l)
      modifies this`mem
      ensures Ready(mem, root, up, gparent, T(s, parent, true, t.l), node, t.r, gparent, u, node)
      ensures mem.Keys == old(mem).Keys && mem[gparent].red == gc && mem[node].right == Root(t.r)
    {
      ghost var h := mem;
      LiftLeftFacts(h, root, up, s, parent, true, t, gparent, gc, u);
      hide Zip; hide Ready; hide Nodes;
      LeanLeft(parent, node, tmp, true);
      SetParentColor(parent, node, true);
      FoldedLeft(h, mem, root, up, s, parent, true, true, t.l, node, true, t.r, gparent, gc, u);
    }

    /** The parent is the right child of the grandparent and the uncle is black. */
    method InsertTurnRight(node: Ref, parent: Ref, gparent: Ref, ghost up: Path<Ref>, ghost u: Tree<Ref>,
                           ghost gc: bool,
                           ghost s: Tree<Ref>, ghost t: Tree<Ref>, ghost inner: bool)
      requires At(up, T(u, gparent, gc, if inner then T(t, parent, true, s) else T(s, parent, true, t)))
      requires IsRed(t) && node == t.n && !IsRed(s) && !IsRed(t.l) && !IsRed(t.r)
      modifies this
      ensures At(up, if inner then T(T(u, gparent, true, t.l), node, gc, T(t.r, parent, true, s))
                     else T(T(u, gparent, true, s), parent, gc, t))
      ensures mem.Keys == old(mem).Keys
    {
      hide Zip; hide Ready; hide FixInsert; hide InsertUnder;
      ghost var par := if inner then T(t, parent, true, s) else T(s, parent, true, t);
      Refocus(mem, root, up, u, gparent, gc, par);
      ghost var q := InR(up, u, gparent, gc);
      ZipRoot(mem, root, q, par);
      Refocus(mem, root, q, par.l, parent, true, par.r);
      if inner { ZipUp(mem, root, InL(q, parent, true, s), t); ZipRoot(mem, root, InL(q, parent, true, s), t); }
      else { ZipUp(mem, root, InR(q, s, parent, true), t); ZipRoot(mem, root, InR(q, s, parent, true), t); }
      var tmp := mem[parent].left;
      if node == tmp {
        tmp := mem[node].right;
        LiftRight(node, parent, tmp, up, u, gparent, gc, t, s);
        tmp := mem[node].left;
        RotateLeft(gparent, node, tmp, true, true, up, u, t.l, T(t.r, parent, true, s), node);
      } else {
        ReadyLeft(mem, root, up, u, gparent, gc, s, parent, true, t);
        RotateLeft(gparent, parent, tmp, true, true, up, u, s, t, parent);
      }
    }

    /** Right rotation at the parent, which leaves the grandparent to the rotation that follows. */
    method LiftRight(node: Ref, parent: Ref, tmp: Ref, ghost up: Path<Ref>, ghost u: Tree<Ref>, gparent: Ref,
                     ghost gc: bool,
                     ghost t: Tree<Ref>, ghost s: Tree<Ref>)
      requires At(up, T(u, gparent, gc, T(t, parent, true, s))) && IsRed(t) && node == t.n && !IsRed(t.r)
      requires tmp == Root(t.r)
      modifies this`mem
      ensures Ready(mem, root, up, gparent, u, gparent, t.l, node, T(t.r, parent, true, s), node)
      ensures mem.Keys == old(mem).Keys && mem[gparent].red == gc && mem[node].left == Root(t.l)
    {
      ghost var h := mem;
      LiftRightFacts(h, root, up, u, gparent, gc, t, parent, true, s);
      hide Zip; hide Ready; hide Nodes;
      LeanRight(parent, node, tmp, true);
      SetParentColor(parent, node, true);
      FoldedRight(h, mem, root, up, u, gparent, gc, t.l, node, true, t.r, parent, true, true, s);
    }

    /** One round of `__rb_insert` with a red parent that is a left child. */
    method InsertBelowLeft(node: Ref, parent: Ref, gparent: Ref, ghost up: Path<Ref>, ghost gc: bool,
                           ghost u: Tree<Ref>,
                           ghost s: Tree<Ref>, ghost t: Tree<Ref>, ghost inner: bool)
      returns (done: bool, ghost t': Tree<Ref>)
      requires At(up, T(if inner then T(s, parent, true, t)
                        else T(t, parent, true, s), gparent, gc, u)) && IsRed(t) && node == t.n
      requires Inserting(if inner then InR(InL(up, gparent, gc, u), s, parent, true)
                         else InL(InL(up, gparent, gc, u), parent, true, s), t)
      modifies this
      ensures var f := FixInsert(if inner then InR(InL(up, gparent, gc, u), s, parent, true)
                                 else InL(InL(up, gparent, gc, u), parent, true, s), t);
              if done then At(Top, f)
              else At(up, t') && Inserting(up, t') && gparent == t'.n && f == FixInsert(up, t')
      ensures mem.Keys == old(mem).Keys
    {
      hide Zip; hide FixInsert; hide InsertUnder; hide Valid; hide PathOk; hide BlackHeight; hide Inserting; hide Fill;
      ghost var par := if inner then T(s, parent, true, t) else T(t, parent, true, s);
      if inner {
        InsertLeftInner(up, gparent, gc, u, parent, s, t);
      } else {
        InsertLeft(up, gparent, gc, u, parent, s, t);
      }
      ZipRoot(mem, root, up, T(par, gparent, gc, u));
      Refocus(mem, root, up, par, gparent, gc, u);
      ZipRoot(mem, root, InR(up, par, gparent, gc), u);
      var tmp := mem[gparent].right;
      if tmp != NULL && mem[tmp].red {
        FlipLeft(parent, gparent, tmp, up, par, gc, u);
        t' := T(par.(red := false), gparent, true, u.(red := false));
        done := false;
      } else {
        InsertTurnLeft(node, parent, gparent, up, gc, u, s, t, inner);
        t' := if inner then T(T(s, parent, true, t.l), node, gc, T(t.r, gparent, true, u))
              else T(t, parent, gc, T(s, gparent, true, u));
        FocusRoot(mem, root, up, t');
        done := true;
      }
    }

    /** One round of `__rb_insert` with a red parent that is a right child. */
    method InsertBelowRight(node: Ref, parent: Ref, gparent: Ref, ghost up: Path<Ref>, ghost u: Tree<Ref>,
                            ghost gc: bool,
                            ghost s: Tree<Ref>, ghost t: Tree<Ref>, ghost inner: bool)
      returns (done: bool, ghost t': Tree<Ref>)
      requires At(up, T(u, gparent, gc, if inner then T(t, parent, true, s)
                                        else T(s, parent, true, t))) && IsRed(t) && node == t.n
      requires Inserting(if inner then InL(InR(up, u, gparent, gc), parent, true, s)
                         else InR(InR(up, u, gparent, gc), s, parent, true), t)
      modifies this
      ensures var f := FixInsert(if inner then InL(InR(up, u, gparent, gc), parent, true, s)
                                 else InR(InR(up, u, gparent, gc), s, parent, true), t);
              if done then At(Top, f)
              else At(up, t') && Inserting(up, t') && gparent == t'.n && f == FixInsert(up, t')
      ensures mem.Keys == old(mem).Keys
    {
      hide Zip; hide FixInsert; hide InsertUnder; hide Valid; hide PathOk; hide BlackHeight; hide Inserting; hide Fill;
      ghost var par := if inner then T(t, parent, true, s) else T(s, parent, true, t);
      if inner {
        InsertRightInner(up, u, gparent, gc, s, parent, t);
      } else {
        InsertRight(up, u, gparent, gc, s, parent, t);
      }
      ZipRoot(mem, root, up, T(u, gparent, gc, par));
      Refocus(mem, root, up, u, gparent, gc, par);
      ZipRoot(mem, root, InL(up, gparent, gc, par), u);
      var tmp := mem[gparent].left;
      if tmp != NULL && mem[tmp].red {
        FlipRight(parent, gparent, tmp, up, u, gc, par);
        t' := T(u.(red := false), gparent, true, par.(red := false));
        done := false;
      } else {
        InsertTurnRight(node, parent, gparent, up, u, gc, s, t, inner);
        t' := if inner then T(T(u, gparent, true, t.l), node, gc, T(t.r, parent, true, s))
              else T(T(u, gparent, true, s), parent, gc, t);
        FocusRoot(mem, root, up, t');
        done := true;
      }
    }

    /** `__rb_insert`, started at the red node `node`: the linked nodes become `FixInsert`. */
    method InsertColor(node: Ref, ghost p: Path<Ref>, ghost t: Tree<Ref>)
      requires At(p, t) && Inserting(p, t) && node == t.n
      modifies this
      ensures At(Top, FixInsert(p, t)) && mem.Keys == old(mem).Keys
    {
      hide Zip; hide FixInsert; hide InsertUnder; hide PathOk; hide BlackHeight; hide Valid;
      var node := node;
      ghost var q, u := p, t;
      ZipRoot(mem, root, p, t);
      var parent := mem[node].parent;
      var done := false;
      while !done
        invariant mem.Keys == old(mem).Keys
        invariant if done then At(Top, FixInsert(p, t))
                  else
                    && At(q, u) && Inserting(q, u) && node == u.n && parent == Up(q)
                    && FixInsert(q, u) == FixInsert(p, t)
        decreases !done, q
      {
        ZipUp(mem, root, q, u);
        if parent == NULL {
          Paint(node, NULL, false, q, u);
          InsertAtTop(u);
          done := true;
        } else if !mem[parent].red {
          InsertBlack(q, u);
          FocusRoot(mem, root, q, u);
          done := true;
        } else {
          var gparent := mem[parent].parent;
          ghost var up := q.up;
          InsertHasGrandparent(q, u);
          ghost var par := Above(q, u);
          FocusUp(mem, root, q, u);
          ZipUp(mem, root, up, par);
          FocusUp(mem, root, up, par);
          var tmp := mem[gparent].right;
          if parent != tmp {
            done, u := InsertBelowLeft(node, parent, gparent, up.up, up.red, up.r, if q.InL? then q.r
                                                                                   else q.l, u, q.InR?);
          } else {
            done, u := InsertBelowRight(node, parent, gparent, up.up, up.l, up.red, if q.InL? then q.r
                                                                                    else q.l, u, q.InL?);
          }
          q := up.up;
          if !done {
            node := gparent;
            ZipRoot(mem, root, q, u);
            parent := mem[node].parent;
          }
        }
      }
    }

    /** Cases 2 to 4 of `____rb_erase_color` with a black sibling on the right. */
    method EraseStepLeft(parent: Ref, sibling: Ref, ghost up: Path<Ref>, ghost c: bool, ghost t: Tree<Ref>,
                         ghost s: Tree<Ref>)
      returns (more: bool)
      requires At(up, T(t, parent, c, s)) && s.T? && !s.red && Valid(s) && sibling == s.n
      modifies this
      ensures At(up, StepLeft(parent, c, t, s).0) && more == StepLeft(parent, c, t, s).1
      ensures mem.Keys == old(mem).Keys
    {
      hide Zip; hide Ready;
      Refocus(mem, root, up, t, parent, c, s);
      ghost var q := InR(up, t, parent, c);
      ZipRoot(mem, root, q, s);
      Refocus(mem, root, q, s.l, sibling, false, s.r);
      ZipRoot(mem, root, InL(q, sibling, false, s.r), s.l);
      ZipRoot(mem, root, InR(q, s.l, sibling, false), s.r);
      var tmp1 := mem[sibling].right;
      if tmp1 == NULL || !mem[tmp1].red {
        var tmp2 := mem[sibling].left;
        if tmp2 == NULL || !mem[tmp2].red {
          more := EraseFlipRight(parent, sibling, up, c, t, s);
        } else {
          more := false;
          EraseDoubleLeft(parent, sibling, tmp2, up, c, t, s);
        }
      } else {
        more := false;
        Paint(tmp1, sibling, false, InR(q, s.l, sibling, false), s.r);
        ghost var r' := s.r.(red := false);
        Refocus(mem, root, q, s.l, sibling, false, r');
        Refocus(mem, root, up, t, parent, c, T(s.l, sibling, false, r'));
        ReadyLeft(mem, root, up, t, parent, c, s.l, sibling, false, r');
        var tmp2 := mem[sibling].left;
        RotateLeft(parent, sibling, tmp2, false, false, up, t, s.l, r', sibling);
      }
    }

    /** The sibling on the right turns red; a red parent turns black and ends the search. */
    method EraseFlipRight(parent: Ref, sibling: Ref, ghost up: Path<Ref>, ghost c: bool, ghost t: Tree<Ref>,
                          ghost s: Tree<Ref>)
      returns (more: bool)
      requires At(up, T(t, parent, c, s)) && s.T? && sibling == s.n
      modifies this`mem
      ensures At(up, T(t, parent, false, s.(red := true))) && more == !c && mem.Keys == old(mem).Keys
    {
      hide Zip;
      Refocus(mem, root, up, t, parent, c, s);
      Paint(sibling, parent, true, InR(up, t, parent, c), s);
      ghost var s' := s.(red := true);
      Refocus(mem, root, up, t, parent, c, s');
      ZipRoot(mem, root, up, T(t, parent, c, s'));
      more := !mem[parent].red;
      if mem[parent].red { Paint(parent, mem[parent].parent, false, up, T(t, parent, c, s')); }
    }

    /** Right rotation at the sibling, then left rotation at the parent. */
    method EraseDoubleLeft(parent: Ref, sibling: Ref, near: Ref, ghost up: Path<Ref>, ghost c: bool, ghost t: Tree<Ref>,
                           ghost s: Tree<Ref>)
      requires At(up, T(t, parent, c, s)) && s.T? && !s.red && sibling == s.n && IsRed(s.l) && near == s.l.n
      requires !IsRed(s.l.r)
      modifies this
      ensures At(up, T(T(t, parent, false, s.l.l), near, c, T(s.l.r, sibling, false, s.r))) && mem.Keys == old(mem).Keys
    {
      ghost var h := mem;
      ghost var m := s.l;
      LiftRightFacts(h, root, up, t, parent, c, m, sibling, false, s.r);
      hide Zip; hide Nodes;
      var tmp1 := mem[near].right;
      LeanRight(sibling, near, tmp1, true);
      SetRight(parent, near);
      SetParentColor(sibling, near, false);
      FoldedRight(h, mem, root, up, t, parent, c, m.l, near, true, m.r, sibling, false, false, s.r);
      hide Ready;
      var tmp2 := mem[near].left;
      RotateLeft(parent, near, tmp2, false, false, up, t, m.l, T(m.r, sibling, false, s.r), near);
    }

    /** Cases 2 to 4 of `____rb_erase_color` with a black sibling on the left. */
    method EraseStepRight(parent: Ref, sibling: Ref, ghost up: Path<Ref>, ghost c: bool, ghost t: Tree<Ref>,
                          ghost s: Tree<Ref>)
      returns (more: bool)
      requires At(up, T(s, parent, c, t)) && s.T? && !s.red && Valid(s) && sibling == s.n
      modifies this
      ensures At(up, StepRight(parent, c, t, s).0) && more == StepRight(parent, c, t, s).1
      ensures mem.Keys == old(mem).Keys
    {
      hide Zip; hide Ready;
      Refocus(mem, root, up, s, parent, c, t);
      ghost var q := InL(up, parent, c, t);
      ZipRoot(mem, root, q, s);
      Refocus(mem, root, q, s.l, sibling, false, s.r);
      ZipRoot(mem, root, InL(q, sibling, false, s.r), s.l);
      ZipRoot(mem, root, InR(q, s.l, sibling, false), s.r);
      var tmp1 := mem[sibling].left;
      if tmp1 == NULL || !mem[tmp1].red {
        var tmp2 := mem[sibling].right;
        if tmp2 == NULL || !mem[tmp2].red {
          more := EraseFlipLeft(parent, sibling, up, c, t, s);
        } else {
          more := false;
          EraseDoubleRight(parent, sibling, tmp2, up, c, t, s);
        }
      } else {
        more := false;
        Paint(tmp1, sibling, false, InL(q, sibling, false, s.r), s.l);
        ghost var l' := s.l.(red := false);
        Refocus(mem, root, q, l', sibling, false, s.r);
        Refocus(mem, root, up, T(l', sibling, false, s.r), parent, c, t);
        ReadyRight(mem, root, up, l', sibling, false, s.r, parent, c, t);
        var tmp2 := mem[sibling].right;
        RotateRight(parent, sibling, tmp2, false, false, up, l', s.r, t, sibling);
      }
    }

    /** The sibling on the left turns red; a red parent turns black and ends the search. */
    method EraseFlipLeft(parent: Ref, sibling: Ref, ghost up: Path<Ref>, ghost c: bool, ghost t: Tree<Ref>,
                         ghost s: Tree<Ref>)
      returns (more: bool)
      requires At(up, T(s, parent, c, t)) && s.T? && sibling == s.n
      modifies this`mem
      ensures At(up, T(s.(red := true), parent, false, t)) && more == !c && mem.Keys == old(mem).Keys
    {
      hide Zip;
      Refocus(mem, root, up, s, parent, c, t);
      Paint(sibling, parent, true, InL(up, parent, c, t), s);
      ghost var s' := s.(red := true);
      Refocus(mem, root, up, s', parent, c, t);
      ZipRoot(mem, root, up, T(s', parent, c, t));
      more := !mem[parent].red;
      if mem[parent].red { Paint(parent, mem[parent].parent, false, up, T(s', parent, c, t)); }
    }

    /** Left rotation at the sibling, then right rotation at the parent. */
    method EraseDoubleRight(parent: Ref, sibling: Ref, near: Ref, ghost up: Path<Ref>, ghost c: bool,
                            ghost t: Tree<Ref>, ghost s: Tree<Ref>)
      requires At(up, T(s, parent, c, t)) && s.T? && !s.red && sibling == s.n && IsRed(s.r) && near == s.r.n
      requires !IsRed(s.r.l)
      modifies this
      ensures At(up, T(T(s.l, sibling, false, s.r.l), near, c, T(s.r.r, parent, false, t))) && mem.Keys == old(mem).Keys
    {
      ghost var h := mem;
      ghost var m := s.r;
      LiftLeftFacts(h, root, up, s.l, sibling, false, m, parent, c, t);
      hide Zip; hide Nodes;
      var tmp1 := mem[near].left;
      LeanLeft(sibling, near, tmp1, true);
      SetLeft(parent, near);
      SetParentColor(sibling, near, false);
      FoldedLeft(h, mem, root, up, s.l, sibling, false, false, m.l, near, true, m.r, parent, c, t);
      hide Ready;
      var tmp2 := mem[near].right;
      RotateRight(parent, near, tmp2, false, false, up, T(s.l, sibling, false, m.l), m.r, t, near);
    }

    /** One level of `____rb_erase_color`, the short side on the left. */
    method EraseLevelLeft(parent: Ref, ghost up: Path<Ref>, ghost c: bool, ghost s: Tree<Ref>, ghost t: Tree<Ref>)
      returns (more: bool, ghost t': Tree<Ref>)
      requires At(InL(up, parent, c, s), t) && Deficit(InL(up, parent, c, s), t)
      modifies this
      ensures var f := FixErase(InL(up, parent, c, s), t);
              if more then At(up, t') && Deficit(up, t') && t'.T? && t'.n == parent && f == FixErase(up, t')
              else At(Top, f)
      ensures mem.Keys == old(mem).Keys
    {
      DeficitLeft(up, parent, c, s, t);
      StepLeftRoot(parent, c, t, s);
      hide Zip; hide Deficit; hide FixErase; hide StepLeft; hide Valid; hide Fill;
      Refocus(mem, root, up, t, parent, c, s);
      ZipRoot(mem, root, up, T(t, parent, c, s));
      var sibling := mem[parent].right;
      ZipRoot(mem, root, InR(up, t, parent, c), s);
      if mem[sibling].red {
        var tmp1 := mem[sibling].left;
        ReadyLeft(mem, root, up, t, parent, c, s.l, sibling, true, s.r);
        RotateLeft(parent, sibling, tmp1, true, true, up, t, s.l, s.r, sibling);
        ghost var q := InL(up, sibling, c, s.r);
        Refocus(mem, root, up, T(t, parent, true, s.l), sibling, c, s.r);
        more := EraseStepLeft(parent, tmp1, q, true, t, s.l);
        t' := StepLeft(parent, true, t, s.l).0;
        FocusRoot(mem, root, q, t');
      } else {
        more := EraseStepLeft(parent, sibling, up, c, t, s);
        t' := StepLeft(parent, c, t, s).0;
        FocusRoot(mem, root, up, t');
      }
    }

    /** One level of `____rb_erase_color`, the short side on the right. */
    method EraseLevelRight(parent: Ref, ghost up: Path<Ref>, ghost c: bool, ghost s: Tree<Ref>, ghost t: Tree<Ref>)
      returns (more: bool, ghost t': Tree<Ref>)
      requires At(InR(up, s, parent, c), t) && Deficit(InR(up, s, parent, c), t)
      modifies this
      ensures var f := FixErase(InR(up, s, parent, c), t);
              if more then At(up, t') && Deficit(up, t') && t'.T? && t'.n == parent && f == FixErase(up, t')
              else At(Top, f)
      ensures mem.Keys == old(mem).Keys
    {
      DeficitRight(up, s, parent, c, t);
      StepRightRoot(parent, c, t, s);
      hide Zip; hide Deficit; hide FixErase; hide StepRight; hide Valid; hide Fill;
      Refocus(mem, root, up, s, parent, c, t);
      ZipRoot(mem, root, up, T(s, parent, c, t));
      var sibling := mem[parent].left;
      ZipRoot(mem, root, InL(up, parent, c, t), s);
      if mem[sibling].red {
        var tmp1 := mem[sibling].right;
        ReadyRight(mem, root, up, s.l, sibling, true, s.r, parent, c, t);
        RotateRight(parent, sibling, tmp1, true, true, up, s.l, s.r, t, sibling);
        ghost var q := InR(up, s.l, sibling, c);
        Refocus(mem, root, up, s.l, sibling, c, T(s.r, parent, true, t));
        more := EraseStepRight(parent, tmp1, q, true, t, s.r);
        t' := StepRight(parent, true, t, s.r).0;
        FocusRoot(mem, root, q, t');
      } else {
        more := EraseStepRight(parent, sibling, up, c, t, s);
        t' := StepRight(parent, c, t, s).0;
        FocusRoot(mem, root, up, t');
      }
    }

    /** `____rb_erase_color`: below `parent` the paths through the empty hole of `p` lack one black
        node; the linked nodes become `FixErase`. */
    method EraseColor(parent: Ref, ghost p: Path<Ref>)
      requires At(p, Nil) && Deficit(p, Nil) && !p.Top? && parent == Up(p)
      modifies this
      ensures At(Top, FixErase(p, Nil)) && mem.Keys == old(mem).Keys
    {
      hide Zip; hide Deficit; hide FixErase;
      var node, parent := NULL, parent;
      ghost var q, u: Tree<Ref> := p, Nil;
      var more := true;
      while more
        invariant mem.Keys == old(mem).Keys
        invariant if more then At(q, u) && Deficit(q, u) && !q.Top? && parent == Up(q) && node ==
                  Root(u) && FixErase(q, u) == FixErase(p, Nil)
                  else At(Top, FixErase(p, Nil))
        decreases more, q
      {
        ZipUp(mem, root, q, u);
        if q.InL? { DeficitLeft(q.up, q.n, q.red, q.r, u); } else { DeficitRight(q.up, q.l, q.n, q.red, u); }
        var sibling := mem[parent].right;
        if node != sibling {
          more, u := EraseLevelLeft(parent, q.up, q.red, q.r, u);
        } else {
          more, u := EraseLevelRight(parent, q.up, q.red, q.l, u);
        }
        q := q.up;
        if more {
          node := parent;
          ZipRoot(mem, root, q, u);
          parent := mem[node].parent;
          if parent == NULL {
            more := false;
            ZipUp(mem, root, q, u);
            FixEraseTop(u);
          }
        }
      }
    }

    // ----- unlinking, as in `__rb_erase_augmented` -----

    /** The node has no left child. */
    method UnlinkRight(node: Ref, child: Ref, ghost p: Path<Ref>, ghost c: bool, ghost r: Tree<Ref>)
      returns (rebalance: Ref)
      requires At(p, T(Nil, node, c, r)) && child == Root(r)
      modifies this
      ensures At(p, if r.T? then r.(red := c) else Nil) && mem.Keys == old(mem).Keys
      ensures rebalance == if r.Nil? && !c then Up(p) else NULL
    {
      ghost var h := mem;
      ZipRoot(h, root, p, T(Nil, node, c, r));
      ShapeRoot(h, r, node);
      ApartParts(p, Nil, node, c, r);
      hide Sep; hide Nodes; hide Shape; hide SepPath; hide PathNodes; hide Around;
      var pc := mem[node];
      var parent := pc.parent;
      ChangeChild(node, child, parent, p);
      ghost var h1 := mem;
      SwappedSame(h, p, child);
      if child != NULL {
        SetParentColor(child, parent, pc.red);
        rebalance := NULL;
      } else {
        rebalance := if !pc.red then parent else NULL;
      }
      KeepAround(h1, mem, root, p, child);
      Moved(h, mem, root, p, r, node, if r.T? then r.(red := c) else Nil);
    }

    /** The node has a left child only. */
    method UnlinkLeft(node: Ref, child: Ref, ghost p: Path<Ref>, ghost c: bool, ghost l: Tree<Ref>)
      requires At(p, T(l, node, c, Nil)) && l.T? && child == l.n
      modifies this
      ensures At(p, l.(red := c)) && mem.Keys == old(mem).Keys
    {
      ghost var h := mem;
      ZipRoot(h, root, p, T(l, node, c, Nil));
      ShapeRoot(h, l, node);
      ApartParts(p, l, node, c, Nil);
      hide Sep; hide Nodes; hide Shape; hide SepPath; hide PathNodes; hide Around;
      var pc := mem[node];
      var parent := pc.parent;
      SetParentColor(child, parent, pc.red);
      ghost var h1 := mem;
      KeepAround(h, mem, root, p, node);
      ChangeChild(node, child, parent, p);
      SwappedSame(h1, p, child);
      Moved(h, mem, root, p, l, node, l.(red := c));
    }

    /** The leftmost node below `child`, and the node above it. */
    method Leftmost(child: Ref, ghost p: Path<Ref>, ghost t: Tree<Ref>) returns (parent: Ref, successor: Ref)
      requires At(p, t) && t.T? && child == t.n
      ensures successor == First(t).n && parent == Up(FirstPath(p, t)) && At(FirstPath(p, t), First(t))
    {
      hide Zip;
      ghost var q, u := p, t;
      ZipRoot(mem, root, p, t);
      parent, successor := mem[child].parent, child;
      var tmp := mem[child].left;
      while tmp != NULL
        invariant At(q, u) && u.T? && successor == u.n && parent == Up(q) && tmp == Root(u.l)
        invariant FirstPath(q, u) == FirstPath(p, t) && First(u) == First(t)
        decreases u
      {
        Refocus(mem, root, q, u.l, u.n, u.red, u.r);
        parent := successor;
        successor := tmp;
        q, u := InL(q, u.n, u.red, u.r), u.l;
        ZipRoot(mem, root, q, u);
        tmp := mem[tmp].left;
      }
      ZipRoot(mem, root, q, u);
      if u.l.T? { Refocus(mem, root, q, u.l, u.n, u.red, u.r); ZipRoot(mem, root, InL(q, u.n, u.red, u.r), u.l); }
    }

    /** The successor takes the node's left subtree and place. */
    method TakePlace(node: Ref, successor: Ref, ghost p: Path<Ref>)
      requires node in mem && node != NULL && Around(mem, root, p, node) && SepPath(p) && mem[node].parent == Up(p)
      requires successor in mem && mem[node].left in mem && {node, successor, mem[node].left} !! PathNodes(p)
      requires node != successor && node != mem[node].left && successor != mem[node].left
      modifies this
      ensures mem.Keys == old(mem).Keys && Around(mem, root, p, successor)
      ensures mem[successor] == old(mem[successor].(left := mem[node].left))
      ensures mem[old(mem[node].left)] == old(mem[mem[node].left].(parent := successor))
      ensures Same(old(mem), mem, old(mem).Keys - {successor, old(mem[node].left)} - PathNodes(p))
    {
      hide SepPath; hide PathNodes; hide Around;
      ghost var h := mem;
      var tmp := mem[node].left;
      SetLeft(successor, tmp);
      SetParent(tmp, successor);
      tmp := mem[node].parent;
      ghost var h1 := mem;
      KeepAround(h, h1, root, p, node);
      ChangeChild(node, successor, tmp, p);
      SwappedSame(h1, p, successor);
    }

    /** The successor also takes the node's colour; its own right child, if any, is black below
        `parent`. */
    method PutInPlace(node: Ref, successor: Ref, child2: Ref, parent: Ref, ghost p: Path<Ref>) returns (rebalance: Ref)
      requires node in mem && node != NULL && Around(mem, root, p, node) && SepPath(p) && mem[node].parent == Up(p)
      requires successor in mem && mem[node].left in mem && {node, successor, mem[node].left} !! PathNodes(p)
      requires node != successor && node != mem[node].left && successor != mem[node].left
      requires child2 != NULL ==>
                 child2 in mem && child2 !in {node, successor, mem[node].left} && child2 !in PathNodes(p)
      modifies this
      ensures mem.Keys == old(mem).Keys && Around(mem, root, p, successor)
      ensures mem[successor] == old(Cell(mem[node].left, mem[successor].right, mem[node].parent, mem[node].red))
      ensures mem[old(mem[node].left)] == old(mem[mem[node].left].(parent := successor))
      ensures child2 != NULL ==> mem[child2] == old(mem[child2].(parent := parent, red := false))
      ensures Same(old(mem), mem, old(mem).Keys - {successor, old(mem[node].left)} - (if child2 != NULL then {child2}
                                                                                      else {}) - PathNodes(p))
      ensures rebalance == if child2 == NULL && !old(mem[successor].red) then parent else NULL
    {
      hide SepPath; hide PathNodes; hide Around;
      var pc := mem[node];
      TakePlace(node, successor, p);
      ghost var h := mem;
      if child2 != NULL {
        SetParentColor(successor, pc.parent, pc.red);
        SetParentColor(child2, parent, false);
        rebalance := NULL;
      } else {
        var pc2 := mem[successor];
        SetParentColor(successor, pc.parent, pc.red);
        rebalance := if !pc2.red then parent else NULL;
      }
      KeepAround(h, mem, root, p, successor);
    }

    /** The successor is the right child of the node. */
    method UnlinkNear(node: Ref, child: Ref, ghost p: Path<Ref>, ghost l: Tree<Ref>, ghost c: bool, ghost s: Tree<Ref>)
      returns (rebalance: Ref)
      requires At(p, T(l, node, c, s)) && l.T? && s.T? && s.l.Nil? && child == s.n
      modifies this
      ensures At(InR(p, l, child, c), Blacken(s.r)) && mem.Keys == old(mem).Keys
      ensures rebalance == if s.r.Nil? && !s.red then child else NULL
    {
      ghost var h := mem;
      NearFacts(h, root, p, l, node, c, s);
      hide Zip; hide Sep; hide Nodes; hide Shape; hide SepPath; hide PathNodes; hide Around; hide Apart;
      var child2 := mem[child].right;
      rebalance := PutInPlace(node, child, child2, child, p);
      Replaced(h, mem, root, p, l, node, child, c, s.r, child, Blacken(s.r));
      Refocus(mem, root, p, l, child, c, Blacken(s.r));
    }

    /** The successor, below `parent`, leaves its place to its right child and takes the node's. */
    method MoveSuccessor(node: Ref, child: Ref, parent: Ref, successor: Ref, ghost p: Path<Ref>, ghost l: Tree<Ref>,
                         ghost c: bool,
                         ghost r: Tree<Ref>, ghost r': Tree<Ref>, ghost s: Tree<Ref>)
      returns (rebalance: Ref, ghost between: Store)
      requires Deep(p, l, node, r, r', s, parent) && Around(mem, root, p, node) && node != NULL && child == r.n
      requires successor == s.n
      requires node in mem && mem[node] == Cell(l.n, child, Up(p), c) && l.n in mem && child in mem && parent in mem
      requires successor in mem && successor != NULL && mem[successor].right == Root(s.r) && mem[successor].red == s.red
      requires s.r.T? ==> s.r.n in mem && s.r.n != NULL
      modifies this
      ensures Moving(old(mem), between, mem, p, l, c, r, s, parent) && Around(mem, root, p, successor)
      ensures rebalance == if s.r.Nil? && !s.red then parent else NULL
    {
      hide Nodes; hide SepPath; hide PathNodes; hide Around;
      ghost var h := mem;
      var child2 := mem[successor].right;
      SetLeft(parent, child2);
      SetRight(successor, child);
      SetParent(child, successor);
      KeepAround(h, mem, root, p, node);
      between := mem;
      rebalance := PutInPlace(node, successor, child2, parent, p);
    }

    /** The successor is further down on the left of the right child. */
    method UnlinkDeep(node: Ref, child: Ref, ghost p: Path<Ref>, ghost l: Tree<Ref>, ghost c: bool, ghost r: Tree<Ref>)
      returns (rebalance: Ref)
      requires At(p, T(l, node, c, r)) && l.T? && r.T? && r.l.T? && child == r.n
      modifies this
      ensures At(FirstPath(InR(p, l, First(r).n, c), r), Blacken(First(r).r)) && mem.Keys == old(mem).Keys
      ensures rebalance == if First(r).r.Nil? && !First(r).red then Up(FirstPath(InR(p, l, First(r).n, c), r)) else NULL
    {
      ghost var h, top, s, base := mem, root, First(r), InR(p, l, node, c);
      ghost var r' := FillFirst(r, Blacken(s.r));
      assert Apart(p, T(l, node, c, r)) && Sep(r) by { ApartParts(p, l, node, c, r); }
      hide Zip; hide Sep; hide Nodes; hide Shape; hide SepPath; hide PathNodes; hide Around; hide Apart;
      hide FirstPath; hide FillFirst; hide Cut; hide Deep;
      DeepShape(h, root, p, l, node, c, r);
      DeepApart(p, l, node, c, r);
      FirstPathDeep(base, InR(p, l, s.n, c), r);
      Refocus(mem, root, p, l, node, c, r);
      var parent, successor := Leftmost(child, base, r);
      ghost var between;
      rebalance, between := MoveSuccessor(node, child, parent, successor, p, l, c, r, r', s);
      DeepReplaced(h, between, mem, top, root, p, l, node, c, r, r', s, parent);
      FocusFirst(mem, root, InR(p, l, s.n, c), r, Blacken(s.r));
      Refocus(mem, root, p, l, s.n, c, r');
    }

    /** The node has two children: its successor takes its place. */
    method UnlinkTwo(node: Ref, child: Ref, ghost p: Path<Ref>, ghost t: Tree<Ref>) returns (rebalance: Ref,
                     ghost q: Path<Ref>)
      requires At(p, t) && t.T? && node == t.n && t.l.T? && t.r.T? && child == t.r.n && RedBlack(Fill(p, t))
      modifies this
      ensures mem.Keys == old(mem).Keys
      ensures if rebalance == NULL then At(Top, Erase(p, t))
              else At(q, Nil) && Deficit(q, Nil) && !q.Top? && rebalance == Up(q) && Erase(p, t) == FixErase(q, Nil)
    {
      UnlinkFacts(p, t);
      hide Zip; hide FixErase; hide RedBlack; hide Deficit; hide FirstPath; hide Fill; hide First;
      Refocus(mem, root, p, t.l, node, t.red, t.r);
      ghost var base := InR(p, t.l, node, t.red);
      ZipRoot(mem, root, base, t.r);
      var tmp := mem[child].left;
      ghost var s := First(t.r);
      q := FirstPath(InR(p, t.l, s.n, t.red), t.r);
      Refocus(mem, root, base, t.r.l, child, t.r.red, t.r.r);
      ZipRoot(mem, root, InL(base, child, t.r.red, t.r.r), t.r.l);
      if tmp == NULL {
        FirstNear(InR(p, t.l, s.n, t.red), t.r);
        rebalance := UnlinkNear(node, child, p, t.l, t.red, t.r);
      } else {
        rebalance := UnlinkDeep(node, child, p, t.l, t.red, t.r);
      }
      ZipUp(mem, root, q, Blacken(s.r));
      if rebalance == NULL { FocusRoot(mem, root, q, Blacken(s.r)); }
    }

    /** `__rb_erase_augmented`: unlink the node; `rebalance` is the node below which a black node is
        missing, if any. */
    method Unlink(node: Ref, ghost p: Path<Ref>, ghost t: Tree<Ref>) returns (rebalance: Ref, ghost q: Path<Ref>)
      requires At(p, t) && t.T? && node == t.n && RedBlack(Fill(p, t))
      modifies this
      ensures mem.Keys == old(mem).Keys
      ensures if rebalance == NULL then At(Top, Erase(p, t))
              else At(q, Nil) && Deficit(q, Nil) && !q.Top? && rebalance == Up(q) && Erase(p, t) == FixErase(q, Nil)
    {
      UnlinkFacts(p, t);
      hide Zip; hide FixErase; hide RedBlack; hide Deficit; hide FirstPath; hide Fill; hide First;
      ZipRoot(mem, root, p, t);
      var child := mem[node].right;
      var tmp := mem[node].left;
      q := p;
      Refocus(mem, root, p, t.l, node, t.red, t.r);
      ZipRoot(mem, root, InL(p, node, t.red, t.r), t.l);
      ZipRoot(mem, root, InR(p, t.l, node, t.red), t.r);
      if tmp == NULL {
        rebalance := UnlinkRight(node, child, p, t.red, t.r);
        FixEraseTop(Nil);
        ZipUp(mem, root, p, if t.r.T? then t.r.(red := t.red) else Nil);
        if rebalance == NULL { FocusRoot(mem, root, p, if t.r.T? then t.r.(red := t.red) else Nil); }
      } else if child == NULL {
        UnlinkLeft(node, tmp, p, t.red, t.l);
        rebalance := NULL;
        FocusRoot(mem, root, p, t.l.(red := t.red));
      } else {
        rebalance, q := UnlinkTwo(node, child, p, t);
      }
    }

    /** `rb_erase`: the linked nodes become `Erase`. */
    method EraseNode(node: Ref, ghost p: Path<Ref>, ghost t: Tree<Ref>)
      requires At(p, t) && t.T? && node == t.n && RedBlack(Fill(p, t))
      modifies this
      ensures At(Top, Erase(p, t)) && mem.Keys == old(mem).Keys
    {
      hide Zip; hide RbSpec.Erase; hide FixErase;
      var rebalance, q := Unlink(node, p, t);
      if rebalance != NULL {
        EraseColor(rebalance, q);
      }
    }

    /** `rb_next`: the node that follows in order, or NULL. */
    method Next(node: Ref, ghost p: Path<Ref>, ghost t: Tree<Ref>) returns (next: Ref)
      requires At(p, t) && t.T? && node == t.n
      ensures var rest := InOrder(t.r) + Behind(p);
              next == if rest == [] then NULL else rest[0]
      ensures next != NULL ==> next in mem
    {
      hide Zip; hide InOrder;
      ZipRoot(mem, root, p, t);
      Refocus(mem, root, p, t.l, node, t.red, t.r);
      ZipRoot(mem, root, InR(p, t.l, node, t.red), t.r);
      if mem[node].right != NULL {
        var _, successor := Leftmost(mem[node].right, InR(p, t.l, node, t.red), t.r);
        FirstPathOrder(Top, t.r, First(t.r).r);
        ZipRoot(mem, root, FirstPath(InR(p, t.l, node, t.red), t.r), First(t.r));
        return successor;
      }
      NilInOrder<Ref>();
      var node := node;
      ghost var q, u := p, t;
      var parent := mem[node].parent;
      ZipUp(mem, root, q, u);
      while parent != NULL && node == mem[parent].right
        invariant At(q, u) && u.T? && node == u.n && parent == Up(q) && (parent != NULL ==> parent in mem)
        invariant Behind(q) == Behind(p)
        decreases q
      {
        ZipUp(mem, root, q, u);
        FocusUp(mem, root, q, u);
        node := parent;
        q, u := q.up, Above(q, u);
        ZipRoot(mem, root, q, u);
        ZipUp(mem, root, q, u);
        parent := mem[node].parent;
      }
      ZipUp(mem, root, q, u);
      return parent;
    }

    /** `rb_link_node`: a red leaf in an empty place. */
    method LinkNode(node: Ref, parent: Ref, left: bool, ghost p: Path<Ref>)
      requires At(p, Nil) && node != NULL && node !in PathNodes(p) && parent == Up(p)
      requires (parent != NULL ==> left == p.InL?)
      modifies this
      ensures At(p, T(Nil, node, true, Nil)) && mem.Keys == old(mem).Keys + {node}
    {
      ZipUp(mem, root, p, Nil);
      UpIn(p);
      assert SepPath(p) && Around(mem, root, p, NULL);
      hide Around; hide SepPath; hide PathNodes; hide Zip;
      ghost var h := mem;
      mem := mem[node := Cell(NULL, NULL, parent, true)];
      KeepAround(h, mem, root, p, NULL);
      ghost var h1, top := mem, root;
      SwappedAround(h1, top, p, NULL, node);
      if parent == NULL { root := node; }
      else if left { SetLeft(parent, node); }
      else { SetRight(parent, node); }
      assert mem == Swapped(h1, p, node) && root == if p.Top? then node else top;
      assert mem[node] == Cell(NULL, NULL, parent, true);
      LeafZip(mem, root, p, node);
    }
  }
}
