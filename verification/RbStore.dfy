/** Red-black trees as linked nodes: a store of cells with child and parent pointers, and what it
    means for them to be linked as a tree value. */
module RbStore {
  import opened RbSpec

  type Ref = nat
  const NULL: Ref := 0

  datatype Cell = Cell(left: Ref, right: Ref, parent: Ref, red: bool)
  type Store = map<Ref, Cell>

  // ----- linked nodes as tree values -----

  function Root(t: Tree<Ref>): Ref { if t.T? then t.n else NULL }

  function Nodes(t: Tree<Ref>): set<Ref> {
    match t case Nil => {} case T(l, n, _, r) => Nodes(l) + {n} + Nodes(r)
  }

  /** No node occurs twice. */
  predicate Sep(t: Tree<Ref>) {
    match t
    case Nil => true
    case T(l, n, _, r) => Sep(l) && Sep(r) && n !in Nodes(l) && n !in Nodes(r) && Nodes(l) !! Nodes(r)
  }

  /** The nodes below `parent` are linked as `t`, with consistent parent pointers. */
  predicate Shape(h: Store, t: Tree<Ref>, parent: Ref) {
    match t
    case Nil => true
    case T(l, n, c, r) =>
      n != NULL && n in h && h[n] == Cell(Root(l), Root(r), parent, c) && Shape(h, l, n) && Shape(h, r, n)
  }

  function Up(p: Path<Ref>): Ref { if p.Top? then NULL else p.n }

  function PathNodes(p: Path<Ref>): set<Ref> {
    match p
    case Top => {}
    case InL(up, n, _, r) => PathNodes(up) + {n} + Nodes(r)
    case InR(up, l, n, _) => PathNodes(up) + {n} + Nodes(l)
  }

  predicate SepPath(p: Path<Ref>) {
    match p
    case Top => true
    case InL(up, n, _, r) => SepPath(up) && Sep(r) && n !in Nodes(r) && n !in PathNodes(up) && Nodes(r) !! PathNodes(up)
    case InR(up, l, n, _) => SepPath(up) && Sep(l) && n !in Nodes(l) && n !in PathNodes(up) && Nodes(l) !! PathNodes(up)
  }

  /** The nodes around a subtree whose root is `hole` are linked as `p`, up to the root. */
  predicate Around(h: Store, root: Ref, p: Path<Ref>, hole: Ref) {
    match p
    case Top => root == hole
    case InL(up, n, c, r) =>
      n != NULL && n in h && h[n] == Cell(hole, Root(r), Up(up), c) && Shape(h, r, n) && Around(h, root, up, n)
    case InR(up, l, n, c) =>
      n != NULL && n in h && h[n] == Cell(Root(l), hole, Up(up), c) && Shape(h, l, n) && Around(h, root, up, n)
  }

  /** The whole tree, seen from the subtree `t`. */
  predicate Zip(h: Store, root: Ref, p: Path<Ref>, t: Tree<Ref>) {
    Shape(h, t, Up(p)) && Around(h, root, p, Root(t)) && Sep(t) && SepPath(p) && Nodes(t) !! PathNodes(p)
  }

  /** Moving the focus up or down one node changes nothing. */
  lemma Refocus(h: Store, root: Ref, up: Path<Ref>, l: Tree<Ref>, n: Ref, c: bool, r: Tree<Ref>)
    ensures Zip(h, root, up, T(l, n, c, r)) <==> Zip(h, root, InL(up, n, c, r), l)
    ensures Zip(h, root, up, T(l, n, c, r)) <==> Zip(h, root, InR(up, l, n, c), r)
  {}

  lemma {:induction false} FocusRoot(h: Store, root: Ref, p: Path<Ref>, t: Tree<Ref>)
    ensures Zip(h, root, p, t) <==> Zip(h, root, Top, Fill(p, t))
  {
    hide Zip;
    match p
    case Top =>
    case InL(up, n, c, r) => Refocus(h, root, up, t, n, c, r); FocusRoot(h, root, up, T(t, n, c, r));
    case InR(up, l, n, c) => Refocus(h, root, up, l, n, c, t); FocusRoot(h, root, up, T(l, n, c, t));
  }

  // ----- frames -----

  predicate Same(h: Store, h': Store, s: set<Ref>) { forall n :: n in s && n in h ==> n in h' && h'[n] == h[n] }

  lemma {:induction false} KeepShape(h: Store, h': Store, t: Tree<Ref>, parent: Ref)
    requires Shape(h, t, parent) && Same(h, h', Nodes(t))
    ensures Shape(h', t, parent)
  {
    if t.T? {
      KeepShape(h, h', t.l, t.n);
      KeepShape(h, h', t.r, t.n);
    }
  }

  lemma {:induction false} KeepAround(h: Store, h': Store, root: Ref, p: Path<Ref>, hole: Ref)
    requires Around(h, root, p, hole) && Same(h, h', PathNodes(p))
    ensures Around(h', root, p, hole)
  {
    match p
    case Top =>
    case InL(up, n, c, r) => KeepShape(h, h', r, n); KeepAround(h, h', root, up, n);
    case InR(up, l, n, c) => KeepShape(h, h', l, n); KeepAround(h, h', root, up, n);
  }

  /** A subtree whose root got a new parent, and possibly a new colour. */
  lemma Reparented(h: Store, h': Store, t: Tree<Ref>, was: Ref, parent: Ref, t': Tree<Ref>)
    requires Shape(h, t, was) && Sep(t) && Same(h, h', Nodes(t) - {Root(t)})
    requires if t.Nil? then t'.Nil?
             else t'.T? && t' == t.(red := t'.red) && t.n in h' && h'[t.n] == h[t.n].(parent := parent, red := t'.red)
    ensures Shape(h', t', parent)
  {
    if t.T? {
      KeepShape(h, h', t.l, t.n);
      KeepShape(h, h', t.r, t.n);
    }
  }

  /** `__rb_change_child` on values: what the node above the hole looks like with another child. */
  function Swapped(h: Store, p: Path<Ref>, hole: Ref): Store
    requires !p.Top? ==> p.n in h
  {
    match p
    case Top => h
    case InL(_, n, _, _) => h[n := h[n].(left := hole)]
    case InR(_, _, n, _) => h[n := h[n].(right := hole)]
  }

  lemma SwappedAround(h: Store, root: Ref, p: Path<Ref>, hole: Ref, new_: Ref)
    requires Around(h, root, p, hole) && SepPath(p)
    ensures !p.Top? ==> p.n in h
    ensures Around(Swapped(h, p, new_), if p.Top? then new_ else root, p, new_)
  {
    match p
    case Top =>
    case InL(up, n, c, r) =>
      KeepShape(h, Swapped(h, p, new_), r, n);
      KeepAround(h, Swapped(h, p, new_), root, up, n);
    case InR(up, l, n, c) =>
      KeepShape(h, Swapped(h, p, new_), l, n);
      KeepAround(h, Swapped(h, p, new_), root, up, n);
  }

  // ----- one node at a time -----

  lemma RootIn(t: Tree<Ref>)
    ensures t.T? ==> Root(t) in Nodes(t)
  {}

  /** The subtree and the path share no node and no node occurs twice. */
  predicate Apart(p: Path<Ref>, t: Tree<Ref>) { Sep(t) && SepPath(p) && Nodes(t) !! PathNodes(p) }

  lemma ShapeNode(h: Store, l: Tree<Ref>, n: Ref, c: bool, r: Tree<Ref>, parent: Ref)
    ensures Shape(h, T(l, n, c, r), parent) <==>
            n != NULL && n in h && h[n] == Cell(Root(l), Root(r), parent, c) && Shape(h, l, n) && Shape(h, r, n)
  {}

  lemma ShapeRoot(h: Store, t: Tree<Ref>, parent: Ref)
    requires Shape(h, t, parent)
    ensures t.T? ==> t.n != NULL && t.n in h && h[t.n] == Cell(Root(t.l), Root(t.r), parent, t.red)
  {}

  lemma RecolouredApart(t: Tree<Ref>, t': Tree<Ref>)
    requires Recoloured(t, t')
    ensures Nodes(t') == Nodes(t) && Root(t') == Root(t) && (Sep(t') <==> Sep(t))
  {}

  lemma SepNode(l: Tree<Ref>, n: Ref, c: bool, r: Tree<Ref>)
    ensures Sep(T(l, n, c, r)) <==> Sep(l) && Sep(r) && n !in Nodes(l) && n !in Nodes(r) && Nodes(l) !! Nodes(r)
    ensures Nodes(T(l, n, c, r)) == Nodes(l) + {n} + Nodes(r)
  {}

  /** Rotating keeps the nodes apart. */
  lemma ApartRotated(p: Path<Ref>, a: Tree<Ref>, x: Ref, b: Tree<Ref>, y: Ref, c: Tree<Ref>, c1: bool, c2: bool,
                     c3: bool, c4: bool)
    ensures Apart(p, T(a, x, c1, T(b, y, c2, c))) <==> Apart(p, T(T(a, x, c3, b), y, c4, c))
    ensures Apart(p, T(a, x, c1, T(b, y, c2, c))) ==> Distinct(p, a, x, b, y, c)
  {
    hide Sep; hide Nodes;
    RootIn(b);
    SepNode(b, y, c2, c);
    SepNode(a, x, c1, T(b, y, c2, c));
    SepNode(a, x, c3, b);
    SepNode(T(a, x, c3, b), y, c4, c);
  }

  predicate Distinct(p: Path<Ref>, a: Tree<Ref>, x: Ref, b: Tree<Ref>, y: Ref, c: Tree<Ref>) {
    && x != y && x !in PathNodes(p) && y !in PathNodes(p)
    && x !in Nodes(a) + Nodes(b) + Nodes(c) && y !in Nodes(a) + Nodes(b) + Nodes(c)
    && (Nodes(a) + Nodes(b) + Nodes(c)) !! PathNodes(p)
    && Nodes(a) !! Nodes(b) && Nodes(a) !! Nodes(c) && Nodes(b) !! Nodes(c)
    && (b.T? ==> Root(b) in Nodes(b)) && Sep(a) && Sep(b) && Sep(c) && SepPath(p)
  }

  lemma SameOutside(h: Store, h1: Store, h2: Store, p: Path<Ref>, a: Tree<Ref>, x: Ref, b: Tree<Ref>, y: Ref,
                    c: Tree<Ref>)
    requires Distinct(p, a, x, b, y, c) && h1.Keys == h.Keys
    requires Same(h, h1, h.Keys - {x, y} - (if Root(b) != NULL then {Root(b)} else {}))
    requires Same(h1, h2, h.Keys - {x, y} - PathNodes(p))
    ensures b.T? ==> b.n !in PathNodes(p)
    ensures Same(h, h2, Nodes(a) + (Nodes(b) - {Root(b)}) + Nodes(c))
  {
    hide Nodes; hide PathNodes; hide Sep; hide SepPath;
  }

  /** What the node in focus and the node above it hold. */
  lemma ZipRoot(h: Store, root: Ref, p: Path<Ref>, t: Tree<Ref>)
    requires Zip(h, root, p, t)
    ensures t.T? ==> t.n != NULL && t.n in h && h[t.n] == Cell(Root(t.l), Root(t.r), Up(p), t.red)
  {}

  lemma ZipUp(h: Store, root: Ref, p: Path<Ref>, t: Tree<Ref>)
    requires Zip(h, root, p, t)
    ensures !p.Top? ==> p.n != NULL && p.n in h && h[p.n].parent == Up(p.up) && h[p.n].red == p.red
    ensures p.InL? ==> h[p.n].left == Root(t) && h[p.n].right == Root(p.r) && (t.T? || p.r.T? ==> Root(t) != Root(p.r))
    ensures p.InR? ==> h[p.n].left == Root(p.l) && h[p.n].right == Root(t) && (t.T? || p.l.T? ==> Root(t) != Root(p.l))
    ensures p.Top? ==> root == Root(t)
  {
    RootIn(t);
    match p
    case Top =>
    case InL(up, n, c, r) => RootIn(r); ShapeRoot(h, r, n); ShapeRoot(h, t, n);
    case InR(up, l, n, c) => RootIn(l); ShapeRoot(h, l, n); ShapeRoot(h, t, n);
  }

  // ----- rotations -----

  /** Subtrees `a`, `b`, `c` around the nodes `x` and `y`, with `top` in the hole of `p`; the links
      that a rotation overwrites may be anything. */
  predicate Ready(h: Store, root: Ref, p: Path<Ref>, top: Ref, a: Tree<Ref>, x: Ref, b: Tree<Ref>, y: Ref, c: Tree<Ref>,
                  was: Ref) {
    && x != NULL && y != NULL && x in h && y in h && top in h
    && Apart(p, T(a, x, false, T(b, y, false, c)))
    && Around(h, root, p, top) && h[top].parent == Up(p)
    && h[x].left == Root(a) && h[y].right == Root(c)
    && Shape(h, a, x) && Shape(h, b, was) && Shape(h, c, y)
  }

  lemma ReadyLeft(h: Store, root: Ref, p: Path<Ref>, a: Tree<Ref>, x: Ref, xc: bool, b: Tree<Ref>, y: Ref, yc: bool,
                  c: Tree<Ref>)
    requires Zip(h, root, p, T(a, x, xc, T(b, y, yc, c)))
    ensures Ready(h, root, p, x, a, x, b, y, c, y) && h[x].red == xc
    ensures h[x].right == y && h[y].left == Root(b)
  {
    hide Around; hide Sep; hide Nodes; hide PathNodes; hide SepPath; hide Shape;
    ApartRotated(p, a, x, b, y, c, xc, yc, xc, xc);
    ApartRotated(p, a, x, b, y, c, false, false, xc, xc);
    ShapeNode(h, a, x, xc, T(b, y, yc, c), Up(p));
    ShapeNode(h, b, y, yc, c, x);
  }

  lemma ReadyRight(h: Store, root: Ref, p: Path<Ref>, a: Tree<Ref>, x: Ref, xc: bool, b: Tree<Ref>, y: Ref, yc: bool,
                   c: Tree<Ref>)
    requires Zip(h, root, p, T(T(a, x, xc, b), y, yc, c))
    ensures Ready(h, root, p, y, a, x, b, y, c, x) && h[y].red == yc
    ensures h[y].left == x && h[x].right == Root(b)
  {
    hide Around; hide Sep; hide Nodes; hide PathNodes; hide SepPath; hide Shape;
    ApartRotated(p, a, x, b, y, c, false, false, xc, yc);
    ShapeNode(h, T(a, x, xc, b), y, yc, c, Up(p));
    ShapeNode(h, a, x, xc, b, y);
  }

  predicate Recoloured(t: Tree<Ref>, t': Tree<Ref>) { if t.Nil? then t'.Nil? else t'.T? && t' == t.(red := t'.red) }

  /** The links of a finished left rotation. */
  lemma RotatedLeft(h: Store, h': Store, root: Ref, p: Path<Ref>, a: Tree<Ref>, x: Ref, xc: bool, b: Tree<Ref>,
                    b': Tree<Ref>, was: Ref, y: Ref, yc: bool, c: Tree<Ref>)
    requires x in h' && h'[x] == Cell(Root(a), Root(b), y, xc) && x != NULL
    requires y in h' && h'[y] == Cell(x, Root(c), Up(p), yc) && y != NULL
    requires Shape(h, a, x) && Shape(h, b, was) && Shape(h, c, y) && Apart(p, T(a, x, false, T(b, y, false, c)))
    requires Recoloured(b, b') && (b.T? ==> b.n in h && b.n in h' && h'[b.n] == h[b.n].(parent := x, red := b'.red))
    requires Same(h, h', Nodes(a) + (Nodes(b) - {Root(b)}) + Nodes(c))
    requires Around(h', root, p, y)
    ensures Zip(h', root, p, T(T(a, x, xc, b'), y, yc, c))
  {
    hide Around; hide Sep; hide Nodes; hide Shape; hide SepPath; hide PathNodes;
    ApartRotated(p, a, x, b, y, c, false, false, xc, yc);
    ShapeNode(h', a, x, xc, b', y);
    ShapeNode(h', T(a, x, xc, b'), y, yc, c, Up(p));
    RecolouredApart(b, b');
    SepNode(a, x, xc, b); SepNode(a, x, xc, b');
    SepNode(T(a, x, xc, b), y, yc, c); SepNode(T(a, x, xc, b'), y, yc, c);
    KeepShape(h, h', a, x);
    Reparented(h, h', b, was, x, b');
    KeepShape(h, h', c, y);
  }

  /** The links of a finished right rotation. */
  lemma RotatedRight(h: Store, h': Store, root: Ref, p: Path<Ref>, a: Tree<Ref>, x: Ref, xc: bool, b: Tree<Ref>,
                     b': Tree<Ref>, was: Ref, y: Ref, yc: bool, c: Tree<Ref>)
    requires x in h' && h'[x] == Cell(Root(a), y, Up(p), xc) && x != NULL
    requires y in h' && h'[y] == Cell(Root(b), Root(c), x, yc) && y != NULL
    requires Shape(h, a, x) && Shape(h, b, was) && Shape(h, c, y) && Apart(p, T(a, x, false, T(b, y, false, c)))
    requires Recoloured(b, b') && (b.T? ==> b.n in h && b.n in h' && h'[b.n] == h[b.n].(parent := y, red := b'.red))
    requires Same(h, h', Nodes(a) + (Nodes(b) - {Root(b)}) + Nodes(c))
    requires Around(h', root, p, x)
    ensures Zip(h', root, p, T(a, x, xc, T(b', y, yc, c)))
  {
    hide Around; hide Sep; hide Nodes; hide Shape; hide SepPath; hide PathNodes;
    ApartRotated(p, a, x, b, y, c, false, false, xc, yc);
    ShapeNode(h', b', y, yc, c, x);
    ShapeNode(h', a, x, xc, T(b', y, yc, c), Up(p));
    RecolouredApart(b, b');
    SepNode(b, y, false, c); SepNode(b', y, yc, c);
    SepNode(a, x, false, T(b, y, false, c)); SepNode(a, x, xc, T(b', y, yc, c));
    KeepShape(h, h', a, x);
    Reparented(h, h', b, was, y, b');
    KeepShape(h, h', c, y);
  }

  // ----- the first half of a double rotation -----

  lemma ApartDown(p: Path<Ref>, l: Tree<Ref>, n: Ref, c: bool, r: Tree<Ref>)
    ensures Apart(p, T(l, n, c, r)) <==> Apart(InR(p, l, n, c), r)
    ensures Apart(p, T(l, n, c, r)) <==> Apart(InL(p, n, c, r), l)
    ensures PathNodes(InR(p, l, n, c)) == PathNodes(p) + {n} + Nodes(l)
    ensures PathNodes(InL(p, n, c, r)) == PathNodes(p) + {n} + Nodes(r)
  {}

  lemma ApartColour(p: Path<Ref>, l: Tree<Ref>, n: Ref, c: bool, c': bool, r: Tree<Ref>)
    ensures Apart(p, T(l, n, c, r)) <==> Apart(p, T(l, n, c', r))
  {}

  lemma ApartDoubleRight(p: Path<Ref>, a: Tree<Ref>, g: Ref, l: Tree<Ref>, n: Ref, r: Tree<Ref>, x: Ref, c: Tree<Ref>,
                         gc: bool, nc: bool, xc: bool, xc': bool)
    requires Apart(p, T(a, g, gc, T(T(l, n, nc, r), x, xc, c)))
    ensures Apart(p, T(a, g, false, T(l, n, false, T(r, x, xc', c))))
    ensures Distinct(InR(p, a, g, gc), l, n, r, x, c) && PathNodes(InR(p, a, g, gc)) == PathNodes(p) + {g} + Nodes(a)
    ensures g !in PathNodes(p) && g !in Nodes(a)
  {
    hide Apart; hide Distinct;
    var q := InR(p, a, g, gc);
    ApartDown(p, a, g, gc, T(T(l, n, nc, r), x, xc, c));
    ApartRotated(q, l, n, r, x, c, false, xc', nc, xc);
    ApartDown(p, a, g, gc, T(l, n, false, T(r, x, xc', c)));
    ApartColour(p, a, g, gc, false, T(l, n, false, T(r, x, xc', c)));
    ApartRotated(p, a, g, l, n, T(r, x, xc', c), false, false, false, false);
    DistinctTop(p, a, g, l, n, T(r, x, xc', c));
  }

  lemma DistinctTop(p: Path<Ref>, a: Tree<Ref>, x: Ref, b: Tree<Ref>, y: Ref, c: Tree<Ref>)
    requires Distinct(p, a, x, b, y, c)
    ensures x !in PathNodes(p) && y !in PathNodes(p) && x !in Nodes(a) && y !in Nodes(c)
  {
    hide Nodes; hide PathNodes; hide Sep; hide SepPath;
  }

  /** `n` lifted over its parent `x` on the right of `g`. */
  lemma FoldedRight(h: Store, h': Store, root: Ref, p: Path<Ref>, a: Tree<Ref>, g: Ref, gc: bool,
                    l: Tree<Ref>, n: Ref, nc: bool, r: Tree<Ref>, x: Ref, xc: bool, xc': bool, c: Tree<Ref>)
    requires Zip(h, root, p, T(a, g, gc, T(T(l, n, nc, r), x, xc, c))) && !IsRed(r) && h'.Keys == h.Keys
    requires x in h' && h'[x] == Cell(Root(r), Root(c), n, xc')
    requires n in h' && h'[n].left == Root(l) && h'[n].right == x
    requires g in h' && h'[g].left == Root(a) && h'[g].parent == Up(p)
    requires r.T? ==> r.n in h && r.n in h' && h'[r.n] == h[r.n].(parent := x, red := false)
    requires Same(h, h', h.Keys - {x, n, g} - (if r.T? then {r.n} else {}))
    ensures Ready(h', root, p, g, a, g, l, n, T(r, x, xc', c), n)
  {
    hide Around; hide Sep; hide Nodes; hide Shape; hide SepPath; hide PathNodes;
    ApartDoubleRight(p, a, g, l, n, r, x, c, gc, nc, xc, xc');
    ShapeNode(h, a, g, gc, T(T(l, n, nc, r), x, xc, c), Up(p));
    ShapeNode(h, T(l, n, nc, r), x, xc, c, g);
    ShapeNode(h, l, n, nc, r, x);
    ShapeNode(h', r, x, xc', c, n);
    KeepAround(h, h', root, p, g);
    KeepShape(h, h', a, g);
    KeepShape(h, h', l, n);
    KeepShape(h, h', c, x);
    Reparented(h, h', r, n, x, r);
  }

  lemma ApartDoubleLeft(p: Path<Ref>, a: Tree<Ref>, x: Ref, l: Tree<Ref>, n: Ref, r: Tree<Ref>, g: Ref, c: Tree<Ref>,
                        gc: bool, nc: bool, xc: bool, xc': bool)
    requires Apart(p, T(T(a, x, xc, T(l, n, nc, r)), g, gc, c))
    ensures Apart(p, T(T(a, x, xc', l), n, false, T(r, g, false, c)))
    ensures Distinct(InL(p, g, gc, c), a, x, l, n, r) && PathNodes(InL(p, g, gc, c)) == PathNodes(p) + {g} + Nodes(c)
    ensures g !in PathNodes(p) && g !in Nodes(c)
  {
    hide Apart; hide Distinct;
    var q := InL(p, g, gc, c);
    var low := T(T(a, x, xc', l), n, false, r);
    ApartDown(p, T(a, x, xc, T(l, n, nc, r)), g, gc, c);
    ApartRotated(q, a, x, l, n, r, xc, nc, xc', false);
    ApartDown(p, low, g, gc, c);
    ApartRotated(p, T(a, x, xc', l), n, r, g, c, false, false, false, gc);
    DistinctTop(p, T(a, x, xc', l), n, r, g, c);
  }

  /** `n` lifted over its parent `x` on the left of `g`. */
  lemma FoldedLeft(h: Store, h': Store, root: Ref, p: Path<Ref>, a: Tree<Ref>, x: Ref, xc: bool, xc': bool,
                   l: Tree<Ref>, n: Ref, nc: bool, r: Tree<Ref>, g: Ref, gc: bool, c: Tree<Ref>)
    requires Zip(h, root, p, T(T(a, x, xc, T(l, n, nc, r)), g, gc, c)) && !IsRed(l) && h'.Keys == h.Keys
    requires x in h' && h'[x] == Cell(Root(a), Root(l), n, xc')
    requires n in h' && h'[n].left == x && h'[n].right == Root(r)
    requires g in h' && h'[g].right == Root(c) && h'[g].parent == Up(p)
    requires l.T? ==> l.n in h && l.n in h' && h'[l.n] == h[l.n].(parent := x, red := false)
    requires Same(h, h', h.Keys - {x, n, g} - (if l.T? then {l.n} else {}))
    ensures Ready(h', root, p, g, T(a, x, xc', l), n, r, g, c, n)
  {
    hide Around; hide Sep; hide Nodes; hide Shape; hide SepPath; hide PathNodes;
    ApartDoubleLeft(p, a, x, l, n, r, g, c, gc, nc, xc, xc');
    ShapeNode(h, T(a, x, xc, T(l, n, nc, r)), g, gc, c, Up(p));
    ShapeNode(h, a, x, xc, T(l, n, nc, r), g);
    ShapeNode(h, l, n, nc, r, x);
    ShapeNode(h', a, x, xc', l, n);
    KeepAround(h, h', root, p, g);
    KeepShape(h, h', a, x);
    KeepShape(h, h', r, n);
    KeepShape(h, h', c, g);
    Reparented(h, h', l, n, x, l);
  }

  // ----- unlinking -----

  /** A subtree moved into the hole of `p`, possibly recoloured. */
  lemma Moved(h: Store, h': Store, root: Ref, p: Path<Ref>, u: Tree<Ref>, was: Ref, u': Tree<Ref>)
    requires Apart(p, u) && Shape(h, u, was) && Recoloured(u, u') && Around(h', root, p, Root(u))
    requires u.T? ==> u.n in h && u.n in h' && h'[u.n] == h[u.n].(parent := Up(p), red := u'.red)
    requires Same(h, h', Nodes(u) - {Root(u)})
    ensures Zip(h', root, p, u')
  {
    hide Around; hide Sep; hide Nodes; hide Shape; hide SepPath; hide PathNodes;
    Reparented(h, h', u, was, Up(p), u');
    RecolouredApart(u, u');
  }

  lemma ApartParts(p: Path<Ref>, l: Tree<Ref>, n: Ref, c: bool, r: Tree<Ref>)
    requires Apart(p, T(l, n, c, r))
    ensures Apart(p, l) && Apart(p, r) && n !in PathNodes(p) && n !in Nodes(l) && n !in Nodes(r) && Nodes(l) !! Nodes(r)
    ensures (l.T? ==> Root(l) in Nodes(l)) && (r.T? ==> Root(r) in Nodes(r))
  {}

  lemma ApartRecoloured(p: Path<Ref>, l: Tree<Ref>, n: Ref, c: bool, r: Tree<Ref>, r': Tree<Ref>)
    requires Apart(p, T(l, n, c, r)) && Recoloured(r, r')
    ensures Apart(p, T(l, n, c, r')) && Root(r') == Root(r)
  {
    hide Sep; hide Nodes; hide SepPath; hide PathNodes;
    RecolouredApart(r, r');
    SepNode(l, n, c, r);
    SepNode(l, n, c, r');
  }

  /** Another node in the place of the root of a subtree. */
  lemma Replaced(h: Store, h': Store, root: Ref, p: Path<Ref>, l: Tree<Ref>, n: Ref, n': Ref, c: bool, r: Tree<Ref>,
                 was: Ref, r': Tree<Ref>)
    requires Apart(p, T(l, n', c, r)) && Shape(h, l, n) && Shape(h, r, was) && Recoloured(r, r')
    requires n' != NULL && n' in h' && h'[n'] == Cell(Root(l), Root(r), Up(p), c)
    requires l.T? ==> l.n in h && l.n in h' && h'[l.n] == h[l.n].(parent := n')
    requires r.T? ==> r.n in h && r.n in h' && h'[r.n] == h[r.n].(parent := n', red := r'.red)
    requires Same(h, h', (Nodes(l) - {Root(l)}) + (Nodes(r) - {Root(r)}))
    requires Around(h', root, p, n')
    ensures Zip(h', root, p, T(l, n', c, r'))
  {
    ApartParts(p, l, n', c, r);
    hide Around; hide Sep; hide Nodes; hide Shape; hide SepPath; hide PathNodes;
    assert Apart(p, T(l, n', c, r')) by { ApartRecoloured(p, l, n', c, r, r'); }
    hide Apart;
    Reparented(h, h', l, n, n', l);
    Reparented(h, h', r, was, n', r');
    ShapeNode(h', l, n', c, r', Up(p));
  }

  /** The tree with its leftmost node replaced by a subtree. */
  function FillFirst(t: Tree<Ref>, u: Tree<Ref>): Tree<Ref>
    requires t.T?
  { if t.l.Nil? then u else T(FillFirst(t.l, u), t.n, t.red, t.r) }

  lemma {:induction false} FocusFirst(h: Store, root: Ref, p: Path<Ref>, t: Tree<Ref>, u: Tree<Ref>)
    requires t.T?
    ensures Zip(h, root, FirstPath(p, t), u) <==> Zip(h, root, p, FillFirst(t, u))
    decreases t
  {
    hide Zip;
    if !t.l.Nil? {
      FocusFirst(h, root, InL(p, t.n, t.red, t.r), t.l, u);
      Refocus(h, root, p, FillFirst(t.l, u), t.n, t.red, t.r);
    }
  }

  lemma {:induction false} FillFirstSame(t: Tree<Ref>)
    requires t.T?
    ensures FillFirst(t, First(t)) == t
  {
    if !t.l.Nil? { FillFirstSame(t.l); }
  }

  lemma {:induction false} FillFirstNodes(t: Tree<Ref>, u: Tree<Ref>)
    requires t.T? && Sep(t) && Nodes(u) <= Nodes(First(t).r)
    ensures Nodes(FillFirst(t, u)) <= Nodes(t) - {First(t).n} && First(t).n in Nodes(t) && Nodes(u) <= Nodes(t)
  {
    if !t.l.Nil? { FillFirstNodes(t.l, u); }
  }

  /** The leftmost node below `parent` cut out: its right child hangs there instead, black. */
  function Cut(h: Store, parent: Ref, r: Tree<Ref>): Store
    requires parent in h && (r.T? ==> r.n in h)
  {
    var h0 := h[parent := h[parent].(left := Root(r))];
    if r.T? then h0[r.n := h0[r.n].(parent := parent, red := false)] else h0
  }

  lemma CutZip(h: Store, root: Ref, q: Path<Ref>, s: Tree<Ref>)
    requires Zip(h, root, q, s) && q.InL? && s.T? && s.l.Nil?
    ensures q.n in h && (s.r.T? ==> s.r.n in h)
    ensures Zip(Cut(h, q.n, s.r), root, q, Blacken(s.r))
  {
    ZipUp(h, root, q, s);
    ShapeNode(h, s.l, s.n, s.red, s.r, q.n);
    ApartParts(q, s.l, s.n, s.red, s.r);
    UpIn(q);
    ShapeRoot(h, s.r, s.n);
    hide Sep; hide Nodes; hide Shape; hide SepPath; hide PathNodes; hide Around;
    var h0 := Swapped(h, q, Root(s.r));
    SwappedAround(h, root, q, s.n, Root(s.r));
    KeepAround(h0, Cut(h, q.n, s.r), root, q, Root(s.r));
    Moved(h, Cut(h, q.n, s.r), root, q, s.r, s.n, Blacken(s.r));
  }

  lemma UpIn(p: Path<Ref>)
    ensures !p.Top? ==> p.n in PathNodes(p)
  {}

  lemma {:induction false} FirstPathDeep(b: Path<Ref>, b': Path<Ref>, r: Tree<Ref>)
    requires r.T? && r.l.T? && Sep(r)
    ensures FirstPath(b, r).InL? && FirstPath(b', r).InL? && FirstPath(b, r).n == FirstPath(b', r).n
    ensures FirstPath(b, r).n in Nodes(r) - Nodes(First(r)) && r.n in Nodes(r) - Nodes(First(r))
    decreases r
  {
    FirstIn(r.l);
    if r.l.l.T? {
      FirstPathDeep(InL(b, r.n, r.red, r.r), InL(b', r.n, r.red, r.r), r.l);
    } else {
      assert FirstPath(b, r) == InL(b, r.n, r.red, r.r) && FirstPath(b', r) == InL(b', r.n, r.red, r.r);
    }
  }

  lemma {:induction false} FirstIn(t: Tree<Ref>)
    requires t.T?
    ensures First(t).n in Nodes(t) && Nodes(First(t)) <= Nodes(t) && Nodes(First(t).r) <= Nodes(First(t))
  {
    if t.l.T? { FirstIn(t.l); }
  }

  lemma {:induction false} FirstSep(t: Tree<Ref>)
    requires t.T? && Sep(t)
    ensures Sep(First(t)) && First(t).n !in Nodes(First(t).r)
  {
    if t.l.T? { FirstSep(t.l); }
  }
}
