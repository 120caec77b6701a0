/** The leftmost-cached tree: a sorted sequence of nodes kept in a red-black tree. */
module RbCached {
  import opened RbSpec
  import opened RbStore
  import opened RbTree

  // ----- the sequence of nodes -----

  function Head(s: seq<Ref>): Ref { if s == [] then NULL else s[0] }

  predicate Keyed(s: seq<Ref>, key: map<Ref, int>) { forall n :: n in s ==> n in key }

  predicate Sorted(s: seq<Ref>, key: map<Ref, int>)
    requires Keyed(s, key)
  { forall i, j :: 0 <= i < j < |s| ==> key[s[i]] <= key[s[j]] }

  /** The sequence with `n` after every node whose key is not larger. */
  function Insertion(s: seq<Ref>, n: Ref, key: map<Ref, int>): (r: seq<Ref>)
    requires Keyed(s, key) && n in key
    ensures multiset(r) == multiset(s) + multiset{n}
  {
    if s == [] then [n]
    else if key[n] < key[s[0]] then assert multiset([n] + s) == multiset{n} + multiset(s); [n] + s
    else
      assert Keyed(s[1..], key) && s == [s[0]] + s[1..];
      [s[0]] + Insertion(s[1..], n, key)
  }

  predicate AllAtMost(s: seq<Ref>, key: map<Ref, int>, k: int) { forall n :: n in s ==> n in key && key[n] <= k }
  predicate AllAbove(s: seq<Ref>, key: map<Ref, int>, k: int) { forall n :: n in s ==> n in key && key[n] > k }

  lemma {:induction false} InsertionAt(a: seq<Ref>, b: seq<Ref>, n: Ref, key: map<Ref, int>)
    requires n in key && AllAtMost(a, key, key[n]) && AllAbove(b, key, key[n])
    ensures Keyed(a + b, key) && Insertion(a + b, n, key) == a + [n] + b
  {
    if a == [] {
      assert a + b == b;
    } else {
      assert (a + b)[1..] == a[1..] + b;
      assert [a[0]] + (a[1..] + [n] + b) == a + [n] + b;
      InsertionAt(a[1..], b, n, key);
    }
  }

  lemma {:induction false} InsertionSorted(s: seq<Ref>, n: Ref, key: map<Ref, int>)
    requires Keyed(s, key) && Sorted(s, key) && n in key
    ensures Keyed(Insertion(s, n, key), key) && Sorted(Insertion(s, n, key), key)
    ensures s != [] ==> key[Insertion(s, n, key)[0]] == if key[n] < key[s[0]] then key[n] else key[s[0]]
  {
    if s != [] {
      SortedTail(s, key);
      if key[n] < key[s[0]] {
        SortedFront(n, s, key);
      } else {
        InsertionSorted(s[1..], n, key);
        SortedFront(s[0], Insertion(s[1..], n, key), key);
      }
    }
  }

  lemma SortedTail(s: seq<Ref>, key: map<Ref, int>)
    requires s != [] && Keyed(s, key) && Sorted(s, key)
    ensures Keyed(s[1..], key) && Sorted(s[1..], key)
    ensures (|s| > 1 ==> s[1] in s && s[1..][0] == s[1] && key[s[0]] <= key[s[1]])
  {}

  lemma SortedFront(x: Ref, s: seq<Ref>, key: map<Ref, int>)
    requires Keyed(s, key) && Sorted(s, key) && x in key && (s != [] ==> key[x] <= key[s[0]])
    ensures Keyed([x] + s, key) && Sorted([x] + s, key)
  {}

  function Removed(s: seq<Ref>, n: Ref): seq<Ref> {
    if s == [] then [] else if s[0] == n then s[1..] else [s[0]] + Removed(s[1..], n)
  }

  lemma {:induction false} RemovedAt(a: seq<Ref>, n: Ref, b: seq<Ref>)
    requires n !in a
    ensures Removed(a + [n] + b, n) == a + b
  {
    if a == [] {
      assert (a + [n] + b)[1..] == b && a + b == b;
    } else {
      assert (a + [n] + b)[1..] == a[1..] + [n] + b;
      assert [a[0]] + (a[1..] + b) == a + b;
      RemovedAt(a[1..], n, b);
    }
  }

  /** What follows a node. */
  function Rest(s: seq<Ref>, n: Ref): seq<Ref> {
    if s == [] then [] else if s[0] == n then s[1..] else Rest(s[1..], n)
  }

  lemma {:induction false} RestAt(a: seq<Ref>, n: Ref, b: seq<Ref>)
    requires n !in a
    ensures Rest(a + [n] + b, n) == b
  {
    if a == [] {
      assert (a + [n] + b)[1..] == b;
    } else {
      assert (a + [n] + b)[1..] == a[1..] + [n] + b;
      RestAt(a[1..], n, b);
    }
  }

  // ----- the nodes of a tree, in order -----

  lemma {:induction false} NodesInOrder(t: Tree<Ref>)
    ensures forall n :: n in InOrder(t) <==> n in Nodes(t)
  {
    if t.T? { NodesInOrder(t.l); NodesInOrder(t.r); }
  }

  /** The subtree at a node, and the path to it. */
  function Find(p: Path<Ref>, t: Tree<Ref>, n: Ref): (Path<Ref>, Tree<Ref>)
    decreases t
  {
    if t.Nil? || t.n == n then (p, t)
    else if n in Nodes(t.l) then Find(InL(p, t.n, t.red, t.r), t.l, n)
    else Find(InR(p, t.l, t.n, t.red), t.r, n)
  }

  lemma {:induction false} FindIt(p: Path<Ref>, t: Tree<Ref>, n: Ref)
    requires n in Nodes(t)
    ensures var (q, u) := Find(p, t, n);
            u.T? && u.n == n && Fill(q, u) == Fill(p, t)
    decreases t
  {
    if t.n != n {
      if n in Nodes(t.l) { FindIt(InL(p, t.n, t.red, t.r), t.l, n); } else { FindIt(InR(p, t.l, t.n, t.red), t.r, n); }
    }
  }

  /** The sequence around a node in focus; the node occurs once. */
  lemma AroundNode(h: Store, root: Ref, p: Path<Ref>, t: Tree<Ref>)
    requires Zip(h, root, p, t) && t.T?
    ensures InOrder(Fill(p, t)) == (Before(p) + InOrder(t.l)) + [t.n] + (InOrder(t.r) + Behind(p))
    ensures t.n !in Before(p) + InOrder(t.l)
  {
    ApartParts(p, t.l, t.n, t.red, t.r);
    hide InOrder; hide Before; hide Behind; hide Zip; hide Apart; hide Nodes; hide PathNodes;
    FillInOrder(p, t);
    InOrderNode(t.l, t.n, t.red, t.r);
    Middle(Before(p), InOrder(t.l), [t.n], InOrder(t.r), Behind(p));
    NodesInOrder(t.l);
    BeforeInPath(p);
  }

  lemma Middle(a: seq<Ref>, b: seq<Ref>, c: seq<Ref>, d: seq<Ref>, e: seq<Ref>)
    ensures a + (b + c + d) + e == (a + b) + c + (d + e)
  {}

  lemma {:induction false} BeforeInPath(p: Path<Ref>)
    ensures forall n :: n in Before(p) ==> n in PathNodes(p)
    ensures forall n :: n in PathNodes(p) <==> n in Before(p) || n in Behind(p)
  {
    match p
    case Top =>
    case InL(up, n, c, r) => BeforeInPath(up); NodesInOrder(r);
    case InR(up, l, n, c) => BeforeInPath(up); NodesInOrder(l);
  }

  lemma SplitAt(a: seq<Ref>, n: Ref, b: seq<Ref>, key: map<Ref, int>, k: int)
    requires Keyed(a + [n] + b, key) && Sorted(a + [n] + b, key)
    ensures n in key
    ensures k < key[n] ==> AllAbove([n] + b, key, k)
    ensures k >= key[n] ==> AllAtMost(a + [n], key, k)
  {
    var s := a + [n] + b;
    assert s[|a|] == n;
    forall x | x in [n] + b ensures x in key && key[n] <= key[x] {
      var i :| 0 <= i < |[n] + b| && ([n] + b)[i] == x;
      assert s[|a| + i] == x;
    }
    forall x | x in a + [n] ensures x in key && key[x] <= key[n] {
      var i :| 0 <= i < |a + [n]| && (a + [n])[i] == x;
      assert s[i] == x;
    }
  }

  /** Keys on both sides of a node in focus, as seen one level further down. */
  lemma Sides(p: Path<Ref>, u: Tree<Ref>, key: map<Ref, int>, k: int)
    requires u.T? && u.n in key
    requires k < key[u.n] ==> AllAbove([u.n] + (InOrder(u.r) + Behind(p)), key, k)
    requires k >= key[u.n] ==> AllAtMost((Before(p) + InOrder(u.l)) + [u.n], key, k)
    ensures k < key[u.n] ==> AllAbove(Behind(InL(p, u.n, u.red, u.r)), key, k)
    ensures k >= key[u.n] ==> AllAtMost(Before(InR(p, u.l, u.n, u.red)), key, k)
    ensures Before(InL(p, u.n, u.red, u.r)) == Before(p) && Behind(InR(p, u.l, u.n, u.red)) == Behind(p)
    ensures Before(InR(p, u.l, u.n, u.red)) != []
  {
    hide InOrder;
    assert Behind(InL(p, u.n, u.red, u.r)) == [u.n] + (InOrder(u.r) + Behind(p));
  }

  lemma DescendStart(t: Tree<Ref>, key: map<Ref, int>, k: int)
    ensures Fill(Top, t) == t && Before<Ref>(Top) == [] && AllAtMost(Before<Ref>(Top), key, k)
    ensures AllAbove(Behind<Ref>(Top), key, k)
  {}

  lemma FillStep(p: Path<Ref>, u: Tree<Ref>)
    requires u.T?
    ensures Fill(InL(p, u.n, u.red, u.r), u.l) == Fill(p, u) == Fill(InR(p, u.l, u.n, u.red), u.r)
  {}

  lemma FillTop(t: Tree<Ref>)
    ensures Fill(Top, t) == t
  {}

  lemma NotInPath(p: Path<Ref>, n: Ref)
    requires n !in Before(p) + Behind(p)
    ensures n !in PathNodes(p)
  {
    BeforeInPath(p);
  }

  lemma LeafFacts(p: Path<Ref>, n: Ref)
    requires RedBlack(Fill(p, Nil))
    ensures Inserting(p, T(Nil, n, true, Nil)) && RedBlack(FixInsert(p, T(Nil, n, true, Nil)))
    ensures InOrder(T(Nil, n, true, Nil)) == [n]
  {
    FillParts(p, Nil);
    InsertRestores(p, T(Nil, n, true, Nil));
  }

  /** Removing a node from the middle of a sequence, and what is first then. */
  lemma Removal(a: seq<Ref>, b: seq<Ref>, n: Ref, c: seq<Ref>, d: seq<Ref>)
    requires n !in a + b
    ensures Removed((a + b) + [n] + (c + d), n) == a + b + c + d
    ensures Head((a + b) + [n] + (c + d)) == n ==> Head(a + b + c + d) == Head(c + d)
    ensures Head((a + b) + [n] + (c + d)) != n ==> Head(a + b + c + d) == Head((a + b) + [n] + (c + d))
  {
    RemovedAt(a + b, n, c + d);
    assert (a + b) + (c + d) == a + b + c + d;
    if a + b != [] { assert (a + b)[0] in a + b; }
  }

  class RbRootCached {
    const rb: RbRoot
    var leftmost: Ref
    ghost var tree: Tree<Ref>

    constructor ()
      ensures Valid() && Order() == [] && fresh(rb)
    {
      rb := new RbRoot();
      leftmost := NULL;
      tree := Nil;
    }

    /** A red-black tree is linked in the store, and its leftmost node is cached. */
    ghost predicate Valid()
      reads this, rb
    {
      rb.At(Top, tree) && RedBlack(tree) && leftmost == Head(InOrder(tree))
    }

    ghost function Order(): seq<Ref>
      reads this
    { InOrder(tree) }

    /** The place for a node in the order of `key`, after the nodes with the same key. */
    method Descend(node: Ref, key: map<Ref, int>) returns (parent: Ref, left: bool, first: bool, ghost p: Path<Ref>)
      requires Valid() && node in key && Keyed(Order(), key) && Sorted(Order(), key)
      ensures rb.At(p, Nil) && Fill(p, Nil) == tree && parent == Up(p) && (parent != NULL ==> left == p.InL?)
      ensures Order() == Before(p) + Behind(p) && AllAtMost(Before(p), key, key[node])
      ensures AllAbove(Behind(p), key, key[node])
      ensures first <==> Before(p) == []
    {
      hide Zip; hide InOrder; hide Fill; hide Nodes; hide Sorted; hide AllAbove; hide AllAtMost; hide Keyed;
      hide Before; hide Behind;
      DescendStart(tree, key, key[node]);
      p := Top;
      parent, left, first := NULL, false, true;
      var link := rb.root;
      ghost var u := tree;
      ZipUp(rb.mem, rb.root, Top, tree);
      while link != NULL
        invariant rb.At(p, u) && Fill(p, u) == tree && link == Root(u)
        invariant parent == Up(p) && (parent != NULL ==> left == p.InL?)
        invariant AllAtMost(Before(p), key, key[node]) && AllAbove(Behind(p), key, key[node])
        invariant first <==> Before(p) == []
        decreases u
      {
        ZipRoot(rb.mem, rb.root, p, u);
        Refocus(rb.mem, rb.root, p, u.l, u.n, u.red, u.r);
        AroundNode(rb.mem, rb.root, p, u);
        SplitAt(Before(p) + InOrder(u.l), u.n, InOrder(u.r) + Behind(p), key, key[node]);
        Sides(p, u, key, key[node]);
        FillStep(p, u);
        parent := link;
        if key[node] < key[parent] {
          link := rb.mem[parent].left;
          left := true;
          p, u := InL(p, u.n, u.red, u.r), u.l;
        } else {
          link := rb.mem[parent].right;
          left, first := false, false;
          p, u := InR(p, u.l, u.n, u.red), u.r;
        }
      }
      ZipRoot(rb.mem, rb.root, p, u);
      FillInOrder(p, u);
      NilInOrder<Ref>();
    }

    /** `rb_add_cached`, ordered by `key`. */
    method Add(node: Ref, key: map<Ref, int>)
      requires Valid() && node != NULL && node !in Order() && node in key && Keyed(Order(), key) && Sorted(Order(), key)
      modifies this, rb
      ensures Valid() && Order() == Insertion(old(Order()), node, key)
    {
      hide Zip; hide InOrder; hide Fill; hide Before; hide Behind; hide FixInsert; hide RedBlack; hide PathOk;
      hide Inserting; hide Insertion; hide AllAbove; hide AllAtMost;
      var parent, left, first, p := Descend(node, key);
      NotInPath(p, node);
      rb.LinkNode(node, parent, left, p);
      if first { leftmost := node; }
      ghost var leaf := T(Nil, node, true, Nil);
      LeafFacts(p, node);
      rb.InsertColor(node, p, leaf);
      InsertKeepsOrder(p, leaf);
      FillInOrder(p, leaf);
      tree := FixInsert(p, leaf);
      InsertionAt(Before(p), Behind(p), node, key);
      assert first ==> Head(InOrder(tree)) == node;
    }

    /** `rb_erase_cached`. */
    method EraseCached(node: Ref)
      requires Valid() && node in Order()
      modifies this, rb
      ensures Valid() && Order() == Removed(old(Order()), node)
    {
      hide Zip; hide InOrder; hide Fill; hide Before; hide Behind; hide RbSpec.Erase; hide RedBlack;
      NodesInOrder(tree);
      ghost var (p, t) := Find(Top, tree, node);
      FindIt(Top, tree, node);
      FillTop(tree);
      FocusRoot(rb.mem, rb.root, p, t);
      AroundNode(rb.mem, rb.root, p, t);
      if leftmost == node {
        leftmost := rb.Next(node, p, t);
      }
      rb.EraseNode(node, p, t);
      EraseOrder(p, t);
      EraseValid(p, t);
      Removal(Before(p), InOrder(t.l), node, InOrder(t.r), Behind(p));
      tree := RbSpec.Erase(p, t);
    }

    /** `rb_first_cached`. */
    method FirstCached() returns (first: Ref)
      requires Valid()
      ensures first == Head(Order())
    { first := leftmost; }

    /** `RB_EMPTY_ROOT`. */
    method IsEmpty() returns (empty: bool)
      requires Valid()
      ensures empty <==> Order() == []
    {
      ZipUp(rb.mem, rb.root, Top, tree);
      ZipRoot(rb.mem, rb.root, Top, tree);
      if tree.T? { InOrderNode(tree.l, tree.n, tree.red, tree.r); }
      empty := rb.root == NULL;
    }

    /** `rb_next`: the successor of a node of the sequence, or NULL. */
    method Successor(node: Ref) returns (next: Ref)
      requires Valid() && node in Order()
      ensures next == Head(Rest(Order(), node))
    {
      hide Zip; hide InOrder; hide Fill; hide Before; hide Behind; hide RedBlack;
      NodesInOrder(tree);
      ghost var (p, t) := Find(Top, tree, node);
      FindIt(Top, tree, node);
      FillTop(tree);
      FocusRoot(rb.mem, rb.root, p, t);
      AroundNode(rb.mem, rb.root, p, t);
      next := rb.Next(node, p, t);
      RestAt(Before(p) + InOrder(t.l), node, InOrder(t.r) + Behind(p));
    }
  }
}
