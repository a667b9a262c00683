/** The rest of the source's own check: the links of the leaves and the numbers of nodes. */
module BTreeLinks {
  import opened Sorted
  import opened BTree
  import opened BTreeRefs
  import opened BTreeNode
  import opened BTreeHeap

  /** `x` and `y` are neighbours in the chain. */
  ghost predicate Neighbours<V(0)>(l: Links<V>, x: Node<V>, y: Node<V>) {
    x in l.next && y in l.prev && l.next[x] == y && l.prev[y] == x
  }

  /** What `verify_node` asserts of the links below a node: inside its children, and between them at levels 1 and 2. */
  ghost predicate LinkChecks<V(0)>(l: Links<V>, t: NTree<V>, h: nat)
    requires Shaped(t, h)
    decreases t
  {
    t.Inner? ==>
      && (forall i :: 0 <= i < |t.kids| ==> LinkChecks(l, t.kids[i], h - 1))
      && (h == 1 ==> forall i {:trigger t.kids[i]} :: 0 < i < |t.kids| ==> Neighbours(l, t.kids[i - 1].r, t.kids[i].r))
      && (h == 2 ==>
            forall i {:trigger t.kids[i]} :: 0 < i < |t.kids| ==>
              Neighbours(l, LastKid(t.kids[i - 1]), FirstKid(t.kids[i])))
  }

  function FirstKid<R, V>(t: Tree<R, V>): R {
    if t.Inner? && t.kids != [] then t.kids[0].r else t.r
  }

  function LastKid<R, V>(t: Tree<R, V>): R {
    if t.Inner? && t.kids != [] then t.kids[|t.kids| - 1].r else t.r
  }

  /** All leaves are at level 0, and inner nodes have children. */
  predicate Shaped<R, V>(t: Tree<R, V>, h: nat)
    decreases t
  {
    match t
    case Leaf(_, _) => h == 0
    case Inner(_, _, kids) => h > 0 && kids != [] && forall i :: 0 <= i < |kids| ==> Shaped(kids[i], h - 1)
  }

  lemma {:induction false} ValidShaped<R, V>(p: Params, t: Tree<R, V>, h: nat, root: bool)
    requires Valid(p, t, h, root)
    ensures Shaped(t, h)
    decreases t
  {
    if t.Inner? {
      forall i | 0 <= i < |t.kids|
        ensures Shaped(t.kids[i], h - 1)
      {
        ValidShaped(p, t.kids[i], h - 1, false);
      }
    }
  }

  lemma {:induction false} SomeLeaf<R, V>(t: Tree<R, V>, h: nat)
    requires Shaped(t, h)
    ensures Leaves(t) != []
    decreases t
  {
    if t.Inner? {
      SomeLeaf(t.kids[0], h - 1);
    }
  }

  lemma InChain<V(0)>(l: Links<V>, s: seq<Node<V>>, k: nat)
    requires Chain(l, s) && 0 < k < |s|
    ensures Neighbours(l, s[k - 1], s[k])
  {
    assert l.next[s[k - 1]] == Nth(s, k) && l.prev[s[k]] == Nth(s, k - 1);
  }

  /** Between two children: the last leaf of one and the first leaf of the next. */
  lemma AcrossKids<V(0)>(l: Links<V>, a: seq<Node<V>>, t: NTree<V>, b: seq<Node<V>>, h: nat, i: nat)
    requires Chain(l, a + Leaves(t) + b) && Shaped(t, h) && t.Inner? && 0 < i < |t.kids|
    ensures var x, y := Leaves(t.kids[i - 1]), Leaves(t.kids[i]);
            x != [] && y != [] && Neighbours(l, x[|x| - 1], y[0])
  {
    hide Chain, RowLeaves, Leaves, Shaped;
    ShapedKid(t, h, i - 1);
    ShapedKid(t, h, i);
    SomeLeaf(t.kids[i - 1], h - 1);
    SomeLeaf(t.kids[i], h - 1);
    KidsInRow(t, i);
    var x, y := Leaves(t.kids[i - 1]), Leaves(t.kids[i]);
    var u, w := RowLeaves(t.kids[..i - 1]), RowLeaves(t.kids[i + 1..]);
    AtBorder(a, u, x, y, w, b);
    InChain(l, a + Leaves(t) + b, |a| + |u| + |x|);
  }

  lemma ShapedKid<R, V>(t: Tree<R, V>, h: nat, i: nat)
    requires Shaped(t, h) && t.Inner? && i < |t.kids|
    ensures h > 0 && Shaped(t.kids[i], h - 1)
  {
  }

  lemma KidsInRow<R, V>(t: Tree<R, V>, i: nat)
    requires t.Inner? && 0 < i < |t.kids|
    ensures Leaves(t) ==
            RowLeaves(t.kids[..i - 1]) + Leaves(t.kids[i - 1]) + (Leaves(t.kids[i]) + RowLeaves(t.kids[i + 1..]))
  {
    hide RowLeaves;
    RowLeavesSplit(t.kids, i - 1);
    var right := t.kids[i - 1 + 1..];
    assert right[0] == t.kids[i] && right[1..] == t.kids[i + 1..];
    FirstLeaves(right);
  }

  lemma FirstLeaves<R, V>(kids: seq<Tree<R, V>>)
    requires kids != []
    ensures RowLeaves(kids) == Leaves(kids[0]) + RowLeaves(kids[1..])
  {
  }

  lemma AtBorder<T>(a: seq<T>, u: seq<T>, x: seq<T>, y: seq<T>, w: seq<T>, b: seq<T>)
    requires x != [] && y != []
    ensures var s, k := a + (u + x + (y + w)) + b, |a| + |u| + |x|;
            0 < k < |s| && s[k - 1] == x[|x| - 1] && s[k] == y[0]
  {
  }

  /** The chain invariant makes all these assertions hold. */
  lemma {:induction false} ChainPassesLinks<V(0)>(l: Links<V>, a: seq<Node<V>>, t: NTree<V>, b: seq<Node<V>>, h: nat)
    requires Chain(l, a + Leaves(t) + b) && Shaped(t, h)
    ensures LinkChecks(l, t, h)
    decreases t
  {
    hide Chain, RowLeaves, Leaves, Neighbours;
    if t.Inner? {
      forall i | 0 <= i < |t.kids|
        ensures LinkChecks(l, t.kids[i], h - 1)
      {
        KidInRow(a, t, b, i);
        ChainPassesLinks(l, a + RowLeaves(t.kids[..i]), t.kids[i], RowLeaves(t.kids[i + 1..]) + b, h - 1);
      }
      forall i | 0 < i < |t.kids| && h <= 2
        ensures h == 1 ==> Neighbours(l, t.kids[i - 1].r, t.kids[i].r)
        ensures h == 2 ==> Neighbours(l, LastKid(t.kids[i - 1]), FirstKid(t.kids[i]))
      {
        AcrossKids(l, a, t, b, h, i);
        EndLeaves(t.kids[i - 1], h - 1);
        EndLeaves(t.kids[i], h - 1);
      }
    }
  }

  lemma KidInRow<R, V>(a: seq<R>, t: Tree<R, V>, b: seq<R>, i: nat)
    requires t.Inner? && i < |t.kids|
    ensures a + Leaves(t) + b ==
            (a + RowLeaves(t.kids[..i])) + Leaves(t.kids[i]) + (RowLeaves(t.kids[i + 1..]) + b)
  {
    hide RowLeaves;
    RowLeavesSplit(t.kids, i);
  }

  /** The outermost leaves of a node at level 0 or 1. */
  lemma EndLeaves<R, V>(t: Tree<R, V>, h: nat)
    requires Shaped(t, h) && h <= 1
    ensures h == 0 ==> Leaves(t) == [t.r]
    ensures h == 1 ==>
              var s := Leaves(t);
              t.Inner? && |s| > 0 && s[0] == FirstKid(t) && s[|s| - 1] == LastKid(t)
  {
    if h == 1 {
      hide RowLeaves;
      var n := |t.kids|;
      RowLeavesSplit(t.kids, 0);
      RowLeavesSplit(t.kids, n - 1);
      assert t.kids[..0] == [] && t.kids[n..] == [];
      NoLeaves<R, V>();
    }
  }

  lemma NoLeaves<R, V>()
    ensures RowLeaves<R, V>([]) == []
  {
  }

  // ------------------------------------------------------------------ node counts

  /** How many leaves and inner nodes `verify_node` counts. */
  function CountLeaves<R, V>(t: Tree<R, V>): nat {
    match t
    case Leaf(_, _) => 1
    case Inner(_, _, kids) => CountRowLeaves(kids)
  }

  function CountRowLeaves<R, V>(kids: seq<Tree<R, V>>): nat {
    if kids == [] then 0 else CountLeaves(kids[0]) + CountRowLeaves(kids[1..])
  }

  function CountInner<R, V>(t: Tree<R, V>): nat {
    match t
    case Leaf(_, _) => 0
    case Inner(_, _, kids) => 1 + CountRowInner(kids)
  }

  function CountRowInner<R, V>(kids: seq<Tree<R, V>>): nat {
    if kids == [] then 0 else CountInner(kids[0]) + CountRowInner(kids[1..])
  }

  lemma {:induction false} Counted<R, V>(t: Tree<R, V>)
    ensures CountLeaves(t) == |Leaves(t)| && CountLeaves(t) + CountInner(t) == |Refs(t)|
    decreases t, 0
  {
    if t.Inner? {
      RowCounted(t.kids);
      assert |multiset{t.r} + RowRefs(t.kids)| == 1 + |RowRefs(t.kids)|;
    }
  }

  lemma {:induction false} RowCounted<R, V>(kids: seq<Tree<R, V>>)
    ensures CountRowLeaves(kids) == |RowLeaves(kids)|
    ensures CountRowLeaves(kids) + CountRowInner(kids) == |RowRefs(kids)|
    decreases kids, 1
  {
    if kids != [] {
      Counted(kids[0]);
      RowCounted(kids[1..]);
      assert |Refs(kids[0]) + RowRefs(kids[1..])| == |Refs(kids[0])| + |RowRefs(kids[1..])|;
    }
  }

  /** The counts kept in the tree object are those that `verify_node` counts. */
  lemma CountsAgree<R, V>(t: Tree<R, V>, ns: set<R>)
    requires Refs(t) == multiset(ns)
    ensures CountLeaves(t) == |Leaves(t)| && CountInner(t) == |ns| - |Leaves(t)|
  {
    Counted(t);
    assert |multiset(ns)| == |ns|;
  }
}
