/** What the changes that a deletion makes in the heap mean for the trees that the heap stands for. */
module BTreeHeapErase {
  import opened Options
  import opened Sorted
  import opened BTree
  import opened BTreeSearch
  import opened BTreeRefs
  import opened BTreeErase
  import opened BTreeNode
  import opened BTreeHeap
  import opened BTreeHeapInsert
  import opened BTreeRepair
  import opened BTreeEraseProof

  /** The node of `t` itself, without the trees below it. */
  ghost predicate Says<V(0)>(m: Mem<V>, t: NTree<V>, h: nat) {
    && t.r in m
    && match t
       case Leaf(r, items) => h == 0 && m[r] == LeafOf(items)
       case Inner(r, keys, kids) =>
         h > 0 && m[r].InnerCell? && m[r].level == h && m[r].keys == keys && (kids != [] ==> m[r].kids == KidRefs(kids))
  }

  lemma RepIs<V(0)>(m: Mem<V>, t: NTree<V>, h: nat)
    ensures Rep(m, t, h) <==> Says(m, t, h) && (t.Inner? ==> RowRep(m, t.kids, h - 1))
  {
  }

  /** Of the nodes in `ns`, only `x`, `y` and `z` may say something else. */
  ghost predicate ChangedAt<V(0)>(m: Mem<V>, m': Mem<V>, ns: set<Node<V>>, x: Node<V>, y: Node<V>, z: Node<V>) {
    forall r :: r in ns ==> r in m && r in m' && (r != x && r != y && r != z ==> m'[r] == m[r])
  }

  // ----------------------------------------------------- two siblings

  /** Two siblings `a` and `b` and what became of them: the same nodes, with the same trees below the two together. */
  ghost predicate SameParts<R, V>(a: Tree<R, V>, b: Tree<R, V>, s: (Tree<R, V>, Key, Tree<R, V>)) {
    && s.0.r == a.r && s.2.r == b.r
    && (a.Leaf? <==> b.Leaf?) && (a.Leaf? <==> s.0.Leaf?) && (a.Leaf? <==> s.2.Leaf?)
    && (a.Inner? ==> s.0.kids + s.2.kids == a.kids + b.kids)
  }

  lemma PartsRefs<R, V>(a: Tree<R, V>, b: Tree<R, V>, s: (Tree<R, V>, Key, Tree<R, V>))
    requires SameParts(a, b, s)
    ensures Refs(s.0) + Refs(s.2) == Refs(a) + Refs(b)
    ensures Leaves(s.0) + Leaves(s.2) == Leaves(a) + Leaves(b)
  {
    if a.Inner? {
      RowRefsConcat(a.kids, b.kids);
      RowRefsConcat(s.0.kids, s.2.kids);
      RowLeavesConcat(a.kids, b.kids);
      RowLeavesConcat(s.0.kids, s.2.kids);
      NodeRefs(a);
      NodeRefs(b);
      NodeRefs(s.0);
      NodeRefs(s.2);
      PairSum(a.r, b.r, RowRefs(a.kids), RowRefs(b.kids), RowRefs(s.0.kids), RowRefs(s.2.kids));
    }
  }

  lemma PairSum<R>(x: R, y: R, a: multiset<R>, b: multiset<R>, c: multiset<R>, d: multiset<R>)
    requires a + b == c + d
    ensures (multiset{x} + a) + (multiset{y} + b) == (multiset{x} + c) + (multiset{y} + d)
  {
    assert (multiset{x} + a) + (multiset{y} + b) == multiset{x} + multiset{y} + (a + b);
    assert (multiset{x} + c) + (multiset{y} + d) == multiset{x} + multiset{y} + (c + d);
  }

  /** The trees below two siblings are untouched by changes of the two and of their parent. */
  lemma BelowPair<V(0)>(m: Mem<V>, m': Mem<V>, ns: set<Node<V>>, t: NTree<V>, h: nat, i: nat)
    requires Owned(m, ns, t, h) && t.Inner? && i + 1 < |t.kids|
    requires ChangedAt(m, m', ns, t.r, t.kids[i].r, t.kids[i + 1].r)
    requires t.kids[i].Inner? && t.kids[i + 1].Inner?
    ensures h > 1 && RowRep(m', t.kids[i].kids + t.kids[i + 1].kids, h - 2)
  {
    hide Refs, RowRefs, Distinct, Rep, RowRep;
    var a, b := t.kids[i], t.kids[i + 1];
    KidOwned(m, ns, t, h, i);
    KidOwned(m, ns, t, h, i + 1);
    RowDistinct(t);
    Apart(t.kids, i, i + 1);
    RowDistinct(a);
    RowDistinct(b);
    NodeRefs(a);
    NodeRefs(b);
    RepIs(m, a, h - 1);
    RepIs(m, b, h - 1);
    RowFrame(m, m', a.kids, h - 2);
    RowFrame(m, m', b.kids, h - 2);
    JoinRep(m', a.kids, b.kids, h - 2);
  }

  lemma JoinRep<V(0)>(m: Mem<V>, a: seq<NTree<V>>, b: seq<NTree<V>>, h: nat)
    requires RowRep(m, a, h) && RowRep(m, b, h)
    ensures RowRep(m, a + b, h)
  {
    hide Rep;
  }

  lemma OwnRef<R, V>(t: Tree<R, V>)
    ensures t.r in Refs(t)
  {
  }

  lemma TripleRep<V(0)>(m: Mem<V>, x: NTree<V>, y: NTree<V>, h: nat)
    requires Says(m, x, h) && Says(m, y, h)
    requires x.Inner? ==> y.Inner? && RowRep(m, x.kids + y.kids, h - 1)
    requires x.Leaf? ==> y.Leaf?
    ensures RowRep(m, [x, y], h)
  {
    if x.Inner? {
      RowRepParts(m, x.kids, y.kids, h - 1);
    }
    RepIs(m, x, h);
    RepIs(m, y, h);
    hide Rep, Says;
  }

  /** The other children of a node are untouched as well. */
  lemma OthersRep<V(0)>(m: Mem<V>, m': Mem<V>, ns: set<Node<V>>, t: NTree<V>, h: nat, i: nat, j: nat)
    requires Owned(m, ns, t, h) && t.Inner? && i + 1 < |t.kids| && j < |t.kids| && j != i && j != i + 1
    requires ChangedAt(m, m', ns, t.r, t.kids[i].r, t.kids[i + 1].r)
    ensures h > 0 && Rep(m', t.kids[j], h - 1)
  {
    hide Refs, RowRefs, Distinct, Rep;
    KidOwned(m, ns, t, h, j);
    RowDistinct(t);
    OwnRef(t.kids[i]);
    OwnRef(t.kids[i + 1]);
    if j < i {
      Apart(t.kids, j, i);
      Apart(t.kids, j, i + 1);
    } else {
      Apart(t.kids, i, j);
      Apart(t.kids, i + 1, j);
    }
    Frame(m, m', t.kids[j], h - 1);
  }

  /** A repaired pair of siblings, put back under its parent. */
  lemma PairRep<V(0)>(m: Mem<V>, m': Mem<V>, ns: set<Node<V>>, t: NTree<V>, h: nat, i: nat,
                      s: (NTree<V>, Key, NTree<V>))
    requires Owned(m, ns, t, h) && t.Inner? && |t.kids| == |t.keys| + 1 && i < |t.keys|
    requires ChangedAt(m, m', ns, t.r, t.kids[i].r, t.kids[i + 1].r)
    requires SameParts(t.kids[i], t.kids[i + 1], s) && h > 0 && Says(m', s.0, h - 1) && Says(m', s.2, h - 1)
    requires t.r in m' && m'[t.r] == InnerCell(h, t.keys[i := s.1], KidRefs(t.kids))
    ensures Rep(m', SetPair(t, i, s), h)
  {
    var t' := SetPair(t, i, s);
    if t.kids[i].Inner? {
      BelowPair(m, m', ns, t, h, i);
    }
    TripleRep(m', s.0, s.2, h - 1);
    forall j | 0 <= j < |t'.kids|
      ensures Rep(m', t'.kids[j], h - 1)
    {
      hide Rep, Says, SameParts, Owned, ChangedAt;
      if j == i {
        assert [s.0, s.2][0] == s.0;
      } else if j == i + 1 {
        assert [s.0, s.2][1] == s.2;
      } else {
        OthersRep(m, m', ns, t, h, i, j);
      }
    }
    assert KidRefs(t'.kids) == KidRefs(t.kids);
  }

  lemma SetPairRefs<R, V>(t: Tree<R, V>, i: nat, s: (Tree<R, V>, Key, Tree<R, V>))
    requires t.Inner? && |t.kids| == |t.keys| + 1 && i < |t.keys| && SameParts(t.kids[i], t.kids[i + 1], s)
    ensures Refs(SetPair(t, i, s)) == Refs(t) && Leaves(SetPair(t, i, s)) == Leaves(t)
  {
    PartsRefs(t.kids[i], t.kids[i + 1], s);
    var t' := SetPair(t, i, s);
    var x, y := t.kids[..i], t.kids[i + 2..];
    hide Refs, RowRefs, Leaves, RowLeaves, SameParts;
    RowOfFour(t.kids, i);
    RowOfFour(t'.kids, i);
    assert t'.kids[..i] == x && t'.kids[i + 2..] == y;
    NodeAndRow(t);
    NodeAndRow(t');
  }

  lemma NodeAndRow<R, V>(t: Tree<R, V>)
    requires t.Inner?
    ensures Refs(t) == multiset{t.r} + RowRefs(t.kids) && Leaves(t) == RowLeaves(t.kids)
  {
  }

  lemma RowOfFour<R, V>(kids: seq<Tree<R, V>>, i: nat)
    requires i + 1 < |kids|
    ensures RowRefs(kids) == RowRefs(kids[..i]) + (Refs(kids[i]) + Refs(kids[i + 1])) + RowRefs(kids[i + 2..])
    ensures RowLeaves(kids) == RowLeaves(kids[..i]) + (Leaves(kids[i]) + Leaves(kids[i + 1])) + RowLeaves(kids[i + 2..])
  {
    hide Refs, Leaves;
    RowRefsSplit(kids, i);
    RowLeavesSplit(kids, i);
    var right := kids[i + 1..];
    assert right[0] == kids[i + 1] && right[1..] == kids[i + 2..];
    SumMiddle(RowRefs(kids[..i]), Refs(kids[i]), Refs(kids[i + 1]), RowRefs(kids[i + 2..]));
    SeqMiddle(RowLeaves(kids[..i]), Leaves(kids[i]), Leaves(kids[i + 1]), RowLeaves(kids[i + 2..]));
  }

  lemma SumMiddle<R>(a: multiset<R>, b: multiset<R>, c: multiset<R>, d: multiset<R>)
    ensures a + b + (c + d) == a + (b + c) + d
  {
  }

  lemma SeqMiddle<R>(a: seq<R>, b: seq<R>, c: seq<R>, d: seq<R>)
    ensures a + b + (c + d) == a + (b + c) + d
  {
  }

  // --------------------------------------------------------- the four repairs

  function Triple<R, V>(action: Action, a: Tree<R, V>, sep: Key, b: Tree<R, V>): (Tree<R, V>, Key, Tree<R, V>)
    requires a.Leaf? <==> b.Leaf?
    requires action.ShiftLeft? ==> 1 <= a.Use() && a.Use() + 2 <= b.Use() && (b.Inner? ==> |b.kids| == |b.keys| + 1)
    requires action.ShiftRight? ==> 1 <= b.Use() && b.Use() + 2 <= a.Use() && (a.Inner? ==> |a.kids| == |a.keys| + 1)
  {
    match action
    case ShiftLeft => TakeFromRight(a, sep, b)
    case ShiftRight => TakeFromLeft(a, sep, b)
    case _ => (Merge(a, sep, b), sep, Emptied(b))
  }

  lemma ApplyIsTriple<R, V>(t: Tree<R, V>, slot: nat, action: Action)
    requires CanApply(t, slot, action)
    ensures var i := PairAt(action, slot);
            && Apply(t, slot, action) == SetPair(t, i, Triple(action, t.kids[i], t.keys[i], t.kids[i + 1]))
            && SameParts(t.kids[i], t.kids[i + 1], Triple(action, t.kids[i], t.keys[i], t.kids[i + 1]))
  {
    var i := PairAt(action, slot);
    var a, b := t.kids[i], t.kids[i + 1];
    if a.Inner? {
      match action
      case ShiftLeft =>
        assert b.kids == b.kids[..ShiftCount(b.Use(), a.Use())] + b.kids[ShiftCount(b.Use(), a.Use())..];
      case ShiftRight =>
        assert a.kids == a.kids[..a.Use() - ShiftCount(a.Use(), b.Use()) + 1]
               + a.kids[a.Use() - ShiftCount(a.Use(), b.Use()) + 1..];
      case _ =>
    }
  }

  lemma JoinDatas<V>(x: seq<Item<V>>, y: seq<Item<V>>)
    ensures Keys(x + y) == Keys(x) + Keys(y) && Datas(x + y) == Datas(x) + Datas(y)
  {
  }

  lemma JoinRefs<V(0)>(x: seq<NTree<V>>, y: seq<NTree<V>>)
    ensures KidRefs(x + y) == KidRefs(x) + KidRefs(y)
  {
  }

  lemma CutRefs<V(0)>(x: seq<NTree<V>>, n: nat)
    requires n <= |x|
    ensures KidRefs(x[..n]) == KidRefs(x)[..n] && KidRefs(x[n..]) == KidRefs(x)[n..]
  {
  }

  /** What the node of `t` says. */
  ghost function CellOf<V(0)>(t: NTree<V>, h: nat): Cell<V> {
    if t.Leaf? then LeafOf(t.items) else InnerCell(h, t.keys, KidRefs(t.kids))
  }

  /** The heap after a repair that changed two siblings and the separator between them. */
  ghost function Three<V(0)>(m: Mem<V>, left: Node<V>, c: Cell<V>, right: Node<V>, d: Cell<V>, parent: Node<V>,
                             q: Cell<V>): Mem<V> {
    Put(Both(m, left, c, right, d), parent, q)
  }

  lemma ThirdIs<V(0)>(m: Mem<V>, left: Node<V>, c: Cell<V>, right: Node<V>, d: Cell<V>, parent: Node<V>, q: Cell<V>)
    requires parent in m && parent != left && parent != right
    ensures var m1 := Both(m, left, c, right, d);
            parent in m1 && m1[parent] == m[parent] && Three(m, left, c, right, d, parent, q) == Put(m1, parent, q)
  {
  }

  lemma MergedCells<V(0)>(a: NTree<V>, sep: Key, b: NTree<V>, h: nat)
    requires a.Inner? && b.Inner?
    ensures CellOf(Merge(a, sep, b), h) == InnerCell(h, a.keys + [sep] + b.keys, KidRefs(a.kids) + KidRefs(b.kids))
  {
    hide KidRefs;
    JoinRefs(a.kids, b.kids);
  }

  lemma ShiftedLeftCells<V(0)>(a: NTree<V>, sep: Key, b: NTree<V>, h: nat)
    requires a.Inner? && b.Inner? && 1 <= a.Use() && a.Use() + 2 <= b.Use() && |b.kids| == |b.keys| + 1
    ensures var s, n := TakeFromRight(a, sep, b), ShiftCount(b.Use(), a.Use());
            && 0 < n < b.Use() && s.1 == b.keys[n - 1]
            && CellOf(s.0, h) == InnerCell(h, a.keys + [sep] + b.keys[..n - 1], KidRefs(a.kids) + KidRefs(b.kids)[..n])
            && CellOf(s.2, h) == InnerCell(h, b.keys[n..], KidRefs(b.kids)[n..])
  {
    hide KidRefs;
    var n := ShiftCount(b.Use(), a.Use());
    CutRefs(b.kids, n);
    JoinRefs(a.kids, b.kids[..n]);
  }

  lemma ShiftedRightCells<V(0)>(a: NTree<V>, sep: Key, b: NTree<V>, h: nat)
    requires a.Inner? && b.Inner? && 1 <= b.Use() && b.Use() + 2 <= a.Use() && |a.kids| == |a.keys| + 1
    ensures var s, n := TakeFromLeft(a, sep, b), ShiftCount(a.Use(), b.Use());
            var m := a.Use() - n;
            && 0 < n < a.Use() && s.1 == a.keys[m]
            && CellOf(s.0, h) == InnerCell(h, a.keys[..m], KidRefs(a.kids)[..m + 1])
            && CellOf(s.2, h) == InnerCell(h, a.keys[m + 1..] + [sep] + b.keys,
                                           KidRefs(a.kids)[m + 1..] + KidRefs(b.kids))
  {
    hide KidRefs;
    var m := a.Use() - ShiftCount(a.Use(), b.Use());
    CutRefs(a.kids, m + 1);
    JoinRefs(a.kids[m + 1..], b.kids);
  }

  lemma ShiftedLeftPairs<V(0)>(a: NTree<V>, sep: Key, b: NTree<V>)
    requires a.Leaf? && b.Leaf? && 1 <= a.Use() && a.Use() + 2 <= b.Use()
    ensures var s, n := TakeFromRight(a, sep, b), ShiftCount(b.Use(), a.Use());
            && 0 < n < b.Use() && s.1 == b.items[n - 1].key
            && CellOf(s.0, 0) == LeafCell(Keys(a.items) + Keys(b.items)[..n], Datas(a.items) + Datas(b.items)[..n])
            && CellOf(s.2, 0) == LeafCell(Keys(b.items)[n..], Datas(b.items)[n..])
            && s.0.Leaf? && s.2.Leaf? && s.0.items != [] && s.1 == Keys(s.0.items)[|s.0.items| - 1]
  {
    hide Keys, Datas;
    var n := ShiftCount(b.Use(), a.Use());
    CutPairs(b.items, n);
    JoinDatas(a.items, b.items[..n]);
    KeysAt(a.items + b.items[..n]);
  }

  lemma ShiftedRightPairs<V(0)>(a: NTree<V>, sep: Key, b: NTree<V>)
    requires a.Leaf? && b.Leaf? && 1 <= b.Use() && b.Use() + 2 <= a.Use()
    ensures var s, n := TakeFromLeft(a, sep, b), ShiftCount(a.Use(), b.Use());
            var m := a.Use() - n;
            && 0 < n < a.Use() && s.1 == a.items[m - 1].key
            && CellOf(s.0, 0) == LeafCell(Keys(a.items)[..m], Datas(a.items)[..m])
            && CellOf(s.2, 0) == LeafCell(Keys(a.items)[m..] + Keys(b.items), Datas(a.items)[m..] + Datas(b.items))
            && s.0.Leaf? && s.2.Leaf? && s.0.items != [] && s.1 == Keys(s.0.items)[|s.0.items| - 1]
  {
    hide Keys, Datas;
    var m := a.Use() - ShiftCount(a.Use(), b.Use());
    CutPairs(a.items, m);
    JoinDatas(a.items[m..], b.items);
    KeysAt(a.items[..m]);
  }

  // ------------------------------------------ what a repair means for the parent

  lemma CellSays<V(0)>(m: Mem<V>, t: NTree<V>, h: nat)
    requires t.r in m && m[t.r] == CellOf(t, h) && (t.Leaf? <==> h == 0)
    ensures Says(m, t, h)
  {
  }

  lemma SaysCell<V(0)>(m: Mem<V>, t: NTree<V>, h: nat)
    requires Rep(m, t, h) && (t.Inner? ==> t.kids != [])
    ensures t.r in m && m[t.r] == CellOf(t, h) && (t.Leaf? <==> h == 0)
  {
  }

  /** The two siblings at `i` and their parent are three different nodes. */
  lemma ThreeNodes<V(0)>(m: Mem<V>, ns: set<Node<V>>, t: NTree<V>, h: nat, i: nat)
    requires Owned(m, ns, t, h) && t.Inner? && i + 1 < |t.kids|
    ensures var a, b := t.kids[i], t.kids[i + 1];
            && a.r != b.r && a.r != t.r && b.r != t.r && a.r in ns && b.r in ns && t.r in ns
            && a.r in Refs(t) && b.r in Refs(t) && t.r in Refs(t)
            && h > 0 && Rep(m, a, h - 1) && Rep(m, b, h - 1)
            && t.r in m && m[t.r] == InnerCell(h, t.keys, KidRefs(t.kids))
  {
    hide Refs, RowRefs, Distinct, KidRefs;
    KidOwned(m, ns, t, h, i);
    KidOwned(m, ns, t, h, i + 1);
    RowDistinct(t);
    Apart(t.kids, i, i + 1);
    OwnRef(t.kids[i]);
    OwnRef(t.kids[i + 1]);
    OwnRef(t);
    OwnedCell(m, ns, t, h);
  }

  lemma ShiftDone<V(0)>(m: Mem<V>, ns: set<Node<V>>, t: NTree<V>, h: nat, i: nat, s: (NTree<V>, Key, NTree<V>))
    requires Owned(m, ns, t, h) && ns <= m.Keys && t.Inner? && |t.kids| == |t.keys| + 1 && i < |t.keys|
    requires SameParts(t.kids[i], t.kids[i + 1], s)
    ensures h > 0
    ensures var m' := Three(m, t.kids[i].r, CellOf(s.0, h - 1), t.kids[i + 1].r, CellOf(s.2, h - 1),
                            t.r, InnerCell(h, t.keys[i := s.1], KidRefs(t.kids)));
            && Rep(m', SetPair(t, i, s), h) && Refs(SetPair(t, i, s)) == Refs(t)
            && Leaves(SetPair(t, i, s)) == Leaves(t)
            && Outside(m, m', ns, Refs(t))
  {
    hide Refs, Leaves, KidRefs, CellOf, Rep;
    ThreeNodes(m, ns, t, h, i);
    SetPairRefs(t, i, s);
    Levels(m, t.kids[i], h - 1);
    var m' := Three(m, t.kids[i].r, CellOf(s.0, h - 1), t.kids[i + 1].r, CellOf(s.2, h - 1),
                    t.r, InnerCell(h, t.keys[i := s.1], KidRefs(t.kids)));
    CellSays(m', s.0, h - 1);
    CellSays(m', s.2, h - 1);
    PairRep(m, m', ns, t, h, i, s);
  }

  lemma Levels<V(0)>(m: Mem<V>, t: NTree<V>, h: nat)
    requires Rep(m, t, h)
    ensures t.Leaf? <==> h == 0
  {
  }

  lemma MergeDone<V(0)>(m: Mem<V>, ns: set<Node<V>>, t: NTree<V>, h: nat, i: nat, stale: seq<Node?<V>>)
    requires Owned(m, ns, t, h) && ns <= m.Keys && t.Inner? && |t.kids| == |t.keys| + 1 && i < |t.keys|
    requires t.kids[i].Leaf? <==> t.kids[i + 1].Leaf?
    ensures h > 0
    ensures var a, sep, b := t.kids[i], t.keys[i], t.kids[i + 1];
            var s := (Merge(a, sep, b), sep, Emptied(b));
            var m' := Both(m, a.r, CellOf(s.0, h - 1), b.r,
                           if b.Leaf? then LeafOf([]) else InnerCell(h - 1, [], stale));
            && Rep(m', SetPair(t, i, s), h) && Refs(SetPair(t, i, s)) == Refs(t)
            && Leaves(SetPair(t, i, s)) == Leaves(t)
            && Outside(m, m', ns, Refs(t))
  {
    hide Refs, Leaves, KidRefs, CellOf, Rep, LeafOf;
    var a, sep, b := t.kids[i], t.keys[i], t.kids[i + 1];
    var s := (Merge(a, sep, b), sep, Emptied(b));
    ThreeNodes(m, ns, t, h, i);
    SetPairRefs(t, i, s);
    Levels(m, a, h - 1);
    var m' := Both(m, a.r, CellOf(s.0, h - 1), b.r, if b.Leaf? then LeafOf([]) else InnerCell(h - 1, [], stale));
    CellSays(m', s.0, h - 1);
    assert t.keys[i := s.1] == t.keys;
    PairRep(m, m', ns, t, h, i, s);
  }

  /** The child that `DropEmptied` takes away. */
  function DropIndex<R, V>(t: Tree<R, V>, slot: nat): nat
    requires CanDrop(t, slot)
  {
    if t.kids[slot].Use() != 0 then slot + 1 else slot
  }

  predicate Hollow<R, V>(t: Tree<R, V>) {
    t.Use() == 0 && (t.Inner? ==> t.kids == [])
  }

  /** What a deletion below `t` did to the heap and to the chain of leaves, and which nodes were freed. */
  datatype Removal<V(0)> = Removal(mem: Mem<V>, links: Links<V>, freed: set<Node<V>>)

  /** The node `o.t` stands in the heap where `t` was; a child that a merge emptied is not in the chain any more. */
  ghost predicate Removed<V(0)>(m: Mem<V>, ns: set<Node<V>>, t: NTree<V>, h: nat, slot: nat,
                                a: seq<Node<V>>, b: seq<Node<V>>, o: Outcome<Node<V>, V>, r: Removal<V>)
  {
    && o.Erased? && o.t.Inner? && o.t.r == t.r
    && (o.merged ==> CanDrop(o.t, slot) && Hollow(o.t.kids[DropIndex(o.t, slot)]))
    && Rep(r.mem, o.t, h) && Refs(o.t) + multiset(r.freed) == Refs(t)
    && Kept(m, r.mem, ns, Refs(t))
    && Chain(r.links, a + Leaves(Settle(o, slot)) + b)
  }

  /** Child `slot` lost a pair and is one slot short now; the neighbours that are siblings are at hand. */
  ghost predicate Underfull<R, V>(p: Params, t: Tree<R, V>, h: nat, slot: nat, tl: Option<Tree<R, V>>,
                                  tr: Option<Tree<R, V>>) {
    && t.Inner? && |t.keys| >= 1 && Exact(t.keys, t.kids) && slot < |t.kids|
    && AllValidBut(p, t.kids, h, slot) && Short(p, t.kids[slot], h)
    && t.kids[slot].Use() + 1 == t.kids[slot].Min(p)
    && (slot > 0 ==> tl == Some(t.kids[slot - 1]))
    && (slot < |t.keys| ==> tr == Some(t.kids[slot + 1]))
  }

  function Chosen<R, V>(p: Params, t: Tree<R, V>, slot: nat, tl: Option<Tree<R, V>>, tr: Option<Tree<R, V>>): Action
    requires t.Inner? && slot < |t.kids|
    requires slot > 0 ==> tl.Some?
    requires slot < |t.kids| - 1 ==> tr.Some?
  {
    Choose(t.kids[slot].Min(p), Uses(tl), Uses(tr), slot > 0, slot < |t.kids| - 1)
  }

  /** Whatever is chosen can be carried out, and then is the outcome of the repair. */
  lemma ChosenApplies<R, V>(p: Params, t: Tree<R, V>, h: nat, slot: nat, tl: Option<Tree<R, V>>, tr: Option<Tree<R, V>>,
                            last: Option<Key>)
    requires Underfull(p, t, h, slot, tl, tr)
    ensures var action := Chosen(p, t, slot, tl, tr);
            var i := PairAt(action, slot);
            && CanApply(t, slot, action) && 0 <= i < |t.keys| && i <= slot <= i + 1
            && (action.MergeLeft? || action.ShiftRight? <==> i + 1 == slot)
            && Repair(p, t, slot, tl, tr, last) ==
               Outcome.Erased(Apply(t, slot, action), last, action.MergeLeft? || action.MergeRight?)
            && (action.MergeLeft? || action.MergeRight? ==> t.kids[i].Use() + t.kids[i + 1].Use() < t.kids[slot].Max(p))
            && (t.kids[i].Leaf? <==> t.kids[i + 1].Leaf?)
  {
    hide Below, MaxKey, Apply;
    assert Below(p, t.kids[slot], h);
    ChooseSound(p, t, h, slot, tl, tr);
  }

  /** The parent `t` right after children `i` and `i + 1` were merged. */
  function MergedAt<R, V>(t: Tree<R, V>, i: nat): Tree<R, V>
    requires t.Inner? && |t.kids| == |t.keys| + 1 && i < |t.keys| && (t.kids[i].Leaf? <==> t.kids[i + 1].Leaf?)
  {
    SetPair(t, i, (Merge(t.kids[i], t.keys[i], t.kids[i + 1]), t.keys[i], Emptied(t.kids[i + 1])))
  }

  /** The emptied sibling is the one to be dropped, and the row then is the old one with two children joined. */
  ghost predicate Drops<R, V>(t: Tree<R, V>, i: nat, slot: nat) {
    && t.Inner? && |t.kids| == |t.keys| + 1 && i < |t.keys| && (t.kids[i].Leaf? <==> t.kids[i + 1].Leaf?)
    && CanDrop(MergedAt(t, i), slot) && DropIndex(MergedAt(t, i), slot) == i + 1 && Hollow(MergedAt(t, i).kids[i + 1])
    && DropEmptied(MergedAt(t, i), slot).kids ==
       RemoveAt(t.kids[i := Merge(t.kids[i], t.keys[i], t.kids[i + 1])], i + 1)
  }

  lemma MergedRow<R, V>(p: Params, t: Tree<R, V>, h: nat, slot: nat, tl: Option<Tree<R, V>>, tr: Option<Tree<R, V>>)
    requires Underfull(p, t, h, slot, tl, tr)
    requires var action := Chosen(p, t, slot, tl, tr); action.MergeLeft? || action.MergeRight?
    ensures var i := PairAt(Chosen(p, t, slot, tl, tr), slot);
            0 <= i && Drops(t, i, slot)
              && forall last :: Repair(p, t, slot, tl, tr, last) == Outcome.Erased(MergedAt(t, i), last, true)
  {
    hide Below, MaxKey, Flat, Contents, RemoveAt;
    var action := Chosen(p, t, slot, tl, tr);
    var i := PairAt(action, slot);
    ChosenApplies(p, t, h, slot, tl, tr, None);
    ChooseSoundMerge(p, t, h, slot, tl, tr);
    var a, sep, b := t.kids[i], t.keys[i], t.kids[i + 1];
    MergeCorrect(p, a, sep, b, h);
    DropAfterMerge(p, t, h, slot, i, Merge(a, sep, b), Emptied(b));
  }

  lemma ChooseSoundMerge<R, V>(p: Params, t: Tree<R, V>, h: nat, slot: nat, tl: Option<Tree<R, V>>,
                               tr: Option<Tree<R, V>>)
    requires Underfull(p, t, h, slot, tl, tr)
    requires var action := Chosen(p, t, slot, tl, tr); action.MergeLeft? || action.MergeRight?
    ensures var i := PairAt(Chosen(p, t, slot, tl, tr), slot);
            && 0 <= i < |t.keys|
            && Pair(p, t.kids[i], t.keys[i], t.kids[i + 1], h)
            && t.kids[i].Use() + t.kids[i + 1].Use() < t.kids[i].Max(p)
            && t.kids[i].Min(p) <= t.kids[i].Use() + t.kids[i + 1].Use()
  {
    hide MaxKey;
    ChooseSound(p, t, h, slot, tl, tr);
  }

  lemma NoneFreed<R>(m: multiset<R>)
    ensures m + multiset({}) == m
  {
  }

  /** A shift, carried out. */
  lemma ShiftRemoved<V(0)>(m: Mem<V>, l: Links<V>, ns: set<Node<V>>, t: NTree<V>, h: nat, slot: nat, i: nat,
                           s: (NTree<V>, Key, NTree<V>),
                           last: Option<Key>, a: seq<Node<V>>, b: seq<Node<V>>)
    requires Owned(m, ns, t, h) && ns <= m.Keys && h > 0 && Chain(l, a + Leaves(t) + b)
    requires t.Inner? && |t.kids| == |t.keys| + 1 && i < |t.keys| && SameParts(t.kids[i], t.kids[i + 1], s)
    ensures var m' := Three(m, t.kids[i].r, CellOf(s.0, h - 1), t.kids[i + 1].r, CellOf(s.2, h - 1),
                            t.r, InnerCell(h, t.keys[i := s.1], KidRefs(t.kids)));
            Removed(m, ns, t, h, slot, a, b, Outcome.Erased(SetPair(t, i, s), last, false), Removal(m', l, {}))
  {
    hide Refs, Leaves, KidRefs, CellOf, Rep, Chain, Three, Distinct, SameParts;
    ShiftDone(m, ns, t, h, i, s);
    NoneFreed(Refs(t));
  }

  /** The leaves of a row in which two children were joined. */
  lemma JoinedLeaves<R, V>(kids: seq<Tree<R, V>>, i: nat, x: Tree<R, V>)
    requires i + 1 < |kids|
    ensures RowLeaves(RemoveAt(kids[i := x], i + 1)) == RowLeaves(kids[..i]) + Leaves(x) + RowLeaves(kids[i + 2..])
  {
    hide Leaves;
    var row := RemoveAt(kids[i := x], i + 1);
    assert row == kids[..i] + [x] + kids[i + 2..];
    hide RowLeaves;
    RowLeavesConcat(kids[..i] + [x], kids[i + 2..]);
    RowLeavesConcat(kids[..i], [x]);
    RowLeavesOne(x);
  }

  /** A merge of two inner nodes, carried out. */
  lemma MergeInnerRemoved<V(0)>(m: Mem<V>, l: Links<V>, ns: set<Node<V>>, t: NTree<V>, h: nat, slot: nat, i: nat,
                                last: Option<Key>, a: seq<Node<V>>, b: seq<Node<V>>, stale: seq<Node?<V>>)
    requires Owned(m, ns, t, h) && ns <= m.Keys && h > 0 && Chain(l, a + Leaves(t) + b)
    requires Drops(t, i, slot) && t.kids[i].Inner?
    ensures var x, sep, y := t.kids[i], t.keys[i], t.kids[i + 1];
            var m' := Both(m, x.r, CellOf(Merge(x, sep, y), h - 1), y.r, InnerCell(h - 1, [], stale));
            Removed(m, ns, t, h, slot, a, b, Outcome.Erased(MergedAt(t, i), last, true), Removal(m', l, {}))
  {
    hide Refs, Leaves, KidRefs, CellOf, Rep, Chain, Both, Distinct, RowLeaves, Merge, Emptied, RemoveAt, DropEmptied,
         CanDrop, Hollow, DropIndex;
    MergeDone(m, ns, t, h, i, stale);
    NoneFreed(Refs(t));
    JoinedLeaves(t.kids, i, Merge(t.kids[i], t.keys[i], t.kids[i + 1]));
    InnerLeavesJoined(t, i, t.keys[i]);
    DroppedLeaves(MergedAt(t, i), slot);
  }

  /** A merge of two leaves, carried out: the right one is out of the chain. */
  lemma MergeLeavesRemoved<V(0)>(m: Mem<V>, l: Links<V>, ns: set<Node<V>>, t: NTree<V>, h: nat, slot: nat, i: nat,
                                 last: Option<Key>, a: seq<Node<V>>, b: seq<Node<V>>)
    requires Owned(m, ns, t, h) && ns <= m.Keys && h > 0 && Chain(l, a + Leaves(t) + b)
    requires Drops(t, i, slot) && t.kids[i].Leaf?
    ensures t.kids[i + 1].Leaf? && t.kids[i + 1].r in l.next
    ensures var x, y := t.kids[i], t.kids[i + 1];
            var m' := Both(m, x.r, LeafOf(x.items + y.items), y.r, LeafOf([]));
            Removed(m, ns, t, h, slot, a, b, Outcome.Erased(MergedAt(t, i), last, true),
                    Removal(m', LinkOut(l, x.r, y.r), {}))
  {
    hide Refs, Leaves, KidRefs, Rep, Chain, Both, Distinct, RowLeaves, Emptied, RemoveAt, DropEmptied, CanDrop, Hollow,
         DropIndex, LinkOut;
    MergeDone(m, ns, t, h, i, []);
    NoneFreed(Refs(t));
    var x, y := t.kids[i], t.kids[i + 1];
    var j: NTree<V> := Leaf(x.r, x.items + y.items);
    JoinedLeaves(t.kids, i, j);
    DroppedLeaves(MergedAt(t, i), slot);
    LeavesPair(t, i);
    OneLeafOf(j);
    MergedChain(l, a, RowLeaves(t.kids[..i]), x.r, y.r, RowLeaves(t.kids[i + 2..]), b);
  }

  lemma OneLeafOf<R, V>(t: Tree<R, V>)
    requires t.Leaf?
    ensures Leaves(t) == [t.r]
  {
  }

  lemma LeavesPair<R, V>(t: Tree<R, V>, i: nat)
    requires t.Inner? && i + 1 < |t.kids| && t.kids[i].Leaf? && t.kids[i + 1].Leaf?
    ensures Leaves(t) == RowLeaves(t.kids[..i]) + [t.kids[i].r, t.kids[i + 1].r] + RowLeaves(t.kids[i + 2..])
  {
    RowOfFour(t.kids, i);
    hide RowLeaves, RowRefs;
  }

  lemma MergedChain<V(0)>(l: Links<V>, a: seq<Node<V>>, x: seq<Node<V>>, n: Node<V>, dead: Node<V>, y: seq<Node<V>>,
                          b: seq<Node<V>>)
    requires Chain(l, a + (x + [n, dead] + y) + b)
    ensures dead in l.next && Chain(LinkOut(l, n, dead), a + (x + [n] + y) + b)
  {
    hide Chain, LinkOut;
    var s := a + (x + [n, dead] + y) + b;
    var i := |a| + |x|;
    assert s[i] == n && s[i + 1] == dead;
    ChainLinkOut(l, s, i);
    assert RemoveAt(s, i + 1) == a + (x + [n] + y) + b;
  }

  lemma DroppedLeaves<R, V>(t: Tree<R, V>, slot: nat)
    requires CanDrop(t, slot)
    ensures DropEmptied(t, slot).Inner? && Leaves(DropEmptied(t, slot)) == RowLeaves(DropEmptied(t, slot).kids)
  {
    hide RowLeaves, RemoveAt, MaxKey;
  }

  lemma InnerLeavesJoined<R, V>(t: Tree<R, V>, i: nat, sep: Key)
    requires t.Inner? && i + 1 < |t.kids| && t.kids[i].Inner? && t.kids[i + 1].Inner?
    ensures Leaves(t) == RowLeaves(t.kids[..i]) + Leaves(Merge(t.kids[i], sep, t.kids[i + 1]))
            + RowLeaves(t.kids[i + 2..])
  {
    RowOfFour(t.kids, i);
    RowLeavesConcat(t.kids[i].kids, t.kids[i + 1].kids);
    hide RowLeaves, RowRefs, Refs;
  }

  /** The siblings at `i` and their parent, as the nodes of the heap say it. */
  lemma PairCells<V(0)>(m: Mem<V>, ns: set<Node<V>>, t: NTree<V>, h: nat, i: nat)
    requires Owned(m, ns, t, h) && t.Inner? && i + 1 < |t.kids| && |t.kids| == |t.keys| + 1
    requires t.kids[i].Inner? ==> t.kids[i].kids != []
    requires t.kids[i + 1].Inner? ==> t.kids[i + 1].kids != []
    ensures var x, y := t.kids[i], t.kids[i + 1];
            && x.r != y.r && x.r != t.r && y.r != t.r && x.r in ns && y.r in ns && t.r in ns
            && h > 0 && x.r in m && y.r in m && t.r in m
            && m[x.r] == CellOf(x, h - 1) && m[y.r] == CellOf(y, h - 1)
            && m[t.r] == InnerCell(h, t.keys, KidRefs(t.kids))
            && (x.Leaf? <==> h == 1) && (y.Leaf? <==> h == 1)
  {
    hide Owned, Rep;
    ThreeNodes(m, ns, t, h, i);
    SaysCell(m, t.kids[i], h - 1);
    SaysCell(m, t.kids[i + 1], h - 1);
  }

  lemma NextInChain<V(0)>(l: Links<V>, s: seq<Node<V>>, n: Node<V>, dead: Node<V>, i: nat)
    requires Chain(l, s) && i + 1 < |s| && s[i] == n && s[i + 1] == dead
    ensures dead in l.next && (l.next[dead] != null ==> l.next[dead] in s && l.next[dead] != n)
  {
    assert l.next[dead] == Nth(s, i + 2);
  }

  lemma NextOfRight<V(0)>(l: Links<V>, t: NTree<V>, i: nat, a: seq<Node<V>>, b: seq<Node<V>>)
    requires Chain(l, a + Leaves(t) + b) && t.Inner? && i + 1 < |t.kids| && t.kids[i].Leaf? && t.kids[i + 1].Leaf?
    ensures var n, dead := t.kids[i].r, t.kids[i + 1].r;
            dead in l.next && (l.next[dead] != null ==> l.next[dead] in a + Leaves(t) + b && l.next[dead] != n)
  {
    hide Chain, Leaves;
    LeavesPair(t, i);
    var x, y := RowLeaves(t.kids[..i]), RowLeaves(t.kids[i + 2..]);
    var s := a + (x + [t.kids[i].r, t.kids[i + 1].r] + y) + b;
    hide RowLeaves;
    NextInChain(l, s, t.kids[i].r, t.kids[i + 1].r, |a| + |x|);
  }

  lemma DropsFacts<R, V>(t: Tree<R, V>, i: nat, slot: nat)
    requires Drops(t, i, slot)
    ensures t.Inner? && |t.kids| == |t.keys| + 1 && i < |t.keys| && (t.kids[i].Leaf? <==> t.kids[i + 1].Leaf?)
  {
  }

  lemma LeafCells<V(0)>(t: NTree<V>)
    requires t.Leaf?
    ensures CellOf(t, 0) == LeafOf(t.items) && t.Use() == |t.items|
  {
  }

  /** When pairs or children can be shifted between children `i` and `i + 1`, to the left one or to the right one. */
  predicate Shifts<R, V>(t: Tree<R, V>, i: nat, toLeft: bool) {
    && t.Inner? && |t.kids| == |t.keys| + 1 && i < |t.keys|
    && var a, b := t.kids[i], t.kids[i + 1];
    && (a.Leaf? <==> b.Leaf?)
    && (a.Inner? ==> |a.kids| == |a.keys| + 1) && (b.Inner? ==> |b.kids| == |b.keys| + 1)
    && if toLeft then 1 <= a.Use() && a.Use() + 2 <= b.Use() else 1 <= b.Use() && b.Use() + 2 <= a.Use()
  }

  function ShiftTriple<R, V>(t: Tree<R, V>, i: nat, toLeft: bool): (Tree<R, V>, Key, Tree<R, V>)
    requires Shifts(t, i, toLeft)
  {
    if toLeft then TakeFromRight(t.kids[i], t.keys[i], t.kids[i + 1])
      else TakeFromLeft(t.kids[i], t.keys[i], t.kids[i + 1])
  }

  lemma ShiftParts<R, V>(t: Tree<R, V>, i: nat, toLeft: bool)
    requires Shifts(t, i, toLeft)
    ensures SameParts(t.kids[i], t.kids[i + 1], ShiftTriple(t, i, toLeft))
    ensures ShiftTriple(t, i, toLeft) == if toLeft then TakeFromRight(t.kids[i], t.keys[i], t.kids[i + 1])
                                         else TakeFromLeft(t.kids[i], t.keys[i], t.kids[i + 1])
  {
    var slot, action := if toLeft then i else i + 1, if toLeft then ShiftLeft else ShiftRight;
    ApplyIsTriple(t, slot, action);
  }

  lemma ShiftsFacts<R, V>(t: Tree<R, V>, i: nat, toLeft: bool)
    requires Shifts(t, i, toLeft)
    ensures t.Inner? && |t.kids| == |t.keys| + 1 && i < |t.keys|
    ensures var a, b := t.kids[i], t.kids[i + 1];
            && (a.Leaf? <==> b.Leaf?)
            && (a.Inner? ==> a.kids != [] && |a.kids| == |a.keys| + 1)
            && (b.Inner? ==> b.kids != [] && |b.kids| == |b.keys| + 1)
            && if toLeft then 1 <= a.Use() && a.Use() + 2 <= b.Use() else 1 <= b.Use() && b.Use() + 2 <= a.Use()
  {
  }

  /** What the chosen action is about, and what it needs. */
  lemma ChosenFacts<R, V>(p: Params, t: Tree<R, V>, h: nat, slot: nat, tl: Option<Tree<R, V>>, tr: Option<Tree<R, V>>,
                          last: Option<Key>)
    requires Underfull(p, t, h, slot, tl, tr)
    ensures |t.kids| == |t.keys| + 1 && (slot > 0 ==> tl.Some?) && (slot < |t.keys| ==> tr.Some?)
    ensures var action := Chosen(p, t, slot, tl, tr);
            var i := if action.MergeLeft? || action.ShiftRight? then slot - 1 else slot;
            && 0 <= i < |t.keys|
            && (t.kids[i].Inner? ==> t.kids[i].kids != []) && (t.kids[i + 1].Inner? ==> t.kids[i + 1].kids != [])
            && if action.MergeLeft? || action.MergeRight? then
                 && Drops(t, i, slot) && Repair(p, t, slot, tl, tr, last) == Outcome.Erased(MergedAt(t, i), last, true)
                 && t.kids[i].Use() + t.kids[i + 1].Use() < t.kids[i].Max(p)
               else
                 && Shifts(t, i, action.ShiftLeft?)
                 && Repair(p, t, slot, tl, tr, last) ==
                    Outcome.Erased(SetPair(t, i, ShiftTriple(t, i, action.ShiftLeft?)), last, false)
  {
    hide MaxKey, Drops, TakeFromLeft, TakeFromRight;
    var action := Chosen(p, t, slot, tl, tr);
    ChosenApplies(p, t, h, slot, tl, tr, last);
    KidShapes(p, t, h, slot, tl, tr, PairAt(action, slot));
    KidShapes(p, t, h, slot, tl, tr, PairAt(action, slot) + 1);
    if action.MergeLeft? || action.MergeRight? {
      MergedRow(p, t, h, slot, tl, tr);
    } else {
      ChooseSound(p, t, h, slot, tl, tr);
    }
  }

  lemma KidShapes<R, V>(p: Params, t: Tree<R, V>, h: nat, slot: nat, tl: Option<Tree<R, V>>, tr: Option<Tree<R, V>>,
                        i: nat)
    requires Underfull(p, t, h, slot, tl, tr) && i < |t.kids|
    ensures t.kids[i].Inner? ==> |t.kids[i].kids| == |t.kids[i].keys| + 1
  {
    hide MaxKey;
  }

  /** Child `slot` lost a pair; it may be one slot short now. */
  ghost predicate MayBeShort<R, V>(p: Params, t: Tree<R, V>, h: nat, slot: nat, tl: Option<Tree<R, V>>,
                                   tr: Option<Tree<R, V>>) {
    && t.Inner? && |t.keys| >= 1 && Exact(t.keys, t.kids) && slot < |t.kids|
    && AllValidBut(p, t.kids, h, slot) && Short(p, t.kids[slot], h)
    && (slot > 0 ==> tl == Some(t.kids[slot - 1]))
    && (slot < |t.keys| ==> tr == Some(t.kids[slot + 1]))
  }

  lemma ShortFacts<R, V>(p: Params, t: Tree<R, V>, h: nat, slot: nat, tl: Option<Tree<R, V>>, tr: Option<Tree<R, V>>,
                         last: Option<Key>)
    requires MayBeShort(p, t, h, slot, tl, tr)
    ensures t.Inner? && |t.kids| == |t.keys| + 1 && slot < |t.kids| && |t.keys| >= 1
    ensures (slot > 0 ==> tl.Some? && tl.value.r == t.kids[slot - 1].r)
            && (slot < |t.keys| ==> tr.Some? && tr.value.r == t.kids[slot + 1].r)
    ensures if t.kids[slot].Min(p) <= t.kids[slot].Use() then Repair(p, t, slot, tl, tr, last) ==
            Outcome.Erased(t, last, false)
            else Underfull(p, t, h, slot, tl, tr)
    ensures t.kids[slot].Inner? ==> t.kids[slot].kids != []
    ensures t.kids[slot].Min(p) == if h == 0 then p.LeafMin() else p.InnerMin()
  {
    hide MaxKey;
  }

  /** The node `n` is the neighbour `tn`, as the descent passed it down, and still says what it said then. */
  ghost predicate Beside<V(0)>(m: Mem<V>, ns: set<Node<V>>, n: Node?<V>, tn: Option<NTree<V>>, h: nat) {
    if n == null then tn == None else tn.Some? && tn.value.r == n && n in ns && Says(m, tn.value, h)
  }

  lemma NothingRemoved<V(0)>(m: Mem<V>, l: Links<V>, ns: set<Node<V>>, t: NTree<V>, h: nat, slot: nat,
                             last: Option<Key>,
                             a: seq<Node<V>>, b: seq<Node<V>>)
    requires Owned(m, ns, t, h) && ns <= m.Keys && t.Inner? && Chain(l, a + Leaves(t) + b)
    ensures Removed(m, ns, t, h, slot, a, b, Outcome.Erased(t, last, false), Removal(m, l, {}))
  {
    hide Rep, Refs, Leaves, Chain, Distinct;
    NoneFreed(Refs(t));
  }

  lemma ChosenIs<R, V>(p: Params, t: Tree<R, V>, slot: nat, tl: Option<Tree<R, V>>, tr: Option<Tree<R, V>>)
    requires t.Inner? && |t.kids| == |t.keys| + 1 && slot < |t.kids| && (slot > 0 ==> tl.Some?)
             && (slot < |t.keys| ==> tr.Some?)
    ensures Chosen(p, t, slot, tl, tr) == Choose(t.kids[slot].Min(p), Uses(tl), Uses(tr), slot > 0, slot < |t.keys|)
    ensures Uses(tl) == if tl.None? then None else Some(tl.value.Use())
    ensures Uses(tr) == if tr.None? then None else Some(tr.value.Use())
  {
  }

  // --------------------------------------------------- dropping an emptied child

  /** The separators after child `j` was dropped, with the separator left of it read from the leaf there. */
  function KeptKeys<R, V>(t: Tree<R, V>, j: nat): seq<Key>
    requires t.Inner? && 0 < j < |t.kids| == |t.keys| + 1
  {
    var keys := RemoveAt(t.keys, j - 1);
    if t.kids[j - 1].Leaf? && j - 1 < |keys| then keys[j - 1 := MaxKey(t.kids[j - 1])] else keys
  }

  /** A node one of whose children was emptied by a merge. */
  ghost predicate Emptying<R, V>(t: Tree<R, V>, slot: nat) {
    && CanDrop(t, slot) && Hollow(t.kids[DropIndex(t, slot)])
    && (forall i :: 0 <= i < |t.kids| ==> (t.kids[i].Leaf? <==> t.kids[0].Leaf?))
    && (forall i :: 0 <= i < |t.kids| && i != DropIndex(t, slot) ==> t.kids[i].Use() > 0)
  }

  lemma DropIs<R, V>(t: Tree<R, V>, slot: nat)
    requires Emptying(t, slot)
    ensures CanDrop(t, slot) && t.Inner?
    ensures var j := DropIndex(t, slot);
            && 0 < j < |t.kids| == |t.keys| + 1
            && slot < |t.kids| && (t.kids[slot].Use() != 0 <==> j == slot + 1)
            && (t.kids[slot].Use() == 0 <==> j == slot)
            && t.kids[j - 1].Use() > 0 && Hollow(t.kids[j])
            && DropEmptied(t, slot) == Inner(t.r, KeptKeys(t, j), RemoveAt(t.kids, j))
  {
    var j := DropIndex(t, slot);
    assert RemoveAt(t.kids, j)[j - 1] == t.kids[j - 1];
    assert RemoveAt(t.kids, j)[0] == t.kids[if j == 0 then 1 else 0];
    hide MaxKey;
  }

  lemma RemoveRefs<V(0)>(kids: seq<NTree<V>>, j: nat)
    requires j < |kids|
    ensures KidRefs(RemoveAt(kids, j)) == RemoveAt(KidRefs(kids), j)
  {
  }

  /** Dropping child `j`, which is hollow. */
  lemma DropDone<V(0)>(m: Mem<V>, ns: set<Node<V>>, t: NTree<V>, h: nat, j: nat, keys: seq<Key>)
    requires Owned(m, ns, t, h) && ns <= m.Keys && t.Inner? && 0 < j < |t.kids| && Hollow(t.kids[j])
    ensures t.r in m && m[t.r] == InnerCell(h, t.keys, KidRefs(t.kids)) && h > 0
    ensures var m' := Put(m, t.r, InnerCell(h, keys, RemoveAt(KidRefs(t.kids), j)));
            var t' := Inner(t.r, keys, RemoveAt(t.kids, j));
            && Rep(m', t', h) && Refs(t') + multiset{t.kids[j].r} == Refs(t)
            && |Leaves(t')| + |Leaves(t.kids[j])| == |Leaves(t)|
            && (t.kids[j].Inner? ==> Leaves(t') == Leaves(t))
            && Outside(m, m', ns, multiset{t.r})
            && t.kids[j].r in ns && t.kids[j].r != t.r && t.kids[j].r !in Refs(t')
  {
    hide KidRefs, Distinct, Refs, RowRefs, Rep, RemoveAt, Leaves, RowLeaves, RowRep;
    var m' := Put(m, t.r, InnerCell(h, keys, RemoveAt(KidRefs(t.kids), j)));
    var kids' := RemoveAt(t.kids, j);
    KidOwned(m, ns, t, h, j);
    OwnedCell(m, ns, t, h);
    OwnRef(t.kids[j]);
    RemoveRefs(t.kids, j);
    RowWithout(t.kids, j);
    RowDistinct(t);
    NodeAndRow(t);
    NodeAndRow(Inner(t.r, keys, kids'));
    HollowRefs(t.kids[j]);
    KidsRep(m, ns, t, h);
    RemoveRep(m, t.kids, j, h - 1);
    RowFrame(m, m', kids', h - 1);
    MakeRep(m', t.r, keys, kids', h);
    NotLeft(RowRefs(kids'), t.kids[j].r, RowRefs(t.kids), t.r);
  }

  lemma NotLeft<R>(rest: multiset<R>, x: R, all: multiset<R>, r: R)
    requires rest + multiset{x} == all && Distinct(all) && r !in all
    ensures x !in multiset{r} + rest && x != r
    ensures (multiset{r} + rest) + multiset{x} == multiset{r} + all
  {
    assert all[x] <= 1;
    assert (rest + multiset{x})[x] == rest[x] + 1;
  }

  lemma KidsRep<V(0)>(m: Mem<V>, ns: set<Node<V>>, t: NTree<V>, h: nat)
    requires Owned(m, ns, t, h) && t.Inner?
    ensures h > 0 && RowRep(m, t.kids, h - 1)
  {
    hide Refs, Distinct;
  }

  lemma RemoveRep<V(0)>(m: Mem<V>, kids: seq<NTree<V>>, j: nat, h: nat)
    requires RowRep(m, kids, h) && j < |kids|
    ensures RowRep(m, RemoveAt(kids, j), h)
  {
    hide Rep;
  }

  lemma HollowRefs<R, V>(t: Tree<R, V>)
    requires Hollow(t)
    ensures Refs(t) == multiset{t.r} && (t.Inner? ==> Leaves(t) == [])
  {
  }

  lemma RowWithout<R, V>(kids: seq<Tree<R, V>>, j: nat)
    requires j < |kids|
    ensures RowRefs(RemoveAt(kids, j)) + Refs(kids[j]) == RowRefs(kids)
    ensures |RowLeaves(RemoveAt(kids, j))| + |Leaves(kids[j])| == |RowLeaves(kids)|
    ensures Leaves(kids[j]) == [] ==> RowLeaves(RemoveAt(kids, j)) == RowLeaves(kids)
  {
    hide Refs, RowRefs, Leaves, RowLeaves;
    RowRefsSplit(kids, j);
    RowLeavesSplit(kids, j);
    RowRefsConcat(kids[..j], kids[j + 1..]);
    RowLeavesConcat(kids[..j], kids[j + 1..]);
  }

  /** The separators after a drop, as the source computes them step by step. */
  lemma KeptKeysIs<R, V>(t: Tree<R, V>, j: nat)
    requires t.Inner? && 0 < j < |t.kids| == |t.keys| + 1 && (t.kids[j - 1].Leaf? ==> t.kids[j - 1].items != [])
    ensures var keys := RemoveAt(t.keys, j - 1);
            KeptKeys(t, j) == if t.kids[j - 1].Leaf?
              && j - 1 < |keys| then keys[j - 1 := t.kids[j - 1].items[|t.kids[j - 1].items| - 1].key] else keys
  {
  }

  lemma RemovedIndex<T>(s: seq<T>, j: nat)
    requires 0 < j < |s|
    ensures |RemoveAt(s, j)| == |s| - 1 && RemoveAt(s, j)[j - 1] == s[j - 1]
  {
  }

  lemma RemovedLength<T>(s: seq<T>, j: nat)
    requires j < |s|
    ensures |RemoveAt(s, j)| == |s| - 1
  {
  }

  lemma PutIs<V(0)>(m: Mem<V>, n: Node<V>, c: Cell<V>, other: Node<V>, d: Cell<V>)
    requires other != n
    ensures n in Put(m, n, c) && Put(m, n, c)[n] == c
            && (other in m ==> other in Put(m, n, c) && Put(m, n, c)[other] == m[other])
    ensures Put(Put(m, n, c), n, d) == Put(m, n, d)
  {
    PutTwice(m, n, c, d);
  }

  lemma DropNeeds<V(0)>(m: Mem<V>, ns: set<Node<V>>, t: NTree<V>, h: nat, j: nat)
    requires Owned(m, ns, t, h) && t.Inner? && 0 < j < |t.kids| && Hollow(t.kids[j]) && t.kids[j - 1].Use() > 0
    ensures t.kids[j - 1].r != t.r && t.kids[j - 1].r != t.kids[j].r && h > 0
    ensures t.kids[j - 1].Leaf? <==> h == 1
    ensures h == 1 ==> t.kids[j - 1].r in m && m[t.kids[j - 1].r] == LeafOf(t.kids[j - 1].items)
                       && t.kids[j - 1].items != []
    ensures |Leaves(t.kids[j])| == if h == 1 then 1 else 0
  {
    hide Owned;
    ThreeNodes(m, ns, t, h, j - 1);
    HollowRefs(t.kids[j]);
  }

  // ------------------------------------------------------ a changed child

  /** The tree `t` with another tree as child `slot`. */
  function WithKid<R, V>(t: Tree<R, V>, slot: nat, kid: Tree<R, V>): Tree<R, V>
    requires t.Inner? && slot < |t.kids|
  {
    Inner(t.r, t.keys, t.kids[slot := kid])
  }

  lemma Shrunk<R>(all: multiset<R>, rest: multiset<R>, freed: set<R>, ns: set<R>)
    requires Distinct(all) && rest + multiset(freed) == all && forall r :: r in all ==> r in ns
    ensures Distinct(rest) && forall r :: r in rest ==> r in ns - freed
    ensures freed <= ns
  {
    forall r | r in rest
      ensures rest[r] <= 1 && r in ns - freed
    {
      assert (rest + multiset(freed))[r] == rest[r] + multiset(freed)[r];
      assert all[r] <= 1;
    }
    forall r | r in freed
      ensures r in ns
    {
      assert (rest + multiset(freed))[r] == rest[r] + multiset(freed)[r];
    }
  }

  /** Child `slot` became `kid`, and the nodes in `freed` are gone. */
  lemma KidChanged<V(0)>(m: Mem<V>, m': Mem<V>, ns: set<Node<V>>, t: NTree<V>, h: nat, slot: nat, kid: NTree<V>,
                         freed: set<Node<V>>)
    requires Owned(m, ns, t, h) && t.Inner? && slot < |t.kids| && h > 0
    requires Kept(m, m', ns, Refs(t.kids[slot])) && Rep(m', kid, h - 1) && kid.r == t.kids[slot].r
    requires Refs(kid) + multiset(freed) == Refs(t.kids[slot])
    ensures var t' := WithKid(t, slot, kid);
            && Owned(m', ns - freed, t', h) && Refs(t') + multiset(freed) == Refs(t) && freed <= ns
            && Kept(m, m', ns, Refs(t))
            && Leaves(t') == RowLeaves(t.kids[..slot]) + Leaves(kid) + RowLeaves(t.kids[slot + 1..])
    ensures Owned(m', ns - freed, kid, h - 1)
  {
    hide Refs, RowRefs, Rep, Leaves, RowLeaves, Distinct, KidRefs, Replaced;
    var t' := WithKid(t, slot, kid);
    KidOwned(m, ns, t, h, slot);
    CellKept(m, m', ns, t, h, slot);
    RestRep(m, m', ns, t, h, slot);
    OneRow(m', kid, h - 1);
    ReplacedRep(m', t.kids, slot, [kid], h - 1);
    SwapIs(t.kids, slot, kid);
    MakeRep(m', t.r, t.keys, t'.kids, h);
    ReplacedRefs(t.kids, slot, [kid]);
    ReplacedLeaves(t.kids, slot, [kid]);
    RowLeavesOne(kid);
    NodeAndRow(t);
    NodeAndRow(t');
    RefsBalance(multiset{t.r}, RowRefs(t'.kids), Refs(t.kids[slot]), RowRefs(t.kids), Refs(kid), multiset(freed));
    Shrunk(Refs(t), Refs(t'), freed, ns);
    Shrunk(Refs(t.kids[slot]), Refs(kid), freed, ns);
  }

  lemma RefsBalance<R>(r: multiset<R>, row': multiset<R>, k: multiset<R>, row: multiset<R>, k': multiset<R>,
                       freed: multiset<R>)
    requires row' + k == row + k' && k' + freed == k
    ensures (r + row') + freed == r + row
  {
    forall x: R
      ensures ((r + row') + freed)[x] == (r + row)[x]
    {
      assert (row' + k)[x] == (row + k')[x] && (k' + freed)[x] == k[x];
    }
  }

  /** A separator of the node itself was overwritten. */
  lemma KeySet<V(0)>(m: Mem<V>, ns: set<Node<V>>, t: NTree<V>, h: nat, keys: seq<Key>)
    requires Owned(m, ns, t, h) && ns <= m.Keys && t.Inner? && t.kids != []
    ensures h > 0 && t.r in m && m[t.r] == InnerCell(h, t.keys, KidRefs(t.kids))
    ensures var m' := Put(m, t.r, InnerCell(h, keys, KidRefs(t.kids)));
            var t' := Inner(t.r, keys, t.kids);
            && Owned(m', ns, t', h) && Refs(t') == Refs(t) && Outside(m, m', ns, multiset{t.r})
            && Leaves(t') == Leaves(t)
  {
    hide Refs, RowRefs, Rep, Leaves, Distinct, KidRefs;
    OwnedCell(m, ns, t, h);
    var m' := Put(m, t.r, InnerCell(h, keys, KidRefs(t.kids)));
    KidsRep(m, ns, t, h);
    RowDistinct(t);
    NodeAndRow(t);
    NodeAndRow(Inner(t.r, keys, t.kids));
    RowFrame(m, m', t.kids, h - 1);
    MakeRep(m', t.r, keys, t.kids, h);
  }

  // ------------------------------------------------------------- the descent

  /** The address of a neighbour, or null. */
  ghost function RefOf<V(0)>(tn: Option<NTree<V>>): Node?<V> {
    if tn.None? then null else tn.value.r
  }

  /** A neighbour handed down with child `slot` of `t`: it has no node in common with that child, nor is `t` in it. */
  ghost predicate Near<V(0)>(m: Mem<V>, ns: set<Node<V>>, tn: Option<NTree<V>>, t: NTree<V>, h: nat, slot: nat)
    requires t.Inner? && slot < |t.kids| && h > 0
  {
    tn.Some? ==> Owned(m, ns, tn.value, h - 1) && Refs(tn.value) !! Refs(t.kids[slot]) && t.r !in Refs(tn.value)
  }

  /** The heap and the chain before a deletion below child `slot` of `t`. */
  ghost predicate EraseReady<V(0)>(p: Params, m: Mem<V>, l: Links<V>, ns: set<Node<V>>, t: NTree<V>, h: nat, slot: nat,
                                   tl: Option<NTree<V>>, tr: Option<NTree<V>>, a: seq<Node<V>>, b: seq<Node<V>>, k: Key)
  {
    && h > 0 && t.Inner? && Row(p, t, h - 1) && Owned(m, ns, t, h) && ns <= m.Keys
    && slot == Lower(t.keys, k) && slot < |t.kids| == |t.keys| + 1
    && Siblings(t, slot, tl, tr) && Neighbour(p, tl, h - 1) && Neighbour(p, tr, h - 1)
    && Near(m, ns, tl, t, h, slot) && Near(m, ns, tr, t, h, slot)
    && Chain(l, a + Leaves(t) + b) && Around(ns, t, a, b)
  }

  /** The leaves before and after `t` are nodes that `t` has no part in. */
  ghost predicate Around<V(0)>(ns: set<Node<V>>, t: NTree<V>, a: seq<Node<V>>, b: seq<Node<V>>) {
    forall n :: n in a + b ==> n in ns && n !in Refs(t)
  }

  /** The leaves before and after a child. */
  lemma KidAround<V(0)>(m: Mem<V>, ns: set<Node<V>>, t: NTree<V>, h: nat, slot: nat, a: seq<Node<V>>, b: seq<Node<V>>)
    requires Owned(m, ns, t, h) && t.Inner? && slot < |t.kids| && Around(ns, t, a, b)
    ensures Around(ns, t.kids[slot], a + RowLeaves(t.kids[..slot]), RowLeaves(t.kids[slot + 1..]) + b)
  {
    hide Refs, RowRefs, Leaves, RowLeaves, Rep, Distinct;
    KidOwned(m, ns, t, h, slot);
    RowDistinct(t);
    NodeAndRow(t);
    RowRefsSplit(t.kids, slot);
    RowLeavesAreRefs(t.kids[..slot]);
    RowLeavesAreRefs(t.kids[slot + 1..]);
    OnceOnly(RowRefs(t.kids[..slot]), Refs(t.kids[slot]), RowRefs(t.kids[slot + 1..]));
    var x, y := RowLeaves(t.kids[..slot]), RowLeaves(t.kids[slot + 1..]);
    assert forall n :: n in x ==> n in multiset(x);
    assert forall n :: n in y ==> n in multiset(y);
  }

  lemma OnceOnly<R>(x: multiset<R>, k: multiset<R>, y: multiset<R>)
    requires Distinct(x + k + y)
    ensures forall r :: r in x || r in y ==> r !in k
  {
    forall r | r in x || r in y
      ensures r !in k
    {
      assert (x + k + y)[r] == x[r] + k[r] + y[r];
    }
  }

  /** All leaves of the chain are nodes. */
  lemma ChainNodes<V(0)>(m: Mem<V>, ns: set<Node<V>>, t: NTree<V>, h: nat, a: seq<Node<V>>, b: seq<Node<V>>)
    requires Owned(m, ns, t, h) && Around(ns, t, a, b)
    ensures forall n :: n in a + Leaves(t) + b ==> n in ns
  {
    hide Refs, Leaves, Rep, Distinct;
    LeavesAreRefs(t);
    assert forall n :: n in Leaves(t) ==> n in multiset(Leaves(t));
  }

  /** What was freed below `t` leaves the rest of the chain alone. */
  lemma AroundSmaller<V(0)>(ns: set<Node<V>>, freed: set<Node<V>>, t: NTree<V>, t': NTree<V>, a: seq<Node<V>>,
                            b: seq<Node<V>>)
    requires Around(ns, t, a, b) && Refs(t') + multiset(freed) == Refs(t)
    ensures Around(ns - freed, t', a, b)
  {
    forall n | n in a + b
      ensures n in ns - freed && n !in Refs(t')
    {
      assert (Refs(t') + multiset(freed))[n] == Refs(t')[n] + multiset(freed)[n];
    }
  }

  /** The neighbour to the left that is handed further down. */
  lemma LeftNear<V(0)>(p: Params, m: Mem<V>, ns: set<Node<V>>, t: NTree<V>, h: nat, slot: nat, tl: Option<NTree<V>>,
                       s: nat)
    requires h > 1 && Owned(m, ns, t, h) && t.Inner? && slot < |t.kids| && t.kids[slot].Inner?
             && s < |t.kids[slot].kids|
    requires Neighbour(p, tl, h - 1) && Near(m, ns, tl, t, h, slot)
    ensures tl.Some? ==> tl.value.Inner? && |tl.value.kids| >= |tl.value.keys| >= 1
    ensures var tl' := LeftOf(t.kids[slot], s, tl);
            Near(m, ns, tl', t.kids[slot], h - 1, s)
  {
    hide Refs, RowRefs, Rep, Distinct, MaxKey;
    var kid := t.kids[slot];
    KidOwned(m, ns, t, h, slot);
    KidOwned(m, ns, kid, h - 1, s);
    OwnRef(kid);
    if s > 0 {
      KidOwned(m, ns, kid, h - 1, s - 1);
      RowDistinct(kid);
      Apart(kid.kids, s - 1, s);
    } else if tl.Some? {
      var j := |tl.value.keys| - 1;
      KidOwned(m, ns, tl.value, h - 1, j);
    }
  }

  lemma RightNear<V(0)>(p: Params, m: Mem<V>, ns: set<Node<V>>, t: NTree<V>, h: nat, slot: nat, tr: Option<NTree<V>>,
                        s: nat)
    requires h > 1 && Owned(m, ns, t, h) && t.Inner? && slot < |t.kids| && t.kids[slot].Inner?
             && s < |t.kids[slot].kids|
    requires Neighbour(p, tr, h - 1) && Near(m, ns, tr, t, h, slot)
    ensures tr.Some? ==> tr.value.Inner? && tr.value.kids != []
    ensures var tr' := RightOf(t.kids[slot], s, tr);
            Near(m, ns, tr', t.kids[slot], h - 1, s)
  {
    hide Refs, RowRefs, Rep, Distinct, MaxKey;
    var kid := t.kids[slot];
    KidOwned(m, ns, t, h, slot);
    KidOwned(m, ns, kid, h - 1, s);
    OwnRef(kid);
    if s < |kid.kids| - 1 {
      KidOwned(m, ns, kid, h - 1, s + 1);
      RowDistinct(kid);
      Apart(kid.kids, s, s + 1);
    } else if tr.Some? {
      KidOwned(m, ns, tr.value, h - 1, 0);
    }
  }

  lemma KidRow<R, V>(p: Params, t: Tree<R, V>, h: nat, slot: nat, tl: Option<Tree<R, V>>, tr: Option<Tree<R, V>>,
                     k: Key)
    requires h > 0 && Row(p, t, h) && slot == Lower(t.keys, k) && slot < |t.kids| && t.kids[slot].Inner?
    requires Neighbour(p, tl, h) && Neighbour(p, tr, h) && |t.kids| == |t.keys| + 1 && Siblings(t, slot, tl, tr)
    ensures var kid := t.kids[slot];
            var s := Lower(kid.keys, k);
            && Row(p, kid, h - 1) && s < |kid.kids| == |kid.keys| + 1
            && HasKids(tl) && HasKids(tr)
            && var l', r' := LeftOf(kid, s, tl), RightOf(kid, s, tr);
            Siblings(kid, s, l', r') && Neighbour(p, l', h - 1) && Neighbour(p, r', h - 1)
            && EraseBelow(p, t, slot, tl, tr, k) == Ascend(p, t, slot, tl, tr, s, EraseBelow(p, kid, s, l', r', k))
  {
    hide MaxKey, Lower, Flat, Ascend;
    KidSplit(t.kids, slot);
    KidIsRow(p, t, h, slot, k);
  }

  lemma KidIsRow<R, V>(p: Params, t: Tree<R, V>, h: nat, slot: nat, k: Key)
    requires h > 0 && Row(p, t, h) && slot == Lower(t.keys, k) && slot < |t.kids| && t.kids[slot].Inner?
    ensures Row(p, t.kids[slot], h - 1)
  {
    hide MaxKey, Lower, Flat;
    KidHasKey(p, t, h + 1, k);
  }

  lemma KidEraseReady<V(0)>(p: Params, m: Mem<V>, l: Links<V>, ns: set<Node<V>>, t: NTree<V>, h: nat, slot: nat,
                            tl: Option<NTree<V>>, tr: Option<NTree<V>>, a: seq<Node<V>>, b: seq<Node<V>>, k: Key)
    requires EraseReady(p, m, l, ns, t, h, slot, tl, tr, a, b, k) && t.kids[slot].Inner?
    ensures var kid := t.kids[slot];
            var s := Lower(kid.keys, k);
            && s < |kid.kids| == |kid.keys| + 1 && HasKids(tl) && HasKids(tr) && h > 1
            && EraseReady(p, m, l, ns, kid, h - 1, s, LeftOf(kid, s, tl), RightOf(kid, s, tr),
                          a + RowLeaves(t.kids[..slot]), RowLeaves(t.kids[slot + 1..]) + b, k)
            && EraseBelow(p, t, slot, tl, tr, k)
               == Ascend(p, t, slot, tl, tr, s, EraseBelow(p, kid, s, LeftOf(kid, s, tl), RightOf(kid, s, tr), k))
  {
    hide Refs, Rep, Distinct, MaxKey, Lower, Flat, Chain, Leaves, RowLeaves, Owned, Ascend, Row, EraseBelow, Valid,
         LeftOf, RightOf, Around;
    var kid := t.kids[slot];
    KidOwned(m, ns, t, h, slot);
    InnerLevel(m, ns, kid, h - 1);
    KidRow(p, t, h - 1, slot, tl, tr, k);
    var s := Lower(kid.keys, k);
    LeftNear(p, m, ns, t, h, slot, tl, s);
    RightNear(p, m, ns, t, h, slot, tr, s);
    NodeAndRow(t);
    KidChain(a, t.kids, slot, b);
    KidAround(m, ns, t, h, slot, a, b);
  }

  lemma InnerLevel<V(0)>(m: Mem<V>, ns: set<Node<V>>, t: NTree<V>, h: nat)
    requires Owned(m, ns, t, h)
    ensures t.Inner? <==> h > 0
  {
  }

  /** What deletion below `t` leaves behind, step by step: first the heap after the deletion in the child. */
  lemma KidRemoved<V(0)>(m: Mem<V>, ns: set<Node<V>>, t: NTree<V>, h: nat, slot: nat, s: nat,
                         a: seq<Node<V>>, b: seq<Node<V>>, o: Outcome<Node<V>, V>, r: Removal<V>)
    requires Owned(m, ns, t, h) && t.Inner? && slot < |t.kids| && h > 0
    requires Removed(m, ns, t.kids[slot], h - 1, s, a + RowLeaves(t.kids[..slot]), RowLeaves(t.kids[slot + 1..]) + b, o,
                     r)
    ensures Owned(r.mem, ns - r.freed, WithKid(t, slot, o.t), h) && r.freed <= ns
    ensures Refs(WithKid(t, slot, o.t)) + multiset(r.freed) == Refs(t)
    ensures Kept(m, r.mem, ns, Refs(t))
    ensures Owned(r.mem, ns - r.freed, o.t, h - 1) && o.t.r == t.kids[slot].r
    ensures Chain(r.links, a + Leaves(WithKid(t, slot, Settle(o, s))) + b)
    ensures |Leaves(WithKid(t, slot, o.t))| - |Leaves(t)| == |Leaves(o.t)| - |Leaves(t.kids[slot])|
  {
    hide Refs, Rep, Distinct, Chain, Leaves, RowLeaves, Owned, Settle, CanDrop, DropIndex, Hollow;
    KidChanged(m, r.mem, ns, t, h, slot, o.t, r.freed);
    SettledLeaves(a, t, slot, Settle(o, s), b);
    NodeAndRow(t);
    RowLeavesSplit(t.kids, slot);
  }

  lemma SettledLeaves<R, V>(a: seq<R>, t: Tree<R, V>, slot: nat, kid: Tree<R, V>, b: seq<R>)
    requires t.Inner? && slot < |t.kids|
    ensures (a + RowLeaves(t.kids[..slot])) + Leaves(kid) + (RowLeaves(t.kids[slot + 1..]) + b) ==
            a + Leaves(WithKid(t, slot, kid)) + b
  {
    var t' := WithKid(t, slot, kid);
    NodeAndRow(t');
    RowLeavesSplit(t'.kids, slot);
    assert t'.kids[..slot] == t.kids[..slot] && t'.kids[slot + 1..] == t.kids[slot + 1..];
    hide Leaves, RowLeaves;
  }

  function Opt(b: bool, k: Key): Option<Key> {
    if b then Some(k) else None
  }

  /** Writing a changed greatest key into the separator right of child `slot`, if there is one. */
  function RenewKeys<R, V>(t: Tree<R, V>, slot: nat, last: Option<Key>): seq<Key>
    requires t.Inner?
  {
    if last.Some? && slot < |t.keys| then t.keys[slot := last.value] else t.keys
  }

  lemma RenewIs<R, V>(t: Tree<R, V>, slot: nat, kid: Tree<R, V>, last: Option<Key>)
    requires t.Inner? && slot < |t.kids|
    ensures Renew(t, slot, kid, last) ==
            (Inner(t.r, RenewKeys(t, slot, last), t.kids[slot := kid]), if slot < |t.keys| then None else last)
  {
  }

  /** The separator is written while the child still has an emptied child of its own, which is dropped afterwards. */
  lemma RenewSteps<R, V>(t: Tree<R, V>, slot: nat, kid: Tree<R, V>, kid': Tree<R, V>, last: Option<Key>)
    requires t.Inner? && slot < |t.kids|
    ensures WithKid(Inner(t.r, RenewKeys(WithKid(t, slot, kid), slot, last), WithKid(t, slot, kid).kids), slot, kid')
         == Renew(t, slot, kid', last).0
  {
    assert t.kids[slot := kid][slot := kid'] == t.kids[slot := kid'];
  }

  lemma KeptIn<V(0)>(m: Mem<V>, m': Mem<V>, ns: set<Node<V>>, s: multiset<Node<V>>, s': multiset<Node<V>>)
    requires Outside(m, m', ns, s) && forall r :: r in s ==> r in s'
    ensures Kept(m, m', ns, s')
  {
  }

  /** The node `t` after its separator was renewed and child `slot` dropped the child that a merge emptied. */
  lemma DropInKid<V(0)>(m: Mem<V>, m': Mem<V>, ns: set<Node<V>>, t: NTree<V>, h: nat, slot: nat, kid: NTree<V>,
                        dead: Node<V>)
    requires Owned(m, ns, t, h) && t.Inner? && slot < |t.kids| && h > 0
    requires Outside(m, m', ns, multiset{t.kids[slot].r}) && Rep(m', kid, h - 1) && kid.r == t.kids[slot].r
    requires Refs(kid) + multiset{dead} == Refs(t.kids[slot])
    ensures Owned(m', ns - {dead}, WithKid(t, slot, kid), h) && dead in ns
    ensures Refs(WithKid(t, slot, kid)) + multiset{dead} == Refs(t)
    ensures |Leaves(WithKid(t, slot, kid))| - |Leaves(t)| == |Leaves(kid)| - |Leaves(t.kids[slot])|
  {
    hide Refs, Rep, Distinct, Leaves, RowLeaves, Owned;
    assert multiset({dead}) == multiset{dead};
    OwnRef(t.kids[slot]);
    KeptIn(m, m', ns, multiset{t.kids[slot].r}, Refs(t.kids[slot]));
    KidChanged(m, m', ns, t, h, slot, kid, {dead});
    NodeAndRow(t);
    RowLeavesSplit(t.kids, slot);
  }

  lemma SameLeaves<R, V>(t: Tree<R, V>, t': Tree<R, V>)
    requires t.Inner? && t'.Inner? && t'.kids == t.kids
    ensures Leaves(t') == Leaves(t)
  {
  }

  lemma EmptyingCanDrop<R, V>(t: Tree<R, V>, slot: nat)
    requires Emptying(t, slot)
    ensures CanDrop(t, slot)
  {
  }

  lemma DroppedNode<R, V>(t: Tree<R, V>, slot: nat)
    requires CanDrop(t, slot)
    ensures DropEmptied(t, slot).r == t.r
  {
  }

  lemma SameKid<R, V>(t: Tree<R, V>, slot: nat)
    requires t.Inner? && slot < |t.kids|
    ensures WithKid(t, slot, t.kids[slot]) == t
  {
  }

  lemma KeptTwice<V(0)>(m: Mem<V>, m1: Mem<V>, m2: Mem<V>, ns: set<Node<V>>, x: Node<V>, y: Node<V>)
    requires Outside(m, m1, ns, multiset{x}) && (m2 == m1 || Outside(m1, m2, ns, multiset{y}))
    ensures Kept(m, m2, ns, multiset{x, y})
  {
  }

  // --- the facts for one step back up

  /** After a deletion below a valid node, exactly the emptied child stands out among its children. */
  lemma ErasedIsEmptying<V(0)>(p: Params, m: Mem<V>, t: NTree<V>, h: nat, slot: nat, o: Outcome<Node<V>, V>, k: Key)
    requires ErasedBelow(p, t, h, slot, o, k) && o.merged && Rep(m, o.t, h + 1)
             && Hollow(o.t.kids[DropIndex(o.t, slot)])
    ensures Emptying(o.t, slot)
  {
    hide MaxKey, Lower, Flat, Keys, Contents;
    var q, j := DropEmptied(o.t, slot), DropIndex(o.t, slot);
    assert q.kids == RemoveAt(o.t.kids, j) && AllValid(p, q.kids, h);
    RemoveAtIndex(o.t.kids, j);
    forall i | 0 <= i < |o.t.kids|
      ensures o.t.kids[i].Leaf? <==> h == 0
    {
      Levels(m, o.t.kids[i], h);
    }
    forall i | 0 <= i < |o.t.kids| && i != j
      ensures o.t.kids[i].Use() > 0
    {
      assert o.t.kids[i] == q.kids[if i < j then i else i - 1];
    }
  }

  /** Child `slot` lost the first pair with the key: the node after its separator was renewed. */
  lemma RenewedIsShort<R, V>(p: Params, t: Tree<R, V>, h: nat, slot: nat, tl: Option<Tree<R, V>>,
                             tr: Option<Tree<R, V>>,
                             kid': Tree<R, V>, k: Key, last: Option<Key>)
    requires Row(p, t, h) && slot == Lower(t.keys, k) && slot < |t.kids| == |t.keys| + 1 && Siblings(t, slot, tl, tr)
    requires LostFirst(p, t.kids[slot], kid', h, k, last)
    ensures MayBeShort(p, Renew(t, slot, kid', last).0, h, slot, tl, tr)
    ensures var t' := Renew(t, slot, kid', last).0;
            t'.Inner? && |t'.kids| == |t'.keys| + 1 == |t.kids| && t'.r == t.r && t'.kids[slot] == kid'
  {
    hide MaxKey, Lower, Flat, Contents, Keys;
    assert Short(p, kid', h);
    RenewCorrect(p, t, h, slot, kid', k, last);
  }

  /** The outcome one level up, as a repair of the renewed node. */
  lemma AscendIsRepair<V(0)>(p: Params, m: Mem<V>, l: Links<V>, ns: set<Node<V>>, t: NTree<V>, h: nat, slot: nat,
                             tl: Option<NTree<V>>, tr: Option<NTree<V>>, a: seq<Node<V>>, b: seq<Node<V>>, k: Key,
                               o: Outcome<Node<V>, V>)
    requires EraseReady(p, m, l, ns, t, h, slot, tl, tr, a, b, k) && t.kids[slot].Inner?
    requires var kid := t.kids[slot];
             var s := Lower(kid.keys, k);
             && s < |kid.kids| && HasKids(tl) && HasKids(tr)
             && o == EraseBelow(p, kid, s, LeftOf(kid, s, tl), RightOf(kid, s, tr), k) && o.Erased?
    ensures var s := Lower(t.kids[slot].keys, k);
            && h > 1 && ErasedBelow(p, t.kids[slot], h - 2, s, o, k) && (o.merged ==> CanDrop(o.t, s))
            && var (t', last') := Renew(t, slot, Settle(o, s), o.last);
            && MayBeShort(p, t', h - 1, slot, tl, tr)
            && t'.Inner? && |t'.kids| == |t'.keys| + 1 == |t.kids| && t'.r == t.r && t'.kids[slot] == Settle(o, s)
            && EraseBelow(p, t, slot, tl, tr, k) == Repair(p, t', slot, tl, tr, last')
  {
    hide MaxKey, Lower, Flat, Refs, Rep, Distinct, Chain, Leaves, RowLeaves, Owned, Keys, Contents, SortedItems,
         EraseBelow,
      Ascend, Settle, Repair, Below, LeftOf, RightOf, ErasedBelow, Renew, MayBeShort, DropEmptied, CanDrop, Row;
    var kid := t.kids[slot];
    var s := Lower(kid.keys, k);
    KidEraseReady(p, m, l, ns, t, h, slot, tl, tr, a, b, k);
    var l', r' := LeftOf(kid, s, tl), RightOf(kid, s, tr);
    EraseBelowCorrect(p, kid, h - 2, s, l', r', k);
    ErasedIs(p, kid, h - 2, s, o, k);
    KidIsValid(p, t, h - 1, slot);
    InnerLostFirst(p, kid, h - 1, s, o, k);
    RenewedIsShort(p, t, h - 1, slot, tl, tr, Settle(o, s), k, o.last);
    AscendUnfolds(p, t, slot, tl, tr, s, o);
  }

  lemma ErasedIs<R, V>(p: Params, t: Tree<R, V>, h: nat, slot: nat, o: Outcome<R, V>, k: Key)
    requires ErasesFirst(p, t, h, slot, o, k) && o.Erased?
    ensures ErasedBelow(p, t, h, slot, o, k) && (o.merged ==> CanDrop(o.t, slot))
  {
  }

  lemma KidIsValid<R, V>(p: Params, t: Tree<R, V>, h: nat, slot: nat)
    requires Row(p, t, h) && slot < |t.kids|
    ensures Valid(p, t.kids[slot], h, false)
  {
  }

  lemma AscendUnfolds<R, V>(p: Params, t: Tree<R, V>, slot: nat, tl: Option<Tree<R, V>>, tr: Option<Tree<R, V>>, s: nat,
                            o: Outcome<R, V>)
    requires t.Inner? && slot < |t.kids| && (slot > 0 ==> tl.Some?) && (slot < |t.kids| - 1 ==> tr.Some?)
    requires o.Erased? && (o.merged ==> CanDrop(o.t, s))
    ensures var (t', last') := Renew(t, slot, Settle(o, s), o.last);
            Ascend(p, t, slot, tl, tr, s, o) == Repair(p, t', slot, tl, tr, last')
  {
    hide Repair, DropEmptied;
  }

  // --- the heap one level up

  /** The repair at `t` was the last step of a deletion below `t`, of which the steps before freed `freed`. */
  lemma StepsRemoved<V(0)>(m: Mem<V>, m1: Mem<V>, ns: set<Node<V>>, t: NTree<V>, t1: NTree<V>, h: nat, slot: nat,
                           a: seq<Node<V>>, b: seq<Node<V>>, freed: set<Node<V>>, o: Outcome<Node<V>, V>, r: Removal<V>)
    requires Owned(m, ns, t, h) && t1.r == t.r && Refs(t1) + multiset(freed) == Refs(t)
    requires Kept(m, m1, ns, Refs(t))
    requires Removed(m1, ns - freed, t1, h, slot, a, b, o, r) && r.freed == {}
    ensures Removed(m, ns, t, h, slot, a, b, o, Removal(r.mem, r.links, freed))
  {
    hide Rep, Refs, Leaves, Chain, Distinct, Settle, CanDrop, DropIndex, Hollow;
    NoneFreed(Refs(o.t));
    forall x | x in ns && x !in Refs(t)
      ensures x in m && x in r.mem && r.mem[x] == m[x]
    {
      assert x !in freed by {
        assert (Refs(t1) + multiset(freed))[x] == 0;
        assert multiset(freed)[x] == 0;
      }
      assert x !in Refs(t1) by {
        assert (Refs(t1) + multiset(freed))[x] == 0;
      }
    }
  }

  /** The nodes freed in two steps. */
  lemma FreedBoth<R>(all: multiset<R>, mid: multiset<R>, rest: multiset<R>, x: set<R>, y: set<R>)
    requires mid + multiset(x) == all && rest + multiset(y) == mid && Distinct(all)
    ensures x !! y && rest + multiset(x + y) == all && |x + y| == |x| + |y|
  {
    forall r | r in x
      ensures r !in y
    {
      assert (mid + multiset(x))[r] == mid[r] + multiset(x)[r];
      assert (rest + multiset(y))[r] == rest[r] + multiset(y)[r];
      assert all[r] <= 1;
    }
    SetSum(x, y);
  }

  lemma KeptSteps<V(0)>(m: Mem<V>, m1: Mem<V>, m2: Mem<V>, ns: set<Node<V>>, ns1: set<Node<V>>, s: multiset<Node<V>>,
                        x: Node<V>, y: Node<V>)
    requires Kept(m, m1, ns, s) && Kept(m1, m2, ns1, multiset{x, y}) && x in s && y in s
    requires forall r :: r in ns && r !in s ==> r in ns1
    ensures Kept(m, m2, ns, s)
  {
  }

  /** A neighbour handed down still says the same when the child is done. */
  lemma StillBeside<V(0)>(m: Mem<V>, m1: Mem<V>, m2: Mem<V>, ns: set<Node<V>>, ns1: set<Node<V>>, ns2: set<Node<V>>,
                          tn: Option<NTree<V>>, t: NTree<V>, h: nat, slot: nat)
    requires t.Inner? && slot < |t.kids| && h > 0 && Near(m, ns, tn, t, h, slot)
    requires Kept(m, m1, ns, Refs(t.kids[slot])) && Kept(m1, m2, ns1, multiset{t.r, t.kids[slot].r})
    requires forall r :: r in ns && r !in Refs(t.kids[slot]) ==> r in ns1 && (r != t.r ==> r in ns2)
    ensures Beside(m2, ns2, RefOf(tn), tn, h - 1)
  {
    if tn.Some? {
      var n := tn.value.r;
      OwnRef(tn.value);
      OwnRef(t.kids[slot]);
      RepIs(m, tn.value, h - 1);
      hide Refs, Rep, Distinct;
      assert n in ns && n !in Refs(t.kids[slot]) && n != t.r;
    }
  }

  lemma EraseFacts<V(0)>(p: Params, m: Mem<V>, l: Links<V>, ns: set<Node<V>>, t: NTree<V>, h: nat, slot: nat,
                         tl: Option<NTree<V>>, tr: Option<NTree<V>>, a: seq<Node<V>>, b: seq<Node<V>>, k: Key)
    requires EraseReady(p, m, l, ns, t, h, slot, tl, tr, a, b, k)
    ensures h > 0 && t.Inner? && slot < |t.kids| == |t.keys| + 1 && slot == Lower(t.keys, k) && Owned(m, ns, t, h)
            && ns <= m.Keys
    ensures (slot > 0 ==> tl.Some?) && (slot < |t.keys| ==> tr.Some?) && Around(ns, t, a, b) && Distinct(Refs(t))
    ensures Near(m, ns, tl, t, h, slot) && Near(m, ns, tr, t, h, slot)
    ensures Row(p, t, h - 1) && Siblings(t, slot, tl, tr) && Chain(l, a + Leaves(t) + b)
  {
    hide Row, Lower, Chain, Leaves, Refs, Rep;
  }

  lemma SettleIs<R, V>(o: Outcome<R, V>, slot: nat)
    requires o.Erased? && (o.merged ==> CanDrop(o.t, slot))
    ensures Settle(o, slot) == if o.merged then DropEmptied(o.t, slot) else o.t
    ensures Settle(o, slot).r == o.t.r
  {
    if o.merged {
      DroppedNode(o.t, slot);
    }
  }

  lemma RemovedFacts<V(0)>(m: Mem<V>, ns: set<Node<V>>, t: NTree<V>, h: nat, slot: nat,
                           a: seq<Node<V>>, b: seq<Node<V>>, o: Outcome<Node<V>, V>, r: Removal<V>)
    requires Removed(m, ns, t, h, slot, a, b, o, r)
    ensures o.Erased? && o.t.Inner? && o.t.r == t.r
            && (o.merged ==> CanDrop(o.t, slot) && Hollow(o.t.kids[DropIndex(o.t, slot)]))
    ensures Rep(r.mem, o.t, h) && Kept(m, r.mem, ns, Refs(t)) && Refs(o.t) + multiset(r.freed) == Refs(t)
  {
  }

  /** A set of nodes freed below a child is part of that child. */
  lemma FreedBelow<R>(rest: multiset<R>, freed: set<R>, all: multiset<R>)
    requires rest + multiset(freed) == all
    ensures forall r :: r in freed ==> r in all
    ensures forall r :: r in rest ==> r in all
  {
    forall r | r in freed || r in rest
      ensures r in all
    {
      assert (rest + multiset(freed))[r] == rest[r] + multiset(freed)[r];
    }
  }

  /** The leaves of the repaired node, with an emptied leaf still among them. */
  lemma RepairLeaves<R, V>(p: Params, t: Tree<R, V>, h: nat, slot: nat, tl: Option<Tree<R, V>>, tr: Option<Tree<R, V>>,
                           last: Option<Key>)
    requires MayBeShort(p, t, h, slot, tl, tr) && (slot > 0 ==> tl.Some?) && slot < |t.kids|
             && (slot < |t.kids| - 1 ==> tr.Some?)
    ensures var o := Repair(p, t, slot, tl, tr, last); o.Erased? && |Leaves(o.t)| == |Leaves(t)| && o.last == last
  {
    hide MaxKey, Leaves, Refs, Below, Apply, MayBeShort, Underfull, Repair, Chosen, Triple, SetPair, SameParts;
    ShortFacts(p, t, h, slot, tl, tr, last);
    if t.kids[slot].Use() < t.kids[slot].Min(p) {
      var action := Chosen(p, t, slot, tl, tr);
      ChosenApplies(p, t, h, slot, tl, tr, last);
      ApplyIsTriple(t, slot, action);
      var i := PairAt(action, slot);
      SetPairRefs(t, i, Triple(action, t.kids[i], t.keys[i], t.kids[i + 1]));
    }
  }

  lemma WithKidIs<R, V>(t: Tree<R, V>, slot: nat, kid: Tree<R, V>)
    requires t.Inner? && slot < |t.kids|
    ensures var t' := WithKid(t, slot, kid);
            t'.Inner? && t'.r == t.r && t'.keys == t.keys && t'.kids == t.kids[slot := kid]
  {
  }

  /** The renewed and settled node, and everything that the repair asks of it. */
  lemma RepairReady<V(0)>(p: Params, m: Mem<V>, m1: Mem<V>, m3: Mem<V>, l: Links<V>, ns: set<Node<V>>, t: NTree<V>,
                          h: nat, slot: nat,
                          tl: Option<NTree<V>>, tr: Option<NTree<V>>, a: seq<Node<V>>, b: seq<Node<V>>, k: Key,
                          mid: NTree<V>, x: set<Node<V>>, y: set<Node<V>>, tC: NTree<V>)
    requires EraseReady(p, m, l, ns, t, h, slot, tl, tr, a, b, k)
    requires Kept(m, m1, ns, Refs(t.kids[slot])) && Kept(m1, m3, ns - x, multiset{t.r, t.kids[slot].r})
    requires Refs(mid) + multiset(x) == Refs(t) && Refs(tC) + multiset(y) == Refs(mid)
    requires forall r :: r in x || r in y ==> r in Refs(t.kids[slot])
    requires Owned(m3, (ns - x) - y, tC, h)
    ensures (ns - x) - y == ns - (x + y) && |x + y| == |x| + |y|
    ensures Refs(tC) + multiset(x + y) == Refs(t) && Kept(m, m3, ns, Refs(t))
    ensures Around(ns - (x + y), tC, a, b) && forall n :: n in a + Leaves(tC) + b ==> n in ns - (x + y)
    ensures h > 0 && Beside(m3, ns - (x + y), RefOf(tl), tl, h - 1) && Beside(m3, ns - (x + y), RefOf(tr), tr, h - 1)
    ensures x + y <= ns
  {
    hide Refs, Rep, Distinct, Chain, Leaves, RowLeaves, Row, Siblings, Neighbour, Lower, Around, Near, Kept, Beside,
         Owned;
    EraseFacts(p, m, l, ns, t, h, slot, tl, tr, a, b, k);
    FreedBoth(Refs(t), Refs(mid), Refs(tC), x, y);
    assert (ns - x) - y == ns - (x + y);
    AroundSmaller(ns, x + y, t, tC, a, b);
    ChainNodes(m3, ns - (x + y), tC, h, a, b);
    KidOwned(m, ns, t, h, slot);
    OwnRef(t);
    OwnRef(t.kids[slot]);
    KeptWider(m, m1, ns, Refs(t.kids[slot]), Refs(t));
    KeptSteps(m, m1, m3, ns, ns - x, Refs(t), t.r, t.kids[slot].r);
    StillBeside(m, m1, m3, ns, ns - x, ns - (x + y), tl, t, h, slot);
    StillBeside(m, m1, m3, ns, ns - x, ns - (x + y), tr, t, h, slot);
    Shrunk(Refs(t), Refs(tC), x + y, ns) by {
      AllIn(m, ns, t, h);
    }
  }

  lemma AllIn<V(0)>(m: Mem<V>, ns: set<Node<V>>, t: NTree<V>, h: nat)
    requires Owned(m, ns, t, h)
    ensures Distinct(Refs(t)) && forall r :: r in Refs(t) ==> r in ns
  {
  }

  lemma KeptWider<V(0)>(m: Mem<V>, m': Mem<V>, ns: set<Node<V>>, s: multiset<Node<V>>, s': multiset<Node<V>>)
    requires Kept(m, m', ns, s) && s <= s'
    ensures Kept(m, m', ns, s')
  {
  }

  /** All is settled below `t`, which became `t1`, except that child `slot` may be short. */
  ghost predicate Settled<V(0)>(p: Params, m: Mem<V>, m1: Mem<V>, l: Links<V>, ns: set<Node<V>>, t: NTree<V>,
                                t1: NTree<V>, h: nat, slot: nat,
                                tl: Option<NTree<V>>, tr: Option<NTree<V>>, a: seq<Node<V>>, b: seq<Node<V>>,
                                  freed: set<Node<V>>)
  {
    && h > 0 && Owned(m1, ns - freed, t1, h) && Owned(m, ns, t, h) && freed <= ns
    && t.Inner? && t1.Inner? && t1.r == t.r && |t1.kids| == |t1.keys| + 1 == |t.kids| && slot < |t.kids|
    && t1.kids[slot].r == t.kids[slot].r
    && Refs(t1) + multiset(freed) == Refs(t) && Kept(m, m1, ns, Refs(t))
    && MayBeShort(p, t1, h - 1, slot, tl, tr)
    && (slot > 0 ==> tl.Some?) && (slot < |t.kids| - 1 ==> tr.Some?)
    && Chain(l, a + Leaves(t1) + b) && (forall n :: n in a + Leaves(t1) + b ==> n in ns - freed)
    && Beside(m1, ns - freed, RefOf(tl), tl, h - 1) && Beside(m1, ns - freed, RefOf(tr), tr, h - 1)
  }

  lemma SettledFacts<V(0)>(p: Params, m: Mem<V>, m1: Mem<V>, l: Links<V>, ns: set<Node<V>>, t: NTree<V>, t1: NTree<V>,
                           h: nat, slot: nat,
                           tl: Option<NTree<V>>, tr: Option<NTree<V>>, a: seq<Node<V>>, b: seq<Node<V>>,
                             freed: set<Node<V>>)
    requires Settled(p, m, m1, l, ns, t, t1, h, slot, tl, tr, a, b, freed)
    ensures h > 0 && Owned(m1, ns - freed, t1, h) && Owned(m, ns, t, h) && freed <= ns
    ensures t.Inner? && t1.Inner? && t1.r == t.r && |t1.kids| == |t1.keys| + 1 == |t.kids| && slot < |t.kids|
            && t1.kids[slot].r == t.kids[slot].r
    ensures Refs(t1) + multiset(freed) == Refs(t) && Kept(m, m1, ns, Refs(t))
    ensures MayBeShort(p, t1, h - 1, slot, tl, tr)
    ensures (slot > 0 ==> tl.Some?) && (slot < |t.kids| - 1 ==> tr.Some?)
    ensures Chain(l, a + Leaves(t1) + b) && (forall n :: n in a + Leaves(t1) + b ==> n in ns - freed)
    ensures Beside(m1, ns - freed, RefOf(tl), tl, h - 1) && Beside(m1, ns - freed, RefOf(tr), tr, h - 1)
  {
    hide Owned, Refs, Leaves, Chain, Kept, MayBeShort, Beside;
  }

  lemma MakeSettled<V(0)>(p: Params, m: Mem<V>, m1: Mem<V>, l: Links<V>, ns: set<Node<V>>, t: NTree<V>, t1: NTree<V>,
                          h: nat, slot: nat,
                          tl: Option<NTree<V>>, tr: Option<NTree<V>>, a: seq<Node<V>>, b: seq<Node<V>>,
                            freed: set<Node<V>>)
    requires h > 0 && Owned(m1, ns - freed, t1, h) && Owned(m, ns, t, h) && freed <= ns
    requires t.Inner? && t1.Inner? && t1.r == t.r && |t1.kids| == |t1.keys| + 1 == |t.kids| && slot < |t.kids|
             && t1.kids[slot].r == t.kids[slot].r
    requires Refs(t1) + multiset(freed) == Refs(t) && Kept(m, m1, ns, Refs(t))
    requires MayBeShort(p, t1, h - 1, slot, tl, tr)
    requires (slot > 0 ==> tl.Some?) && (slot < |t.kids| - 1 ==> tr.Some?)
    requires Chain(l, a + Leaves(t1) + b) && (forall n :: n in a + Leaves(t1) + b ==> n in ns - freed)
    requires Beside(m1, ns - freed, RefOf(tl), tl, h - 1) && Beside(m1, ns - freed, RefOf(tr), tr, h - 1)
    ensures Settled(p, m, m1, l, ns, t, t1, h, slot, tl, tr, a, b, freed)
  {
    hide Owned, Refs, Leaves, Chain, Kept, MayBeShort, Beside;
  }

  // --- the leaf

  /** What the descent finds in the leaf, and what remains when the first pair with the key is removed. */
  lemma LeafErase<V(0)>(p: Params, m: Mem<V>, l: Links<V>, ns: set<Node<V>>, t: NTree<V>, h: nat, slot: nat,
                        tl: Option<NTree<V>>, tr: Option<NTree<V>>, a: seq<Node<V>>, b: seq<Node<V>>, k: Key)
    requires EraseReady(p, m, l, ns, t, h, slot, tl, tr, a, b, k) && t.kids[slot].Leaf?
    ensures (slot > 0 ==> tl.Some?) && (slot < |t.kids| - 1 ==> tr.Some?) && h == 1
    ensures var kid := t.kids[slot];
            && kid.r in ns && kid.r in m && m[kid.r] == LeafOf(kid.items) && SortedItems(kid.items)
            && if k !in Keys(kid.items) then EraseBelow(p, t, slot, tl, tr, k).NotFound?
               else
                 var i := Lower(Keys(kid.items), k);
                 && i < |kid.items|
                 && var items' := RemoveAt(kid.items, i);
                 && items' != []
                 && var last := Opt(i == |items'|, items'[|items'| - 1].key);
                 var (t1, last') := Renew(t, slot, Leaf(kid.r, items'), last);
                 && MayBeShort(p, t1, h - 1, slot, tl, tr)
                 && t1.Inner? && |t1.kids| == |t1.keys| + 1 == |t.kids| && t1.r == t.r
                 && t1.kids[slot] == Leaf(kid.r, items')
                 && EraseBelow(p, t, slot, tl, tr, k) == Repair(p, t1, slot, tl, tr, last')
  {
    hide MaxKey, Lower, Flat, Refs, Rep, Distinct, Chain, Leaves, RowLeaves, Owned, Keys, Contents, SortedItems,
         EraseBelow,
      Repair, Renew, MayBeShort, RemoveAt, Row, Around, LeafOf;
    var kid := t.kids[slot];
    EraseFacts(p, m, l, ns, t, h, slot, tl, tr, a, b, k);
    KidOwned(m, ns, t, h, slot);
    OwnedCell(m, ns, kid, h - 1);
    LeafLoses(p, t, slot, tl, tr, k);
    if k in Keys(kid.items) {
      var items' := RemoveAt(kid.items, Lower(Keys(kid.items), k));
      var last := Opt(Lower(Keys(kid.items), k) == |items'|, items'[|items'| - 1].key);
      RenewedIsShort(p, t, 0, slot, tl, tr, Leaf(kid.r, items'), k, last);
    }
  }

  lemma LeafLoses<R, V>(p: Params, t: Tree<R, V>, slot: nat, tl: Option<Tree<R, V>>, tr: Option<Tree<R, V>>, k: Key)
    requires Row(p, t, 0) && slot == Lower(t.keys, k) && slot < |t.kids| == |t.keys| + 1 && t.kids[slot].Leaf?
             && Siblings(t, slot, tl, tr)
    requires (slot > 0 ==> tl.Some?) && (slot < |t.kids| - 1 ==> tr.Some?)
    ensures var kid := t.kids[slot];
            && SortedItems(kid.items)
            && if k !in Keys(kid.items) then EraseBelow(p, t, slot, tl, tr, k).NotFound?
               else
                 var i := Lower(Keys(kid.items), k);
                 && i < |kid.items|
                 && var items' := RemoveAt(kid.items, i);
                 && items' != []
                 && var last := Opt(i == |items'|, items'[|items'| - 1].key);
                 && LostFirst(p, kid, Leaf(kid.r, items'), 0, k, last)
                 && var (t1, last') := Renew(t, slot, Leaf(kid.r, items'), last);
                 EraseBelow(p, t, slot, tl, tr, k) == Repair(p, t1, slot, tl, tr, last')
  {
    hide MaxKey, Lower, Flat, Keys, Repair, Renew, RemoveAt;
    var kid := t.kids[slot];
    KidHasKey(p, t, 1, k);
    LowerFinds(Keys(kid.items), k);
    KeysAt(kid.items);
    if k in Keys(kid.items) {
      LeafLostFirst(p, kid.r, kid.items, k);
    }
  }

  lemma RemovePairs<V>(items: seq<Item<V>>, i: nat)
    requires i < |items|
    ensures RemoveAt(Keys(items), i) == Keys(RemoveAt(items, i))
            && RemoveAt(Datas(items), i) == Datas(RemoveAt(items, i))
  {
  }

  /** The leaf `r`, child `slot` of `t`, says something else. */
  lemma LeafChanged<V(0)>(m: Mem<V>, ns: set<Node<V>>, t: NTree<V>, h: nat, slot: nat, items: seq<Item<V>>)
    requires Owned(m, ns, t, h) && ns <= m.Keys && h == 1 && t.Inner? && slot < |t.kids| && t.kids[slot].Leaf?
    ensures var r := t.kids[slot].r;
            var m' := Put(m, r, LeafOf(items));
            var t' := WithKid(t, slot, Leaf(r, items));
            && Owned(m', ns, t', h) && Refs(t') == Refs(t) && Leaves(t') == Leaves(t)
            && Kept(m, m', ns, Refs(t.kids[slot])) && r in Refs(t.kids[slot])
  {
    hide Distinct, RowRefs, RowLeaves, Keys, Datas;
    var kid: NTree<V> := Leaf(t.kids[slot].r, items);
    var m' := Put(m, kid.r, LeafOf(items));
    NoneFreed(Refs(kid));
    KidChanged(m, m', ns, t, h, slot, kid, {});
    assert ns - {} == ns;
    NoneFreed(Refs(WithKid(t, slot, kid)));
    RowLeavesSplit(t.kids, slot);
  }

  lemma RenewKeysSame<R, V>(t: Tree<R, V>, slot: nat, kid: Tree<R, V>, last: Option<Key>)
    requires t.Inner? && slot < |t.kids|
    ensures RenewKeys(WithKid(t, slot, kid), slot, last) == RenewKeys(t, slot, last)
  {
  }

  /** The same as `RepairReady` for a leaf, where nothing is freed. */
  lemma LeafReady<V(0)>(p: Params, m: Mem<V>, m0: Mem<V>, m1: Mem<V>, l: Links<V>, ns: set<Node<V>>, t: NTree<V>,
                        h: nat, slot: nat,
                        tl: Option<NTree<V>>, tr: Option<NTree<V>>, a: seq<Node<V>>, b: seq<Node<V>>, k: Key,
                          t1: NTree<V>)
    requires EraseReady(p, m, l, ns, t, h, slot, tl, tr, a, b, k)
    requires Kept(m, m0, ns, Refs(t.kids[slot])) && Outside(m0, m1, ns, multiset{t.r})
    requires t1.Inner? && t1.r == t.r && |t1.kids| == |t1.keys| + 1 == |t.kids| && t1.kids[slot].r == t.kids[slot].r
    requires Refs(t1) == Refs(t) && Leaves(t1) == Leaves(t) && Owned(m1, ns, t1, h)
             && MayBeShort(p, t1, h - 1, slot, tl, tr)
    ensures Settled(p, m, m1, l, ns, t, t1, h, slot, tl, tr, a, b, {})
  {
    hide Refs, Rep, Distinct, Chain, Leaves, RowLeaves, Row, Siblings, Neighbour, Lower, Around, Near, Beside, Owned,
         MayBeShort, Settled;
    EraseFacts(p, m, l, ns, t, h, slot, tl, tr, a, b, k);
    KidOwned(m, ns, t, h, slot);
    OwnRef(t.kids[slot]);
    KeptIn(m0, m1, ns, multiset{t.r}, multiset{t.r, t.kids[slot].r});
    var none: set<Node<V>> := {};
    assert ns - none == ns && none + none == none;
    NoneFreed(Refs(t));
    RepairReady(p, m, m0, m1, l, ns, t, h, slot, tl, tr, a, b, k, t, {}, {}, t1);
    MakeSettled(p, m, m1, l, ns, t, t1, h, slot, tl, tr, a, b, {});
  }

  // --- what the descent hands down

  /** The parent handed down for a neighbour: `t` itself for a sibling, and otherwise a node outside of `t`, or null. */
  ghost predicate ParentOf<V(0)>(n: Node?<V>, t: NTree<V>, sibling: bool) {
    if sibling then n == t.r else n == null || n !in Refs(t)
  }

  lemma ParentIs<V(0)>(n: Node?<V>, t: NTree<V>, sibling: bool)
    requires ParentOf(n, t, sibling)
    ensures n == t.r <==> sibling
  {
    OwnRef(t);
  }

  lemma KidParent<V(0)>(m: Mem<V>, ns: set<Node<V>>, t: NTree<V>, h: nat, slot: nat, n: Node?<V>, sibling: bool,
                        sibling': bool)
    requires Owned(m, ns, t, h) && t.Inner? && slot < |t.kids| && ParentOf(n, t, sibling)
    ensures ParentOf(if sibling' then t.kids[slot].r else n, t.kids[slot], sibling')
  {
    hide Refs, Rep, Distinct;
    KidOwned(m, ns, t, h, slot);
  }

  lemma NeighbourShape<R, V>(p: Params, n: Option<Tree<R, V>>, h: nat)
    requires Neighbour(p, n, h) && n.Some? && h > 0
    ensures n.value.Inner? && 1 <= |n.value.keys| && |n.value.kids| == |n.value.keys| + 1
  {
  }

  lemma LeftOfIs<V(0)>(t: NTree<V>, slot: nat, tl: Option<NTree<V>>)
    requires t.Inner? && slot < |t.kids|
    requires tl.Some? ==> tl.value.Inner? && |tl.value.kids| >= |tl.value.keys| >= 1
    ensures RefOf(LeftOf(t, slot, tl)) ==
            if slot > 0 then t.kids[slot - 1].r else if tl.None? then null else tl.value.kids[|tl.value.keys| - 1].r
  {
  }

  lemma RightOfIs<V(0)>(t: NTree<V>, slot: nat, tr: Option<NTree<V>>)
    requires t.Inner? && slot < |t.kids|
    requires tr.Some? ==> tr.value.Inner? && tr.value.kids != []
    ensures RefOf(RightOf(t, slot, tr)) ==
            if slot < |t.kids| - 1 then t.kids[slot + 1].r else if tr.None? then null else tr.value.kids[0].r
  {
  }

  lemma NearIs<V(0)>(m: Mem<V>, ns: set<Node<V>>, tn: Option<NTree<V>>, t: NTree<V>, h: nat, slot: nat)
    requires t.Inner? && slot < |t.kids| && h > 0 && Near(m, ns, tn, t, h, slot)
    ensures tn.Some? ==> Owned(m, ns, tn.value, h - 1)
    ensures RefOf(tn) == (if tn.None? then null else tn.value.r)
  {
  }

  lemma InnerKeys<V(0)>(p: Params, m: Mem<V>, l: Links<V>, ns: set<Node<V>>, t: NTree<V>, h: nat, slot: nat,
                        tl: Option<NTree<V>>, tr: Option<NTree<V>>, a: seq<Node<V>>, b: seq<Node<V>>, k: Key)
    requires EraseReady(p, m, l, ns, t, h, slot, tl, tr, a, b, k) && t.kids[slot].Inner?
    ensures var kid := t.kids[slot];
            && kid.r in m && m[kid.r].keys == kid.keys && SortedKeys(kid.keys) && kid.r in ns
            && Neighbour(p, tl, h - 1) && Neighbour(p, tr, h - 1)
            && (tl.Some? ==> tl.value.Inner? && |tl.value.kids| >= |tl.value.keys| >= 1)
            && (tr.Some? ==> tr.value.Inner? && tr.value.kids != [])
  {
    hide MaxKey, Lower, Flat, Chain, Leaves, Refs, Distinct, Around, Near, SortedKeys;
    var kid := t.kids[slot];
    KidOwned(m, ns, t, h, slot);
    RepIs(m, kid, h - 1);
    InnerLevel(m, ns, kid, h - 1);
    KidIsRow(p, t, h - 1, slot, k);
    SeparatorsSorted(p, kid.keys, kid.kids, h - 2);
    if tl.Some? {
      NeighbourShape(p, tl, h - 1);
    }
    if tr.Some? {
      NeighbourShape(p, tr, h - 1);
    }
  }

  lemma AscendNotFound<R, V>(p: Params, t: Tree<R, V>, slot: nat, tl: Option<Tree<R, V>>, tr: Option<Tree<R, V>>,
                             s: nat)
    requires t.Inner? && slot < |t.kids| && (slot > 0 ==> tl.Some?) && (slot < |t.kids| - 1 ==> tr.Some?)
    ensures Ascend(p, t, slot, tl, tr, s, Outcome.NotFound).NotFound?
  {
  }

  lemma MakeOwned<V(0)>(m: Mem<V>, ns: set<Node<V>>, t: NTree<V>, h: nat)
    requires Rep(m, t, h) && Distinct(Refs(t)) && forall r :: r in Refs(t) ==> r in ns
    ensures Owned(m, ns, t, h)
  {
  }
}
