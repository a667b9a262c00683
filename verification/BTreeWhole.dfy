/** The state of a tree object as a whole: which heaps, links and counts belong to which tree. */
module BTreeWhole {
  import opened Options
  import opened Sorted
  import opened BTree
  import opened BTreeSearch
  import opened BTreeErase
  import opened BTreeRefs
  import opened BTreeNode
  import opened BTreeHeap
  import opened BTreeHeapInsert
  import opened BTreeHeapErase
  import opened BTreeEraseProof
  import Run = BTreeRun
  import Ins = BTreeInsert

  type Whole<V(0)> = Option<NTree<V>>

  /** The statistics that a tree object keeps. */
  datatype Stats = Stats(itemcount: int, leaves: int, innernodes: int)

  /** The nodes in `ns`, and no others, make up the tree, in the heap `m` and in the chain of leaves `l`. */
  ghost predicate Shape<V(0)>(p: Params, root: Node?<V>, w: Whole<V>, m: Mem<V>, l: Links<V>, ns: set<Node<V>>,
                              s: Stats) {
    match w
    case None => root == null && ns == {} && Chain(l, []) && s == Stats(0, 0, 0)
    case Some(t) =>
      && root == t.r
      && Ready(p, m, l, ns, t, Run.Height(t), [], [])
      && Refs(t) == multiset(ns)
      && s == Stats(|Contents(t)|, |Leaves(t)|, |ns| - |Leaves(t)|)
  }

  /** A row of one or two trees that replaces the whole tree: its nodes are all the nodes, each once. */
  lemma RowOwned<V(0)>(m: Mem<V>, m': Mem<V>, ns: set<Node<V>>, t: NTree<V>, row: seq<NTree<V>>, h: nat,
                       added: set<Node<V>>)
    requires Owned(m, ns, t, h) && Refs(t) == multiset(ns) && Became(m, m', ns, t, row, h, added)
    ensures RowRefs(row) == multiset(ns + added) && RowRep(m', row, h)
  {
    SetSum(ns, added);
    hide Rep, Refs, Distinct, RowRefs;
  }

  lemma SetDistinct<R>(s: set<R>)
    ensures Distinct(multiset(s))
  {
  }

  /** The tree became the single tree `t'`. */
  lemma GrownWhole<V(0)>(p: Params, m: Mem<V>, l: Links<V>, ns: set<Node<V>>, t: NTree<V>, h: nat, x: Item<V>,
                         e: Effect<V>, s: Stats)
    requires h == Run.Height(t) && Shape(p, t.r, Some(t), m, l, ns, s)
    requires Done(p, m, l, ns, t, h, [], [], x, e) && e.o.Grown? && ns + e.added <= e.mem.Keys
    ensures Shape(p, t.r, Some(e.o.t), e.mem, e.links, ns + e.added,
                  Stats(s.itemcount + 1, s.leaves + NewLeaves(t, e.o), s.innernodes + |e.added| - NewLeaves(t, e.o)))
  {
    hide Lower, Upper, Keys, Chain, Ins.Insert, Rep, Below, Flat, Leaves, RowLeaves, Refs;
    var t' := e.o.t;
    Ins.InsertCorrect(p, t, h, true, x, e.pool);
    InsertOrdered(p, t, h, x, e.pool);
    Run.HeightIs(p, t', h, true);
    RowOwned(m, e.mem, ns, t, [t'], h, e.added);
    RowRefsOne(t');
    RowLeavesOne(t');
    FlatOne(t');
    KeepsNode(p, t, x, e.pool);
    assert [] + RowLeaves([t']) + [] == Leaves(t');
    assert Rep(e.mem, [t'][0], h);
    WholeReady(p, e.mem, e.links, ns + e.added, t', h);
    assert |ns + e.added| == |ns| + |e.added|;
  }

  /** The tree was split, and a new root was put above the two. */
  lemma SplitWhole<V(0)>(p: Params, m: Mem<V>, l: Links<V>, ns: set<Node<V>>, t: NTree<V>, h: nat, x: Item<V>,
                         e: Effect<V>,
                         s: Stats, nr: Node<V>)
    requires h == Run.Height(t) && Shape(p, t.r, Some(t), m, l, ns, s)
    requires Done(p, m, l, ns, t, h, [], [], x, e) && e.o.Split? && ns + e.added <= e.mem.Keys && nr !in ns
             && nr !in e.added
    ensures e.o.l.r == t.r
    ensures var t' := Inner(nr, [e.o.up], [e.o.l, e.o.n]);
            Shape(p, nr, Some(t'), Put(e.mem, nr, InnerCell(h + 1, [e.o.up], [t.r, e.o.n.r])), e.links,
                  ns + e.added + {nr},
                  Stats(s.itemcount + 1, s.leaves + NewLeaves(t, e.o),
                        s.innernodes + |e.added| - NewLeaves(t, e.o) + 1))
  {
    hide Lower, Upper, Keys, Chain, Ins.Insert, Rep, Below, Flat, Leaves, RowLeaves, Refs, RowRefs, Put, MaxKey;
    var row := [e.o.l, e.o.n];
    var t' := Inner(nr, [e.o.up], row);
    var m' := Put(e.mem, nr, InnerCell(h + 1, [e.o.up], [t.r, e.o.n.r]));
    Ins.InsertCorrect(p, t, h, true, x, e.pool);
    InsertOrdered(p, t, h, x, e.pool);
    Run.SplitRoot(p, h, nr, e.o.l, e.o.up, e.o.n);
    Run.HeightIs(p, t', h + 1, true);
    RowOwned(m, e.mem, ns, t, row, h, e.added);
    KeepsNode(p, t, x, e.pool);
    RootRep(e.mem, ns + e.added, nr, e.o.up, e.o.l, e.o.n, h);
    RootParts(nr, e.o.up, e.o.l, e.o.n, ns + e.added);
    assert [] + RowLeaves(row) + [] == Leaves(t');
    WholeReady(p, m', e.links, ns + e.added + {nr}, t', h + 1);
    assert |ns + e.added| == |ns| + |e.added|;
  }

  lemma RootRep<V(0)>(m: Mem<V>, ns: set<Node<V>>, nr: Node<V>, up: Key, l: NTree<V>, n: NTree<V>, h: nat)
    requires RowRep(m, [l, n], h) && RowRefs([l, n]) == multiset(ns) && nr !in ns && ns <= m.Keys
    ensures var m' := Put(m, nr, InnerCell(h + 1, [up], [l.r, n.r]));
            ns + {nr} <= m'.Keys && Rep(m', Inner(nr, [up], [l, n]), h + 1)
  {
    hide Rep, RowRep, RowRefs;
    var m' := Put(m, nr, InnerCell(h + 1, [up], [l.r, n.r]));
    RowFrame(m, m', [l, n], h);
    assert KidRefs([l, n]) == [l.r, n.r];
    MakeRep(m', nr, [up], [l, n], h + 1);
  }

  lemma RootParts<R, V>(nr: R, up: Key, l: Tree<R, V>, n: Tree<R, V>, ns: set<R>)
    requires RowRefs([l, n]) == multiset(ns) && nr !in ns
    ensures var t := Inner(nr, [up], [l, n]);
            && Refs(t) == multiset(ns + {nr}) && Leaves(t) == RowLeaves([l, n]) && Contents(t) == Flat([l, n])
  {
    hide RowRefs, RowLeaves, Flat;
    SetSum(ns, {nr});
    assert multiset({nr}) == multiset{nr};
  }

  lemma WholeReady<V(0)>(p: Params, m: Mem<V>, l: Links<V>, ns: set<Node<V>>, t: NTree<V>, h: nat)
    requires Valid(p, t, h, true) && Ordered(t) && Rep(m, t, h) && Refs(t) == multiset(ns) && ns <= m.Keys
             && Chain(l, Leaves(t))
    ensures Ready(p, m, l, ns, t, h, [], [])
  {
    hide Chain, Valid, Ordered, Rep, Leaves, Refs;
    assert [] + Leaves(t) + [] == Leaves(t);
    LeavesAreRefs(t);
    assert forall n :: n in Leaves(t) ==> n in multiset(Leaves(t));
  }

  lemma InsertOrdered<R, V>(p: Params, t: Tree<R, V>, h: nat, x: Item<V>, pool: seq<R>)
    requires Valid(p, t, h, true) && Ordered(t) && |pool| == h + 1
    ensures var o := Ins.Insert(p, t, x, pool);
            !o.Present? ==> SortedItems(Flat(o.Row())) && |Flat(o.Row())| == |Contents(t)| + 1
  {
    hide Lower, Upper, Keys, Ins.Insert, Below, Flat, Ins.Position;
    Ins.InsertCorrect(p, t, h, true, x, pool);
    var pos := Ins.Position(p, t, h, x);
    if !Ins.Insert(p, t, x, pool).Present? {
      KeysInsert(Contents(t), pos, x);
      InsertSorted(Keys(Contents(t)), pos, x.key);
    }
  }

  /** `after` is `before` with `x` put in, among or next to the pairs with an equal key. */
  ghost predicate PutIn<V>(before: seq<Item<V>>, x: Item<V>, after: seq<Item<V>>, pos: nat) {
    Lower(Keys(before), x.key) <= pos <= Upper(Keys(before), x.key) && after == InsertAt(before, pos, x)
  }

  lemma InsertedPairs<V(0)>(p: Params, m: Mem<V>, l: Links<V>, ns: set<Node<V>>, t: NTree<V>, h: nat, x: Item<V>,
                            e: Effect<V>)
    requires Ready(p, m, l, ns, t, h, [], []) && Done(p, m, l, ns, t, h, [], [], x, e)
    ensures e.o.Present? <==> !p.duplicates && x.key in Keys(Contents(t))
    ensures !e.o.Present? ==> PutIn(Contents(t), x, Flat(e.o.Row()), Ins.Position(p, t, h, x))
  {
    hide Lower, Upper, Keys, Chain, Ins.Insert, Rep, Below, Flat, Leaves, RowLeaves, Refs, Ins.Position;
    Ins.InsertCorrect(p, t, h, true, x, e.pool);
  }

  lemma FirstPair<V(0)>(p: Params, n: Node<V>, l: Links<V>, m: Mem<V>, x: Item<V>)
    requires m.Keys == {n} && m[n] == LeafOf([x]) && l.head == l.tail == n
    requires n in l.prev && n in l.next && l.prev[n] == null == l.next[n]
    ensures Shape(p, n, Some(Leaf(n, [x])), m, l, {n}, Stats(1, 1, 0))
    ensures PutIn([], x, [x], 0)
  {
    var t := Leaf(n, [x]);
    assert multiset({n}) == multiset{n};
    assert Chain(l, Leaves(t));
    WholeReady(p, m, l, {n}, t, 0);
  }

  // ---------------------------------------------------------------- deletion

  /** Deletion may start at an inner root. */
  lemma RootEraseReady<V(0)>(p: Params, m: Mem<V>, l: Links<V>, ns: set<Node<V>>, t: NTree<V>, h: nat, k: Key)
    requires Ready(p, m, l, ns, t, h, [], []) && t.Inner?
    ensures var s := Lower(t.keys, k);
            && s < |t.kids| == |t.keys| + 1 && SortedKeys(t.keys) && t.r in m && m[t.r].keys == t.keys
            && var tl, tr := LeftOf(t, s, None), RightOf(t, s, None);
            EraseReady(p, m, l, ns, t, h, s, tl, tr, [], [], k)
  {
    hide MaxKey, Lower, Flat, Chain, Leaves, Refs, Distinct, Rep, Near, SortedKeys, Row;
    InnerShape(p, t, h, true, k);
    OwnedCell(m, ns, t, h);
    var s := Lower(t.keys, k);
    RootRow(p, t, h, s);
    if s > 0 {
      SiblingNear(m, ns, t, h, s, s - 1);
    }
    if s < |t.keys| {
      SiblingNear(m, ns, t, h, s, s + 1);
    }
    NoNear(m, ns, t, h, s);
  }

  lemma NoNear<V(0)>(m: Mem<V>, ns: set<Node<V>>, t: NTree<V>, h: nat, slot: nat)
    requires t.Inner? && slot < |t.kids| && h > 0
    ensures Near(m, ns, None, t, h, slot)
  {
  }

  lemma SiblingNear<V(0)>(m: Mem<V>, ns: set<Node<V>>, t: NTree<V>, h: nat, slot: nat, i: nat)
    requires Owned(m, ns, t, h) && t.Inner? && slot < |t.kids| && i < |t.kids| && i != slot && h > 0
    ensures Near(m, ns, Some(t.kids[i]), t, h, slot)
  {
    hide Refs, Distinct, Rep;
    KidOwned(m, ns, t, h, i);
    RowDistinct(t);
    if i < slot {
      Apart(t.kids, i, slot);
    } else {
      Apart(t.kids, slot, i);
    }
  }

  lemma RootRow<R, V>(p: Params, t: Tree<R, V>, h: nat, s: nat)
    requires Valid(p, t, h, true) && Ordered(t) && t.Inner? && s < |t.kids|
    ensures h > 0 && Row(p, t, h - 1)
    ensures var l, r := LeftOf(t, s, None), RightOf(t, s, None);
            Siblings(t, s, l, r) && Neighbour(p, l, h - 1) && Neighbour(p, r, h - 1)
  {
    hide MaxKey, Flat;
  }

  lemma AllFreed<R>(all: set<R>, rest: multiset<R>, freed: set<R>)
    requires rest + multiset(freed) == multiset(all)
    ensures freed <= all && rest == multiset(all - freed) && |all - freed| == |all| - |freed|
  {
    forall r | r in freed
      ensures r in all
    {
      assert (rest + multiset(freed))[r] == rest[r] + multiset(freed)[r];
    }
    forall r: R
      ensures rest[r] == multiset(all - freed)[r]
    {
      assert (rest + multiset(freed))[r] == rest[r] + multiset(freed)[r];
    }
  }

  /** The heap after the deletion below an inner root. */
  lemma RootRemoved<V(0)>(p: Params, m: Mem<V>, l: Links<V>, ns: set<Node<V>>, t: NTree<V>, h: nat, k: Key,
                          o: Outcome<Node<V>, V>, r: Removal<V>)
    requires Ready(p, m, l, ns, t, h, [], []) && t.Inner? && Refs(t) == multiset(ns)
    requires var s := Lower(t.keys, k);
             && s < |t.kids| && o == EraseBelow(p, t, s, LeftOf(t, s, None), RightOf(t, s, None), k) && o.Erased?
             && Removed(m, ns, t, h, s, [], [], o, r)
    ensures var s := Lower(t.keys, k);
            && (o.merged ==> CanDrop(o.t, s) && Emptying(o.t, s))
            && h > 0 && ErasedBelow(p, t, h - 1, s, o, k)
            && Owned(r.mem, ns - r.freed, o.t, h) && Refs(o.t) == multiset(ns - r.freed) && o.t.Inner? && o.t.r == t.r
            && Chain(r.links, Leaves(Settle(o, s)))
            && |ns - r.freed| == |ns| - |r.freed| && r.freed <= ns
  {
    hide MaxKey, Lower, Flat, Chain, Leaves, Refs, Distinct, Rep, Near, SortedKeys, Row, EraseBelow, ErasedBelow,
         Emptying, LeftOf, RightOf, CanDrop, DropIndex, Hollow, Settle, Keys, Contents;
    var s := Lower(t.keys, k);
    InnerLevel(m, ns, t, h);
    RootRow(p, t, h, s);
    EraseBelowCorrect(p, t, h - 1, s, LeftOf(t, s, None), RightOf(t, s, None), k);
    ErasedIs(p, t, h - 1, s, o, k);
    if o.merged {
      ErasedIsEmptying(p, r.mem, t, h - 1, s, o, k);
    }
    AllFreed(ns, Refs(o.t), r.freed);
    SetDistinct(ns - r.freed);
    assert [] + Leaves(Settle(o, s)) + [] == Leaves(Settle(o, s));
  }

  /** What the root is once all is settled, and what the tree then holds. */
  lemma RootSettled<R, V>(p: Params, t: Tree<R, V>, h: nat, k: Key, o: Outcome<R, V>)
    requires Valid(p, t, h, true) && Ordered(t) && t.Inner?
    requires var s := Lower(t.keys, k);
             s < |t.kids| && o == EraseBelow(p, t, s, LeftOf(t, s, None), RightOf(t, s, None), k)
    ensures if k !in Keys(Contents(t)) then o.NotFound?
            else
              && o.Erased? && (o.merged ==> CanDrop(o.t, Lower(t.keys, k)))
              && var q, i := Settle(o, Lower(t.keys, k)), FirstAt(Contents(t), k);
              && i < |Contents(t)| && Contents(t)[i].key == k
              && q.Inner? && |q.kids| == |q.keys| + 1
              && var w := if q.keys == [] then q.kids[0] else q;
              && Contents(w) == RemoveAt(Contents(t), i) && Ordered(w)
              && (Valid(p, w, h, true) || (h > 0 && Valid(p, w, h - 1, true)))
  {
    hide MaxKey, Lower, Flat, Near, SortedKeys, EraseBelow, Keys, Contents, RemoveAt;
    var s := Lower(t.keys, k);
    RootRow(p, t, h, s);
    EraseBelowCorrect(p, t, h - 1, s, LeftOf(t, s, None), RightOf(t, s, None), k);
    Run.EraseRootCorrect(p, t, h, k);
    if k in Keys(Contents(t)) {
      ErasedIs(p, t, h - 1, s, o, k);
      SettledRow(p, t, h - 1, s, o, k);
    }
  }

  lemma SettledRow<R, V>(p: Params, t: Tree<R, V>, h: nat, slot: nat, o: Outcome<R, V>, k: Key)
    requires ErasedBelow(p, t, h, slot, o, k)
    ensures var q := Settle(o, slot); q.Inner? && |q.kids| == |q.keys| + 1
  {
    hide MaxKey, Flat, Keys, Lower;
  }

  /** The tree in the heap once the root is settled. */
  lemma ErasedWhole<V(0)>(p: Params, m: Mem<V>, l: Links<V>, ns: set<Node<V>>, q: NTree<V>, h: nat, h': nat, s: Stats)
    requires Owned(m, ns, q, h) && ns <= m.Keys && Refs(q) == multiset(ns) && Chain(l, Leaves(q))
    requires Valid(p, q, h', true) && Ordered(q)
    requires s == Stats(|Contents(q)|, |Leaves(q)|, |ns| - |Leaves(q)|)
    ensures Shape(p, q.r, Some(q), m, l, ns, s)
  {
    hide MaxKey, Flat, Keys, Lower, Chain, Leaves, Refs, Contents, Distinct;
    SameHeight(p, m, q, h, h');
    Run.HeightIs(p, q, h', true);
    hide Rep;
    WholeReady(p, m, l, ns, q, h);
  }

  lemma {:induction false} SameHeight<V(0)>(p: Params, m: Mem<V>, t: NTree<V>, h: nat, h': nat)
    requires Rep(m, t, h) && Valid(p, t, h', true)
    ensures h == h'
    decreases t
  {
    hide MaxKey;
    if t.Inner? {
      assert t.kids[0] in t.kids && Valid(p, t.kids[0], h' - 1, true);
      SameHeight(p, m, t.kids[0], h - 1, h' - 1);
    }
  }

  /** The root has a single child left, which takes its place. */
  lemma CollapsedWhole<V(0)>(p: Params, m: Mem<V>, l: Links<V>, ns: set<Node<V>>, q: NTree<V>, h: nat, h': nat,
                             s: Stats)
    requires Owned(m, ns, q, h) && ns <= m.Keys && Refs(q) == multiset(ns) && Chain(l, Leaves(q))
    requires q.Inner? && |q.kids| == 1 && Valid(p, q.kids[0], h', true) && Ordered(q.kids[0])
    requires s == Stats(|Contents(q.kids[0])|, |Leaves(q)|, |ns| - 1 - |Leaves(q)|)
    ensures q.r in ns && Shape(p, q.kids[0].r, Some(q.kids[0]), m, l, ns - {q.r}, s)
  {
    hide MaxKey, Flat, Keys, Lower, Chain, Leaves, Refs, Contents, Distinct, Rep;
    var w := q.kids[0];
    KidOwned(m, ns, q, h, 0);
    NodeAndRow(q);
    assert q.kids == [w];
    RowRefsOne(w);
    RowLeavesOne(w);
    assert multiset({q.r}) == multiset{q.r};
    AllFreed(ns, Refs(w), {q.r});
    ErasedWhole(p, m, l, ns - {q.r}, w, h - 1, h', s);
  }

  /** `after` is `before` without the first pair that has the key `k`. */
  ghost predicate TakenOut<V>(before: seq<Item<V>>, k: Key, after: seq<Item<V>>) {
    var i := FirstAt(before, k);
    i < |before| && before[i].key == k && after == RemoveAt(before, i)
  }

  /** Deletion in a root that is a leaf. */
  lemma LeafRootErased<V(0)>(p: Params, m: Mem<V>, l: Links<V>, ns: set<Node<V>>, t: NTree<V>, k: Key, s: Stats)
    requires Shape(p, t.r, Some(t), m, l, ns, s) && t.Leaf?
    ensures t.r in m && m[t.r] == LeafOf(t.items) && t.r in ns && SortedItems(t.items) && Contents(t) == t.items
            && ns == {t.r}
    ensures k in Keys(t.items) ==>
              var i := Lower(Keys(t.items), k);
              && i < |t.items|
              && var items' := RemoveAt(t.items, i);
              && TakenOut(t.items, k, items') && s == Stats(|t.items|, 1, 0)
              && (items' != [] ==> Shape(p, t.r, Some(Leaf(t.r, items')), Put(m, t.r, LeafOf(items')), l, ns,
                                         Stats(s.itemcount - 1, 1, 0)))
  {
    hide MaxKey, Chain, Keys, Lower, Distinct, LeafOf, RemoveAt;
    OwnedCell(m, ns, t, Run.Height(t));
    OneNodeSet(t, ns);
    if k in Keys(t.items) {
      LowerFinds(Keys(t.items), k);
      KeysAt(t.items);
      var i := Lower(Keys(t.items), k);
      var items' := RemoveAt(t.items, i);
      KeysRemove(t.items, i);
      RemoveSorted(Keys(t.items), i);
      RemovedLength(t.items, i);
      if items' != [] {
        LeafWhole(p, m, l, ns, t, items', s);
      }
    }
  }

  lemma OneNodeSet<V(0)>(t: NTree<V>, ns: set<Node<V>>)
    requires t.Leaf? && Refs(t) == multiset(ns)
    ensures ns == {t.r} && Leaves(t) == [t.r]
  {
    forall n | n in ns
      ensures n == t.r
    {
      assert n in multiset(ns);
    }
    assert t.r in multiset(ns);
  }

  lemma LeafWhole<V(0)>(p: Params, m: Mem<V>, l: Links<V>, ns: set<Node<V>>, t: NTree<V>, items: seq<Item<V>>, s: Stats)
    requires Shape(p, t.r, Some(t), m, l, ns, s) && t.Leaf? && items != [] && |items| <= |t.items| && SortedItems(items)
    ensures Shape(p, t.r, Some(Leaf(t.r, items)), Put(m, t.r, LeafOf(items)), l, ns,
                  Stats(|items|, s.leaves, s.innernodes))
  {
    hide Chain, Keys, Distinct, Datas;
    OneNodeSet(t, ns);
    var t': NTree<V> := Leaf(t.r, items);
    var m' := Put(m, t.r, LeafOf(items));
    assert Rep(m', t', 0);
    assert [] + Leaves(t) + [] == Leaves(t) == Leaves(t');
    WholeReady(p, m', l, ns, t', 0);
  }

  lemma IsTakenOut<V>(before: seq<Item<V>>, k: Key, after: seq<Item<V>>)
    requires var i := FirstAt(before, k); i < |before| && before[i].key == k && after == RemoveAt(before, i)
    ensures TakenOut(before, k, after)
  {
  }

  lemma NoKeys<V>(k: Key)
    ensures k !in Keys<V>([])
  {
  }

  lemma ShapeFacts<V(0)>(p: Params, m: Mem<V>, l: Links<V>, ns: set<Node<V>>, t: NTree<V>, h: nat, s: Stats)
    requires Shape(p, t.r, Some(t), m, l, ns, s) && h == Run.Height(t)
    ensures Refs(t) == multiset(ns) && s.itemcount == |Contents(t)| && s.leaves == |Leaves(t)|
            && s.leaves + s.innernodes == |ns|
    ensures BTree.Valid(p, t, h, true) && Ordered(t) && Owned(m, ns, t, h)
  {
  }

  // ------------------------------------------------------- erasing all of a key

  /** The pairs without the first `n` of those that have the key `k`. */
  function WithoutFirst<V>(items: seq<Item<V>>, k: Key, n: nat): seq<Item<V>> {
    var i := FirstAt(items, k);
    if i + n <= |items| then items[..i] + items[i + n..] else items[..i]
  }

  /** What is left once the first `n` pairs with the key are gone. */
  lemma WithoutFacts<V>(items: seq<Item<V>>, k: Key, n: nat)
    requires SortedItems(items) && Lower(Keys(items), k) + n <= Upper(Keys(items), k)
    ensures var rest := WithoutFirst(items, k, n);
            && FirstAt(rest, k) == FirstAt(items, k) && Lower(Keys(items), k) + n <= |items|
            && (k in Keys(rest) <==> Lower(Keys(items), k) + n < Upper(Keys(items), k))
  {
    var rest, i, u := WithoutFirst(items, k, n), FirstAt(items, k), Upper(Keys(items), k);
    var ks, rs := Keys(items), Keys(rest);
    LowerFacts(ks, k);
    UpperFacts(ks, k);
    RestKeys(items, i, n);
    hide Lower, Upper;
    SortedRest(ks, i, n);
    assert i > 0 ==> rs[i - 1] == ks[i - 1];
    assert i < |rs| ==> rs[i] == ks[i + n];
    LowerUnique(rs, k, i);
    LowerFinds(rs, k);
  }

  lemma RestKeys<V>(items: seq<Item<V>>, i: nat, n: nat)
    requires i + n <= |items|
    ensures Keys(items[..i] + items[i + n..]) == Keys(items)[..i] + Keys(items)[i + n..]
  {
  }

  lemma SortedRest(ks: seq<Key>, i: nat, n: nat)
    requires SortedKeys(ks) && i + n <= |ks|
    ensures SortedKeys(ks[..i] + ks[i + n..])
  {
  }

  lemma WithoutMore<V>(items: seq<Item<V>>, k: Key, n: nat, after: seq<Item<V>>)
    requires n > 0 && SortedItems(items) && Lower(Keys(items), k) + n - 1 < Upper(Keys(items), k)
    requires TakenOut(WithoutFirst(items, k, n - 1), k, after)
    ensures after == WithoutFirst(items, k, n)
  {
    WithoutFacts(items, k, n - 1);
    var i := FirstAt(items, k);
    hide Lower, Upper;
    RemoveFromRest(items, i, n - 1);
  }

  lemma RemoveFromRest<T>(s: seq<T>, i: nat, n: nat)
    requires i + n < |s|
    ensures RemoveAt(s[..i] + s[i + n..], i) == s[..i] + s[i + n + 1..]
  {
  }

  lemma WithoutNone<V>(items: seq<Item<V>>, k: Key)
    ensures WithoutFirst(items, k, 0) == items && Lower(Keys(items), k) <= Upper(Keys(items), k) <= |items|
  {
    LowerAtMostUpper(Keys(items), k);
  }

  // ------------------------------------------------------------- unique keys

  ghost predicate StrictKeys(ks: seq<Key>) {
    forall i, j :: 0 <= i < j < |ks| ==> ks[i] < ks[j]
  }

  /** Putting a new key in keeps the keys different from one another. */
  lemma PutInStrict<V>(before: seq<Item<V>>, x: Item<V>, after: seq<Item<V>>, pos: nat)
    requires StrictKeys(Keys(before)) && PutIn(before, x, after, pos) && x.key !in Keys(before)
    ensures StrictKeys(Keys(after))
  {
    var ks := Keys(before);
    LowerFacts(ks, x.key);
    UpperFacts(ks, x.key);
    hide Lower, Upper;
    KeysInsert(before, pos, x);
    forall i | 0 <= i < |ks|
      ensures ks[i] != x.key && (i < pos ==> ks[i] < x.key) && (pos <= i ==> x.key < ks[i])
    {
      assert ks[i] in ks;
    }
    InsertStrict(ks, pos, x.key);
  }

  lemma InsertStrict(ks: seq<Key>, pos: nat, k: Key)
    requires StrictKeys(ks) && pos <= |ks|
    requires forall i :: 0 <= i < |ks| ==> (i < pos ==> ks[i] < k) && (pos <= i ==> k < ks[i])
    ensures StrictKeys(InsertAt(ks, pos, k))
  {
    InsertAtIndex(ks, pos, k);
    hide InsertAt;
  }

  lemma TakenOutStrict<V>(before: seq<Item<V>>, k: Key, after: seq<Item<V>>)
    requires StrictKeys(Keys(before)) && TakenOut(before, k, after)
    ensures StrictKeys(Keys(after))
  {
    hide Lower, Upper;
    var i := FirstAt(before, k);
    KeysRemove(before, i);
    RemoveAtIndex(Keys(before), i);
    hide RemoveAt;
  }

  /** A key that occurs at most once. */
  lemma OnceAtMost<V>(items: seq<Item<V>>, k: Key)
    requires StrictKeys(Keys(items))
    ensures Upper(Keys(items), k) <= Lower(Keys(items), k) + 1
    ensures SortedItems(items)
  {
    var ks := Keys(items);
    LowerFacts(ks, k);
    UpperFacts(ks, k);
    hide Lower, Upper;
    var i, u := Lower(ks, k), Upper(ks, k);
    if i + 1 < |ks| {
      assert ks[i] < ks[i + 1];
    }
  }

  lemma EmptySorted<V>()
    ensures SortedItems<V>([]) && StrictKeys(Keys<V>([]))
  {
  }
}
