/** Positions in a tree: which leaf and slot stand for which place in the sequence of all pairs. */
module BTreeCursor {
  import opened Sorted
  import opened BTree
  import opened BTreeSearch
  import opened BTreeRefs
  import Ins = BTreeInsert

  /** A leaf with its pairs. */
  datatype Block<R, V> = Block(r: R, items: seq<Item<V>>)

  function Blocks<R, V>(t: Tree<R, V>): seq<Block<R, V>> {
    match t
    case Leaf(r, items) => [Block(r, items)]
    case Inner(_, _, kids) => RowBlocks(kids)
  }

  function RowBlocks<R, V>(kids: seq<Tree<R, V>>): seq<Block<R, V>> {
    if kids == [] then [] else Blocks(kids[0]) + RowBlocks(kids[1..])
  }

  function Join<R, V>(bs: seq<Block<R, V>>): seq<Item<V>> {
    if bs == [] then [] else bs[0].items + Join(bs[1..])
  }

  lemma {:induction false} JoinConcat<R, V>(a: seq<Block<R, V>>, b: seq<Block<R, V>>)
    ensures Join(a + b) == Join(a) + Join(b)
  {
    if a == [] {
      assert a + b == b;
    } else {
      JoinConcat(a[1..], b);
      JoinFirst(a, b);
      Grouped(a[0].items, Join(a[1..]), Join(b));
    }
  }

  lemma JoinFirst<R, V>(a: seq<Block<R, V>>, b: seq<Block<R, V>>)
    requires a != []
    ensures Join(a + b) == a[0].items + Join(a[1..] + b)
  {
    assert (a + b)[1..] == a[1..] + b;
  }

  lemma {:induction false} RowBlocksConcat<R, V>(a: seq<Tree<R, V>>, b: seq<Tree<R, V>>)
    ensures RowBlocks(a + b) == RowBlocks(a) + RowBlocks(b)
  {
    hide Blocks;
    if a == [] {
      assert a + b == b;
    } else {
      RowBlocksConcat(a[1..], b);
      RowBlocksFirst(a, b);
      Grouped(Blocks(a[0]), RowBlocks(a[1..]), RowBlocks(b));
    }
  }

  lemma RowBlocksFirst<R, V>(a: seq<Tree<R, V>>, b: seq<Tree<R, V>>)
    requires a != []
    ensures RowBlocks(a + b) == Blocks(a[0]) + RowBlocks(a[1..] + b)
  {
    assert (a + b)[1..] == a[1..] + b;
  }

  lemma RowBlocksOne<R, V>(t: Tree<R, V>)
    ensures RowBlocks([t]) == Blocks(t)
  {
    assert RowBlocks([t]) == Blocks(t) + RowBlocks<R, V>([]);
  }

  lemma RowBlocksSplit<R, V>(kids: seq<Tree<R, V>>, i: nat)
    requires i < |kids|
    ensures RowBlocks(kids) == RowBlocks(kids[..i]) + Blocks(kids[i]) + RowBlocks(kids[i + 1..])
  {
    hide Blocks;
    var right := kids[i..];
    assert kids == kids[..i] + right;
    RowBlocksConcat(kids[..i], right);
    assert right[0] == kids[i] && right[1..] == kids[i + 1..];
  }

  /** The leaves hold the pairs of the tree, in order. */
  lemma {:induction false} JoinBlocks<R, V>(t: Tree<R, V>)
    ensures Join(Blocks(t)) == Contents(t)
    decreases t, 1
  {
    match t
    case Leaf(r, items) =>
      assert Join([Block(r, items)]) == items + Join<R, V>([]);
    case Inner(_, _, kids) =>
      JoinRow(kids);
  }

  lemma {:induction false} JoinRow<R, V>(kids: seq<Tree<R, V>>)
    ensures Join(RowBlocks(kids)) == Flat(kids)
    decreases kids, 0
  {
    if kids != [] {
      JoinBlocks(kids[0]);
      JoinRow(kids[1..]);
      JoinConcat(Blocks(kids[0]), RowBlocks(kids[1..]));
    }
  }

  lemma {:induction false} BlockLeaves<R, V>(t: Tree<R, V>)
    ensures |Blocks(t)| == |Leaves(t)|
    ensures forall i :: 0 <= i < |Blocks(t)| ==> Blocks(t)[i].r == Leaves(t)[i]
    decreases t, 1
  {
    if t.Inner? {
      RowBlockLeaves(t.kids);
    }
  }

  lemma {:induction false} RowBlockLeaves<R, V>(kids: seq<Tree<R, V>>)
    ensures |RowBlocks(kids)| == |RowLeaves(kids)|
    ensures forall i :: 0 <= i < |RowBlocks(kids)| ==> RowBlocks(kids)[i].r == RowLeaves(kids)[i]
    decreases kids, 0
  {
    if kids != [] {
      BlockLeaves(kids[0]);
      RowBlockLeaves(kids[1..]);
    }
  }

  /** No leaf of a valid tree is empty. */
  ghost predicate Full<R, V>(bs: seq<Block<R, V>>) {
    forall i :: 0 <= i < |bs| ==> bs[i].items != []
  }

  lemma {:induction false} BlocksFull<R, V>(p: Params, t: Tree<R, V>, h: nat, root: bool)
    requires Valid(p, t, h, root)
    ensures Full(Blocks(t)) && Blocks(t) != []
    decreases t, 1
  {
    hide MaxKey;
    if t.Inner? {
      RowBlocksFull(p, t.kids, h - 1);
    }
  }

  lemma {:induction false} RowBlocksFull<R, V>(p: Params, kids: seq<Tree<R, V>>, h: nat)
    requires AllValid(p, kids, h)
    ensures Full(RowBlocks(kids)) && (kids != [] ==> RowBlocks(kids) != [])
    decreases kids, 0
  {
    hide MaxKey, Below, Fill;
    if kids != [] {
      BlocksFull(p, kids[0], h, false);
      RowBlocksFull(p, kids[1..], h);
    }
  }

  // ----------------------------------------------------------------- positions

  /** Slot `slot` of block `j`: a slot in use, or the end of the last block. */
  ghost predicate InBlock<R, V>(bs: seq<Block<R, V>>, j: nat, slot: nat) {
    j < |bs| && (slot < |bs[j].items| || (j == |bs| - 1 && slot == |bs[j].items|))
  }

  function Start<R, V>(bs: seq<Block<R, V>>, j: nat): nat
    requires j <= |bs|
  {
    |Join(bs[..j])|
  }

  /** The iterator stands at position `pos` of all pairs; the end stands behind the last pair of the last leaf. */
  ghost predicate Stands<R, V>(bs: seq<Block<R, V>>, it: Ins.Iter<R>, pos: nat) {
    exists j: nat :: InBlock(bs, j, it.slot) && bs[j].r == it.leaf && pos == Start(bs, j) + it.slot
  }

  /** The pairs before, in and after a block. */
  lemma BlockAt<R, V>(bs: seq<Block<R, V>>, j: nat)
    requires j < |bs|
    ensures Join(bs) == Join(bs[..j]) + bs[j].items + Join(bs[j + 1..])
    ensures Start(bs, j + 1) == Start(bs, j) + |bs[j].items|
  {
    assert bs == bs[..j] + bs[j..];
    JoinConcat(bs[..j], bs[j..]);
    assert bs[j..][1..] == bs[j + 1..];
    assert bs[..j + 1] == bs[..j] + [bs[j]];
    JoinConcat(bs[..j], [bs[j]]);
    assert Join([bs[j]]) == bs[j].items + Join<R, V>([]);
  }

  lemma StartAll<R, V>(bs: seq<Block<R, V>>)
    ensures Start(bs, |bs|) == |Join(bs)|
  {
    assert bs[..|bs|] == bs;
  }

  /** Where an iterator stands there is a pair, unless it is the end. */
  lemma PairThere<R, V>(bs: seq<Block<R, V>>, j: nat, slot: nat)
    requires InBlock(bs, j, slot)
    ensures Start(bs, j) + slot <= |Join(bs)|
    ensures slot < |bs[j].items| <==> Start(bs, j) + slot < |Join(bs)|
    ensures slot < |bs[j].items| ==> Join(bs)[Start(bs, j) + slot] == bs[j].items[slot]
  {
    BlockAt(bs, j);
    hide Join;
    if j == |bs| - 1 {
      StartAll(bs);
      assert bs[j + 1..] == [];
    }
  }

  lemma {:induction false} StartGrows<R, V>(bs: seq<Block<R, V>>, i: nat, j: nat)
    requires Full(bs) && i < j <= |bs|
    ensures Start(bs, i) + |bs[i].items| <= Start(bs, j) && Start(bs, i) < Start(bs, j)
    decreases j
  {
    hide Join;
    if i + 1 == j {
      BlockAt(bs, i);
    } else {
      StartGrows(bs, i, j - 1);
      BlockAt(bs, j - 1);
    }
  }

  /** One position, one iterator. */
  lemma SamePlace<R, V>(bs: seq<Block<R, V>>, j: nat, slot: nat, j': nat, slot': nat)
    requires Full(bs) && InBlock(bs, j, slot) && InBlock(bs, j', slot')
    requires Start(bs, j) + slot == Start(bs, j') + slot'
    ensures j == j' && slot == slot'
  {
    hide Join, Start;
    if j < j' {
      StartGrows(bs, j, j');
    } else if j' < j {
      StartGrows(bs, j', j);
    }
  }

  lemma OneIterator<R, V>(bs: seq<Block<R, V>>, x: Ins.Iter<R>, y: Ins.Iter<R>, pos: nat)
    requires Full(bs) && Stands(bs, x, pos) && Stands(bs, y, pos)
    ensures x == y
  {
    var j: nat :| InBlock(bs, j, x.slot) && bs[j].r == x.leaf && pos == Start(bs, j) + x.slot;
    var j': nat :| InBlock(bs, j', y.slot) && bs[j'].r == y.leaf && pos == Start(bs, j') + y.slot;
    SamePlace(bs, j, x.slot, j', y.slot);
  }

  // -------------------------------------------------------------------- bounds

  /** Where the descent for a lower or an upper bound ends. */
  function BoundAt<R, V>(t: Tree<R, V>, k: Key, upper: bool): Ins.Iter<R> {
    match t
    case Leaf(r, items) => Ins.Iter(r, if upper then Upper(Keys(items), k) else Lower(Keys(items), k))
    case Inner(r, keys, kids) =>
      var slot := if upper then Upper(keys, k) else Lower(keys, k);
      if slot < |kids| then BoundAt(kids[slot], k, upper) else Ins.Iter(r, 0)
  }

  function Bound(ks: seq<Key>, k: Key, upper: bool): nat {
    if upper then Upper(ks, k) else Lower(ks, k)
  }

  /** A position in some blocks, seen from a longer row of blocks. */
  lemma StandsMiddle<R, V>(x: seq<Block<R, V>>, bs: seq<Block<R, V>>, y: seq<Block<R, V>>, it: Ins.Iter<R>, pos: nat)
    requires Stands(bs, it, pos) && (pos < |Join(bs)| || y == [])
    ensures Stands(x + bs + y, it, |Join(x)| + pos)
  {
    hide Join;
    var j: nat :| InBlock(bs, j, it.slot) && bs[j].r == it.leaf && pos == Start(bs, j) + it.slot;
    PairThere(bs, j, it.slot);
    StartInMiddle(x, bs, y, j);
    assert (x + bs + y)[|x| + j] == bs[j];
    assert InBlock(x + bs + y, |x| + j, it.slot);
  }

  /** A position in one child is a position in the row. */
  lemma StandsInRow<R, V>(kids: seq<Tree<R, V>>, i: nat, it: Ins.Iter<R>, pos: nat)
    requires i < |kids| && Stands(Blocks(kids[i]), it, pos)
    requires pos < |Contents(kids[i])| || i == |kids| - 1
    ensures Stands(RowBlocks(kids), it, Before(kids, i) + pos)
  {
    hide Blocks, RowBlocks, Join, Contents, Flat, Stands;
    RowBlocksSplit(kids, i);
    JoinBlocks(kids[i]);
    JoinRow(kids[..i]);
    if i == |kids| - 1 {
      assert kids[i + 1..] == [];
      NoBlocks<R, V>();
    }
    StandsMiddle(RowBlocks(kids[..i]), Blocks(kids[i]), RowBlocks(kids[i + 1..]), it, pos);
  }

  lemma NoBlocks<R, V>()
    ensures RowBlocks<R, V>([]) == []
  {
  }

  lemma StartInMiddle<R, V>(x: seq<Block<R, V>>, bs: seq<Block<R, V>>, y: seq<Block<R, V>>, j: nat)
    requires j <= |bs|
    ensures Start(x + bs + y, |x| + j) == |Join(x)| + Start(bs, j)
  {
    hide Join;
    assert (x + bs + y)[..|x| + j] == x + bs[..j];
    JoinConcat(x, bs[..j]);
  }

  /**
   * The descent ends at the first pair whose key is not less than `k` (greater than `k` for an upper bound), and at the
   * end only if there is no such pair.
   */
  lemma {:induction false} BoundStands<R, V>(p: Params, t: Tree<R, V>, h: nat, root: bool, k: Key, upper: bool)
    requires Valid(p, t, h, root) && Ordered(t)
    ensures Stands(Blocks(t), BoundAt(t, k, upper), Bound(Keys(Contents(t)), k, upper))
    decreases t
  {
    hide Lower, Upper, Keys, MaxKey, Flat, Join, RowBlocks, Stands;
    match t
    case Leaf(r, items) =>
      LeafStands(r, items, Bound(Keys(items), k, upper));
    case Inner(_, keys, kids) =>
      var slot := Bound(keys, k, upper);
      if upper {
        DescendUpper(p, keys, kids, h - 1, k);
      } else {
        DescendLower(p, keys, kids, h - 1, k);
      }
      BoundStands(p, kids[slot], h - 1, false, k, upper);
      StandsInRow(kids, slot, BoundAt(kids[slot], k, upper), Bound(Keys(Contents(kids[slot])), k, upper));
  }

  lemma LeafStands<R, V>(r: R, items: seq<Item<V>>, pos: nat)
    requires pos <= |items|
    ensures Stands([Block(r, items)], Ins.Iter(r, pos), pos)
  {
    var bs := [Block(r, items)];
    assert bs[..0] == [];
    assert InBlock(bs, 0, pos) && Start(bs, 0) == 0;
  }

  // ------------------------------------------------------- where insertion puts a pair

  /** The place that the leaf with the lower bound gives to the key. */
  ghost predicate Placed<R, V>(p: Params, bs: seq<Block<R, V>>, lower: nat, k: Key, pos: nat) {
    exists j: nat, slot: nat ::
      InBlock(bs, j, slot) && Start(bs, j) + slot == lower && pos == Start(bs, j) + Ins.LeafPlace(p, bs[j].items, k)
  }

  lemma PlacedMiddle<R, V>(p: Params, x: seq<Block<R, V>>, bs: seq<Block<R, V>>, y: seq<Block<R, V>>, lower: nat,
                           k: Key,
                           pos: nat)
    requires Placed(p, bs, lower, k, pos) && (lower < |Join(bs)| || y == [])
    ensures Placed(p, x + bs + y, |Join(x)| + lower, k, |Join(x)| + pos)
  {
    hide Join, Ins.LeafPlace;
    var j: nat, slot: nat :|
      InBlock(bs, j, slot) && Start(bs, j) + slot == lower && pos == Start(bs, j) + Ins.LeafPlace(p, bs[j].items, k);
    PairThere(bs, j, slot);
    StartInMiddle(x, bs, y, j);
    assert (x + bs + y)[|x| + j] == bs[j];
    assert InBlock(x + bs + y, |x| + j, slot);
  }

  lemma PlacedInRow<R, V>(p: Params, kids: seq<Tree<R, V>>, i: nat, lower: nat, k: Key, pos: nat)
    requires i < |kids| && Placed(p, Blocks(kids[i]), lower, k, pos)
    requires lower < |Contents(kids[i])| || i == |kids| - 1
    ensures Placed(p, RowBlocks(kids), Before(kids, i) + lower, k, Before(kids, i) + pos)
  {
    hide Blocks, RowBlocks, Join, Contents, Flat, Placed;
    RowBlocksSplit(kids, i);
    JoinBlocks(kids[i]);
    JoinRow(kids[..i]);
    if i == |kids| - 1 {
      assert kids[i + 1..] == [];
      NoBlocks<R, V>();
    }
    PlacedMiddle(p, RowBlocks(kids[..i]), Blocks(kids[i]), RowBlocks(kids[i + 1..]), lower, k, pos);
  }

  lemma LeafPlaced<R, V>(p: Params, r: R, items: seq<Item<V>>, k: Key)
    ensures Placed(p, [Block(r, items)], Lower(Keys(items), k), k, Ins.LeafPlace(p, items, k))
  {
    hide Ins.LeafPlace;
    var bs := [Block(r, items)];
    assert bs[..0] == [];
    LowerFacts(Keys(items), k);
    assert InBlock(bs, 0, Lower(Keys(items), k)) && Start(bs, 0) == 0;
  }

  /** The descent puts a pair into the leaf where the lower bound stands. */
  lemma {:induction false} PositionPlaced<R, V>(p: Params, t: Tree<R, V>, h: nat, x: Item<V>)
    requires Valid(p, t, h, true) && Ordered(t)
    ensures Placed(p, Blocks(t), Lower(Keys(Contents(t)), x.key), x.key, Ins.Position(p, t, h, x))
    decreases t
  {
    hide Lower, Upper, Keys, MaxKey, Flat, Join, RowBlocks, Placed, Ins.LeafPlace;
    match t
    case Leaf(r, items) =>
      LeafPlaced(p, r, items, x.key);
    case Inner(_, keys, kids) =>
      var slot := Lower(keys, x.key);
      DescendLower(p, keys, kids, h - 1, x.key);
      PositionPlaced(p, kids[slot], h - 1, x);
      PlacedInRow(p, kids, slot, Lower(Keys(Contents(kids[slot])), x.key), x.key,
                  Ins.Position(p, kids[slot], h - 1, x));
  }

  /** The place is behind all equal keys if and only if the pair there, if there is one, has another key. */
  lemma PlaceIsUpper(ks: seq<Key>, k: Key, pos: nat)
    requires SortedKeys(ks) && Lower(ks, k) <= pos <= Upper(ks, k)
    ensures Upper(ks, k) <= |ks|
    ensures pos == Upper(ks, k) <==> pos == |ks| || ks[pos] != k
  {
    LowerFacts(ks, k);
    UpperFacts(ks, k);
  }

  /** Two leaves, with the key 5 at the end of the one and at the beginning of the other. */
  function TwoLeaves(): Tree<nat, char> {
    Inner(0, [5], [Leaf(1, [Item(1, 'a'), Item(5, 'b')]), Leaf(2, [Item(5, 'c'), Item(7, 'd')])])
  }

  lemma TwoLeavesHold()
    ensures Contents(TwoLeaves()) == [Item(1, 'a'), Item(5, 'b'), Item(5, 'c'), Item(7, 'd')]
    ensures Keys(Contents(TwoLeaves())) == [1, 5, 5, 7] && Ordered(TwoLeaves())
  {
    var kids := TwoLeaves().kids;
    assert kids[1..] == [kids[1]] && kids[1..][1..] == [];
    assert Flat(kids) == kids[0].items + (kids[1].items + []);
  }

  lemma TwoLeavesValid()
    ensures Valid(Params(4, 4, true), TwoLeaves(), 1, true)
  {
    var p, kids := Params(4, 4, true), TwoLeaves().kids;
    assert MaxKey(kids[0]) == 5;
    forall i | 0 <= i < 2
      ensures Fill(p, kids[i], false) && Below(p, kids[i], 0)
    {
      assert i == 0 || i == 1;
    }
  }

  lemma UpperOfFive()
    ensures Upper([1, 5, 5, 7], 5) == 3 && Lower([5], 5) == 0 && Lower([1, 5], 5) == 1 && Upper([1, 5], 5) == 2
  {
    UpperFacts([1, 5, 5, 7], 5);
    UpperFacts([1, 5], 5);
    LowerFacts([1, 5], 5);
  }

  /** Equal keys in two leaves: a third goes between them, not behind both. */
  lemma BetweenEqualKeys()
    ensures var p, t := Params(4, 4, true), TwoLeaves();
            && Valid(p, t, 1, true) && Ordered(t)
            && Ins.Position(p, t, 1, Item(5, 'e')) == 2 && Upper(Keys(Contents(t)), 5) == 3
  {
    hide Valid, Ordered, Upper, Contents, Lower;
    TwoLeavesValid();
    TwoLeavesHold();
    UpperOfFive();
    PlaceOfFive();
  }

  lemma PlaceOfFive()
    requires Valid(Params(4, 4, true), TwoLeaves(), 1, true)
    ensures Ins.Position(Params(4, 4, true), TwoLeaves(), 1, Item(5, 'e')) == 2
  {
    hide Upper, Contents, Lower;
    var p, kids, x := Params(4, 4, true), TwoLeaves().kids, Item(5, 'e');
    UpperOfFive();
    assert kids[..0] == [] && Before(kids, 0) == 0;
    assert Keys(kids[0].items) == [1, 5];
    assert Ins.LeafPlace(p, kids[0].items, 5) == 2;
    assert Ins.Position(p, kids[0], 0, x) == 2;
  }

  // ------------------------------------------------------------- after insertion

  /** A position in a row of trees that replaced child `slot`. */
  lemma StandsReplaced<R, V>(kids: seq<Tree<R, V>>, slot: nat, row: seq<Tree<R, V>>, it: Ins.Iter<R>, pos: nat)
    requires slot < |kids| && Stands(RowBlocks(row), it, pos) && pos < |Flat(row)|
    ensures Stands(RowBlocks(kids[..slot] + row + kids[slot + 1..]), it, Before(kids, slot) + pos)
  {
    hide RowBlocks, Join, Flat, Stands;
    RowBlocksConcat(kids[..slot] + row, kids[slot + 1..]);
    RowBlocksConcat(kids[..slot], row);
    JoinRow(row);
    JoinRow(kids[..slot]);
    StandsMiddle(RowBlocks(kids[..slot]), RowBlocks(row), RowBlocks(kids[slot + 1..]), it, pos);
  }

  lemma LeafInsertStands<R, V>(p: Params, t: Tree<R, V>, x: Item<V>, n: R)
    requires t.Leaf? && Valid(p, t, 0, true)
    ensures var o := Ins.InsertLeaf(p, t, x, n);
            if o.Present? then o.at == BoundAt(t, x.key, false)
              else Stands(RowBlocks(o.Row()), o.at, Ins.Position(p, t, 0, x))
  {
    hide Lower, Upper, Keys, Join, Stands;
    var o := Ins.InsertLeaf(p, t, x, n);
    if o.Grown? {
      RowBlocksOne(o.t);
      LeafStands(t.r, o.t.items, o.at.slot);
    } else if o.Split? {
      RowBlocksPair(o.l, o.n);
      var left, right := [Block(t.r, o.l.items)], [Block(n, o.n.items)];
      OneJoin(left);
      if Lower(Keys(t.items), x.key) < |t.items| / 2 {
        LeafStands(t.r, o.l.items, o.at.slot);
        StandsMiddle([], left, right, o.at, o.at.slot);
        assert [] + left + right == left + right;
      } else {
        LeafStands(n, o.n.items, o.at.slot);
        StandsMiddle(left, right, [], o.at, o.at.slot);
        assert left + right + [] == left + right;
      }
      NoJoin<R, V>();
    }
  }

  lemma OneJoin<R, V>(bs: seq<Block<R, V>>)
    requires |bs| == 1
    ensures Join(bs) == bs[0].items
  {
    assert Join(bs[1..]) == [];
  }

  lemma NoJoin<R, V>()
    ensures Join<R, V>([]) == []
  {
  }

  lemma RowBlocksPair<R, V>(l: Tree<R, V>, n: Tree<R, V>)
    ensures RowBlocks([l, n]) == Blocks(l) + Blocks(n)
  {
    assert [l, n][1..] == [n];
    RowBlocksOne(n);
  }

  /** The iterator that an insertion returns stands where the pair is, or where the equal key was found. */
  lemma {:induction false} InsertStands<R, V>(p: Params, t: Tree<R, V>, h: nat, root: bool, x: Item<V>, pool: seq<R>)
    requires Valid(p, t, h, root) && Ordered(t) && |pool| == h + 1
    ensures var o := Ins.Insert(p, t, x, pool);
            if o.Present? then o.at == BoundAt(t, x.key, false)
              else Stands(RowBlocks(o.Row()), o.at, Ins.Position(p, t, h, x))
    decreases t
  {
    hide Lower, Upper, Keys, MaxKey, Flat, Join, RowBlocks, Stands, Ins.InsertLeaf, Ins.InsertInner;
    match t
    case Leaf(_, _) =>
      LeafInsertStands(p, t, x, pool[h]);
    case Inner(r, keys, kids) =>
      var slot := Lower(keys, x.key);
      KidHasKey(p, t, h, x.key);
      InsertStands(p, kids[slot], h - 1, false, x, pool[..h]);
      Ins.InsertCorrect(p, kids[slot], h - 1, false, x, pool[..h]);
      var o := Ins.Insert(p, kids[slot], x, pool[..h]);
      if !o.Present? {
        var pos := Ins.Position(p, kids[slot], h - 1, x);
        InsertedLength(Contents(kids[slot]), pos, x);
        StandsReplaced(kids, slot, o.Row(), o.at, pos);
        if o.Grown? {
          assert kids[slot := o.t] == kids[..slot] + [o.t] + kids[slot + 1..];
          InnerBlocks(Inner(r, keys, kids[slot := o.t]));
        } else {
          InnerSplitBlocks(p, t, slot, o.at, o.l, o.up, o.n, pool[h]);
        }
      }
  }

  lemma InsertedLength<T>(s: seq<T>, pos: nat, x: T)
    requires pos <= |s|
    ensures pos < |InsertAt(s, pos, x)|
  {
  }

  lemma InnerBlocks<R, V>(t: Tree<R, V>)
    requires t.Inner?
    ensures RowBlocks([t]) == RowBlocks(t.kids)
  {
    RowBlocksOne(t);
  }

  lemma InnerSplitBlocks<R, V>(p: Params, t: Tree<R, V>, slot: nat, at: Ins.Iter<R>, l: Tree<R, V>, up: Key,
                               n: Tree<R, V>, nr: R)
    requires t.Inner? && Fill(p, t, true) && |t.kids| == |t.keys| + 1 && slot <= |t.keys|
    ensures var o := Ins.InsertInner(p, t, slot, at, l, up, n, nr);
            && !o.Present? && o.at == at
            && RowBlocks(o.Row()) == RowBlocks(t.kids[..slot] + [l, n] + t.kids[slot + 1..])
  {
    hide Ins.CutAndPut, RowBlocks;
    var o := Ins.InsertInner(p, t, slot, at, l, up, n, nr);
    var wide := InsertAt(t.kids[slot := l], slot + 1, n);
    assert wide == t.kids[..slot] + [l, n] + t.kids[slot + 1..];
    if o.Grown? {
      InnerBlocks(o.t);
    } else {
      Ins.CutAndPutIsWide(t.keys, t.kids[slot := l], slot, up, n);
      assert o.l.kids + o.n.kids == wide;
      RowBlocksPair(o.l, o.n);
      RowBlocksConcat(o.l.kids, o.n.kids);
    }
  }

  lemma FoundAt<V>(items: seq<Item<V>>, k: Key)
    requires SortedItems(items)
    ensures var i := Bound(Keys(items), k, false);
            i <= |items| && i == Lower(Keys(items), k) && (k in Keys(items) <==> i < |items| && items[i].key == k)
  {
    LowerFinds(Keys(items), k);
    KeysAt(items);
  }

  lemma BoundIs(ks: seq<Key>, k: Key)
    ensures Bound(ks, k, false) == Lower(ks, k) && Bound(ks, k, true) == Upper(ks, k)
  {
  }

  lemma NoLength<T>(s: seq<T>)
    ensures s == [] <==> |s| == 0
  {
  }

  /** Between the two bounds, and only there, the pairs have the key. */
  lemma WithinBounds<V>(items: seq<Item<V>>, k: Key, pos: nat)
    requires SortedItems(items)
    requires Lower(Keys(items), k) <= pos <= Upper(Keys(items), k)
    ensures Upper(Keys(items), k) <= |items|
    ensures pos < |items| ==> (items[pos].key == k <==> pos < Upper(Keys(items), k))
    ensures pos == |items| ==> pos == Upper(Keys(items), k)
  {
    var ks := Keys(items);
    LowerFacts(ks, k);
    UpperFacts(ks, k);
    hide Lower, Upper;
    KeysAt(items);
    var i := Lower(ks, k);
    if pos < |items| {
      assert ks[pos] == items[pos].key;
      assert i < pos ==> ks[i] <= ks[pos];
    }
  }
}
