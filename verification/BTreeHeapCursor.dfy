/** Iterators in the heap: what a leaf says where an iterator stands, and which leaf the chain leads to next. */
module BTreeHeapCursor {
  import opened Sorted
  import opened BTree
  import opened BTreeRefs
  import opened BTreeNode
  import opened BTreeHeap
  import opened BTreeHeapInsert
  import opened BTreeHeapErase
  import opened BTreeSearch
  import opened BTreeCursor
  import Ins = BTreeInsert

  type NBlock<V(0)> = Block<Node<V>, V>

  ghost predicate SayBlocks<V(0)>(m: Mem<V>, bs: seq<NBlock<V>>) {
    forall i :: 0 <= i < |bs| ==> bs[i].r in m && m[bs[i].r] == LeafOf(bs[i].items)
  }

  lemma {:induction false} BlocksSay<V(0)>(m: Mem<V>, t: NTree<V>, h: nat)
    requires Rep(m, t, h)
    ensures SayBlocks(m, Blocks(t))
    decreases t, 1
  {
    hide LeafOf, KidRefs;
    match t
    case Leaf(r, items) =>
      RepIs(m, t, h);
      assert Blocks(t) == [Block(r, items)];
    case Inner(_, _, kids) =>
      RepIs(m, t, h);
      RowSays(m, kids, h - 1);
  }

  lemma {:induction false} RowSays<V(0)>(m: Mem<V>, kids: seq<NTree<V>>, h: nat)
    requires RowRep(m, kids, h)
    ensures SayBlocks(m, RowBlocks(kids))
    decreases kids, 0
  {
    hide LeafOf, Rep, Blocks;
    if kids != [] {
      BlocksSay(m, kids[0], h);
      RowSays(m, kids[1..], h);
      SayBoth(m, Blocks(kids[0]), RowBlocks(kids[1..]));
    }
  }

  lemma SayBoth<V(0)>(m: Mem<V>, a: seq<NBlock<V>>, b: seq<NBlock<V>>)
    requires SayBlocks(m, a) && SayBlocks(m, b)
    ensures SayBlocks(m, a + b)
  {
    hide LeafOf;
  }

  /** All that is known where an iterator stands in the leaf of block `j`. */
  lemma StandsFacts<V(0)>(p: Params, m: Mem<V>, l: Links<V>, ns: set<Node<V>>, t: NTree<V>, h: nat, leaf: Node<V>,
                          slot: nat, pos: nat)
    returns (j: nat)
    requires Ready(p, m, l, ns, t, h, [], []) && Stands(Blocks(t), Ins.Iter(leaf, slot), pos)
    ensures var bs := Blocks(t);
            && Full(bs) && InBlock(bs, j, slot) && j < |bs| && bs[j].r == leaf && pos == Start(bs, j) + slot
            && leaf in ns && leaf in m && m[leaf] == LeafOf(bs[j].items)
            && leaf in l.next && leaf in l.prev
            && l.next[leaf] == (if j + 1 < |bs| then bs[j + 1].r else null)
            && l.prev[leaf] == (if 0 < j then bs[j - 1].r else null)
            && (0 < j ==> bs[j - 1].r in ns && bs[j - 1].r in m && m[bs[j - 1].r] == LeafOf(bs[j - 1].items))
            && pos <= |Contents(t)| && (slot < |bs[j].items| <==> pos < |Contents(t)|)
            && (slot < |bs[j].items| ==> Contents(t)[pos] == bs[j].items[slot])
  {
    hide MaxKey, Refs, Distinct, Rep, Contents, SortedItems, Below, Fill, LeafOf, Blocks, Leaves, Chain, Join;
    var bs := Blocks(t);
    j :| j < |bs| && InBlock(bs, j, slot) && bs[j].r == leaf && pos == Start(bs, j) + slot;
    BlocksFull(p, t, h, true);
    BlocksSay(m, t, h);
    BlockLeaves(t);
    assert [] + Leaves(t) + [] == Leaves(t);
    ChainAt(l, Leaves(t), j);
    PairThere(bs, j, slot);
    JoinBlocks(t);
  }

  lemma ChainAt<V(0)>(l: Links<V>, s: seq<Node<V>>, j: nat)
    requires Chain(l, s) && j < |s|
    ensures s[j] in l.next && s[j] in l.prev
    ensures l.next[s[j]] == (if j + 1 < |s| then s[j + 1] else null)
            && l.prev[s[j]] == (if 0 < j then s[j - 1] else null)
  {
    hide NoRepeats;
  }

  /** The first and the last leaf. */
  lemma Ends<V(0)>(p: Params, m: Mem<V>, l: Links<V>, ns: set<Node<V>>, t: NTree<V>, h: nat)
    requires Ready(p, m, l, ns, t, h, [], [])
    ensures var bs := Blocks(t);
            && |bs| > 0 && l.head == bs[0].r && l.tail == bs[|bs| - 1].r && bs[|bs| - 1].r in ns
            && Stands(bs, Ins.Iter(bs[0].r, 0), 0)
            && Stands(bs, Ins.Iter(bs[|bs| - 1].r, |bs[|bs| - 1].items|), |Contents(t)|)
            && bs[|bs| - 1].r in m && m[bs[|bs| - 1].r] == LeafOf(bs[|bs| - 1].items)
  {
    hide MaxKey, Refs, Distinct, Rep, Contents, SortedItems, Below, Fill, LeafOf, Blocks, Leaves, Chain, Join, Stands;
    var bs := Blocks(t);
    BlocksFull(p, t, h, true);
    BlocksSay(m, t, h);
    BlockLeaves(t);
    assert [] + Leaves(t) + [] == Leaves(t);
    JoinBlocks(t);
    ChainEnds(l, Leaves(t));
    EndsStand(bs);
    InChain(ns, Leaves(t), |bs| - 1);
  }

  lemma ChainEnds<V(0)>(l: Links<V>, s: seq<Node<V>>)
    requires Chain(l, s) && s != []
    ensures l.head == s[0] && l.tail == s[|s| - 1]
  {
    hide NoRepeats;
  }

  lemma InChain<V(0)>(ns: set<Node<V>>, s: seq<Node<V>>, i: nat)
    requires i < |s| && forall n :: n in [] + s + [] ==> n in ns
    ensures s[i] in ns
  {
    assert s[i] in [] + s + [];
  }

  lemma EndsStand<R, V>(bs: seq<Block<R, V>>)
    requires Full(bs) && bs != []
    ensures Stands(bs, Ins.Iter(bs[0].r, 0), 0)
    ensures Stands(bs, Ins.Iter(bs[|bs| - 1].r, |bs[|bs| - 1].items|), |Join(bs)|)
  {
    hide Join, Start;
    var n := |bs| - 1;
    StartZero(bs);
    assert InBlock(bs, 0, 0);
    assert InBlock(bs, n, |bs[n].items|);
    StartAll(bs);
    BlockAt(bs, n);
  }

  lemma StartZero<R, V>(bs: seq<Block<R, V>>)
    ensures Start(bs, 0) == 0
  {
    assert bs[..0] == [];
  }

  /** One step forward. */
  lemma NextStands<R, V>(bs: seq<Block<R, V>>, j: nat, slot: nat)
    requires Full(bs) && InBlock(bs, j, slot)
    ensures var pos, n := Start(bs, j) + slot, |Join(bs)|;
            if slot + 1 < |bs[j].items| then Stands(bs, Ins.Iter(bs[j].r, slot + 1), pos + 1) && pos < n
            else if j + 1 < |bs| then Stands(bs, Ins.Iter(bs[j + 1].r, 0), pos + 1) && pos < n
            else Stands(bs, Ins.Iter(bs[j].r, |bs[j].items|), n) && n == if pos < n then pos + 1 else pos
  {
    hide Join;
    PairThere(bs, j, slot);
    BlockAt(bs, j);
    if slot + 1 < |bs[j].items| {
      assert InBlock(bs, j, slot + 1);
    } else if j + 1 < |bs| {
      assert InBlock(bs, j + 1, 0);
    } else {
      assert InBlock(bs, j, |bs[j].items|);
      PairThere(bs, j, |bs[j].items|);
    }
  }

  /** One step back. */
  lemma PrevStands<R, V>(bs: seq<Block<R, V>>, j: nat, slot: nat)
    requires Full(bs) && InBlock(bs, j, slot)
    ensures var pos := Start(bs, j) + slot;
            if slot > 0 then pos > 0 && Stands(bs, Ins.Iter(bs[j].r, slot - 1), pos - 1)
            else if j > 0 then pos > 0 && Stands(bs, Ins.Iter(bs[j - 1].r, |bs[j - 1].items| - 1), pos - 1)
            else pos == 0 && Stands(bs, Ins.Iter(bs[j].r, 0), 0)
  {
    hide Join;
    StartZero(bs);
    if slot > 0 {
      assert InBlock(bs, j, slot - 1);
    } else if j > 0 {
      BlockAt(bs, j - 1);
      assert InBlock(bs, j - 1, |bs[j - 1].items| - 1);
    } else {
      assert InBlock(bs, j, 0);
    }
  }

  lemma InsertStandsAt<V(0)>(p: Params, m: Mem<V>, l: Links<V>, ns: set<Node<V>>, t: NTree<V>, h: nat, x: Item<V>,
                             e: Effect<V>)
    requires Ready(p, m, l, ns, t, h, [], []) && Done(p, m, l, ns, t, h, [], [], x, e)
    ensures if e.o.Present? then Stands(Blocks(t), e.o.at, Lower(Keys(Contents(t)), x.key))
            else Stands(RowBlocks(e.o.Row()), e.o.at, Ins.Position(p, t, h, x))
  {
    hide Lower, Upper, Keys, Chain, Ins.Insert, Rep, Below, Flat, Leaves, RowLeaves, Refs, Ins.Position, Contents,
         MaxKey, Stands;
    InsertStands(p, t, h, true, x, e.pool);
    if e.o.Present? {
      BoundStands(p, t, h, true, x.key, false);
    }
  }

  // --------------------------------------------------------------- the descent

  /** A tree that the descent has reached. */
  ghost predicate Subtree<V(0)>(p: Params, m: Mem<V>, ns: set<Node<V>>, t: NTree<V>, h: nat) {
    Valid(p, t, h, true) && Ordered(t) && Owned(m, ns, t, h)
  }

  lemma SubtreeAll<V(0)>(p: Params, m: Mem<V>, l: Links<V>, ns: set<Node<V>>, t: NTree<V>, h: nat)
    requires Ready(p, m, l, ns, t, h, [], [])
    ensures Subtree(p, m, ns, t, h)
  {
    hide Valid, Ordered, Owned, Chain;
  }

  lemma SubtreeKid<V(0)>(p: Params, m: Mem<V>, ns: set<Node<V>>, t: NTree<V>, h: nat, k: Key, upper: bool)
    requires Subtree(p, m, ns, t, h) && h > 0
    ensures t.Inner? && |t.kids| == |t.keys| + 1 && Owned(m, ns, t, h) && SortedKeys(t.keys) && t.r in m
            && m[t.r].keys == t.keys
    ensures Lower(t.keys, k) <= |t.keys| && Upper(t.keys, k) <= |t.keys|
    ensures var at := if upper then Upper(t.keys, k) else Lower(t.keys, k);
            Subtree(p, m, ns, t.kids[at], h - 1) && BoundAt(t.kids[at], k, upper) == BoundAt(t, k, upper)
  {
    hide MaxKey, Flat, Rep, Refs, Distinct, Lower, Upper, SortedKeys;
    InnerLevel(m, ns, t, h);
    OwnedCell(m, ns, t, h);
    var at := if upper then Upper(t.keys, k) else Lower(t.keys, k);
    SeparatorsSorted(p, t.keys, t.kids, h - 1);
    KidSplit(t.kids, at);
    KidOwned(m, ns, t, h, at);
  }

  lemma SubtreeLeaf<V(0)>(p: Params, m: Mem<V>, ns: set<Node<V>>, t: NTree<V>, h: nat, k: Key, upper: bool)
    requires Subtree(p, m, ns, t, h) && h == 0
    ensures t.r in m && SortedKeys(m[t.r].keys)
    ensures BoundAt(t, k, upper) == Ins.Iter(t.r, if upper then Upper(m[t.r].keys, k) else Lower(m[t.r].keys, k))
  {
    hide Refs, Distinct, Lower, Upper;
    InnerLevel(m, ns, t, h);
  }

  lemma BoundIsAt<V(0)>(p: Params, m: Mem<V>, l: Links<V>, ns: set<Node<V>>, t: NTree<V>, h: nat, k: Key, upper: bool)
    requires Ready(p, m, l, ns, t, h, [], [])
    ensures Stands(Blocks(t), BoundAt(t, k, upper), Bound(Keys(Contents(t)), k, upper))
  {
    hide Lower, Upper, Keys, Chain, Rep, Below, Flat, Leaves, Refs, Contents, MaxKey, Stands, Owned;
    BoundStands(p, t, h, true, k, upper);
  }
}
