/** The tree object: a heap of nodes reached through `root`, with the leaf chain and the statistics. */
module BTreeObject {
  import opened Options
  import opened Sorted
  import opened BTree
  import opened BTreeSearch
  import opened BTreeRefs
  import opened BTreeNode
  import opened BTreeHeap
  import opened BTreeHeapInsert
  import opened BTreeHeapErase
  import opened BTreeErase
  import opened BTreeEraseProof
  import opened BTreeWhole
  import opened BTreeCursor
  import opened BTreeHeapCursor
  import Run = BTreeRun
  import History = BTreeHistory
  import Ins = BTreeInsert
  import opened BTreeVerify
  import opened BTreeLinks
  import opened BTreeImage

  class BTreeObject<V(0)> {
    const p: Params
    var root: Node?<V>
    var headleaf: Node?<V>
    var tailleaf: Node?<V>
    var itemcount: int
    var leaves: int
    var innernodes: int

    /** The nodes that are allocated and not yet freed. */
    ghost var nodes: set<Node<V>>

    ghost var tree: Whole<V>
    ghost var mem: Mem<V>
    ghost var links: Links<V>

    /**
     * What `verify` checks: the nodes form the tree with this root, filled, ordered and with exact separators, the
     * chain of leaves runs through all leaves from left to right, and the statistics are right.
     */
    ghost predicate Valid()
      reads this, nodes
    {
      Views(mem) && Linked(links) && Shape(p, root, tree, mem, links, nodes, Counts())
    }

    ghost function Counts(): Stats
      reads `itemcount, `leaves, `innernodes
    {
      Stats(itemcount, leaves, innernodes)
    }

    /** The pairs in the tree, in order. */
    ghost function Pairs(): seq<Item<V>>
      reads `tree
    {
      Run.Pairs(tree)
    }

    constructor (p: Params)
      ensures Valid() && Unique() && this.p == p && Pairs() == [] && nodes == {}
    {
      this.p := p;
      root, headleaf, tailleaf := null, null, null;
      itemcount, leaves, innernodes := 0, 0, 0;
      nodes, tree, mem, links := {}, None, map[], Links(map[], map[], null, null);
    }

    /** `m` tells what each node says. */
    ghost predicate Views(m: Mem<V>)
      reads `nodes, nodes`slotuse, nodes`slotkey, nodes`slotdata, nodes`childid
    {
      forall n :: n in nodes ==> n.p == p && n.Valid() && n in m && m[n] == n.Image()
    }

    /** `l` tells the links of each leaf and the ends of the chain. */
    ghost predicate Linked(l: Links<V>)
      reads `nodes, `headleaf, `tailleaf, nodes`prevleaf, nodes`nextleaf
    {
      && (forall n :: n in nodes && n.level == 0 ==> n in l.prev && n in l.next && l.prev[n] == n.prevleaf
                                                     && l.next[n] == n.nextleaf)
      && l.head == headleaf && l.tail == tailleaf
    }

    // -------------------------------------------------------------- one node

    method FindLower(n: Node<V>, key: Key, ghost m: Mem<V>) returns (slot: nat)
      requires Views(m) && n in nodes && SortedKeys(m[n].keys)
      ensures slot == Lower(m[n].keys, key)
    {
      slot := n.FindLower(key);
    }

    method FindInLeaf(leaf: Node<V>, key: Key, ghost m: Mem<V>, ghost items: seq<Item<V>>)
      returns (slot: nat, found: bool, full: bool)
      requires Views(m) && leaf in nodes && m[leaf] == LeafOf(items) && SortedItems(items)
      ensures slot == Lower(Keys(items), key) && found == (key in Keys(items)) && full == (|items| == p.leafMax)
    {
      slot := leaf.FindLower(key);
      found := slot < leaf.slotuse && leaf.slotkey[slot] == key;
      full := leaf.slotuse == p.leafMax;
      LowerFinds(Keys(items), key);
    }

    method PutPair(leaf: Node<V>, key: Key, value: V, ghost m: Mem<V>, ghost items: seq<Item<V>>) returns (slot: nat)
      requires Views(m) && leaf in nodes && m[leaf] == LeafOf(items) && |items| < p.leafMax && SortedItems(items)
      modifies leaf`slotuse, leaf`slotkey, leaf`slotdata
      ensures slot == Upper(Keys(items), key) && leaf.slotuse == |items| + 1
      ensures Views(Put(m, leaf, LeafOf(Ins.PutSlot(items, Item(key, value)))))
    {
      PutLeaf(items, Item(key, value));
      hide InsertAt, Upper, SortedKeys, Ins.PutSlot, Keys, Datas;
      slot := leaf.PutPair(key, value);
    }

    // ------------------------------------------------------------- splitting

    /** The links of all nodes but `x` are what `l` says. */
    ghost predicate LinkedBut(l: Links<V>, x: Node<V>)
      reads `nodes, `headleaf, `tailleaf, nodes`prevleaf, nodes`nextleaf
    {
      && (forall n :: n in nodes && n.level == 0 && n != x ==> n in l.prev && n in l.next && l.prev[n] == n.prevleaf
                                                               && l.next[n] == n.nextleaf)
      && l.head == headleaf && l.tail == tailleaf
    }

    /** `newleaf` follows `leaf` in the chain. */
    method LinkAfter(leaf: Node<V>, newleaf: Node<V>, ghost l: Links<V>)
      requires LinkedBut(l, newleaf) && leaf in nodes && newleaf in nodes && leaf != newleaf && leaf.level == 0
      requires leaf.nextleaf != null ==> leaf.nextleaf in nodes && leaf.nextleaf != newleaf
      modifies `tailleaf, leaf`nextleaf, newleaf`nextleaf, newleaf`prevleaf
      modifies (if leaf.nextleaf == null then {} else {leaf.nextleaf})`prevleaf
      ensures Linked(LinkIn(l, leaf, newleaf))
    {
      hide LinkIn;
      LinkInFacts(l, leaf, newleaf);
      newleaf.nextleaf := leaf.nextleaf;
      if newleaf.nextleaf == null {
        tailleaf := newleaf;
      } else {
        newleaf.nextleaf.prevleaf := newleaf;
      }
      leaf.nextleaf := newleaf;
      newleaf.prevleaf := leaf;
    }

    lemma LeafUse(leaf: Node<V>, m: Mem<V>, items: seq<Item<V>>)
      requires Views(m) && leaf in nodes && m[leaf] == LeafOf(items)
      ensures leaf in m && leaf.slotuse == |items| && leaf.level == 0
    {
      assert |m[leaf].keys| == |items|;
    }

    /** A full leaf gives its upper half to a new leaf that follows it in the chain. */
    method SplitLeafNode(leaf: Node<V>, ghost m: Mem<V>, ghost l: Links<V>, ghost items: seq<Item<V>>)
      returns (newkey: Key, newleaf: Node<V>)
      requires Views(m) && Linked(l) && leaf in nodes && m[leaf] == LeafOf(items) && |items| == p.leafMax
      requires leaf in l.next && (l.next[leaf] != null ==> l.next[leaf] in nodes)
      modifies `nodes, `leaves, `tailleaf, nodes
      ensures fresh(newleaf) && nodes == old(nodes) + {newleaf} && newleaf !in old(nodes)
      ensures var mid := p.leafMax / 2;
              Views(Two(m, leaf, items[..mid], newleaf, items[mid..])) && newkey == items[mid - 1].key
      ensures Linked(LinkIn(l, leaf, newleaf))
      ensures leaves == old(leaves) + 1
      ensures leaf.slotuse == p.leafMax / 2
    {
      hide *;
      LeafUse(leaf, m, items);
      var mid := leaf.slotuse / 2;
      newleaf := NewLeafAfter(leaf, m, l);
      newkey := SplitPairs(leaf, newleaf, mid, m, items);
    }

    method NewLeafAfter(leaf: Node<V>, ghost m: Mem<V>, ghost l: Links<V>) returns (n: Node<V>)
      requires Views(m) && Linked(l) && leaf in nodes && leaf.level == 0
      requires leaf in l.next && (l.next[leaf] != null ==> l.next[leaf] in nodes)
      modifies `nodes, `leaves, `tailleaf, nodes`nextleaf, nodes`prevleaf
      ensures fresh(n) && nodes == old(nodes) + {n} && n !in old(nodes)
      ensures Views(Put(m, n, LeafCell([], []))) && Linked(LinkIn(l, leaf, n))
      ensures leaves == old(leaves) + 1
    {
      hide LinkIn, Views, Put;
      assert leaf.nextleaf == l.next[leaf];
      n := NewLeaf(m, l);
      LinkAfter(leaf, n, l);
    }

    method NewLeaf(ghost m: Mem<V>, ghost l: Links<V>) returns (n: Node<V>)
      requires Views(m) && Linked(l)
      modifies `nodes, `leaves
      ensures fresh(n) && nodes == old(nodes) + {n} && n !in old(nodes)
      ensures Views(Put(m, n, LeafCell([], []))) && LinkedBut(l, n)
      ensures leaves == old(leaves) + 1 && n.prevleaf == null && n.nextleaf == null
    {
      n := new Node<V>(p, 0);
      leaves := leaves + 1;
      nodes := nodes + {n};
    }

    method SplitPairs(leaf: Node<V>, n: Node<V>, mid: nat, ghost m: Mem<V>, ghost items: seq<Item<V>>)
      returns (newkey: Key)
      requires Views(Put(m, n, LeafCell([], []))) && leaf in nodes && n in nodes && n != leaf
      requires leaf in m && m[leaf] == LeafOf(items) && 0 < mid <= |items|
      modifies leaf`slotuse, n`slotuse, n`slotkey, n`slotdata
      ensures newkey == items[mid - 1].key && leaf.slotuse == mid
      ensures Views(Two(m, leaf, items[..mid], n, items[mid..]))
    {
      assert leaf.level == 0 && leaf.slotuse == |items| && n.level == 0;
      CutLeafCell(items, mid);
      assert m[leaf].keys[..mid][mid - 1] == items[mid - 1].key;
      hide Keys, Datas;
      leaf.SplitPairs(n, mid);
      assert leaf.slotkey[mid - 1] == leaf.Image().keys[mid - 1];
      newkey := leaf.slotkey[leaf.slotuse - 1];
    }

    /** All nodes but two say what the heap `m` says of them. */
    ghost predicate Others(m: Mem<V>, left: Node<V>, right: Node<V>)
      reads `nodes, (nodes - {left, right})`slotuse, (nodes - {left, right})`slotkey, (nodes - {left, right})`slotdata
      reads (nodes - {left, right})`childid
    {
      forall n :: n in nodes - {left, right} ==> n.p == p && n.Valid() && n in m && m[n] == n.Image()
    }

    lemma OthersIn(m: Mem<V>, left: Node<V>, right: Node<V>)
      requires Views(m) && left in nodes && right in nodes
      ensures Others(m, left, right)
      ensures left.p == p && left.Valid() && left in m && m[left] == left.Image()
      ensures right.p == p && right.Valid() && right in m && m[right] == right.Image()
    {
    }

    lemma BothIn(m: Mem<V>, left: Node<V>, c: Cell<V>, right: Node<V>, d: Cell<V>)
      requires Others(m, left, right) && left in nodes && right in nodes && left != right
      requires left.p == p && left.Valid() && left.Image() == c && right.p == p && right.Valid() && right.Image() == d
      ensures Views(Both(m, left, c, right, d))
    {
    }

    lemma InnerUse(n: Node<V>, m: Mem<V>)
      requires Views(m) && n in nodes && m[n].InnerCell?
      ensures n in m && n.level == m[n].level > 0 && n.slotuse == |m[n].keys| == |m[n].kids| - 1
              && n.slotuse <= p.innerMax
    {
    }

    static lemma CutSlotIs(use: nat, slot: nat, mid: nat)
      requires 4 <= use
      requires var half := use / 2; mid == if slot <= half && half > use - (half + 1) then half - 1 else half
      ensures mid == Ins.CutSlot(use, slot) < use
    {
    }

    /**
     * A full inner node gives its upper half to a new node; where it is cut depends on where a child is to be added.
     */
    method SplitInnerNode(inner: Node<V>, addslot: nat, ghost m: Mem<V>, ghost l: Links<V>)
      returns (newkey: Key, newinner: Node<V>)
      requires Views(m) && Linked(l) && inner in nodes && m[inner].InnerCell? && |m[inner].keys| == p.innerMax
      modifies `nodes, `innernodes, inner`slotuse
      ensures Linked(l)
      ensures fresh(newinner) && nodes == old(nodes) + {newinner} && newinner !in old(nodes)
      ensures |m[inner].kids| == |m[inner].keys| + 1
      ensures var c, mid := m[inner], Ins.CutSlot(|m[inner].keys|, addslot);
              && Views(Both(m, inner, InnerCell(c.level, c.keys[..mid], c.kids[..mid + 1]),
                         newinner, InnerCell(c.level, c.keys[mid + 1..], c.kids[mid + 1..])))
              && newkey == c.keys[mid]
      ensures innernodes == old(innernodes) + 1
    {
      hide *;
      InnerUse(inner, m);
      var mid := inner.slotuse / 2;
      if addslot <= mid && mid > inner.slotuse - (mid + 1) {
        mid := mid - 1;
      }
      CutSlotIs(inner.slotuse, addslot, mid);
      newkey, newinner := CutInner(inner, mid, m, l);
    }

    method CutInner(inner: Node<V>, mid: nat, ghost m: Mem<V>, ghost l: Links<V>)
      returns (newkey: Key, newinner: Node<V>)
      requires Views(m) && Linked(l) && inner in nodes && m[inner].InnerCell?
               && mid < |m[inner].keys| == |m[inner].kids| - 1
      modifies `nodes, `innernodes, inner`slotuse
      ensures Linked(l)
      ensures fresh(newinner) && nodes == old(nodes) + {newinner} && newinner !in old(nodes)
      ensures newkey == m[inner].keys[mid]
      ensures var c := m[inner];
              Views(Both(m, inner, InnerCell(c.level, c.keys[..mid], c.kids[..mid + 1]),
                         newinner, InnerCell(c.level, c.keys[mid + 1..], c.kids[mid + 1..])))
      ensures innernodes == old(innernodes) + 1
    {
      hide *;
      InnerUse(inner, m);
      newinner := NewInner(inner.level, m, l);
      newkey := SplitChildren(inner, newinner, mid, m);
    }

    method NewInner(level: nat, ghost m: Mem<V>, ghost l: Links<V>) returns (n: Node<V>)
      requires Views(m) && Linked(l) && level > 0
      modifies `nodes, `innernodes
      ensures Linked(l)
      ensures fresh(n) && nodes == old(nodes) + {n} && n !in old(nodes)
      ensures Views(Put(m, n, InnerCell(level, [], [null])))
      ensures innernodes == old(innernodes) + 1
    {
      n := new Node<V>(p, level);
      innernodes := innernodes + 1;
      nodes := nodes + {n};
    }

    method SplitChildren(inner: Node<V>, n: Node<V>, mid: nat, ghost m: Mem<V>) returns (newkey: Key)
      requires inner in m && m[inner].InnerCell? && mid < |m[inner].keys| == |m[inner].kids| - 1
      requires Views(Put(m, n, InnerCell(m[inner].level, [], [null]))) && inner in nodes && n in nodes && n != inner
      modifies inner`slotuse, n`slotuse, n`slotkey, n`childid
      ensures newkey == m[inner].keys[mid]
      ensures var c := m[inner];
              Views(Both(m, inner, InnerCell(c.level, c.keys[..mid], c.kids[..mid + 1]),
                         n, InnerCell(c.level, c.keys[mid + 1..], c.kids[mid + 1..])))
    {
      assert inner.level == m[inner].level > 0 && inner.slotuse == |m[inner].keys| && n.level == m[inner].level;
      newkey := inner.SplitChildren(n, mid);
    }

    // ------------------------------------------------- adding a child

    method PutChild(inner: Node<V>, slot: nat, newkey: Key, newchild: Node<V>, ghost m: Mem<V>)
      requires Views(m) && inner in nodes && m[inner].InnerCell? && slot <= |m[inner].keys| < p.innerMax
      modifies nodes`slotuse, nodes`slotkey, nodes`childid
      ensures |m[inner].kids| == |m[inner].keys| + 1
      ensures var c := m[inner];
              Views(Put(m, inner, InnerCell(c.level, InsertAt(c.keys, slot, newkey),
                                            InsertAt(c.kids, slot + 1, newchild))))
    {
      assert inner.level == m[inner].level > 0 && inner.slotuse == |m[inner].keys|;
      hide InsertAt;
      inner.PutChild(slot, newkey, newchild);
    }

    // ------------------------------------------------------------- insertion

    /** Insertion into a leaf; a full leaf is split first. */
    method InsertIntoLeaf(n: Node<V>, key: Key, value: V, ghost t: NTree<V>, ghost m: Mem<V>, ghost l: Links<V>,
                          ghost a: seq<Node<V>>, ghost b: seq<Node<V>>)
      returns (leaf: Node<V>, slot: nat, inserted: bool, splitkey: Key, splitnode: Node?<V>, ghost e: Effect<V>)
      requires Views(m) && Linked(l) && Ready(p, m, l, nodes, t, 0, a, b) && t.Leaf? && t.r == n
      modifies `nodes, `leaves, `tailleaf, nodes
      ensures Views(e.mem) && Linked(e.links) && Done(p, m, l, old(nodes), t, 0, a, b, Item(key, value), e)
      ensures nodes == old(nodes) + e.added && fresh(e.added)
      ensures leaves == old(leaves) + |e.added|
      ensures inserted == !e.o.Present? && e.o.at == Ins.Iter(leaf, slot)
      ensures if e.o.Split? then splitnode == e.o.n.r && splitkey == e.o.up else splitnode == null
    {
      hide *;
      ReadyLeaf(p, m, l, nodes, t, a, b);
      leaf, splitkey, splitnode := n, 0, null;
      var found, full;
      slot, found, full := FindInLeaf(n, key, m, t.items);
      if !p.duplicates && found {
        inserted := false;
        PresentDone(p, m, l, nodes, t, a, b, Item(key, value));
        e := Effect(Ins.Present(Ins.Iter(n, slot)), m, l, {}, [n]);
        return;
      }
      inserted := true;
      if full {
        leaf, slot, splitkey, splitnode, e := SplitAndPut(n, slot, key, value, t, m, l, a, b);
      } else {
        LeafGrewDone(p, m, l, nodes, t, a, b, Item(key, value));
        slot := PutPair(n, key, value, m, t.items);
        e := Effect(Ins.Grown(Ins.Iter(n, slot), Leaf(n, Ins.PutSlot(t.items, Item(key, value)))),
                    Put(m, n, LeafOf(Ins.PutSlot(t.items, Item(key, value)))), l, {}, [n]);
      }
    }

    method SplitAndPut(n: Node<V>, at: nat, key: Key, value: V, ghost t: NTree<V>, ghost m: Mem<V>, ghost l: Links<V>,
                       ghost a: seq<Node<V>>, ghost b: seq<Node<V>>)
      returns (leaf: Node<V>, slot: nat, splitkey: Key, splitnode: Node<V>, ghost e: Effect<V>)
      requires Views(m) && Linked(l) && Ready(p, m, l, nodes, t, 0, a, b) && t.Leaf? && t.r == n
      requires SortedItems(t.items) && at == Lower(Keys(t.items), key) && |t.items| == p.leafMax
               && (p.duplicates || key !in Keys(t.items))
      modifies `nodes, `leaves, `tailleaf, nodes
      ensures Views(e.mem) && Linked(e.links) && Done(p, m, l, old(nodes), t, 0, a, b, Item(key, value), e)
      ensures e.added == {splitnode} && nodes == old(nodes) + {splitnode} && fresh(splitnode)
      ensures leaves == old(leaves) + 1
      ensures e.o.Split? && e.o.at == Ins.Iter(leaf, slot) && splitnode == e.o.n.r && splitkey == e.o.up
    {
      hide *;
      ReadyLeaf(p, m, l, nodes, t, a, b);
      ghost var left, right := t.items[..p.leafMax / 2], t.items[p.leafMax / 2..];
      splitkey, splitnode := SplitLeafNode(n, m, l, t.items);
      e := SplitAndPutDone(p, m, l, old(nodes), t, a, b, Item(key, value), splitnode);
      leaf := n;
      var use := at;
      if use >= n.slotuse {
        use := use - n.slotuse;
        leaf := splitnode;
      }
      slot := PutPair(leaf, key, value, Two(m, n, left, splitnode, right), if leaf == n then left else right);
      if leaf != splitnode && use == leaf.slotuse - 1 {
        splitkey := key;
      }
    }

    /** Putting the separator `up` and the child `n` into an inner node at `slot`; a full node is split first. */
    method AddChild(inner: Node<V>, slot: nat, up: Key, n: Node<V>, ghost m: Mem<V>, ghost c: Cell<V>,
                    ghost l: Links<V>)
      returns (splitkey: Key, splitnode: Node?<V>)
      requires Views(m) && inner in nodes && m[inner] == c && c.InnerCell? && slot <= |c.keys| == |c.kids| - 1
               && |c.keys| <= p.innerMax
      requires Linked(l)
      modifies `nodes, `innernodes, nodes`slotuse, nodes`slotkey, nodes`childid
      ensures Linked(l)
      ensures splitnode == null <==> |c.keys| < p.innerMax
      ensures if splitnode == null then
                && nodes == old(nodes) && innernodes == old(innernodes)
                && Views(Put(m, inner, InnerCell(c.level, InsertAt(c.keys, slot, up), InsertAt(c.kids, slot + 1, n))))
              else
                && nodes == old(nodes) + {splitnode} && fresh(splitnode) && innernodes == old(innernodes) + 1
                && var h := Ins.CutAndPut(c.keys, c.kids, slot, up, n);
                && splitkey == h.up
                && Views(Both(m, inner, InnerCell(c.level, h.lkeys, h.lkids), splitnode,
                              InnerCell(c.level, h.rkeys, h.rkids)))
    {
      hide *;
      splitkey, splitnode := 0, null;
      InnerUse(inner, m);
      if inner.slotuse == p.innerMax {
        splitkey, splitnode := SplitAndAdd(inner, slot, up, n, m, c, l);
      } else {
        PutChild(inner, slot, up, n, m);
      }
    }

    /** The same when the node is full. */
    method SplitAndAdd(inner: Node<V>, slot: nat, up: Key, n: Node<V>, ghost m: Mem<V>, ghost c: Cell<V>,
                       ghost l: Links<V>)
      returns (splitkey: Key, splitnode: Node<V>)
      requires Views(m) && inner in nodes && m[inner] == c && c.InnerCell? && slot <= |c.keys| == |c.kids| - 1
               && |c.keys| == p.innerMax
      requires Linked(l)
      modifies `nodes, `innernodes, nodes`slotuse, nodes`slotkey, nodes`childid
      ensures Linked(l)
      ensures nodes == old(nodes) + {splitnode} && fresh(splitnode) && innernodes == old(innernodes) + 1
      ensures var h := Ins.CutAndPut(c.keys, c.kids, slot, up, n);
              && splitkey == h.up
              && Views(Both(m, inner, InnerCell(c.level, h.lkeys, h.lkids), splitnode,
                            InnerCell(c.level, h.rkeys, h.rkids)))
    {
      hide *;
      ghost var mid := Ins.CutSlot(|c.keys|, slot);
      Ins.CutFill(|c.keys|, slot);
      splitkey, splitnode := SplitInnerNode(inner, slot, m, l);
      splitkey := AddToHalves(inner, splitnode, slot, up, n, splitkey, m, c,
                              InnerCell(c.level, c.keys[..mid], c.kids[..mid + 1]),
                              InnerCell(c.level, c.keys[mid + 1..], c.kids[mid + 1..]));
    }

    /** The node `inner` was cut for a child at `slot`; the child goes to where the source puts it. */
    method AddToHalves(inner: Node<V>, right: Node<V>, slot: nat, up: Key, n: Node<V>, key: Key,
                       ghost m: Mem<V>, ghost c: Cell<V>, ghost d: Cell<V>, ghost e: Cell<V>) returns (splitkey: Key)
      requires c.InnerCell? && slot <= |c.keys| == |c.kids| - 1 && |c.keys| == p.innerMax
               && key == c.keys[Ins.CutSlot(|c.keys|, slot)]
      requires var mid := Ins.CutSlot(|c.keys|, slot);
               && d == InnerCell(c.level, c.keys[..mid], c.kids[..mid + 1])
               && e == InnerCell(c.level, c.keys[mid + 1..], c.kids[mid + 1..])
      requires inner in nodes && right in nodes && inner != right && Views(Both(m, inner, d, right, e))
      modifies nodes`slotuse, nodes`slotkey, nodes`childid
      ensures var h := Ins.CutAndPut(c.keys, c.kids, slot, up, n);
              && splitkey == h.up
              && Views(Both(m, inner, InnerCell(c.level, h.lkeys, h.lkids), right,
                            InnerCell(c.level, h.rkeys, h.rkids)))
    {
      hide Views, Both, InsertAt;
      BothPut(m, inner, d, right, e, d);
      Ins.CutFill(|c.keys|, slot);
      InnerUse(inner, Both(m, inner, d, right, e));
      InnerUse(right, Both(m, inner, d, right, e));
      splitkey := key;
      if slot == inner.slotuse + 1 && inner.slotuse < right.slotuse {
        SwapAtCut(inner, right, key, n, m, d, e);
        splitkey := up;
      } else if slot >= inner.slotuse + 1 {
        PutInRight(inner, right, slot - (inner.slotuse + 1), up, n, m, d, e);
      } else {
        PutInLeft(inner, right, slot, up, n, m, d, e);
      }
    }

    method PutInLeft(inner: Node<V>, right: Node<V>, slot: nat, up: Key, n: Node<V>, ghost m: Mem<V>, ghost d: Cell<V>,
                     ghost e: Cell<V>)
      requires inner in nodes && right in nodes && inner != right && Views(Both(m, inner, d, right, e))
      requires d.InnerCell? && slot <= |d.keys| < p.innerMax
      modifies nodes`slotuse, nodes`slotkey, nodes`childid
      ensures |d.kids| == |d.keys| + 1
      ensures Views(Both(m, inner, InnerCell(d.level, InsertAt(d.keys, slot, up), InsertAt(d.kids, slot + 1, n)), right,
                         e))
    {
      hide *;
      BothPut(m, inner, d, right, e, d);
      PutChild(inner, slot, up, n, Both(m, inner, d, right, e));
      BothPut(m, inner, d, right, e, InnerCell(d.level, InsertAt(d.keys, slot, up), InsertAt(d.kids, slot + 1, n)));
    }

    method PutInRight(inner: Node<V>, right: Node<V>, slot: nat, up: Key, n: Node<V>, ghost m: Mem<V>, ghost d: Cell<V>,
                      ghost e: Cell<V>)
      requires inner in nodes && right in nodes && inner != right && Views(Both(m, inner, d, right, e))
      requires e.InnerCell? && slot <= |e.keys| < p.innerMax
      modifies nodes`slotuse, nodes`slotkey, nodes`childid
      ensures |e.kids| == |e.keys| + 1
      ensures Views(Both(m, inner, d, right,
                         InnerCell(e.level, InsertAt(e.keys, slot, up), InsertAt(e.kids, slot + 1, n))))
    {
      hide *;
      BothPut(m, inner, d, right, e, e);
      PutChild(right, slot, up, n, Both(m, inner, d, right, e));
      BothPut(m, inner, d, right, e, InnerCell(e.level, InsertAt(e.keys, slot, up), InsertAt(e.kids, slot + 1, n)));
    }

    /**
     * The child falls between the halves: the separator that was to go up stays, and the new child starts the right
     * half.
     */
    method SwapAtCut(inner: Node<V>, right: Node<V>, key: Key, n: Node<V>, ghost m: Mem<V>, ghost d: Cell<V>,
                     ghost e: Cell<V>)
      requires inner in nodes && right in nodes && inner != right && Views(Both(m, inner, d, right, e))
      requires d.InnerCell? && e.InnerCell? && |d.keys| < p.innerMax
      modifies inner`slotuse, inner`slotkey, inner`childid, right`childid
      ensures |e.kids| > 0
      ensures Views(Both(m, inner, InnerCell(d.level, d.keys + [key], d.kids + [e.kids[0]]), right,
                         InnerCell(e.level, e.keys, e.kids[0 := n])))
    {
      hide Views, Others, Put;
      ghost var m' := Both(m, inner, d, right, e);
      OthersIn(m', inner, right);
      BothPut(m, inner, d, right, e, d);
      assert inner.level == d.level > 0 && right.level == e.level > 0;
      assert e.kids == right.childid[..right.slotuse + 1];
      inner.AppendChild(key, right.childid[0]);
      right.SetChild(0, n);
      ghost var c, c' := InnerCell(d.level, d.keys + [key], d.kids + [e.kids[0]]),
        InnerCell(e.level, e.keys, e.kids[0 := n]);
      BothIn(m', inner, c, right, c');
      BothPut(m, inner, d, right, e, c);
      BothPut(m, inner, c, right, e, c');
    }

    lemma NodeLevel(n: Node<V>, m: Mem<V>, t: NTree<V>, h: nat)
      requires Views(m) && Owned(m, nodes, t, h) && t.r == n
      ensures n in nodes && n.level == h && (h == 0 <==> t.Leaf?)
    {
      assert t.r in Refs(t);
    }

    lemma KidAt(n: Node<V>, m: Mem<V>, slot: nat)
      requires Views(m) && n in nodes && m[n].InnerCell? && slot < |m[n].kids|
      ensures slot < |n.childid| && n.childid[slot] == m[n].kids[slot]
    {
      assert n.Image().kids[slot] == n.childid[slot];
    }

    /** Insertion below the node `n`; what is left to do for the caller is to add `splitnode`, if there is one. */
    method InsertDescend(n: Node<V>, key: Key, value: V, ghost t: NTree<V>, ghost h: nat, ghost m: Mem<V>,
                         ghost l: Links<V>,
                         ghost a: seq<Node<V>>, ghost b: seq<Node<V>>)
      returns (leaf: Node<V>, slot: nat, inserted: bool, splitkey: Key, splitnode: Node?<V>, ghost e: Effect<V>)
      requires Views(m) && Linked(l) && Ready(p, m, l, nodes, t, h, a, b) && t.r == n
      modifies `nodes, `leaves, `innernodes, `tailleaf, nodes
      ensures Views(e.mem) && Linked(e.links) && Done(p, m, l, old(nodes), t, h, a, b, Item(key, value), e)
      ensures nodes == old(nodes) + e.added && fresh(e.added)
      ensures leaves == old(leaves) + NewLeaves(t, e.o)
      ensures innernodes == old(innernodes) + |e.added| - NewLeaves(t, e.o)
      ensures inserted == !e.o.Present? && e.o.at == Ins.Iter(leaf, slot)
      ensures if e.o.Split? then splitnode == e.o.n.r && splitkey == e.o.up else splitnode == null
      decreases h
    {
      hide *;
      ReadyNode(p, m, l, nodes, t, h, a, b);
      NodeLevel(n, m, t, h);
      if n.level == 0 {
        leaf, slot, inserted, splitkey, splitnode, e := InsertIntoLeaf(n, key, value, t, m, l, a, b);
        LeafNewLeaves(p, m, l, old(nodes), t, a, b, Item(key, value), e);
      } else {
        KidReady(p, m, l, nodes, t, h, a, b, key);
        var at := FindLower(n, key, m);
        ghost var kid, a', b' := t.kids[at], a + RowLeaves(t.kids[..at]), RowLeaves(t.kids[at + 1..]) + b;
        KidAt(n, m, at);
        var newkey, newchild;
        ghost var e1;
        leaf, slot, inserted, newkey, newchild,
          e1 := InsertDescend(n.childid[at], key, value, kid, h - 1, m, l, a', b');
        splitkey, splitnode := newkey, null;
        if newchild == null {
          e := KidKept(p, m, l, old(nodes), t, h, a, b, Item(key, value), at, e1);
        } else {
          splitkey, splitnode, e := AddSplitChild(n, at, newkey, newchild, t, h, m, l, old(nodes), a, b,
                                                  Item(key, value), e1);
        }
      }
    }

    /** The child at `at` was split off a new node `newchild`, which is put in behind it. */
    method AddSplitChild(n: Node<V>, at: nat, newkey: Key, newchild: Node<V>, ghost t: NTree<V>, ghost h: nat,
                         ghost m: Mem<V>,
                         ghost l: Links<V>, ghost ns: set<Node<V>>, ghost a: seq<Node<V>>, ghost b: seq<Node<V>>,
                         ghost x: Item<V>, ghost e1: Effect<V>)
      returns (splitkey: Key, splitnode: Node?<V>, ghost e: Effect<V>)
      requires Ready(p, m, l, ns, t, h, a, b) && t.Inner? && at == Lower(t.keys, x.key)
               && at < |t.kids| == |t.keys| + 1 && h > 0
      requires Done(p, m, l, ns, t.kids[at], h - 1, a + RowLeaves(t.kids[..at]), RowLeaves(t.kids[at + 1..]) + b, x, e1)
      requires e1.o.Split? && e1.o.n.r == newchild && e1.o.up == newkey && t.r == n && |t.keys| <= p.innerMax
      requires Views(e1.mem) && Linked(e1.links) && nodes == ns + e1.added && n in ns
      modifies `nodes, `innernodes, nodes`slotuse, nodes`slotkey, nodes`childid
      ensures Views(e.mem) && Linked(e.links) && e.links == e1.links && Done(p, m, l, ns, t, h, a, b, x, e)
      ensures nodes == ns + e.added && fresh(e.added - e1.added) && e1.added <= e.added
      ensures NewLeaves(t, e.o) == NewLeaves(t.kids[at], e1.o)
      ensures innernodes == old(innernodes) + |e.added| - |e1.added|
      ensures !e.o.Present? && e.o.at == e1.o.at
      ensures if e.o.Split? then splitnode == e.o.n.r && splitkey == e.o.up else splitnode == null
    {
      hide *;
      SplitCell(p, m, l, ns, t, h, a, b, x, at, e1);
      splitkey, splitnode := AddChild(n, at, newkey, newchild, e1.mem, InnerCell(h, t.keys, KidRefs(t.kids)), e1.links);
      if splitnode == null {
        e := KidSplitRoomDone(p, m, l, ns, t, h, a, b, x, at, e1);
      } else {
        e := KidSplitFullDone(p, m, l, ns, t, h, a, b, x, at, e1, splitnode);
      }
    }

    method FirstLeaf(key: Key, value: V) returns (leaf: Node<V>)
      ensures fresh(leaf) && leaf.p == p && leaf.level == 0 && leaf.Valid()
              && leaf.Image() == LeafOf([Item(key, value)])
      ensures leaf.prevleaf == null && leaf.nextleaf == null
    {
      leaf := new Node<V>(p, 0);
      PutLeaf([], Item(key, value));
      var slot := leaf.PutPair(key, value);
    }

    /** The first pair: a leaf is allocated, and the descent into it finds room at once. */
    method InsertFirst(key: Key, value: V) returns (leaf: Node<V>)
      requires Valid() && root == null
      modifies this
      ensures Valid() && fresh(leaf) && nodes == {leaf} && At(leaf, 0, 0)
      ensures old(Pairs()) == [] && PutIn([], Item(key, value), Pairs(), 0)
    {
      hide *;
      NothingYet();
      leaf := FirstLeaf(key, value);
      leaves := leaves + 1;
      root, headleaf, tailleaf := leaf, leaf, leaf;
      itemcount := itemcount + 1;
      nodes, tree := {leaf}, Some(Leaf(leaf, [Item(key, value)]));
      mem, links := map[leaf := LeafOf([Item(key, value)])], Links(map[leaf := null], map[leaf := null], leaf, leaf);
      OneNode(leaf, LeafOf([Item(key, value)]));
      FirstPair(p, leaf, links, mem, Item(key, value));
      Closed();
      SomePairs(Leaf(leaf, [Item(key, value)]));
      OneLeafPairs(leaf, [Item(key, value)]);
      LeafStands<Node<V>, V>(leaf, [Item(key, value)], 0);
      AtLeaf(leaf, [Item(key, value)]);
    }

    /** The iterator at `leaf` and `slot` stands at position `pos` among the pairs; in an empty tree it is null. */
    ghost predicate At(leaf: Node?<V>, slot: nat, pos: nat)
      reads `tree
    {
      if tree.None? then leaf == null && slot == 0 && pos == 0
      else leaf != null && Stands(Blocks(tree.value), Ins.Iter(leaf, slot), pos)
    }

    lemma AtLeaf(leaf: Node<V>, items: seq<Item<V>>)
      requires tree == Some(Leaf(leaf, items)) && Stands([Block(leaf, items)], Ins.Iter(leaf, 0), 0)
      ensures At(leaf, 0, 0)
    {
    }

    lemma AtTree(leaf: Node<V>, slot: nat, pos: nat)
      requires tree.Some? && Stands(Blocks(tree.value), Ins.Iter(leaf, slot), pos)
      ensures At(leaf, slot, pos)
    {
    }

    lemma AtRow(leaf: Node<V>, slot: nat, pos: nat, o: NOutcome<V>, n: Node<V>)
      requires !o.Present? && Stands(RowBlocks(o.Row()), Ins.Iter(leaf, slot), pos)
      requires tree == Some(if o.Grown? then o.t else Inner(n, [o.up], [o.l, o.n]))
      ensures At(leaf, slot, pos)
    {
      if o.Grown? {
        RowBlocksOne(o.t);
      }
    }

    lemma OneNode(leaf: Node<V>, c: Cell<V>)
      requires nodes == {leaf} && leaf.p == p && leaf.Valid() && leaf.Image() == c && leaf.prevleaf == null
               && leaf.nextleaf == null
      requires mem == map[leaf := c] && links == Links(map[leaf := null], map[leaf := null], leaf, leaf)
      requires headleaf == leaf && tailleaf == leaf
      ensures Views(mem) && Linked(links)
    {
    }

    static lemma OneLeafPairs(leaf: Node<V>, items: seq<Item<V>>)
      ensures Contents<Node<V>, V>(Leaf(leaf, items)) == items
    {
    }

    lemma NothingYet()
      requires Valid() && root == null
      ensures nodes == {} && tree == None && itemcount == leaves == innernodes == 0 && Pairs() == []
    {
    }

    lemma Opened()
      requires Valid() && root != null
      ensures tree.Some? && tree.value.r == root && Pairs() == Contents(tree.value)
      ensures Views(mem) && Linked(links)
              && Shape(p, root, tree, mem, links, nodes, Stats(itemcount, leaves, innernodes))
      ensures Ready(p, mem, links, nodes, tree.value, Run.Height(tree.value), [], [])
      ensures root in nodes && root.level == Run.Height(tree.value)
    {
      NodeLevel(root, mem, tree.value, Run.Height(tree.value));
    }

    lemma Closed()
      requires Views(mem) && Linked(links)
               && Shape(p, root, tree, mem, links, nodes, Stats(itemcount, leaves, innernodes))
      ensures Valid() && Pairs() == Run.Pairs(tree)
    {
    }

    lemma InHeap(m: Mem<V>)
      requires Views(m)
      ensures nodes <= m.Keys
    {
    }

    /** A root with two children. */
    method NewRoot(level: nat, left: Node<V>, newkey: Key, right: Node<V>, ghost m: Mem<V>, ghost l: Links<V>)
      returns (n: Node<V>)
      requires Views(m) && Linked(l) && level > 0
      modifies `nodes, `innernodes
      ensures fresh(n) && nodes == old(nodes) + {n} && innernodes == old(innernodes) + 1
      ensures Views(Put(m, n, InnerCell(level, [newkey], [left, right]))) && Linked(l)
    {
      n := new Node<V>(p, level);
      n.SetChild(0, left);
      n.AppendChild(newkey, right);
      assert n.Image() == InnerCell(level, [newkey], [left, right]);
      innernodes := innernodes + 1;
      nodes := nodes + {n};
    }

    method GrowRoot(newkey: Key, newchild: Node<V>, ghost t: NTree<V>, ghost h: nat, ghost m: Mem<V>, ghost l: Links<V>,
                    ghost ns: set<Node<V>>, ghost s: Stats, ghost x: Item<V>, ghost e: Effect<V>)
      requires root == t.r && h == Run.Height(t) && Shape(p, t.r, Some(t), m, l, ns, s)
      requires Done(p, m, l, ns, t, h, [], [], x, e) && e.o.Split? && e.o.n.r == newchild && e.o.up == newkey
      requires Views(e.mem) && Linked(e.links) && nodes == ns + e.added && root in nodes && root.level == h
      requires itemcount == s.itemcount && leaves == s.leaves + NewLeaves(t, e.o)
      requires innernodes == s.innernodes + |e.added| - NewLeaves(t, e.o)
      modifies this
      ensures Valid() && nodes == old(nodes) + {root} && fresh(root)
      ensures Pairs() == Flat(e.o.Row()) && tree == Some(Inner(root, [e.o.up], [e.o.l, e.o.n]))
    {
      hide *;
      InHeap(e.mem);
      var n := NewRoot(root.level + 1, root, newkey, newchild, e.mem, e.links);
      SplitWhole(p, m, l, ns, t, h, x, e, s, n);
      RootPairs(n, newkey, e.o);
      Establish(n, itemcount + 1, Some(Inner(n, [newkey], [e.o.l, e.o.n])),
                Put(e.mem, n, InnerCell(h + 1, [newkey], [t.r, newchild])), e.links);
    }

    /** The tree `w` is in the heap: it becomes the tree of the object. */
    method Establish(r: Node?<V>, count: int, ghost w: Whole<V>, ghost m: Mem<V>, ghost l: Links<V>)
      requires Views(m) && Linked(l) && Shape(p, r, w, m, l, nodes, Stats(count, leaves, innernodes))
      modifies `root, `itemcount, `mem, `links, `tree
      ensures Valid() && root == r && tree == w && Pairs() == Run.Pairs(w)
    {
      hide *;
      root, itemcount := r, count;
      mem, links, tree := m, l, w;
      Closed();
    }

    static lemma OnePairs(o: NOutcome<V>)
      requires o.Grown?
      ensures Run.Pairs(Some(o.t)) == Flat(o.Row())
    {
      FlatOne(o.t);
    }

    static lemma RootPairs(n: Node<V>, up: Key, o: NOutcome<V>)
      requires o.Split?
      ensures Run.Pairs(Some(Inner(n, [up], [o.l, o.n]))) == Flat(o.Row())
    {
    }

    static lemma SomePairs(t: NTree<V>)
      ensures Run.Pairs(Some(t)) == Contents(t)
    {
    }

    /** Insertion into a tree that has a root; if the root was split, a new root is put above the two nodes. */
    method InsertStart(key: Key, value: V) returns (leaf: Node<V>, slot: nat, inserted: bool, ghost pos: nat)
      requires Valid() && root != null
      modifies this, nodes
      ensures Valid() && fresh(nodes - old(nodes))
      ensures inserted <==> p.duplicates || key !in Keys(old(Pairs()))
      ensures if inserted then PutIn(old(Pairs()), Item(key, value), Pairs(), pos)
              else Pairs() == old(Pairs()) && tree == old(tree) && pos == Lower(Keys(old(Pairs())), key)
      ensures inserted ==>
                old(tree).Some? && Placed(p, Blocks(old(tree).value), Lower(Keys(old(Pairs())), key), key, pos)
      ensures At(leaf, slot, pos)
    {
      hide *;
      Opened();
      ghost var t, m, l, ns, s := tree.value, mem, links, nodes, Stats(itemcount, leaves, innernodes);
      ghost var h, x := Run.Height(t), Item(key, value);
      PlaceReady(m, l, ns, t, h, x);
      var newkey, newchild;
      ghost var e;
      leaf, slot, inserted, newkey, newchild, e := InsertDescend(root, key, value, t, h, m, l, [], []);
      InsertedPairs(p, m, l, ns, t, h, x, e);
      InsertStandsAt(p, m, l, ns, t, h, x, e);
      pos := Ins.Position(p, t, h, x);
      if inserted {
        GrowTree(newkey, newchild, t, h, m, l, ns, s, x, e);
        AtRow(leaf, slot, pos, e.o, root);
      } else {
        PresentSame(p, m, l, ns, t, h, [], [], x, e);
        Closed();
        pos := Lower(Keys(Contents(t)), key);
        AtTree(leaf, slot, pos);
      }
    }

    method KeepRoot(ghost t: NTree<V>, ghost h: nat, ghost m: Mem<V>, ghost l: Links<V>, ghost ns: set<Node<V>>,
                    ghost s: Stats,
                    ghost x: Item<V>, ghost e: Effect<V>)
      requires root == t.r && h == Run.Height(t) && Shape(p, t.r, Some(t), m, l, ns, s)
      requires Done(p, m, l, ns, t, h, [], [], x, e) && e.o.Grown?
      requires Views(e.mem) && Linked(e.links) && nodes == ns + e.added
      requires itemcount == s.itemcount && leaves == s.leaves + NewLeaves(t, e.o)
      requires innernodes == s.innernodes + |e.added| - NewLeaves(t, e.o)
      modifies `root, `itemcount, `mem, `links, `tree
      ensures Valid() && Pairs() == Flat(e.o.Row()) && tree == Some(e.o.t) && root == old(root)
    {
      hide *;
      InHeap(e.mem);
      GrownWhole(p, m, l, ns, t, h, x, e, s);
      OnePairs(e.o);
      Establish(root, itemcount + 1, Some(e.o.t), e.mem, e.links);
    }

    /** The new pair is in: the root was split, or it is as before. */
    method GrowTree(newkey: Key, newchild: Node?<V>, ghost t: NTree<V>, ghost h: nat, ghost m: Mem<V>,
                    ghost l: Links<V>,
                    ghost ns: set<Node<V>>, ghost s: Stats, ghost x: Item<V>, ghost e: Effect<V>)
      requires root == t.r && h == Run.Height(t) && Shape(p, t.r, Some(t), m, l, ns, s)
      requires Done(p, m, l, ns, t, h, [], [], x, e) && !e.o.Present?
      requires if e.o.Split? then newchild == e.o.n.r && newkey == e.o.up else newchild == null
      requires Views(e.mem) && Linked(e.links) && nodes == ns + e.added && root in nodes && root.level == h
      requires itemcount == s.itemcount && leaves == s.leaves + NewLeaves(t, e.o)
      requires innernodes == s.innernodes + |e.added| - NewLeaves(t, e.o)
      modifies this
      ensures Valid() && root != null && fresh(nodes - old(nodes)) && old(nodes) <= nodes
      ensures Pairs() == Flat(e.o.Row())
      ensures tree == Some(if e.o.Grown? then e.o.t else Inner(root, [e.o.up], [e.o.l, e.o.n]))
    {
      hide *;
      if newchild != null {
        GrowRoot(newkey, newchild, t, h, m, l, ns, s, x, e);
      } else {
        KeepRoot(t, h, m, l, ns, s, x, e);
      }
    }

    /**
     * Inserts a pair; the tree is as before if equal keys are not allowed and the key is there. The pair goes where the
     * leaf with the lower bound puts it, which is behind all equal keys unless these go on behind that place.
     */
    method Insert(key: Key, value: V) returns (leaf: Node<V>, slot: nat, inserted: bool, ghost pos: nat)
      requires Valid() && Unique()
      modifies this, nodes
      ensures Valid() && Unique() && fresh(nodes - old(nodes))
      ensures inserted <==> p.duplicates || key !in Keys(old(Pairs()))
      ensures if inserted then PutIn(old(Pairs()), Item(key, value), Pairs(), pos)
              else Pairs() == old(Pairs()) && tree == old(tree) && pos == Lower(Keys(old(Pairs())), key)
      ensures inserted && old(tree).Some? ==>
                Placed(p, Blocks(old(tree).value), Lower(Keys(old(Pairs())), key), key, pos)
      ensures inserted ==>
                && pos <= |old(Pairs())|
                && (pos == Upper(Keys(old(Pairs())), key) <==> pos == |old(Pairs())| || old(Pairs())[pos].key != key)
      ensures At(leaf, slot, pos)
    {
      hide *;
      UniqueIs();
      ghost var before := Pairs();
      PairsSorted();
      if root == null {
        NothingYet();
        NoKeys<V>(key);
        leaf := InsertFirst(key, value);
        slot, inserted, pos := 0, true, 0;
      } else {
        leaf, slot, inserted, pos := InsertStart(key, value);
      }
      if inserted {
        UniqueAfterInsert(before, Item(key, value), pos);
        PlaceOf(before, Item(key, value), Pairs(), pos);
      } else {
        UniqueIs();
      }
    }

    lemma PlaceReady(m: Mem<V>, l: Links<V>, ns: set<Node<V>>, t: NTree<V>, h: nat, x: Item<V>)
      requires Ready(p, m, l, ns, t, h, [], [])
      ensures BTree.Valid(p, t, h, true)
      ensures Placed(p, Blocks(t), Lower(Keys(Contents(t)), x.key), x.key, Ins.Position(p, t, h, x))
    {
      hide Owned, Leaves, Chain, Placed;
      PositionPlaced(p, t, h, x);
    }

    static lemma PlaceOf(before: seq<Item<V>>, x: Item<V>, after: seq<Item<V>>, pos: nat)
      requires SortedItems(before) && PutIn(before, x, after, pos)
      ensures pos <= |before|
      ensures pos == Upper(Keys(before), x.key) <==> pos == |before| || before[pos].key != x.key
    {
      PlaceIsUpper(Keys(before), x.key, pos);
      KeysAt(before);
    }

    // ------------------------------------------------------ repairing two leaves

    /** `dead` is taken out of the chain; `leaf` stands before it. */
    method UnlinkAfter(leaf: Node<V>, dead: Node<V>, ghost l: Links<V>)
      requires Linked(l) && leaf in nodes && dead in nodes && leaf != dead && leaf.level == 0 && dead.level == 0
      requires dead.nextleaf != null ==> dead.nextleaf in nodes && dead.nextleaf != leaf
      modifies `tailleaf, leaf`nextleaf, (if dead.nextleaf == null then {} else {dead.nextleaf})`prevleaf
      ensures Linked(LinkOut(l, leaf, dead))
    {
      hide LinkOut;
      LinkOutFacts(l, leaf, dead);
      leaf.nextleaf := dead.nextleaf;
      if leaf.nextleaf != null {
        leaf.nextleaf.prevleaf := leaf;
      } else {
        tailleaf := leaf;
      }
    }

    method MergeLeaves(left: Node<V>, right: Node<V>, ghost m: Mem<V>, ghost l: Links<V>, ghost x: seq<Item<V>>,
                       ghost y: seq<Item<V>>)
      requires Views(m) && Linked(l) && left in nodes && right in nodes && left != right
      requires m[left] == LeafOf(x) && m[right] == LeafOf(y) && |x| + |y| <= p.leafMax
      requires right in l.next && (l.next[right] != null ==> l.next[right] in nodes && l.next[right] != left)
      modifies `tailleaf, nodes
      ensures Views(Both(m, left, LeafOf(x + y), right, LeafOf([]))) && Linked(LinkOut(l, left, right))
    {
      hide *;
      MovePairs(left, right, m, x, y);
      LeafUse(left, Both(m, left, LeafOf(x + y), right, LeafOf([])), x + y) by {
        BothAt(m, left, LeafOf(x + y), right, LeafOf([]));
      }
      LeafUse(right, Both(m, left, LeafOf(x + y), right, LeafOf([])), []) by {
        BothAt(m, left, LeafOf(x + y), right, LeafOf([]));
      }
      NextOf(right, l);
      UnlinkAfter(left, right, l);
    }

    lemma NextOf(leaf: Node<V>, l: Links<V>)
      requires Linked(l) && leaf in nodes && leaf.level == 0
      ensures leaf in l.next && leaf.nextleaf == l.next[leaf]
    {
    }

    method MovePairs(left: Node<V>, right: Node<V>, ghost m: Mem<V>, ghost x: seq<Item<V>>, ghost y: seq<Item<V>>)
      requires Views(m) && left in nodes && right in nodes && left != right
      requires m[left] == LeafOf(x) && m[right] == LeafOf(y) && |x| + |y| <= p.leafMax
      modifies left`slotuse, left`slotkey, left`slotdata, right`slotuse
      ensures Views(Both(m, left, LeafOf(x + y), right, LeafOf([])))
    {
      hide Keys, Datas;
      JoinDatas(x, y);
      left.MergePairs(right);
    }

    method SetKey(n: Node<V>, slot: nat, key: Key, ghost m: Mem<V>)
      requires Views(m) && n in nodes && m[n].InnerCell? && slot < |m[n].keys|
      modifies n`slotkey
      ensures Views(Put(m, n, InnerCell(m[n].level, m[n].keys[slot := key], m[n].kids)))
    {
      n.SetKey(slot, key);
    }

    method TakePairsFromRight(left: Node<V>, right: Node<V>, ghost m: Mem<V>, ghost a: NTree<V>, ghost b: NTree<V>,
                              ghost sep: Key)
      returns (last: Key)
      requires Views(m) && left in nodes && right in nodes && left != right && a.Leaf? && b.Leaf?
      requires m[left] == CellOf(a, 0) && m[right] == CellOf(b, 0) && 1 <= a.Use() && a.Use() + 2 <= b.Use()
      modifies left`slotuse, left`slotkey, left`slotdata, right`slotuse, right`slotkey, right`slotdata
      ensures var s := TakeFromRight(a, sep, b);
              last == s.1 && Views(Both(m, left, CellOf(s.0, 0), right, CellOf(s.2, 0)))
    {
      hide Keys, Datas, TakeFromRight, Others, Views;
      LeafUse(left, m, a.items);
      LeafUse(right, m, b.items);
      OthersIn(m, left, right);
      ShiftedLeftPairs(a, sep, b);
      var shiftnum := (right.slotuse - left.slotuse) / 2;
      left.TakePairsFromRight(right, shiftnum);
      ghost var x := TakeFromRight(a, sep, b).0.items;
      assert left.Image() == LeafOf(x);
      assert left.slotkey[left.slotuse - 1] == left.Image().keys[|left.Image().keys| - 1];
      last := left.slotkey[left.slotuse - 1];
      ghost var s := TakeFromRight(a, sep, b);
      BothIn(m, left, CellOf(s.0, 0), right, CellOf(s.2, 0));
    }

    method TakePairsFromLeft(left: Node<V>, right: Node<V>, ghost m: Mem<V>, ghost a: NTree<V>, ghost b: NTree<V>,
                             ghost sep: Key)
      returns (last: Key)
      requires Views(m) && left in nodes && right in nodes && left != right && a.Leaf? && b.Leaf?
      requires m[left] == CellOf(a, 0) && m[right] == CellOf(b, 0) && 1 <= b.Use() && b.Use() + 2 <= a.Use()
      modifies left`slotuse, right`slotuse, right`slotkey, right`slotdata
      ensures var s := TakeFromLeft(a, sep, b);
              last == s.1 && Views(Both(m, left, CellOf(s.0, 0), right, CellOf(s.2, 0)))
    {
      hide Keys, Datas, TakeFromLeft, Others, Views;
      LeafUse(left, m, a.items);
      LeafUse(right, m, b.items);
      OthersIn(m, left, right);
      ShiftedRightPairs(a, sep, b);
      var shiftnum := (left.slotuse - right.slotuse) / 2;
      right.TakePairsFromLeft(left, shiftnum);
      ghost var x := TakeFromLeft(a, sep, b).0.items;
      assert left.Image() == LeafOf(x);
      assert left.slotkey[left.slotuse - 1] == left.Image().keys[|left.Image().keys| - 1];
      last := left.slotkey[left.slotuse - 1];
      ghost var s := TakeFromLeft(a, sep, b);
      BothIn(m, left, CellOf(s.0, 0), right, CellOf(s.2, 0));
    }

    /** Balances two leaves by moving pairs to the left one; the separator between them is renewed. */
    method ShiftLeftLeaf(left: Node<V>, right: Node<V>, parent: Node<V>, parentslot: nat, ghost m: Mem<V>,
                         ghost a: NTree<V>, ghost b: NTree<V>, ghost q: Cell<V>)
      requires Views(m) && left in nodes && right in nodes && parent in nodes && left != right && parent != left
               && parent != right
      requires m[left] == CellOf(a, 0) && m[right] == CellOf(b, 0) && a.Leaf? && b.Leaf? && 1 <= a.Use()
               && a.Use() + 2 <= b.Use()
      requires m[parent] == q && q.InnerCell? && parentslot < |q.keys|
      modifies nodes`slotuse, nodes`slotkey, nodes`slotdata
      ensures var s := TakeFromRight(a, q.keys[parentslot], b);
              Views(Three(m, left, CellOf(s.0, 0), right, CellOf(s.2, 0), parent,
                          InnerCell(q.level, q.keys[parentslot := s.1], q.kids)))
    {
      hide *;
      InHeap(m);
      var last := TakePairsFromRight(left, right, m, a, b, q.keys[parentslot]);
      ghost var s := TakeFromRight(a, q.keys[parentslot], b);
      ThirdIs(m, left, CellOf(s.0, 0), right, CellOf(s.2, 0), parent,
              InnerCell(q.level, q.keys[parentslot := s.1], q.kids));
      SetKey(parent, parentslot, last, Both(m, left, CellOf(s.0, 0), right, CellOf(s.2, 0)));
    }

    /** Balances two leaves by moving pairs to the right one. */
    method ShiftRightLeaf(left: Node<V>, right: Node<V>, parent: Node<V>, parentslot: nat, ghost m: Mem<V>,
                          ghost a: NTree<V>, ghost b: NTree<V>, ghost q: Cell<V>)
      requires Views(m) && left in nodes && right in nodes && parent in nodes && left != right && parent != left
               && parent != right
      requires m[left] == CellOf(a, 0) && m[right] == CellOf(b, 0) && a.Leaf? && b.Leaf? && 1 <= b.Use()
               && b.Use() + 2 <= a.Use()
      requires m[parent] == q && q.InnerCell? && parentslot < |q.keys|
      modifies nodes`slotuse, nodes`slotkey, nodes`slotdata
      ensures var s := TakeFromLeft(a, q.keys[parentslot], b);
              Views(Three(m, left, CellOf(s.0, 0), right, CellOf(s.2, 0), parent,
                          InnerCell(q.level, q.keys[parentslot := s.1], q.kids)))
    {
      hide *;
      InHeap(m);
      var last := TakePairsFromLeft(left, right, m, a, b, q.keys[parentslot]);
      ghost var s := TakeFromLeft(a, q.keys[parentslot], b);
      ThirdIs(m, left, CellOf(s.0, 0), right, CellOf(s.2, 0), parent,
              InnerCell(q.level, q.keys[parentslot := s.1], q.kids));
      SetKey(parent, parentslot, last, Both(m, left, CellOf(s.0, 0), right, CellOf(s.2, 0)));
    }

    // ----------------------------------------------- repairing two inner nodes

    /** The right node gives everything to the left one, with the separator between them. */
    method MergeInner(left: Node<V>, right: Node<V>, parent: Node<V>, parentslot: nat, ghost m: Mem<V>,
                      ghost a: NTree<V>, ghost b: NTree<V>, ghost q: Cell<V>, ghost h: nat)
      requires Views(m) && left in nodes && right in nodes && parent in nodes && left != right
      requires m[left] == CellOf(a, h) && m[right] == CellOf(b, h) && a.Inner? && b.Inner?
               && a.Use() + b.Use() < p.innerMax
      requires m[parent] == q && q.InnerCell? && parentslot < |q.keys|
      modifies left`slotuse, left`slotkey, left`childid, right`slotuse
      ensures |b.kids| >= 1
      ensures Views(Both(m, left, CellOf(Merge(a, q.keys[parentslot], b), h), right,
                         InnerCell(h, [], KidRefs(b.kids)[..1])))
    {
      hide KidRefs, Merge;
      InnerUse(left, m);
      InnerUse(right, m);
      KeyAt(parent, m, parentslot);
      MergedCells(a, q.keys[parentslot], b, h);
      left.MergeChildren(right, parent.slotkey[parentslot]);
    }

    lemma KeyAt(n: Node<V>, m: Mem<V>, slot: nat)
      requires Views(m) && n in nodes && m[n].InnerCell? && slot < |m[n].keys|
      ensures slot < |n.slotkey| && n.slotkey[slot] == m[n].keys[slot]
    {
      assert n.Image().keys[slot] == n.slotkey[slot];
    }

    method TakeChildrenFromRight(left: Node<V>, right: Node<V>, sep: Key, ghost m: Mem<V>, ghost a: NTree<V>,
                                 ghost b: NTree<V>, ghost h: nat)
      returns (up: Key)
      requires Views(m) && left in nodes && right in nodes && left != right && a.Inner? && b.Inner?
               && |b.kids| == |b.keys| + 1
      requires m[left] == CellOf(a, h) && m[right] == CellOf(b, h) && 1 <= a.Use() && a.Use() + 2 <= b.Use()
      modifies left`slotuse, left`slotkey, left`childid, right`slotuse, right`slotkey, right`childid
      ensures var s := TakeFromRight(a, sep, b);
              up == s.1 && Views(Both(m, left, CellOf(s.0, h), right, CellOf(s.2, h)))
    {
      hide KidRefs, TakeFromRight, Others, Views;
      InnerUse(left, m);
      InnerUse(right, m);
      OthersIn(m, left, right);
      ShiftedLeftCells(a, sep, b, h);
      var shiftnum := (right.slotuse - left.slotuse) / 2;
      up := left.TakeChildrenFromRight(right, sep, shiftnum);
      ghost var s := TakeFromRight(a, sep, b);
      BothIn(m, left, CellOf(s.0, h), right, CellOf(s.2, h));
    }

    method TakeChildrenFromLeft(left: Node<V>, right: Node<V>, sep: Key, ghost m: Mem<V>, ghost a: NTree<V>,
                                ghost b: NTree<V>, ghost h: nat)
      returns (up: Key)
      requires Views(m) && left in nodes && right in nodes && left != right && a.Inner? && b.Inner?
               && |a.kids| == |a.keys| + 1
      requires m[left] == CellOf(a, h) && m[right] == CellOf(b, h) && 1 <= b.Use() && b.Use() + 2 <= a.Use()
      modifies left`slotuse, right`slotuse, right`slotkey, right`childid
      ensures var s := TakeFromLeft(a, sep, b);
              up == s.1 && Views(Both(m, left, CellOf(s.0, h), right, CellOf(s.2, h)))
    {
      hide KidRefs, TakeFromLeft, Others, Views;
      InnerUse(left, m);
      InnerUse(right, m);
      OthersIn(m, left, right);
      ShiftedRightCells(a, sep, b, h);
      var shiftnum := (left.slotuse - right.slotuse) / 2;
      up := right.TakeChildrenFromLeft(left, sep, shiftnum);
      ghost var s := TakeFromLeft(a, sep, b);
      BothIn(m, left, CellOf(s.0, h), right, CellOf(s.2, h));
    }

    /** Balances two inner nodes by moving children to the left one; the separator goes through the parent. */
    method ShiftLeftInner(left: Node<V>, right: Node<V>, parent: Node<V>, parentslot: nat, ghost m: Mem<V>,
                          ghost a: NTree<V>, ghost b: NTree<V>, ghost q: Cell<V>, ghost h: nat)
      requires Views(m) && left in nodes && right in nodes && parent in nodes && left != right && parent != left
               && parent != right
      requires a.Inner? && b.Inner? && |b.kids| == |b.keys| + 1 && 1 <= a.Use() && a.Use() + 2 <= b.Use()
      requires m[left] == CellOf(a, h) && m[right] == CellOf(b, h)
      requires m[parent] == q && q.InnerCell? && parentslot < |q.keys|
      modifies nodes`slotuse, nodes`slotkey, nodes`childid
      ensures var s := TakeFromRight(a, q.keys[parentslot], b);
              Views(Three(m, left, CellOf(s.0, h), right, CellOf(s.2, h), parent,
                          InnerCell(q.level, q.keys[parentslot := s.1], q.kids)))
    {
      hide *;
      InHeap(m);
      KeyAt(parent, m, parentslot);
      var up := TakeChildrenFromRight(left, right, parent.slotkey[parentslot], m, a, b, h);
      ghost var s := TakeFromRight(a, q.keys[parentslot], b);
      ThirdIs(m, left, CellOf(s.0, h), right, CellOf(s.2, h), parent,
              InnerCell(q.level, q.keys[parentslot := s.1], q.kids));
      SetKey(parent, parentslot, up, Both(m, left, CellOf(s.0, h), right, CellOf(s.2, h)));
    }

    /** Balances two inner nodes by moving children to the right one. */
    method ShiftRightInner(left: Node<V>, right: Node<V>, parent: Node<V>, parentslot: nat, ghost m: Mem<V>,
                           ghost a: NTree<V>, ghost b: NTree<V>, ghost q: Cell<V>, ghost h: nat)
      requires Views(m) && left in nodes && right in nodes && parent in nodes && left != right && parent != left
               && parent != right
      requires a.Inner? && b.Inner? && |a.kids| == |a.keys| + 1 && 1 <= b.Use() && b.Use() + 2 <= a.Use()
      requires m[left] == CellOf(a, h) && m[right] == CellOf(b, h)
      requires m[parent] == q && q.InnerCell? && parentslot < |q.keys|
      modifies nodes`slotuse, nodes`slotkey, nodes`childid
      ensures var s := TakeFromLeft(a, q.keys[parentslot], b);
              Views(Three(m, left, CellOf(s.0, h), right, CellOf(s.2, h), parent,
                          InnerCell(q.level, q.keys[parentslot := s.1], q.kids)))
    {
      hide *;
      InHeap(m);
      KeyAt(parent, m, parentslot);
      var up := TakeChildrenFromLeft(left, right, parent.slotkey[parentslot], m, a, b, h);
      ghost var s := TakeFromLeft(a, q.keys[parentslot], b);
      ThirdIs(m, left, CellOf(s.0, h), right, CellOf(s.2, h), parent,
              InnerCell(q.level, q.keys[parentslot := s.1], q.kids));
      SetKey(parent, parentslot, up, Both(m, left, CellOf(s.0, h), right, CellOf(s.2, h)));
    }

    // -------------------------------------------------------- choosing a repair

    /**
     * The choice that the source makes by comparing pointers: which neighbours are few, and which hang from the same
     * parent.
     */
    method PickRepair(curr: Node<V>, left: Node?<V>, right: Node?<V>, leftparent: Node?<V>, rightparent: Node?<V>,
                      parent: Node<V>,
                      ghost min: nat, ghost l: Option<nat>, ghost r: Option<nat>, ghost hasL: bool, ghost hasR: bool)
                        returns (action: Action)
      requires min == if curr.level == 0 then p.LeafMin() else p.InnerMin()
      requires if left == null then l == None else l == Some(left.slotuse)
      requires if right == null then r == None else r == Some(right.slotuse)
      requires (hasL <==> leftparent == parent) && (hasR <==> rightparent == parent) && (hasL || hasR)
      requires (hasL ==> left != null) && (hasR ==> right != null)
      ensures action == Choose(min, l, r, hasL, hasR)
    {
      var few := if curr.level == 0 then p.leafMax / 2 else p.innerMax / 2;
      if (left == null || left.slotuse <= few) && (right == null || right.slotuse <= few) {
        action := if leftparent == parent then MergeLeft else MergeRight;
      } else if left != null && left.slotuse <= few && right != null && right.slotuse > few {
        action := if rightparent == parent then ShiftLeft else MergeLeft;
      } else if left != null && left.slotuse > few && right != null && right.slotuse <= few {
        action := if leftparent == parent then ShiftRight else MergeRight;
      } else if leftparent == rightparent {
        action := if left.slotuse <= right.slotuse then ShiftLeft else ShiftRight;
      } else {
        action := if leftparent == parent then ShiftRight else ShiftLeft;
      }
    }

    method DoMerge(x: Node<V>, y: Node<V>, parent: Node<V>, i: nat, ghost t: NTree<V>, ghost h: nat, ghost slot: nat,
                   ghost last: Option<Key>,
                   ghost m: Mem<V>, ghost l: Links<V>, ghost a: seq<Node<V>>, ghost b: seq<Node<V>>)
                     returns (ghost r: Removal<V>)
      requires Views(m) && Linked(l) && Owned(m, nodes, t, h) && Chain(l, a + Leaves(t) + b)
      requires forall n :: n in a + Leaves(t) + b ==> n in nodes
      requires t.r == parent && Drops(t, i, slot) && t.kids[i].r == x && t.kids[i + 1].r == y
      requires t.kids[i].Inner? ==> t.kids[i].kids != []
      requires t.kids[i + 1].Inner? ==> t.kids[i + 1].kids != []
      requires t.kids[i].Use() + t.kids[i + 1].Use() < t.kids[i].Max(p)
      modifies `tailleaf, nodes
      ensures Views(r.mem) && Linked(r.links) && r.freed == {}
      ensures Removed(m, nodes, t, h, slot, a, b, Outcome.Erased(MergedAt(t, i), last, true), r)
    {
      hide *;
      DropsFacts(t, i, slot);
      PairCells(m, nodes, t, h, i);
      InHeap(m);
      NodeIs(x, m, t.kids[i], h - 1);
      if x.level == 0 {
        NextOfRight(l, t, i, a, b);
        LeafCells(t.kids[i]);
        LeafCells(t.kids[i + 1]);
        MergeLeavesRemoved(m, l, nodes, t, h, slot, i, last, a, b);
        MergeLeaves(x, y, m, l, t.kids[i].items, t.kids[i + 1].items);
        r := Removal(Both(m, x, LeafOf(t.kids[i].items + t.kids[i + 1].items), y, LeafOf([])), LinkOut(l, x, y), {});
      } else {
        ghost var stale := KidRefs(t.kids[i + 1].kids)[..1];
        MergeInnerRemoved(m, l, nodes, t, h, slot, i, last, a, b, stale);
        MergeInner(x, y, parent, i, m, t.kids[i], t.kids[i + 1], InnerCell(h, t.keys, KidRefs(t.kids)), h - 1);
        r := Removal(Both(m, x, CellOf(Merge(t.kids[i], t.keys[i], t.kids[i + 1]), h - 1), y,
                          InnerCell(h - 1, [], stale)), l, {});
      }
    }

    lemma NodeIs(n: Node<V>, m: Mem<V>, t: NTree<V>, h: nat)
      requires Views(m) && n in nodes && t.r == n && m[n] == CellOf(t, h) && (t.Leaf? <==> h == 0)
      ensures n.level == h && n.slotuse == t.Use() && (n.level == 0 <==> t.Leaf?)
              && t.Max(p) == (if h == 0 then p.leafMax else p.innerMax)
    {
    }

    method DoShift(x: Node<V>, y: Node<V>, parent: Node<V>, i: nat, toLeft: bool, ghost t: NTree<V>, ghost h: nat,
                   ghost slot: nat,
                   ghost last: Option<Key>, ghost m: Mem<V>, ghost l: Links<V>, ghost a: seq<Node<V>>,
                     ghost b: seq<Node<V>>)
      returns (ghost r: Removal<V>)
      requires Views(m) && Linked(l) && Owned(m, nodes, t, h) && Chain(l, a + Leaves(t) + b)
      requires t.r == parent && Shifts(t, i, toLeft) && t.kids[i].r == x && t.kids[i + 1].r == y
      modifies nodes`slotuse, nodes`slotkey, nodes`slotdata, nodes`childid
      ensures Views(r.mem) && r.links == l && Linked(r.links) && r.freed == {}
      ensures Removed(m, nodes, t, h, slot, a, b, Outcome.Erased(SetPair(t, i, ShiftTriple(t, i, toLeft)), last, false),
                      r)
    {
      hide *;
      ShiftsFacts(t, i, toLeft);
      ShiftParts(t, i, toLeft);
      PairCells(m, nodes, t, h, i);
      InHeap(m);
      NodeIs(x, m, t.kids[i], h - 1);
      ghost var s := ShiftTriple(t, i, toLeft);
      ghost var q := InnerCell(h, t.keys, KidRefs(t.kids));
      ShiftRemoved(m, l, nodes, t, h, slot, i, s, last, a, b);
      if x.level == 0 {
        if toLeft {
          ShiftLeftLeaf(x, y, parent, i, m, t.kids[i], t.kids[i + 1], q);
        } else {
          ShiftRightLeaf(x, y, parent, i, m, t.kids[i], t.kids[i + 1], q);
        }
      } else {
        if toLeft {
          ShiftLeftInner(x, y, parent, i, m, t.kids[i], t.kids[i + 1], q, h - 1);
        } else {
          ShiftRightInner(x, y, parent, i, m, t.kids[i], t.kids[i + 1], q, h - 1);
        }
      }
      r := Removal(Three(m, x, CellOf(s.0, h - 1), y, CellOf(s.2, h - 1), parent,
                         InnerCell(h, t.keys[i := s.1], KidRefs(t.kids))), l, {});
    }

    lemma BesideUse(n: Node?<V>, m: Mem<V>, tn: Option<NTree<V>>, h: nat)
      requires Views(m) && Beside(m, nodes, n, tn, h)
      ensures if n == null then tn == None else tn.Some? && tn.value.r == n && n.slotuse == tn.value.Use()
    {
    }

    /** Repairs child `parentslot` of `parent` if it is underfull. */
    method Rebalance(curr: Node<V>, left: Node?<V>, right: Node?<V>, leftparent: Node?<V>, rightparent: Node?<V>,
                     parent: Node<V>, parentslot: nat,
                     ghost t: NTree<V>, ghost h: nat, ghost tl: Option<NTree<V>>, ghost tr: Option<NTree<V>>,
                       ghost last: Option<Key>,
                     ghost m: Mem<V>, ghost l: Links<V>, ghost a: seq<Node<V>>, ghost b: seq<Node<V>>)
      returns (merged: bool, ghost r: Removal<V>)
      requires Views(m) && Linked(l) && Owned(m, nodes, t, h) && Chain(l, a + Leaves(t) + b)
      requires forall n :: n in a + Leaves(t) + b ==> n in nodes
      requires h > 0 && MayBeShort(p, t, h - 1, parentslot, tl, tr) && parentslot < |t.kids| == |t.keys| + 1
      requires t.r == parent && t.kids[parentslot].r == curr
      requires Beside(m, nodes, left, tl, h - 1) && Beside(m, nodes, right, tr, h - 1)
      requires (leftparent == parent <==> parentslot > 0) && (rightparent == parent <==> parentslot < |t.keys|)
      requires (parentslot > 0 ==> tl.Some?) && (parentslot < |t.keys| ==> tr.Some?)
      modifies `tailleaf, nodes
      ensures Views(r.mem) && Linked(r.links) && r.freed == {}
      ensures var o := Repair(p, t, parentslot, tl, tr, last);
              Removed(m, nodes, t, h, parentslot, a, b, o, r) && o.Erased? && merged == o.merged && o.last == last
    {
      hide *;
      ShortFacts(p, t, h - 1, parentslot, tl, tr, last);
      ghost var kid := t.kids[parentslot];
      CurrUse(curr, m, t, h, parentslot);
      if curr.slotuse < (if curr.level == 0 then p.LeafMin() else p.InnerMin()) {
        ChosenFacts(p, t, h - 1, parentslot, tl, tr, last);
        ChosenIs(p, t, parentslot, tl, tr);
        BesideUse(left, m, tl, h - 1);
        BesideUse(right, m, tr, h - 1);
        var action := PickRepair(curr, left, right, leftparent, rightparent, parent,
                                 kid.Min(p), Uses(tl), Uses(tr), parentslot > 0, parentslot < |t.keys|);
        match action
        case MergeLeft =>
          r := DoMerge(left, curr, parent, parentslot - 1, t, h, parentslot, last, m, l, a, b);
          merged := true;
        case MergeRight =>
          r := DoMerge(curr, right, parent, parentslot, t, h, parentslot, last, m, l, a, b);
          merged := true;
        case ShiftLeft =>
          r := DoShift(curr, right, parent, parentslot, true, t, h, parentslot, last, m, l, a, b);
          merged := false;
        case ShiftRight =>
          r := DoShift(left, curr, parent, parentslot - 1, false, t, h, parentslot, last, m, l, a, b);
          merged := false;
      } else {
        InHeap(m);
        NothingRemoved(m, l, nodes, t, h, parentslot, last, a, b);
        merged, r := false, Removal(m, l, {});
      }
    }

    lemma CurrUse(n: Node<V>, m: Mem<V>, t: NTree<V>, h: nat, slot: nat)
      requires Views(m) && Owned(m, nodes, t, h) && t.Inner? && slot < |t.kids| && t.kids[slot].r == n && h > 0
      ensures n in nodes && n.level == h - 1 && n.slotuse == t.kids[slot].Use()
    {
      KidOwned(m, nodes, t, h, slot);
      OwnRef(t.kids[slot]);
    }

    // -------------------------------------------------- dropping a merged child

    method FreeNode(n: Node<V>, ghost m: Mem<V>, ghost l: Links<V>)
      requires Views(m) && Linked(l) && n in nodes
      modifies `nodes, `leaves, `innernodes
      ensures Views(m) && Linked(l) && nodes == old(nodes) - {n}
      ensures leaves == old(leaves) - (if n.level == 0 then 1 else 0)
      ensures innernodes == old(innernodes) - (if n.level == 0 then 0 else 1)
    {
      if n.level == 0 {
        leaves := leaves - 1;
      } else {
        innernodes := innernodes - 1;
      }
      nodes := nodes - {n};
    }

    method DropChild(inner: Node<V>, j: nat, ghost m: Mem<V>)
      requires Views(m) && inner in nodes && m[inner].InnerCell? && 0 < j < |m[inner].kids| == |m[inner].keys| + 1
      modifies nodes`slotuse, nodes`slotkey, nodes`childid
      ensures Views(Put(m, inner,
                        InnerCell(m[inner].level, RemoveAt(m[inner].keys, j - 1), RemoveAt(m[inner].kids, j))))
      ensures inner.slotuse == |m[inner].keys| - 1
    {
      hide RemoveAt;
      InnerUse(inner, m);
      inner.DropChild(j);
    }

    /** The separator of a leaf that took over its right sibling is read from that leaf again. */
    method RefreshKey(inner: Node<V>, slot: nat, child: Node<V>, ghost m: Mem<V>, ghost c: Cell<V>,
                      ghost items: seq<Item<V>>)
      requires Views(m) && inner in nodes && child in nodes && m[inner] == c && c.InnerCell?
               && slot <= |c.keys| < p.innerMax
      requires m[child] == LeafOf(items) && items != []
      modifies nodes`slotkey
      ensures Views(Put(m, inner,
                        InnerCell(c.level, if slot < |c.keys| then c.keys[slot := items[|items| - 1].key] else c.keys,
                                  c.kids)))
    {
      hide Datas;
      InnerUse(inner, m);
      LeafUse(child, m, items);
      assert child.Image().keys[|items| - 1] == child.slotkey[child.slotuse - 1];
      inner.WriteKey(slot, child.slotkey[child.slotuse - 1]);
    }

    /** Removes the child that a merge emptied: child `s`, or the one after it. */
    method FixMerge(inner: Node<V>, s: nat, ghost t: NTree<V>, ghost h: nat, ghost m: Mem<V>, ghost l: Links<V>)
      returns (ghost m': Mem<V>, ghost dead: Node<V>)
      requires Views(m) && Linked(l) && Owned(m, nodes, t, h) && t.r == inner && Emptying(t, s)
      modifies `nodes, `leaves, `innernodes, nodes`slotuse, nodes`slotkey, nodes`childid
      ensures Views(m') && Linked(l) && nodes == old(nodes) - {dead} && dead in old(nodes)
      ensures var t' := DropEmptied(t, s);
              && Rep(m', t', h) && Refs(t') + multiset{dead} == Refs(t) && dead !in Refs(t')
              && leaves - |Leaves(t')| == old(leaves) - |Leaves(t)|
              && t.kids[DropIndex(t, s)].r == dead
              && (h > 1 ==> Leaves(t') == Leaves(t))
      ensures Outside(m, m', old(nodes), multiset{inner})
      ensures leaves + innernodes == old(leaves) + old(innernodes) - 1
    {
      hide *;
      DropIs(t, s);
      ghost var j := DropIndex(t, s);
      InHeap(m);
      DropDone(m, nodes, t, h, j, KeptKeys(t, j));
      DropNeeds(m, nodes, t, h, j);
      KidUse(inner, m, t, h, s);
      KidUse(inner, m, t, h, j);
      KidUse(inner, m, t, h, j - 1);
      var slot := s;
      if inner.childid[slot].slotuse != 0 {
        slot := slot + 1;
      }
      dead := inner.childid[slot];
      FreeNode(inner.childid[slot], m, l);
      DropAt(inner, slot, t, h, m);
      m' := Put(m, inner, InnerCell(h, KeptKeys(t, j), RemoveAt(KidRefs(t.kids), j)));
    }

    method DropAt(inner: Node<V>, j: nat, ghost t: NTree<V>, ghost h: nat, ghost m: Mem<V>)
      requires Views(m) && inner in nodes && t.Inner? && 0 < j < |t.kids| == |t.keys| + 1
      requires m[inner] == InnerCell(h, t.keys, KidRefs(t.kids)) && t.kids[j - 1].r in nodes && t.kids[j - 1].r != inner
      requires t.kids[j - 1].Leaf? <==> h == 1
      requires h == 1 ==> t.kids[j - 1].r in m && m[t.kids[j - 1].r] == LeafOf(t.kids[j - 1].items)
                          && t.kids[j - 1].items != []
      modifies nodes`slotuse, nodes`slotkey, nodes`childid
      ensures Views(Put(m, inner, InnerCell(h, KeptKeys(t, j), RemoveAt(KidRefs(t.kids), j))))
    {
      hide *;
      KeptKeysIs(t, j);
      RemovedIndex(KidRefs(t.kids), j);
      RemovedLength(t.keys, j - 1);
      InnerUse(inner, m);
      DropChild(inner, j, m);
      ghost var c := InnerCell(h, RemoveAt(t.keys, j - 1), RemoveAt(KidRefs(t.kids), j));
      if inner.level == 1 {
        ghost var items := t.kids[j - 1].items;
        ghost var keys := if j - 1 < |c.keys| then c.keys[j - 1 := items[|items| - 1].key] else c.keys;
        PutIs(m, inner, c, t.kids[j - 1].r, InnerCell(h, keys, c.kids));
        KidAt(inner, Put(m, inner, c), j - 1);
        RefreshKey(inner, j - 1, inner.childid[j - 1], Put(m, inner, c), c, items);
      }
    }

    lemma KidUse(inner: Node<V>, m: Mem<V>, t: NTree<V>, h: nat, slot: nat)
      requires Views(m) && Owned(m, nodes, t, h) && t.r == inner && t.Inner? && slot < |t.kids| == |t.keys| + 1
      ensures inner in nodes && slot < |inner.childid| && inner.childid[slot] != null
              && inner.childid[slot] == t.kids[slot].r
      ensures t.kids[slot].r in nodes && t.kids[slot].r.slotuse == t.kids[slot].Use()
      ensures h > 0 && t.kids[slot].r.level == h - 1 && (t.kids[slot].Leaf? <==> h == 1)
    {
      OwnedCell(m, nodes, t, h);
      KidOwned(m, nodes, t, h, slot);
      OwnRef(t.kids[slot]);
      KidAt(inner, m, slot);
    }

    /** A changed greatest key goes into the parent's separator, or must be passed further up. */
    method RenewKey(parent: Node<V>, parentslot: nat, hasLast: bool, lastkey: Key, ghost t: NTree<V>, ghost h: nat,
                    ghost m: Mem<V>)
      returns (forward: bool, ghost m': Mem<V>)
      requires Views(m) && Owned(m, nodes, t, h) && t.Inner? && parentslot < |t.kids| == |t.keys| + 1 && t.r == parent
      modifies nodes`slotkey
      ensures Views(m') && Owned(m', nodes, Inner(t.r, RenewKeys(t, parentslot, Opt(hasLast, lastkey)), t.kids), h)
      ensures Refs(Inner(t.r, RenewKeys(t, parentslot, Opt(hasLast, lastkey)), t.kids)) == Refs(t)
      ensures Outside(m, m', nodes, multiset{parent})
      ensures Opt(forward, lastkey) == if parentslot < |t.keys| then None else Opt(hasLast, lastkey)
    {
      hide Views, Owned, Refs, Leaves, KidRefs, Rep;
      InHeap(m);
      KeySet(m, nodes, t, h, RenewKeys(t, parentslot, Opt(hasLast, lastkey)));
      CellNode(parent, m, nodes, t, h);
      InnerUse(parent, m);
      if hasLast && parentslot < parent.slotuse {
        SetKey(parent, parentslot, lastkey, m);
        m' := Put(m, parent, InnerCell(h, RenewKeys(t, parentslot, Opt(hasLast, lastkey)), KidRefs(t.kids)));
        forward := false;
      } else {
        forward, m' := hasLast, m;
      }
    }

    lemma CellNode(n: Node<V>, m: Mem<V>, ns: set<Node<V>>, t: NTree<V>, h: nat)
      requires Owned(m, ns, t, h) && t.r == n
      ensures n in ns
    {
      OwnRef(t);
    }

    /**
     * The first steps on the way back from child `parentslot`, which is an inner node: separator, and emptied
     * grandchild.
     */
    method SettleChild(curr: Node<V>, parent: Node<V>, parentslot: nat, s: nat, hasLast: bool, lastkey: Key,
                       merged: bool,
                       ghost t: NTree<V>, ghost h: nat, ghost m: Mem<V>, ghost l: Links<V>)
      returns (forward: bool, ghost m': Mem<V>, ghost freed: set<Node<V>>)
      requires Views(m) && Linked(l) && Owned(m, nodes, t, h) && h > 0
      requires t.Inner? && parentslot < |t.kids| == |t.keys| + 1 && t.r == parent && t.kids[parentslot].r == curr
      requires var kid := t.kids[parentslot]; kid.Inner? && (merged ==> Emptying(kid, s))
      modifies `nodes, `leaves, `innernodes, nodes`slotuse, nodes`slotkey, nodes`childid
      ensures Views(m') && Linked(l) && nodes == old(nodes) - freed && freed <= old(nodes)
      ensures var kid := t.kids[parentslot];
              && (merged ==> CanDrop(kid, s))
              && var kid' := if merged then DropEmptied(kid, s) else kid;
              var t' := WithKid(Inner(t.r, RenewKeys(t, parentslot, Opt(hasLast, lastkey)), t.kids), parentslot, kid');
              && Owned(m', nodes, t', h) && Refs(t') + multiset(freed) == Refs(t)
              && leaves - |Leaves(t')| == old(leaves) - |Leaves(t)|
      ensures Kept(m, m', old(nodes), multiset{parent, curr})
      ensures forall n :: n in freed ==> n in Refs(t.kids[parentslot])
      ensures leaves + innernodes == old(leaves) + old(innernodes) - |freed|
      ensures Opt(forward, lastkey) == if parentslot < |t.keys| then None else Opt(hasLast, lastkey)
    {
      hide *;
      ghost var tB, kid := Inner(t.r, RenewKeys(t, parentslot, Opt(hasLast, lastkey)), t.kids), t.kids[parentslot];
      SameLeaves(t, tB);
      forward, m' := RenewKey(parent, parentslot, hasLast, lastkey, t, h, m);
      ghost var m2 := m';
      KidOwned(m2, nodes, tB, h, parentslot);
      if merged {
        EmptyingCanDrop(kid, s);
        ghost var dead;
        m', dead := FixMerge(curr, s, kid, h - 1, m2, l);
        DroppedNode(kid, s);
        DropInKid(m2, m', old(nodes), tB, h, parentslot, DropEmptied(kid, s), dead);
        freed := {dead};
        FreedBelow(Refs(DropEmptied(kid, s)), freed, Refs(kid));
        assert multiset(freed) == multiset{dead};
      } else {
        freed := {};
        NoneFreed(Refs(t));
        SameKid(tB, parentslot);
      }
      KeptTwice(m, m2, m', old(nodes), parent, curr);
    }

    /** The repair that ends the deletion below `t`: `t1` is what the steps before made of it. */
    method RepairSettled(curr: Node<V>, left: Node?<V>, right: Node?<V>, leftparent: Node?<V>, rightparent: Node?<V>,
                         parent: Node<V>, parentslot: nat, ghost t: NTree<V>, ghost t1: NTree<V>, ghost h: nat,
                         ghost tl: Option<NTree<V>>, ghost tr: Option<NTree<V>>, ghost last: Option<Key>,
                           ghost m: Mem<V>, ghost m1: Mem<V>,
                         ghost l: Links<V>, ghost ns: set<Node<V>>, ghost a: seq<Node<V>>, ghost b: seq<Node<V>>,
                           ghost freed: set<Node<V>>)
      returns (merged: bool, ghost r: Removal<V>)
      requires Settled(p, m, m1, l, ns, t, t1, h, parentslot, tl, tr, a, b, freed) && nodes == ns - freed
      requires Views(m1) && Linked(l)
      requires t.Inner? && parentslot < |t.kids| && t.r == parent && t.kids[parentslot].r == curr && left == RefOf(tl)
               && right == RefOf(tr)
      requires (leftparent == parent <==> parentslot > 0) && (rightparent == parent <==> parentslot < |t.kids| - 1)
      modifies `tailleaf, nodes
      ensures Views(r.mem) && Linked(r.links) && r.freed == freed
      ensures t1.Inner? && parentslot < |t1.kids| && (parentslot > 0 ==> tl.Some?)
              && (parentslot < |t1.kids| - 1 ==> tr.Some?)
      ensures var o := Repair(p, t1, parentslot, tl, tr, last);
              && o.Erased? && o.last == last && o.merged == merged && Removed(m, ns, t, h, parentslot, a, b, o, r)
              && |Leaves(o.t)| == |Leaves(t1)|
    {
      hide *;
      SettledFacts(p, m, m1, l, ns, t, t1, h, parentslot, tl, tr, a, b, freed);
      RepairLeaves(p, t1, h - 1, parentslot, tl, tr, last);
      merged, r := Rebalance(curr, left, right, leftparent, rightparent, parent, parentslot, t1, h, tl, tr, last, m1, l,
                             a, b);
      StepsRemoved(m, m1, ns, t, t1, h, parentslot, a, b, freed, Repair(p, t1, parentslot, tl, tr, last), r);
      r := Removal(r.mem, r.links, freed);
    }

    /** The first steps on the way back from child `parentslot`, an inner node in whose child `s` a pair was removed. */
    method AscendSettle(key: Key, curr: Node<V>, parent: Node<V>, parentslot: nat, s: nat, hasLast: bool, lastkey: Key,
                        fixmerge: bool,
                        ghost t: NTree<V>, ghost h: nat, ghost tl: Option<NTree<V>>, ghost tr: Option<NTree<V>>,
                        ghost m: Mem<V>, ghost l: Links<V>, ghost ns: set<Node<V>>, ghost a: seq<Node<V>>,
                          ghost b: seq<Node<V>>,
                        ghost o1: Outcome<Node<V>, V>, ghost r1: Removal<V>)
      returns (forward: bool, ghost t1: NTree<V>, ghost m1: Mem<V>, ghost freed: set<Node<V>>)
      requires EraseReady(p, m, l, ns, t, h, parentslot, tl, tr, a, b, key) && t.kids[parentslot].Inner?
      requires t.r == parent && t.kids[parentslot].r == curr
      requires var kid := t.kids[parentslot];
               && s == Lower(kid.keys, key) && s < |kid.kids| && HasKids(tl) && HasKids(tr)
               && o1 == EraseBelow(p, kid, s, LeftOf(kid, s, tl), RightOf(kid, s, tr), key) && o1.Erased?
      requires h > 1 && Removed(m, ns, t.kids[parentslot], h - 1, s, a + RowLeaves(t.kids[..parentslot]),
                                RowLeaves(t.kids[parentslot + 1..]) + b, o1, r1)
      requires o1.last == Opt(hasLast, lastkey) && o1.merged == fixmerge
      requires Views(r1.mem) && Linked(r1.links) && nodes == ns - r1.freed
      modifies `nodes, `leaves, `innernodes, nodes`slotuse, nodes`slotkey, nodes`childid
      ensures Views(m1) && Linked(r1.links) && nodes == ns - freed && nodes <= old(nodes)
      ensures Settled(p, m, m1, r1.links, ns, t, t1, h, parentslot, tl, tr, a, b, freed)
      ensures (o1.merged ==> CanDrop(o1.t, s)) && t1 == Renew(t, parentslot, Settle(o1, s), o1.last).0
      ensures Opt(forward, lastkey) == Renew(t, parentslot, Settle(o1, s), o1.last).1
      ensures leaves - |Leaves(t1)| == old(leaves) - |Leaves(t)| + (|Leaves(t.kids[parentslot])| - |Leaves(o1.t)|)
      ensures leaves + innernodes == old(leaves) + old(innernodes) - |freed| + |r1.freed|
    {
      hide *;
      EraseFacts(p, m, l, ns, t, h, parentslot, tl, tr, a, b, key);
      ghost var kid := t.kids[parentslot];
      RemovedFacts(m, ns, kid, h - 1, s, a + RowLeaves(t.kids[..parentslot]), RowLeaves(t.kids[parentslot + 1..]) + b,
                   o1, r1);
      KidRemoved(m, ns, t, h, parentslot, s, a, b, o1, r1);
      AscendIsRepair(p, m, l, ns, t, h, parentslot, tl, tr, a, b, key, o1);
      if fixmerge {
        ErasedIsEmptying(p, r1.mem, kid, h - 2, s, o1, key);
      }
      ghost var tA, q := WithKid(t, parentslot, o1.t), Settle(o1, s);
      WithKidIs(t, parentslot, o1.t);
      forward, m1, freed := SettleChild(curr, parent, parentslot, s, hasLast, lastkey, fixmerge, tA, h, r1.mem,
                                        r1.links);
      SettleIs(o1, s);
      RenewSteps(t, parentslot, o1.t, q, o1.last);
      RenewIs(t, parentslot, q, o1.last);
      WithKidIs(t, parentslot, q);
      t1 := Renew(t, parentslot, q, o1.last).0;
      FreedBelow(Refs(o1.t), r1.freed, Refs(kid));
      RepairReady(p, m, r1.mem, m1, l, ns, t, h, parentslot, tl, tr, a, b, key, tA, r1.freed, freed, t1);
      SameLeaves(WithKid(t, parentslot, q), t1);
      freed := r1.freed + freed;
      MakeSettled(p, m, m1, r1.links, ns, t, t1, h, parentslot, tl, tr, a, b, freed);
    }

    method RemovePair(leaf: Node<V>, slot: nat, ghost m: Mem<V>, ghost items: seq<Item<V>>)
      returns (last: bool, lastkey: Key)
      requires Views(m) && leaf in nodes && m[leaf] == LeafOf(items) && slot < |items| && |items| > 1
      modifies leaf`slotuse, leaf`slotkey, leaf`slotdata
      ensures Views(Put(m, leaf, LeafOf(RemoveAt(items, slot))))
      ensures var items' := RemoveAt(items, slot);
              items' != [] && Opt(last, lastkey) == Opt(slot == |items'|, items'[|items'| - 1].key)
    {
      hide RemoveAt, Datas;
      LeafUse(leaf, m, items);
      RemovePairs(items, slot);
      RemovedLength(items, slot);
      leaf.RemovePair(slot);
      last, lastkey := false, 0;
      if slot == leaf.slotuse {
        assert leaf.Image().keys[leaf.slotuse - 1] == leaf.slotkey[leaf.slotuse - 1];
        last, lastkey := true, leaf.slotkey[leaf.slotuse - 1];
      }
    }

    /** Removal of the pair at `slot` of the leaf, child `parentslot` of `parent`, and renewal of the separator. */
    method LeafSettle(key: Key, curr: Node<V>, slot: nat, parent: Node<V>, parentslot: nat, ghost t: NTree<V>,
                      ghost h: nat,
                      ghost tl: Option<NTree<V>>, ghost tr: Option<NTree<V>>, ghost m: Mem<V>, ghost l: Links<V>,
                      ghost a: seq<Node<V>>, ghost b: seq<Node<V>>)
      returns (forward: bool, lastkey: Key, ghost t1: NTree<V>, ghost m1: Mem<V>)
      requires EraseReady(p, m, l, nodes, t, h, parentslot, tl, tr, a, b, key) && t.kids[parentslot].Leaf?
      requires t.r == parent && t.kids[parentslot].r == curr && Views(m) && Linked(l)
      requires key in Keys(t.kids[parentslot].items) && slot == Lower(Keys(t.kids[parentslot].items), key)
      modifies nodes`slotuse, nodes`slotkey, nodes`slotdata
      ensures Views(m1) && Linked(l)
      ensures Settled(p, m, m1, l, nodes, t, t1, h, parentslot, tl, tr, a, b, {})
      ensures var items := t.kids[parentslot].items;
              && slot < |items|
              && var items' := RemoveAt(items, slot);
              && items' != []
              && var (t', last') := Renew(t, parentslot, Leaf(curr, items'),
                                          Opt(slot == |items'|, items'[|items'| - 1].key));
              t1 == t' && Opt(forward, lastkey) == last'
      ensures |Leaves(t1)| == |Leaves(t)|
    {
      hide *;
      EraseFacts(p, m, l, nodes, t, h, parentslot, tl, tr, a, b, key);
      LeafErase(p, m, l, nodes, t, h, parentslot, tl, tr, a, b, key);
      ghost var items, items' := t.kids[parentslot].items, RemoveAt(t.kids[parentslot].items, slot);
      ghost var kid: NTree<V> := Leaf(curr, items');
      RemovedLength(items, slot);
      LeafChanged(m, nodes, t, h, parentslot, items');
      WithKidIs(t, parentslot, kid);
      var last;
      last, lastkey := RemovePair(curr, slot, m, items);
      ghost var m0 := Put(m, curr, LeafOf(items'));
      forward, m1 := RenewKey(parent, parentslot, last, lastkey, WithKid(t, parentslot, kid), h, m0);
      RenewIs(t, parentslot, kid, Opt(last, lastkey));
      RenewKeysSame(t, parentslot, kid, Opt(last, lastkey));
      t1 := Renew(t, parentslot, kid, Opt(last, lastkey)).0;
      SameLeaves(WithKid(t, parentslot, kid), t1);
      NoneFreed(Refs(t));
      NoneFreed(Refs(t1));
      LeafReady(p, m, m0, m1, l, nodes, t, h, parentslot, tl, tr, a, b, key, t1);
    }

    /** Deletion in a leaf, child `parentslot` of `parent`. */
    method EraseInLeaf(key: Key, curr: Node<V>, left: Node?<V>, right: Node?<V>, leftparent: Node?<V>,
                       rightparent: Node?<V>,
                       parent: Node<V>, parentslot: nat, ghost t: NTree<V>, ghost h: nat, ghost tl: Option<NTree<V>>,
                         ghost tr: Option<NTree<V>>,
                       ghost m: Mem<V>, ghost l: Links<V>, ghost a: seq<Node<V>>, ghost b: seq<Node<V>>)
      returns (found: bool, forward: bool, lastkey: Key, merged: bool, ghost r: Removal<V>)
      requires EraseReady(p, m, l, nodes, t, h, parentslot, tl, tr, a, b, key) && t.kids[parentslot].Leaf?
      requires t.r == parent && t.kids[parentslot].r == curr && left == RefOf(tl) && right == RefOf(tr) && Views(m)
               && Linked(l)
      requires (leftparent == parent <==> parentslot > 0) && (rightparent == parent <==> parentslot < |t.kids| - 1)
      modifies `tailleaf, nodes
      ensures (parentslot > 0 ==> tl.Some?) && (parentslot < |t.kids| - 1 ==> tr.Some?)
      ensures var o := EraseBelow(p, t, parentslot, tl, tr, key);
              if found then
                && o.Erased? && o.last == Opt(forward, lastkey) && o.merged == merged && |Leaves(o.t)| == |Leaves(t)|
                && Removed(m, nodes, t, h, parentslot, a, b, o, r) && r.freed == {} && Views(r.mem) && Linked(r.links)
              else o.NotFound? && Views(m) && Linked(l)
    {
      hide *;
      EraseFacts(p, m, l, nodes, t, h, parentslot, tl, tr, a, b, key);
      LeafErase(p, m, l, nodes, t, h, parentslot, tl, tr, a, b, key);
      var slot, full;
      forward, merged, lastkey := false, false, 0;
      r := Removal(m, l, {});
      slot, found, full := FindInLeaf(curr, key, m, t.kids[parentslot].items);
      if found {
        ghost var t1, m1;
        forward, lastkey, t1, m1 := LeafSettle(key, curr, slot, parent, parentslot, t, h, tl, tr, m, l, a, b);
        assert nodes - {} == nodes;
        merged, r := RepairSettled(curr, left, right, leftparent, rightparent, parent, parentslot, t, t1, h, tl, tr,
                                   Opt(forward, lastkey), m, m1, l, nodes, a, b, {});
      }
    }

    /** The way back from child `parentslot`, an inner node in whose child `s` a pair was removed. */
    method Ascend(key: Key, curr: Node<V>, left: Node?<V>, right: Node?<V>, leftparent: Node?<V>, rightparent: Node?<V>,
                  parent: Node<V>, parentslot: nat, s: nat, hasLast: bool, lastkey: Key, fixmerge: bool,
                  ghost t: NTree<V>, ghost h: nat, ghost tl: Option<NTree<V>>, ghost tr: Option<NTree<V>>,
                  ghost m: Mem<V>, ghost l: Links<V>, ghost ns: set<Node<V>>, ghost a: seq<Node<V>>,
                    ghost b: seq<Node<V>>,
                  ghost o1: Outcome<Node<V>, V>, ghost r1: Removal<V>)
      returns (forward: bool, merged: bool, ghost r: Removal<V>)
      requires EraseReady(p, m, l, ns, t, h, parentslot, tl, tr, a, b, key) && t.kids[parentslot].Inner?
      requires t.r == parent && t.kids[parentslot].r == curr && left == RefOf(tl) && right == RefOf(tr)
      requires (leftparent == parent <==> parentslot > 0) && (rightparent == parent <==> parentslot < |t.kids| - 1)
      requires var kid := t.kids[parentslot];
               && s == Lower(kid.keys, key) && s < |kid.kids| && HasKids(tl) && HasKids(tr)
               && o1 == EraseBelow(p, kid, s, LeftOf(kid, s, tl), RightOf(kid, s, tr), key) && o1.Erased?
      requires h > 1 && Removed(m, ns, t.kids[parentslot], h - 1, s, a + RowLeaves(t.kids[..parentslot]),
                                RowLeaves(t.kids[parentslot + 1..]) + b, o1, r1)
      requires o1.last == Opt(hasLast, lastkey) && o1.merged == fixmerge
      requires Views(r1.mem) && Linked(r1.links) && nodes == ns - r1.freed
      modifies `nodes, `leaves, `innernodes, `tailleaf, nodes
      ensures (parentslot > 0 ==> tl.Some?) && (parentslot < |t.kids| - 1 ==> tr.Some?)
      ensures var o := EraseBelow(p, t, parentslot, tl, tr, key);
              && o.Erased? && Removed(m, ns, t, h, parentslot, a, b, o, r)
              && o.last == Opt(forward, lastkey) && o.merged == merged
              && leaves - |Leaves(o.t)| == old(leaves) - |Leaves(t)| + (|Leaves(t.kids[parentslot])| - |Leaves(o1.t)|)
      ensures Views(r.mem) && Linked(r.links) && nodes == ns - r.freed
      ensures leaves + innernodes == old(leaves) + old(innernodes) - |r.freed| + |r1.freed|
    {
      hide *;
      EraseFacts(p, m, l, ns, t, h, parentslot, tl, tr, a, b, key);
      AscendIsRepair(p, m, l, ns, t, h, parentslot, tl, tr, a, b, key, o1);
      ghost var t1, m1, freed;
      forward, t1, m1, freed := AscendSettle(key, curr, parent, parentslot, s, hasLast, lastkey, fixmerge, t, h, tl, tr,
                                             m, l, ns, a, b, o1, r1);
      merged, r := RepairSettled(curr, left, right, leftparent, rightparent, parent, parentslot, t, t1, h, tl, tr,
                                 Opt(forward, lastkey), m, m1, r1.links, ns, a, b, freed);
    }

    /**
     * The neighbours of child `slot` of `inner` and their parents: siblings if there are any, else children of `left`
     * and `right`.
     */
    method Neighbours(inner: Node<V>, slot: nat, left: Node?<V>, right: Node?<V>, leftparent: Node?<V>,
                      rightparent: Node?<V>,
                      ghost t: NTree<V>, ghost h: nat, ghost pslot: nat, ghost tl: Option<NTree<V>>,
                        ghost tr: Option<NTree<V>>, ghost m: Mem<V>)
      returns (myleft: Node?<V>, myright: Node?<V>, myleftparent: Node?<V>, myrightparent: Node?<V>)
      requires Views(m) && h > 1 && Owned(m, nodes, t, h) && t.Inner? && pslot < |t.kids| && t.kids[pslot].r == inner
      requires t.kids[pslot].Inner? && slot < |t.kids[pslot].kids| == |t.kids[pslot].keys| + 1
      requires left == RefOf(tl) && right == RefOf(tr) && HasKids(tl) && HasKids(tr)
      requires Near(m, nodes, tl, t, h, pslot) && Near(m, nodes, tr, t, h, pslot) && Neighbour(p, tl, h - 1)
               && Neighbour(p, tr, h - 1)
      ensures myleft == RefOf(LeftOf(t.kids[pslot], slot, tl)) && myright == RefOf(RightOf(t.kids[pslot], slot, tr))
      ensures myleftparent == (if slot > 0 then inner else leftparent)
      ensures myrightparent == (if slot < |t.kids[pslot].kids| - 1 then inner else rightparent)
    {
      hide *;
      ghost var kid := t.kids[pslot];
      KidOwned(m, nodes, t, h, pslot);
      NearIs(m, nodes, tl, t, h, pslot);
      NearIs(m, nodes, tr, t, h, pslot);
      KidUse(inner, m, kid, h - 1, slot);
      KidUse(inner, m, kid, h - 1, if slot > 0 then slot - 1 else slot);
      KidUse(inner, m, kid, h - 1, if slot < |kid.keys| then slot + 1 else slot);
      if tl.Some? {
        NeighbourShape(p, tl, h - 1);
        KidUse(left, m, tl.value, h - 1, |tl.value.keys| - 1);
        InnerSlots(left, m, tl.value, h - 1);
      }
      if tr.Some? {
        NeighbourShape(p, tr, h - 1);
        KidUse(right, m, tr.value, h - 1, 0);
      }
      LeftOfIs(kid, slot, tl);
      RightOfIs(kid, slot, tr);
      InnerSlots(inner, m, kid, h - 1);
      if slot == 0 {
        myleft := if left == null then null else left.childid[left.slotuse - 1];
        myleftparent := leftparent;
      } else {
        myleft := inner.childid[slot - 1];
        myleftparent := inner;
      }
      if slot == inner.slotuse {
        myright := if right == null then null else right.childid[0];
        myrightparent := rightparent;
      } else {
        myright := inner.childid[slot + 1];
        myrightparent := inner;
      }
    }

    lemma InnerSlots(n: Node<V>, m: Mem<V>, t: NTree<V>, h: nat)
      requires Views(m) && Owned(m, nodes, t, h) && t.r == n && t.Inner? && t.kids != []
      ensures n.slotuse == |t.keys|
    {
      OwnedCell(m, nodes, t, h);
      InnerUse(n, m);
    }

    /**
     * Erases the first pair with the key below `curr`, child `parentslot` of `parent`. `left` and `right` are the
     * neighbours of `curr`, with their parents.
     */
    method EraseDescend(key: Key, curr: Node<V>, left: Node?<V>, right: Node?<V>, leftparent: Node?<V>,
                        rightparent: Node?<V>,
                        parent: Node<V>, parentslot: nat, ghost t: NTree<V>, ghost h: nat, ghost tl: Option<NTree<V>>,
                          ghost tr: Option<NTree<V>>,
                        ghost m: Mem<V>, ghost l: Links<V>, ghost a: seq<Node<V>>, ghost b: seq<Node<V>>)
      returns (found: bool, forward: bool, lastkey: Key, merged: bool, ghost r: Removal<V>)
      requires EraseReady(p, m, l, nodes, t, h, parentslot, tl, tr, a, b, key) && Views(m) && Linked(l)
      requires t.r == parent && t.kids[parentslot].r == curr && left == RefOf(tl) && right == RefOf(tr)
      requires ParentOf(leftparent, t, parentslot > 0) && ParentOf(rightparent, t, parentslot < |t.kids| - 1)
      modifies `nodes, `leaves, `innernodes, `tailleaf, nodes
      ensures (parentslot > 0 ==> tl.Some?) && (parentslot < |t.kids| - 1 ==> tr.Some?)
      ensures var o := EraseBelow(p, t, parentslot, tl, tr, key);
              if found then
                && o.Erased? && o.last == Opt(forward, lastkey) && o.merged == merged
                && Removed(m, old(nodes), t, h, parentslot, a, b, o, r) && Views(r.mem) && Linked(r.links)
                && nodes == old(nodes) - r.freed
                && leaves - |Leaves(o.t)| == old(leaves) - |Leaves(t)|
                && leaves + innernodes == old(leaves) + old(innernodes) - |r.freed|
              else
                && o.NotFound? && Views(m) && Linked(l) && nodes == old(nodes)
                && leaves == old(leaves) && innernodes == old(innernodes)
      decreases h
    {
      hide *;
      EraseFacts(p, m, l, nodes, t, h, parentslot, tl, tr, a, b, key);
      KidOwned(m, nodes, t, h, parentslot);
      NodeLevel(curr, m, t.kids[parentslot], h - 1);
      ParentIs(leftparent, t, parentslot > 0);
      ParentIs(rightparent, t, parentslot < |t.kids| - 1);
      if curr.level == 0 {
        found, forward, lastkey, merged,
          r := EraseInLeaf(key, curr, left, right, leftparent, rightparent, parent, parentslot,
                                                          t, h, tl, tr, m, l, a, b);
        assert found ==> nodes == nodes - r.freed;
      } else {
        KidEraseReady(p, m, l, nodes, t, h, parentslot, tl, tr, a, b, key);
        found, forward, lastkey, merged,
          r := EraseInInner(key, curr, left, right, leftparent, rightparent, parent, parentslot,
                                                           t, h, tl, tr, m, l, a, b);
      }
    }

    method EraseInInner(key: Key, curr: Node<V>, left: Node?<V>, right: Node?<V>, leftparent: Node?<V>,
                        rightparent: Node?<V>,
                        parent: Node<V>, parentslot: nat, ghost t: NTree<V>, ghost h: nat, ghost tl: Option<NTree<V>>,
                          ghost tr: Option<NTree<V>>,
                        ghost m: Mem<V>, ghost l: Links<V>, ghost a: seq<Node<V>>, ghost b: seq<Node<V>>)
      returns (found: bool, forward: bool, lastkey: Key, merged: bool, ghost r: Removal<V>)
      requires EraseReady(p, m, l, nodes, t, h, parentslot, tl, tr, a, b, key) && Views(m) && Linked(l)
               && t.kids[parentslot].Inner?
      requires t.r == parent && t.kids[parentslot].r == curr && left == RefOf(tl) && right == RefOf(tr)
      requires ParentOf(leftparent, t, parentslot > 0) && ParentOf(rightparent, t, parentslot < |t.kids| - 1)
      modifies `nodes, `leaves, `innernodes, `tailleaf, nodes
      ensures (parentslot > 0 ==> tl.Some?) && (parentslot < |t.kids| - 1 ==> tr.Some?)
      ensures var o := EraseBelow(p, t, parentslot, tl, tr, key);
              if found then
                && o.Erased? && o.last == Opt(forward, lastkey) && o.merged == merged
                && Removed(m, old(nodes), t, h, parentslot, a, b, o, r) && Views(r.mem) && Linked(r.links)
                && nodes == old(nodes) - r.freed
                && leaves - |Leaves(o.t)| == old(leaves) - |Leaves(t)|
                && leaves + innernodes == old(leaves) + old(innernodes) - |r.freed|
              else
                && o.NotFound? && Views(m) && Linked(l) && nodes == old(nodes)
                && leaves == old(leaves) && innernodes == old(innernodes)
      decreases h, 0
    {
      hide *;
      EraseFacts(p, m, l, nodes, t, h, parentslot, tl, tr, a, b, key);
      KidEraseReady(p, m, l, nodes, t, h, parentslot, tl, tr, a, b, key);
      ParentIs(leftparent, t, parentslot > 0);
      ParentIs(rightparent, t, parentslot < |t.kids| - 1);
      ghost var kid, ns := t.kids[parentslot], nodes;
      InnerKeys(p, m, l, nodes, t, h, parentslot, tl, tr, a, b, key);
      var slot := FindLower(curr, key, m);
      var myleft, myright, myleftparent, myrightparent :=
        Neighbours(curr, slot, left, right, leftparent, rightparent, t, h, parentslot, tl, tr, m);
      KidParent(m, nodes, t, h, parentslot, leftparent, parentslot > 0, slot > 0);
      KidParent(m, nodes, t, h, parentslot, rightparent, parentslot < |t.kids| - 1, slot < |kid.kids| - 1);
      KidOwned(m, nodes, t, h, parentslot);
      KidUse(curr, m, kid, h - 1, slot);
      ghost var tl', tr' := LeftOf(kid, slot, tl), RightOf(kid, slot, tr);
      ghost var r1;
      found, forward, lastkey, merged, r1 :=
        EraseDescend(key, curr.childid[slot], myleft, myright, myleftparent, myrightparent, curr, slot, kid, h - 1, tl',
                     tr',
                     m, l, a + RowLeaves(t.kids[..parentslot]), RowLeaves(t.kids[parentslot + 1..]) + b);
      r := r1;
      if found {
        forward, merged, r := Ascend(key, curr, left, right, leftparent, rightparent, parent, parentslot, slot, forward,
                                     lastkey, merged,
                                     t, h, tl, tr, m, l, ns, a, b, EraseBelow(p, kid, slot, tl', tr', key), r1);
      } else {
        AscendNotFound(p, t, parentslot, tl, tr, slot);
      }
    }

    /** Removes the pair at `slot` from a leaf that is the root. */
    method RemoveFromRoot(leaf: Node<V>, slot: nat, ghost m: Mem<V>, ghost items: seq<Item<V>>)
      requires Views(m) && leaf in nodes && m[leaf] == LeafOf(items) && slot < |items|
      modifies leaf`slotuse, leaf`slotkey, leaf`slotdata
      ensures Views(Put(m, leaf, LeafOf(RemoveAt(items, slot)))) && leaf.slotuse == |items| - 1
    {
      hide RemoveAt, Datas;
      LeafUse(leaf, m, items);
      RemovePairs(items, slot);
      leaf.RemovePair(slot);
    }

    /** Deletion when the root is a leaf; an emptied root is freed. */
    method EraseRootLeaf(key: Key) returns (found: bool)
      requires Valid() && root != null && tree.Some? && tree.value.Leaf?
      modifies this, nodes
      ensures Valid() && nodes <= old(nodes)
      ensures found <==> key in Keys(old(Pairs()))
      ensures if found then TakenOut(old(Pairs()), key, Pairs()) else Pairs() == old(Pairs())
    {
      hide *;
      Opened();
      ghost var t, m, l, s := tree.value, mem, links, Stats(itemcount, leaves, innernodes);
      LeafRootErased(p, m, l, nodes, t, key, s);
      LeafUse(root, m, t.items);
      var slot, full;
      slot, found, full := FindInLeaf(root, key, m, t.items);
      if found {
        ghost var items := RemoveAt(t.items, slot);
        RemovedLength(t.items, slot);
        RemoveFromRoot(root, slot, m, t.items);
        itemcount := itemcount - 1;
        if root.slotuse >= 1 {
          mem, tree := Put(m, root, LeafOf(items)), Some(Leaf(root, items));
          Closed();
          SomePairs(Leaf(root, items));
          OneLeafPairs(root, items);
        } else {
          FreeRoot(Put(m, root, LeafOf(items)), l);
        }
      } else {
        Closed();
      }
    }

    /** The last pair is gone: no node is left. */
    method FreeRoot(ghost m: Mem<V>, ghost l: Links<V>)
      requires Views(m) && Linked(l) && root != null && nodes == {root} && root.level == 0 && itemcount == 0
               && leaves == 1 && innernodes == 0
      modifies this
      ensures Valid() && Pairs() == [] && nodes == {}
    {
      hide *;
      FreeNode(root, m, l);
      assert nodes == {};
      Reset();
    }

    /** An inner root drops the child that a merge emptied. */
    method SettleRoot(s: nat, merged: bool, ghost o: Outcome<Node<V>, V>, ghost h: nat, ghost m: Mem<V>,
                      ghost l: Links<V>)
      returns (ghost q: NTree<V>, ghost m': Mem<V>)
      requires Views(m) && Linked(l) && root != null && o.Erased? && o.merged == merged && o.t.r == root && o.t.Inner?
               && h > 0
      requires (merged ==> CanDrop(o.t, s) && Emptying(o.t, s))
      requires Owned(m, nodes, o.t, h) && Refs(o.t) == multiset(nodes)
      requires leaves == |Leaves(o.t)| && leaves + innernodes == |nodes|
      modifies `nodes, `leaves, `innernodes, nodes`slotuse, nodes`slotkey, nodes`childid
      ensures q == Settle(o, s) && q.r == root
      ensures Views(m') && Linked(l) && Owned(m', nodes, q, h) && Refs(q) == multiset(nodes) && nodes <= old(nodes)
      ensures leaves == |Leaves(q)| && leaves + innernodes == |nodes|
    {
      hide *;
      SettleIs(o, s);
      q, m' := Settle(o, s), m;
      if merged {
        ghost var dead;
        m', dead := FixMerge(root, s, o.t, h, m, l);
        assert multiset({dead}) == multiset{dead};
        AllFreed(old(nodes), Refs(q), {dead});
        AllIn(m, old(nodes), o.t, h);
        Shrunk(Refs(o.t), Refs(q), {dead}, old(nodes));
        MakeOwned(m', nodes, q, h);
      }
    }

    /** An inner root without separators gives way to its only child. */
    method ConcludeErase(ghost q: NTree<V>, ghost h: nat, ghost h': nat, ghost m: Mem<V>, ghost l: Links<V>)
      requires root == q.r && q.Inner? && |q.kids| == |q.keys| + 1 && h > 0
      requires Views(m) && Linked(l) && Owned(m, nodes, q, h) && Refs(q) == multiset(nodes) && Chain(l, Leaves(q))
      requires leaves == |Leaves(q)| && leaves + innernodes == |nodes|
      requires var w := if q.keys == [] then q.kids[0] else q;
               BTree.Valid(p, w, h', true) && Ordered(w) && itemcount == |Contents(w)|
      modifies this
      ensures Valid() && nodes <= old(nodes)
      ensures Pairs() == Contents(if q.keys == [] then q.kids[0] else q)
    {
      hide *;
      InHeap(m);
      NodeLevel(root, m, q, h);
      InnerSlots(root, m, q, h);
      mem, links := m, l;
      if root.slotuse == 0 {
        KidUse(root, m, q, h, 0);
        CollapsedWhole(p, m, l, nodes, q, h, h', Stats(itemcount, leaves, innernodes - 1));
        tree := Some(q.kids[0]);
        DropRoot(m, l);
        Closed();
        SomePairs(q.kids[0]);
      } else {
        ErasedWhole(p, m, l, nodes, q, h, h', Stats(itemcount, leaves, innernodes));
        tree := Some(q);
        Closed();
        SomePairs(q);
      }
    }

    method DropRoot(ghost m: Mem<V>, ghost l: Links<V>)
      requires Views(m) && Linked(l) && root != null && root in nodes && root.level > 0 && |root.childid| > 0
               && root.childid[0] != null
      modifies `root, `nodes, `leaves, `innernodes
      ensures Views(m) && Linked(l) && nodes == old(nodes) - {old(root)} && root == old(root.childid[0])
      ensures leaves == old(leaves) && innernodes == old(innernodes) - 1
    {
      hide *;
      var inner := root;
      root := inner.childid[0];
      FreeNode(inner, m, l);
    }

    /** The neighbours of child `slot` of the root: its siblings, or none. */
    method RootNeighbours(slot: nat, ghost t: NTree<V>, ghost h: nat, ghost m: Mem<V>)
      returns (left: Node?<V>, right: Node?<V>, leftparent: Node?<V>, rightparent: Node?<V>)
      requires Views(m) && Owned(m, nodes, t, h) && t.Inner? && slot < |t.kids| == |t.keys| + 1 && root == t.r
      ensures left == RefOf(LeftOf(t, slot, None)) && right == RefOf(RightOf(t, slot, None))
      ensures ParentOf(leftparent, t, slot > 0) && ParentOf(rightparent, t, slot < |t.kids| - 1)
    {
      hide Views, Owned, Refs, LeftOf, RightOf, RefOf;
      KidUse(root, m, t, h, if slot > 0 then slot - 1 else slot);
      KidUse(root, m, t, h, if slot < |t.keys| then slot + 1 else slot);
      InnerSlots(root, m, t, h);
      LeftOfIs(t, slot, None);
      RightOfIs(t, slot, None);
      left, right, leftparent, rightparent := null, null, null, null;
      if slot > 0 {
        left, leftparent := root.childid[slot - 1], root;
      }
      if slot != root.slotuse {
        right, rightparent := root.childid[slot + 1], root;
      }
    }

    /** Deletion when the root is an inner node. */
    method EraseRootInner(key: Key) returns (found: bool)
      requires Valid() && root != null && tree.Some? && tree.value.Inner?
      modifies this, nodes
      ensures Valid() && nodes <= old(nodes)
      ensures found <==> key in Keys(old(Pairs()))
      ensures if found then TakenOut(old(Pairs()), key, Pairs()) else Pairs() == old(Pairs())
    {
      hide *;
      Opened();
      ghost var t, m, l, ns, s := tree.value, mem, links, nodes, Stats(itemcount, leaves, innernodes);
      ghost var h := Run.Height(t);
      RootEraseReady(p, m, l, ns, t, h, key);
      ShapeFacts(p, m, l, ns, t, h, s);
      KidUse(root, m, t, h, Lower(t.keys, key));
      var slot := FindLower(root, key, m);
      var left, right, leftparent, rightparent := RootNeighbours(slot, t, h, m);
      ghost var tl, tr := LeftOf(t, slot, None), RightOf(t, slot, None);
      var forward, lastkey, merged;
      ghost var r;
      found, forward, lastkey, merged,
        r := EraseDescend(key, root.childid[slot], left, right, leftparent, rightparent, root, slot,
                                                         t, h, tl, tr, m, l, [], []);
      ghost var o := EraseBelow(p, t, slot, tl, tr, key);
      RootSettled(p, t, h, key, o);
      if found {
        RootRemoved(p, m, l, ns, t, h, key, o, r);
        FinishErase(key, slot, merged, t, h, o, r);
      } else {
        Closed();
      }
    }

    method FinishErase(key: Key, slot: nat, merged: bool, ghost t: NTree<V>, ghost h: nat, ghost o: Outcome<Node<V>, V>,
                       ghost r: Removal<V>)
      requires Views(r.mem) && Linked(r.links) && root != null && o.Erased? && o.merged == merged && o.t.r == root
               && o.t.Inner? && h > 0
      requires (merged ==> CanDrop(o.t, slot) && Emptying(o.t, slot))
      requires Owned(r.mem, nodes, o.t, h) && Refs(o.t) == multiset(nodes) && Chain(r.links, Leaves(Settle(o, slot)))
      requires leaves == |Leaves(o.t)| && leaves + innernodes == |nodes| && itemcount == |Contents(t)|
      requires var q, i := Settle(o, slot), FirstAt(Contents(t), key);
               && i < |Contents(t)| && Contents(t)[i].key == key
               && q.Inner? && |q.kids| == |q.keys| + 1
               && var w := if q.keys == [] then q.kids[0] else q;
               && Contents(w) == RemoveAt(Contents(t), i) && Ordered(w)
               && (BTree.Valid(p, w, h, true) || BTree.Valid(p, w, h - 1, true))
      modifies this, nodes
      ensures Valid() && nodes <= old(nodes)
      ensures TakenOut(Contents(t), key, Pairs())
    {
      hide *;
      ghost var q, m';
      q, m' := SettleRoot(slot, merged, o, h, r.mem, r.links);
      itemcount := itemcount - 1;
      ghost var w := if q.keys == [] then q.kids[0] else q;
      RemovedLength(Contents(t), FirstAt(Contents(t), key));
      ConcludeErase(q, h, if BTree.Valid(p, w, h, true) then h else h - 1, m', r.links);
      IsTakenOut(Contents(t), key, Pairs());
    }

    /** Erases the first pair with the key, if there is one. */
    method EraseOne(key: Key) returns (found: bool)
      requires Valid() && Unique()
      modifies this, nodes
      ensures Valid() && Unique() && nodes <= old(nodes)
      ensures found <==> key in Keys(old(Pairs()))
      ensures if found then TakenOut(old(Pairs()), key, Pairs()) else Pairs() == old(Pairs())
    {
      hide *;
      UniqueIs();
      ghost var before := Pairs();
      if root == null {
        NothingYet();
        NoKeys<V>(key);
        found := false;
      } else {
        Opened();
        OpenedLevel();
        if root.level == 0 {
          found := EraseRootLeaf(key);
        } else {
          found := EraseRootInner(key);
        }
      }
      if found {
        UniqueAfterErase(before, key);
      } else {
        UniqueIs();
      }
    }

    lemma OpenedLevel()
      requires Valid() && root != null
      ensures tree.Some? && (root.level == 0 <==> tree.value.Leaf?)
    {
      Opened();
      InnerLevel(mem, nodes, tree.value, Run.Height(tree.value));
    }

    /** Erases all pairs with the key and returns how many these were; a tree without equal keys has one at most. */
    method Erase(key: Key) returns (count: nat)
      requires Valid() && Unique()
      modifies this, nodes
      ensures Valid() && Unique() && nodes <= old(nodes)
      ensures key !in Keys(Pairs()) && count == Upper(Keys(old(Pairs())), key) - Lower(Keys(old(Pairs())), key)
      ensures Pairs() == WithoutFirst(old(Pairs()), key, count)
    {
      hide *;
      count := 0;
      PairsSorted();
      ghost var before := Pairs();
      WithoutNone(before, key);
      WithoutFacts(before, key, 0);
      UniqueBound(key);
      ghost var most := Upper(Keys(before), key) - Lower(Keys(before), key);
      var found := EraseOne(key);
      while found
        invariant Valid() && Unique() && nodes <= old(nodes)
        invariant if found then count < most && TakenOut(WithoutFirst(before, key, count), key, Pairs())
                  else count == most && Pairs() == WithoutFirst(before, key, count) && key !in Keys(Pairs())
        decreases most - count + (if found then 1 else 0)
      {
        count := count + 1;
        WithoutMore(before, key, count, Pairs());
        WithoutFacts(before, key, count);
        if !p.duplicates {
          break;
        }
        found := EraseOne(key);
      }
    }

    /** Keys are different from one another if equal keys are not allowed. */
    ghost predicate Unique()
      reads `tree
    {
      p.duplicates || StrictKeys(Keys(Pairs()))
    }

    lemma PairsSorted()
      requires Valid()
      ensures SortedItems(Pairs())
    {
      hide MaxKey, Chain, Owned, Keys, SortedKeys, Views, Linked;
      if tree.None? {
        EmptySorted<V>();
      }
    }

    lemma UniqueBound(key: Key)
      requires Unique()
      ensures !p.duplicates ==> Upper(Keys(Pairs()), key) <= Lower(Keys(Pairs()), key) + 1
    {
      if !p.duplicates {
        OnceAtMost(Pairs(), key);
      }
    }

    lemma UniqueAfterInsert(before: seq<Item<V>>, x: Item<V>, pos: nat)
      requires p.duplicates || (StrictKeys(Keys(before)) && x.key !in Keys(before))
      requires PutIn(before, x, Pairs(), pos)
      ensures Unique()
    {
      if !p.duplicates {
        PutInStrict(before, x, Pairs(), pos);
      }
    }

    lemma UniqueAfterErase(before: seq<Item<V>>, key: Key)
      requires p.duplicates || StrictKeys(Keys(before))
      requires TakenOut(before, key, Pairs())
      ensures Unique()
    {
      if !p.duplicates {
        TakenOutStrict(before, key, Pairs());
      }
    }

    lemma UniqueIs()
      ensures Unique() <==> p.duplicates || StrictKeys(Keys(Pairs()))
    {
    }

    // ------------------------------------------------------------------- queries

    method FindUpper(n: Node<V>, key: Key, ghost m: Mem<V>) returns (slot: nat)
      requires Views(m) && n in nodes && SortedKeys(m[n].keys)
      ensures slot == Upper(m[n].keys, key)
    {
      slot := n.FindUpper(key);
    }

    /** The descent to the leaf and slot of a lower or an upper bound. */
    method Descend(key: Key, upper: bool) returns (leaf: Node<V>, slot: nat)
      requires Valid() && root != null
      ensures At(leaf, slot, Bound(Keys(Pairs()), key, upper))
    {
      hide *;
      Opened();
      ghost var t := tree.value;
      ghost var h := Run.Height(t);
      ghost var u, d := t, h;
      var n := root;
      SubtreeAll(p, mem, links, nodes, t, h);
      while n.level > 0
        invariant u.r == n && Subtree(p, mem, nodes, u, d) && BoundAt(u, key, upper) == BoundAt(t, key, upper)
        invariant n in nodes && n.level == d
        decreases d
      {
        SubtreeKid(p, mem, nodes, u, d, key, upper);
        NodeLevel(n, mem, u, d);
        var at;
        if upper {
          at := FindUpper(n, key, mem);
        } else {
          at := FindLower(n, key, mem);
        }
        KidUse(n, mem, u, d, at);
        u, d := u.kids[at], d - 1;
        n := n.childid[at];
      }
      SubtreeLeaf(p, mem, nodes, u, d, key, upper);
      if upper {
        slot := FindUpper(n, key, mem);
      } else {
        slot := FindLower(n, key, mem);
      }
      leaf := n;
      BoundIsAt(p, mem, links, nodes, t, h, key, upper);
      AtTree(leaf, slot, Bound(Keys(Pairs()), key, upper));
    }

    lemma NullPairs(key: Key)
      requires Valid() && root == null
      ensures tree == None && Pairs() == [] && headleaf == null && tailleaf == null
      ensures key !in Keys(Pairs()) && Lower(Keys(Pairs()), key) == 0 && Upper(Keys(Pairs()), key) == 0
    {
    }

    /** All that is known of the leaf in which an iterator stands. */
    lemma AtFacts(leaf: Node<V>, slot: nat, pos: nat) returns (j: nat)
      requires Valid() && At(leaf, slot, pos)
      ensures tree.Some? && leaf in nodes && leaf.Valid() && leaf.level == 0 && pos <= |Pairs()|
              && Pairs() == Contents(tree.value)
      ensures var bs := Blocks(tree.value);
              && Full(bs) && InBlock(bs, j, slot) && j < |bs| && bs[j].r == leaf && pos == Start(bs, j) + slot
              && Join(bs) == Pairs()
              && leaf.slotuse == |bs[j].items| && (slot < leaf.slotuse <==> pos < |Pairs()|) && slot <= leaf.slotuse
              && leaf.nextleaf == (if j + 1 < |bs| then bs[j + 1].r else null)
              && leaf.prevleaf == (if 0 < j then bs[j - 1].r else null)
              && (0 < j ==> bs[j - 1].r in nodes && bs[j - 1].r.slotuse == |bs[j - 1].items| > 0)
      ensures slot < leaf.slotuse ==> slot < |leaf.slotkey| && slot < |leaf.slotdata|
      ensures slot < leaf.slotuse ==> leaf.slotkey[slot] == Pairs()[pos].key && leaf.slotdata[slot] == Pairs()[pos].data
    {
      hide MaxKey, Refs, Distinct, Rep, Chain, Shape, SortedItems, Below, Blocks, Leaves, Join, Start, Valid;
      RootThere();
      Opened();
      j := StandsFacts(p, mem, links, nodes, tree.value, Run.Height(tree.value), leaf, slot, pos);
      ghost var bs := Blocks(tree.value);
      LeafUse(leaf, mem, bs[j].items);
      if 0 < j {
        LeafUse(bs[j - 1].r, mem, bs[j - 1].items);
      }
      NextOf(leaf, links);
      PrevOf(leaf, links);
      JoinBlocks(tree.value);
      if slot < leaf.slotuse {
        SlotSays(leaf, mem, bs[j].items, slot);
      }
    }

    lemma RootThere()
      requires Valid()
      ensures root != null <==> tree.Some?
    {
    }

    lemma AtNode(leaf: Node?<V>, slot: nat, pos: nat)
      requires tree.Some? && At(leaf, slot, pos)
      ensures leaf != null
    {
    }

    lemma PrevOf(leaf: Node<V>, l: Links<V>)
      requires Linked(l) && leaf in nodes && leaf.level == 0
      ensures leaf in l.prev && leaf.prevleaf == l.prev[leaf]
    {
    }

    lemma SlotSays(leaf: Node<V>, m: Mem<V>, items: seq<Item<V>>, slot: nat)
      requires Views(m) && leaf in nodes && m[leaf] == LeafOf(items) && slot < |items|
      ensures slot < |leaf.slotkey| && slot < |leaf.slotdata| && leaf.slotkey[slot] == items[slot].key
              && leaf.slotdata[slot] == items[slot].data
    {
      LeafUse(leaf, m, items);
      assert leaf.Image().keys[slot] == leaf.slotkey[slot] && leaf.Image().data[slot] == leaf.slotdata[slot];
    }

    /** Whether there is a pair with the key. */
    method Exists(key: Key) returns (found: bool)
      requires Valid()
      ensures found <==> key in Keys(Pairs())
    {
      hide *;
      if root == null {
        NullPairs(key);
        return false;
      }
      var leaf, slot := Descend(key, false);
      ghost var j := AtFacts(leaf, slot, Bound(Keys(Pairs()), key, false));
      PairsSorted();
      FoundAt(Pairs(), key);
      found := slot < leaf.slotuse && leaf.slotkey[slot] == key;
    }

    /** The iterator at the first pair with the key, or the end. */
    method Find(key: Key) returns (leaf: Node?<V>, slot: nat)
      requires Valid()
      ensures At(leaf, slot, if key in Keys(Pairs()) then Lower(Keys(Pairs()), key) else |Pairs()|)
    {
      hide *;
      if root == null {
        NullPairs(key);
        leaf, slot := End();
        return;
      }
      leaf, slot := Descend(key, false);
      ghost var j := AtFacts(leaf, slot, Bound(Keys(Pairs()), key, false));
      PairsSorted();
      FoundAt(Pairs(), key);
      if !(slot < leaf.slotuse && leaf.slotkey[slot] == key) {
        leaf, slot := End();
      }
    }

    /** The iterator at the first pair whose key is not less; the end only if there is none. */
    method LowerBound(key: Key) returns (leaf: Node?<V>, slot: nat)
      requires Valid()
      ensures At(leaf, slot, Lower(Keys(Pairs()), key))
    {
      hide *;
      BoundIs(Keys(Pairs()), key);
      if root == null {
        NullPairs(key);
        leaf, slot := End();
        NoLength(Pairs());
      } else {
        leaf, slot := Descend(key, false);
      }
    }

    /** The iterator at the first pair whose key is greater; the end only if there is none. */
    method UpperBound(key: Key) returns (leaf: Node?<V>, slot: nat)
      requires Valid()
      ensures At(leaf, slot, Upper(Keys(Pairs()), key))
    {
      hide *;
      BoundIs(Keys(Pairs()), key);
      if root == null {
        NullPairs(key);
        leaf, slot := End();
      } else {
        leaf, slot := Descend(key, true);
      }
    }

    // ------------------------------------------------------------------ iterators

    method Begin() returns (leaf: Node?<V>, slot: nat)
      requires Valid()
      ensures At(leaf, slot, 0)
    {
      hide Shape, Views, Linked, Ready, Stands, Blocks, Contents;
      leaf, slot := headleaf, 0;
      if root != null {
        Opened();
        Ends(p, mem, links, nodes, tree.value, Run.Height(tree.value));
        HeadTail();
      } else {
        NullPairs(0);
      }
    }

    lemma HeadTail()
      requires Valid()
      ensures links.head == headleaf && links.tail == tailleaf
    {
    }

    method End() returns (leaf: Node?<V>, slot: nat)
      requires Valid()
      ensures At(leaf, slot, |Pairs()|)
    {
      hide Shape, Views, Linked, Ready, Stands, Blocks, Contents, LeafOf;
      leaf, slot := tailleaf, 0;
      if root != null {
        Opened();
        HeadTail();
        Ends(p, mem, links, nodes, tree.value, Run.Height(tree.value));
        LeafUse(tailleaf, mem, Blocks(tree.value)[|Blocks(tree.value)| - 1].items);
        slot := tailleaf.slotuse;
      } else {
        NullPairs(0);
      }
    }

    /** The step forward; it stays at the end. */
    method Next(leaf: Node<V>, slot: nat, ghost pos: nat) returns (leaf': Node<V>, slot': nat)
      requires Valid() && At(leaf, slot, pos)
      ensures At(leaf', slot', if pos < |Pairs()| then pos + 1 else pos)
    {
      hide *;
      ghost var j := AtFacts(leaf, slot, pos);
      NextStands(Blocks(tree.value), j, slot);
      if slot + 1 < leaf.slotuse {
        leaf', slot' := leaf, slot + 1;
      } else if leaf.nextleaf != null {
        leaf', slot' := leaf.nextleaf, 0;
      } else {
        leaf', slot' := leaf, leaf.slotuse;
      }
      AtTree(leaf', slot', if pos < |Pairs()| then pos + 1 else pos);
    }

    /** The step back; it stays at the beginning. */
    method Prev(leaf: Node<V>, slot: nat, ghost pos: nat) returns (leaf': Node<V>, slot': nat)
      requires Valid() && At(leaf, slot, pos)
      ensures At(leaf', slot', if pos > 0 then pos - 1 else 0)
    {
      hide *;
      ghost var j := AtFacts(leaf, slot, pos);
      PrevStands(Blocks(tree.value), j, slot);
      if slot > 0 {
        leaf', slot' := leaf, slot - 1;
      } else if leaf.prevleaf != null {
        leaf', slot' := leaf.prevleaf, leaf.prevleaf.slotuse - 1;
      } else {
        leaf', slot' := leaf, 0;
      }
      AtTree(leaf', slot', if pos > 0 then pos - 1 else 0);
    }

    /** One position has one iterator, so that a step forward and back ends where it started. */
    lemma SameIterator(leaf: Node<V>, slot: nat, leaf': Node<V>, slot': nat, pos: nat)
      requires Valid() && At(leaf, slot, pos) && At(leaf', slot', pos)
      ensures leaf == leaf' && slot == slot'
    {
      hide *;
      ghost var j := AtFacts(leaf, slot, pos);
      AtIs(leaf, slot, pos);
      AtIs(leaf', slot', pos);
      OneIterator(Blocks(tree.value), Ins.Iter(leaf, slot), Ins.Iter(leaf', slot'), pos);
    }

    lemma AtIs(leaf: Node<V>, slot: nat, pos: nat)
      requires tree.Some? && At(leaf, slot, pos)
      ensures Stands(Blocks(tree.value), Ins.Iter(leaf, slot), pos)
    {
    }

    /** Back where it started. */
    method NextThenPrev(leaf: Node<V>, slot: nat, ghost pos: nat) returns (leaf': Node<V>, slot': nat)
      requires Valid() && At(leaf, slot, pos) && pos < |Pairs()|
      ensures leaf' == leaf && slot' == slot
    {
      leaf', slot' := Next(leaf, slot, pos);
      leaf', slot' := Prev(leaf', slot', pos + 1);
      SameIterator(leaf, slot, leaf', slot', pos);
    }

    /** All pairs, from the first to the end over the chain of leaves. */
    method Walk() returns (pairs: seq<Item<V>>)
      requires Valid()
      ensures pairs == Pairs()
    {
      hide *;
      pairs := [];
      if root == null {
        NullPairs(0);
        return;
      }
      Opened();
      var leaf, slot := Begin();
      var last, end := End();
      AtNode(leaf, slot, 0);
      AtNode(last, end, |Pairs()|);
      ghost var j := AtFacts(leaf, slot, 0);
      ghost var k := AtFacts(last, end, |Pairs()|);
      while !(leaf == last && slot == end)
        invariant leaf != null && last != null && At(leaf, slot, |pairs|) && |pairs| <= |Pairs()|
                  && pairs == Pairs()[..|pairs|]
        invariant At(last, end, |Pairs()|)
        decreases |Pairs()| - |pairs|
      {
        j := AtFacts(leaf, slot, |pairs|);
        if |pairs| == |Pairs()| {
          SameIterator(leaf, slot, last, end, |pairs|);
        }
        PairIs(Pairs()[|pairs|], leaf.slotkey[slot], leaf.slotdata[slot]);
        ghost var pos := |pairs|;
        pairs := pairs + [Item(leaf.slotkey[slot], leaf.slotdata[slot])];
        leaf, slot := Next(leaf, slot, pos);
      }
      if |pairs| < |Pairs()| {
        AtEnd(leaf, slot, |pairs|);
      }
    }

    // ------------------------------------------------------------ the leaf links, checked

    /** The slots of a leaf hold the pairs from its position on. */
    lemma LeafKeys(leaf: Node<V>, pos: nat, i: nat)
      requires Valid() && At(leaf, 0, pos) && i < leaf.slotuse
      ensures pos + i < |Pairs()| && i < |leaf.slotkey| && leaf.slotkey[i] == Pairs()[pos + i].key
      ensures At(leaf, i, pos + i)
    {
      hide *;
      ghost var j := AtFacts(leaf, 0, pos);
      LaterSlot(Blocks(tree.value), j, i);
      AtTree(leaf, i, pos + i);
      j := AtFacts(leaf, i, pos + i);
    }

    static lemma LaterSlot(bs: seq<Block<Node<V>, V>>, j: nat, i: nat)
      requires Full(bs) && j < |bs| && i < |bs[j].items|
      ensures Stands(bs, Ins.Iter(bs[j].r, i), Start(bs, j) + i)
    {
      hide Start, Full;
      assert InBlock(bs, j, i);
    }

    /** The comparisons of the keys in one leaf. */
    method KeysStepUp(n: Node<V>, ghost pos: nat) returns (ok: bool)
      requires Valid() && At(n, 0, pos)
      ensures ok
    {
      hide *;
      ok := true;
      ghost var j := AtFacts(n, 0, pos);
      PairsSorted();
      var slot := 0;
      while slot + 1 < n.slotuse
        invariant ok && (n.slotuse > 0 ==> slot < n.slotuse)
      {
        LeafKeys(n, pos, slot);
        LeafKeys(n, pos, slot + 1);
        KeysInOrder(Pairs(), pos + slot, pos + slot + 1);
        ok := ok && n.slotkey[slot] <= n.slotkey[slot + 1];
        slot := slot + 1;
      }
    }

    static lemma KeysInOrder(items: seq<Item<V>>, i: nat, j: nat)
      requires SortedItems(items) && i < j < |items|
      ensures items[i].key <= items[j].key
    {
      assert Keys(items)[i] <= Keys(items)[j];
    }

    static lemma FirstBlock(bs: seq<Block<Node<V>, V>>, i: nat, j: nat)
      requires Full(bs) && i < |bs| && j < |bs| && Start(bs, i) == Start(bs, j)
      ensures i == j
    {
      if i < j {
        StartGrows(bs, i, j);
      } else if j < i {
        StartGrows(bs, j, i);
      }
    }

    static lemma StartsAtZero(bs: seq<Block<Node<V>, V>>)
      ensures Start(bs, 0) == 0
    {
    }

    /** What is behind a leaf. */
    lemma LeafEnds(n: Node<V>, pos: nat)
      requires Valid() && root != null && At(n, 0, pos)
      ensures n.slotuse > 0 && pos + n.slotuse <= |Pairs()| && n.level == 0
      ensures n.nextleaf == null ==> tailleaf == n && pos + n.slotuse == |Pairs()|
      ensures n.nextleaf != null ==> At(n.nextleaf, 0, pos + n.slotuse) && n.nextleaf.prevleaf == n
    {
      hide *;
      ghost var j := AtFacts(n, 0, pos);
      ghost var bs := Blocks(tree.value);
      FullBlock(bs, j);
      Opened();
      Ends(p, mem, links, nodes, tree.value, Run.Height(tree.value));
      HeadTail();
      LastSlot(bs, j);
      LeafKeys(n, pos, n.slotuse - 1);
      NextStands(bs, j, n.slotuse - 1);
      if n.nextleaf != null {
        AtTree(n.nextleaf, 0, pos + n.slotuse);
        ghost var k := AtFacts(n.nextleaf, 0, pos + n.slotuse);
        FullBlock(bs, k);
        BlockAt(bs, j);
        FirstBlock(bs, k, j + 1);
      }
    }

    static lemma FullBlock(bs: seq<Block<Node<V>, V>>, j: nat)
      requires Full(bs) && j < |bs|
      ensures |bs[j].items| > 0
    {
    }

    static lemma LastSlot(bs: seq<Block<Node<V>, V>>, j: nat)
      requires Full(bs) && j < |bs|
      ensures InBlock(bs, j, |bs[j].items| - 1)
    {
    }

    lemma CountIs()
      requires Valid()
      ensures itemcount == |Pairs()|
    {
    }

    /** The first leaf has nothing before it. */
    lemma HeadIsFirst(n: Node<V>)
      requires Valid() && At(n, 0, 0)
      ensures n.prevleaf == null
    {
      hide *;
      ghost var j := AtFacts(n, 0, 0);
      StartsAtZero(Blocks(tree.value));
      FirstBlock(Blocks(tree.value), j, 0);
    }

    /** `verify_leaflinks`: over the chain from the first leaf, every assertion holds. */
    method VerifyLeafLinks() returns (ok: bool)
      requires Valid() && root != null
      ensures ok
    {
      hide *;
      RootThere();
      var n, first := Begin();
      PairsSorted();
      ok := n != null;
      AtNode(n, first, 0);
      ghost var j := AtFacts(n, first, 0);
      HeadIsFirst(n);
      ok := ok && n.level == 0 && n.prevleaf == null;
      var testcount := 0;
      while n != null
        invariant ok && testcount <= |Pairs()|
        invariant if n == null then testcount == |Pairs()| else At(n, 0, testcount)
        decreases if n == null then 0 else 1, |Pairs()| - testcount
      {
        j := AtFacts(n, 0, testcount);
        LeafEnds(n, testcount);
        var steps := KeysStepUp(n, testcount);
        ok := ok && n.level == 0 && n.slotuse > 0 && steps;
        LeafKeys(n, testcount, n.slotuse - 1);
        if n.nextleaf != null {
          LeafEnds(n.nextleaf, testcount + n.slotuse);
          LeafKeys(n.nextleaf, testcount + n.slotuse, 0);
          KeysInOrder(Pairs(), testcount + n.slotuse - 1, testcount + n.slotuse);
          ok := ok && n.slotkey[n.slotuse - 1] <= n.nextleaf.slotkey[0] && n == n.nextleaf.prevleaf;
        } else {
          ok := ok && tailleaf == n;
        }
        testcount := testcount + n.slotuse;
        n := n.nextleaf;
      }
      CountIs();
      ok := ok && testcount == itemcount;
    }

    /** `verify`: with `verify_leaflinks`, the invariant makes every assertion hold. */
    lemma VerifyPasses()
      requires Valid() && root != null
      ensures tree.Some? && tree.value.r == root && Shaped(tree.value, root.level) && Fits(p, tree.value)
      ensures Passes(p, tree.value, root.level, true) && LinkChecks(links, tree.value, root.level)
      ensures CountLeaves(tree.value) == leaves && CountInner(tree.value) == innernodes
      ensures |Contents(tree.value)| == itemcount
    {
      hide *;
      Opened();
      var t, h := tree.value, Run.Height(tree.value);
      WholeFacts(p, mem, links, nodes, t, h, Stats(itemcount, leaves, innernodes));
      ValidShaped(p, t, h, true);
      ValidFits(p, t, h, true);
      PassesIsValid(p, t, h, true);
      ChainPassesLinks(links, [], t, [], h);
      CountsAgree(t, nodes);
    }

    static lemma WholeFacts(p: Params, m: Mem<V>, l: Links<V>, ns: set<Node<V>>, t: NTree<V>, h: nat, s: Stats)
      requires Shape(p, t.r, Some(t), m, l, ns, s) && h == Run.Height(t)
      ensures BTree.Valid(p, t, h, true) && Ordered(t) && Chain(l, [] + Leaves(t) + []) && Refs(t) == multiset(ns)
      ensures s == Stats(|Contents(t)|, |Leaves(t)|, |ns| - |Leaves(t)|)
    {
    }

    static lemma PairIs(x: Item<V>, key: Key, data: V)
      requires x.key == key && x.data == data
      ensures x == Item(key, data)
    {
    }

    lemma AtEnd(leaf: Node<V>, slot: nat, pos: nat)
      requires Valid() && At(leaf, slot, pos) && At(leaf, slot, |Pairs()|)
      ensures pos == |Pairs()|
    {
      hide *;
      ghost var j := AtFacts(leaf, slot, pos);
      ghost var k := AtFacts(leaf, slot, |Pairs()|);
    }

    /** How many pairs have the key: a walk along the chain from the first of them. */
    method Count(key: Key) returns (num: nat)
      requires Valid()
      ensures Lower(Keys(Pairs()), key) + num == Upper(Keys(Pairs()), key)
    {
      hide *;
      num := 0;
      if root == null {
        NullPairs(key);
        return;
      }
      RootThere();
      PairsSorted();
      BoundIs(Keys(Pairs()), key);
      LowerAtMostUpper(Keys(Pairs()), key);
      ghost var pos: nat := Lower(Keys(Pairs()), key);
      WithinBounds(Pairs(), key, pos);
      var leaf: Node?<V>, slot: nat;
      leaf, slot := Descend(key, false);
      ghost var j := AtFacts(leaf, slot, pos);
      while leaf != null && slot < leaf.slotuse && leaf.slotkey[slot] == key
        invariant pos == Lower(Keys(Pairs()), key) + num && pos <= Upper(Keys(Pairs()), key) <= |Pairs()|
        invariant if leaf == null then pos == |Pairs()| else At(leaf, slot, pos)
        invariant leaf != null && slot < leaf.slotuse ==> slot < |leaf.slotkey|
        decreases |Pairs()| - pos
      {
        j := AtFacts(leaf, slot, pos);
        WithinBounds(Pairs(), key, pos);
        NextStands(Blocks(tree.value), j, slot);
        num := num + 1;
        pos := pos + 1;
        slot := slot + 1;
        if slot >= leaf.slotuse {
          leaf := leaf.nextleaf;
          slot := 0;
        }
        if leaf != null {
          AtTree(leaf, slot, pos);
          j := AtFacts(leaf, slot, pos);
        }
      }
      WithinBounds(Pairs(), key, pos);
      if leaf != null {
        j := AtFacts(leaf, slot, pos);
      }
    }

    // -------------------------------------------------------- copying and restoring

    /** A tree under construction: its nodes, what they say, and the chain of leaves `s` so far. */
    ghost predicate Held(b: Build<V>, s: seq<Node<V>>)
      reads `nodes, `leaves, `innernodes, `headleaf, `tailleaf
      reads nodes`slotuse, nodes`slotkey, nodes`slotdata, nodes`childid, nodes`prevleaf, nodes`nextleaf
    {
      && b.ns == nodes && b.leaves == leaves && b.inner == innernodes && Views(b.m) && Linked(b.l)
      && OpenChain(b.l, s) && forall x :: x in s ==> x in nodes && x.level == 0
    }

    lemma HeldIs(b: Build<V>, s: seq<Node<V>>)
      ensures Held(b, s) <==>
                && b.ns == nodes && b.leaves == leaves && b.inner == innernodes && Views(b.m) && Linked(b.l)
                && OpenChain(b.l, s) && forall x :: x in s ==> x in nodes && x.level == 0
    {
    }

    /** A new leaf with these pairs at the end of the chain. */
    method AddLeaf(keys: seq<Key>, data: seq<V>, prev: Node?<V>, next: Node?<V>, ghost items: seq<Item<V>>,
                   ghost b: Build<V>, ghost s: seq<Node<V>>)
      returns (n: Node<V>, ghost b': Build<V>)
      requires Held(b, s) && LeafCell(keys, data) == LeafOf(items) && |keys| <= p.leafMax && (s == [] ==> prev == null)
      modifies `nodes, `leaves, `headleaf, `tailleaf, nodes`nextleaf
      ensures fresh(n) && nodes == old(nodes) + {n}
      ensures Held(b', s + [n]) && Grew(b, b', [Leaf(n, items)], 0, multiset{}) && LastNext(b'.l, s + [n], next)
    {
      hide *;
      HeldIs(b, s);
      HeldKeys(b, s);
      LeafSizes(keys, data, items);
      n := NewLeaf(b.m, b.l);
      LoadLeaf(n, keys, data, b.m);
      LinkLast(n, prev, next, b.l, s);
      ghost var l' := Appended(b.l, n, prev, next);
      AppendOpen(b.l, s, n, prev, next);
      b' := Build(Put(b.m, n, LeafOf(items)), l', nodes, leaves, innernodes);
      HeldIs(b', s + [n]);
      PutNew(b, b', n, LeafOf(items));
      GrewLeaf(b, b', n, items);
    }

    static lemma LeafSizes(keys: seq<Key>, data: seq<V>, items: seq<Item<V>>)
      requires LeafCell(keys, data) == LeafOf(items)
      ensures |keys| == |data| == |items|
    {
    }

    static lemma PutNew(b: Build<V>, b': Build<V>, n: Node<V>, c: Cell<V>)
      requires n !in b.ns && b'.m == Put(b.m, n, c) && b.ns <= b.m.Keys
      ensures KeptAll(b, b') && n in b'.m && b'.m[n] == c
    {
    }

    method LoadLeaf(n: Node<V>, keys: seq<Key>, data: seq<V>, ghost m: Mem<V>)
      requires Views(Put(m, n, LeafCell([], []))) && n in nodes && |keys| == |data| && |keys| <= p.leafMax
      modifies n`slotuse, n`slotkey, n`slotdata
      ensures Views(Put(m, n, LeafCell(keys, data))) && n.level == 0
    {
      assert n.level == 0;
      n.LoadPairs(keys, data);
    }

    /** The leaf `n` becomes the last of the chain; its own link words are overwritten as far as they are known. */
    method LinkLast(n: Node<V>, prev: Node?<V>, next: Node?<V>, ghost l: Links<V>, ghost s: seq<Node<V>>)
      requires LinkedBut(l, n) && n in nodes && n.level == 0 && OpenChain(l, s) && n !in s
      requires forall x :: x in s ==> x in nodes && x.level == 0
      modifies `headleaf, `tailleaf, nodes`nextleaf, n`prevleaf
      ensures Linked(Appended(l, n, prev, next))
    {
      hide OpenChain, Appended;
      ChainEnds(l, s);
      AppendedFacts(l, n, prev, next);
      n.prevleaf, n.nextleaf := prev, next;
      if headleaf == null {
        headleaf, tailleaf := n, n;
      } else {
        n.prevleaf := tailleaf;
        tailleaf.nextleaf := n;
        tailleaf := n;
      }
    }

    static lemma ChainEnds(l: Links<V>, s: seq<Node<V>>)
      requires OpenChain(l, s)
      ensures l.head == null <==> s == []
      ensures l.tail == null <==> s == []
      ensures l.tail != null ==> l.tail in s
    {
    }

    lemma HeldKeys(b: Build<V>, s: seq<Node<V>>)
      requires Held(b, s)
      ensures b.ns <= b.m.Keys && b.ns == nodes
      ensures forall x :: x in s ==> x in nodes
    {
    }

    /** A new inner node with these separators; its children are still to come. */
    method AddInner(level: nat, keys: seq<Key>, ghost b: Build<V>, ghost s: seq<Node<V>>)
      returns (n: Node<V>, ghost b': Build<V>)
      requires Held(b, s) && level > 0 && |keys| <= p.innerMax
      modifies `nodes, `innernodes
      ensures fresh(n) && nodes == old(nodes) + {n} && n.level == level && n.slotuse == |keys|
      ensures Held(b', s) && Grew(b, b', [], level - 1, multiset{n}) && Filled(b'.m, n, level, keys, []) && b'.l == b.l
    {
      hide *;
      HeldIs(b, s);
      HeldKeys(b, s);
      n := NewInner(level, b.m, b.l);
      ghost var c := LoadInner(n, level, keys, b.m);
      b' := Build(Put(b.m, n, c), b.l, nodes, leaves, innernodes);
      PutNew(b, b', n, c);
      FilledNone(b'.m, n, level, keys, c);
      GrewNothing(b, b', level - 1, n);
      HeldIs(b', s);
    }

    method LoadInner(n: Node<V>, level: nat, keys: seq<Key>, ghost m: Mem<V>) returns (ghost c: Cell<V>)
      requires Views(Put(m, n, InnerCell(level, [], [null]))) && n in nodes && level > 0 && |keys| <= p.innerMax
      modifies n`slotuse, n`slotkey
      ensures Views(Put(m, n, c)) && n.level == level && n.slotuse == |keys|
      ensures c.InnerCell? && c.level == level && c.keys == keys && |c.kids| == |keys| + 1
    {
      assert n.level == level;
      n.LoadKeys(keys);
      c := n.Image();
    }

    static lemma FilledNone(m: Mem<V>, n: Node<V>, h: nat, keys: seq<Key>, c: Cell<V>)
      requires n in m && m[n] == c && c.InnerCell? && c.level == h && c.keys == keys && |c.kids| == |keys| + 1
      ensures Filled(m, n, h, keys, [])
    {
    }

    method WriteChild(n: Node<V>, slot: nat, kid: Node?<V>, ghost m: Mem<V>)
      requires Views(m) && n in nodes && m[n].InnerCell? && slot < |m[n].kids|
      modifies n`childid
      ensures Views(Put(m, n, InnerCell(m[n].level, m[n].keys, m[n].kids[slot := kid])))
    {
      assert n.level > 0 && slot <= n.slotuse;
      n.SetChild(slot, kid);
    }

    /** Child `|cs|` of a node under construction. */
    method TakeKid(n: Node<V>, slot: nat, kid: Node<V>, ghost h: nat, ghost keys: seq<Key>, ghost cs: seq<NTree<V>>,
                   ghost c: NTree<V>, ghost b0: Build<V>, ghost b1: Build<V>, ghost b2: Build<V>,
                   ghost s: seq<Node<V>>)
      returns (ghost b3: Build<V>)
      requires Held(b2, s) && h > 0 && Filled(b1.m, n, h, keys, cs) && slot == |cs| <= |keys| && c.r == kid
      requires Grew(b0, b1, cs, h - 1, multiset{n}) && Grew(b1, b2, [c], h - 1, multiset{})
      modifies n`childid
      ensures Held(b3, s) && Grew(b0, b3, cs + [c], h - 1, multiset{n}) && Filled(b3.m, n, h, keys, cs + [c])
      ensures b3.l == b2.l
    {
      hide *;
      GrewMore(b0, b1, b2, cs, c, h - 1, n);
      FilledKept(b1.m, b2.m, n, h, keys, cs);
      FilledMore(b2.m, n, h, keys, cs, c);
      FilledIs(b2.m, n, h, keys, cs);
      HeldIs(b2, s);
      HeldKeys(b2, s);
      NodeIn(b0, b1, b2, cs, c, h - 1, n);
      WriteChild(n, slot, kid, b2.m);
      b3 := b2.(m := Put(b2.m, n, InnerCell(h, keys, b2.m[n].kids[slot := kid])));
      GrewSet(b0, b2, cs + [c], h - 1, n, InnerCell(h, keys, b2.m[n].kids[slot := kid]));
      HeldIs(b3, s);
    }

    static lemma FilledIs(m: Mem<V>, n: Node<V>, h: nat, keys: seq<Key>, cs: seq<NTree<V>>)
      requires Filled(m, n, h, keys, cs)
      ensures n in m && m[n].InnerCell? && m[n].level == h && m[n].keys == keys && |m[n].kids| == |keys| + 1
    {
    }

    // --------------------------------------------------------------- the copy

    /** `copy_recursive`: the tree below `n` of another object again, in new nodes, its leaves behind those so far. */
    method CopyRecursive(n: Node<V>, other: BTreeObject<V>, ghost t: NTree<V>, ghost h: nat, ghost src: Mem<V>,
                         ghost b: Build<V>, ghost s: seq<Node<V>>)
      returns (r: Node<V>, ghost c: NTree<V>, ghost b': Build<V>)
      requires Held(b, s) && LastNext(b.l, s, null)
      requires other != this && other.p == p && nodes !! other.nodes
      requires other.Views(src) && Owned(src, other.nodes, t, h) && BTree.Below(p, t, h) && n == t.r
      modifies this, nodes
      ensures fresh(nodes - old(nodes)) && old(nodes) <= nodes && c.r == r
      ensures Same(t, c) && Grew(b, b', [c], h, multiset{}) && Held(b', s + Leaves(c))
      ensures LastNext(b'.l, s + Leaves(c), null)
      decreases t
    {
      hide *;
      other.NodeLevel(n, src, t, h);
      OwnedCell(src, other.nodes, t, h);
      if n.level == 0 {
        other.LeafKeysAre(n, src, t.items);
        r, b' := AddLeaf(n.slotkey[..n.slotuse], n.slotdata[..n.slotuse], null, null, t.items, b, s);
        c := Leaf(r, t.items);
        SameLeaf(t, r);
        OneLeaf(r, t.items);
      } else {
        BelowKids(p, t, h);
        other.InnerKeysAre(n, src, t, h);
        r, b' := AddInner(n.level, n.slotkey[..n.slotuse], b, s);
        var slot := 0;
        ghost var cs: seq<NTree<V>> := [];
        NoRow(t.kids);
        assert s + RowLeaves(cs) == s;
        while slot <= n.slotuse
          invariant slot == |cs| <= n.slotuse + 1 == |t.kids|
          invariant fresh(nodes - old(nodes)) && old(nodes) <= nodes && r in nodes && r !in old(nodes)
          invariant nodes !! other.nodes && other.Views(src)
          invariant Held(b', s + RowLeaves(cs)) && LastNext(b'.l, s + RowLeaves(cs), null)
          invariant Grew(b, b', cs, h - 1, multiset{r}) && Filled(b'.m, r, h, t.keys, cs)
          invariant SameRow(t.kids[..slot], cs)
        {
          other.KidUse(n, src, t, h, slot);
          KidOwned(src, other.nodes, t, h, slot);
          BelowKid(p, t, h, slot);
          var kid;
          ghost var k, b2;
          kid, k, b2 := CopyRecursive(n.childid[slot], other, t.kids[slot], h - 1, src, b', s + RowLeaves(cs));
          LeavesMore(s, cs, k);
          b' := TakeKid(r, slot, kid, h, t.keys, cs, k, b, b', b2, s + RowLeaves(cs + [k]));
          SameRowMore(t.kids, cs, slot, k);
          cs := cs + [k];
          slot := slot + 1;
        }
        c := Inner(r, t.keys, cs);
        assert t.kids[..slot] == t.kids;
        SameInner(t, r, cs);
        FilledDone(b'.m, r, h, t.keys, cs);
        FilledIs(b'.m, r, h, t.keys, cs);
        GrewInner(b, b', t.keys, cs, h, r);
      }
    }

    static lemma NoRow(kids: seq<NTree<V>>)
      ensures RowLeaves<Node<V>, V>([]) == [] && SameRow<Node<V>, V>(kids[..0], [])
    {
    }

    static lemma OneLeaf(r: Node<V>, items: seq<Item<V>>)
      ensures Leaves<Node<V>, V>(Leaf(r, items)) == [r]
    {
    }

    static lemma BelowKids(p: Params, t: NTree<V>, h: nat)
      requires BTree.Below(p, t, h)
      ensures t.Inner? ==> |t.kids| == |t.keys| + 1 && h > 0
    {
    }

    static lemma BelowKid(p: Params, t: NTree<V>, h: nat, slot: nat)
      requires BTree.Below(p, t, h) && t.Inner? && slot < |t.kids|
      ensures h > 0 && BTree.Below(p, t.kids[slot], h - 1) && BTree.Valid(p, t.kids[slot], h - 1, false)
    {
    }

    static lemma LeavesMore(s: seq<Node<V>>, cs: seq<NTree<V>>, k: NTree<V>)
      ensures s + RowLeaves(cs) + Leaves(k) == s + RowLeaves(cs + [k])
    {
      RowMore(cs, k);
    }

    lemma LeafKeysAre(leaf: Node<V>, m: Mem<V>, items: seq<Item<V>>)
      requires Views(m) && leaf in nodes && leaf in m && m[leaf] == LeafOf(items)
      ensures leaf.slotuse <= |leaf.slotkey| && leaf.slotuse <= |leaf.slotdata| && leaf.slotuse <= p.leafMax
      ensures LeafCell(leaf.slotkey[..leaf.slotuse], leaf.slotdata[..leaf.slotuse]) == LeafOf(items)
    {
    }

    lemma InnerKeysAre(n: Node<V>, m: Mem<V>, t: NTree<V>, h: nat)
      requires Views(m) && n in nodes && n in m && t.Inner? && m[n] == InnerCell(h, t.keys, KidRefs(t.kids))
      ensures n.slotuse <= |n.slotkey| && n.slotkey[..n.slotuse] == t.keys && n.slotuse <= p.innerMax
      ensures n.slotuse == |t.keys| && n.level == h
    {
    }

    // ------------------------------------------------------------------ clearing

    /** `clear_recursive`: every node below `n` is freed, each of them once. */
    method ClearRecursive(n: Node<V>, ghost t: NTree<V>, ghost h: nat, ghost m: Mem<V>, ghost l: Links<V>)
      requires Views(m) && Linked(l) && Rep(m, t, h) && Refs(t) <= multiset(nodes) && n == t.r && FullRows(t)
      modifies `nodes, `leaves, `innernodes
      ensures Views(m) && Linked(l) && nodes <= old(nodes)
      ensures multiset(nodes) + Refs(t) == multiset(old(nodes)) + multiset{n}
      decreases t
    {
      hide *;
      OwnedIf(m, nodes, t, h);
      NodeLevel(n, m, t, h);
      OwnedCell(m, nodes, t, h);
      LeafRefs(t);
      if n.level != 0 {
        FullKids(t);
        InnerKeysAre(n, m, t, h);
        KidsAre(n, m, t, h);
        ghost var ns := nodes;
        RowRefsNone<Node<V>, V>();
        assert t.kids[..0] == [];
        var slot := 0;
        while slot < n.slotuse + 1
          invariant slot <= |t.kids| == n.slotuse + 1
          invariant Views(m) && Linked(l) && nodes <= ns
          invariant multiset(nodes) + RowRefs(t.kids[..slot]) == multiset(ns)
        {
          FreedRow(ns, nodes, t, slot);
          KidOwned(m, ns, t, h, slot);
          OwnedRep(m, ns, t.kids[slot], h - 1);
          ghost var before := nodes;
          ClearRecursive(n.childid[slot], t.kids[slot], h - 1, m, l);
          FreedOne(ns, before, nodes, t.kids, slot);
          StillThere(before, nodes, t.kids[slot]);
          FreeNode(n.childid[slot], m, l);
          slot := slot + 1;
        }
        assert t.kids[..slot] == t.kids;
        RefsOf(t);
        FreedAll(multiset(nodes), RowRefs(t.kids), multiset{n}, multiset(ns));
      }
    }

    static lemma FreedAll(a: multiset<Node<V>>, r: multiset<Node<V>>, n: multiset<Node<V>>, b: multiset<Node<V>>)
      requires a + r == b
      ensures a + (n + r) == b + n
    {
    }

    /** Every inner node has one child more than separators. */
    static ghost predicate FullRows(t: NTree<V>) {
      t.Inner? ==> |t.kids| == |t.keys| + 1 && forall i :: 0 <= i < |t.kids| ==> FullRows(t.kids[i])
    }

    static lemma FullKids(t: NTree<V>)
      requires FullRows(t)
      ensures t.Inner? ==> |t.kids| == |t.keys| + 1 && forall i :: 0 <= i < |t.kids| ==> FullRows(t.kids[i])
    {
    }

    static lemma {:induction false} BelowFull(p: Params, t: NTree<V>, h: nat)
      requires BTree.Below(p, t, h)
      ensures FullRows(t)
      decreases t
    {
      if t.Inner? {
        forall i | 0 <= i < |t.kids|
          ensures FullRows(t.kids[i])
        {
          BelowFull(p, t.kids[i], h - 1);
        }
      }
    }

    static lemma OwnedIf(m: Mem<V>, ns: set<Node<V>>, t: NTree<V>, h: nat)
      requires Rep(m, t, h) && Refs(t) <= multiset(ns)
      ensures Owned(m, ns, t, h)
    {
      hide Rep, Refs;
      forall r | r in Refs(t)
        ensures Refs(t)[r] <= 1 && r in ns
      {
        assert Refs(t)[r] <= multiset(ns)[r];
      }
    }

    static lemma OwnedRep(m: Mem<V>, ns: set<Node<V>>, t: NTree<V>, h: nat)
      requires Owned(m, ns, t, h)
      ensures Rep(m, t, h)
    {
    }

    static lemma LeafRefs(t: NTree<V>)
      ensures t.Leaf? ==> Refs(t) == multiset{t.r}
    {
    }

    lemma KidsAre(n: Node<V>, m: Mem<V>, t: NTree<V>, h: nat)
      requires Views(m) && n in nodes && n in m && t.Inner? && m[n] == InnerCell(h, t.keys, KidRefs(t.kids))
      ensures |t.kids| <= |n.childid| && forall i :: 0 <= i < |t.kids| ==> n.childid[i] == t.kids[i].r
    {
      forall i | 0 <= i < |t.kids|
        ensures n.childid[i] == t.kids[i].r
      {
        assert n.childid[i] == n.Image().kids[i];
      }
    }

    /** The topmost node of a cleared tree is not freed yet. */
    static lemma StillThere(before: set<Node<V>>, after: set<Node<V>>, kid: NTree<V>)
      requires multiset(after) + Refs(kid) == multiset(before) + multiset{kid.r} && Refs(kid) <= multiset(before)
      ensures kid.r in after
    {
      hide Refs;
      assert (multiset(after) + Refs(kid))[kid.r] == multiset(before)[kid.r] + 1;
      assert Refs(kid)[kid.r] <= multiset(before)[kid.r];
      assert kid.r in multiset(after);
    }

    /** `clear`: all nodes are freed. */
    method Clear()
      requires Valid()
      modifies this
      ensures Valid() && Pairs() == [] && nodes == {} && tree == None
      ensures root == headleaf == tailleaf == null && itemcount == leaves == innernodes == 0
    {
      hide *;
      RootThere();
      if root != null {
        Opened();
        ghost var t, h := tree.value, Run.Height(tree.value);
        ReadyParts(t, h);
        CountsAre();
        ShapeFacts(p, mem, links, nodes, t, h, Counts());
        BelowFull(p, t, h);
        OwnedRep(mem, nodes, t, h);
        FreeTree(t, h, mem, links);
        Reset();
      } else {
        NothingYet();
        EmptyNow();
      }
    }

    method FreeTree(ghost t: NTree<V>, ghost h: nat, ghost m: Mem<V>, ghost l: Links<V>)
      requires Views(m) && Linked(l) && Rep(m, t, h) && Refs(t) == multiset(nodes) && root == t.r && FullRows(t)
      modifies `nodes, `leaves, `innernodes
      ensures nodes == {}
    {
      hide *;
      ghost var ns := nodes;
      ClearRecursive(root, t, h, m, l);
      OnlyOne(nodes, ns, t);
      FreeNode(root, m, l);
    }

    method Reset()
      requires nodes == {}
      modifies `root, `headleaf, `tailleaf, `itemcount, `leaves, `innernodes, `mem, `links, `tree
      ensures Valid() && Pairs() == [] && tree == None
      ensures root == headleaf == tailleaf == null && itemcount == leaves == innernodes == 0
    {
      root, headleaf, tailleaf := null, null, null;
      itemcount, leaves, innernodes := 0, 0, 0;
      mem, links, tree := map[], Links(map[], map[], null, null), None;
    }

    static lemma OnlyOne(left: set<Node<V>>, ns: set<Node<V>>, t: NTree<V>)
      requires multiset(left) + Refs(t) == multiset(ns) + multiset{t.r} && Refs(t) == multiset(ns)
      ensures left == {t.r}
    {
      hide Refs;
      forall x
        ensures x in left <==> x == t.r
      {
        assert (multiset(left) + Refs(t))[x] == (multiset(ns) + multiset{t.r})[x];
        assert x in left <==> multiset(left)[x] == 1;
      }
    }

    lemma EmptyNow()
      requires Valid() && root == null
      ensures headleaf == tailleaf == null && itemcount == leaves == innernodes == 0 && tree == None && nodes == {}
      ensures Pairs() == []
    {
    }

    /** The assignment operator: what was here is freed, and a copy of the other tree takes its place. */
    method CopyFrom(other: BTreeObject<V>)
      requires Valid() && other.Valid() && other.p == p
      requires other != this ==> nodes !! other.nodes
      modifies this
      ensures Valid() && SameWhole(old(other.tree), tree) && Pairs() == old(other.Pairs())
      ensures other != this ==> other.Valid() && fresh(nodes)
    {
      hide *;
      SelfSame(tree);
      if other != this {
        Clear();
        EmptyNow();
        other.SizeIs();
        if other.itemcount != 0 {
          leaves, innernodes := 0, 0;
          if other.root != null {
            CopyRoot(other);
          }
        }
      }
    }

    method CopyRoot(other: BTreeObject<V>)
      requires other.Valid() && other.p == p && other != this && other.root != null
      requires nodes == {} && headleaf == null && tailleaf == null && leaves == innernodes == 0
      modifies this
      ensures Valid() && SameWhole(other.tree, tree) && Pairs() == other.Pairs() && fresh(nodes)
    {
      hide *;
      other.Opened();
      ghost var t, h := other.tree.value, Run.Height(other.tree.value);
      ghost var b := Nothing();
      ghost var c, b';
      NothingIs(b);
      other.ReadyParts(t, h);
      other.CountsAre();
      ShapeFacts(p, other.mem, other.links, other.nodes, t, h, other.Counts());
      RefsSize(t, other.nodes);
      root, c, b' := CopyRecursive(other.root, other, t, h, other.mem, b, []);
      assert [] + Leaves(c) == Leaves(c);
      BuiltCounts(t, c, h, b, b');
      HeldIs(b', Leaves(c));
      itemcount, leaves, innernodes := other.itemcount, other.leaves, other.innernodes;
      Finish(t, c, h, b, b');
    }

    /** The tree that was built is the tree of this object. */
    ghost method Finish(t: NTree<V>, c: NTree<V>, h: nat, b: Build<V>, b': Build<V>)
      requires BTree.Valid(p, t, h, true) && Ordered(t) && Same(t, c) && root == c.r
      requires b == Nothing() && Grew(b, b', [c], h, multiset{}) && Held(b', Leaves(c))
               && LastNext(b'.l, Leaves(c), null)
      requires itemcount == |Contents(t)|
      modifies `tree, `mem, `links
      ensures Valid() && SameWhole(Some(t), tree) && Pairs() == Contents(t)
    {
      hide *;
      NothingIs(b);
      HeldKeys(b', Leaves(c));
      HeldIs(b', Leaves(c));
      BuiltWhole(p, t, c, h, b, b');
      tree, mem, links := Some(c), b'.m, b'.l;
      Closed();
      SomePairs(c);
      SomeSame(t, c);
      SameFacts(t, c);
    }

    static ghost function Nothing(): Build<V> {
      Build(map[], Links(map[], map[], null, null), {}, 0, 0)
    }

    /** Before the first node. */
    lemma NothingIs(b: Build<V>)
      requires b == Nothing()
      ensures b.ns == {} && b.leaves == b.inner == 0
      ensures nodes == {} && headleaf == null && tailleaf == null && leaves == innernodes == 0 ==>
                Held(b, []) && LastNext(b.l, [], null)
    {
    }

    lemma CountsAre()
      ensures Counts() == Stats(itemcount, leaves, innernodes)
    {
    }

    lemma ReadyParts(t: NTree<V>, h: nat)
      requires Ready(p, mem, links, nodes, t, h, [], [])
      ensures BTree.Valid(p, t, h, true) && BTree.Below(p, t, h) && Ordered(t) && Owned(mem, nodes, t, h)
      ensures Chain(links, Leaves(t)) && LastNext(links, Leaves(t), null)
    {
      hide Owned, Leaves;
      assert [] + Leaves(t) + [] == Leaves(t);
    }

    static lemma RefsSize(t: NTree<V>, ns: set<Node<V>>)
      requires Refs(t) == multiset(ns)
      ensures |Refs(t)| == |ns|
    {
    }

    static lemma SomeSame(t: NTree<V>, c: NTree<V>)
      requires Same(t, c)
      ensures SameWhole(Some(t), Some(c))
    {
    }

    static lemma {:induction false} SelfSameTree(t: NTree<V>)
      ensures Same(t, t)
      decreases t
    {
      if t.Inner? {
        forall i | 0 <= i < |t.kids|
          ensures Same(t.kids[i], t.kids[i])
        {
          SelfSameTree(t.kids[i]);
        }
      }
    }

    static lemma SelfSame(w: Whole<V>)
      ensures SameWhole(w, w)
      ensures SameWhole<V>(None, None)
    {
      if w.Some? {
        SelfSameTree(w.value);
      }
    }

    lemma SizeIs()
      requires Valid()
      ensures itemcount == 0 <==> tree.None?
      ensures itemcount == 0 <==> root == null
      ensures tree.None? ==> Pairs() == []
    {
      if tree.Some? {
        MaxKeyIsLast(p, tree.value, Run.Height(tree.value), true);
      }
    }

    // ------------------------------------------------------- dumping and restoring

    /** `dump_node`: the nodes below `n` are written in pre-order. */
    method DumpNode(n: Node<V>, out: seq<Record<V>>, ghost t: NTree<V>, ghost h: nat) returns (all: seq<Record<V>>)
      requires Views(mem) && Linked(links) && Owned(mem, nodes, t, h) && BTree.Below(p, t, h) && n == t.r
      ensures all == out + DumpOf(links, t, h)
      decreases t
    {
      hide *;
      NodeLevel(n, mem, t, h);
      OwnedCell(mem, nodes, t, h);
      DumpIs(links, t, h);
      if n.level == 0 {
        LeafKeysAre(n, mem, t.items);
        LeafIs(n, t.items);
        WordsAre(n);
        all := out + [LeafRecord(n.slotkey[..n.slotuse], n.slotdata[..n.slotuse], n.prevleaf, n.nextleaf)];
      } else {
        BelowKids(p, t, h);
        InnerKeysAre(n, mem, t, h);
        NoDump(t.kids, h - 1);
        all := out + [InnerRecord(n.level, n.slotkey[..n.slotuse])];
        var slot := 0;
        while slot <= n.slotuse
          invariant slot <= n.slotuse + 1 == |t.kids|
          invariant all == out + [InnerRecord(h, t.keys)] + RowDump(links, t.kids[..slot], h - 1)
        {
          KidUse(n, mem, t, h, slot);
          KidOwned(mem, nodes, t, h, slot);
          BelowKid(p, t, h, slot);
          RowDumpStep(links, t.kids, h - 1, slot);
          all := DumpNode(n.childid[slot], all, t.kids[slot], h - 1);
          slot := slot + 1;
        }
        assert t.kids[..slot] == t.kids;
      }
    }

    lemma DumpIs(l: Links<V>, t: NTree<V>, h: nat)
      ensures t.Leaf? ==>
                DumpOf(l, t, h) == [LeafRecord(Keys(t.items), Datas(t.items), Word(l.prev, t.r), Word(l.next, t.r))]
      ensures t.Inner? && h > 0 ==> DumpOf(l, t, h) == [InnerRecord(h, t.keys)] + RowDump(l, t.kids, h - 1)
    {
    }

    lemma NoDump(kids: seq<NTree<V>>, h: nat)
      ensures RowDump(links, kids[..0], h) == []
    {
    }

    lemma LeafIs(leaf: Node<V>, items: seq<Item<V>>)
      requires leaf.slotuse <= |leaf.slotkey| && leaf.slotuse <= |leaf.slotdata|
      requires LeafCell(leaf.slotkey[..leaf.slotuse], leaf.slotdata[..leaf.slotuse]) == LeafOf(items)
      ensures leaf.slotkey[..leaf.slotuse] == Keys(items) && leaf.slotdata[..leaf.slotuse] == Datas(items)
    {
    }

    lemma WordsAre(leaf: Node<V>)
      requires Linked(links) && leaf in nodes && leaf.level == 0
      ensures Word(links.prev, leaf) == leaf.prevleaf && Word(links.next, leaf) == leaf.nextleaf
    {
    }

    /** `dump`: the header, the number of pairs and all nodes. */
    method Dump() returns (saved: Saved<V>)
      requires Valid()
      ensures saved.header == p && Dumped(saved, tree, links)
    {
      hide *;
      RootThere();
      CountIs();
      PairsAre();
      saved := Saved(p, itemcount, []);
      if root != null {
        Opened();
        ghost var t, h := tree.value, Run.Height(tree.value);
        ReadyParts(t, h);
        var records := DumpNode(root, [], t, h);
        saved := saved.(records := records);
        assert [] + DumpOf(links, t, h) == DumpOf(links, t, h);
        DumpedSome(saved, p, t, links);
      } else {
        NothingYet();
        DumpedNone(saved, p, links);
      }
    }

    lemma PairsAre()
      ensures Pairs() == Run.Pairs(tree)
    {
    }

    /**
     * `restore_node`: a node for the next record, and below it what the records behind it say; its leaves are chained
     * in their order. The records may end early: `full` is the image they were cut from, and `at` the place in it where
     * the records of `t` stand.
     */
    method RestoreNode(records: seq<Record<V>>, pos: nat, ghost full: seq<Record<V>>, ghost at: nat, ghost t: NTree<V>,
                       ghost h: nat, ghost top: bool, ghost sl: Links<V>, ghost b: Build<V>, ghost s: seq<Node<V>>)
      returns (r: Node?<V>, next: nat, ghost g: Reading<V>)
      requires Held(b, s) && BTree.Valid(p, t, h, top) && records <= full && DumpAt(full, at, sl, t, h)
      requires pos == Least(at, |records|)
      requires at < |records| && s == [] ==> Word(sl.prev, LeftLeaf(t)) == null
      modifies `nodes, `leaves, `innernodes, `headleaf, `tailleaf, nodes
      ensures fresh(nodes - old(nodes)) && old(nodes) <= nodes && next == Least(at + |DumpOf(sl, t, h)|, |records|)
      ensures ReadNode(|records|, at, sl, t, h, b, s, r, g) && Held(g.b, g.s)
      decreases t, 2
    {
      hide *;
      HeldKeys(b, s);
      LeastIs(at, |records|);
      if pos == |records| {
        NoNode(|records|, at, sl, t, h, b, s);
        LeastIs(at + |DumpOf(sl, t, h)|, |records|);
        return null, pos, Reading(b, s, [], null, 0);
      }
      LeafDumpAt(full, at, sl, t, h);
      ValidSizes(p, t, h, top);
      match records[pos]
      case LeafRecord(keys, data, prev, follower) =>
        CellIs(keys, data, t.items);
        OnlyLeaf(t);
        ghost var b';
        r, b' := AddLeaf(keys, data, prev, follower, t.items, b, s);
        HeldKeys(b', s + [r]);
        LeafRead(|records|, at, sl, t, b, b', s, r);
        next, g := pos + 1, Reading(b', s + [r], [Leaf(r, t.items)], null, 0);
        LeastIs(at + 1, |records|);
      case InnerRecord(level, keys) =>
        BelowKids(p, t, h);
        ghost var b';
        var n;
        n, b' := AddInner(level, keys, b, s);
        HeldKeys(b', s);
        KidsBegin(|records|, at, sl, t, h, b, b', s, n);
        next, g := RestoreKids(n, records, pos + 1, full, at, t, h, top, sl, b, s, Reading(b', s, [], null, 0));
        r := n;
        KidsDone(|records|, at, sl, t, h, b, s, n, g);
        InnerDump(sl, t, h);
        assert t.kids[..|t.kids|] == t.kids;
        g := g.(cs := [Inner(n, t.keys, g.cs)]);
    }

    /** The loop over the children of the new inner node `n`. */
    method RestoreKids(n: Node<V>, records: seq<Record<V>>, pos: nat, ghost full: seq<Record<V>>, ghost at: nat,
                       ghost t: NTree<V>, ghost h: nat, ghost top: bool, ghost sl: Links<V>, ghost b: Build<V>,
                       ghost s: seq<Node<V>>, ghost g0: Reading<V>)
      returns (next: nat, ghost g: Reading<V>)
      requires Held(g0.b, g0.s) && BTree.Valid(p, t, h, top) && t.Inner? && records <= full
               && DumpAt(full, at, sl, t, h)
      requires ReadKids(|records|, at, sl, t, h, b, s, n, 0, g0) && n.slotuse == |t.keys|
      requires at < |records| && pos == at + 1 && (s == [] ==> Word(sl.prev, LeftLeaf(t)) == null)
      modifies `nodes, `leaves, `innernodes, `headleaf, `tailleaf, nodes
      ensures fresh(nodes - old(nodes)) && old(nodes) <= nodes
      ensures h > 0 && next == Least(at + 1 + |RowDump(sl, t.kids, h - 1)|, |records|)
      ensures ReadKids(|records|, at, sl, t, h, b, s, n, |t.kids|, g) && Held(g.b, g.s)
      decreases t, 1
    {
      hide *;
      ReadKidsIs(|records|, at, sl, t, h, b, s, n, 0, g0);
      NoDumpOf(sl, t.kids, h - 1);
      LeastIs(at + 1, |records|);
      next, g := pos, g0;
      var slot, use := 0, n.slotuse;
      while slot <= use
        invariant slot <= use + 1 == |t.kids|
        invariant fresh(nodes - old(nodes)) && old(nodes) <= nodes
        invariant next == Least(at + 1 + |RowDump(sl, t.kids[..slot], h - 1)|, |records|)
        invariant ReadKids(|records|, at, sl, t, h, b, s, n, slot, g) && Held(g.b, g.s)
      {
        next, g := RestoreKid(n, slot, records, next, full, at, t, h, top, sl, b, s, g);
        slot := slot + 1;
      }
      assert t.kids[..slot] == t.kids;
    }

    /** Child `slot` of the new inner node `n`; what comes back is stored, null or not. */
    method RestoreKid(n: Node<V>, slot: nat, records: seq<Record<V>>, pos: nat, ghost full: seq<Record<V>>,
                      ghost at: nat, ghost t: NTree<V>, ghost h: nat, ghost top: bool, ghost sl: Links<V>,
                      ghost b: Build<V>, ghost s: seq<Node<V>>, ghost g0: Reading<V>)
      returns (next: nat, ghost g: Reading<V>)
      requires Held(g0.b, g0.s) && BTree.Valid(p, t, h, top) && t.Inner? && records <= full
               && DumpAt(full, at, sl, t, h)
      requires ReadKids(|records|, at, sl, t, h, b, s, n, slot, g0) && slot < |t.kids| && h > 0
      requires pos == Least(at + 1 + |RowDump(sl, t.kids[..slot], h - 1)|, |records|)
      requires s == [] ==> Word(sl.prev, LeftLeaf(t)) == null
      modifies `nodes, `leaves, `innernodes, `headleaf, `tailleaf, nodes
      ensures fresh(nodes - old(nodes)) && old(nodes) <= nodes
      ensures next == Least(at + 1 + |RowDump(sl, t.kids[..slot + 1], h - 1)|, |records|)
      ensures ReadKids(|records|, at, sl, t, h, b, s, n, slot + 1, g) && Held(g.b, g.s)
      decreases t, 0
    {
      hide *;
      ghost var q := at + 1 + |RowDump(sl, t.kids[..slot], h - 1)|;
      ReadKidsIs(|records|, at, sl, t, h, b, s, n, slot, g0);
      ValidSizes(p, t, h, top);
      BelowKid(p, t, h, slot);
      UnderIs(h);
      KidDumpAt(full, at, sl, t, h, slot);
      FirstOf(t);
      var kid;
      ghost var k;
      kid, next, k := RestoreNode(records, pos, full, q, t.kids[slot], h - 1, false, sl, g0.b, g0.s);
      g := KidRead(|records|, at, sl, t, h, b, s, n, slot, g0, k, kid);
      KidCell(|records|, at, sl, t, h, b, s, n, slot, g0, k, kid);
      CellIsFor(k.b.m, n, h, t.keys);
      HeldKeys(k.b, k.s);
      HeldIs(k.b, k.s);
      WriteChild(n, slot, kid, k.b.m);
      HeldIs(g.b, g.s);
    }

    static lemma LeastIs(a: nat, b: nat)
      ensures Least(a, b) == if a <= b then a else b
    {
    }

    static lemma ValidSizes(p: Params, t: NTree<V>, h: nat, top: bool)
      requires BTree.Valid(p, t, h, top)
      ensures BTree.Below(p, t, h) && t.Use() <= t.Max(p) && (t.Leaf? ==> h == 0 && |t.items| <= p.leafMax)
      ensures t.Inner? ==> h > 0 && |t.keys| <= p.innerMax
    {
    }

    static lemma CellIs(keys: seq<Key>, data: seq<V>, items: seq<Item<V>>)
      requires keys == Keys(items) && data == Datas(items)
      ensures LeafCell(keys, data) == LeafOf(items) && |keys| == |items|
    {
    }

    static lemma OnlyLeaf(t: NTree<V>)
      ensures t.Leaf? ==> LeftLeaf(t) == RightLeaf(t) == t.r
    {
    }

    static lemma NoDumpOf(l: Links<V>, kids: seq<NTree<V>>, h: nat)
      ensures RowDump(l, kids[..0], h) == []
    {
    }

    static lemma UnderIs(h: nat)
      ensures h > 0 ==> Under(h) == h - 1
    {
    }

    static lemma FirstOf(t: NTree<V>)
      ensures t.Inner? && t.kids != [] ==> LeftLeaf(t) == LeftLeaf(t.kids[0])
    {
    }

    /** An inner node has no node where one of its children should be. */
    ghost predicate Missing(n: Node<V>)
      reads n
    {
      n.level > 0 && exists i {:trigger n.childid[i]} :: 0 <= i <= n.slotuse && i < |n.childid| && n.childid[i] == null
    }

    /** No valid tree has such a node, whatever the ghost fields say. */
    lemma HoleNotValid(n: Node<V>)
      requires n in nodes && Missing(n)
      ensures !Valid()
    {
      hide *;
      if Valid() {
        RootThere();
        NodeMeansTree(n);
        Opened();
        ghost var t, h := tree.value, Run.Height(tree.value);
        ReadyParts(t, h);
        CountsAre();
        ShapeFacts(p, mem, links, nodes, t, h, Counts());
        OwnedRep(mem, nodes, t, h);
        var i := MissingAt(n, mem);
        assert n in multiset(nodes);
        NoHoles(p, mem, t, h, n, i);
      }
    }

    lemma NodeMeansTree(n: Node<V>)
      requires Valid() && n in nodes
      ensures root != null
    {
    }

    lemma MissingAt(n: Node<V>, m: Mem<V>) returns (i: nat)
      requires Views(m) && n in nodes && Missing(n)
      ensures n in m && m[n].InnerCell? && i < |m[n].kids| && m[n].kids[i] == null
    {
      var j :| 0 <= j <= n.slotuse && j < |n.childid| && n.childid[j] == null;
      i := j;
    }

    lemma HoleIsMissing(b: Build<V>, s: seq<Node<V>>, n: Node<V>, i: nat)
      requires Held(b, s) && Hole(b, n, i)
      ensures n in nodes && Missing(n)
    {
      hide OpenChain, Linked;
      assert n.childid[i] == null;
    }

    /**
     * `restore`: an image with another header is refused, and so is one that ends behind a header that announces pairs.
     * Any other image is accepted; `full` is the dumped image it was cut from. If nothing was cut off, the dumped tree
     * takes the place of this one; if anything was, some node lacks a child, and the tree is not valid.
     */
    method Restore(saved: Saved<V>, ghost full: Saved<V>, ghost w: Whole<V>, ghost sl: Links<V>) returns (ok: bool)
      requires Valid() && Dumped(full, w, sl) && CutFrom(saved, full)
      modifies this
      ensures ok <==> saved.header == p && (saved.itemcount > 0 ==> saved.records != [])
      ensures saved.header != p ==> Valid() && tree == old(tree) && Pairs() == old(Pairs()) && nodes == old(nodes)
      ensures saved.header == p ==> fresh(nodes)
      ensures saved.header == p && !ok ==> Valid() && tree == None && nodes == {}
      ensures ok && saved == full ==> Valid() && SameWhole(w, tree) && Pairs() == Run.Pairs(w)
      ensures ok && saved != full ==> !Valid() && exists n :: n in nodes && Missing(n)
    {
      hide *;
      ok := saved.header == p;
      if !ok {
        return;
      }
      Clear();
      NoneSame();
      CutIs(saved, full);
      DumpedFacts(full, w, sl);
      PairsAre();
      if saved.itemcount > 0 {
        ok := RestoreRoot(saved, full, w, sl);
      }
    }

    lemma HeldNothing(b: Build<V>)
      requires b == Nothing() && Held(b, [])
      ensures nodes == {} && headleaf == tailleaf == null && leaves == innernodes == 0
    {
    }

    lemma StillEmpty()
      requires tree == None && root == null && nodes == {} && headleaf == tailleaf == null
      requires itemcount == leaves == innernodes == 0 && links.head == links.tail == null
      ensures Valid()
    {
    }

    lemma NoLinks()
      requires Valid() && headleaf == tailleaf == null
      ensures links.head == links.tail == null
    {
    }

    method RestoreRoot(saved: Saved<V>, ghost full: Saved<V>, ghost w: Whole<V>, ghost sl: Links<V>) returns (ok: bool)
      requires Dumped(full, w, sl) && CutFrom(saved, full) && saved.itemcount > 0 && saved.header == p
      requires Valid() && tree == None && nodes == {}
      requires root == headleaf == tailleaf == null && itemcount == leaves == innernodes == 0
      modifies this
      ensures ok <==> saved.records != []
      ensures fresh(nodes)
      ensures !ok ==> Valid() && tree == None && nodes == {}
      ensures ok && saved == full ==> Valid() && SameWhole(w, tree) && Pairs() == Run.Pairs(w)
      ensures ok && saved != full ==> !Valid() && exists n :: n in nodes && Missing(n)
    {
      hide *;
      NoLinks();
      CutIs(saved, full);
      DumpedFacts(full, w, sl);
      ghost var t, h := w.value, Run.Height(w.value);
      ghost var b := Nothing();
      NothingIs(b);
      LeastIs(0, |saved.records|);
      var next;
      ghost var g;
      root, next, g := RestoreNode(saved.records, 0, full.records, 0, t, h, true, sl, b, []);
      ReadNodeIs(|saved.records|, 0, sl, t, h, b, [], root, g);
      if root == null {
        HeldNothing(b);
        StillEmpty();
        return false;
      }
      ok := true;
      itemcount := saved.itemcount;
      if saved == full {
        assert [] + Leaves(g.cs[0]) == Leaves(g.cs[0]);
        Finish(t, g.cs[0], h, b, g.b);
      } else {
        HoleIsMissing(g.b, g.s, g.gap, g.place);
        HoleNotValid(g.gap);
      }
    }

    static lemma NoneSame()
      ensures SameWhole<V>(None, None) && Run.Pairs<Node<V>, V>(None) == []
    {
    }

    // ------------------------------------------------------------------ whole runs

    /**
     * Any sequence of calls, from any valid tree: the tree stays valid and refines an ordered multimap, with each key
     * there as often as the calls say; `states` are the pairs after each call.
     */
    method Perform(ops: seq<History.Op<V>>) returns (ghost states: seq<seq<Item<V>>>)
      requires Valid() && Unique()
      modifies this, nodes
      ensures Valid() && Unique() && fresh(nodes - old(nodes))
      ensures History.Trace(p.duplicates, states, ops) && states[0] == old(Pairs()) && states[|ops|] == Pairs()
      ensures SortedItems(Pairs()) && (p.duplicates || StrictKeys(Keys(Pairs())))
      ensures multiset(Keys(Pairs())) == History.Bags(p.duplicates, multiset(Keys(old(Pairs()))), ops)
    {
      hide *;
      PairsSorted();
      UniqueIs();
      states := [Pairs()];
      History.NoTrace(p.duplicates, Pairs(), ops);
      var i := 0;
      while i < |ops|
        invariant Valid() && Unique() && fresh(nodes - old(nodes))
        invariant 0 <= i <= |ops| && |states| == i + 1 && History.Trace(p.duplicates, states, ops[..i])
        invariant states[0] == old(Pairs()) && states[i] == Pairs()
      {
        ghost var before := Pairs();
        PerformOne(ops[i]);
        History.TraceMore(p.duplicates, states, ops[..i], ops[i], Pairs());
        assert ops[..i] + [ops[i]] == ops[..i + 1];
        states := states + [Pairs()];
        i := i + 1;
      }
      assert ops[..|ops|] == ops;
      History.RunFacts(p.duplicates, states, ops);
    }

    method PerformOne(op: History.Op<V>)
      requires Valid() && Unique()
      modifies this, nodes
      ensures Valid() && Unique() && fresh(nodes - old(nodes))
      ensures History.Step(p.duplicates, old(Pairs()), op, Pairs())
    {
      hide *;
      ghost var before := Pairs();
      match op
      case Insert(key, data) =>
        var leaf, slot, inserted;
        ghost var pos;
        leaf, slot, inserted, pos := Insert(key, data);
        History.InsertIsStep(p.duplicates, before, key, data, Pairs(), pos);
      case EraseOne(key) =>
        var found := EraseOne(key);
        History.EraseOneIsStep(p.duplicates, before, key, Pairs());
      case EraseAll(key) =>
        var count := Erase(key);
        History.EraseAllIsStep(p.duplicates, before, key, Pairs(), count);
    }
  }
}
