/** How a heap of nodes stands for a tree, and what changes in some nodes mean for it. */
module BTreeHeap {
  import opened Sorted
  import opened BTree
  import opened BTreeRefs
  import opened BTreeNode

  type NTree<V(0)> = Tree<Node<V>, V>

  type Mem<V(0)> = map<Node<V>, Cell<V>>

  /** The heap `m` after node `n` changed to say `c`. */
  ghost function Put<V(0)>(m: Mem<V>, n: Node<V>, c: Cell<V>): Mem<V> {
    m[n := c]
  }

  function Datas<V>(s: seq<Item<V>>): (ds: seq<V>)
    ensures |ds| == |s|
  {
    seq(|s|, i requires 0 <= i < |s| => s[i].data)
  }

  function KidRefs<V(0)>(kids: seq<NTree<V>>): (rs: seq<Node?<V>>)
    ensures |rs| == |kids|
    ensures forall i :: 0 <= i < |kids| ==> rs[i] == kids[i].r
  {
    seq(|kids|, i requires 0 <= i < |kids| => kids[i].r)
  }

  ghost predicate Rep<V(0)>(m: Mem<V>, t: NTree<V>, h: nat) {
    && t.r in m
    && match t
       case Leaf(r, items) => h == 0 && m[r] == LeafCell(Keys(items), Datas(items))
       case Inner(r, keys, kids) =>
         && h > 0
         && m[r].InnerCell? && m[r].level == h && m[r].keys == keys
         && (kids != [] ==> m[r].kids == KidRefs(kids)) // an emptied node keeps stale children
         && forall i :: 0 <= i < |kids| ==> Rep(m, kids[i], h - 1)
  }

  ghost predicate RowRep<V(0)>(m: Mem<V>, kids: seq<NTree<V>>, h: nat) {
    forall i :: 0 <= i < |kids| ==> Rep(m, kids[i], h)
  }

  /** The two heaps agree on the nodes in `s`. */
  ghost predicate Agree<V(0)>(m: Mem<V>, m': Mem<V>, s: multiset<Node<V>>) {
    forall r :: r in s && r in m ==> r in m' && m'[r] == m[r]
  }

  lemma {:induction false} Frame<V(0)>(m: Mem<V>, m': Mem<V>, t: NTree<V>, h: nat)
    requires Rep(m, t, h) && Agree(m, m', Refs(t))
    ensures Rep(m', t, h)
    decreases t, 1
  {
    match t
    case Leaf(r, _) =>
    case Inner(r, _, kids) =>
      assert Agree(m, m', RowRefs(kids));
      RowFrame(m, m', kids, h - 1);
  }

  lemma {:induction false} RowFrame<V(0)>(m: Mem<V>, m': Mem<V>, kids: seq<NTree<V>>, h: nat)
    requires RowRep(m, kids, h) && Agree(m, m', RowRefs(kids))
    ensures RowRep(m', kids, h)
    decreases kids, 0
  {
    forall i | 0 <= i < |kids|
      ensures Rep(m', kids[i], h)
    {
      InRow(kids, i);
      Frame(m, m', kids[i], h);
    }
  }

  /** The nodes of a represented tree are in the heap. */
  lemma {:induction false} RepIn<V(0)>(m: Mem<V>, t: NTree<V>, h: nat)
    requires Rep(m, t, h)
    ensures forall r :: r in Refs(t) ==> r in m
    decreases t, 1
  {
    if t.Inner? {
      RowRepIn(m, t.kids, h - 1);
    }
  }

  lemma {:induction false} RowRepIn<V(0)>(m: Mem<V>, kids: seq<NTree<V>>, h: nat)
    requires RowRep(m, kids, h)
    ensures forall r :: r in RowRefs(kids) ==> r in m
    decreases kids, 0
  {
    if kids != [] {
      RepIn(m, kids[0], h);
      RowRepIn(m, kids[1..], h);
    }
  }

  // ------------------------------------------------------------------- links

  /** The links between leaves, and both ends of the chain. */
  datatype Links<V(0)> = Links(prev: map<Node<V>, Node?<V>>, next: map<Node<V>, Node?<V>>, head: Node?<V>,
                               tail: Node?<V>)

  ghost predicate NoRepeats<R>(s: seq<R>) {
    forall i, j :: 0 <= i < j < |s| ==> s[i] != s[j]
  }

  /** Element `i`, or null outside of the sequence. */
  ghost function Nth<V(0)>(s: seq<Node<V>>, i: int): Node?<V> {
    if 0 <= i < |s| then s[i] else null
  }

  /** The leaves in `s`, in this order, form the doubly linked chain. */
  ghost predicate Chain<V(0)>(l: Links<V>, s: seq<Node<V>>) {
    && NoRepeats(s)
    && l.head == Nth(s, 0) && l.tail == Nth(s, |s| - 1)
    && (forall i :: 0 <= i < |s| ==> s[i] in l.prev && l.prev[s[i]] == Nth(s, i - 1))
    && (forall i :: 0 <= i < |s| ==> s[i] in l.next && l.next[s[i]] == Nth(s, i + 1))
  }

  /** The new leaf `n` is put behind `leaf`. */
  ghost function LinkIn<V(0)>(l: Links<V>, leaf: Node<V>, n: Node<V>): Links<V>
    requires leaf in l.next
  {
    var follower := l.next[leaf];
    Links(if follower == null then l.prev[n := leaf] else l.prev[n := leaf][follower := n],
          l.next[n := follower][leaf := n], l.head, if follower == null then n else l.tail)
  }

  /** The leaf behind `leaf` is skipped: `dead` was it, and keeps its own links. */
  ghost function LinkOut<V(0)>(l: Links<V>, leaf: Node<V>, dead: Node<V>): Links<V>
    requires dead in l.next
  {
    var follower := l.next[dead];
    Links(if follower == null then l.prev else l.prev[follower := leaf],
          l.next[leaf := follower], l.head, if follower == null then leaf else l.tail)
  }

  lemma LinkInFacts<V(0)>(l: Links<V>, leaf: Node<V>, n: Node<V>)
    requires leaf in l.next && leaf != n && l.next[leaf] != n
    ensures var l', f := LinkIn(l, leaf, n), l.next[leaf];
            && (forall x :: x in l.prev || x == n ==>
                  x in l'.prev && l'.prev[x] == if x == n then leaf else if x == f then n else l.prev[x])
            && (forall x :: x in l.next || x == n ==>
                  x in l'.next && l'.next[x] == if x == n then f else if x == leaf then n else l.next[x])
            && l'.head == l.head && l'.tail == if f == null then n else l.tail
  {
  }

  lemma LinkOutFacts<V(0)>(l: Links<V>, leaf: Node<V>, dead: Node<V>)
    requires dead in l.next && l.next[dead] != leaf
    ensures var l', f := LinkOut(l, leaf, dead), l.next[dead];
            && (forall x :: x in l.prev ==> x in l'.prev && l'.prev[x] == if x == f then leaf else l.prev[x])
            && (forall x :: x in l.next ==> x in l'.next && l'.next[x] == if x == leaf then f else l.next[x])
            && l'.head == l.head && l'.tail == if f == null then leaf else l.tail
  {
  }

  lemma ChainLinkIn<V(0)>(l: Links<V>, s: seq<Node<V>>, i: nat, n: Node<V>)
    requires Chain(l, s) && i < |s| && n !in s
    ensures s[i] in l.next
    ensures Chain(LinkIn(l, s[i], n), InsertAt(s, i + 1, n))
  {
    LinkInEnds(l, s, i, n);
    NoRepeatsInsert(s, i + 1, n);
    var l', s' := LinkIn(l, s[i], n), InsertAt(s, i + 1, n);
    InsertAtIndex(s, i + 1, n);
    hide InsertAt, NoRepeats, LinkIn;
    forall j | 0 <= j < |s'|
      ensures s'[j] in l'.prev && l'.prev[s'[j]] == Nth(s', j - 1)
      ensures s'[j] in l'.next && l'.next[s'[j]] == Nth(s', j + 1)
    {
      hide Chain, Nth;
      LinkInPrev(l, s, i, n, s', j);
      LinkInNext(l, s, i, n, s', j);
    }
    assert s'[0] == s[0] && s'[|s|] == if i == |s| - 1 then n else s[|s| - 1];
  }

  lemma NoRepeatsInsert<R>(s: seq<R>, p: nat, n: R)
    requires NoRepeats(s) && n !in s && p <= |s|
    ensures NoRepeats(InsertAt(s, p, n))
  {
  }

  lemma LinkInEnds<V(0)>(l: Links<V>, s: seq<Node<V>>, i: nat, n: Node<V>)
    requires Chain(l, s) && i < |s|
    ensures s[i] in l.next
    ensures var l' := LinkIn(l, s[i], n);
            l'.head == s[0] && l'.tail == if i == |s| - 1 then n else s[|s| - 1]
  {
    assert s[i] in l.next;
  }

  lemma LinkInPrev<V(0)>(l: Links<V>, s: seq<Node<V>>, i: nat, n: Node<V>, s': seq<Node<V>>, j: nat)
    requires Chain(l, s) && i < |s| && n !in s && j <= |s| == |s'| - 1
    requires forall j {:trigger s'[j]} :: 0 <= j <= |s| ==> s'[j] == if j < i + 1 then s[j] else if j == i + 1 then n
             else s[j - 1]
    ensures var l' := LinkIn(l, s[i], n); s'[j] in l'.prev && l'.prev[s'[j]] == Nth(s', j - 1)
  {
    assert s[i] in l.next && l.next[s[i]] == Nth(s, i + 1);
    assert i + 1 < |s| ==> s[i + 1] in s;
    if j <= i {
      assert s'[j] == s[j] && s[j] in s && s[j] in l.prev && Nth(s, j - 1) == Nth(s', j - 1) by {
        assert j > 0 ==> s'[j - 1] == s[j - 1];
      }
    } else if j == i + 1 {
      assert s'[i] == s[i];
    } else {
      assert s'[j] == s[j - 1] && s[j - 1] in s && s[j - 1] in l.prev;
      assert s'[j - 1] == if j == i + 2 then n else s[j - 2];
    }
  }

  lemma LinkInNext<V(0)>(l: Links<V>, s: seq<Node<V>>, i: nat, n: Node<V>, s': seq<Node<V>>, j: nat)
    requires Chain(l, s) && i < |s| && n !in s && j <= |s| == |s'| - 1
    requires forall j {:trigger s'[j]} :: 0 <= j <= |s| ==> s'[j] == if j < i + 1 then s[j] else if j == i + 1 then n
             else s[j - 1]
    ensures var l' := LinkIn(l, s[i], n); s'[j] in l'.next && l'.next[s'[j]] == Nth(s', j + 1)
  {
    assert s[i] in s && s[i] in l.next && l.next[s[i]] == Nth(s, i + 1);
    if j <= i {
      assert s'[j] == s[j] && s[j] in s && s[j] in l.next;
      assert s'[j + 1] == if j == i then n else s[j + 1];
    } else if j == i + 1 {
      assert j < |s| ==> s'[j + 1] == s[i + 1];
    } else {
      assert s'[j] == s[j - 1] && s[j - 1] in s && s[j - 1] in l.next;
      assert j < |s| ==> s'[j + 1] == s[j];
    }
  }

  lemma ChainLinkOut<V(0)>(l: Links<V>, s: seq<Node<V>>, i: nat)
    requires Chain(l, s) && i + 1 < |s|
    ensures s[i + 1] in l.next
    ensures Chain(LinkOut(l, s[i], s[i + 1]), RemoveAt(s, i + 1))
  {
    LinkOutEnds(l, s, i);
    NoRepeatsRemove(s, i + 1);
    var l', s' := LinkOut(l, s[i], s[i + 1]), RemoveAt(s, i + 1);
    RemoveAtIndex(s, i + 1);
    hide RemoveAt, NoRepeats, LinkOut;
    forall j | 0 <= j < |s'|
      ensures s'[j] in l'.prev && l'.prev[s'[j]] == Nth(s', j - 1)
      ensures s'[j] in l'.next && l'.next[s'[j]] == Nth(s', j + 1)
    {
      hide Chain, Nth;
      LinkOutPrev(l, s, i, s', j);
      LinkOutNext(l, s, i, s', j);
    }
    assert s'[0] == s[0] && s'[|s| - 2] == if i + 1 == |s| - 1 then s[i] else s[|s| - 1];
  }

  lemma NoRepeatsRemove<R>(s: seq<R>, p: nat)
    requires NoRepeats(s) && p < |s|
    ensures NoRepeats(RemoveAt(s, p))
  {
  }

  lemma LinkOutEnds<V(0)>(l: Links<V>, s: seq<Node<V>>, i: nat)
    requires Chain(l, s) && i + 1 < |s|
    ensures s[i + 1] in l.next
    ensures var l' := LinkOut(l, s[i], s[i + 1]);
            l'.head == s[0] && l'.tail == if i + 1 == |s| - 1 then s[i] else s[|s| - 1]
  {
    assert s[i + 1] in l.next;
  }

  lemma LinkOutPrev<V(0)>(l: Links<V>, s: seq<Node<V>>, i: nat, s': seq<Node<V>>, j: nat)
    requires Chain(l, s) && i + 1 < |s| && j < |s| - 1 == |s'| && s[i + 1] in l.next
    requires forall j {:trigger s'[j]} :: 0 <= j < |s| - 1 ==> s'[j] == if j < i + 1 then s[j] else s[j + 1]
    ensures var l' := LinkOut(l, s[i], s[i + 1]); s'[j] in l'.prev && l'.prev[s'[j]] == Nth(s', j - 1)
  {
    assert l.next[s[i + 1]] == Nth(s, i + 2);
    assert j > 0 ==> s'[j - 1] == if j - 1 < i + 1 then s[j - 1] else s[j];
    if j <= i {
      assert s'[j] == s[j] && s[j] in l.prev;
    } else {
      assert s'[j] == s[j + 1] && s[j + 1] in l.prev;
    }
  }

  lemma LinkOutNext<V(0)>(l: Links<V>, s: seq<Node<V>>, i: nat, s': seq<Node<V>>, j: nat)
    requires Chain(l, s) && i + 1 < |s| && j < |s| - 1 == |s'| && s[i + 1] in l.next
    requires forall j {:trigger s'[j]} :: 0 <= j < |s| - 1 ==> s'[j] == if j < i + 1 then s[j] else s[j + 1]
    ensures var l' := LinkOut(l, s[i], s[i + 1]); s'[j] in l'.next && l'.next[s'[j]] == Nth(s', j + 1)
  {
    assert l.next[s[i + 1]] == Nth(s, i + 2);
    assert j + 1 < |s'| ==> s'[j + 1] == if j + 1 < i + 1 then s[j + 1] else s[j + 2];
    if j <= i {
      assert s'[j] == s[j] && s[j] in l.next;
    } else {
      assert s'[j] == s[j + 1] && s[j + 1] in l.next;
    }
  }
}
