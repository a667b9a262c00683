/** Copies of trees: the same tree in other nodes, the heap while it is being built, and the image of a dumped tree. */
module BTreeImage {
  import opened Options
  import opened Sorted
  import opened BTree
  import opened BTreeRefs
  import opened BTreeNode
  import opened BTreeHeap
  import opened BTreeHeapInsert
  import opened BTreeWhole
  import opened BTreeSearch
  import opened BTreeErase
  import Run = BTreeRun

  // ------------------------------------------------------------ the same tree

  /** `c` has the shape, the keys and the pairs of `t`; its nodes may be others. */
  ghost predicate Same<R, V>(t: Tree<R, V>, c: Tree<R, V>) {
    match t
    case Leaf(_, items) => c.Leaf? && c.items == items
    case Inner(_, keys, kids) =>
      && c.Inner? && c.keys == keys && |c.kids| == |kids|
      && forall i :: 0 <= i < |kids| ==> Same(kids[i], c.kids[i])
  }

  ghost predicate SameRow<R, V>(a: seq<Tree<R, V>>, b: seq<Tree<R, V>>) {
    |a| == |b| && forall i {:trigger Same(a[i], b[i])} :: 0 <= i < |a| ==> Same(a[i], b[i])
  }

  ghost predicate SameWhole<V(0)>(w: Whole<V>, c: Whole<V>) {
    if w.None? then c.None? else c.Some? && Same(w.value, c.value)
  }

  lemma {:induction false} SameFacts<R, V>(t: Tree<R, V>, c: Tree<R, V>)
    requires Same(t, c)
    ensures Contents(c) == Contents(t) && |Leaves(c)| == |Leaves(t)| && |Refs(c)| == |Refs(t)|
    ensures MaxKey(c) == MaxKey(t) && Run.Height(c) == Run.Height(t)
    decreases t, 1
  {
    match t
    case Leaf(_, _) =>
    case Inner(_, _, kids) =>
      SameRowFacts(kids, c.kids);
      if kids != [] {
        assert Same(kids[|kids| - 1], c.kids[|kids| - 1]) && Same(kids[0], c.kids[0]);
        SameFacts(kids[|kids| - 1], c.kids[|kids| - 1]);
        SameFacts(kids[0], c.kids[0]);
      }
  }

  lemma {:induction false} SameRowFacts<R, V>(a: seq<Tree<R, V>>, b: seq<Tree<R, V>>)
    requires SameRow(a, b)
    ensures Flat(b) == Flat(a) && |RowLeaves(b)| == |RowLeaves(a)| && |RowRefs(b)| == |RowRefs(a)|
    decreases a, 0
  {
    hide Same, MaxKey, Run.Height, Contents, Leaves, Refs;
    if a != [] {
      assert Same(a[0], b[0]);
      SameFacts(a[0], b[0]);
      forall i | 0 <= i < |a[1..]|
        ensures Same(a[1..][i], b[1..][i])
      {
        assert Same(a[i + 1], b[i + 1]);
      }
      SameRowFacts(a[1..], b[1..]);
    }
  }

  /** What `verify` demands of the keys and the fill does not depend on which nodes they are in. */
  lemma {:induction false} SameValid<R, V>(p: Params, t: Tree<R, V>, c: Tree<R, V>, h: nat, root: bool)
    requires Same(t, c) && BTree.Valid(p, t, h, root)
    ensures BTree.Valid(p, c, h, root)
    decreases t
  {
    if t.Inner? {
      hide MaxKey;
      forall i | 0 <= i < |t.kids|
        ensures BTree.Valid(p, c.kids[i], h - 1, false) && MaxKey(c.kids[i]) == MaxKey(t.kids[i])
      {
        assert Same(t.kids[i], c.kids[i]);
        SameValid(p, t.kids[i], c.kids[i], h - 1, false);
        SameFacts(t.kids[i], c.kids[i]);
      }
    }
  }

  // ------------------------------------------------------ a chain under construction

  /** As `Chain`, but what follows the last leaf is open. */
  ghost predicate OpenChain<V(0)>(l: Links<V>, s: seq<Node<V>>) {
    && NoRepeats(s)
    && l.head == Nth(s, 0) && l.tail == Nth(s, |s| - 1)
    && (forall i {:trigger s[i]} :: 0 <= i < |s| ==> s[i] in l.prev && l.prev[s[i]] == Nth(s, i - 1))
    && (forall i {:trigger s[i]} :: 0 <= i < |s| ==> s[i] in l.next && (i + 1 < |s| ==> l.next[s[i]] == s[i + 1]))
  }

  /** What the last leaf of the chain says follows it. */
  ghost predicate LastNext<V(0)>(l: Links<V>, s: seq<Node<V>>, next: Node?<V>) {
    s != [] ==> s[|s| - 1] in l.next && l.next[s[|s| - 1]] == next
  }

  lemma CloseChain<V(0)>(l: Links<V>, s: seq<Node<V>>)
    requires OpenChain(l, s) && LastNext(l, s, null)
    ensures Chain(l, s)
  {
  }

  /** The leaf `n`, with these links of its own, is put at the end. */
  ghost function Appended<V(0)>(l: Links<V>, n: Node<V>, prev: Node?<V>, next: Node?<V>): Links<V> {
    if l.head == null || l.tail == null then Links(l.prev[n := prev], l.next[n := next], n, n)
    else Links(l.prev[n := l.tail], l.next[n := next][l.tail := n], l.head, n)
  }

  lemma AppendedFacts<V(0)>(l: Links<V>, n: Node<V>, prev: Node?<V>, next: Node?<V>)
    requires (l.head == null <==> l.tail == null) && l.tail != n
    ensures var l' := Appended(l, n, prev, next);
            && (forall x :: x in l.prev || x == n ==>
                  x in l'.prev && l'.prev[x] == if x == n then (if l.head == null then prev else l.tail) else l.prev[x])
            && (forall x :: x in l.next || x == n ==>
                  x in l'.next && l'.next[x] == if x == n then next else if x == l.tail then n else l.next[x])
            && l'.head == (if l.head == null then n else l.head) && l'.tail == n
  {
  }

  lemma AppendOpen<V(0)>(l: Links<V>, s: seq<Node<V>>, n: Node<V>, prev: Node?<V>, next: Node?<V>)
    requires OpenChain(l, s) && n !in s && (s == [] ==> prev == null)
    ensures OpenChain(Appended(l, n, prev, next), s + [n]) && LastNext(Appended(l, n, prev, next), s + [n], next)
  {
    var l', t := Appended(l, n, prev, next), s + [n];
    forall i | 0 <= i < |t|
      ensures t[i] in l'.prev && l'.prev[t[i]] == Nth(t, i - 1)
      ensures t[i] in l'.next && (i + 1 < |t| ==> l'.next[t[i]] == t[i + 1])
    {
      if i < |s| {
        assert t[i] == s[i] && s[i] in s;
        assert i + 1 < |s| ==> s[i] != s[|s| - 1];
      }
    }
  }

  // ------------------------------------------------------ a heap under construction

  /** The nodes of an object, what they say, how the leaves are linked, and the two counts. */
  datatype Build<V(0)> = Build(m: Mem<V>, l: Links<V>, ns: set<Node<V>>, leaves: int, inner: int)

  /** From `b` to `b'` the trees `row` and the nodes `extra` were added, and the chain was prolonged by their leaves. */
  ghost predicate Grew<V(0)>(b: Build<V>, b': Build<V>, row: seq<NTree<V>>, h: nat, extra: multiset<Node<V>>) {
    && RowRep(b'.m, row, h)
    && multiset(b'.ns) == multiset(b.ns) + extra + RowRefs(row)
    && KeptAll(b, b')
    && b'.leaves == b.leaves + |RowLeaves(row)|
    && b'.inner == b.inner + |extra| + |RowRefs(row)| - |RowLeaves(row)|
  }

  ghost predicate KeptAll<V(0)>(b: Build<V>, b': Build<V>) {
    forall x :: x in b.ns ==> x in b.m && x in b'.m && b'.m[x] == b.m[x]
  }

  lemma GrewNothing<V(0)>(b: Build<V>, b': Build<V>, h: nat, n: Node<V>)
    requires b.ns <= b.m.Keys && KeptAll(b, b') && b'.ns == b.ns + {n} && n !in b.ns
    requires b'.leaves == b.leaves && b'.inner == b.inner + 1
    ensures Grew(b, b', [], h, multiset{n})
  {
    SetSum(b.ns, {n});
    assert multiset({n}) == multiset{n};
  }

  lemma GrewLeaf<V(0)>(b: Build<V>, b': Build<V>, n: Node<V>, items: seq<Item<V>>)
    requires KeptAll(b, b') && b'.ns == b.ns + {n} && n !in b.ns && n in b'.m && b'.m[n] == LeafOf(items)
    requires b'.leaves == b.leaves + 1 && b'.inner == b.inner
    ensures Grew(b, b', [Leaf(n, items)], 0, multiset{})
  {
    var c := Leaf(n, items);
    SetSum(b.ns, {n});
    assert multiset({n}) == multiset{n};
    RowRefsOne(c);
    RowLeavesOne(c);
  }

  lemma RowMore<V(0)>(cs: seq<NTree<V>>, c: NTree<V>)
    ensures RowLeaves(cs + [c]) == RowLeaves(cs) + Leaves(c) && RowRefs(cs + [c]) == RowRefs(cs) + Refs(c)
  {
    RowLeavesConcat(cs, [c]);
    RowRefsConcat(cs, [c]);
    RowLeavesOne(c);
    RowRefsOne(c);
  }

  /** One tree more. */
  lemma GrewMore<V(0)>(b: Build<V>, b1: Build<V>, b2: Build<V>, cs: seq<NTree<V>>, c: NTree<V>, h: nat, n: Node<V>)
    requires Grew(b, b1, cs, h, multiset{n}) && Grew(b1, b2, [c], h, multiset{})
    ensures Grew(b, b2, cs + [c], h, multiset{n})
    ensures n in b1.ns && n in b2.m && n in b1.m && b2.m[n] == b1.m[n]
  {
    hide RowRefs, RowLeaves, Rep, Leaves, Refs;
    InNodes(b, b1, cs, n);
    RowMore(cs, c);
    RowRefsOne(c);
    RowLeavesOne(c);
    RowFrame(b1.m, b2.m, cs, h);
    forall i | 0 <= i < |cs + [c]|
      ensures Rep(b2.m, (cs + [c])[i], h)
    {
      assert Rep(b2.m, [c][0], h);
    }
  }

  lemma InNodes<V(0)>(b: Build<V>, b1: Build<V>, cs: seq<NTree<V>>, n: Node<V>)
    requires multiset(b1.ns) == multiset(b.ns) + multiset{n} + RowRefs(cs)
    ensures n in b1.ns && n !in b.ns && n !in RowRefs(cs) && b.ns <= b1.ns
    ensures forall x :: x in RowRefs(cs) ==> x in b1.ns
  {
    hide RowRefs;
    var all := multiset(b1.ns);
    assert all[n] <= 1;
    assert all[n] == multiset(b.ns)[n] + multiset{n}[n] + RowRefs(cs)[n];
    forall x | x in b.ns
      ensures x in b1.ns
    {
      assert all[x] == multiset(b.ns)[x] + multiset{n}[x] + RowRefs(cs)[x];
    }
    forall x | x in RowRefs(cs)
      ensures x in b1.ns
    {
      assert all[x] == multiset(b.ns)[x] + multiset{n}[x] + RowRefs(cs)[x];
      assert x in all;
    }
  }

  lemma NodeIn<V(0)>(b: Build<V>, b1: Build<V>, b2: Build<V>, cs: seq<NTree<V>>, c: NTree<V>, h: nat, n: Node<V>)
    requires Grew(b, b1, cs, h, multiset{n}) && Grew(b1, b2, [c], h, multiset{})
    ensures n in b2.ns
  {
    hide RowRefs, RowLeaves, Rep;
    GrewMore(b, b1, b2, cs, c, h, n);
    InNodes(b, b2, cs + [c], n);
  }

  /** The node above is changed. */
  lemma GrewSet<V(0)>(b: Build<V>, b1: Build<V>, cs: seq<NTree<V>>, h: nat, n: Node<V>, cell: Cell<V>)
    requires Grew(b, b1, cs, h, multiset{n})
    ensures Grew(b, b1.(m := Put(b1.m, n, cell)), cs, h, multiset{n})
  {
    hide RowRefs, RowLeaves, Rep;
    InNodes(b, b1, cs, n);
    RowFrame(b1.m, Put(b1.m, n, cell), cs, h);
  }

  /** All children are there. */
  lemma GrewInner<V(0)>(b: Build<V>, b1: Build<V>, keys: seq<Key>, cs: seq<NTree<V>>, h: nat, n: Node<V>)
    requires h > 0 && Grew(b, b1, cs, h - 1, multiset{n}) && n in b1.m && b1.m[n] == InnerCell(h, keys, KidRefs(cs))
    ensures Grew(b, b1, [Inner(n, keys, cs)], h, multiset{})
    ensures Leaves(Inner(n, keys, cs)) == RowLeaves(cs)
  {
    hide RowRefs, RowLeaves, Rep;
    var c := Inner(n, keys, cs);
    MakeRep(b1.m, n, keys, cs, h);
    RowLeavesOne(c);
    assert RowRefs([c]) == multiset{n} + RowRefs(cs);
    assert multiset(b.ns) + multiset{n} + RowRefs(cs) == multiset(b.ns) + multiset{} + (multiset{n} + RowRefs(cs));
  }

  lemma BuiltCounts<V(0)>(t: NTree<V>, c: NTree<V>, h: nat, b: Build<V>, b': Build<V>)
    requires Same(t, c) && b.ns == {} && b.leaves == b.inner == 0 && Grew(b, b', [c], h, multiset{})
    ensures b'.leaves == |Leaves(t)| && b'.leaves + b'.inner == |Refs(t)|
  {
    hide Rep, Leaves, Refs, RowRefs, RowLeaves, MaxKey;
    SameFacts(t, c);
    RowRefsOne(c);
    RowLeavesOne(c);
  }

  /** The finished copy. */
  lemma BuiltWhole<V(0)>(p: Params, t: NTree<V>, c: NTree<V>, h: nat, b: Build<V>, b': Build<V>)
    requires BTree.Valid(p, t, h, true) && Ordered(t) && Same(t, c)
    requires b.ns == {} && b.leaves == b.inner == 0 && Grew(b, b', [c], h, multiset{}) && b'.ns <= b'.m.Keys
    requires OpenChain(b'.l, Leaves(c)) && LastNext(b'.l, Leaves(c), null)
    ensures Shape(p, c.r, Some(c), b'.m, b'.l, b'.ns, Stats(|Contents(t)|, b'.leaves, b'.inner))
  {
    hide Rep, OpenChain, Leaves, Refs, RowRefs, RowLeaves, Chain, MaxKey, Below;
    BuiltCounts(t, c, h, b, b');
    SameFacts(t, c);
    SameValid(p, t, c, h, true);
    RowRefsOne(c);
    RowLeavesOne(c);
    CloseChain(b'.l, Leaves(c));
    assert multiset(b.ns) == multiset{};
    assert Rep(b'.m, [c][0], h);
    Run.HeightIs(p, c, h, true);
    WholeReady(p, b'.m, b'.l, b'.ns, c, h);
    assert |multiset(b'.ns)| == |b'.ns|;
  }

  // --------------------------------------------------------------- the image

  /**
   * A node as written to the image: a leaf with the link words it had, an inner node without its children, whose
   * addresses mean nothing to the reader.
   */
  datatype Record<V(0)> =
    | LeafRecord(keys: seq<Key>, data: seq<V>, prev: Node?<V>, next: Node?<V>)
    | InnerRecord(level: nat, keys: seq<Key>)

  /** A dumped tree: the properties in the header that must match, the number of pairs, and the nodes. */
  datatype Saved<V(0)> = Saved(header: Params, itemcount: int, records: seq<Record<V>>)

  ghost function Word<V(0)>(m: map<Node<V>, Node?<V>>, n: Node<V>): Node?<V> {
    if n in m then m[n] else null
  }

  /** The nodes of a tree in pre-order. */
  ghost function DumpOf<V(0)>(l: Links<V>, t: NTree<V>, h: nat): seq<Record<V>>
    decreases t, 1
  {
    match t
    case Leaf(r, items) => [LeafRecord(Keys(items), Datas(items), Word(l.prev, r), Word(l.next, r))]
    case Inner(_, keys, kids) => [InnerRecord(h, keys)] + RowDump(l, kids, Under(h))
  }

  ghost function RowDump<V(0)>(l: Links<V>, kids: seq<NTree<V>>, h: nat): seq<Record<V>>
    decreases kids, 0
  {
    if kids == [] then [] else DumpOf(l, kids[0], h) + RowDump(l, kids[1..], h)
  }

  function Under(h: nat): nat {
    if h == 0 then 0 else h - 1
  }

  ghost function SavedOf<V(0)>(p: Params, w: Whole<V>, l: Links<V>): Saved<V> {
    Saved(p, |Run.Pairs(w)|, if w.None? then [] else DumpOf(l, w.value, Run.Height(w.value)))
  }

  /** The image is that of a valid tree `w` whose leaves were linked by `l`. */
  ghost predicate Dumped<V(0)>(saved: Saved<V>, w: Whole<V>, l: Links<V>) {
    && saved == SavedOf(saved.header, w, l)
    && (w.Some? ==>
          && BTree.Valid(saved.header, w.value, Run.Height(w.value), true) && Ordered(w.value)
          && Chain(l, Leaves(w.value)))
  }

  lemma DumpedSome<V(0)>(saved: Saved<V>, p: Params, t: NTree<V>, l: Links<V>)
    requires saved == Saved(p, |Contents(t)|, DumpOf(l, t, Run.Height(t)))
    requires BTree.Valid(p, t, Run.Height(t), true) && Ordered(t) && Chain(l, Leaves(t))
    ensures Dumped(saved, Some(t), l)
  {
    hide DumpOf, Chain, Below;
  }

  lemma DumpedNone<V(0)>(saved: Saved<V>, p: Params, l: Links<V>)
    requires saved == Saved(p, 0, [])
    ensures Dumped(saved, None, l)
  {
  }

  lemma DumpSome<V(0)>(l: Links<V>, t: NTree<V>, h: nat)
    ensures |DumpOf(l, t, h)| > 0
  {
  }

  lemma DumpedFacts<V(0)>(saved: Saved<V>, w: Whole<V>, l: Links<V>)
    requires Dumped(saved, w, l)
    ensures saved.itemcount > 0 <==> w.Some?
    ensures w.None? ==> Run.Pairs(w) == [] && saved.records == []
    ensures w.Some? ==>
              && var t, h := w.value, Run.Height(w.value);
              && BTree.Valid(saved.header, t, h, true) && Ordered(t) && DumpAt(saved.records, 0, l, t, h)
              && |saved.records| == |DumpOf(l, t, h)| > 0
              && saved.itemcount == |Contents(t)| && Run.Pairs(w) == Contents(t)
              && Word(l.prev, LeftLeaf(t)) == null && Word(l.next, RightLeaf(t)) == null
  {
    hide DumpOf, Below, LeftLeaf, RightLeaf, Leaves;
    if w.Some? {
      var t, h := w.value, Run.Height(w.value);
      MaxKeyIsLast(saved.header, t, h, true);
      OuterLeaves(saved.header, t, h);
      assert saved.records == saved.records[0..|saved.records|];
      DumpSome(l, t, h);
    }
  }

  lemma {:induction false} RowDumpConcat<V(0)>(l: Links<V>, a: seq<NTree<V>>, b: seq<NTree<V>>, h: nat)
    ensures RowDump(l, a + b, h) == RowDump(l, a, h) + RowDump(l, b, h)
  {
    hide DumpOf;
    if a == [] {
      assert a + b == b;
    } else {
      RowDumpConcat(l, a[1..], b, h);
      assert (a + b)[1..] == a[1..] + b;
      Associate(DumpOf(l, a[0], h), RowDump(l, a[1..], h), RowDump(l, b, h));
    }
  }

  lemma RowDumpStep<V(0)>(l: Links<V>, kids: seq<NTree<V>>, h: nat, i: nat)
    requires i < |kids|
    ensures RowDump(l, kids[..i + 1], h) == RowDump(l, kids[..i], h) + DumpOf(l, kids[i], h)
  {
    hide DumpOf;
    assert kids[..i + 1] == kids[..i] + [kids[i]];
    RowDumpConcat(l, kids[..i], [kids[i]], h);
    assert [kids[i]][1..] == [];
    assert RowDump(l, [kids[i]], h) == DumpOf(l, kids[i], h) + RowDump(l, [], h);
  }

  /** The records from `pos` on are those of the tree. */
  ghost predicate DumpAt<V(0)>(records: seq<Record<V>>, pos: nat, l: Links<V>, t: NTree<V>, h: nat) {
    var d := DumpOf(l, t, h);
    pos + |d| <= |records| && records[pos..pos + |d|] == d
  }

  /** Behind the record of an inner node and those of `i` children stand the records of the next child. */
  lemma KidDumpAt<V(0)>(records: seq<Record<V>>, pos: nat, l: Links<V>, t: NTree<V>, h: nat, i: nat)
    requires t.Inner? && i < |t.kids| && DumpAt(records, pos, l, t, h)
    ensures var q := pos + 1 + |RowDump(l, t.kids[..i], Under(h))|;
            && DumpAt(records, q, l, t.kids[i], Under(h))
            && q + |DumpOf(l, t.kids[i], Under(h))| == pos + 1 + |RowDump(l, t.kids[..i + 1], Under(h))|
  {
    hide RowDump;
    var k := Under(h);
    var a, b, c := RowDump(l, t.kids[..i], k), DumpOf(l, t.kids[i], k), RowDump(l, t.kids[i + 1..], k);
    RowDumpStep(l, t.kids, k, i);
    RowDumpConcat(l, t.kids[..i + 1], t.kids[i + 1..], k);
    assert t.kids == t.kids[..i + 1] + t.kids[i + 1..];
    var d := DumpOf(l, t, h);
    assert d == [InnerRecord(h, t.keys)] + (a + b + c);
    Inside(records, pos, [InnerRecord(h, t.keys)] + a, b, c);
    assert d == [InnerRecord(h, t.keys)] + a + b + c;
  }

  lemma Inside<T>(s: seq<T>, pos: nat, a: seq<T>, b: seq<T>, c: seq<T>)
    requires pos + |a + b + c| <= |s| && s[pos..pos + |a + b + c|] == a + b + c
    ensures var q := pos + |a|; q + |b| <= |s| && s[q..q + |b|] == b
  {
    var d := a + b + c;
    assert b == d[|a|..|a| + |b|];
    assert s[pos..pos + |d|][|a|..|a| + |b|] == s[pos + |a|..pos + |a| + |b|];
  }

  lemma LeafDumpAt<V(0)>(records: seq<Record<V>>, pos: nat, l: Links<V>, t: NTree<V>, h: nat)
    requires DumpAt(records, pos, l, t, h)
    ensures pos < |records|
    ensures t.Leaf? ==> records[pos] == LeafRecord(Keys(t.items), Datas(t.items), Word(l.prev, t.r), Word(l.next, t.r))
    ensures t.Leaf? ==> |DumpOf(l, t, h)| == 1
    ensures t.Inner? ==> records[pos] == InnerRecord(h, t.keys)
    ensures t.Inner? ==> |DumpOf(l, t, h)| == 1 + |RowDump(l, t.kids, Under(h))|
  {
    var d := DumpOf(l, t, h);
    assert records[pos] == records[pos..pos + |d|][0] == d[0];
  }

  // ------------------------------------------------------- children so far

  /** The inner node `n` has its separators and, so far, the children `cs`. */
  ghost predicate Filled<V(0)>(m: Mem<V>, n: Node<V>, h: nat, keys: seq<Key>, cs: seq<NTree<V>>) {
    && n in m && m[n].InnerCell? && m[n].level == h && m[n].keys == keys
    && |cs| <= |m[n].kids| == |keys| + 1 && m[n].kids[..|cs|] == KidRefs(cs)
  }

  lemma FilledMore<V(0)>(m: Mem<V>, n: Node<V>, h: nat, keys: seq<Key>, cs: seq<NTree<V>>, c: NTree<V>)
    requires Filled(m, n, h, keys, cs) && |cs| <= |keys|
    ensures Filled(Put(m, n, InnerCell(h, keys, m[n].kids[|cs| := c.r])), n, h, keys, cs + [c])
  {
    var k := m[n].kids[|cs| := c.r];
    assert k[..|cs| + 1] == m[n].kids[..|cs|] + [c.r];
    assert KidRefs(cs + [c]) == KidRefs(cs) + [c.r];
  }

  lemma FilledDone<V(0)>(m: Mem<V>, n: Node<V>, h: nat, keys: seq<Key>, cs: seq<NTree<V>>)
    requires Filled(m, n, h, keys, cs) && |cs| == |keys| + 1
    ensures m[n] == InnerCell(h, keys, KidRefs(cs))
  {
    assert m[n].kids == m[n].kids[..|cs|];
  }

  lemma FilledKept<V(0)>(m: Mem<V>, m': Mem<V>, n: Node<V>, h: nat, keys: seq<Key>, cs: seq<NTree<V>>)
    requires Filled(m, n, h, keys, cs) && n in m' && m'[n] == m[n]
    ensures Filled(m', n, h, keys, cs)
  {
  }

  lemma SameRowMore<R, V>(a: seq<Tree<R, V>>, b: seq<Tree<R, V>>, i: nat, c: Tree<R, V>)
    requires i < |a| && SameRow(a[..i], b) && Same(a[i], c)
    ensures SameRow(a[..i + 1], b + [c])
  {
    hide Same;
    forall j | 0 <= j < i + 1
      ensures Same(a[..i + 1][j], (b + [c])[j])
    {
      assert j < i ==> Same(a[..i][j], b[j]);
    }
  }

  lemma SameInner<R, V>(t: Tree<R, V>, r: R, cs: seq<Tree<R, V>>)
    requires t.Inner? && SameRow(t.kids, cs)
    ensures Same(t, Inner(r, t.keys, cs))
  {
  }

  lemma SameLeaf<R, V>(t: Tree<R, V>, r: R)
    requires t.Leaf?
    ensures Same(t, Leaf(r, t.items))
  {
  }

  /** The last leaf of a tree. */
  function RightLeaf<R, V>(t: Tree<R, V>): R {
    match t
    case Leaf(r, _) => r
    case Inner(r, _, kids) => if kids == [] then r else RightLeaf(kids[|kids| - 1])
  }

  function LeftLeaf<R, V>(t: Tree<R, V>): R {
    match t
    case Leaf(r, _) => r
    case Inner(r, _, kids) => if kids == [] then r else LeftLeaf(kids[0])
  }

  lemma {:induction false} OuterLeaves<R, V>(p: Params, t: Tree<R, V>, h: nat)
    requires Below(p, t, h)
    ensures |Leaves(t)| > 0 && Leaves(t)[0] == LeftLeaf(t) && Leaves(t)[|Leaves(t)| - 1] == RightLeaf(t)
    decreases t
  {
    if t.Inner? {
      var n := |t.kids| - 1;
      OuterLeaves(p, t.kids[0], h - 1);
      OuterLeaves(p, t.kids[n], h - 1);
      RowLeavesSplit(t.kids, n);
      RowLeavesSplit(t.kids, 0);
    }
  }

  // ------------------------------------------------------------------- freeing

  lemma FreedRow<V(0)>(ns0: set<Node<V>>, ns: set<Node<V>>, t: NTree<V>, i: nat)
    requires t.Inner? && i < |t.kids| && Refs(t) <= multiset(ns0)
    requires multiset(ns) + RowRefs(t.kids[..i]) == multiset(ns0)
    ensures Refs(t.kids[i]) <= multiset(ns) && t.r in ns
  {
    hide Refs, RowRefs;
    RefsOf(t);
    RowRefsSplit(t.kids, i);
    var a, b, c := RowRefs(t.kids[..i]), Refs(t.kids[i]), RowRefs(t.kids[i + 1..]);
    Remain(multiset{t.r}, a, b, c, multiset(ns));
    assert t.r in multiset{t.r};
  }

  lemma Remain<T>(r: multiset<T>, a: multiset<T>, b: multiset<T>, c: multiset<T>, n: multiset<T>)
    requires r + (a + b + c) <= n + a
    ensures b <= n && forall x :: x in r ==> x in n
  {
    forall x: T
      ensures r[x] + b[x] <= n[x]
    {
      assert (r + (a + b + c))[x] <= (n + a)[x];
    }
  }

  lemma RefsOf<R, V>(t: Tree<R, V>)
    requires t.Inner?
    ensures Refs(t) == multiset{t.r} + RowRefs(t.kids)
  {
  }

  lemma FreedOne<V(0)>(ns0: set<Node<V>>, ns: set<Node<V>>, ns1: set<Node<V>>, kids: seq<NTree<V>>, i: nat)
    requires i < |kids| && multiset(ns) + RowRefs(kids[..i]) == multiset(ns0)
    requires multiset(ns1) + Refs(kids[i]) == multiset(ns) + multiset{kids[i].r}
    ensures kids[i].r in ns1 ==> multiset(ns1 - {kids[i].r}) + RowRefs(kids[..i + 1]) == multiset(ns0)
  {
    hide Refs, RowRefs;
    RowRefsSplit(kids[..i + 1], i);
    assert kids[..i + 1][..i] == kids[..i] && kids[..i + 1][i + 1..] == [];
    RowRefsNone<Node<V>, V>();
    var r := kids[i].r;
    if r in ns1 {
      SetSum(ns1 - {r}, {r});
      assert ns1 - {r} + {r} == ns1;
      assert multiset({r}) == multiset{r};
      Moved(multiset(ns1 - {r}), multiset{r}, Refs(kids[i]), multiset(ns), RowRefs(kids[..i]));
    }
  }

  lemma RowRefsNone<R, V>()
    ensures RowRefs<R, V>([]) == multiset{}
  {
  }

  lemma Moved<T>(a: multiset<T>, r: multiset<T>, k: multiset<T>, n: multiset<T>, f: multiset<T>)
    requires a + r + k == n + r
    ensures a + (f + k) == n + f
  {
    forall x: T
      ensures (a + (f + k))[x] == (n + f)[x]
    {
      assert (a + r + k)[x] == (n + r)[x];
    }
  }

  // ------------------------------------------------------------ images that are cut short

  function Least(a: nat, b: nat): nat {
    if a <= b then a else b
  }

  /** The image `saved` is `full`, or what is left of it when its end is missing. */
  ghost predicate CutFrom<V(0)>(saved: Saved<V>, full: Saved<V>) {
    saved.header == full.header && saved.itemcount == full.itemcount && saved.records <= full.records
  }

  lemma CutIs<V(0)>(saved: Saved<V>, full: Saved<V>)
    requires CutFrom(saved, full)
    ensures saved.header == full.header && saved.itemcount == full.itemcount && saved.records <= full.records
    ensures saved == full <==> |saved.records| == |full.records|
  {
  }

  /** A child is missing. */
  ghost predicate Hole<V(0)>(b: Build<V>, n: Node<V>, i: nat) {
    n in b.ns && n in b.m && b.m[n].InnerCell? && i < |b.m[n].kids| && b.m[n].kids[i] == null
  }

  ghost predicate CellFor<V(0)>(m: Mem<V>, n: Node<V>, h: nat, keys: seq<Key>) {
    n in m && m[n].InnerCell? && m[n].level == h && m[n].keys == keys && |m[n].kids| == |keys| + 1
  }

  /** What reading one node and all below it has come to: the tree if all of it was there, a hole if not. */
  datatype Reading<V(0)> = Reading(b: Build<V>, s: seq<Node<V>>, cs: seq<NTree<V>>, gap: Node?<V>, place: nat)

  /** Node `r` was made for the records of `t`, which begin at `at` in the whole image. */
  ghost predicate ReadNode<V(0)>(size: nat, at: nat, sl: Links<V>, t: NTree<V>, h: nat, b: Build<V>, s: seq<Node<V>>,
                                 r: Node?<V>, g: Reading<V>)
  {
    && KeptAll(b, g.b) && b.ns <= g.b.ns
    && if at + |DumpOf(sl, t, h)| <= size then
         && |g.cs| == 1 && g.cs[0].r == r && Same(t, g.cs[0]) && Grew(b, g.b, g.cs, h, multiset{})
         && g.s == s + Leaves(g.cs[0]) && g.s != [] && LastNext(g.b.l, g.s, Word(sl.next, RightLeaf(t)))
       else
         && (r == null <==> at >= size)
         && (r == null ==> g == Reading(b, s, [], null, 0))
         && (r != null ==> r in g.b.ns && r !in b.ns && g.gap != null && g.gap !in b.ns && Hole(g.b, g.gap, g.place))
  }

  /** Node `r` has been made, and the first `slot` of its children have been read. */
  ghost predicate ReadKids<V(0)>(size: nat, at: nat, sl: Links<V>, t: NTree<V>, h: nat, b: Build<V>, s: seq<Node<V>>,
                                 r: Node<V>, slot: nat, g: Reading<V>)
  {
    && t.Inner? && h > 0 && slot <= |t.kids| == |t.keys| + 1
    && CellFor(g.b.m, r, h, t.keys) && r in g.b.ns && r !in b.ns && KeptAll(b, g.b) && b.ns <= g.b.ns
    && if at + 1 + |RowDump(sl, t.kids[..slot], h - 1)| <= size then
         && |g.cs| == slot && g.s == s + RowLeaves(g.cs) && Grew(b, g.b, g.cs, h - 1, multiset{r})
         && Filled(g.b.m, r, h, t.keys, g.cs) && SameRow(t.kids[..slot], g.cs)
         && (slot > 0 ==> g.s != [] && LastNext(g.b.l, g.s, Word(sl.next, RightLeaf(t.kids[slot - 1]))))
       else
         && slot > 0 && g.gap != null && g.gap !in b.ns && Hole(g.b, g.gap, g.place)
         && (g.gap == r ==> g.place < slot)
  }

  lemma NoNode<V(0)>(size: nat, at: nat, sl: Links<V>, t: NTree<V>, h: nat, b: Build<V>, s: seq<Node<V>>)
    requires at >= size && b.ns <= b.m.Keys
    ensures ReadNode(size, at, sl, t, h, b, s, null, Reading(b, s, [], null, 0))
    ensures |DumpOf(sl, t, h)| > 0
  {
    hide RowDump;
  }

  lemma LeafRead<V(0)>(size: nat, at: nat, sl: Links<V>, t: NTree<V>, b: Build<V>, b': Build<V>, s: seq<Node<V>>,
                       r: Node<V>)
    requires t.Leaf? && at < size && b.ns <= b'.ns && Grew(b, b', [Leaf(r, t.items)], 0, multiset{})
    requires LastNext(b'.l, s + [r], Word(sl.next, t.r))
    ensures ReadNode(size, at, sl, t, 0, b, s, r, Reading(b', s + [r], [Leaf(r, t.items)], null, 0))
  {
    hide LastNext, Grew;
    var c := Leaf(r, t.items);
    assert Leaves(c) == [r];
    GrewKept(b, b', [c], 0, multiset{});
  }

  lemma GrewKept<V(0)>(b: Build<V>, b': Build<V>, row: seq<NTree<V>>, h: nat, extra: multiset<Node<V>>)
    requires Grew(b, b', row, h, extra)
    ensures KeptAll(b, b')
  {
  }

  lemma KidsBegin<V(0)>(size: nat, at: nat, sl: Links<V>, t: NTree<V>, h: nat, b: Build<V>, b': Build<V>,
                        s: seq<Node<V>>, r: Node<V>)
    requires t.Inner? && h > 0 && |t.kids| == |t.keys| + 1 && at < size && b'.ns == b.ns + {r} && r !in b.ns
    requires Grew(b, b', [], h - 1, multiset{r}) && Filled(b'.m, r, h, t.keys, [])
    ensures ReadKids(size, at, sl, t, h, b, s, r, 0, Reading(b', s, [], null, 0))
  {
    assert t.kids[..0] == [];
    assert s + RowLeaves<Node<V>, V>([]) == s;
  }

  /** The next child is there in full. */
  lemma KidWhole<V(0)>(size: nat, at: nat, sl: Links<V>, t: NTree<V>, h: nat, b: Build<V>, s: seq<Node<V>>, r: Node<V>,
                       slot: nat, g: Reading<V>, k: Reading<V>, b3: Build<V>, kid: Node?<V>)
    requires ReadKids(size, at, sl, t, h, b, s, r, slot, g) && slot < |t.kids|
    requires at + 1 + |RowDump(sl, t.kids[..slot + 1], h - 1)| <= size && |k.cs| == 1 && k.b.l == b3.l
    requires var q := at + 1 + |RowDump(sl, t.kids[..slot], h - 1)|;
             && q + |DumpOf(sl, t.kids[slot], h - 1)| == at + 1 + |RowDump(sl, t.kids[..slot + 1], h - 1)|
             && ReadNode(size, q, sl, t.kids[slot], h - 1, g.b, g.s, kid, k)
    requires Grew(b, b3, g.cs + k.cs, h - 1, multiset{r}) && Filled(b3.m, r, h, t.keys, g.cs + k.cs)
    requires b3.ns == k.b.ns && r in b3.ns
    ensures ReadKids(size, at, sl, t, h, b, s, r, slot + 1, Reading(b3, k.s, g.cs + k.cs, null, 0))
  {
    hide DumpOf, RowDump, Grew, Same, LastNext, KeptAll, RightLeaf;
    var c := k.cs[0];
    assert k.cs == [c];
    GrewKept(b, b3, g.cs + k.cs, h - 1, multiset{r});
    FilledCell(b3.m, r, h, t.keys, g.cs + k.cs);
    SameRowMore(t.kids, g.cs, slot, c);
    RowMore(g.cs, c);
  }

  lemma FilledCell<V(0)>(m: Mem<V>, n: Node<V>, h: nat, keys: seq<Key>, cs: seq<NTree<V>>)
    requires Filled(m, n, h, keys, cs)
    ensures CellFor(m, n, h, keys)
  {
  }

  /** The next child is not there, or not in full: its pointer, null or not, is stored all the same. */
  lemma KidCut<V(0)>(size: nat, at: nat, sl: Links<V>, t: NTree<V>, h: nat, b: Build<V>, s: seq<Node<V>>, r: Node<V>,
                     slot: nat, g: Reading<V>, k: Reading<V>, kid: Node?<V>)
    requires ReadKids(size, at, sl, t, h, b, s, r, slot, g) && slot < |t.kids|
    requires at + 1 + |RowDump(sl, t.kids[..slot + 1], h - 1)| > size
    requires var q := at + 1 + |RowDump(sl, t.kids[..slot], h - 1)|;
             && q + |DumpOf(sl, t.kids[slot], h - 1)| == at + 1 + |RowDump(sl, t.kids[..slot + 1], h - 1)|
             && ReadNode(size, q, sl, t.kids[slot], h - 1, g.b, g.s, kid, k)
    ensures CellFor(k.b.m, r, h, t.keys) && r in k.b.ns
    ensures var b3 := k.b.(m := Put(k.b.m, r, InnerCell(h, t.keys, k.b.m[r].kids[slot := kid])));
            ReadKids(size, at, sl, t, h, b, s, r, slot + 1,
                     Reading(b3, k.s, [], if kid == null then r else k.gap, if kid == null then slot else k.place))
  {
    hide DumpOf, RowDump, Grew, Same, LastNext, RightLeaf, Filled, SameRow;
  }

  /** The node above still has its separators when its next child has been read. */
  lemma KidCell<V(0)>(size: nat, at: nat, sl: Links<V>, t: NTree<V>, h: nat, b: Build<V>, s: seq<Node<V>>, r: Node<V>,
                      slot: nat, g: Reading<V>, k: Reading<V>, kid: Node?<V>)
    requires ReadKids(size, at, sl, t, h, b, s, r, slot, g) && slot < |t.kids|
    requires ReadNode(size, at + 1 + |RowDump(sl, t.kids[..slot], h - 1)|, sl, t.kids[slot], h - 1, g.b, g.s, kid, k)
    ensures CellFor(k.b.m, r, h, t.keys) && r in k.b.ns && k.b.m[r] == g.b.m[r]
  {
    hide DumpOf, RowDump, Grew, Same, LastNext, RightLeaf, Filled, SameRow;
  }

  /** One child more, there in full or not. */
  lemma KidRead<V(0)>(size: nat, at: nat, sl: Links<V>, t: NTree<V>, h: nat, b: Build<V>, s: seq<Node<V>>, r: Node<V>,
                      slot: nat, g: Reading<V>, k: Reading<V>, kid: Node?<V>)
    returns (next: Reading<V>)
    requires ReadKids(size, at, sl, t, h, b, s, r, slot, g) && slot < |t.kids|
    requires var q := at + 1 + |RowDump(sl, t.kids[..slot], h - 1)|;
             && q + |DumpOf(sl, t.kids[slot], h - 1)| == at + 1 + |RowDump(sl, t.kids[..slot + 1], h - 1)|
             && ReadNode(size, q, sl, t.kids[slot], h - 1, g.b, g.s, kid, k)
    ensures CellFor(k.b.m, r, h, t.keys)
    ensures next.b == k.b.(m := Put(k.b.m, r, InnerCell(h, t.keys, k.b.m[r].kids[slot := kid]))) && next.s == k.s
    ensures ReadKids(size, at, sl, t, h, b, s, r, slot + 1, next)
  {
    hide *;
    ReadKidsIs(size, at, sl, t, h, b, s, r, slot, g);
    ReadNodeIs(size, at + 1 + |RowDump(sl, t.kids[..slot], h - 1)|, sl, t.kids[slot], h - 1, g.b, g.s, kid, k);
    KidCell(size, at, sl, t, h, b, s, r, slot, g, k, kid);
    CellIsFor(k.b.m, r, h, t.keys);
    var cell := InnerCell(h, t.keys, k.b.m[r].kids[slot := kid]);
    var b3 := k.b.(m := Put(k.b.m, r, cell));
    if at + 1 + |RowDump(sl, t.kids[..slot + 1], h - 1)| <= size {
      var c := k.cs[0];
      assert k.cs == [c];
      GrewMore(b, g.b, k.b, g.cs, c, h - 1, r);
      FilledKept(g.b.m, k.b.m, r, h, t.keys, g.cs);
      FilledMore(k.b.m, r, h, t.keys, g.cs, c);
      GrewSet(b, k.b, g.cs + [c], h - 1, r, cell);
      NodeIn(b, g.b, k.b, g.cs, c, h - 1, r);
      KidWhole(size, at, sl, t, h, b, s, r, slot, g, k, b3, kid);
      next := Reading(b3, k.s, g.cs + k.cs, null, 0);
    } else {
      KidCut(size, at, sl, t, h, b, s, r, slot, g, k, kid);
      next := Reading(b3, k.s, [], if kid == null then r else k.gap, if kid == null then slot else k.place);
    }
  }

  lemma ReadKidsIs<V(0)>(size: nat, at: nat, sl: Links<V>, t: NTree<V>, h: nat, b: Build<V>, s: seq<Node<V>>,
                         r: Node<V>, slot: nat, g: Reading<V>)
    requires ReadKids(size, at, sl, t, h, b, s, r, slot, g)
    ensures t.Inner? && h > 0 && slot <= |t.kids| == |t.keys| + 1
    ensures at + 1 + |RowDump(sl, t.kids[..slot], h - 1)| <= size ==>
              && |g.cs| == slot && Grew(b, g.b, g.cs, h - 1, multiset{r}) && Filled(g.b.m, r, h, t.keys, g.cs)
              && (slot > 0 ==> g.s != []) && g.s == s + RowLeaves(g.cs)
  {
    hide DumpOf, RowDump, Grew, Same, LastNext, RightLeaf, Filled, SameRow, KeptAll, CellFor, RowLeaves;
  }

  lemma ReadNodeIs<V(0)>(size: nat, at: nat, sl: Links<V>, t: NTree<V>, h: nat, b: Build<V>, s: seq<Node<V>>,
                         r: Node?<V>, g: Reading<V>)
    requires ReadNode(size, at, sl, t, h, b, s, r, g)
    ensures at + |DumpOf(sl, t, h)| <= size ==>
              && |g.cs| == 1 && g.cs[0].r == r && Same(t, g.cs[0]) && Grew(b, g.b, [g.cs[0]], h, multiset{})
              && g.s == s + Leaves(g.cs[0]) && LastNext(g.b.l, g.s, Word(sl.next, RightLeaf(t)))
    ensures at + |DumpOf(sl, t, h)| > size ==>
              && (r == null <==> at >= size)
              && (r == null ==> g == Reading(b, s, [], null, 0))
              && (r != null ==> g.gap != null && Hole(g.b, g.gap, g.place))
    ensures b.ns <= g.b.ns
  {
    hide DumpOf, Grew, Same, LastNext, RightLeaf, KeptAll, Hole, Leaves;
    assert |g.cs| == 1 ==> g.cs == [g.cs[0]];
  }

  lemma CellIsFor<V(0)>(m: Mem<V>, n: Node<V>, h: nat, keys: seq<Key>)
    requires CellFor(m, n, h, keys)
    ensures n in m && m[n].InnerCell? && m[n].level == h && m[n].keys == keys && |m[n].kids| == |keys| + 1
  {
  }

  /** All children are there. */
  lemma KidsDone<V(0)>(size: nat, at: nat, sl: Links<V>, t: NTree<V>, h: nat, b: Build<V>, s: seq<Node<V>>, r: Node<V>,
                       g: Reading<V>)
    requires t.Inner? && ReadKids(size, at, sl, t, h, b, s, r, |t.kids|, g)
    requires at < size
    ensures var c := Inner(r, t.keys, g.cs);
            ReadNode(size, at, sl, t, h, b, s, r, g.(cs := [c]))
  {
    hide DumpOf, RowDump, Grew, Same, LastNext, KeptAll, Filled;
    assert t.kids[..|t.kids|] == t.kids;
    InnerDump(sl, t, h);
    if at + 1 + |RowDump(sl, t.kids, h - 1)| <= size {
      SameInner(t, r, g.cs);
      FilledDone(g.b.m, r, h, t.keys, g.cs);
      FilledCell(g.b.m, r, h, t.keys, g.cs);
      GrewInner(b, g.b, t.keys, g.cs, h, r);
      assert RightLeaf(t) == RightLeaf(t.kids[|t.kids| - 1]);
    }
  }

  lemma InnerDump<V(0)>(l: Links<V>, t: NTree<V>, h: nat)
    requires t.Inner? && h > 0
    ensures |DumpOf(l, t, h)| == 1 + |RowDump(l, t.kids, h - 1)|
  {
  }

  /** A tree has no holes. */
  lemma {:induction false} NoHoles<V(0)>(p: Params, m: Mem<V>, t: NTree<V>, h: nat, n: Node<V>, i: nat)
    requires Rep(m, t, h) && Below(p, t, h) && n in Refs(t) && n in m && m[n].InnerCell? && i < |m[n].kids|
    ensures m[n].kids[i] != null
    decreases t, 1
  {
    if t.Inner? && n != t.r {
      assert n in RowRefs(t.kids);
      NoRowHoles(p, m, t.kids, h - 1, n, i);
    }
  }

  lemma {:induction false} NoRowHoles<V(0)>(p: Params, m: Mem<V>, kids: seq<NTree<V>>, h: nat, n: Node<V>, i: nat)
    requires forall j {:trigger kids[j]} :: 0 <= j < |kids| ==> Rep(m, kids[j], h) && Below(p, kids[j], h)
    requires n in RowRefs(kids) && n in m && m[n].InnerCell? && i < |m[n].kids|
    ensures m[n].kids[i] != null
    decreases kids, 0
  {
    if n in Refs(kids[0]) {
      assert Rep(m, kids[0], h);
      NoHoles(p, m, kids[0], h, n, i);
    } else {
      NoRowHoles(p, m, kids[1..], h, n, i);
    }
  }
}
