/** What the changes that an insertion makes in the heap mean for the trees that the heap stands for. */
module BTreeHeapInsert {
  import opened Sorted
  import opened BTree
  import opened BTreeSearch
  import opened BTreeRefs
  import opened BTreeNode
  import opened BTreeHeap
  import Ins = BTreeInsert

  type NOutcome<V(0)> = Ins.Outcome<Node<V>, V>

  /** The heap `m` holds the tree `t`, whose nodes are different from one another and all among `ns`. */
  ghost predicate Owned<V(0)>(m: Mem<V>, ns: set<Node<V>>, t: NTree<V>, h: nat) {
    Rep(m, t, h) && Distinct(Refs(t)) && forall r :: r in Refs(t) ==> r in ns
  }

  /** Of the nodes in `ns`, at most those in `s` were changed. */
  ghost predicate Outside<V(0)>(m: Mem<V>, m': Mem<V>, ns: set<Node<V>>, s: multiset<Node<V>>) {
    forall r :: r in ns ==> r in m && r in m' && (r !in s ==> m'[r] == m[r])
  }

  /** The nodes in `ns` that are not in `s` are as they were. */
  ghost predicate Kept<V(0)>(m: Mem<V>, m': Mem<V>, ns: set<Node<V>>, s: multiset<Node<V>>) {
    forall r :: r in ns && r !in s ==> r in m && r in m' && m'[r] == m[r]
  }

  /** The tree `t` became a row of trees, for which the nodes in `added` were allocated. */
  ghost predicate Became<V(0)>(m: Mem<V>, m': Mem<V>, ns: set<Node<V>>, t: NTree<V>, row: seq<NTree<V>>, h: nat,
                               added: set<Node<V>>) {
    && RowRep(m', row, h)
    && RowRefs(row) == Refs(t) + multiset(added)
    && added !! ns
    && Outside(m, m', ns, Refs(t))
  }

  ghost predicate InsertedRep<V(0)>(m: Mem<V>, m': Mem<V>, ns: set<Node<V>>, t: NTree<V>, o: NOutcome<V>, h: nat,
                                    added: set<Node<V>>) {
    if o.Present? then m' == m && added == {} else Became(m, m', ns, t, o.Row(), h, added)
  }

  // ------------------------------------------------------------------- leaves

  lemma DatasInsert<V>(s: seq<Item<V>>, i: nat, x: Item<V>)
    requires i <= |s|
    ensures Datas(InsertAt(s, i, x)) == InsertAt(Datas(s), i, x.data)
  {
  }

  lemma CutPairs<V>(s: seq<Item<V>>, i: nat)
    requires i <= |s|
    ensures Keys(s)[..i] == Keys(s[..i]) && Keys(s)[i..] == Keys(s[i..])
    ensures Datas(s)[..i] == Datas(s[..i]) && Datas(s)[i..] == Datas(s[i..])
  {
  }

  ghost function LeafOf<V(0)>(items: seq<Item<V>>): Cell<V> {
    LeafCell(Keys(items), Datas(items))
  }

  /** Putting a pair into the slots of a leaf. */
  lemma PutLeaf<V(0)>(items: seq<Item<V>>, x: Item<V>)
    ensures var i := Upper(Keys(items), x.key);
            LeafCell(InsertAt(Keys(items), i, x.key), InsertAt(Datas(items), i, x.data)) ==
              LeafOf(Ins.PutSlot(items, x))
  {
    var i := Upper(Keys(items), x.key);
    KeysInsert(items, i, x);
    DatasInsert(items, i, x);
  }

  lemma CutLeafCell<V(0)>(items: seq<Item<V>>, mid: nat)
    requires mid <= |items|
    ensures var c := LeafOf(items);
            && LeafCell(c.keys[..mid], c.data[..mid]) == LeafOf(items[..mid])
            && LeafCell(c.keys[mid..], c.data[mid..]) == LeafOf(items[mid..])
  {
    CutPairs(items, mid);
  }

  lemma OneLeaf<V(0)>(m: Mem<V>, ns: set<Node<V>>, r: Node<V>, items: seq<Item<V>>, items': seq<Item<V>>)
    requires r in m && ns <= m.Keys
    ensures Became(m, Put(m, r, LeafOf(items')), ns, Leaf(r, items), [Leaf(r, items')], 0, {})
  {
    RowRefsOne<Node<V>, V>(Leaf(r, items'));
    hide Keys, Datas;
  }

  lemma TwoLeaves<V(0)>(m: Mem<V>, m': Mem<V>, ns: set<Node<V>>, r: Node<V>, items: seq<Item<V>>, n: Node<V>,
                        left: seq<Item<V>>, right: seq<Item<V>>)
    requires r in m && n !in ns && r in m' && n in m'
    requires m'[r] == LeafOf(left) && m'[n] == LeafOf(right)
    requires forall x :: x in ns && x != r ==> x in m && x in m' && m'[x] == m[x]
    ensures Became(m, m', ns, Leaf(r, items), [Leaf(r, left), Leaf(n, right)], 0, {n})
  {
    RowRefsPair<Node<V>, V>(Leaf(r, left), Leaf(n, right));
    hide InsertAt, Keys, Datas;
    assert multiset({n}) == multiset{n};
  }

  // -------------------------------------------------------------- inner nodes

  /** The row of children with child `slot` replaced by `row`. */
  function Replaced<R, V>(kids: seq<Tree<R, V>>, slot: nat, row: seq<Tree<R, V>>): seq<Tree<R, V>>
    requires slot < |kids|
  {
    kids[..slot] + row + kids[slot + 1..]
  }

  lemma ReplacedRefs<R, V>(kids: seq<Tree<R, V>>, slot: nat, row: seq<Tree<R, V>>)
    requires slot < |kids|
    ensures RowRefs(Replaced(kids, slot, row)) + Refs(kids[slot]) == RowRefs(kids) + RowRefs(row)
  {
    RowRefsSplit(kids, slot);
    RowRefsConcat(kids[..slot] + row, kids[slot + 1..]);
    RowRefsConcat(kids[..slot], row);
  }

  lemma Cancel<R>(w: multiset<R>, k: multiset<R>, c: multiset<R>, a: multiset<R>, d: multiset<R>)
    requires w + k == c + a && a == k + d
    ensures w == c + d
  {
    forall x: R
      ensures w[x] == (c + d)[x]
    {
      assert (w + k)[x] == (c + a)[x] && a[x] == (k + d)[x];
    }
  }

  lemma SetSum<R>(a: set<R>, b: set<R>)
    requires a !! b
    ensures multiset(a + b) == multiset(a) + multiset(b)
  {
  }

  lemma SumFour<R>(r: multiset<R>, c: multiset<R>, a: multiset<R>, d: multiset<R>)
    ensures r + (c + a) + d == (r + c) + (a + d)
  {
  }

  /** The nodes of the row after child `slot` became `row`. */
  lemma WideRefs<R, V>(kids: seq<Tree<R, V>>, slot: nat, row: seq<Tree<R, V>>, added: multiset<R>)
    requires slot < |kids| && RowRefs(row) == Refs(kids[slot]) + added
    ensures RowRefs(Replaced(kids, slot, row)) == RowRefs(kids) + added
  {
    ReplacedRefs(kids, slot, row);
    hide *;
    Cancel(RowRefs(Replaced(kids, slot, row)), Refs(kids[slot]), RowRefs(kids), RowRefs(row), added);
  }

  lemma ReplacedLeaves<R, V>(kids: seq<Tree<R, V>>, slot: nat, row: seq<Tree<R, V>>)
    requires slot < |kids|
    ensures RowLeaves(Replaced(kids, slot, row)) ==
            RowLeaves(kids[..slot]) + RowLeaves(row) + RowLeaves(kids[slot + 1..])
  {
    RowLeavesConcat(kids[..slot] + row, kids[slot + 1..]);
    RowLeavesConcat(kids[..slot], row);
  }

  /** Each child of a tree is a tree of its own, apart from the node itself. */
  lemma KidOwned<V(0)>(m: Mem<V>, ns: set<Node<V>>, t: NTree<V>, h: nat, slot: nat)
    requires Owned(m, ns, t, h) && t.Inner? && slot < |t.kids|
    ensures h > 0 && Owned(m, ns, t.kids[slot], h - 1)
    ensures t.r !in Refs(t.kids[slot]) && t.r in ns
    ensures t.kids[slot].r in ns
    ensures Refs(t.kids[slot]) <= Refs(t)
  {
    InRow(t.kids, slot);
    var kid := t.kids[slot];
    assert Refs(t) == multiset{t.r} + RowRefs(t.kids);
    assert kid.r in Refs(kid);
    forall r | r in Refs(kid)
      ensures Refs(kid)[r] <= 1 && r != t.r
    {
      assert Refs(t)[r] <= 1;
    }
  }

  /** After a change of child `slot` the other children and the node itself are as before. */
  lemma RestRep<V(0)>(m: Mem<V>, m1: Mem<V>, ns: set<Node<V>>, t: NTree<V>, h: nat, slot: nat)
    requires Owned(m, ns, t, h) && t.Inner? && slot < |t.kids|
    requires Kept(m, m1, ns, Refs(t.kids[slot]))
    ensures h > 0 && RowRep(m1, t.kids[..slot], h - 1) && RowRep(m1, t.kids[slot + 1..], h - 1)
    ensures t.r in m1 && m1[t.r] == m[t.r]
  {
    KidOwned(m, ns, t, h, slot);
    forall i | 0 <= i < |t.kids| && i != slot
      ensures Rep(m1, t.kids[i], h - 1)
    {
      KidOwned(m, ns, t, h, i);
      if i < slot {
        Apart(t.kids, i, slot) by {
          RowDistinct(t);
        }
      } else {
        Apart(t.kids, slot, i) by {
          RowDistinct(t);
        }
      }
      hide Refs, Rep, RowRefs;
      assert Agree(m, m1, Refs(t.kids[i]));
      Frame(m, m1, t.kids[i], h - 1);
    }
  }

  lemma RowDistinct<R, V>(t: Tree<R, V>)
    requires t.Inner? && Distinct(Refs(t))
    ensures Distinct(RowRefs(t.kids)) && t.r !in RowRefs(t.kids)
  {
    assert Refs(t) == multiset{t.r} + RowRefs(t.kids);
    forall r | r in RowRefs(t.kids)
      ensures RowRefs(t.kids)[r] <= 1 && r != t.r
    {
      assert Refs(t)[r] <= 1;
    }
  }

  lemma OutsideBoth<V(0)>(m: Mem<V>, m1: Mem<V>, m2: Mem<V>, ns: set<Node<V>>, a: multiset<Node<V>>,
                          b: multiset<Node<V>>, c: multiset<Node<V>>)
    requires Outside(m, m1, ns, a) && Outside(m1, m2, ns, b)
    requires forall r :: r in a || r in b ==> r in c
    ensures Outside(m, m2, ns, c)
  {
  }

  lemma MakeRep<V(0)>(m: Mem<V>, r: Node<V>, keys: seq<Key>, kids: seq<NTree<V>>, h: nat)
    requires r in m && m[r] == InnerCell(h, keys, KidRefs(kids)) && h > 0 && RowRep(m, kids, h - 1)
    ensures var t := Inner(r, keys, kids);
            && Rep(m, t, h) && RowRep(m, [t], h)
            && RowRefs([t]) == multiset{r} + RowRefs(kids) + multiset{}
  {
    OneRow(m, Inner(r, keys, kids), h);
  }

  lemma OneRow<V(0)>(m: Mem<V>, t: NTree<V>, h: nat)
    requires Rep(m, t, h)
    ensures RowRep(m, [t], h) && RowRefs([t]) == Refs(t)
  {
    RowRefsOne(t);
    hide Rep, Refs;
  }

  /** What remains to be shown once the heap `m2` holds the row that replaces `t`. */
  lemma RowBecame<V(0)>(m: Mem<V>, m1: Mem<V>, m2: Mem<V>, ns: set<Node<V>>, t: NTree<V>, h: nat, slot: nat,
                        row: seq<NTree<V>>,
                        added: set<Node<V>>, row': seq<NTree<V>>, extra: set<Node<V>>)
    requires Owned(m, ns, t, h) && t.Inner? && slot < |t.kids|
    requires Became(m, m1, ns, t.kids[slot], row, h - 1, added)
    requires Outside(m1, m2, ns, multiset{t.r}) && RowRep(m2, row', h) && extra !! ns && extra !! added
    requires RowRefs(row') == multiset{t.r} + RowRefs(Replaced(t.kids, slot, row)) + multiset(extra)
    ensures Became(m, m2, ns, t, row', h, added + extra)
  {
    KidOwned(m, ns, t, h, slot);
    WideRefs(t.kids, slot, row, multiset(added));
    NodeRefs(t);
    SetSum(added, extra);
    hide Distinct, RowRefs, Refs, Replaced, Rep, RowRep;
    OutsideBoth(m, m1, m2, ns, Refs(t.kids[slot]), multiset{t.r}, Refs(t));
    hide Outside;
    SumFour(multiset{t.r}, RowRefs(t.kids), multiset(added), multiset(extra));
  }

  /** The children of the changed row, seen from the heap in which only `t.r` and new nodes differ. */
  lemma WideRep<V(0)>(m: Mem<V>, m1: Mem<V>, m2: Mem<V>, ns: set<Node<V>>, t: NTree<V>, h: nat, slot: nat,
                      row: seq<NTree<V>>,
                      added: set<Node<V>>)
    requires Owned(m, ns, t, h) && t.Inner? && slot < |t.kids|
    requires Became(m, m1, ns, t.kids[slot], row, h - 1, added)
    requires forall r :: (r in ns || r in added) && r != t.r && r in m1 ==> r in m2 && m2[r] == m1[r]
    ensures h > 0 && RowRep(m2, Replaced(t.kids, slot, row), h - 1)
  {
    KidOwned(m, ns, t, h, slot);
    RestRep(m, m1, ns, t, h, slot);
    var wide := Replaced(t.kids, slot, row);
    RowDistinct(t);
    NodeRefs(t);
    WideRefs(t.kids, slot, row, multiset(added));
    hide Distinct, RowRefs, Replaced, Rep, Refs, RowRep;
    ReplacedRep(m1, t.kids, slot, row, h - 1);
    assert forall r :: r in RowRefs(wide) ==> r != t.r && (r in ns || r in added);
    RowFrame(m1, m2, wide, h - 1);
  }

  lemma NodeRefs<R, V>(t: Tree<R, V>)
    requires t.Inner?
    ensures Refs(t) == multiset{t.r} + RowRefs(t.kids)
  {
  }

  lemma ReplacedRep<V(0)>(m: Mem<V>, kids: seq<NTree<V>>, slot: nat, row: seq<NTree<V>>, h: nat)
    requires slot < |kids| && RowRep(m, kids[..slot], h) && RowRep(m, kids[slot + 1..], h) && RowRep(m, row, h)
    ensures RowRep(m, Replaced(kids, slot, row), h)
  {
    hide Rep;
  }

  lemma CellKept<V(0)>(m: Mem<V>, m1: Mem<V>, ns: set<Node<V>>, t: NTree<V>, h: nat, slot: nat)
    requires Owned(m, ns, t, h) && t.Inner? && slot < |t.kids|
    requires Kept(m, m1, ns, Refs(t.kids[slot]))
    ensures h > 0 && t.r in ns && t.r in m1 && m1[t.r] == m[t.r] == InnerCell(h, t.keys, KidRefs(t.kids))
  {
    KidOwned(m, ns, t, h, slot);
    hide Refs;
  }

  /** Child `slot` became the single tree `kid`, at the same address. */
  lemma KidGrew<V(0)>(m: Mem<V>, m1: Mem<V>, ns: set<Node<V>>, t: NTree<V>, h: nat, slot: nat, kid: NTree<V>,
                      added: set<Node<V>>)
    requires Owned(m, ns, t, h) && t.Inner? && slot < |t.kids|
    requires Became(m, m1, ns, t.kids[slot], [kid], h - 1, added) && kid.r == t.kids[slot].r
    ensures Became(m, m1, ns, t, [Inner(t.r, t.keys, t.kids[slot := kid])], h, added)
  {
    CellKept(m, m1, ns, t, h, slot);
    assert Outside(m, m1, ns, Refs(t.kids[slot]));
    hide Distinct, RowRefs, Refs, Replaced, KidRefs, Became, Rep, RowRep, Owned;
    SwapIs(t.kids, slot, kid);
    WideRep(m, m1, m1, ns, t, h, slot, [kid], added);
    var kids' := t.kids[slot := kid];
    MakeRep(m1, t.r, t.keys, kids', h);
    RowBecame(m, m1, m1, ns, t, h, slot, [kid], added, [Inner(t.r, t.keys, kids')], {});
    assert added + {} == added;
  }

  lemma SwapIs<V(0)>(kids: seq<NTree<V>>, slot: nat, kid: NTree<V>)
    requires slot < |kids| && kid.r == kids[slot].r
    ensures kids[slot := kid] == Replaced(kids, slot, [kid])
    ensures KidRefs(kids[slot := kid]) == KidRefs(kids)
  {
  }

  /** Child `slot` became `l` and `n`, and there was room for one child more. */
  lemma KidSplitRoom<V(0)>(m: Mem<V>, m1: Mem<V>, ns: set<Node<V>>, t: NTree<V>, h: nat, slot: nat,
                           l: NTree<V>, up: Key, n: NTree<V>, added: set<Node<V>>)
    requires Owned(m, ns, t, h) && t.Inner? && |t.kids| == |t.keys| + 1 && slot < |t.kids|
    requires Became(m, m1, ns, t.kids[slot], [l, n], h - 1, added) && l.r == t.kids[slot].r
    ensures t.r in m1 && m1[t.r] == InnerCell(h, t.keys, KidRefs(t.kids))
    ensures var m2 := Put(m1, t.r, InnerCell(h, InsertAt(t.keys, slot, up), InsertAt(KidRefs(t.kids), slot + 1, n.r)));
            Became(m, m2, ns, t, [Inner(t.r, InsertAt(t.keys, slot, up), InsertAt(t.kids[slot := l], slot + 1, n))], h,
                   added)
  {
    CellKept(m, m1, ns, t, h, slot);
    assert Outside(m, m1, ns, Refs(t.kids[slot])) && added !! ns;
    hide Distinct, RowRefs, Refs, Replaced, InsertAt, KidRefs, Became, Rep, RowRep, Owned;
    var m2 := Put(m1, t.r, InnerCell(h, InsertAt(t.keys, slot, up), InsertAt(KidRefs(t.kids), slot + 1, n.r)));
    WideIs(t.kids, slot, l, n);
    WideRep(m, m1, m2, ns, t, h, slot, [l, n], added);
    var keys', kids' := InsertAt(t.keys, slot, up), InsertAt(t.kids[slot := l], slot + 1, n);
    MakeRep(m2, t.r, keys', kids', h);
    RowBecame(m, m1, m2, ns, t, h, slot, [l, n], added, [Inner(t.r, keys', kids')], {});
    assert added + {} == added;
  }

  lemma WideIs<V(0)>(kids: seq<NTree<V>>, slot: nat, l: NTree<V>, n: NTree<V>)
    requires slot < |kids| && l.r == kids[slot].r
    ensures InsertAt(kids[slot := l], slot + 1, n) == Replaced(kids, slot, [l, n])
    ensures KidRefs(InsertAt(kids[slot := l], slot + 1, n)) == InsertAt(KidRefs(kids), slot + 1, n.r)
  {
  }

  /** Cutting the row of children cuts the row of their addresses in the same way. */
  lemma CutKidRefs<V(0)>(keys: seq<Key>, kids: seq<NTree<V>>, slot: nat, l: NTree<V>, up: Key, n: NTree<V>)
    requires |kids| == |keys| + 1 && slot <= |keys| && 4 <= |keys| && l.r == kids[slot].r
    ensures var c, c' := Ins.CutAndPut(keys, kids[slot := l], slot, up, n),
            Ins.CutAndPut(keys, KidRefs(kids), slot, up, n.r);
            && c'.lkeys == c.lkeys && c'.rkeys == c.rkeys && c'.up == c.up
            && c'.lkids == KidRefs(c.lkids) && c'.rkids == KidRefs(c.rkids)
            && c.lkids + c.rkids == Replaced(kids, slot, [l, n])
  {
    hide Ins.CutAndPut, InsertAt, Replaced, KidRefs;
    SameCut(keys, kids[slot := l], KidRefs(kids), slot, up, n, n.r);
    Ins.CutAndPutIsWide(keys, kids[slot := l], slot, up, n);
    Ins.CutAndPutIsWide(keys, KidRefs(kids), slot, up, n.r);
    WideIs(kids, slot, l, n);
    HalvesRefs(InsertAt(kids[slot := l], slot + 1, n), |Ins.CutAndPut(keys, KidRefs(kids), slot, up, n.r).lkeys| + 1);
  }

  lemma SameCut<S, T>(keys: seq<Key>, kids: seq<S>, refs: seq<T>, slot: nat, up: Key, x: S, y: T)
    requires |kids| == |refs| == |keys| + 1 && slot <= |keys| && 4 <= |keys|
    ensures |Ins.CutAndPut(keys, kids, slot, up, x).lkeys| == |Ins.CutAndPut(keys, refs, slot, up, y).lkeys|
  {
    hide InsertAt;
    InsertedLengths(keys, slot, up);
  }

  lemma InsertedLengths(keys: seq<Key>, slot: nat, up: Key)
    ensures forall i: nat,
            j: nat {:trigger InsertAt(keys[..i], j, up)} :: j <= i <= |keys| ==> |InsertAt(keys[..i], j, up)| == i + 1
  {
  }

  lemma HalvesRefs<V(0)>(kids: seq<NTree<V>>, n: nat)
    requires n <= |kids|
    ensures KidRefs(kids)[..n] == KidRefs(kids[..n]) && KidRefs(kids)[n..] == KidRefs(kids[n..])
    ensures kids[..n] + kids[n..] == kids
  {
  }

  /** Child `slot` became `l` and `n`, and the node itself was cut to make room. */
  lemma KidSplitFull<V(0)>(m: Mem<V>, m1: Mem<V>, ns: set<Node<V>>, t: NTree<V>, h: nat, slot: nat,
                           l: NTree<V>, up: Key, n: NTree<V>, added: set<Node<V>>, nr: Node<V>)
    requires Owned(m, ns, t, h) && t.Inner? && |t.kids| == |t.keys| + 1 && slot < |t.kids| && 4 <= |t.keys|
    requires Became(m, m1, ns, t.kids[slot], [l, n], h - 1, added) && l.r == t.kids[slot].r
    requires nr !in ns && nr !in added
    ensures t.r in m1 && m1[t.r] == InnerCell(h, t.keys, KidRefs(t.kids))
    ensures var c, c' := Ins.CutAndPut(t.keys, t.kids[slot := l], slot, up, n),
            Ins.CutAndPut(t.keys, KidRefs(t.kids), slot, up, n.r);
            var m2 := Put(Put(m1, t.r, InnerCell(h, c'.lkeys, c'.lkids)), nr, InnerCell(h, c'.rkeys, c'.rkids));
            c'.up == c.up && Became(m, m2, ns, t, [Inner(t.r, c.lkeys, c.lkids), Inner(nr, c.rkeys, c.rkids)], h,
                                    added + {nr})
  {
    CellKept(m, m1, ns, t, h, slot);
    assert Outside(m, m1, ns, Refs(t.kids[slot])) && added !! ns;
    hide Distinct, RowRefs, Refs, Replaced, KidRefs, Became, Rep, RowRep, Owned, Ins.CutAndPut;
    var c, c' := Ins.CutAndPut(t.keys, t.kids[slot := l], slot, up, n),
        Ins.CutAndPut(t.keys, KidRefs(t.kids), slot, up, n.r);
    var m2 := Put(Put(m1, t.r, InnerCell(h, c'.lkeys, c'.lkids)), nr, InnerCell(h, c'.rkeys, c'.rkids));
    CutKidRefs(t.keys, t.kids, slot, l, up, n);
    WideRep(m, m1, m2, ns, t, h, slot, [l, n], added);
    MakePair(m2, t.r, nr, c, h);
    RowBecame(m, m1, m2, ns, t, h, slot, [l, n], added, [Inner(t.r, c.lkeys, c.lkids), Inner(nr, c.rkeys, c.rkids)],
              {nr});
  }

  lemma MakePair<V(0)>(m: Mem<V>, r: Node<V>, nr: Node<V>, c: Ins.Halves<NTree<V>>, h: nat)
    requires r in m && m[r] == InnerCell(h, c.lkeys, KidRefs(c.lkids)) && nr in m
             && m[nr] == InnerCell(h, c.rkeys, KidRefs(c.rkids))
    requires h > 0 && RowRep(m, c.lkids + c.rkids, h - 1)
    ensures var t, n := Inner(r, c.lkeys, c.lkids), Inner(nr, c.rkeys, c.rkids);
            && RowRep(m, [t, n], h)
            && RowRefs([t, n]) == multiset{r} + RowRefs(c.lkids + c.rkids) + multiset({nr})
  {
    var t, n := Inner(r, c.lkeys, c.lkids), Inner(nr, c.rkeys, c.rkids);
    RowRefsPair(t, n);
    RowRefsConcat(c.lkids, c.rkids);
    NodeRefs(t);
    NodeRefs(n);
    RowRepParts(m, c.lkids, c.rkids, h - 1);
    MakeRep(m, r, c.lkeys, c.lkids, h);
    MakeRep(m, nr, c.rkeys, c.rkids, h);
    hide *;
    PairRep(m, t, n, h);
    SumOfNodes(r, nr, RowRefs(c.lkids), RowRefs(c.rkids));
  }

  lemma PairRep<V(0)>(m: Mem<V>, t: NTree<V>, n: NTree<V>, h: nat)
    requires Rep(m, t, h) && Rep(m, n, h)
    ensures RowRep(m, [t, n], h)
  {
    hide Rep;
  }

  lemma SumOfNodes<R>(r: R, nr: R, a: multiset<R>, b: multiset<R>)
    ensures (multiset{r} + a) + (multiset{nr} + b) == multiset{r} + (a + b) + multiset({nr})
  {
    assert multiset({nr}) == multiset{nr};
  }

  lemma RowRepParts<V(0)>(m: Mem<V>, a: seq<NTree<V>>, b: seq<NTree<V>>, h: nat)
    requires RowRep(m, a + b, h)
    ensures RowRep(m, a, h) && RowRep(m, b, h)
  {
    hide Rep;
    forall i | 0 <= i < |a|
      ensures Rep(m, a[i], h)
    {
      assert (a + b)[i] == a[i];
    }
    forall i | 0 <= i < |b|
      ensures Rep(m, b[i], h)
    {
      assert (a + b)[|a| + i] == b[i];
    }
  }

  // ------------------------------------------------- one insertion, as a whole

  /**
   * What an insertion below the tree `t` did: its outcome, the heap and the leaf links it left behind, the nodes it
   * allocated, and where each of them is used.
   */
  datatype Effect<V(0)> = Effect(o: NOutcome<V>, mem: Mem<V>, links: Links<V>, added: set<Node<V>>, pool: seq<Node<V>>)

  /** The heap `m` holds `t` in the nodes `ns`, and its leaves stand in the chain between `a` and `b`. */
  ghost predicate Ready<V(0)>(p: Params, m: Mem<V>, l: Links<V>, ns: set<Node<V>>, t: NTree<V>, h: nat,
                              a: seq<Node<V>>, b: seq<Node<V>>)
  {
    && Valid(p, t, h, true) && Ordered(t) && Owned(m, ns, t, h) && ns <= m.Keys
    && Chain(l, a + Leaves(t) + b) && forall n :: n in a + Leaves(t) + b ==> n in ns
  }

  /** The effect is what `BTreeInsert.Insert` says, in the heap as well as in the chain of leaves. */
  ghost predicate Done<V(0)>(p: Params, m: Mem<V>, l: Links<V>, ns: set<Node<V>>, t: NTree<V>, h: nat,
                             a: seq<Node<V>>, b: seq<Node<V>>, x: Item<V>, e: Effect<V>)
  {
    && Valid(p, t, h, true) && |e.pool| == h + 1
    && e.o == Ins.Insert(p, t, x, e.pool)
    && InsertedRep(m, e.mem, ns, t, e.o, h, e.added)
    && if e.o.Present? then e.links == l else Chain(e.links, a + RowLeaves(e.o.Row()) + b)
  }

  lemma ReadyLeaf<V(0)>(p: Params, m: Mem<V>, l: Links<V>, ns: set<Node<V>>, t: NTree<V>, a: seq<Node<V>>,
                        b: seq<Node<V>>)
    requires Ready(p, m, l, ns, t, 0, a, b) && t.Leaf?
    ensures t.r in ns && t.r in m && m[t.r] == LeafOf(t.items) && SortedItems(t.items) && |t.items| <= p.leafMax
    ensures t.r in l.next && (l.next[t.r] != null ==> l.next[t.r] in ns)
  {
    var s := a + [t.r] + b;
    assert s[|a|] == t.r && |a| + 1 < |s| ==> s[|a| + 1] in s;
    hide NoRepeats;
  }

  /** Equal keys are not allowed, and the key is there. */
  lemma PresentDone<V(0)>(p: Params, m: Mem<V>, l: Links<V>, ns: set<Node<V>>, t: NTree<V>, a: seq<Node<V>>,
                          b: seq<Node<V>>, x: Item<V>)
    requires Ready(p, m, l, ns, t, 0, a, b) && t.Leaf?
    requires !p.duplicates && x.key in Keys(t.items)
    ensures Done(p, m, l, ns, t, 0, a, b, x,
                 Effect(Ins.Present(Ins.Iter(t.r, Lower(Keys(t.items), x.key))), m, l, {}, [t.r]))
  {
    LowerFinds(Keys(t.items), x.key);
    hide Lower, Upper, SortedItems;
  }

  /** A leaf with room took the pair. */
  lemma LeafGrewDone<V(0)>(p: Params, m: Mem<V>, l: Links<V>, ns: set<Node<V>>, t: NTree<V>, a: seq<Node<V>>,
                           b: seq<Node<V>>, x: Item<V>)
    requires Ready(p, m, l, ns, t, 0, a, b) && t.Leaf? && |t.items| < p.leafMax
    requires p.duplicates || x.key !in Keys(t.items)
    ensures var o := Ins.Grown(Ins.Iter(t.r, Upper(Keys(t.items), x.key)), Leaf(t.r, Ins.PutSlot(t.items, x)));
            Done(p, m, l, ns, t, 0, a, b, x, Effect(o, Put(m, t.r, LeafOf(Ins.PutSlot(t.items, x))), l, {}, [t.r]))
  {
    LowerFinds(Keys(t.items), x.key);
    hide Upper, Lower, Ins.PutSlot, SortedItems, Chain;
    OneLeaf(m, ns, t.r, t.items, Ins.PutSlot(t.items, x));
    RowLeavesOne<Node<V>, V>(Leaf(t.r, Ins.PutSlot(t.items, x)));
    hide Became, Put, RowLeaves;
  }

  lemma SplitChain<V(0)>(l: Links<V>, a: seq<Node<V>>, leaf: Node<V>, b: seq<Node<V>>, n: Node<V>)
    requires Chain(l, a + [leaf] + b) && n !in a + [leaf] + b
    ensures leaf in l.next && Chain(LinkIn(l, leaf, n), a + [leaf, n] + b)
  {
    hide Chain, LinkIn;
    var s := a + [leaf] + b;
    assert s[|a|] == leaf;
    ChainLinkIn(l, s, |a|, n);
    assert InsertAt(s, |a| + 1, n) == a + [leaf, n] + b;
  }

  /** Two nodes say something new. */
  ghost function Both<V(0)>(m: Mem<V>, r: Node<V>, c: Cell<V>, n: Node<V>, d: Cell<V>): Mem<V> {
    Put(Put(m, r, c), n, d)
  }

  lemma PutTwice<V(0)>(m: Mem<V>, n: Node<V>, c: Cell<V>, d: Cell<V>)
    ensures Put(Put(m, n, c), n, d) == Put(m, n, d)
  {
  }

  lemma PutSwap<V(0)>(m: Mem<V>, r: Node<V>, c: Cell<V>, n: Node<V>, d: Cell<V>)
    requires r != n
    ensures Put(Put(m, r, c), n, d) == Put(Put(m, n, d), r, c)
  {
  }

  lemma BothPut<V(0)>(m: Mem<V>, r: Node<V>, c: Cell<V>, n: Node<V>, d: Cell<V>, e: Cell<V>)
    requires r != n
    ensures Put(Both(m, r, c, n, d), r, e) == Both(m, r, e, n, d)
    ensures Put(Both(m, r, c, n, d), n, e) == Both(m, r, c, n, e)
    ensures var m' := Both(m, r, c, n, d); r in m' && n in m' && m'[r] == c && m'[n] == d
  {
    hide Put;
    BothAt(m, r, c, n, d);
    PutTwice(Put(m, r, c), n, d, e);
    PutSwap(m, r, c, n, d);
    PutTwice(Put(m, n, d), r, c, e);
    PutSwap(m, r, e, n, d);
  }

  lemma BothAt<V(0)>(m: Mem<V>, r: Node<V>, c: Cell<V>, n: Node<V>, d: Cell<V>)
    requires r != n
    ensures var m' := Both(m, r, c, n, d); r in m' && n in m' && m'[r] == c && m'[n] == d
  {
  }

  /** The heap after a leaf was split and `left` and `right` are the pairs of the two. */
  ghost function Two<V(0)>(m: Mem<V>, r: Node<V>, left: seq<Item<V>>, n: Node<V>, right: seq<Item<V>>): Mem<V> {
    Both(m, r, LeafOf(left), n, LeafOf(right))
  }

  /** A full leaf was split, and the pair went into one of the halves. */
  lemma LeafSplitDone<V(0)>(p: Params, m: Mem<V>, l: Links<V>, ns: set<Node<V>>, t: NTree<V>, a: seq<Node<V>>,
                            b: seq<Node<V>>,
                            x: Item<V>, n: Node<V>)
    requires Ready(p, m, l, ns, t, 0, a, b) && t.Leaf? && |t.items| == p.leafMax && n !in ns
    requires p.duplicates || x.key !in Keys(t.items)
    ensures t.r in l.next
    ensures var o, mid := Ins.InsertLeaf(p, t, x, n), p.leafMax / 2;
            && o.Split? && o.l.Leaf? && o.n.Leaf? && o.l.r == t.r && o.n.r == n
            && o.up == Keys(t.items)[mid - 1]
            && Done(p, m, l, ns, t, 0, a, b, x,
                    Effect(o, Two(m, t.r, o.l.items, n, o.n.items), LinkIn(l, t.r, n), {n}, [n]))
  {
    SplitOutcome(p, t, x, n);
    assert Owned(m, ns, t, 0) && ns <= m.Keys && |Leaves(t)| == 1 && Leaves(t)[0] == t.r;
    SplitChain(l, a, t.r, b, n);
    hide Chain, LinkIn, Became, RowLeaves, Ins.Insert, Ins.InsertLeaf, Two, Keys, SortedItems, Owned;
    var o := Ins.InsertLeaf(p, t, x, n);
    TwoIs(m, ns, t.r, o.l.items, n, o.n.items);
    TwoLeaves(m, Two(m, t.r, o.l.items, n, o.n.items), ns, t.r, t.items, n, o.l.items, o.n.items);
    assert [Leaf(t.r, o.l.items), Leaf(n, o.n.items)] == o.Row();
  }

  lemma SplitOutcome<R, V>(p: Params, t: Tree<R, V>, x: Item<V>, n: R)
    requires t.Leaf? && |t.items| == p.leafMax && Valid(p, t, 0, true) && SortedItems(t.items)
    requires p.duplicates || x.key !in Keys(t.items)
    ensures var o, mid := Ins.InsertLeaf(p, t, x, n), p.leafMax / 2;
            && o.Split? && o.l.Leaf? && o.n.Leaf? && o.l.r == t.r && o.n.r == n
            && o.up == Keys(t.items)[mid - 1]
            && Ins.Insert(p, t, x, [n]) == o
            && RowLeaves(o.Row()) == [t.r, n]
            && var inLeft := Lower(Keys(t.items), x.key) < mid;
            && var left, right := t.items[..mid], t.items[mid..];
            && SortedItems(left) && SortedItems(right)
            && o.l.items == (if inLeft then Ins.PutSlot(left, x) else left)
            && o.n.items == (if inLeft then right else Ins.PutSlot(right, x))
            && o.at == if inLeft then Ins.Iter(t.r, Upper(Keys(left), x.key))
               else Ins.Iter(n, Upper(Keys(right), x.key))
  {
    var o := Ins.InsertLeaf(p, t, x, n);
    LowerFinds(Keys(t.items), x.key);
    CutPairs(t.items, p.leafMax / 2);
    SortedCut(Keys(t.items), p.leafMax / 2);
    hide Lower, Upper, Ins.PutSlot;
    RowLeavesPair(o.l, o.n);
  }

  lemma SortedCut(s: seq<Key>, mid: nat)
    requires SortedKeys(s) && mid <= |s|
    ensures SortedKeys(s[..mid]) && SortedKeys(s[mid..])
  {
  }

  /** The same, step by step: the leaf is cut, and then the pair is put into the half that the slot points into. */
  lemma SplitAndPutDone<V(0)>(p: Params, m: Mem<V>, l: Links<V>, ns: set<Node<V>>, t: NTree<V>, a: seq<Node<V>>,
                              b: seq<Node<V>>,
                              x: Item<V>, n: Node<V>)
    returns (e: Effect<V>)
    requires Ready(p, m, l, ns, t, 0, a, b) && t.Leaf? && |t.items| == p.leafMax && n !in ns
    requires p.duplicates || x.key !in Keys(t.items)
    ensures t.r in l.next && t.r != n
    ensures var mid := p.leafMax / 2;
            var left, right := t.items[..mid], t.items[mid..];
            var m1, inLeft := Two(m, t.r, left, n, right), Lower(Keys(t.items), x.key) < mid;
            var q: Node<V>, half := if inLeft then t.r else n, if inLeft then left else right;
            && e.links == LinkIn(l, t.r, n) && e.added == {n} && e.o.Split? && e.o.n.r == n
            && e.o.up == t.items[mid - 1].key
            && e.o.at == Ins.Iter(q, Upper(Keys(half), x.key))
            && SortedItems(half) && q in m1 && m1[q] == LeafOf(half)
            && e.mem == Put(m1, q, LeafOf(Ins.PutSlot(half, x)))
    ensures Done(p, m, l, ns, t, 0, a, b, x, e)
  {
    hide *;
    ReadyLeaf(p, m, l, ns, t, a, b);
    LeafValid(p, m, l, ns, t, a, b);
    SplitOutcome(p, t, x, n);
    KeyIs(t.items, p.leafMax / 2 - 1);
    LeafSplitDone(p, m, l, ns, t, a, b, x, n);
    var left, right := t.items[..p.leafMax / 2], t.items[p.leafMax / 2..];
    TwoPut(m, t.r, left, n, right, Ins.PutSlot(left, x));
    TwoPut(m, t.r, left, n, right, Ins.PutSlot(right, x));
    var o := Ins.InsertLeaf(p, t, x, n);
    e := Effect(o, Two(m, t.r, o.l.items, n, o.n.items), LinkIn(l, t.r, n), {n}, [n]);
  }

  lemma LeafValid<V(0)>(p: Params, m: Mem<V>, l: Links<V>, ns: set<Node<V>>, t: NTree<V>, a: seq<Node<V>>,
                        b: seq<Node<V>>)
    requires Ready(p, m, l, ns, t, 0, a, b)
    ensures Valid(p, t, 0, true) && Fill(p, t, true)
  {
    hide Chain, Owned;
  }

  lemma KeyIs<V>(items: seq<Item<V>>, i: nat)
    requires i < |items|
    ensures |Keys(items)| == |items| && Keys(items)[i] == items[i].key
  {
  }

  lemma TwoPut<V(0)>(m: Mem<V>, r: Node<V>, left: seq<Item<V>>, n: Node<V>, right: seq<Item<V>>, items: seq<Item<V>>)
    requires r != n
    ensures Put(Two(m, r, left, n, right), r, LeafOf(items)) == Two(m, r, items, n, right)
    ensures Put(Two(m, r, left, n, right), n, LeafOf(items)) == Two(m, r, left, n, items)
    ensures var m' := Two(m, r, left, n, right); r in m' && n in m' && m'[r] == LeafOf(left) && m'[n] == LeafOf(right)
  {
    hide Both, LeafOf;
    BothPut(m, r, LeafOf(left), n, LeafOf(right), LeafOf(items));
  }

  lemma TwoIs<V(0)>(m: Mem<V>, ns: set<Node<V>>, r: Node<V>, left: seq<Item<V>>, n: Node<V>, right: seq<Item<V>>)
    requires ns <= m.Keys && r != n && n !in ns
    ensures var m' := Two(m, r, left, n, right);
            && r in m' && n in m' && m'[r] == LeafOf(left) && m'[n] == LeafOf(right)
            && forall x :: x in ns && x != r ==> x in m && x in m' && m'[x] == m[x]
  {
    hide LeafOf;
  }

  // --- inner nodes

  lemma RowChain<V(0)>(a: seq<Node<V>>, kids: seq<NTree<V>>, slot: nat, row: seq<NTree<V>>, b: seq<Node<V>>)
    requires slot < |kids|
    ensures (a + RowLeaves(kids[..slot])) + RowLeaves(row) + (RowLeaves(kids[slot + 1..]) + b)
         == a + RowLeaves(Replaced(kids, slot, row)) + b
  {
    hide RowLeaves, Replaced;
    ReplacedLeaves(kids, slot, row);
  }

  lemma KidChain<V(0)>(a: seq<Node<V>>, kids: seq<NTree<V>>, slot: nat, b: seq<Node<V>>)
    requires slot < |kids|
    ensures (a + RowLeaves(kids[..slot])) + Leaves(kids[slot]) + (RowLeaves(kids[slot + 1..]) + b) ==
            a + RowLeaves(kids) + b
  {
    hide RowLeaves, Leaves;
    RowLeavesSplit(kids, slot);
  }

  lemma InnerShape<R, V>(p: Params, t: Tree<R, V>, h: nat, root: bool, k: Key)
    requires Valid(p, t, h, root) && Ordered(t) && t.Inner?
    ensures |t.kids| == |t.keys| + 1 && 1 <= |t.keys| <= p.innerMax && h > 0 && SortedKeys(t.keys)
    ensures var slot := Lower(t.keys, k);
            && slot < |t.kids| && Valid(p, t.kids[slot], h - 1, false) && Valid(p, t.kids[slot], h - 1, true)
            && Ordered(t.kids[slot])
  {
    hide Lower, MaxKey, Flat, SortedKeys;
    KidHasKey(p, t, h, k);
    SeparatorsSorted(p, t.keys, t.kids, h - 1);
  }

  /** The child that the descent picks is ready for the insertion too. */
  lemma KidReady<V(0)>(p: Params, m: Mem<V>, l: Links<V>, ns: set<Node<V>>, t: NTree<V>, h: nat,
                       a: seq<Node<V>>, b: seq<Node<V>>, k: Key)
    requires Ready(p, m, l, ns, t, h, a, b) && t.Inner?
    ensures |t.kids| == |t.keys| + 1 && 1 <= |t.keys| <= p.innerMax && h > 0 && SortedKeys(t.keys)
    ensures t.r in ns && t.r in m && m[t.r] == InnerCell(h, t.keys, KidRefs(t.kids))
    ensures var slot := Lower(t.keys, k);
            && slot < |t.kids| && KidRefs(t.kids)[slot] == t.kids[slot].r
            && Ready(p, m, l, ns, t.kids[slot], h - 1, a + RowLeaves(t.kids[..slot]), RowLeaves(t.kids[slot + 1..]) + b)
  {
    hide Valid, Ordered, Owned, Chain, SortedKeys, Rep, RowLeaves, Lower;
    InnerShape(p, t, h, true, k);
    var slot := Lower(t.keys, k);
    KidOwned(m, ns, t, h, slot);
    OwnedCell(m, ns, t, h);
    KidChain(a, t.kids, slot, b);
  }

  lemma OwnedCell<V(0)>(m: Mem<V>, ns: set<Node<V>>, t: NTree<V>, h: nat)
    requires Owned(m, ns, t, h)
    ensures t.r in ns && t.r in m
    ensures t.Inner? && t.kids != [] ==> h > 0 && m[t.r] == InnerCell(h, t.keys, KidRefs(t.kids))
    ensures t.Leaf? ==> h == 0 && m[t.r] == LeafOf(t.items)
  {
    assert t.r in Refs(t);
  }

  /** The node that an insertion starts from stays where it is. */
  lemma KeepsNode<R, V>(p: Params, t: Tree<R, V>, x: Item<V>, pool: seq<R>)
    requires pool != [] && Valid(p, t, |pool| - 1, true)
    ensures var o := Ins.Insert(p, t, x, pool);
            (o.Grown? ==> o.t.r == t.r) && (o.Split? ==> o.l.r == t.r)
  {
    hide Lower, Ins.PutSlot, Ins.CutAndPut;
  }

  /** An insertion below a child that did not split the child. */
  lemma KidKept<V(0)>(p: Params, m: Mem<V>, l: Links<V>, ns: set<Node<V>>, t: NTree<V>, h: nat,
                      a: seq<Node<V>>, b: seq<Node<V>>, x: Item<V>, slot: nat, e: Effect<V>) returns (e': Effect<V>)
    requires Ready(p, m, l, ns, t, h, a, b) && t.Inner? && slot == Lower(t.keys, x.key) && slot < |t.kids| && h > 0
    requires Done(p, m, l, ns, t.kids[slot], h - 1, a + RowLeaves(t.kids[..slot]), RowLeaves(t.kids[slot + 1..]) + b, x,
                  e)
    requires !e.o.Split?
    ensures Done(p, m, l, ns, t, h, a, b, x, e')
    ensures e'.mem == e.mem && e'.links == e.links && e'.added == e.added && e'.o.at == e.o.at
            && e'.o.Present? == e.o.Present?
    ensures !e'.o.Split? && NewLeaves(t, e'.o) == NewLeaves(t.kids[slot], e.o)
  {
    hide Valid, Owned, Chain, RowLeaves, Leaves, Lower, Became;
    InsertStep(p, t, h, x, e.pool, t.r);
    KeepsNode(p, t.kids[slot], x, e.pool);
    var o := if e.o.Present? then e.o else Ins.Grown(e.o.at, Inner(t.r, t.keys, t.kids[slot := e.o.t]));
    e' := Effect(o, e.mem, e.links, e.added, e.pool + [t.r]);
    if e.o.Grown? {
      KidGrew(m, e.mem, ns, t, h, slot, e.o.t, e.added);
      GrownLeaves(a, t, slot, e.o.t, b);
    }
  }

  /** By how much the number of leaves grows. */
  function NewLeaves<R, V>(t: Tree<R, V>, o: Ins.Outcome<R, V>): int {
    if o.Present? then 0 else |RowLeaves(o.Row())| - |Leaves(t)|
  }

  lemma InsertStep<R, V>(p: Params, t: Tree<R, V>, h: nat, x: Item<V>, pool: seq<R>, nr: R)
    requires Valid(p, t, h, true) && t.Inner? && |pool| == h
    ensures var slot := Lower(t.keys, x.key);
            && slot < |t.kids| == |t.keys| + 1 && Valid(p, t.kids[slot], h - 1, true) && h > 0
            && var o, o' := Ins.Insert(p, t.kids[slot], x, pool), Ins.Insert(p, t, x, pool + [nr]);
            match o
            case Present(_) => o' == o
            case Grown(at, kid) => o' == Ins.Grown(at, Inner(t.r, t.keys, t.kids[slot := kid]))
            case Split(at, l, up, n) => o' == Ins.InsertInner(p, t, slot, at, l, up, n, nr)
  {
    assert (pool + [nr])[..h] == pool;
    hide Lower, Ins.InsertInner, MaxKey;
  }

  lemma GrownLeaves<V(0)>(a: seq<Node<V>>, t: NTree<V>, slot: nat, kid: NTree<V>, b: seq<Node<V>>)
    requires t.Inner? && slot < |t.kids|
    ensures var t' := Inner(t.r, t.keys, t.kids[slot := kid]);
            && (a + RowLeaves(t.kids[..slot])) + RowLeaves([kid]) + (RowLeaves(t.kids[slot + 1..]) + b) ==
               a + RowLeaves([t']) + b
            && |RowLeaves([t'])| - |Leaves(t)| == |RowLeaves([kid])| - |Leaves(t.kids[slot])|
  {
    var t' := Inner(t.r, t.keys, t.kids[slot := kid]);
    RowLeavesOne(t');
    assert t'.kids == Replaced(t.kids, slot, [kid]);
    RowChain(a, t.kids, slot, [kid], b);
    RowLeavesSplit(t.kids, slot);
    ReplacedLeaves(t.kids, slot, [kid]);
    hide RowLeaves, Replaced;
  }

  lemma WideLeaves<V(0)>(a: seq<Node<V>>, t: NTree<V>, slot: nat, row: seq<NTree<V>>, b: seq<Node<V>>,
                         row': seq<NTree<V>>)
    requires t.Inner? && slot < |t.kids| && RowLeaves(row') == RowLeaves(Replaced(t.kids, slot, row))
    ensures (a + RowLeaves(t.kids[..slot])) + RowLeaves(row) + (RowLeaves(t.kids[slot + 1..]) + b) ==
            a + RowLeaves(row') + b
    ensures |RowLeaves(row')| - |Leaves(t)| == |RowLeaves(row)| - |Leaves(t.kids[slot])|
  {
    RowChain(a, t.kids, slot, row, b);
    RowLeavesSplit(t.kids, slot);
    ReplacedLeaves(t.kids, slot, row);
    hide RowLeaves, Replaced;
  }

  /** The child was split, and this node had room for the new child. */
  lemma KidSplitRoomDone<V(0)>(p: Params, m: Mem<V>, l: Links<V>, ns: set<Node<V>>, t: NTree<V>, h: nat,
                               a: seq<Node<V>>, b: seq<Node<V>>, x: Item<V>, slot: nat, e: Effect<V>)
                                 returns (e': Effect<V>)
    requires Ready(p, m, l, ns, t, h, a, b) && t.Inner? && slot == Lower(t.keys, x.key)
             && slot < |t.kids| == |t.keys| + 1 && h > 0
    requires Done(p, m, l, ns, t.kids[slot], h - 1, a + RowLeaves(t.kids[..slot]), RowLeaves(t.kids[slot + 1..]) + b, x,
                  e)
    requires e.o.Split? && |t.keys| < p.innerMax
    ensures Done(p, m, l, ns, t, h, a, b, x, e')
    ensures t.r in e.mem && e.mem[t.r] == InnerCell(h, t.keys, KidRefs(t.kids))
    ensures e'.mem == Put(e.mem, t.r,
                          InnerCell(h, InsertAt(t.keys, slot, e.o.up), InsertAt(KidRefs(t.kids), slot + 1, e.o.n.r)))
    ensures e'.links == e.links && e'.added == e.added && e'.o.Grown? && e'.o.at == e.o.at
    ensures NewLeaves(t, e'.o) == NewLeaves(t.kids[slot], e.o)
  {
    hide Valid, Owned, Chain, RowLeaves, Leaves, Lower, Became, InsertAt, KidRefs;
    InsertStep(p, t, h, x, e.pool, t.r);
    KeepsNode(p, t.kids[slot], x, e.pool);
    KidSplitRoom(m, e.mem, ns, t, h, slot, e.o.l, e.o.up, e.o.n, e.added);
    var t' := Inner(t.r, InsertAt(t.keys, slot, e.o.up), InsertAt(t.kids[slot := e.o.l], slot + 1, e.o.n));
    var m' := Put(e.mem, t.r,
                  InnerCell(h, InsertAt(t.keys, slot, e.o.up), InsertAt(KidRefs(t.kids), slot + 1, e.o.n.r)));
    e' := Effect(Ins.Grown(e.o.at, t'), m', e.links, e.added, e.pool + [t.r]);
    WideIs(t.kids, slot, e.o.l, e.o.n);
    assert RowLeaves([t']) == RowLeaves(t'.kids) by {
      InnerLeaves(t');
    }
    WideLeaves(a, t, slot, [e.o.l, e.o.n], b, [t']);
  }

  lemma InnerLeaves<R, V>(t: Tree<R, V>)
    requires t.Inner?
    ensures RowLeaves([t]) == RowLeaves(t.kids)
  {
    RowLeavesOne(t);
  }

  /** The child was split, and this node was cut to make room. */
  lemma KidSplitFullDone<V(0)>(p: Params, m: Mem<V>, l: Links<V>, ns: set<Node<V>>, t: NTree<V>, h: nat,
                               a: seq<Node<V>>, b: seq<Node<V>>, x: Item<V>, slot: nat, e: Effect<V>, nr: Node<V>)
                                 returns (e': Effect<V>)
    requires Ready(p, m, l, ns, t, h, a, b) && t.Inner? && slot == Lower(t.keys, x.key)
             && slot < |t.kids| == |t.keys| + 1 && h > 0
    requires Done(p, m, l, ns, t.kids[slot], h - 1, a + RowLeaves(t.kids[..slot]), RowLeaves(t.kids[slot + 1..]) + b, x,
                  e)
    requires e.o.Split? && |t.keys| == p.innerMax && nr !in ns && nr !in e.added
    ensures Done(p, m, l, ns, t, h, a, b, x, e')
    ensures t.r in e.mem && e.mem[t.r] == InnerCell(h, t.keys, KidRefs(t.kids))
    ensures var c := Ins.CutAndPut(t.keys, KidRefs(t.kids), slot, e.o.up, e.o.n.r);
            && e'.mem == Both(e.mem, t.r, InnerCell(h, c.lkeys, c.lkids), nr, InnerCell(h, c.rkeys, c.rkids))
            && e'.o.Split? && e'.o.n.r == nr && e'.o.up == c.up
    ensures e'.links == e.links && e'.added == e.added + {nr} && e'.o.at == e.o.at
    ensures NewLeaves(t, e'.o) == NewLeaves(t.kids[slot], e.o)
  {
    hide Valid, Owned, Chain, RowLeaves, Leaves, Lower, Became, InsertAt, KidRefs, Ins.CutAndPut;
    InsertStep(p, t, h, x, e.pool, nr);
    KeepsNode(p, t.kids[slot], x, e.pool);
    KidSplitFull(m, e.mem, ns, t, h, slot, e.o.l, e.o.up, e.o.n, e.added, nr);
    CutKidRefs(t.keys, t.kids, slot, e.o.l, e.o.up, e.o.n);
    var c := Ins.CutAndPut(t.keys, t.kids[slot := e.o.l], slot, e.o.up, e.o.n);
    var c' := Ins.CutAndPut(t.keys, KidRefs(t.kids), slot, e.o.up, e.o.n.r);
    var l', n' := Inner(t.r, c.lkeys, c.lkids), Inner(nr, c.rkeys, c.rkids);
    e' := Effect(Ins.Split(e.o.at, l', c.up, n'),
                 Both(e.mem, t.r, InnerCell(h, c'.lkeys, c'.lkids), nr, InnerCell(h, c'.rkeys, c'.rkids)),
                 e.links, e.added + {nr}, e.pool + [nr]);
    assert RowLeaves([l', n']) == RowLeaves(c.lkids + c.rkids) by {
      PairLeaves(l', n');
    }
    WideLeaves(a, t, slot, [e.o.l, e.o.n], b, [l', n']);
  }

  lemma PairLeaves<R, V>(l: Tree<R, V>, n: Tree<R, V>)
    requires l.Inner? && n.Inner?
    ensures RowLeaves([l, n]) == RowLeaves(l.kids + n.kids)
  {
    RowLeavesPair(l, n);
    RowLeavesConcat(l.kids, n.kids);
  }

  lemma SplitCell<V(0)>(p: Params, m: Mem<V>, l: Links<V>, ns: set<Node<V>>, t: NTree<V>, h: nat,
                        a: seq<Node<V>>, b: seq<Node<V>>, x: Item<V>, slot: nat, e: Effect<V>)
    requires Ready(p, m, l, ns, t, h, a, b) && t.Inner? && slot < |t.kids| && h > 0
    requires Done(p, m, l, ns, t.kids[slot], h - 1, a + RowLeaves(t.kids[..slot]), RowLeaves(t.kids[slot + 1..]) + b, x,
                  e)
    requires !e.o.Present?
    ensures t.r in e.mem && e.mem[t.r] == InnerCell(h, t.keys, KidRefs(t.kids))
  {
    hide Valid, Chain, RowLeaves, Rep, RowRep, RowRefs, Refs, Distinct;
    CellKept(m, e.mem, ns, t, h, slot);
  }

  lemma LeafNewLeaves<V(0)>(p: Params, m: Mem<V>, l: Links<V>, ns: set<Node<V>>, t: NTree<V>,
                            a: seq<Node<V>>, b: seq<Node<V>>, x: Item<V>, e: Effect<V>)
    requires t.Leaf? && Done(p, m, l, ns, t, 0, a, b, x, e) && Fill(p, t, true)
    ensures NewLeaves(t, e.o) == |e.added|
  {
    hide Lower, Upper, Ins.PutSlot, Chain;
    if e.o.Grown? {
      RowLeavesOne(e.o.t);
      RowRefsOne(e.o.t);
    } else if e.o.Split? {
      RowLeavesPair(e.o.l, e.o.n);
      RowRefsPair(e.o.l, e.o.n);
      assert |RowRefs(e.o.Row())| == 2 && |Refs(t)| == 1;
      assert |multiset(e.added)| == |e.added|;
    }
  }

  lemma ReadyNode<V(0)>(p: Params, m: Mem<V>, l: Links<V>, ns: set<Node<V>>, t: NTree<V>, h: nat, a: seq<Node<V>>,
                        b: seq<Node<V>>)
    requires Ready(p, m, l, ns, t, h, a, b)
    ensures Owned(m, ns, t, h) && Fill(p, t, true)
  {
    hide Chain, Owned;
  }

  lemma PresentSame<V(0)>(p: Params, m: Mem<V>, l: Links<V>, ns: set<Node<V>>, t: NTree<V>, h: nat,
                          a: seq<Node<V>>, b: seq<Node<V>>, x: Item<V>, e: Effect<V>)
    requires Done(p, m, l, ns, t, h, a, b, x, e) && e.o.Present?
    ensures e.mem == m && e.links == l && e.added == {} && NewLeaves(t, e.o) == 0
  {
    hide Ins.Insert, Valid;
  }
}
