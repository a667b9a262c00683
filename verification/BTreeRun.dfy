/** Whole trees: one insertion or deletion at the root, and every run of them. */
module BTreeRun {
  import opened Options
  import opened Sorted
  import opened BTree
  import opened BTreeSearch
  import Ins = BTreeInsert
  import opened BTreeErase
  import opened BTreeEraseProof

  function Height<R, V>(t: Tree<R, V>): nat {
    if t.Leaf? || t.kids == [] then 0 else 1 + Height(t.kids[0])
  }

  lemma {:induction false} HeightIs<R, V>(p: Params, t: Tree<R, V>, h: nat, root: bool)
    requires Valid(p, t, h, root)
    ensures Height(t) == h
    decreases t
  {
    if t.Inner? {
      HeightIs(p, t.kids[0], h - 1, false);
    }
  }

  function Pairs<R, V>(t: Option<Tree<R, V>>): seq<Item<V>> {
    if t.None? then [] else Contents(t.value)
  }

  lemma SplitRoot<R, V>(p: Params, h: nat, r: R, l: Tree<R, V>, up: Key, n: Tree<R, V>)
    requires Valid(p, l, h, false) && Valid(p, n, h, false) && up == MaxKey(l)
    ensures Valid(p, Inner(r, [up], [l, n]), h + 1, true)
  {
    hide Below, Fill, MaxKey;
    assert Exact([up], [l, n]) && AllValid(p, [l, n], h);
    MakeInner(p, r, [up], [l, n], h + 1, true);
  }

  /** Deletion takes away exactly the first pair with the key, if there is one, and is never stuck. */
  lemma EraseRootCorrect<R, V>(p: Params, t: Tree<R, V>, h: nat, k: Key)
    requires Valid(p, t, h, true) && Ordered(t)
    ensures var o := EraseRoot(p, t, k);
            if k in Keys(Contents(t)) then
              && o.RootErased?
              && var i := FirstAt(Contents(t), k);
              && i < |Contents(t)| && Contents(t)[i].key == k
              && Pairs(o.t) == RemoveAt(Contents(t), i)
              && (o.t.None? <==> |Contents(t)| == 1)
              && (o.t.Some? ==>
                    && (Valid(p, o.t.value, h, true) || (h > 0 && Valid(p, o.t.value, h - 1, true)))
                    && Ordered(o.t.value))
            else
              o.RootNotFound?
  {
    var c := Contents(t);
    LowerFinds(Keys(c), k);
    KeysAt(c);
    if k in Keys(c) {
      var i := FirstAt(c, k);
      assert SortedItems(RemoveAt(c, i)) by {
        KeysRemove(c, i);
        RemoveSorted(Keys(c), i);
      }
    }
    if t.Inner? {
      EraseInnerRoot(p, t, h, k);
    }
  }

  lemma EraseInnerRoot<R, V>(p: Params, t: Tree<R, V>, h: nat, k: Key)
    requires Valid(p, t, h, true) && Ordered(t) && t.Inner?
    ensures var o := EraseRoot(p, t, k);
            if k in Keys(Contents(t)) then
              && o.RootErased? && o.t.Some?
              && var i := FirstAt(Contents(t), k);
              && i < |Contents(t)| && Contents(t)[i].key == k
              && Contents(o.t.value) == RemoveAt(Contents(t), i)
              && |Contents(t)| > 1
              && (Valid(p, o.t.value, h, true) || Valid(p, o.t.value, h - 1, true))
            else
              o.RootNotFound?
  {
    hide EraseBelow, Flat, Keys, Lower, MaxKey, DropEmptied, SortedItems;
    var s := Lower(t.keys, k);
    var l, r := LeftOf(t, s, None), RightOf(t, s, None);
    EraseBelowCorrect(p, t, h - 1, s, l, r, k);
    var o := EraseBelow(p, t, s, l, r, k);
    if k in Keys(Contents(t)) {
      var q := Settle(o, s);
      if q.keys == [] {
        hide Below;
        SingleKid(q);
        KidNotEmpty(p, q, h, q.kids[0]);
      } else {
        MakeInner(p, q.r, q.keys, q.kids, h, true);
        KidNotEmpty(p, q, h, q.kids[0]);
      }
    }
  }

  lemma SingleKid<R, V>(q: Tree<R, V>)
    requires q.Inner? && |q.kids| == 1
    ensures Contents(q) == Contents(q.kids[0])
  {
    FlatOne(q.kids[0]);
    assert q.kids == [q.kids[0]];
  }

  lemma KidNotEmpty<R, V>(p: Params, q: Tree<R, V>, h: nat, kid: Tree<R, V>)
    requires q.Inner? && q.kids != [] && kid == q.kids[0] && h > 0 && Valid(p, kid, h - 1, false)
    ensures |Flat(q.kids)| > 0
  {
    FlatSplit(q.kids, 0);
    MaxKeyIsLast(p, kid, h - 1, false);
  }
}
