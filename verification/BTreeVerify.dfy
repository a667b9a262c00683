/**
 * The source's own check of a tree, which looks at one node and its children at a time, against the invariant proved
 * here.
 */
module BTreeVerify {
  import opened Sorted
  import opened BTree
  import opened BTreeSearch

  /** The least key as `verify_node` hands it up. */
  function MinKey<R, V>(t: Tree<R, V>): Key {
    match t
    case Leaf(_, items) => if items == [] then 0 else items[0].key
    case Inner(_, _, kids) => if kids == [] then 0 else MinKey(kids[0])
  }

  /** Each key is compared with the next one only. */
  predicate StepsUp(ks: seq<Key>) {
    forall i {:trigger ks[i]} :: 0 <= i < |ks| - 1 ==> ks[i] <= ks[i + 1]
  }

  /**
   * What the layout of a node guarantees without any check: no more slots than there are, and a child more than keys.
   */
  predicate Fits<R, V>(p: Params, t: Tree<R, V>) {
    && t.Use() <= t.Max(p)
    && (t.Inner? ==> |t.kids| == |t.keys| + 1 && forall i :: 0 <= i < |t.kids| ==> Fits(p, t.kids[i]))
  }

  /** The assertions of `verify_node` for a node at level `h` and for all nodes below it. */
  predicate Passes<R, V>(p: Params, t: Tree<R, V>, h: nat, root: bool)
    requires Fits(p, t)
    decreases t
  {
    && (root || t.Min(p) <= t.Use())
    && t.Use() > 0
    && match t
       case Leaf(_, items) => h == 0 && StepsUp(Keys(items))
       case Inner(_, keys, kids) =>
         && h > 0 && StepsUp(keys)
         && (forall i :: 0 <= i < |kids| ==> Passes(p, kids[i], h - 1, false))
         && (forall i {:trigger kids[i]} :: 0 < i < |kids| ==> keys[i - 1] <= MinKey(kids[i]))
         && (forall i {:trigger kids[i]} :: 0 <= i < |keys| ==> keys[i] == MaxKey(kids[i]))
  }

  /** The local comparisons make the whole sequence sorted. */
  lemma {:induction false} StepsSorted(ks: seq<Key>, i: nat, j: nat)
    requires StepsUp(ks) && i <= j < |ks|
    ensures ks[i] <= ks[j]
    decreases j
  {
    if i < j {
      StepsSorted(ks, i, j - 1);
      assert ks[j - 1] <= ks[j];
    }
  }

  lemma StepsUpIsSorted(ks: seq<Key>)
    ensures StepsUp(ks) <==> SortedKeys(ks)
  {
    if StepsUp(ks) {
      forall i, j | 0 <= i < j < |ks|
        ensures ks[i] <= ks[j]
      {
        StepsSorted(ks, i, j);
      }
    }
  }

  lemma {:induction false} MinKeyIsFirst<R, V>(p: Params, t: Tree<R, V>, h: nat, root: bool)
    requires Valid(p, t, h, root)
    ensures |Contents(t)| > 0 && MinKey(t) == Contents(t)[0].key
    decreases t
  {
    if t.Inner? {
      hide MaxKey;
      MinKeyIsFirst(p, t.kids[0], h - 1, false);
      FlatSplit(t.kids, 0);
      assert t.kids[..0] == [];
    }
  }

  /** A row of ordered trees with separators between them is ordered as a whole. */
  lemma {:induction false} RowOrdered<R, V>(p: Params, kids: seq<Tree<R, V>>, h: nat)
    requires AllValid(p, kids, h)
    requires forall i :: 0 <= i < |kids| ==> Ordered(kids[i])
    requires forall i {:trigger kids[i]} :: 0 < i < |kids| ==> MaxKey(kids[i - 1]) <= MinKey(kids[i])
    ensures SortedItems(Flat(kids))
    decreases |kids|
  {
    hide MaxKey, MinKey, Below, Fill, Flat, Ordered;
    if |kids| == 0 {
      NoneSorted<R, V>();
    } else {
      var n := |kids| - 1;
      var a, c := Flat(kids[..n]), Contents(kids[n]);
      RowOrdered(p, kids[..n], h);
      assert kids[..n] + [kids[n]] == kids;
      FlatConcat(kids[..n], [kids[n]]);
      FlatOne(kids[n]);
      MinKeyIsFirst(p, kids[n], h, false);
      if n > 0 {
        LastOfRow(p, kids[..n], h);
        assert MaxKey(kids[n - 1]) <= MinKey(kids[n]);
      }
      OrderedIs(kids[n]);
      JoinSorted(a, c);
    }
  }

  lemma NoneSorted<R, V>()
    ensures SortedItems(Flat<R, V>([]))
  {
  }

  lemma OrderedIs<R, V>(t: Tree<R, V>)
    ensures Ordered(t) <==> SortedItems(Contents(t))
  {
  }

  lemma JoinSorted<V>(a: seq<Item<V>>, c: seq<Item<V>>)
    requires SortedItems(a) && SortedItems(c) && |c| > 0
    requires |a| > 0 ==> a[|a| - 1].key <= c[0].key
    ensures SortedItems(a + c)
  {
    KeysConcat(a, c);
    var x, y := Keys(a), Keys(c);
    assert |x| > 0 ==> x[|x| - 1] <= y[0];
    hide Keys;
    forall i, j | 0 <= i < j < |x| + |y|
      ensures (x + y)[i] <= (x + y)[j]
    {
      if i < |x| <= j {
        assert x[i] <= x[|x| - 1] && y[0] <= y[j - |x|];
      }
    }
  }

  lemma {:induction false} ValidFits<R, V>(p: Params, t: Tree<R, V>, h: nat, root: bool)
    requires Valid(p, t, h, root)
    ensures Fits(p, t)
    decreases t
  {
    if t.Inner? {
      hide MaxKey;
      forall i | 0 <= i < |t.kids|
        ensures Fits(p, t.kids[i])
      {
        ValidFits(p, t.kids[i], h - 1, false);
      }
    }
  }

  /** All assertions hold exactly when the tree is valid and its keys are in order: the local checks miss nothing. */
  lemma {:induction false} PassesIsValid<R, V>(p: Params, t: Tree<R, V>, h: nat, root: bool)
    requires Fits(p, t)
    ensures Passes(p, t, h, root) <==> Valid(p, t, h, root) && Ordered(t)
    decreases t
  {
    match t
    case Leaf(_, items) =>
      StepsUpIsSorted(Keys(items));
    case Inner(_, keys, kids) =>
      StepsUpIsSorted(keys);
      if h > 0 {
        forall i | 0 <= i < |kids|
          ensures Passes(p, kids[i], h - 1, false) <==> Valid(p, kids[i], h - 1, false) && Ordered(kids[i])
        {
          PassesIsValid(p, kids[i], h - 1, false);
        }
        if Passes(p, t, h, root) {
          PassesGivesRow(p, t, h, root);
        } else if Valid(p, t, h, root) && Ordered(t) {
          RowGivesPasses(p, t, h, root);
        }
      }
  }

  lemma PassesGivesRow<R, V>(p: Params, t: Tree<R, V>, h: nat, root: bool)
    requires Fits(p, t) && t.Inner? && h > 0 && Passes(p, t, h, root)
    requires forall i :: 0 <= i < |t.kids| ==> Valid(p, t.kids[i], h - 1, false) && Ordered(t.kids[i])
    ensures Valid(p, t, h, root) && Ordered(t)
  {
    hide MaxKey, MinKey, Flat, SortedItems;
    RowOrdered(p, t.kids, h - 1);
  }

  lemma RowGivesPasses<R, V>(p: Params, t: Tree<R, V>, h: nat, root: bool)
    requires Fits(p, t) && t.Inner? && h > 0 && Valid(p, t, h, root) && Ordered(t)
    requires forall i :: 0 <= i < |t.kids| ==>
             (Passes(p, t.kids[i], h - 1, false) <==> Valid(p, t.kids[i], h - 1, false) && Ordered(t.kids[i]))
    ensures Passes(p, t, h, root)
  {
    hide MaxKey, MinKey, Flat, StepsUp;
    SeparatorsSorted(p, t.keys, t.kids, h - 1);
    StepsUpIsSorted(t.keys);
    forall i | 0 <= i < |t.kids|
      ensures Ordered(t.kids[i]) && (i > 0 ==> t.keys[i - 1] <= MinKey(t.kids[i]))
    {
      KidSplit(t.kids, i);
      if i > 0 {
        KidAfter(p, t, h, i);
      }
    }
  }

  lemma KidAfter<R, V>(p: Params, t: Tree<R, V>, h: nat, i: nat)
    requires t.Inner? && h > 0 && Exact(t.keys, t.kids) && AllValid(p, t.kids, h - 1) && Ordered(t) && 0 < i < |t.kids|
    ensures t.keys[i - 1] <= MinKey(t.kids[i])
  {
    hide MaxKey, MinKey, Flat, Below, Fill, SortedItems, Keys;
    var a, c, b := Flat(t.kids[..i]), Contents(t.kids[i]), Flat(t.kids[i + 1..]);
    KidSplit(t.kids, i);
    LastOfRow(p, t.kids[..i], h - 1);
    MinKeyIsFirst(p, t.kids[i], h - 1, false);
    BorderSorted(a, c, b);
    FlatSplit(t.kids, i);
  }

  lemma BorderSorted<V>(a: seq<Item<V>>, c: seq<Item<V>>, b: seq<Item<V>>)
    requires |a| > 0 && |c| > 0
    ensures SortedItems(a + c + b) ==> a[|a| - 1].key <= c[0].key
  {
    var ks := Keys(a + c + b);
    assert ks[|a| - 1] == a[|a| - 1].key && ks[|a|] == c[0].key;
  }
}
