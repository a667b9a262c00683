/** Why descending by separators finds the right leaf. */
module BTreeSearch {
  import opened Sorted
  import opened BTree

  /** The number of pairs in the children left of child `slot`. */
  function Before<R, V>(kids: seq<Tree<R, V>>, slot: nat): nat
    requires slot <= |kids|
  {
    |Flat(kids[..slot])|
  }

  lemma LastOfRow<R, V>(p: Params, kids: seq<Tree<R, V>>, h: nat)
    requires kids != [] && AllValid(p, kids, h)
    ensures var s := Flat(kids); |s| > 0 && s[|s| - 1].key == MaxKey(kids[|kids| - 1])
  {
    var n := |kids| - 1;
    FlatSplit(kids, n);
    assert kids[n + 1..] == [];
    MaxKeyIsLast(p, kids[n], h, false);
  }

  lemma KidSplit<R, V>(kids: seq<Tree<R, V>>, slot: nat)
    requires slot < |kids| && SortedItems(Flat(kids))
    ensures Keys(Flat(kids)) == Keys(Flat(kids[..slot])) + Keys(Contents(kids[slot])) + Keys(Flat(kids[slot + 1..]))
    ensures Ordered(kids[slot])
  {
    var a, c, b := Flat(kids[..slot]), Contents(kids[slot]), Flat(kids[slot + 1..]);
    FlatSplit(kids, slot);
    KeysConcat(a, c);
    KeysConcat(a + c, b);
    SortedMiddle(Keys(a), Keys(c), Keys(b));
  }

  /** The lower bound of the whole row is the lower bound within the child that `find_lower` picks. */
  lemma DescendLower<R, V>(p: Params, keys: seq<Key>, kids: seq<Tree<R, V>>, h: nat, k: Key)
    requires Exact(keys, kids) && AllValid(p, kids, h) && SortedItems(Flat(kids))
    ensures var slot := Lower(keys, k);
            var q := Lower(Keys(Contents(kids[slot])), k);
            && Ordered(kids[slot])
            && Lower(Keys(Flat(kids)), k) == Before(kids, slot) + q
            && (slot < |keys| ==> q < |Contents(kids[slot])|)
  {
    hide Contents, Lower, SortedKeys, Below;
    var slot := Lower(keys, k);
    LowerFacts(keys, k);
    KidSplit(kids, slot);
    LastBelow(Keys(Contents(kids[slot])), k);
    MaxKeyIsLast(p, kids[slot], h, false);
    if slot > 0 {
      LastOfRow(p, kids[..slot], h);
    }
    if slot == |keys| {
      assert kids[slot + 1..] == [];
    }
    LowerMiddle(Keys(Flat(kids[..slot])), Keys(Contents(kids[slot])), Keys(Flat(kids[slot + 1..])), k);
  }

  lemma DescendUpper<R, V>(p: Params, keys: seq<Key>, kids: seq<Tree<R, V>>, h: nat, k: Key)
    requires Exact(keys, kids) && AllValid(p, kids, h) && SortedItems(Flat(kids))
    ensures var slot := Upper(keys, k);
            var q := Upper(Keys(Contents(kids[slot])), k);
            && Ordered(kids[slot])
            && Upper(Keys(Flat(kids)), k) == Before(kids, slot) + q
            && (slot < |keys| ==> q < |Contents(kids[slot])|)
  {
    hide Contents, Upper, SortedKeys, Below;
    var slot := Upper(keys, k);
    UpperFacts(keys, k);
    KidSplit(kids, slot);
    LastBelow(Keys(Contents(kids[slot])), k);
    MaxKeyIsLast(p, kids[slot], h, false);
    if slot > 0 {
      LastOfRow(p, kids[..slot], h);
    }
    if slot == |keys| {
      assert kids[slot + 1..] == [];
    }
    UpperMiddle(Keys(Flat(kids[..slot])), Keys(Contents(kids[slot])), Keys(Flat(kids[slot + 1..])), k);
  }

  /** A key is in the tree exactly when it is in the child that `find_lower` picks. */
  lemma KidHasKey<R, V>(p: Params, t: Tree<R, V>, h: nat, k: Key)
    requires t.Inner? && h > 0 && Exact(t.keys, t.kids) && AllValid(p, t.kids, h - 1) && Ordered(t)
    ensures var kid := t.kids[Lower(t.keys, k)];
            && Ordered(kid)
            && (k in Keys(Contents(t)) <==> k in Keys(Contents(kid)))
  {
    var slot := Lower(t.keys, k);
    var c := Contents(t.kids[slot]);
    DescendLower(p, t.keys, t.kids, h - 1, k);
    KidSplit(t.kids, slot);
    LowerFinds(Keys(Contents(t)), k);
    LowerFinds(Keys(c), k);
    var q := Lower(Keys(c), k);
    if q < |c| {
      assert Keys(Contents(t))[Before(t.kids, slot) + q] == Keys(c)[q];
    } else {
      assert t.kids[slot + 1..] == [];
    }
  }

  lemma BeforeGrows<R, V>(kids: seq<Tree<R, V>>, i: nat, j: nat)
    requires i <= j <= |kids|
    ensures Before(kids, i) <= Before(kids, j)
  {
    assert kids[..j] == kids[..i] + kids[i..j];
    FlatConcat(kids[..i], kids[i..j]);
  }

  /** The greatest key of child `i` stands at the end of that child's pairs. */
  lemma LastOfKid<R, V>(p: Params, kids: seq<Tree<R, V>>, h: nat, i: nat)
    requires i < |kids| && AllValid(p, kids, h)
    ensures var q := Before(kids, i + 1); 0 < q <= |Flat(kids)| && Flat(kids)[q - 1].key == MaxKey(kids[i])
  {
    hide MaxKey, Flat, Below, Fill;
    assert kids == kids[..i + 1] + kids[i + 1..];
    FlatConcat(kids[..i + 1], kids[i + 1..]);
    LastOfRow(p, kids[..i + 1], h);
  }

  lemma SeparatorsSorted<R, V>(p: Params, keys: seq<Key>, kids: seq<Tree<R, V>>, h: nat)
    requires Exact(keys, kids) && AllValid(p, kids, h) && SortedItems(Flat(kids))
    ensures SortedKeys(keys)
  {
    forall i, j | 0 <= i < j < |keys|
      ensures keys[i] <= keys[j]
    {
      hide Flat, MaxKey;
      LastOfKid(p, kids, h, i);
      LastOfKid(p, kids, h, j);
      BeforeGrows(kids, i + 1, j + 1);
      var ks := Keys(Flat(kids));
      assert ks[Before(kids, i + 1) - 1] <= ks[Before(kids, j + 1) - 1];
    }
  }
}
