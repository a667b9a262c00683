/** Deletion is correct: exactly the first matching pair goes, and no step is ever impossible. */
module BTreeEraseProof {
  import opened Options
  import opened Sorted
  import opened BTree
  import opened BTreeSearch
  import opened BTreeErase
  import opened BTreeRepair

  /** The node after the repair of child `slot`, once a child emptied by a merge is dropped. */
  function Settle<R, V>(o: Outcome<R, V>, slot: nat): Tree<R, V>
    requires o.Erased? && (o.merged ==> CanDrop(o.t, slot))
  {
    if o.merged then DropEmptied(o.t, slot) else o.t
  }

  /** `q` is a proper row again, lost at most one child, and holds what `t` holds. */
  ghost predicate Repaired<R, V>(p: Params, t: Tree<R, V>, q: Tree<R, V>, h: nat) {
    && t.Inner? && q.Inner? && q.r == t.r
    && |q.keys| <= |t.keys| <= |q.keys| + 1
    && Exact(q.keys, q.kids) && AllValid(p, q.kids, h)
    && Flat(q.kids) == Flat(t.kids)
    && MaxKey(q) == MaxKey(t)
  }

  /**
   * Whichever neighbours were passed down, the chosen repair works on two adjacent children of the same parent, a merge
   * never overflows, and a shift moves at least one slot.
   */
  lemma ChooseSound<R, V>(p: Params, t: Tree<R, V>, h: nat, slot: nat, left: Option<Tree<R, V>>,
                          right: Option<Tree<R, V>>)
    requires t.Inner? && |t.keys| >= 1 && Exact(t.keys, t.kids) && slot < |t.kids|
    requires AllValidBut(p, t.kids, h, slot) && Below(p, t.kids[slot], h)
    requires t.kids[slot].Use() + 1 == t.kids[slot].Min(p)
    requires slot > 0 ==> left == Some(t.kids[slot - 1])
    requires slot < |t.keys| ==> right == Some(t.kids[slot + 1])
    ensures var kid := t.kids[slot];
            var action := Choose(kid.Min(p), Uses(left), Uses(right), slot > 0, slot < |t.kids| - 1);
            var i := PairAt(action, slot);
            && CanApply(t, slot, action)
            && i <= slot <= i + 1
            && (action.MergeLeft? || action.MergeRight? ==>
                  t.kids[i].Use() + t.kids[i + 1].Use() < kid.Max(p)
                    && kid.Min(p) <= t.kids[i].Use() + t.kids[i + 1].Use())
            && (action.ShiftLeft? ==> i == slot && kid.Min(p) < t.kids[slot + 1].Use())
            && (action.ShiftRight? ==> i + 1 == slot && kid.Min(p) < t.kids[slot - 1].Use())
  {
  }

  lemma DropAfterMerge<R, V>(p: Params, t: Tree<R, V>, h: nat, slot: nat, i: nat, m: Tree<R, V>, b: Tree<R, V>)
    requires t.Inner? && Exact(t.keys, t.kids) && AllValidBut(p, t.kids, h, slot) && i < |t.keys| && i <= slot <= i + 1
    requires Valid(p, m, h, false) && MaxKey(m) == MaxKey(t.kids[i + 1])
    requires Contents(m) == Contents(t.kids[i]) + Contents(t.kids[i + 1])
    requires b.Use() == 0
    ensures var q := SetPair(t, i, (m, t.keys[i], b));
            && CanDrop(q, slot)
            && var d := DropEmptied(q, slot);
            && d.keys == RemoveAt(t.keys, i) && d.kids == RemoveAt(t.kids[i := m], i + 1) && d.r == t.r
  {
    var q := SetPair(t, i, (m, t.keys[i], b));
    RemoveUpdated(t.kids[i := m], i + 1, b);
    assert q.keys == t.keys;
    hide Below, Fill, MaxKey, Contents, SetPair;
    var keys, kids := RemoveAt(t.keys, i), RemoveAt(t.kids[i := m], i + 1);
    if i < |keys| {
      assert keys[i] == MaxKey(kids[i]) by {
        RemoveAtIndex(t.keys, i);
        RemoveAtIndex(t.kids[i := m], i + 1);
      }
    }
  }

  lemma RemoveUpdated<T>(s: seq<T>, i: nat, x: T)
    requires i < |s|
    ensures RemoveAt(s[i := x], i) == RemoveAt(s, i)
  {
  }

  lemma RepairMerge<R, V>(p: Params, t: Tree<R, V>, h: nat, slot: nat, i: nat)
    requires t.Inner? && Exact(t.keys, t.kids) && i < |t.keys| && i <= slot <= i + 1
    requires AllValidBut(p, t.kids, h, slot) && Short(p, t.kids[slot], h)
    requires var a, b := t.kids[i], t.kids[i + 1];
             a.Use() + b.Use() < a.Max(p) && a.Min(p) <= a.Use() + b.Use()
    ensures var a, sep, b := t.kids[i], t.keys[i], t.kids[i + 1];
            && (a.Leaf? <==> b.Leaf?)
            && var q := SetPair(t, i, (Merge(a, sep, b), sep, Emptied(b)));
            && CanDrop(q, slot)
            && Repaired(p, t, DropEmptied(q, slot), h)
  {
    var a, sep, b := t.kids[i], t.keys[i], t.kids[i + 1];
    var m := Merge(a, sep, b);
    MergeCorrect(p, a, sep, b, h);
    DropAfterMerge(p, t, h, slot, i, m, Emptied(b));
    InnerMax(t);
    var q := DropEmptied(SetPair(t, i, (m, sep, Emptied(b))), slot);
    hide Below, Fill, MaxKey, Flat, Merge, Emptied, DropEmptied;
    MergedInRow(p, t.keys, t.kids, h, i, slot, m);
    InnerMax(q);
  }

  lemma RepairShift<R, V>(p: Params, t: Tree<R, V>, h: nat, slot: nat, i: nat, s: (Tree<R, V>, Key, Tree<R, V>))
    requires t.Inner? && Exact(t.keys, t.kids) && AllValidBut(p, t.kids, h, slot)
    requires i < |t.keys| && i <= slot <= i + 1
    requires SamePair(p, t.kids[i], t.kids[i + 1], h, s)
    ensures Repaired(p, t, SetPair(t, i, s), h)
  {
    hide Below, Fill, MaxKey, Flat, SamePair;
    PairInRow(p, t.keys, t.kids, h, i, slot, s);
    InnerMax(t);
    InnerMax(SetPair(t, i, s));
  }

  /** An underfull child is always repaired, and the row then is as if nothing had been short. */
  lemma RepairCorrect<R, V>(p: Params, t: Tree<R, V>, h: nat, slot: nat, left: Option<Tree<R, V>>,
                            right: Option<Tree<R, V>>, last: Option<Key>)
    requires t.Inner? && |t.keys| >= 1 && Exact(t.keys, t.kids) && slot < |t.kids|
    requires AllValidBut(p, t.kids, h, slot) && Short(p, t.kids[slot], h)
    requires slot > 0 ==> left == Some(t.kids[slot - 1])
    requires slot < |t.keys| ==> right == Some(t.kids[slot + 1])
    ensures var o := Repair(p, t, slot, left, right, last);
            && o.Erased? && o.last == last
            && (o.merged ==> CanDrop(o.t, slot))
            && Repaired(p, t, Settle(o, slot), h)
  {
    hide Choose, Below, MaxKey, Flat, DropEmptied, Apply, CanDrop;
    var kid := t.kids[slot];
    var o := Repair(p, t, slot, left, right, last);
    if kid.Use() + 1 == kid.Min(p) {
      var action := Choose(kid.Min(p), Uses(left), Uses(right), slot > 0, slot < |t.kids| - 1);
      ShortIsBelow(p, kid, h);
      ChooseSound(p, t, h, slot, left, right);
      ApplyCorrect(p, t, h, slot, action, last);
    } else {
      InnerMax(t);
    }
  }

  lemma ShortIsBelow<R, V>(p: Params, t: Tree<R, V>, h: nat)
    requires Short(p, t, h)
    ensures Below(p, t, h)
  {
  }

  lemma ApplyCorrect<R, V>(p: Params, t: Tree<R, V>, h: nat, slot: nat, action: Action, last: Option<Key>)
    requires t.Inner? && Exact(t.keys, t.kids) && slot < |t.kids|
    requires AllValidBut(p, t.kids, h, slot) && Short(p, t.kids[slot], h)
    requires t.kids[slot].Use() + 1 == t.kids[slot].Min(p)
    requires CanApply(t, slot, action)
    requires var kid := t.kids[slot];
             var i := PairAt(action, slot);
             && i <= slot <= i + 1
             && (action.MergeLeft? || action.MergeRight? ==>
                   t.kids[i].Use() + t.kids[i + 1].Use() < kid.Max(p)
                     && kid.Min(p) <= t.kids[i].Use() + t.kids[i + 1].Use())
             && (action.ShiftLeft? ==> i == slot && kid.Min(p) < t.kids[slot + 1].Use())
             && (action.ShiftRight? ==> i + 1 == slot && kid.Min(p) < t.kids[slot - 1].Use())
    ensures var o := Outcome.Erased(Apply(t, slot, action), last, action.MergeLeft? || action.MergeRight?);
            (o.merged ==> CanDrop(o.t, slot)) && Repaired(p, t, Settle(o, slot), h)
  {
    var i := PairAt(action, slot);
    var a, sep, b := t.kids[i], t.keys[i], t.kids[i + 1];
    assert Pair(p, a, sep, b, h);
    hide Below, MaxKey, Flat, Short, Repaired, TakeFromLeft, TakeFromRight, Merge, DropEmptied, CanDrop, SetPair, Exact;
    match action
    case MergeLeft => RepairMerge(p, t, h, slot, i);
    case MergeRight => RepairMerge(p, t, h, slot, i);
    case ShiftLeft =>
      TakeFromRightCorrect(p, a, sep, b, h);
      RepairShift(p, t, h, slot, i, TakeFromRight(a, sep, b));
    case ShiftRight =>
      TakeFromLeftCorrect(p, a, sep, b, h);
      RepairShift(p, t, h, slot, i, TakeFromLeft(a, sep, b));
  }

  /** What `find_lower` leads to when the key is there: the first pair that has it. */
  function FirstAt<V>(items: seq<Item<V>>, k: Key): nat {
    Lower(Keys(items), k)
  }

  /** `kid'` is `kid` without the first pair with key `k`; `last` is its new greatest key if that changed. */
  ghost predicate LostFirst<R, V>(p: Params, kid: Tree<R, V>, kid': Tree<R, V>, h: nat, k: Key, last: Option<Key>) {
    var i := FirstAt(Contents(kid), k);
    && Short(p, kid', h)
    && i < |Contents(kid)| && Contents(kid)[i].key == k
    && Contents(kid') == RemoveAt(Contents(kid), i)
    && MaxKey(kid') == (if last.Some? then last.value else MaxKey(kid))
  }

  /** Losing the first pair with key `k` in the child that the descent picks is losing it in the whole row. */
  lemma RowLosesFirst<R, V>(p: Params, t: Tree<R, V>, h: nat, slot: nat, kid': Tree<R, V>, k: Key)
    requires t.Inner? && Exact(t.keys, t.kids) && AllValid(p, t.kids, h) && Ordered(t)
    requires slot == Lower(t.keys, k)
    requires var c := Contents(t.kids[slot]);
             var i := FirstAt(c, k);
             i < |c| && c[i].key == k && Contents(kid') == RemoveAt(c, i)
    ensures var i := FirstAt(Contents(t), k);
            && i < |Contents(t)| && Contents(t)[i].key == k
            && Flat(t.kids[slot := kid']) == RemoveAt(Contents(t), i)
  {
    var kids' := t.kids[slot := kid'];
    var a, c, b := Flat(t.kids[..slot]), Contents(t.kids[slot]), Flat(t.kids[slot + 1..]);
    var i := FirstAt(c, k);
    hide MaxKey, Lower, Keys, Below;
    assert FirstAt(Contents(t), k) == |a| + i by {
      DescendLower(p, t.keys, t.kids, h, k);
    }
    assert Contents(t) == a + c + b by {
      FlatSplit(t.kids, slot);
    }
    assert Flat(kids') == a + RemoveAt(c, i) + b by {
      FlatSplit(kids', slot);
      assert kids'[..slot] == t.kids[..slot] && kids'[slot + 1..] == t.kids[slot + 1..];
    }
    hide Flat, Contents, RemoveAt;
    RemoveMiddle(a, c, b, i);
    assert (a + c + b)[|a| + i] == c[i];
  }

  lemma RenewExact<R, V>(p: Params, t: Tree<R, V>, h: nat, slot: nat, kid': Tree<R, V>, last: Option<Key>)
    requires t.Inner? && Exact(t.keys, t.kids) && AllValid(p, t.kids, h) && slot < |t.kids|
    requires MaxKey(kid') == (if last.Some? then last.value else MaxKey(t.kids[slot]))
    ensures var (t', last') := Renew(t, slot, kid', last);
            && t'.Inner? && t'.r == t.r && |t'.keys| == |t.keys| && t'.kids == t.kids[slot := kid']
            && Exact(t'.keys, t'.kids) && AllValidBut(p, t'.kids, h, slot)
            && MaxKey(t') == (if last'.Some? then last'.value else MaxKey(t))
  {
    var t' := Renew(t, slot, kid', last).0;
    InnerMax(t);
    InnerMax(t');
    hide MaxKey, Below, Fill;
  }

  /** A child that lost a pair, seen from its parent. */
  lemma RenewCorrect<R, V>(p: Params, t: Tree<R, V>, h: nat, slot: nat, kid': Tree<R, V>, k: Key, last: Option<Key>)
    requires t.Inner? && Exact(t.keys, t.kids) && AllValid(p, t.kids, h) && Ordered(t)
    requires slot == Lower(t.keys, k) && LostFirst(p, t.kids[slot], kid', h, k, last)
    ensures var (t', last') := Renew(t, slot, kid', last);
            var i := FirstAt(Contents(t), k);
            && t'.Inner? && t'.r == t.r && |t'.keys| == |t.keys| && t'.kids == t.kids[slot := kid']
            && Exact(t'.keys, t'.kids) && AllValidBut(p, t'.kids, h, slot)
            && i < |Contents(t)| && Contents(t)[i].key == k
            && Flat(t'.kids) == RemoveAt(Contents(t), i)
            && MaxKey(t') == (if last'.Some? then last'.value else MaxKey(t))
  {
    RowLosesFirst(p, t, h, slot, kid', k);
    RenewExact(p, t, h, slot, kid', last);
    hide Flat, MaxKey, Lower, Keys, Below, Fill, RemoveAt, FirstAt, Renew, Exact, AllValidBut;
  }

  /** The row after the repair, for the caller of `EraseBelow`. */
  ghost predicate ErasedBelow<R, V>(p: Params, t: Tree<R, V>, h: nat, slot: nat, o: Outcome<R, V>, k: Key) {
    && t.Inner? && o.Erased? && (o.merged ==> CanDrop(o.t, slot))
    && var q, i := Settle(o, slot), FirstAt(Contents(t), k);
    && q.Inner? && q.r == t.r && |q.keys| <= |t.keys| <= |q.keys| + 1
    && Exact(q.keys, q.kids) && AllValid(p, q.kids, h)
    && i < |Contents(t)| && Contents(t)[i].key == k
    && Flat(q.kids) == RemoveAt(Contents(t), i)
    && MaxKey(q) == (if o.last.Some? then o.last.value else MaxKey(t))
  }

  lemma RenewAndRepair<R, V>(p: Params, t: Tree<R, V>, h: nat, slot: nat, kid': Tree<R, V>, k: Key, last: Option<Key>,
                             l: Option<Tree<R, V>>, r: Option<Tree<R, V>>)
    requires t.Inner? && |t.keys| >= 1 && Exact(t.keys, t.kids) && AllValid(p, t.kids, h) && Ordered(t)
    requires slot == Lower(t.keys, k) && LostFirst(p, t.kids[slot], kid', h, k, last)
    requires slot > 0 ==> l == Some(t.kids[slot - 1])
    requires slot < |t.keys| ==> r == Some(t.kids[slot + 1])
    ensures var (t', last') := Renew(t, slot, kid', last);
            ErasedBelow(p, t, h, slot, Repair(p, t', slot, l, r, last'), k)
  {
    hide Flat, MaxKey, Lower, Keys, Below, Repair, Settle, Renew;
    var (t', last') := Renew(t, slot, kid', last);
    RenewCorrect(p, t, h, slot, kid', k, last);
    RepairCorrect(p, t', h, slot, l, r, last');
  }

  /** A neighbour handed down the tree: a valid node of the same height, or none. */
  predicate Neighbour<R, V>(p: Params, n: Option<Tree<R, V>>, h: nat) {
    n.Some? ==> Valid(p, n.value, h, false)
  }

  lemma LeafLostFirst<R, V>(p: Params, r: R, items: seq<Item<V>>, k: Key)
    requires Valid(p, Leaf(r, items), 0, false) && SortedItems(items) && k in Keys(items)
    ensures var i := FirstAt(items, k);
            && i < |items| && items[i].key == k
            && var items' := RemoveAt(items, i);
            && items' != []
            && LostFirst(p, Leaf(r, items), Leaf(r, items'), 0, k,
                         if i == |items'| then Some(items'[i - 1].key) else None)
  {
    LowerFinds(Keys(items), k);
  }

  lemma InnerLostFirst<R, V>(p: Params, kid: Tree<R, V>, h: nat, s: nat, o: Outcome<R, V>, k: Key)
    requires kid.Inner? && Valid(p, kid, h, false) && ErasedBelow(p, kid, h - 1, s, o, k)
    ensures LostFirst(p, kid, Settle(o, s), h, k, o.last)
  {
    hide Flat, MaxKey, Lower, Keys, Settle;
  }

  /** What is to be shown of a deletion below child `slot` of `t`. */
  ghost predicate ErasesFirst<R, V>(p: Params, t: Tree<R, V>, h: nat, slot: nat, o: Outcome<R, V>, k: Key) {
    if k in Keys(Contents(t)) then ErasedBelow(p, t, h, slot, o, k) else o.NotFound?
  }

  ghost predicate Row<R, V>(p: Params, t: Tree<R, V>, h: nat) {
    t.Inner? && |t.keys| >= 1 && Exact(t.keys, t.kids) && AllValid(p, t.kids, h) && Ordered(t)
  }

  /** The neighbours of child `slot` that are siblings are passed down as they are. */
  ghost predicate Siblings<R, V>(t: Tree<R, V>, slot: nat, l: Option<Tree<R, V>>, r: Option<Tree<R, V>>)
    requires t.Inner? && |t.kids| == |t.keys| + 1 && slot < |t.kids|
  {
    && (slot > 0 ==> l == Some(t.kids[slot - 1]))
    && (slot < |t.keys| ==> r == Some(t.kids[slot + 1]))
  }

  lemma EraseInLeafCorrect<R, V>(p: Params, t: Tree<R, V>, slot: nat, l: Option<Tree<R, V>>, r: Option<Tree<R, V>>,
                                 k: Key)
    requires Row(p, t, 0) && slot == Lower(t.keys, k) && t.kids[slot].Leaf? && Siblings(t, slot, l, r)
    ensures ErasesFirst(p, t, 0, slot, EraseInLeaf(p, t, slot, l, r, k), k)
  {
    hide Flat, MaxKey, Keys, ErasedBelow, LostFirst, Repair, Renew, Lower, RemoveAt;
    var kid := t.kids[slot];
    var items := kid.items;
    KidHasKey(p, t, 1, k);
    LowerFinds(Keys(items), k);
    KeysAt(items);
    if k in Keys(items) {
      LeafLostFirst(p, kid.r, items, k);
      var i := FirstAt(items, k);
      var items' := RemoveAt(items, i);
      var last := if i == |items'| then Some(items'[i - 1].key) else None;
      RenewAndRepair(p, t, 0, slot, Leaf(kid.r, items'), k, last, l, r);
    }
  }

  lemma AscendCorrect<R, V>(p: Params, t: Tree<R, V>, h: nat, slot: nat, l: Option<Tree<R, V>>, r: Option<Tree<R, V>>,
                            k: Key, s: nat, o: Outcome<R, V>)
    requires Row(p, t, h) && slot == Lower(t.keys, k) && t.kids[slot].Inner? && h > 0
    requires Siblings(t, slot, l, r)
    requires ErasesFirst(p, t.kids[slot], h - 1, s, o, k)
    ensures ErasesFirst(p, t, h, slot, Ascend(p, t, slot, l, r, s, o), k)
  {
    hide Flat, MaxKey, Keys, LostFirst, Repair, Renew, Lower, DropEmptied, CanDrop, Below, SortedItems, Contents;
    var kid := t.kids[slot];
    KidHasKey(p, t, h + 1, k);
    if k in Keys(Contents(kid)) {
      assert o.Erased? && (o.merged ==> CanDrop(o.t, s));
      InnerLostFirst(p, kid, h, s, o, k);
      hide ErasedBelow;
      RenewAndRepair(p, t, h, slot, Settle(o, s), k, o.last, l, r);
    }
  }

  /**
   * Erasing below a valid, ordered node: it fails exactly when the key is not there, it is never stuck, and otherwise
   * the first pair with that key is gone and the row of children is as it should be.
   */
  lemma {:induction false} EraseBelowCorrect<R, V>(p: Params, t: Tree<R, V>, h: nat, slot: nat, l: Option<Tree<R, V>>,
                                                   r: Option<Tree<R, V>>, k: Key)
    requires Row(p, t, h) && slot == Lower(t.keys, k) && Siblings(t, slot, l, r)
    requires Neighbour(p, l, h) && Neighbour(p, r, h)
    ensures ErasesFirst(p, t, h, slot, EraseBelow(p, t, slot, l, r, k), k)
    decreases t
  {
    hide Flat, MaxKey, Keys, ErasesFirst, Lower, SortedItems, Ascend, EraseInLeaf;
    var kid := t.kids[slot];
    KidSplit(t.kids, slot);
    if kid.Leaf? {
      EraseInLeafCorrect(p, t, slot, l, r, k);
    } else {
      var s := Lower(kid.keys, k);
      var l', r' := LeftOf(kid, s, l), RightOf(kid, s, r);
      EraseBelowCorrect(p, kid, h - 1, s, l', r', k);
      AscendCorrect(p, t, h, slot, l, r, k, s, EraseBelow(p, kid, s, l', r', k));
    }
  }
}
