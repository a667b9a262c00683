/** Insertion: descent, splitting of full nodes on the way back, and growth at the root. */
module BTreeInsert {
  import opened Sorted
  import opened BTree
  import opened BTreeSearch

  /** A position as an iterator holds it: a leaf and a slot in it. */
  datatype Iter<R> = Iter(leaf: R, slot: nat)

  datatype Outcome<R, V> =
    | Present(at: Iter<R>)                                    // nothing changed
    | Grown(at: Iter<R>, t: Tree<R, V>)                       // room was found below this node
    | Split(at: Iter<R>, l: Tree<R, V>, up: Key, n: Tree<R, V>) // this node became two
  {
    function Row(): seq<Tree<R, V>>
      requires !Present?
    {
      if Grown? then [t] else [l, n]
    }
  }

  function PutSlot<V>(items: seq<Item<V>>, x: Item<V>): seq<Item<V>> {
    InsertAt(items, Upper(Keys(items), x.key), x)
  }

  function InsertLeaf<R, V>(p: Params, t: Tree<R, V>, x: Item<V>, n: R): Outcome<R, V>
    requires t.Leaf? && Fill(p, t, true)
  {
    var slot := Lower(Keys(t.items), x.key);
    if !p.duplicates && slot < |t.items| && t.items[slot].key == x.key then
      Present(Iter(t.r, slot))
    else if |t.items| < p.leafMax then
      Grown(Iter(t.r, Upper(Keys(t.items), x.key)), Leaf(t.r, PutSlot(t.items, x)))
    else
      var mid := |t.items| / 2;
      var l, r := t.items[..mid], t.items[mid..];
      if slot < mid then
        // the last slot of the old node gives the separator, or the new pair if it went there
        var up := if slot == mid then x.key else l[mid - 1].key;
        Split(Iter(t.r, Upper(Keys(l), x.key)), Leaf(t.r, PutSlot(l, x)), up, Leaf(n, r))
      else
        Split(Iter(n, Upper(Keys(r), x.key)), Leaf(t.r, l), l[mid - 1].key, Leaf(n, PutSlot(r, x)))
  }

  /** The slot at which a full inner node is cut when a child is to be added at `slot`. */
  function CutSlot(use: nat, slot: nat): nat
    requires 2 <= use
  {
    var mid := use / 2;
    if slot <= mid && mid > use - (mid + 1) then mid - 1 else mid
  }

  /** The two halves of a full inner node that took one more child. */
  datatype Halves<T> = Halves(lkeys: seq<Key>, lkids: seq<T>, up: Key, rkeys: seq<Key>, rkids: seq<T>)

  /**
   * Cutting a full node and putting `up` and the child `n` in at `slot`. When the cut is exactly there, the new
   * separator becomes the one that goes up.
   */
  function CutAndPut<T>(keys: seq<Key>, kids: seq<T>, slot: nat, up: Key, n: T): Halves<T>
    requires |kids| == |keys| + 1 && slot <= |keys| && 4 <= |keys|
  {
    var mid := CutSlot(|keys|, slot);
    var lkeys, lkids := keys[..mid], kids[..mid + 1];
    var rkeys, rkids := keys[mid + 1..], kids[mid + 1..];
    if slot == mid + 1 && |lkeys| < |rkeys| then
      Halves(lkeys + [keys[mid]], lkids + [rkids[0]], up, rkeys, rkids[0 := n])
    else if slot >= mid + 1 then
      var s := slot - (mid + 1);
      Halves(lkeys, lkids, keys[mid], InsertAt(rkeys, s, up), InsertAt(rkids, s + 1, n))
    else
      Halves(InsertAt(lkeys, slot, up), InsertAt(lkids, slot + 1, n), keys[mid], rkeys, rkids)
  }

  /** Child `slot` of `t` was split into `l` and `n`, with separator `up`. */
  function InsertInner<R, V>(p: Params, t: Tree<R, V>, slot: nat, at: Iter<R>, l: Tree<R, V>, up: Key, n: Tree<R, V>,
                             nr: R)
    : Outcome<R, V>
    requires t.Inner? && Fill(p, t, true) && |t.kids| == |t.keys| + 1 && slot <= |t.keys|
  {
    var keys, kids := t.keys, t.kids[slot := l];
    if |keys| < p.innerMax then
      Grown(at, Inner(t.r, InsertAt(keys, slot, up), InsertAt(kids, slot + 1, n)))
    else
      var c := CutAndPut(keys, kids, slot, up, n);
      Split(at, Inner(t.r, c.lkeys, c.lkids), c.up, Inner(nr, c.rkeys, c.rkids))
  }

  /** `pool[i]` is the node allocated at level `i` if one is needed there. */
  function Insert<R, V>(p: Params, t: Tree<R, V>, x: Item<V>, pool: seq<R>): Outcome<R, V>
    requires pool != [] && Valid(p, t, |pool| - 1, true)
    decreases t
  {
    var h := |pool| - 1;
    match t
    case Leaf(_, _) => InsertLeaf(p, t, x, pool[h])
    case Inner(r, keys, kids) =>
      var slot := Lower(keys, x.key);
      match Insert(p, kids[slot], x, pool[..h])
      case Present(at) => Present(at)
      case Grown(at, kid) => Grown(at, Inner(r, keys, kids[slot := kid]))
      case Split(at, l, up, n) => InsertInner(p, t, slot, at, l, up, n, pool[h])
  }

  // ------------------------------------------------------------------ proofs

  /**
   * What the caller of `Insert` may rely on: the pairs of the one or two resulting trees are the old pairs with `x` put
   * in at position `pos`, among or next to the pairs with an equal key, both trees are valid, and the separator between
   * them is exact.
   */
  ghost predicate Inserted<R, V>(p: Params, t: Tree<R, V>, h: nat, root: bool, x: Item<V>, o: Outcome<R, V>, pos: nat)
    requires !o.Present?
  {
    && Lower(Keys(Contents(t)), x.key) <= pos <= Upper(Keys(Contents(t)), x.key)
    && Flat(o.Row()) == InsertAt(Contents(t), pos, x)
    && (o.Grown? ==> Valid(p, o.t, h, root))
    && (o.Split? ==> Valid(p, o.l, h, false) && Valid(p, o.n, h, false) && o.up == MaxKey(o.l))
  }

  /** Where a leaf puts a pair: behind all equal ones, but if the leaf is full only behind those in the half it gets. */
  function LeafPlace<V>(p: Params, items: seq<Item<V>>, k: Key): nat {
    var mid := |items| / 2;
    if |items| < p.leafMax then Upper(Keys(items), k)
    else if Lower(Keys(items), k) < mid then Upper(Keys(items[..mid]), k)
    else mid + Upper(Keys(items[mid..]), k)
  }

  /** The position at which the pair ends up among all pairs. */
  function Position<R, V>(p: Params, t: Tree<R, V>, h: nat, x: Item<V>): nat
    requires Valid(p, t, h, true)
    decreases t
  {
    match t
    case Leaf(_, items) => LeafPlace(p, items, x.key)
    case Inner(_, keys, kids) =>
      var slot := Lower(keys, x.key);
      Before(kids, slot) + Position(p, kids[slot], h - 1, x)
  }

  // --- one inner node

  /** Replacing child `slot` by two trees, the first of them ending at `up`. */
  lemma WidenedRow<R, V>(p: Params, keys: seq<Key>, kids: seq<Tree<R, V>>, h: nat, slot: nat,
                         l: Tree<R, V>, up: Key, n: Tree<R, V>)
    requires Exact(keys, kids) && AllValid(p, kids, h) && slot <= |keys|
    requires Valid(p, l, h, false) && Valid(p, n, h, false) && up == MaxKey(l)
    requires slot < |keys| ==> MaxKey(n) == keys[slot]
    ensures var wide := InsertAt(kids[slot := l], slot + 1, n);
            && Exact(InsertAt(keys, slot, up), wide)
            && AllValid(p, wide, h)
            && Flat(wide) == Flat(kids[..slot]) + Flat([l, n]) + Flat(kids[slot + 1..])
  {
    hide Flat, MaxKey, Below, Fill;
    var wide := InsertAt(kids[slot := l], slot + 1, n);
    assert wide == kids[..slot] + [l, n] + kids[slot + 1..];
    FlatConcat(kids[..slot] + [l, n], kids[slot + 1..]);
    FlatConcat(kids[..slot], [l, n]);
  }

  lemma FlatPair<R, V>(l: Tree<R, V>, n: Tree<R, V>)
    ensures Flat([l, n]) == Contents(l) + Contents(n)
  {
    assert [l, n][1..] == [n];
    FlatOne(n);
  }

  // One insertion into a sequence that is then cut at `cut`, seen as an insertion into one of the parts.

  lemma InsertBefore<T>(s: seq<T>, slot: nat, x: T, cut: nat)
    requires slot <= cut < |s|
    ensures var w := InsertAt(s, slot, x);
            && w[..cut + 1] == InsertAt(s[..cut], slot, x)
            && w[cut + 1..] == s[cut..]
            && w[cut + 1] == s[cut]
            && w[cut + 2..] == s[cut + 1..]
  {
  }

  lemma InsertAfter<T>(s: seq<T>, slot: nat, x: T, cut: nat)
    requires cut < slot <= |s|
    ensures var w := InsertAt(s, slot, x);
            && w[..cut] == s[..cut]
            && w[cut] == s[cut]
            && w[..cut + 1] == s[..cut + 1]
            && w[cut + 1..] == InsertAt(s[cut + 1..], slot - (cut + 1), x)
  {
  }

  lemma InsertAtCut<T>(s: seq<T>, cut: nat, x: T)
    requires cut + 1 < |s|
    ensures var w := InsertAt(s, cut + 1, x);
            && w[..cut + 1] == s[..cut] + [s[cut]]
            && w[cut + 1] == x
            && w[cut + 2..] == s[cut + 1..]
  {
  }

  lemma InsertFirstOfSecond<T>(s: seq<T>, cut: nat, x: T)
    requires cut + 1 < |s|
    ensures var w := InsertAt(s, cut + 2, x);
            && w[..cut + 2] == s[..cut + 1] + [s[cut + 1..][0]]
            && w[cut + 2..] == s[cut + 1..][0 := x]
  {
  }

  /** The arithmetic of the cut: both halves stay at least half full and neither overflows. */
  lemma CutFill(use: nat, slot: nat)
    requires 4 <= use && slot <= use
    ensures var mid := CutSlot(use, slot);
            && 1 <= mid < use - 1
            && (slot == mid + 1 && mid < use - (mid + 1) ==> use / 2 <= mid + 1 && use / 2 <= use - (mid + 1))
            && (slot >= mid + 1 && !(slot == mid + 1 && mid < use - (mid + 1)) ==>
                  use / 2 <= mid && use / 2 <= use - mid <= use)
            && (slot < mid + 1 ==> use / 2 <= mid + 1 < use && use / 2 <= use - (mid + 1))
  {
  }

  /** The two halves are the widened node, cut at the separator that goes up. */
  ghost predicate AreHalves<T>(keys: seq<Key>, kids: seq<T>, c: Halves<T>) {
    var cut := |c.lkeys|;
    && |kids| == |keys| + 1 && cut < |keys|
    && c.up == keys[cut]
    && c.lkeys == keys[..cut] && c.lkids == kids[..cut + 1]
    && c.rkeys == keys[cut + 1..] && c.rkids == kids[cut + 1..]
  }

  // the new separator is itself where the node is cut
  lemma CutAtSlot<T>(keys: seq<Key>, kids: seq<T>, slot: nat, up: Key, n: T)
    requires |kids| == |keys| + 1 && slot <= |keys| && 4 <= |keys|
    requires var mid := CutSlot(|keys|, slot); slot == mid + 1 && mid < |keys| - (mid + 1)
    ensures AreHalves(InsertAt(keys, slot, up), InsertAt(kids, slot + 1, n), CutAndPut(keys, kids, slot, up, n))
  {
    var mid := CutSlot(|keys|, slot);
    InsertAtCut(keys, mid, up);
    InsertFirstOfSecond(kids, mid, n);
  }

  lemma CutToRight<T>(keys: seq<Key>, kids: seq<T>, slot: nat, up: Key, n: T)
    requires |kids| == |keys| + 1 && slot <= |keys| && 4 <= |keys|
    requires var mid := CutSlot(|keys|, slot); slot >= mid + 1 && !(slot == mid + 1 && mid < |keys| - (mid + 1))
    ensures var mid := CutSlot(|keys|, slot);
            && mid < |keys|
            && CutAndPut(keys, kids, slot, up, n)
               == Halves(keys[..mid], kids[..mid + 1], keys[mid],
                         InsertAt(keys[mid + 1..], slot - (mid + 1), up), InsertAt(kids[mid + 1..], slot - mid, n))
  {
    hide InsertAt;
  }

  // the new child goes into the right half
  lemma CutLeftOfSlot<T>(keys: seq<Key>, kids: seq<T>, slot: nat, up: Key, n: T)
    requires |kids| == |keys| + 1 && slot <= |keys| && 4 <= |keys|
    requires var mid := CutSlot(|keys|, slot); slot >= mid + 1 && !(slot == mid + 1 && mid < |keys| - (mid + 1))
    ensures AreHalves(InsertAt(keys, slot, up), InsertAt(kids, slot + 1, n), CutAndPut(keys, kids, slot, up, n))
  {
    hide InsertAt, CutSlot, CutAndPut;
    var mid := CutSlot(|keys|, slot);
    CutFill(|keys|, slot);
    CutToRight(keys, kids, slot, up, n);
    InsertAfter(keys, slot, up, mid);
    InsertAfter(kids, slot + 1, n, mid);
  }

  // the new child goes into the left half
  lemma CutRightOfSlot<T>(keys: seq<Key>, kids: seq<T>, slot: nat, up: Key, n: T)
    requires |kids| == |keys| + 1 && slot <= |keys| && 4 <= |keys|
    requires var mid := CutSlot(|keys|, slot); slot < mid + 1
    ensures AreHalves(InsertAt(keys, slot, up), InsertAt(kids, slot + 1, n), CutAndPut(keys, kids, slot, up, n))
  {
    var mid := CutSlot(|keys|, slot);
    assert CutAndPut(keys, kids, slot, up, n)
        == Halves(InsertAt(keys[..mid], slot, up), InsertAt(kids[..mid + 1], slot + 1, n), keys[mid],
                  keys[mid + 1..], kids[mid + 1..]);
    hide InsertAt, CutSlot, CutAndPut;
    InsertBefore(keys, slot, up, mid);
    InsertBefore(kids, slot + 1, n, mid + 1);
  }

  /** Whatever branch is taken, the two halves together are the widened node. */
  lemma CutAndPutIsWide<T>(keys: seq<Key>, kids: seq<T>, slot: nat, up: Key, n: T)
    requires |kids| == |keys| + 1 && slot <= |keys| && 4 <= |keys|
    ensures AreHalves(InsertAt(keys, slot, up), InsertAt(kids, slot + 1, n), CutAndPut(keys, kids, slot, up, n))
    ensures var c := CutAndPut(keys, kids, slot, up, n);
            && |keys| / 2 <= |c.lkeys| <= |keys| && |keys| / 2 <= |c.rkeys| <= |keys|
            && |c.lkids| == |c.lkeys| + 1 && |c.rkids| == |c.rkeys| + 1
  {
    var mid := CutSlot(|keys|, slot);
    CutFill(|keys|, slot);
    if slot == mid + 1 && mid < |keys| - (mid + 1) {
      CutAtSlot(keys, kids, slot, up, n);
    } else if slot >= mid + 1 {
      CutLeftOfSlot(keys, kids, slot, up, n);
    } else {
      CutRightOfSlot(keys, kids, slot, up, n);
    }
  }

  // --- the whole descent

  lemma PutSlotAt<V>(items: seq<Item<V>>, x: Item<V>)
    requires SortedItems(items)
    ensures items != [] ==>
              var q, last := PutSlot(items, x), items[|items| - 1].key;
              q[|q| - 1].key == if last < x.key then x.key else last
  {
    LowerAtMostUpper(Keys(items), x.key);
    if items != [] {
      LastAfterInsert(items, Upper(Keys(items), x.key), x);
    }
  }

  lemma InsertLeafCorrect<R, V>(p: Params, t: Tree<R, V>, root: bool, x: Item<V>, n: R)
    requires t.Leaf? && Valid(p, t, 0, root) && Ordered(t)
    ensures var o := InsertLeaf(p, t, x, n);
            && (o.Present? <==> !p.duplicates && x.key in Keys(t.items))
            && (!o.Present? ==> Inserted(p, t, 0, root, x, o, Position(p, t, 0, x)))
  {
    var ks := Keys(t.items);
    LowerFinds(ks, x.key);
    LowerAtMostUpper(ks, x.key);
    var o := InsertLeaf(p, t, x, n);
    if o.Grown? {
      FlatOne(o.t);
    } else if o.Split? {
      SplitLeafCorrect(p, t, x, n);
    }
  }

  /** The two leaves hold the old pairs and the new one, whichever half it goes to. */
  lemma SplitLeafPairs<R, V>(p: Params, t: Tree<R, V>, x: Item<V>, n: R)
    requires t.Leaf? && Ordered(t) && |t.items| == p.leafMax
    requires InsertLeaf(p, t, x, n).Split?
    ensures Flat(InsertLeaf(p, t, x, n).Row()) == InsertAt(t.items, Position(p, t, 0, x), x)
  {
    var o := InsertLeaf(p, t, x, n);
    var mid := |t.items| / 2;
    var l, r := t.items[..mid], t.items[mid..];
    FlatPair(o.l, o.n);
    assert t.items == l + r;
    if Lower(Keys(t.items), x.key) < mid {
      InsertLeft(l, r, Upper(Keys(l), x.key), x);
    } else {
      InsertRight(l, r, Upper(Keys(r), x.key), x);
    }
  }

  lemma SplitLeafPosition<R, V>(p: Params, t: Tree<R, V>, x: Item<V>)
    requires t.Leaf? && Ordered(t) && |t.items| == p.leafMax
    ensures var ks := Keys(t.items); Lower(ks, x.key) <= Position(p, t, 0, x) <= Upper(ks, x.key)
  {
    var ks := Keys(t.items);
    var mid := |t.items| / 2;
    var l, r := t.items[..mid], t.items[mid..];
    assert ks == Keys(l) + Keys(r) by {
      assert t.items == l + r;
      KeysConcat(l, r);
    }
    if Lower(ks, x.key) < mid {
      LowerPrefix(Keys(l), Keys(r), x.key);
      LowerAtMostUpper(Keys(l), x.key);
      UpperPrefix(Keys(l), Keys(r), x.key);
    } else {
      LowerSuffix(Keys(l), Keys(r), x.key);
      LowerAtMostUpper(Keys(r), x.key);
      UpperSuffix(Keys(l), Keys(r), x.key);
    }
  }

  /** The separator is the last key of the left leaf, even after the new pair has gone there. */
  lemma SplitLeafKey<R, V>(p: Params, t: Tree<R, V>, x: Item<V>, n: R)
    requires t.Leaf? && Ordered(t) && |t.items| == p.leafMax
    requires InsertLeaf(p, t, x, n).Split?
    ensures var o := InsertLeaf(p, t, x, n); o.up == MaxKey(o.l)
  {
    hide Upper, Lower, Flat, InsertAt;
    var ks := Keys(t.items);
    var mid := |t.items| / 2;
    var l := t.items[..mid];
    var slot := Lower(ks, x.key);
    if slot < mid {
      assert x.key <= l[mid - 1].key && SortedItems(l) by {
        hide Lower;
        LowerFacts(ks, x.key);
        assert ks[slot] <= ks[mid - 1];
        assert Keys(l) == ks[..mid] && ks == ks[..mid] + ks[mid..];
        SortedParts(ks[..mid], ks[mid..]);
      }
      PutSlotAt(l, x);
    }
  }

  lemma SplitLeafCorrect<R, V>(p: Params, t: Tree<R, V>, x: Item<V>, n: R)
    requires t.Leaf? && Ordered(t) && |t.items| == p.leafMax
    requires InsertLeaf(p, t, x, n).Split?
    ensures Inserted(p, t, 0, false, x, InsertLeaf(p, t, x, n), Position(p, t, 0, x))
  {
    hide Flat, MaxKey, Lower, Upper, Keys, Position;
    SplitLeafPairs(p, t, x, n);
    SplitLeafPosition(p, t, x);
    SplitLeafKey(p, t, x, n);
  }

  lemma SplitKidMax<R, V>(p: Params, t: Tree<R, V>, h: nat, root: bool, x: Item<V>, at: Iter<R>, l: Tree<R, V>, up: Key,
                          n: Tree<R, V>, pos: nat)
    requires t.Inner? && Valid(p, t, h, root) && Ordered(t)
    requires Inserted(p, t.kids[Lower(t.keys, x.key)], h - 1, false, x, Split(at, l, up, n), pos)
    ensures var slot := Lower(t.keys, x.key); slot < |t.keys| ==> MaxKey(n) == t.keys[slot]
  {
    hide Flat, MaxKey, Upper, Keys, SortedItems;
    var slot := Lower(t.keys, x.key);
    LowerFacts(t.keys, x.key);
    KidSplit(t.kids, slot);
    MaxAfterInsert(p, t.kids[slot], h - 1, false, x, [l, n], pos);
  }

  /** The widened row of children: valid, with exact separators and the new pair in place. */
  lemma WideRow<R, V>(p: Params, t: Tree<R, V>, h: nat, root: bool, x: Item<V>, at: Iter<R>, l: Tree<R, V>, up: Key,
                      n: Tree<R, V>, pos: nat)
    requires t.Inner? && Valid(p, t, h, root) && Ordered(t)
    requires Inserted(p, t.kids[Lower(t.keys, x.key)], h - 1, false, x, Split(at, l, up, n), pos)
    ensures var slot := Lower(t.keys, x.key);
            var wk, wc, q := InsertAt(t.keys, slot, up), InsertAt(t.kids[slot := l], slot + 1, n),
                Before(t.kids, slot) + pos;
            && q <= |Contents(t)|
            && Exact(wk, wc) && AllValid(p, wc, h - 1) && Flat(wc) == InsertAt(Contents(t), q, x)
            && Lower(Keys(Contents(t)), x.key) <= q <= Upper(Keys(Contents(t)), x.key)
  {
    hide Flat, MaxKey, Lower, Upper, Keys, SortedItems;
    var slot := Lower(t.keys, x.key);
    RowAround(p, t, h, root, x, [l, n], pos);
    SplitKidMax(p, t, h, root, x, at, l, up, n, pos);
    WidenedRow(p, t.keys, t.kids, h - 1, slot, l, up, n);
  }

  lemma InsertInnerCorrect<R, V>(p: Params, t: Tree<R, V>, h: nat, root: bool, x: Item<V>, at: Iter<R>,
                                 l: Tree<R, V>, up: Key, n: Tree<R, V>, pos: nat, nr: R)
    requires t.Inner? && Valid(p, t, h, root) && Ordered(t)
    requires Inserted(p, t.kids[Lower(t.keys, x.key)], h - 1, false, x, Split(at, l, up, n), pos)
    ensures var slot := Lower(t.keys, x.key);
            var o := InsertInner(p, t, slot, at, l, up, n, nr);
            !o.Present? && Inserted(p, t, h, root, x, o, Before(t.kids, slot) + pos)
  {
    hide Flat, MaxKey, Lower, Upper, Keys, AreHalves, CutAndPut, SortedItems, Before, AllValid, Exact;
    var slot := Lower(t.keys, x.key);
    InnerFull(p, t, h, root);
    var wk, wc := InsertAt(t.keys, slot, up), InsertAt(t.kids[slot := l], slot + 1, n);
    WideRow(p, t, h, root, x, at, l, up, n, pos);
    if |t.keys| < p.innerMax {
      FlatOne(Inner(t.r, wk, wc));
      MakeInner(p, t.r, wk, wc, h, root);
    } else {
      CutAndPutIsWide(t.keys, t.kids[slot := l], slot, up, n);
      HalvesValid(p, t.r, wk, wc, h, CutAndPut(t.keys, t.kids[slot := l], slot, up, n), nr);
    }
  }

  lemma InnerFull<R, V>(p: Params, t: Tree<R, V>, h: nat, root: bool)
    requires t.Inner? && Valid(p, t, h, root)
    ensures |t.kids| == |t.keys| + 1 && 1 <= |t.keys| <= p.innerMax && h > 0 && (root || p.InnerMin() <= |t.keys|)
  {
  }

  lemma HalvesValid<R, V>(p: Params, r: R, keys: seq<Key>, kids: seq<Tree<R, V>>, h: nat, c: Halves<Tree<R, V>>, nr: R)
    requires h > 0 && Exact(keys, kids) && AllValid(p, kids, h - 1) && AreHalves(keys, kids, c)
    requires 1 <= |c.lkeys| <= p.innerMax && 1 <= |c.rkeys| <= p.innerMax
    requires p.InnerMin() <= |c.lkeys| && p.InnerMin() <= |c.rkeys|
    ensures var l, n := Inner(r, c.lkeys, c.lkids), Inner(nr, c.rkeys, c.rkids);
            Valid(p, l, h, false) && Valid(p, n, h, false) && c.up == MaxKey(l) && Flat([l, n]) == Flat(kids)
  {
    CutRow(p, keys, kids, h - 1, |c.lkeys|);
    FlatPair(Inner(r, c.lkeys, c.lkids), Inner(nr, c.rkeys, c.rkids));
    MakeInner(p, r, c.lkeys, c.lkids, h, false);
    MakeInner(p, nr, c.rkeys, c.rkids, h, false);
  }

  /** The greatest key of a row of trees that holds the pairs of `t` and `x`. */
  lemma MaxAfterInsert<R, V>(p: Params, t: Tree<R, V>, h: nat, root: bool, x: Item<V>, row: seq<Tree<R, V>>, pos: nat)
    requires Valid(p, t, h, root) && Ordered(t)
    requires row != [] && AllValid(p, row, h)
    requires Lower(Keys(Contents(t)), x.key) <= pos <= Upper(Keys(Contents(t)), x.key)
    requires Flat(row) == InsertAt(Contents(t), pos, x)
    ensures MaxKey(row[|row| - 1]) == if MaxKey(t) < x.key then x.key else MaxKey(t)
  {
    hide Lower, Upper, Flat, MaxKey, SortedItems, Valid, InsertAt;
    LastOfRow(p, row, h);
    MaxKeyIsLast(p, t, h, root);
    LastAfterInsert(Contents(t), pos, x);
  }

  /** What an insertion into the child picked by the descent means for the whole row. */
  lemma RowAround<R, V>(p: Params, t: Tree<R, V>, h: nat, root: bool, x: Item<V>, row: seq<Tree<R, V>>, pos: nat)
    requires t.Inner? && Valid(p, t, h, root) && Ordered(t)
    requires var kid := t.kids[Lower(t.keys, x.key)];
             && Lower(Keys(Contents(kid)), x.key) <= pos <= Upper(Keys(Contents(kid)), x.key)
             && Flat(row) == InsertAt(Contents(kid), pos, x)
    ensures var slot := Lower(t.keys, x.key);
            var at := Before(t.kids, slot) + pos;
            && Lower(Keys(Contents(t)), x.key) <= at <= Upper(Keys(Contents(t)), x.key)
            && Flat(t.kids[..slot]) + Flat(row) + Flat(t.kids[slot + 1..]) == InsertAt(Contents(t), at, x)
  {
    hide Flat, MaxKey, Lower, Upper, Keys;
    var slot := Lower(t.keys, x.key);
    var a, c, b := Flat(t.kids[..slot]), Contents(t.kids[slot]), Flat(t.kids[slot + 1..]);
    assert Contents(t) == a + c + b by {
      FlatSplit(t.kids, slot);
    }
    KidSplit(t.kids, slot);
    DescendLower(p, t.keys, t.kids, h - 1, x.key);
    assert |a| + pos <= Upper(Keys(Contents(t)), x.key) by {
      UpperInMiddle(Keys(a), Keys(c), Keys(b), pos, x.key);
    }
    InsertMiddle(a, c, b, pos, x);
  }

  lemma GrownKid<R, V>(p: Params, t: Tree<R, V>, h: nat, root: bool, x: Item<V>, at: Iter<R>, kid: Tree<R, V>, pos: nat)
    requires t.Inner? && Valid(p, t, h, root) && Ordered(t)
    requires Inserted(p, t.kids[Lower(t.keys, x.key)], h - 1, false, x, Grown(at, kid), pos)
    ensures var slot := Lower(t.keys, x.key);
            Inserted(p, t, h, root, x, Grown(at, Inner(t.r, t.keys, t.kids[slot := kid])), Before(t.kids, slot) + pos)
  {
    hide Lower, Upper, Keys, Flat, MaxKey;
    var slot := Lower(t.keys, x.key);
    var kids' := t.kids[slot := kid];
    assert Flat([kid]) == Contents(kid) by {
      FlatOne(kid);
    }
    RowAround(p, t, h, root, x, [kid], pos);
    LowerFacts(t.keys, x.key);
    KidSplit(t.kids, slot);
    MaxAfterInsert(p, t.kids[slot], h - 1, false, x, [kid], pos);
    ReplaceKid(p, t.keys, t.kids, h - 1, slot, kid);
    MakeInner(p, t.r, t.keys, kids', h, root);
    FlatOne(Inner(t.r, t.keys, kids'));
  }

  /**
   * Insertion below any valid, ordered node: it declines exactly when equal keys are not wanted and the key is there,
   * and otherwise puts exactly the one pair in.
   */
  lemma {:induction false} InsertCorrect<R, V>(p: Params, t: Tree<R, V>, h: nat, root: bool, x: Item<V>, pool: seq<R>)
    requires Valid(p, t, h, root) && Ordered(t) && |pool| == h + 1
    ensures var o := Insert(p, t, x, pool);
            && (o.Present? <==> !p.duplicates && x.key in Keys(Contents(t)))
            && (!o.Present? ==> Inserted(p, t, h, root, x, o, Position(p, t, h, x)))
    decreases t
  {
    hide Flat, MaxKey, Lower, Upper, Keys, InsertInner, InsertLeaf;
    match t
    case Leaf(_, _) => InsertLeafCorrect(p, t, root, x, pool[h]);
    case Inner(r, keys, kids) =>
      var slot := Lower(keys, x.key);
      var pos := Position(p, kids[slot], h - 1, x);
      KidHasKey(p, t, h, x.key);
      InsertCorrect(p, kids[slot], h - 1, false, x, pool[..h]);
      match Insert(p, kids[slot], x, pool[..h])
      case Present(_) =>
      case Grown(at, kid) =>
        GrownKid(p, t, h, root, x, at, kid, pos);
      case Split(at, l, up, n) =>
        InsertInnerCorrect(p, t, h, root, x, at, l, up, n, pos, pool[h]);
  }
}
