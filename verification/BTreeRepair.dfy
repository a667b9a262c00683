/** What merging and shifting do to a pair of siblings and to the row they stand in. */
module BTreeRepair {
  import opened Sorted
  import opened BTree
  import opened BTreeErase

  /** Like `Valid` below a parent, but the topmost node may be one slot short. */
  predicate Short<R, V>(p: Params, t: Tree<R, V>, h: nat) {
    t.Min(p) <= t.Use() + 1 && t.Use() <= t.Max(p) && Below(p, t, h)
  }

  /** Two siblings with the separator between them, of which one is exactly one slot short. */
  predicate Pair<R, V>(p: Params, a: Tree<R, V>, sep: Key, b: Tree<R, V>, h: nat) {
    Short(p, a, h) && Short(p, b, h) && sep == MaxKey(a)
  }

  /** `s` holds what `a` and `b` hold, in two valid nodes with an exact separator. */
  ghost predicate SamePair<R, V>(p: Params, a: Tree<R, V>, b: Tree<R, V>, h: nat, s: (Tree<R, V>, Key, Tree<R, V>)) {
    && Valid(p, s.0, h, false) && Valid(p, s.2, h, false)
    && s.1 == MaxKey(s.0) && MaxKey(s.2) == MaxKey(b)
    && Contents(s.0) + Contents(s.2) == Contents(a) + Contents(b)
    && s.0.r == a.r && s.2.r == b.r
  }

  lemma RowJoin<R, V>(p: Params, ak: seq<Key>, ac: seq<Tree<R, V>>, sep: Key, bk: seq<Key>, bc: seq<Tree<R, V>>, h: nat)
    requires Exact(ak, ac) && Exact(bk, bc) && AllValid(p, ac, h) && AllValid(p, bc, h)
    requires sep == MaxKey(ac[|ak|])
    ensures Exact(ak + [sep] + bk, ac + bc) && AllValid(p, ac + bc, h)
    ensures Flat(ac + bc) == Flat(ac) + Flat(bc)
  {
    hide MaxKey, Below, Fill, Flat;
    FlatConcat(ac, bc);
  }

  lemma InnerMax<R, V>(t: Tree<R, V>)
    requires t.Inner? && t.kids != []
    ensures MaxKey(t) == MaxKey(t.kids[|t.kids| - 1])
  {
  }

  /** One node made of two rows with a separator between them. */
  lemma JoinNode<R, V>(p: Params, r: R, ak: seq<Key>, ac: seq<Tree<R, V>>, sep: Key, bk: seq<Key>, bc: seq<Tree<R, V>>,
                       h: nat)
    requires h > 0 && Exact(ak, ac) && Exact(bk, bc) && AllValid(p, ac, h - 1) && AllValid(p, bc, h - 1)
    requires sep == MaxKey(ac[|ak|])
    requires 1 <= |ak| + 1 + |bk| <= p.innerMax && p.InnerMin() <= |ak| + 1 + |bk|
    ensures var t := Inner(r, ak + [sep] + bk, ac + bc);
            Valid(p, t, h, false) && Contents(t) == Flat(ac) + Flat(bc) && MaxKey(t) == MaxKey(bc[|bk|])
  {
    var t := Inner(r, ak + [sep] + bk, ac + bc);
    InnerMax(t);
    hide MaxKey, Below, Fill, Flat;
    RowJoin(p, ak, ac, sep, bk, bc, h - 1);
    MakeInner(p, r, ak + [sep] + bk, ac + bc, h, false);
  }

  lemma PartNode<R, V>(p: Params, r: R, keys: seq<Key>, kids: seq<Tree<R, V>>, h: nat)
    requires h > 0 && Exact(keys, kids) && AllValid(p, kids, h - 1)
    requires 1 <= |keys| <= p.innerMax && p.InnerMin() <= |keys|
    ensures var t := Inner(r, keys, kids);
            Valid(p, t, h, false) && Contents(t) == Flat(kids) && MaxKey(t) == MaxKey(kids[|keys|])
  {
    MakeInner(p, r, keys, kids, h, false);
    InnerMax(Inner(r, keys, kids));
  }

  lemma Reassociate<T>(a: seq<T>, b: seq<T>, c: seq<T>)
    ensures a + b + c == a + (b + c)
  {
  }

  lemma MergeCorrect<R, V>(p: Params, a: Tree<R, V>, sep: Key, b: Tree<R, V>, h: nat)
    requires Pair(p, a, sep, b, h)
    requires a.Use() + b.Use() < a.Max(p) && a.Min(p) <= a.Use() + b.Use()
    ensures var m := Merge(a, sep, b);
            && Valid(p, m, h, false) && MaxKey(m) == MaxKey(b) && Contents(m) == Contents(a) + Contents(b) && m.r == a.r
  {
    if a.Inner? {
      InnerMax(a);
      InnerMax(b);
      hide MaxKey, Flat;
      JoinNode(p, a.r, a.keys, a.kids, sep, b.keys, b.kids, h);
    }
  }

  lemma TakeFromRightCorrect<R, V>(p: Params, a: Tree<R, V>, sep: Key, b: Tree<R, V>, h: nat)
    requires Pair(p, a, sep, b, h)
    requires a.Use() + 1 == a.Min(p) && a.Min(p) < b.Use()
    ensures SamePair(p, a, b, h, TakeFromRight(a, sep, b))
  {
    if a.Leaf? {
      LeavesFromRight(p, a, sep, b);
    } else {
      InnersFromRight(p, a, sep, b, h);
    }
  }

  lemma BelowParts<R, V>(p: Params, t: Tree<R, V>, h: nat)
    requires t.Inner? && Below(p, t, h)
    ensures h > 0 && Exact(t.keys, t.kids) && AllValid(p, t.kids, h - 1)
  {
    hide MaxKey;
  }

  /** Moving the cut between two inner nodes to the right. */
  lemma RecutRight<R, V>(p: Params, a: Tree<R, V>, sep: Key, b: Tree<R, V>, h: nat, c: nat)
    requires a.Inner? && b.Inner? && Below(p, a, h) && Below(p, b, h) && sep == MaxKey(a)
    requires c < |b.keys| && p.InnerMin() <= |a.keys| + 1 + c <= p.innerMax
             && p.InnerMin() <= |b.keys| - c - 1 <= p.innerMax
    ensures SamePair(p, a, b, h, (Inner(a.r, a.keys + [sep] + b.keys[..c], a.kids + b.kids[..c + 1]), b.keys[c],
                                  Inner(b.r, b.keys[c + 1..], b.kids[c + 1..])))
  {
    hide MaxKey, Flat, Below, Fill, AllValid;
    BelowParts(p, a, h);
    BelowParts(p, b, h);
    InnerMax(a);
    InnerMax(b);
    var lk, lc, rk, rc := b.keys[..c], b.kids[..c + 1], b.keys[c + 1..], b.kids[c + 1..];
    CutRow(p, b.keys, b.kids, h - 1, c);
    assert lc[c] == b.kids[c] && rc[|rk|] == b.kids[|b.keys|];
    hide Exact;
    JoinNode(p, a.r, a.keys, a.kids, sep, lk, lc, h);
    PartNode(p, b.r, rk, rc, h);
    Reassociate(Flat(a.kids), Flat(lc), Flat(rc));
  }

  lemma TakeFromLeftCorrect<R, V>(p: Params, a: Tree<R, V>, sep: Key, b: Tree<R, V>, h: nat)
    requires Pair(p, a, sep, b, h)
    requires b.Use() + 1 == b.Min(p) && b.Min(p) < a.Use()
    ensures SamePair(p, a, b, h, TakeFromLeft(a, sep, b))
  {
    if a.Leaf? {
      LeavesFromLeft(p, a, sep, b);
    } else {
      InnersFromLeft(p, a, sep, b, h);
    }
  }

  lemma LeavesFromRight<R, V>(p: Params, a: Tree<R, V>, sep: Key, b: Tree<R, V>)
    requires a.Leaf? && Pair(p, a, sep, b, 0) && a.Use() + 1 == a.Min(p) && a.Min(p) < b.Use()
    ensures SamePair(p, a, b, 0, TakeFromRight(a, sep, b))
  {
    var n := ShiftCount(b.Use(), a.Use());
    Reassociate(a.items, b.items[..n], b.items[n..]);
    assert b.items == b.items[..n] + b.items[n..];
  }

  lemma InnersFromRight<R, V>(p: Params, a: Tree<R, V>, sep: Key, b: Tree<R, V>, h: nat)
    requires a.Inner? && Pair(p, a, sep, b, h) && a.Use() + 1 == a.Min(p) && a.Min(p) < b.Use()
    ensures SamePair(p, a, b, h, TakeFromRight(a, sep, b))
  {
    hide Flat, MaxKey, SamePair;
    RecutRight(p, a, sep, b, h, ShiftCount(b.Use(), a.Use()) - 1);
  }

  lemma LeavesFromLeft<R, V>(p: Params, a: Tree<R, V>, sep: Key, b: Tree<R, V>)
    requires a.Leaf? && Pair(p, a, sep, b, 0) && b.Use() + 1 == b.Min(p) && b.Min(p) < a.Use()
    ensures SamePair(p, a, b, 0, TakeFromLeft(a, sep, b))
  {
    var m := a.Use() - ShiftCount(a.Use(), b.Use());
    Reassociate(a.items[..m], a.items[m..], b.items);
    assert a.items == a.items[..m] + a.items[m..];
  }

  lemma InnersFromLeft<R, V>(p: Params, a: Tree<R, V>, sep: Key, b: Tree<R, V>, h: nat)
    requires a.Inner? && Pair(p, a, sep, b, h) && b.Use() + 1 == b.Min(p) && b.Min(p) < a.Use()
    ensures SamePair(p, a, b, h, TakeFromLeft(a, sep, b))
  {
    hide Flat, MaxKey, SamePair;
    RecutLeft(p, a, sep, b, h, a.Use() - ShiftCount(a.Use(), b.Use()));
  }

  /** Moving the cut between two inner nodes to the left. */
  lemma RecutLeft<R, V>(p: Params, a: Tree<R, V>, sep: Key, b: Tree<R, V>, h: nat, m: nat)
    requires a.Inner? && b.Inner? && Below(p, a, h) && Below(p, b, h) && sep == MaxKey(a)
    requires m < |a.keys| && p.InnerMin() <= m <= p.innerMax && p.InnerMin() <= |a.keys| - m + |b.keys| <= p.innerMax
    ensures SamePair(p, a, b, h, (Inner(a.r, a.keys[..m], a.kids[..m + 1]), a.keys[m],
                                  Inner(b.r, a.keys[m + 1..] + [sep] + b.keys, a.kids[m + 1..] + b.kids)))
  {
    hide MaxKey, Flat, Below, Fill, AllValid;
    BelowParts(p, a, h);
    BelowParts(p, b, h);
    InnerMax(a);
    InnerMax(b);
    var lk, lc, rk, rc := a.keys[..m], a.kids[..m + 1], a.keys[m + 1..], a.kids[m + 1..];
    CutRow(p, a.keys, a.kids, h - 1, m);
    assert lc[m] == a.kids[m] && rc[|rk|] == a.kids[|a.keys|];
    hide Exact;
    JoinNode(p, b.r, rk, rc, sep, b.keys, b.kids, h);
    PartNode(p, a.r, lk, lc, h);
    Reassociate(Flat(lc), Flat(rc), Flat(b.kids));
  }

  // ------------------------------------------------------------------- rows

  predicate AllValidBut<R, V>(p: Params, kids: seq<Tree<R, V>>, h: nat, slot: nat) {
    forall i :: 0 <= i < |kids| && i != slot ==> Valid(p, kids[i], h, false)
  }

  /** A row with the pair at `i` replaced by another pair that holds the same. */
  lemma PairInRow<R, V>(p: Params, keys: seq<Key>, kids: seq<Tree<R, V>>, h: nat, i: nat, slot: nat,
                        s: (Tree<R, V>, Key, Tree<R, V>))
    requires Exact(keys, kids) && AllValidBut(p, kids, h, slot) && i < |keys| && i <= slot <= i + 1
    requires SamePair(p, kids[i], kids[i + 1], h, s)
    ensures var keys', kids' := keys[i := s.1], kids[i := s.0][i + 1 := s.2];
            && Exact(keys', kids') && AllValid(p, kids', h) && Flat(kids') == Flat(kids)
            && MaxKey(kids'[|keys|]) == MaxKey(kids[|keys|])
  {
    var kids' := kids[i := s.0][i + 1 := s.2];
    hide Below, Fill, MaxKey;
    FlatAround(kids, i);
    FlatAround(kids', i);
    assert kids'[..i] == kids[..i] && kids'[i + 2..] == kids[i + 2..];
  }

  lemma FlatAround<R, V>(kids: seq<Tree<R, V>>, i: nat)
    requires i + 1 < |kids|
    ensures Flat(kids) == Flat(kids[..i]) + (Contents(kids[i]) + Contents(kids[i + 1])) + Flat(kids[i + 2..])
  {
    hide Contents;
    var right := kids[i + 1..];
    FlatSplit(kids, i);
    assert right[0] == kids[i + 1] && right[1..] == kids[i + 2..];
    Reassociate(Contents(kids[i]), Contents(kids[i + 1]), Flat(kids[i + 2..]));
    Reassociate(Flat(kids[..i]), Contents(kids[i]), Contents(kids[i + 1]) + Flat(kids[i + 2..]));
    Reassociate(Flat(kids[..i]), Contents(kids[i]) + Contents(kids[i + 1]), Flat(kids[i + 2..]));
  }

  /** A row in which the pair at `i` has become the one tree `m`. */
  lemma MergedInRow<R, V>(p: Params, keys: seq<Key>, kids: seq<Tree<R, V>>, h: nat, i: nat, slot: nat, m: Tree<R, V>)
    requires Exact(keys, kids) && AllValidBut(p, kids, h, slot) && i < |keys| && i <= slot <= i + 1
    requires Valid(p, m, h, false) && MaxKey(m) == MaxKey(kids[i + 1])
    requires Contents(m) == Contents(kids[i]) + Contents(kids[i + 1])
    ensures var keys', kids' := RemoveAt(keys, i), RemoveAt(kids[i := m], i + 1);
            && Exact(keys', kids') && AllValid(p, kids', h) && Flat(kids') == Flat(kids)
            && MaxKey(kids'[|keys'|]) == MaxKey(kids[|keys|])
  {
    hide Below, Fill, MaxKey, Flat, Contents, RemoveAt;
    var keys', kids' := RemoveAt(keys, i), RemoveAt(kids[i := m], i + 1);
    RemoveAtIndex(keys, i);
    RemoveAtIndex(kids[i := m], i + 1);
    FlatAround(kids, i);
    FlatSplit(kids', i);
    JoinedSlices(kids, i, m);
  }

  lemma JoinedSlices<T>(s: seq<T>, i: nat, m: T)
    requires i + 1 < |s|
    ensures var r := RemoveAt(s[i := m], i + 1);
            |r| == |s| - 1 && r[..i] == s[..i] && r[i] == m && r[i + 1..] == s[i + 2..]
  {
  }
}
