/** The shape of a B+ tree, what it holds, and the invariant that the source's `verify` checks. */
module BTree {
  import opened Sorted

  /** Slot capacities of leaves and inner nodes, and whether equal keys may be stored. */
  datatype ParamsRaw = Params(leafMax: nat, innerMax: nat, duplicates: bool) {
    function LeafMin(): nat { leafMax / 2 }
    function InnerMin(): nat { innerMax / 2 }
  }
  type Params = p: ParamsRaw | 4 <= p.leafMax && 4 <= p.innerMax witness Params(8, 8, false)

  /** A tree of nodes; `r` is the address of the node. */
  datatype Tree<R, V> =
    | Leaf(r: R, items: seq<Item<V>>)
    | Inner(r: R, keys: seq<Key>, kids: seq<Tree<R, V>>)
  {
    /** The source's `slotuse`. */
    function Use(): nat {
      if Leaf? then |items| else |keys|
    }

    function Max(p: Params): nat {
      if Leaf? then p.leafMax else p.innerMax
    }

    function Min(p: Params): nat {
      if Leaf? then p.LeafMin() else p.InnerMin()
    }
  }

  // ---------------------------------------------------------------- contents

  /** The pairs of a tree from left to right. */
  function Contents<R, V>(t: Tree<R, V>): seq<Item<V>> {
    match t
    case Leaf(_, items) => items
    case Inner(_, _, kids) => Flat(kids)
  }

  function Flat<R, V>(kids: seq<Tree<R, V>>): seq<Item<V>> {
    if kids == [] then [] else Contents(kids[0]) + Flat(kids[1..])
  }

  lemma {:induction false} FlatConcat<R, V>(a: seq<Tree<R, V>>, b: seq<Tree<R, V>>)
    ensures Flat(a + b) == Flat(a) + Flat(b)
  {
    hide Flat, Contents;
    if a == [] {
      FlatNone<R, V>();
      assert a + b == b;
    } else {
      FlatConcat(a[1..], b);
      assert (a + b)[1..] == a[1..] + b;
      FlatStep(a);
      FlatStep(a + b);
      Associate(Contents(a[0]), Flat(a[1..]), Flat(b));
    }
  }

  lemma FlatNone<R, V>()
    ensures Flat<R, V>([]) == []
  {
  }

  lemma FlatStep<R, V>(a: seq<Tree<R, V>>)
    requires a != []
    ensures Flat(a) == Contents(a[0]) + Flat(a[1..])
  {
  }

  lemma Associate<T>(a: seq<T>, b: seq<T>, c: seq<T>)
    ensures a + (b + c) == a + b + c
  {
  }

  lemma FlatOne<R, V>(t: Tree<R, V>)
    ensures Flat([t]) == Contents(t)
  {
    assert Flat([t]) == Contents(t) + Flat<R, V>([]);
  }

  /** The pairs of a row of trees, cut around the tree at `i`. */
  lemma FlatSplit<R, V>(kids: seq<Tree<R, V>>, i: nat)
    requires i < |kids|
    ensures Flat(kids) == Flat(kids[..i]) + Contents(kids[i]) + Flat(kids[i + 1..])
  {
    hide Contents;
    var right := kids[i..];
    assert kids == kids[..i] + right;
    FlatConcat(kids[..i], right);
    assert right[0] == kids[i] && right[1..] == kids[i + 1..];
  }

  /** The greatest key of a valid tree: the last key of its last leaf. */
  function MaxKey<R, V>(t: Tree<R, V>): Key {
    match t
    case Leaf(_, items) => if items == [] then 0 else items[|items| - 1].key
    case Inner(_, _, kids) => if kids == [] then 0 else MaxKey(kids[|kids| - 1])
  }

  /** Each separator is the exact greatest key of the child to its left. */
  predicate Exact<R, V>(keys: seq<Key>, kids: seq<Tree<R, V>>) {
    && |kids| == |keys| + 1
    && forall i :: 0 <= i < |keys| ==> keys[i] == MaxKey(kids[i])
  }

  // --------------------------------------------------------------- invariant

  /** How many slots a node may use; only the root may be less than half full. */
  predicate Fill<R, V>(p: Params, t: Tree<R, V>, root: bool) {
    && 1 <= t.Use() <= t.Max(p)
    && (root || t.Min(p) <= t.Use())
  }

  /** Everything below the topmost node of `t` is as it should be, with all leaves at depth `h`. */
  predicate Below<R, V>(p: Params, t: Tree<R, V>, h: nat) {
    match t
    case Leaf(_, items) => h == 0
    case Inner(_, keys, kids) =>
      && h > 0
      && Exact(keys, kids)
      && forall i :: 0 <= i < |kids| ==> Fill(p, kids[i], false) && Below(p, kids[i], h - 1)
  }

  predicate Valid<R, V>(p: Params, t: Tree<R, V>, h: nat, root: bool) {
    Fill(p, t, root) && Below(p, t, h)
  }

  predicate AllValid<R, V>(p: Params, kids: seq<Tree<R, V>>, h: nat) {
    forall i :: 0 <= i < |kids| ==> Valid(p, kids[i], h, false)
  }

  /** The keys of the whole tree are in order. */
  ghost predicate Ordered<R, V>(t: Tree<R, V>) {
    SortedItems(Contents(t))
  }

  lemma {:induction false} MaxKeyIsLast<R, V>(p: Params, t: Tree<R, V>, h: nat, root: bool)
    requires Valid(p, t, h, root)
    ensures |Contents(t)| > 0
    ensures MaxKey(t) == Contents(t)[|Contents(t)| - 1].key
    decreases t
  {
    match t
    case Leaf(_, items) =>
    case Inner(_, keys, kids) =>
      var n := |kids| - 1;
      MaxKeyIsLast(p, kids[n], h - 1, false);
      FlatSplit(kids, n);
      assert kids[n + 1..] == [];
  }

  lemma MakeInner<R, V>(p: Params, r: R, keys: seq<Key>, kids: seq<Tree<R, V>>, h: nat, root: bool)
    requires h > 0 && Exact(keys, kids) && AllValid(p, kids, h - 1)
    requires 1 <= |keys| <= p.innerMax && (root || p.InnerMin() <= |keys|)
    ensures Valid(p, Inner(r, keys, kids), h, root)
  {
  }

  /** Replacing one child of a row by a tree that ends at the same separator. */
  lemma ReplaceKid<R, V>(p: Params, keys: seq<Key>, kids: seq<Tree<R, V>>, h: nat, slot: nat, kid: Tree<R, V>)
    requires Exact(keys, kids) && AllValid(p, kids, h) && slot <= |keys|
    requires Valid(p, kid, h, false) && (slot < |keys| ==> MaxKey(kid) == keys[slot])
    ensures Exact(keys, kids[slot := kid]) && AllValid(p, kids[slot := kid], h)
    ensures Flat(kids[slot := kid]) == Flat(kids[..slot]) + Contents(kid) + Flat(kids[slot + 1..])
  {
    var kids' := kids[slot := kid];
    FlatSplit(kids', slot);
    assert kids'[..slot] == kids[..slot] && kids'[slot + 1..] == kids[slot + 1..];
  }

  /** Cutting a row at a separator gives two rows, and that separator stands between them. */
  lemma CutRow<R, V>(p: Params, keys: seq<Key>, kids: seq<Tree<R, V>>, h: nat, cut: nat)
    requires Exact(keys, kids) && AllValid(p, kids, h) && cut < |keys|
    ensures Exact(keys[..cut], kids[..cut + 1]) && AllValid(p, kids[..cut + 1], h)
    ensures Exact(keys[cut + 1..], kids[cut + 1..]) && AllValid(p, kids[cut + 1..], h)
    ensures keys[cut] == MaxKey(kids[cut])
    ensures Flat(kids) == Flat(kids[..cut + 1]) + Flat(kids[cut + 1..])
  {
    hide Flat, MaxKey, Below, Fill;
    assert kids == kids[..cut + 1] + kids[cut + 1..];
    FlatConcat(kids[..cut + 1], kids[cut + 1..]);
  }
}
