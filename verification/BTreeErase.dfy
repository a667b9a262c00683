/** Deletion: removing one pair from a leaf and repairing underfull nodes on the way back. */
module BTreeErase {
  import opened Options
  import opened Sorted
  import opened BTree
  import opened BTreeSearch

  /** How an underfull node is repaired: with its left or right sibling, by merging or by shifting pairs. */
  datatype Action = MergeLeft | MergeRight | ShiftLeft | ShiftRight

  /**
   * The parent after one of its children lost a pair: `last` is a changed greatest key that a separator further up must
   * take over, and `merged` says that a child was emptied and must still be dropped. `Stuck` stands for a step that the
   * source could not take: one of its assertions would fail, or a sibling that the chosen repair needs would not be
   * there.
   */
  datatype Outcome<R, V> = NotFound | Erased(t: Tree<R, V>, last: Option<Key>, merged: bool) | Stuck

  // ------------------------------------------------------------ the algorithm

  /**
   * The node that the descent passes down as the left neighbour of child `slot`: the sibling or, for the first child, a
   * child of the parent's own left neighbour. That one is not the nearest: the source takes the child at `slotuse - 1`,
   * and the nearest is the child at `slotuse`.
   */
  function LeftOf<R, V>(t: Tree<R, V>, slot: nat, left: Option<Tree<R, V>>): (r: Option<Tree<R, V>>)
    requires t.Inner? && slot < |t.kids|
    requires left.Some? ==> left.value.Inner? && |left.value.kids| >= |left.value.keys| >= 1
  {
    if slot > 0 then Some(t.kids[slot - 1])
    else if left.None? then None
    else Some(left.value.kids[|left.value.keys| - 1])
  }

  function RightOf<R, V>(t: Tree<R, V>, slot: nat, right: Option<Tree<R, V>>): (r: Option<Tree<R, V>>)
    requires t.Inner? && slot < |t.kids|
    requires right.Some? ==> right.value.Inner? && right.value.kids != []
  {
    if slot < |t.kids| - 1 then Some(t.kids[slot + 1])
    else if right.None? then None
    else Some(right.value.kids[0])
  }

  /**
   * The choice among the repairs. `left` and `right` are the slot counts of the neighbours passed down, `hasL` and
   * `hasR` say whether they hang from the same parent as the underfull node.
   */
  function Choose(min: nat, left: Option<nat>, right: Option<nat>, hasL: bool, hasR: bool): Action
    requires hasL ==> left.Some?
    requires hasR ==> right.Some?
  {
    var fewL := left.None? || left.value <= min;
    var fewR := right.None? || right.value <= min;
    if fewL && fewR then
      if hasL then MergeLeft else MergeRight
    else if left.Some? && fewL && !fewR then
      if hasR then ShiftLeft else MergeLeft
    else if !fewL && right.Some? && fewR then
      if hasL then ShiftRight else MergeRight
    else if hasL && hasR then
      if left.value <= right.value then ShiftLeft else ShiftRight
    else
      if hasL then ShiftRight else ShiftLeft
  }

  function Uses<R, V>(t: Option<Tree<R, V>>): Option<nat> {
    if t.None? then None else Some(t.value.Use())
  }

  /** `a` takes everything from its right sibling `b`; `sep` is the separator between them. */
  function Merge<R, V>(a: Tree<R, V>, sep: Key, b: Tree<R, V>): Tree<R, V>
    requires a.Leaf? <==> b.Leaf?
  {
    if a.Leaf? then Leaf(a.r, a.items + b.items)
    else Inner(a.r, a.keys + [sep] + b.keys, a.kids + b.kids)
  }

  /** The node left over by a merge: no slot of it is in use. */
  function Emptied<R, V>(b: Tree<R, V>): Tree<R, V> {
    if b.Leaf? then Leaf(b.r, []) else Inner(b.r, [], [])
  }

  /** How many slots are moved between two siblings. */
  function ShiftCount(more: nat, less: nat): nat
    requires less <= more
  {
    (more - less) / 2
  }

  /** Pairs or children move from `b` to its left sibling `a`. */
  function TakeFromRight<R, V>(a: Tree<R, V>, sep: Key, b: Tree<R, V>): (Tree<R, V>, Key, Tree<R, V>)
    requires a.Leaf? <==> b.Leaf?
    requires 1 <= a.Use() && a.Use() + 2 <= b.Use()
    requires b.Inner? ==> |b.kids| == |b.keys| + 1
  {
    var n := ShiftCount(b.Use(), a.Use());
    if a.Leaf? then
      var items := a.items + b.items[..n];
      (Leaf(a.r, items), items[|items| - 1].key, Leaf(b.r, b.items[n..]))
    else
      (Inner(a.r, a.keys + [sep] + b.keys[..n - 1], a.kids + b.kids[..n]), b.keys[n - 1],
       Inner(b.r, b.keys[n..], b.kids[n..]))
  }

  /** Pairs or children move from `a` to its right sibling `b`. */
  function TakeFromLeft<R, V>(a: Tree<R, V>, sep: Key, b: Tree<R, V>): (Tree<R, V>, Key, Tree<R, V>)
    requires a.Leaf? <==> b.Leaf?
    requires 1 <= b.Use() && b.Use() + 2 <= a.Use()
    requires a.Inner? ==> |a.kids| == |a.keys| + 1
  {
    var n := ShiftCount(a.Use(), b.Use());
    var m := a.Use() - n;
    if a.Leaf? then
      (Leaf(a.r, a.items[..m]), a.items[m - 1].key, Leaf(b.r, a.items[m..] + b.items))
    else
      (Inner(a.r, a.keys[..m], a.kids[..m + 1]), a.keys[m],
       Inner(b.r, a.keys[m + 1..] + [sep] + b.keys, a.kids[m + 1..] + b.kids))
  }

  /** The parent `t` with the children at `i` and `i + 1` and the separator between them replaced. */
  function SetPair<R, V>(t: Tree<R, V>, i: nat, s: (Tree<R, V>, Key, Tree<R, V>)): Tree<R, V>
    requires t.Inner? && i < |t.keys| && |t.kids| == |t.keys| + 1
  {
    Inner(t.r, t.keys[i := s.1], t.kids[i := s.0][i + 1 := s.2])
  }

  /** The siblings that an action on child `slot` works on: children `i` and `i + 1`. */
  function PairAt(action: Action, slot: nat): int {
    if action.MergeLeft? || action.ShiftRight? then slot - 1 else slot
  }

  /** When an action can be carried out on child `slot` of `t`. */
  predicate CanApply<R, V>(t: Tree<R, V>, slot: nat, action: Action) {
    && t.Inner? && |t.kids| == |t.keys| + 1
    && var i := PairAt(action, slot);
    && 0 <= i < |t.keys|
    && var a, b := t.kids[i], t.kids[i + 1];
    && (a.Leaf? <==> b.Leaf?)
    && (action.ShiftLeft? ==> 1 <= a.Use() && a.Use() + 2 <= b.Use() && (b.Inner? ==> |b.kids| == |b.keys| + 1))
    && (action.ShiftRight? ==> 1 <= b.Use() && b.Use() + 2 <= a.Use() && (a.Inner? ==> |a.kids| == |a.keys| + 1))
  }

  function Apply<R, V>(t: Tree<R, V>, slot: nat, action: Action): Tree<R, V>
    requires CanApply(t, slot, action)
  {
    var i := PairAt(action, slot);
    var a, sep, b := t.kids[i], t.keys[i], t.kids[i + 1];
    match action
    case MergeLeft => SetPair(t, i, (Merge(a, sep, b), sep, Emptied(b)))
    case MergeRight => SetPair(t, i, (Merge(a, sep, b), sep, Emptied(b)))
    case ShiftLeft => SetPair(t, i, TakeFromRight(a, sep, b))
    case ShiftRight => SetPair(t, i, TakeFromLeft(a, sep, b))
  }

  predicate CanDrop<R, V>(t: Tree<R, V>, slot: nat) {
    && t.Inner? && |t.kids| == |t.keys| + 1 && slot < |t.kids|
    && (t.kids[slot].Use() != 0 ==> slot + 1 < |t.kids| && t.kids[slot + 1].Use() == 0)
    && (t.kids[slot].Use() == 0 ==> slot > 0)
    && |t.keys| > 0
  }

  /** Dropping the child that a merge emptied: child `slot`, or the one after it. */
  function DropEmptied<R, V>(t: Tree<R, V>, slot: nat): Tree<R, V>
    requires CanDrop(t, slot)
  {
    var j := if t.kids[slot].Use() != 0 then slot + 1 else slot;
    var keys, kids := RemoveAt(t.keys, j - 1), RemoveAt(t.kids, j);
    // above the leaves the separator of the surviving leaf is read from that leaf again
    var keys' := if kids[0].Leaf? && j - 1 < |keys| then keys[j - 1 := MaxKey(kids[j - 1])] else keys;
    Inner(t.r, keys', kids)
  }

  /** Child `slot` of `t` now is `kid`, and a changed greatest key of it goes into the separator or further up. */
  function Renew<R, V>(t: Tree<R, V>, slot: nat, kid: Tree<R, V>, last: Option<Key>): (Tree<R, V>, Option<Key>)
    requires t.Inner? && slot < |t.kids|
  {
    if last.Some? && slot < |t.keys| then (Inner(t.r, t.keys[slot := last.value], t.kids[slot := kid]), None)
    else (Inner(t.r, t.keys, t.kids[slot := kid]), last)
  }

  /** Repairing child `slot` of `t` if it is underfull. */
  function Repair<R, V>(p: Params, t: Tree<R, V>, slot: nat, left: Option<Tree<R, V>>, right: Option<Tree<R, V>>,
                        last: Option<Key>): Outcome<R, V>
    requires t.Inner? && slot < |t.kids|
    requires slot > 0 ==> left.Some?
    requires slot < |t.kids| - 1 ==> right.Some?
  {
    var kid := t.kids[slot];
    if kid.Min(p) <= kid.Use() then
      Erased(t, last, false)
    else
      var action := Choose(kid.Min(p), Uses(left), Uses(right), slot > 0, slot < |t.kids| - 1);
      if CanApply(t, slot, action) then
        Erased(Apply(t, slot, action), last, action.MergeLeft? || action.MergeRight?)
      else
        Stuck
  }

  /** The steps after the return from child `slot`, which is an inner node that was descended into at its slot `s`. */
  function Ascend<R, V>(p: Params, t: Tree<R, V>, slot: nat, left: Option<Tree<R, V>>, right: Option<Tree<R, V>>,
                        s: nat, o: Outcome<R, V>): Outcome<R, V>
    requires t.Inner? && slot < |t.kids|
    requires slot > 0 ==> left.Some?
    requires slot < |t.kids| - 1 ==> right.Some?
  {
    match o
    case NotFound => NotFound
    case Stuck => Stuck
    case Erased(kid, last, merged) =>
      if merged && !CanDrop(kid, s) then
        Stuck
      else
        var (t', last') := Renew(t, slot, if merged then DropEmptied(kid, s) else kid, last);
        Repair(p, t', slot, left, right, last')
  }

  /** A neighbour that children can be handed down from. */
  predicate HasKids<R, V>(n: Option<Tree<R, V>>) {
    n.Some? ==> n.value.Inner? && |n.value.kids| >= |n.value.keys| >= 1
  }

  /** The outcome for a leaf, child `slot` of `t`. */
  function EraseInLeaf<R, V>(p: Params, t: Tree<R, V>, slot: nat, left: Option<Tree<R, V>>, right: Option<Tree<R, V>>,
                             k: Key): Outcome<R, V>
    requires t.Inner? && slot < |t.kids| && t.kids[slot].Leaf?
    requires slot > 0 ==> left.Some?
    requires slot < |t.kids| - 1 ==> right.Some?
  {
    var items := t.kids[slot].items;
    var i := Lower(Keys(items), k);
    if i >= |items| || items[i].key != k then
      NotFound
    else
      var items' := RemoveAt(items, i);
      if items' == [] then
        Stuck
      else
        var last := if i == |items'| then Some(items'[i - 1].key) else None;
        var (t', last') := Renew(t, slot, Leaf(t.kids[slot].r, items'), last);
        Repair(p, t', slot, left, right, last')
  }

  /**
   * Erasing the first pair with key `k` below child `slot` of `t`. `left` and `right` are the neighbours of that child
   * that the descent passes down.
   */
  function EraseBelow<R, V>(p: Params, t: Tree<R, V>, slot: nat, left: Option<Tree<R, V>>, right: Option<Tree<R, V>>,
                            k: Key): Outcome<R, V>
    requires t.Inner? && slot < |t.kids|
    requires slot > 0 ==> left.Some?
    requires slot < |t.kids| - 1 ==> right.Some?
    decreases t
  {
    var kid := t.kids[slot];
    if kid.Leaf? then
      EraseInLeaf(p, t, slot, left, right, k)
    else
      var s := Lower(kid.keys, k);
      if s >= |kid.kids| || !HasKids(left) || !HasKids(right) then
        Stuck
      else
        Ascend(p, t, slot, left, right, s, EraseBelow(p, kid, s, LeftOf(kid, s, left), RightOf(kid, s, right), k))
  }

  /** The whole tree after one deletion; `None` is the empty tree, and `Stuck` is as above. */
  datatype RootOutcome<R, V> = RootNotFound | RootErased(t: Option<Tree<R, V>>) | RootStuck

  function EraseRoot<R, V>(p: Params, t: Tree<R, V>, k: Key): RootOutcome<R, V> {
    match t
    case Leaf(r, items) =>
      var i := Lower(Keys(items), k);
      if i >= |items| || items[i].key != k then
        RootNotFound
      else
        var items' := RemoveAt(items, i);
        RootErased(if items' == [] then None else Some(Leaf(r, items')))
    case Inner(_, keys, kids) =>
      var s := Lower(keys, k);
      if s >= |kids| then
        RootStuck
      else
        match EraseBelow(p, t, s, LeftOf(t, s, None), RightOf(t, s, None), k)
        case NotFound => RootNotFound
        case Stuck => RootStuck
        case Erased(t', _, merged) =>
          if merged && !CanDrop(t', s) then
            RootStuck
          else
            var t'' := if merged then DropEmptied(t', s) else t';
            // a root with a single child left gives way to that child
            if t''.Inner? && t''.keys == [] && t''.kids != [] then RootErased(Some(t''.kids[0]))
            else RootErased(Some(t''))
  }
}
