/** Whole runs: what any sequence of insertions and deletions makes of the pairs of a tree. */
module BTreeHistory {
  import opened Sorted
  import opened BTreeErase
  import opened BTreeEraseProof
  import opened BTreeWhole

  datatype Op<V> = Insert(key: Key, data: V) | EraseOne(key: Key) | EraseAll(key: Key)

  /** What one call does to the pairs. */
  ghost predicate Step<V>(duplicates: bool, before: seq<Item<V>>, op: Op<V>, after: seq<Item<V>>) {
    match op
    case Insert(k, v) =>
      if duplicates || k !in Keys(before) then exists pos :: PutIn(before, Item(k, v), after, pos) else after == before
    case EraseOne(k) =>
      if k in Keys(before) then TakenOut(before, k, after) else after == before
    case EraseAll(k) =>
      Lower(Keys(before), k) <= Upper(Keys(before), k)
      && after == WithoutFirst(before, k, Upper(Keys(before), k) - Lower(Keys(before), k))
  }

  /** The pairs before and after each call of a run. */
  ghost predicate Trace<V>(duplicates: bool, states: seq<seq<Item<V>>>, ops: seq<Op<V>>) {
    |states| == |ops| + 1 && forall i :: 0 <= i < |ops| ==> Step(duplicates, states[i], ops[i], states[i + 1])
  }

  /** The multimap, seen from its keys only: how often each of them is there. */
  function Bag<V>(duplicates: bool, bag: multiset<Key>, op: Op<V>): multiset<Key> {
    match op
    case Insert(k, _) => if duplicates || k !in bag then bag + multiset{k} else bag
    case EraseOne(k) => bag - multiset{k}
    case EraseAll(k) => bag[k := 0]
  }

  function Bags<V>(duplicates: bool, bag: multiset<Key>, ops: seq<Op<V>>): multiset<Key> {
    if ops == [] then bag else Bag(duplicates, Bags(duplicates, bag, ops[..|ops| - 1]), ops[|ops| - 1])
  }

  lemma InsertBag(ks: seq<Key>, pos: nat, k: Key)
    requires pos <= |ks|
    ensures multiset(InsertAt(ks, pos, k)) == multiset(ks) + multiset{k}
  {
    assert ks == ks[..pos] + ks[pos..];
    assert InsertAt(ks, pos, k) == ks[..pos] + [k] + ks[pos..];
  }

  lemma RemoveBag(ks: seq<Key>, i: nat)
    requires i < |ks|
    ensures multiset(RemoveAt(ks, i)) == multiset(ks) - multiset{ks[i]}
  {
    assert ks == ks[..i] + [ks[i]] + ks[i + 1..];
    assert RemoveAt(ks, i) == ks[..i] + ks[i + 1..];
  }

  /** Cutting out all pairs of a key. */
  lemma EraseAllBag(ks: seq<Key>, k: Key)
    requires SortedKeys(ks)
    ensures Lower(ks, k) <= Upper(ks, k) <= |ks|
    ensures multiset(ks[..Lower(ks, k)] + ks[Upper(ks, k)..]) == multiset(ks)[k := 0]
  {
    LowerAtMostUpper(ks, k);
    LowerFacts(ks, k);
    UpperFacts(ks, k);
    var i, u := Lower(ks, k), Upper(ks, k);
    SplitInThree(ks, i, u, k);
    ThreeParts(ks[..i], ks[i..u], ks[u..], k);
  }

  lemma SplitInThree(ks: seq<Key>, i: nat, u: nat, k: Key)
    requires SortedKeys(ks) && i <= u <= |ks|
    requires (forall j :: 0 <= j < i ==> ks[j] < k) && (i < |ks| ==> k <= ks[i])
    requires (forall j :: 0 <= j < u ==> ks[j] <= k) && (u < |ks| ==> k < ks[u])
    ensures ks == ks[..i] + ks[i..u] + ks[u..]
    ensures forall x :: x in ks[..i] ==> x != k
    ensures forall x :: x in ks[i..u] ==> x == k
    ensures forall x :: x in ks[u..] ==> x != k
  {
    forall j | i <= j < u
      ensures ks[j] == k
    {
      assert ks[i] <= ks[j];
    }
    forall j | u <= j < |ks|
      ensures ks[j] != k
    {
      assert ks[u] <= ks[j];
    }
  }

  lemma ThreeParts(a: seq<Key>, c: seq<Key>, b: seq<Key>, k: Key)
    requires forall x :: x in a ==> x != k
    requires forall x :: x in c ==> x == k
    requires forall x :: x in b ==> x != k
    ensures multiset(a + b) == multiset(a + c + b)[k := 0]
  {
    forall x: Key
      ensures multiset(a + b)[x] == multiset(a + c + b)[k := 0][x]
    {
      assert multiset(a + b)[x] == multiset(a)[x] + multiset(b)[x];
      assert multiset(a + c + b)[x] == multiset(a)[x] + multiset(c)[x] + multiset(b)[x];
      if x == k {
        assert x !in a && x !in b;
      } else {
        assert x !in c;
      }
    }
  }

  /** One call keeps the order, and the keys follow the multimap. */
  lemma StepFacts<V>(duplicates: bool, before: seq<Item<V>>, op: Op<V>, after: seq<Item<V>>)
    requires SortedItems(before) && Step(duplicates, before, op, after)
    requires duplicates || StrictKeys(Keys(before))
    ensures SortedItems(after) && multiset(Keys(after)) == Bag(duplicates, multiset(Keys(before)), op)
    ensures duplicates || StrictKeys(Keys(after))
  {
    hide Lower, Upper, PutIn, TakenOut, WithoutFirst;
    match op
    case Insert(k, v) =>
      if duplicates || k !in Keys(before) {
        var pos :| PutIn(before, Item(k, v), after, pos);
        InsertStep(before, Item(k, v), after, pos);
        if !duplicates {
          PutInStrict(before, Item(k, v), after, pos);
        }
      }
    case EraseOne(k) =>
      if k in Keys(before) {
        EraseStep(before, k, after);
        if !duplicates {
          TakenOutStrict(before, k, after);
        }
      }
    case EraseAll(k) =>
      LowerAtMostUpper(Keys(before), k);
      EraseAllStep(duplicates, before, k, after);
  }

  lemma InsertStep<V>(before: seq<Item<V>>, x: Item<V>, after: seq<Item<V>>, pos: nat)
    requires SortedItems(before) && PutIn(before, x, after, pos)
    ensures SortedItems(after) && multiset(Keys(after)) == multiset(Keys(before)) + multiset{x.key}
  {
    hide Lower, Upper;
    KeysInsert(before, pos, x);
    InsertSorted(Keys(before), pos, x.key);
    InsertBag(Keys(before), pos, x.key);
  }

  lemma EraseStep<V>(before: seq<Item<V>>, k: Key, after: seq<Item<V>>)
    requires SortedItems(before) && TakenOut(before, k, after)
    ensures SortedItems(after) && multiset(Keys(after)) == multiset(Keys(before)) - multiset{k}
  {
    hide Lower, Upper;
    var i := FirstAt(before, k);
    KeysRemove(before, i);
    RemoveSorted(Keys(before), i);
    RemoveBag(Keys(before), i);
  }

  lemma EraseAllStep<V>(duplicates: bool, before: seq<Item<V>>, k: Key, after: seq<Item<V>>)
    requires SortedItems(before)
    requires duplicates || StrictKeys(Keys(before))
    requires Upper(Keys(before), k) >= Lower(Keys(before), k)
    requires after == WithoutFirst(before, k, Upper(Keys(before), k) - Lower(Keys(before), k))
    ensures SortedItems(after) && multiset(Keys(after)) == multiset(Keys(before))[k := 0]
    ensures duplicates || StrictKeys(Keys(after))
  {
    hide Lower, Upper, WithoutFirst, Keys;
    var ks := Keys(before);
    var i, u := Lower(ks, k), Upper(ks, k);
    EraseAllBag(ks, k);
    WithoutIs(before, k, u - i);
    SortedRest(ks, i, u - i);
    if !duplicates {
      StrictRest(ks, i, u - i);
    }
  }

  lemma WithoutIs<V>(items: seq<Item<V>>, k: Key, n: nat)
    requires Lower(Keys(items), k) + n <= |Keys(items)|
    ensures var ks, i := Keys(items), Lower(Keys(items), k);
            Keys(WithoutFirst(items, k, n)) == ks[..i] + ks[i + n..]
  {
    hide Lower;
    RestKeys(items, Lower(Keys(items), k), n);
  }

  lemma StrictRest(ks: seq<Key>, i: nat, n: nat)
    requires StrictKeys(ks) && i + n <= |ks|
    ensures StrictKeys(ks[..i] + ks[i + n..])
  {
  }

  lemma TracePrefix<V>(duplicates: bool, states: seq<seq<Item<V>>>, ops: seq<Op<V>>)
    requires Trace(duplicates, states, ops) && ops != []
    ensures var n := |ops| - 1;
            Trace(duplicates, states[..n + 1], ops[..n]) && Step(duplicates, states[n], ops[n], states[n + 1])
  {
    hide Step;
  }

  lemma TraceMore<V>(duplicates: bool, states: seq<seq<Item<V>>>, ops: seq<Op<V>>, op: Op<V>, after: seq<Item<V>>)
    requires Trace(duplicates, states, ops) && Step(duplicates, states[|ops|], op, after)
    ensures Trace(duplicates, states + [after], ops + [op])
  {
    hide Step;
  }

  /**
   * Every run refines an ordered multimap: the pairs are in order, each key is there as often as the calls say, and a
   * tree that does not allow equal keys never holds any.
   */
  lemma {:induction false} RunFacts<V>(duplicates: bool, states: seq<seq<Item<V>>>, ops: seq<Op<V>>)
    requires Trace(duplicates, states, ops)
    requires SortedItems(states[0]) && (duplicates || StrictKeys(Keys(states[0])))
    ensures var after := states[|ops|];
            && SortedItems(after) && multiset(Keys(after)) == Bags(duplicates, multiset(Keys(states[0])), ops)
            && (duplicates || StrictKeys(Keys(after)))
    decreases ops
  {
    hide Step, Keys, Trace, StrictKeys, SortedKeys;
    if ops != [] {
      var n := |ops| - 1;
      TracePrefix(duplicates, states, ops);
      TraceLength(duplicates, states, ops);
      RunFacts(duplicates, states[..n + 1], ops[..n]);
      StepFacts(duplicates, states[n], ops[n], states[n + 1]);
    }
  }

  lemma TraceLength<V>(duplicates: bool, states: seq<seq<Item<V>>>, ops: seq<Op<V>>)
    requires Trace(duplicates, states, ops)
    ensures |states| == |ops| + 1
  {
  }

  lemma NoTrace<V>(duplicates: bool, pairs: seq<Item<V>>, ops: seq<Op<V>>)
    ensures Trace(duplicates, [pairs], ops[..0])
  {
  }

  lemma InsertIsStep<V>(duplicates: bool, before: seq<Item<V>>, k: Key, v: V, after: seq<Item<V>>, pos: nat)
    requires if duplicates || k !in Keys(before) then PutIn(before, Item(k, v), after, pos) else after == before
    ensures Step(duplicates, before, Insert(k, v), after)
  {
  }

  lemma EraseOneIsStep<V>(duplicates: bool, before: seq<Item<V>>, k: Key, after: seq<Item<V>>)
    requires if k in Keys(before) then TakenOut(before, k, after) else after == before
    ensures Step(duplicates, before, EraseOne(k), after)
  {
  }

  lemma EraseAllIsStep<V>(duplicates: bool, before: seq<Item<V>>, k: Key, after: seq<Item<V>>, count: nat)
    requires count == Upper(Keys(before), k) - Lower(Keys(before), k) && after == WithoutFirst(before, k, count)
    ensures Step(duplicates, before, EraseAll(k), after)
  {
  }
}
