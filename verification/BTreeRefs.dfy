/** The nodes a tree is made of, and its leaves from left to right. */
module BTreeRefs {
  import opened Sorted
  import opened BTree

  function Refs<R, V>(t: Tree<R, V>): multiset<R> {
    match t
    case Leaf(r, _) => multiset{r}
    case Inner(r, _, kids) => multiset{r} + RowRefs(kids)
  }

  function RowRefs<R, V>(kids: seq<Tree<R, V>>): multiset<R> {
    if kids == [] then multiset{} else Refs(kids[0]) + RowRefs(kids[1..])
  }

  lemma {:induction false} RowRefsConcat<R, V>(a: seq<Tree<R, V>>, b: seq<Tree<R, V>>)
    ensures RowRefs(a + b) == RowRefs(a) + RowRefs(b)
  {
    hide Refs;
    if a == [] {
      assert a + b == b;
    } else {
      RowRefsConcat(a[1..], b);
      assert (a + b)[1..] == a[1..] + b;
    }
  }

  lemma RowRefsSplit<R, V>(kids: seq<Tree<R, V>>, i: nat)
    requires i < |kids|
    ensures RowRefs(kids) == RowRefs(kids[..i]) + Refs(kids[i]) + RowRefs(kids[i + 1..])
  {
    var right := kids[i..];
    assert kids == kids[..i] + right;
    RowRefsConcat(kids[..i], right);
    assert right[0] == kids[i] && right[1..] == kids[i + 1..];
  }

  lemma RowRefsPair<R, V>(l: Tree<R, V>, n: Tree<R, V>)
    ensures RowRefs([l, n]) == Refs(l) + Refs(n)
  {
    assert [l, n][1..] == [n];
    RowRefsOne(n);
  }

  lemma RowRefsOne<R, V>(l: Tree<R, V>)
    ensures RowRefs([l]) == Refs(l)
  {
    assert [l][1..] == [];
  }

  /** The leaves from left to right. */
  function Leaves<R, V>(t: Tree<R, V>): seq<R> {
    match t
    case Leaf(r, _) => [r]
    case Inner(_, _, kids) => RowLeaves(kids)
  }

  function RowLeaves<R, V>(kids: seq<Tree<R, V>>): seq<R> {
    if kids == [] then [] else Leaves(kids[0]) + RowLeaves(kids[1..])
  }

  lemma {:induction false} RowLeavesConcat<R, V>(a: seq<Tree<R, V>>, b: seq<Tree<R, V>>)
    ensures RowLeaves(a + b) == RowLeaves(a) + RowLeaves(b)
  {
    if a == [] {
      assert a + b == b;
    } else {
      RowLeavesConcat(a[1..], b);
      RowLeavesFirst(a, b);
      Grouped(Leaves(a[0]), RowLeaves(a[1..]), RowLeaves(b));
    }
  }

  lemma Grouped<T>(a: seq<T>, b: seq<T>, c: seq<T>)
    ensures a + b + c == a + (b + c)
  {
  }

  lemma RowLeavesFirst<R, V>(a: seq<Tree<R, V>>, b: seq<Tree<R, V>>)
    requires a != []
    ensures RowLeaves(a + b) == Leaves(a[0]) + RowLeaves(a[1..] + b)
  {
    assert (a + b)[1..] == a[1..] + b;
  }

  lemma RowLeavesSplit<R, V>(kids: seq<Tree<R, V>>, i: nat)
    requires i < |kids|
    ensures RowLeaves(kids) == RowLeaves(kids[..i]) + Leaves(kids[i]) + RowLeaves(kids[i + 1..])
  {
    hide Leaves;
    var right := kids[i..];
    assert kids == kids[..i] + right;
    RowLeavesConcat(kids[..i], right);
    assert right[0] == kids[i] && right[1..] == kids[i + 1..];
  }

  lemma RowLeavesPair<R, V>(l: Tree<R, V>, n: Tree<R, V>)
    ensures RowLeaves([l, n]) == Leaves(l) + Leaves(n)
  {
    assert [l, n][1..] == [n];
    RowLeavesOne(n);
  }

  lemma RowLeavesOne<R, V>(n: Tree<R, V>)
    ensures RowLeaves([n]) == Leaves(n)
  {
    assert RowLeaves([n]) == Leaves(n) + RowLeaves<R, V>([]);
  }

  /** Every leaf is a node. */
  lemma {:induction false} LeavesAreRefs<R, V>(t: Tree<R, V>)
    ensures multiset(Leaves(t)) <= Refs(t)
    decreases t, 1
  {
    match t
    case Leaf(r, _) =>
      assert multiset([r]) == multiset{r};
    case Inner(r, _, kids) =>
      RowLeavesAreRefs(kids);
  }

  lemma {:induction false} RowLeavesAreRefs<R, V>(kids: seq<Tree<R, V>>)
    ensures multiset(RowLeaves(kids)) <= RowRefs(kids)
    decreases kids, 0
  {
    if kids != [] {
      LeavesAreRefs(kids[0]);
      RowLeavesAreRefs(kids[1..]);
      assert multiset(RowLeaves(kids)) == multiset(Leaves(kids[0])) + multiset(RowLeaves(kids[1..]));
    }
  }

  /** No node occurs twice. */
  ghost predicate Distinct<R>(m: multiset<R>) {
    forall r :: r in m ==> m[r] <= 1
  }

  lemma InRow<R, V>(kids: seq<Tree<R, V>>, i: nat)
    requires i < |kids|
    ensures Refs(kids[i]) <= RowRefs(kids)
  {
    RowRefsSplit(kids, i);
  }

  /** Different children have no node in common. */
  lemma Apart<R, V>(kids: seq<Tree<R, V>>, i: nat, j: nat)
    requires i < j < |kids| && Distinct(RowRefs(kids))
    ensures Refs(kids[i]) !! Refs(kids[j])
  {
    RowRefsSplit(kids, j);
    RowRefsSplit(kids[..j], i);
    assert kids[..j][i] == kids[i];
    var a, b := Refs(kids[i]), Refs(kids[j]);
    assert a + b <= RowRefs(kids);
    forall r | r in a
      ensures r !in b
    {
      assert (a + b)[r] <= RowRefs(kids)[r];
    }
  }
}
