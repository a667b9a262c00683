/** Sorted key sequences, the positions a search can return in them, and sequences of pairs. */
module Sorted {

  type Key = int

  datatype Item<V> = Item(key: Key, data: V)

  ghost predicate SortedKeys(s: seq<Key>) {
    forall i, j :: 0 <= i < j < |s| ==> s[i] <= s[j]
  }

  /** The number of leading keys that are less than `k`. */
  function Lower(s: seq<Key>, k: Key): (p: nat)
    ensures p <= |s|
  {
    if s == [] || k <= s[0] then 0 else 1 + Lower(s[1..], k)
  }

  /** The number of leading keys that are not greater than `k`. */
  function Upper(s: seq<Key>, k: Key): (p: nat)
    ensures p <= |s|
  {
    if s == [] || k < s[0] then 0 else 1 + Upper(s[1..], k)
  }

  lemma {:induction false} LowerFacts(s: seq<Key>, k: Key)
    ensures var p := Lower(s, k);
            && (forall i :: 0 <= i < p ==> s[i] < k)
            && (p < |s| ==> k <= s[p])
  {
    if s != [] && s[0] < k {
      LowerFacts(s[1..], k);
      var p := Lower(s, k);
      forall i | 0 <= i < p
        ensures s[i] < k
      {
        if i > 0 {
          assert s[i] == s[1..][i - 1];
        }
      }
    }
  }

  lemma {:induction false} UpperFacts(s: seq<Key>, k: Key)
    ensures var p := Upper(s, k);
            && (forall i :: 0 <= i < p ==> s[i] <= k)
            && (p < |s| ==> k < s[p])
  {
    if s != [] && s[0] <= k {
      UpperFacts(s[1..], k);
      var p := Upper(s, k);
      forall i | 0 <= i < p
        ensures s[i] <= k
      {
        if i > 0 {
          assert s[i] == s[1..][i - 1];
        }
      }
    }
  }

  /** In a sorted sequence these clauses single out one position. */
  lemma LowerUnique(s: seq<Key>, k: Key, p: nat)
    requires p <= |s| && SortedKeys(s)
    requires p > 0 ==> s[p - 1] < k
    requires p < |s| ==> k <= s[p]
    ensures p == Lower(s, k)
  {
    LowerFacts(s, k);
  }

  lemma UpperUnique(s: seq<Key>, k: Key, p: nat)
    requires p <= |s| && SortedKeys(s)
    requires p > 0 ==> s[p - 1] <= k
    requires p < |s| ==> k < s[p]
    ensures p == Upper(s, k)
  {
    UpperFacts(s, k);
  }

  lemma LowerFinds(s: seq<Key>, k: Key)
    requires SortedKeys(s)
    ensures k in s <==> Lower(s, k) < |s| && s[Lower(s, k)] == k
  {
    LowerFacts(s, k);
  }

  /** Nothing in the sequence reaches `k`, or nothing exceeds it, when its last key does not. */
  lemma LastBelow(s: seq<Key>, k: Key)
    ensures s != [] && Lower(s, k) == |s| ==> s[|s| - 1] < k
    ensures s != [] && Upper(s, k) == |s| ==> s[|s| - 1] <= k
  {
    LowerFacts(s, k);
    UpperFacts(s, k);
  }

  lemma LowerAtMostUpper(s: seq<Key>, k: Key)
    ensures Lower(s, k) <= Upper(s, k)
  {
    LowerFacts(s, k);
    UpperFacts(s, k);
  }

  lemma UpperAtLeast(s: seq<Key>, k: Key, p: nat)
    requires SortedKeys(s) && p <= |s|
    requires p > 0 ==> s[p - 1] <= k
    ensures p <= Upper(s, k)
  {
    UpperFacts(s, k);
  }

  lemma SortedMiddle(a: seq<Key>, c: seq<Key>, b: seq<Key>)
    requires SortedKeys(a + c + b)
    ensures SortedKeys(c)
  {
    var s := a + c + b;
    forall i, j | 0 <= i < j < |c|
      ensures c[i] <= c[j]
    {
      assert s[|a| + i] == c[i] && s[|a| + j] == c[j];
    }
  }

  lemma SortedParts(a: seq<Key>, b: seq<Key>)
    requires SortedKeys(a + b)
    ensures SortedKeys(a) && SortedKeys(b)
  {
    assert [] + a + b == a + b && a + b + [] == a + b;
    SortedMiddle([], a, b);
    SortedMiddle(a, b, []);
  }

  // ------------------------------------------- searches in part of a sequence

  /** A search that stays inside the middle part finds what a search of the whole finds. */
  lemma LowerMiddle(a: seq<Key>, c: seq<Key>, b: seq<Key>, k: Key)
    requires SortedKeys(a + c + b)
    requires a != [] ==> a[|a| - 1] < k
    requires Lower(c, k) == |c| ==> b == []
    ensures Lower(a + c + b, k) == |a| + Lower(c, k)
  {
    var s := a + c + b;
    var q := Lower(c, k);
    LowerFacts(c, k);
    assert q > 0 ==> s[|a| + q - 1] == c[q - 1];
    assert q < |c| ==> s[|a| + q] == c[q];
    LowerUnique(s, k, |a| + q);
  }

  lemma UpperMiddle(a: seq<Key>, c: seq<Key>, b: seq<Key>, k: Key)
    requires SortedKeys(a + c + b)
    requires a != [] ==> a[|a| - 1] <= k
    requires Upper(c, k) == |c| ==> b == []
    ensures Upper(a + c + b, k) == |a| + Upper(c, k)
  {
    var s := a + c + b;
    var q := Upper(c, k);
    UpperFacts(c, k);
    assert q > 0 ==> s[|a| + q - 1] == c[q - 1];
    assert q < |c| ==> s[|a| + q] == c[q];
    UpperUnique(s, k, |a| + q);
  }

  /** A position that is not above the upper bound in the middle part is not above it in the whole. */
  lemma UpperInMiddle(a: seq<Key>, c: seq<Key>, b: seq<Key>, p: nat, k: Key)
    requires SortedKeys(a + c + b) && p <= Upper(c, k) && |a| <= Lower(a + c + b, k)
    ensures |a| + p <= Upper(a + c + b, k)
  {
    var s := a + c + b;
    LowerFacts(s, k);
    UpperFacts(c, k);
    if p > 0 {
      assert s[|a| + p - 1] == c[p - 1];
    }
    UpperAtLeast(s, k, |a| + p);
  }

  lemma LowerPrefix(a: seq<Key>, b: seq<Key>, k: Key)
    requires SortedKeys(a + b) && Lower(a + b, k) <= |a|
    ensures Lower(a, k) == Lower(a + b, k)
  {
    var s := a + b;
    var p := Lower(s, k);
    LowerFacts(s, k);
    SortedParts(a, b);
    assert p > 0 ==> s[p - 1] == a[p - 1];
    assert p < |a| ==> s[p] == a[p];
    LowerUnique(a, k, p);
  }

  lemma LowerSuffix(a: seq<Key>, b: seq<Key>, k: Key)
    requires SortedKeys(a + b) && |a| <= Lower(a + b, k)
    ensures |a| + Lower(b, k) == Lower(a + b, k)
  {
    var s := a + b;
    var p := Lower(s, k) - |a|;
    LowerFacts(s, k);
    SortedParts(a, b);
    assert p > 0 ==> s[|a| + p - 1] == b[p - 1];
    assert p < |b| ==> s[|a| + p] == b[p];
    LowerUnique(b, k, p);
  }

  lemma UpperPrefix(a: seq<Key>, b: seq<Key>, k: Key)
    requires SortedKeys(a + b)
    ensures Upper(a, k) <= Upper(a + b, k)
  {
    var p := Upper(a, k);
    UpperFacts(a, k);
    assert p > 0 ==> (a + b)[p - 1] == a[p - 1];
    UpperAtLeast(a + b, k, p);
  }

  lemma UpperSuffix(a: seq<Key>, b: seq<Key>, k: Key)
    requires SortedKeys(a + b) && |a| <= Lower(a + b, k)
    ensures |a| + Upper(b, k) <= Upper(a + b, k)
  {
    var p := Upper(b, k);
    LowerFacts(a + b, k);
    UpperFacts(b, k);
    assert p > 0 ==> (a + b)[|a| + p - 1] == b[p - 1];
    UpperAtLeast(a + b, k, |a| + p);
  }

  // ------------------------------------------------------- sequences of pairs

  function Keys<V>(s: seq<Item<V>>): (ks: seq<Key>)
    ensures |ks| == |s|
  {
    seq(|s|, i requires 0 <= i < |s| => s[i].key)
  }

  lemma KeysAt<V>(s: seq<Item<V>>)
    ensures forall i :: 0 <= i < |s| ==> Keys(s)[i] == s[i].key
  {
  }

  lemma KeysConcat<V>(a: seq<Item<V>>, b: seq<Item<V>>)
    ensures Keys(a + b) == Keys(a) + Keys(b)
  {
  }

  ghost predicate SortedItems<V>(s: seq<Item<V>>) {
    SortedKeys(Keys(s))
  }

  /** The sequence `s` with `x` put in at position `p`. */
  function InsertAt<T>(s: seq<T>, p: nat, x: T): (r: seq<T>)
    requires p <= |s|
    ensures |r| == |s| + 1
  {
    s[..p] + [x] + s[p..]
  }

  /** The sequence `s` without the element at position `p`. */
  function RemoveAt<T>(s: seq<T>, p: nat): (r: seq<T>)
    requires p < |s|
    ensures |r| == |s| - 1
  {
    s[..p] + s[p + 1..]
  }

  lemma InsertAtIndex<T>(s: seq<T>, p: nat, x: T)
    requires p <= |s|
    ensures var r := InsertAt(s, p, x);
            forall j {:trigger r[j]} :: 0 <= j <= |s| ==> r[j] == if j < p then s[j] else if j == p then x else s[j - 1]
  {
  }

  lemma RemoveAtIndex<T>(s: seq<T>, p: nat)
    requires p < |s|
    ensures var r := RemoveAt(s, p);
            forall j {:trigger r[j]} :: 0 <= j < |s| - 1 ==> r[j] == if j < p then s[j] else s[j + 1]
  {
  }

  lemma InsertMiddle<T>(a: seq<T>, c: seq<T>, b: seq<T>, p: nat, x: T)
    requires p <= |c|
    ensures InsertAt(a + c + b, |a| + p, x) == a + InsertAt(c, p, x) + b
  {
  }

  lemma InsertLeft<T>(a: seq<T>, b: seq<T>, p: nat, x: T)
    requires p <= |a|
    ensures InsertAt(a + b, p, x) == InsertAt(a, p, x) + b
  {
  }

  lemma InsertRight<T>(a: seq<T>, b: seq<T>, p: nat, x: T)
    requires p <= |b|
    ensures InsertAt(a + b, |a| + p, x) == a + InsertAt(b, p, x)
  {
  }

  lemma RemoveMiddle<T>(a: seq<T>, c: seq<T>, b: seq<T>, p: nat)
    requires p < |c|
    ensures RemoveAt(a + c + b, |a| + p) == a + RemoveAt(c, p) + b
  {
  }

  lemma KeysInsert<V>(s: seq<Item<V>>, p: nat, x: Item<V>)
    requires p <= |s|
    ensures Keys(InsertAt(s, p, x)) == InsertAt(Keys(s), p, x.key)
  {
  }

  lemma KeysRemove<V>(s: seq<Item<V>>, p: nat)
    requires p < |s|
    ensures Keys(RemoveAt(s, p)) == RemoveAt(Keys(s), p)
  {
  }

  lemma InsertSorted(ks: seq<Key>, p: nat, k: Key)
    requires SortedKeys(ks)
    requires Lower(ks, k) <= p <= Upper(ks, k)
    ensures SortedKeys(InsertAt(ks, p, k))
  {
    LowerFacts(ks, k);
    UpperFacts(ks, k);
    var r := InsertAt(ks, p, k);
    forall i, j | 0 <= i < j < |r|
      ensures r[i] <= r[j]
    {
      if i < p && j == p {
        assert ks[i] <= k;
      } else if i == p {
        assert ks[p] <= ks[j - 1] && k <= ks[p];
      }
    }
  }

  lemma RemoveSorted(ks: seq<Key>, p: nat)
    requires SortedKeys(ks) && p < |ks|
    ensures SortedKeys(RemoveAt(ks, p))
  {
  }

  /** The last key after a key has been put in where it belongs. */
  lemma LastAfterInsert<V>(s: seq<Item<V>>, p: nat, x: Item<V>)
    requires SortedItems(s) && s != []
    requires Lower(Keys(s), x.key) <= p <= Upper(Keys(s), x.key)
    ensures var r := InsertAt(s, p, x);
            var last := s[|s| - 1].key;
            r[|r| - 1].key == if last < x.key then x.key else last
  {
    var ks := Keys(s);
    LowerFacts(ks, x.key);
    UpperFacts(ks, x.key);
    if p < |s| {
      assert x.key <= ks[p] <= ks[|s| - 1];
    } else {
      assert ks[|s| - 1] <= x.key;
    }
  }
}
