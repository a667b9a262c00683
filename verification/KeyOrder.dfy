/**
 * Keys of any type in any total order can be numbered in that order: the trees, which only compare keys, are proved
 * with the numbers for keys.
 */
module KeyOrder {

  /** A strict total order on the keys in use, as `key_less` has to be. */
  ghost predicate TotalOrder<K(!new)>(keys: set<K>, less: (K, K) -> bool) {
    && (forall a :: a in keys ==> !less(a, a))
    && (forall a, b, c :: a in keys && b in keys && c in keys && less(a, b) && less(b, c) ==> less(a, c))
    && (forall a, b :: a in keys && b in keys && a != b ==> less(a, b) || less(b, a))
  }

  ghost function Smaller<K(!new)>(keys: set<K>, less: (K, K) -> bool, a: K): set<K> {
    set x | x in keys && less(x, a)
  }

  /** The number of a key: how many keys are smaller. */
  ghost function Rank<K(!new)>(keys: set<K>, less: (K, K) -> bool, a: K): int {
    |Smaller(keys, less, a)|
  }

  lemma RankGrows<K(!new)>(keys: set<K>, less: (K, K) -> bool, a: K, b: K)
    requires TotalOrder(keys, less) && a in keys && b in keys && less(a, b)
    ensures Rank(keys, less, a) < Rank(keys, less, b)
  {
    var x, y := Smaller(keys, less, a), Smaller(keys, less, b);
    assert a in y && a !in x;
    forall c | c in x
      ensures c in y - {a}
    {
    }
    Fewer(x, y - {a});
  }

  lemma Fewer<T>(x: set<T>, y: set<T>)
    requires x <= y
    ensures |x| <= |y|
  {
    assert y == x + (y - x);
  }

  /** The numbers compare as the keys do. */
  lemma RankEmbeds<K(!new)>(keys: set<K>, less: (K, K) -> bool, a: K, b: K)
    requires TotalOrder(keys, less) && a in keys && b in keys
    ensures less(a, b) <==> Rank(keys, less, a) < Rank(keys, less, b)
    ensures a == b <==> Rank(keys, less, a) == Rank(keys, less, b)
  {
    if less(a, b) {
      RankGrows(keys, less, a, b);
    } else if less(b, a) {
      RankGrows(keys, less, b, a);
    }
  }
}
