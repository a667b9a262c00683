/**
 * Best fit in a tree bin: the two loops of the allocator's search, with its shifted size and its unsigned remainders.
 */
module TreeFit {
  import opened TreeBin

  const WORD_BITS: nat := 64

  /** All words are below this. */
  function Words(): (w: nat)
    ensures w == 0x1_0000_0000_0000_0000 == Pow2(WORD_BITS)
  {
    Pow2Values();
    Pow2(WORD_BITS)
  }

  lemma Pow2Values()
    ensures Pow2(63) == 0x8000_0000_0000_0000 && Pow2(64) == 0x1_0000_0000_0000_0000
  {
    Pow2Sum(16, 16);
    Pow2Sum(32, 16);
    Pow2Sum(48, 15);
    Pow2Small();
  }

  lemma Pow2Small()
    ensures Pow2(8) == 256 && Pow2(15) == 0x8000 && Pow2(16) == 0x1_0000
  {
    assert Pow2(4) == 16;
    assert Pow2(8) == 256;
    assert Pow2(12) == 4096;
    assert Pow2(15) == 0x8000;
  }

  lemma {:induction false} Pow2Sum(a: nat, b: nat)
    ensures Pow2(a + b) == Pow2(a) * Pow2(b)
    decreases b
  {
    if b > 0 {
      Pow2Sum(a, b - 1);
      assert Pow2(a + b) == 2 * Pow2(a + (b - 1));
    }
  }

  /** Unsigned subtraction of words. */
  function Minus(x: nat, y: nat): (r: nat)
    requires x < Words() && y < Words()
    ensures r < Words() && r == if y <= x then x - y else Words() + x - y
  {
    if y <= x then x - y else Words() + x - y
  }

  /** A word shifted left. */
  function ShiftLeft(x: nat, n: nat): (r: nat)
    ensures r < Words()
  {
    (x * Pow2(n)) % Words()
  }

  /** The sign bit of a shifted size is the bit that the trie branches on. */
  lemma SignBit(s: nat, b: nat)
    requires b <= WORD_BITS
    ensures ShiftLeft(s, WORD_BITS - b) / Pow2(63) == TopBit(s, b)
  {
    if b > 0 {
      SignOfShift(s, b);
    } else {
      Pow2Values();
      assert (s * Pow2(64)) % Pow2(64) == 0 by {
        ModZero(s, Pow2(64));
      }
    }
  }

  lemma ModZero(k: nat, d: nat)
    requires d > 0
    ensures (k * d) % d == 0
  {
    DivMod(k * d, d, k, 0);
  }

  lemma DivMod(s: nat, d: nat, q: nat, r: nat)
    requires d > 0 && s == q * d + r && r < d
    ensures s / d == q && s % d == r
  {
    DivIs(s, d, q, r);
    assert s == (s / d) * d + s % d;
  }

  lemma SignOfShift(s: nat, b: nat)
    requires 0 < b <= WORD_BITS
    ensures ShiftLeft(s, WORD_BITS - b) / Pow2(63) == (s / Pow2(b - 1)) % 2
  {
    // s == (2 q + bit) 2^(b-1) + low, so that s 2^(64-b) == q 2^64 + (bit 2^63 + low 2^(64-b))
    hide Pow2, Words, ShiftLeft;
    var n, p := Pow2(WORD_BITS - b), Pow2(b - 1);
    Pow2Sum(b - 1, WORD_BITS - b);
    Pow2Values();
    Halves(s, p);
    ShiftIs(s, WORD_BITS - b);
    SignOfParts(s, n, p, s / p / 2, s / p % 2, s % p);
  }

  lemma Halves(s: nat, p: nat)
    requires p > 0
    ensures s == (2 * (s / p / 2) + s / p % 2) * p + s % p && s % p < p && 0 <= s / p % 2 < 2 && s / p / 2 >= 0
  {
    var d := s / p;
    assert s == d * p + s % p;
    assert d == 2 * (d / 2) + d % 2;
  }

  lemma ShiftIs(x: nat, n: nat)
    ensures ShiftLeft(x, n) == (x * Pow2(n)) % 0x1_0000_0000_0000_0000
  {
  }

  lemma SignOfParts(s: nat, n: nat, p: nat, q: nat, bit: nat, low: nat)
    requires n > 0 && p > 0 && p * n == 0x8000_0000_0000_0000 && s == (2 * q + bit) * p + low && low < p && bit < 2
    ensures ((s * n) % 0x1_0000_0000_0000_0000) / 0x8000_0000_0000_0000 == bit
  {
    ShiftParts(s, n, p, q, bit, low);
    LowPart(low, n, p);
    var h := 0x8000_0000_0000_0000;
    var r := bit * h + low * n;
    assert s * n == q * (2 * h) + r;
    DivMod(s * n, 2 * h, q, r);
    DivMod(r, h, bit, low * n);
  }

  lemma LowPart(low: nat, n: nat, p: nat)
    requires low < p && n > 0
    ensures low * n < p * n
  {
    AtLeast(p - low, n);
    assert (p - low) * n == p * n - low * n;
  }

  lemma ShiftParts(s: nat, n: nat, p: nat, q: nat, bit: nat, low: nat)
    requires s == (2 * q + bit) * p + low
    ensures s * n == q * (2 * (p * n)) + (bit * (p * n) + low * n)
  {
    assert s * n == (2 * q + bit) * p * n + low * n;
    assert (2 * q + bit) * p * n == (2 * q + bit) * (p * n);
    assert (2 * q + bit) * (p * n) == 2 * q * (p * n) + bit * (p * n);
  }

  /** One more step of the shift. */
  lemma ShiftOnce(s: nat, b: nat)
    requires 0 < b <= WORD_BITS
    ensures ShiftLeft(ShiftLeft(s, WORD_BITS - b), 1) == ShiftLeft(s, WORD_BITS - (b - 1))
  {
    var n := WORD_BITS - b;
    var x := s * Pow2(n);
    var q, r := x / Words(), x % Words();
    assert x == q * Words() + r;
    assert Pow2(n + 1) == 2 * Pow2(n) && Pow2(1) == 2;
    assert s * Pow2(n + 1) == 2 * x by {
      assert s * (2 * Pow2(n)) == 2 * (s * Pow2(n));
    }
    assert 2 * x == (2 * q) * Words() + 2 * r;
    ModPlus(2 * q, 2 * r, Words());
  }

  lemma ModPlus(k: nat, r: nat, d: nat)
    requires d > 0
    ensures (k * d + r) % d == r % d
  {
    var q, m := r / d, r % d;
    assert k * d + r == (k + q) * d + m by {
      assert r == q * d + m;
      assert (k + q) * d == k * d + q * d;
    }
    DivMod(k * d + r, d, k + q, m);
  }

  // -------------------------------------------------------------------- best fit

  /** `v` is the least of the sizes in `ss` that are at least `nb`; without `found` there is none. */
  ghost predicate LeastFit(found: bool, v: nat, ss: set<nat>, nb: nat) {
    if found then v in ss && nb <= v && forall s :: s in ss && nb <= s ==> v <= s
    else forall s :: s in ss ==> s < nb
  }

  ghost predicate Fit64(t: Trie) {
    forall s :: s in Sizes(t) ==> s < Words()
  }

  /** The node remembered so far and the remainder that goes with it. */
  ghost predicate Best(v: Trie, rsize: nat, ss: set<nat>, nb: nat)
    requires 0 < nb < Words()
  {
    && LeastFit(v.Node?, if v.Node? then v.size else 0, ss, nb)
    && rsize == if v.Node? then v.size - nb else Minus(0, nb)
  }

  /** Looking at one more node. */
  lemma Look(v: Trie, rsize: nat, ss: set<nat>, nb: nat, t: Trie)
    requires 0 < nb < Words() && Best(v, rsize, ss, nb) && t.Node? && t.size < Words()
    requires v.Node? ==> v.size < Words()
    ensures var trem := Minus(t.size, nb);
            Best(if trem < rsize then t else v, if trem < rsize then trem else rsize, ss + {t.size}, nb)
  {
  }

  /** Sizes that are too small change nothing. */
  lemma Skip(v: Trie, rsize: nat, ss: set<nat>, nb: nat, more: set<nat>)
    requires 0 < nb < Words() && Best(v, rsize, ss, nb) && forall s :: s in more ==> s < nb
    ensures Best(v, rsize, ss + more, nb)
  {
  }

  /**
   * The untaken right subtrees: all their sizes are in `right`, and the smallest of them are in the deepest one, `rst`.
   */
  ghost predicate Untaken(rst: Trie, right: set<nat>) {
    && (rst.Nil? <==> right == {})
    && Sizes(rst) <= right
    && forall s, r :: s in Sizes(rst) && r in right && r !in Sizes(rst) ==> s < r
  }

  /** What is left of the bin at some point of the descent. */
  ghost predicate Cover(t0: Trie, seen: set<nat>, t: Trie, right: set<nat>, rst: Trie, b: nat, hi: nat) {
    && Sizes(t0) == seen + Sizes(t) + right
    && Untaken(rst, right)
    && (forall r :: r in right ==> r / Pow2(b) > hi)
    && Chunks(t) <= Chunks(t0) && Chunks(rst) <= Chunks(t0)
    && exists br: nat, hr: nat :: Inv(rst, br, hr)
  }

  lemma GoLeft(t0: Trie, seen: set<nat>, t: Trie, right: set<nat>, rst: Trie, b: nat, hi: nat)
    requires t.Node? && Inv(t, b, hi) && b > 0 && Cover(t0, seen, t, right, rst, b, hi)
    ensures Cover(t0, seen + {t.size}, t.left, right + Sizes(t.right), if t.right.Node? then t.right else rst, b - 1,
                  2 * hi)
  {
    hide Inv, Chunks, RingChunks, Pow2, Sizes, Untaken;
    Open(t, b, hi);
    RightIsAbove(t, right, b, hi);
    DeeperRight(t, right, rst, b, hi);
  }

  lemma RightIsAbove(t: Trie, right: set<nat>, b: nat, hi: nat)
    requires t.Node? && Inv(t, b, hi) && b > 0 && forall r :: r in right ==> r / Pow2(b) > hi
    ensures forall r :: r in right + Sizes(t.right) ==> r / Pow2(b - 1) > 2 * hi
  {
    forall r | r in right + Sizes(t.right)
      ensures r / Pow2(b - 1) > 2 * hi
    {
      if r in right {
        HalfSize(r, b);
        BitRange(r, b);
      } else {
        SizesHigh(t.right, b - 1, 2 * hi + 1, r);
      }
    }
  }

  /** A right subtree met later holds smaller sizes than those met before. */
  lemma DeeperRight(t: Trie, right: set<nat>, rst: Trie, b: nat, hi: nat)
    requires t.Node? && Inv(t, b, hi) && b > 0 && Untaken(rst, right)
    requires forall r :: r in right ==> r / Pow2(b) > hi
    ensures Untaken(if t.right.Node? then t.right else rst, right + Sizes(t.right))
  {
    if t.right.Node? {
      forall s, r | s in Sizes(t.right) && r in right
        ensures s < r
      {
        SizesHigh(t.right, b - 1, 2 * hi + 1, s);
        RightHalf(s, b, hi);
        HighOrder(s, r, b);
      }
      HasSize(t.right);
    } else {
      NilFacts(0, 0);
      assert right + Sizes(t.right) == right;
    }
  }

  lemma HasSize(t: Trie)
    requires t.Node?
    ensures t.size in Sizes(t)
  {
  }

  lemma GoRight(t0: Trie, seen: set<nat>, t: Trie, right: set<nat>, rst: Trie, b: nat, hi: nat, nb: nat)
    requires t.Node? && Inv(t, b, hi) && b > 0 && Cover(t0, seen, t, right, rst, b, hi)
    requires nb / Pow2(b - 1) == 2 * hi + 1
    ensures Cover(t0, seen + {t.size} + Sizes(t.left), t.right, right, rst, b - 1, 2 * hi + 1)
    ensures forall s :: s in Sizes(t.left) ==> s < nb
  {
    hide Inv, Chunks, RingChunks, Pow2, Untaken;
    Open(t, b, hi);
    forall r | r in right
      ensures r / Pow2(b - 1) > 2 * hi + 1
    {
      HalfSize(r, b);
      BitRange(r, b);
    }
    forall s | s in Sizes(t.left)
      ensures s < nb
    {
      SizesHigh(t.left, b - 1, 2 * hi, s);
      HighOrder(s, nb, b - 1);
    }
  }
}
