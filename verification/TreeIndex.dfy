/** Which tree bin holds chunks of a size, and the bits on which the trie in that bin branches. */
module TreeIndex {
  import opened TreeBin
  import opened TreeFit

  const TREEBIN_SHIFT: nat := 8
  const TREE_BINS: nat := 32
  const MIN_LARGE_SIZE: nat := 256

  // ------------------------------------------------------------------- logarithms

  /** The number of the leading bit of a number. */
  function Log2(x: nat): nat
    requires x > 0
  {
    if x == 1 then 0 else 1 + Log2(x / 2)
  }

  lemma {:induction false} Log2Bounds(x: nat)
    requires x > 0
    ensures Pow2(Log2(x)) <= x < 2 * Pow2(Log2(x))
  {
    if x > 1 {
      Log2Bounds(x / 2);
    }
  }

  lemma {:induction false} Pow2Monotone(a: nat, b: nat)
    requires a <= b
    ensures Pow2(a) <= Pow2(b)
  {
    if a < b {
      Pow2Monotone(a, b - 1);
    }
  }

  lemma OneSided(x: nat, a: nat, b: nat)
    requires Pow2(a) <= x < 2 * Pow2(b)
    ensures a <= b
  {
    if b + 1 <= a {
      Pow2Monotone(b + 1, a);
    }
  }

  // ------------------------------------------------------------------ index of a size

  /**
   * Twice the logarithm of the size in units of 256, plus the bit after the leading one; big sizes share the last bin.
   */
  function IndexOf(s: nat): (i: nat)
    ensures i < TREE_BINS
  {
    var x := s / 256;
    if x == 0 then 0
    else if x > 0xFFFF then TREE_BINS - 1
    else
      Log2Of16(x);
      2 * Log2(x) + TopBit(s, Log2(x) + TREEBIN_SHIFT)
  }

  lemma Log2Of16(x: nat)
    requires 0 < x <= 0xFFFF
    ensures Log2(x) < 16
  {
    Log2Bounds(x);
    if Log2(x) >= 16 {
      Pow2Monotone(16, Log2(x));
      Pow2Small();
    }
  }

  /** The smallest size of bin `i`. */
  function MinSize(i: nat): nat {
    Pow2(i / 2 + TREEBIN_SHIFT) + (i % 2) * Pow2(i / 2 + TREEBIN_SHIFT - 1)
  }

  /** On how many bits the trie of bin `i` still branches, and what the bits above them are. */
  function BitsOf(i: nat): nat {
    if i == TREE_BINS - 1 then WORD_BITS else i / 2 + TREEBIN_SHIFT - 1
  }

  function HighOf(i: nat): nat {
    if i == TREE_BINS - 1 then 0 else 2 + i % 2
  }

  /** The shift that brings the first bit of the trie to the sign bit. */
  function ShiftOf(i: nat): (r: nat)
    requires i < TREE_BINS
    ensures r == WORD_BITS - BitsOf(i)
  {
    if i == TREE_BINS - 1 then 0 else WORD_BITS - 1 - (i / 2 + TREEBIN_SHIFT - 2)
  }

  lemma DivPow(s: nat, a: nat, b: nat)
    ensures s / Pow2(a) / Pow2(b) == s / Pow2(a + b)
  {
    Pow2Sum(a, b);
    DivTwice(s, Pow2(a), Pow2(b));
  }

  lemma DivTwice(s: nat, p: nat, q: nat)
    requires p > 0 && q > 0
    ensures s / p / q == s / (p * q)
  {
    hide *;
    var u, r := s / p, s % p;
    var v, t := u / q, u % q;
    Quotient(s, p);
    Quotient(u, q);
    TwoDigits(s, p, q, v, t, r);
    TwoDigitsBelow(p, q, t, r);
    DivIs(s, p * q, v, t * p + r);
  }

  lemma Quotient(s: nat, p: nat)
    requires p > 0
    ensures s == (s / p) * p + s % p && 0 <= s % p < p && s / p >= 0
  {
  }

  lemma TwoDigits(s: nat, p: nat, q: nat, v: nat, t: nat, r: nat)
    requires s == (v * q + t) * p + r
    ensures s == v * (p * q) + (t * p + r)
  {
    assert (v * q + t) * p == v * (p * q) + t * p;
  }

  lemma TwoDigitsBelow(p: nat, q: nat, t: nat, r: nat)
    requires t < q && r < p
    ensures 0 <= t * p + r < p * q
  {
    LowPart(t, p, q);
    AtLeast(q - t, p);
    assert (q - t) * p == q * p - t * p;
  }

  lemma Pow2Of8()
    ensures Pow2(8) == 256
  {
    Pow2Small();
  }

  /** The leading bits of a size below the last bin. */
  lemma LeadingTwo(s: nat)
    requires 0 < s / 256 <= 0xFFFF
    ensures var k := Log2(s / 256);
            s / Pow2(k + 8) == 1 && s / Pow2(k + 7) == 2 + TopBit(s, k + 8)
  {
    hide Pow2, TopBit, Log2;
    var k := Log2(s / 256);
    Pow2Of8();
    Log2Bounds(s / 256);
    DivPow(s, 8, k);
    DivOne(s / 256, Pow2(k));
    HalfSize(s, k + 8);
  }

  lemma DivOne(x: nat, p: nat)
    requires p > 0 && p <= x < 2 * p
    ensures x / p == 1
  {
    DivIs(x, p, 1, x - p);
  }

  /** All sizes of one bin agree on the bits that its trie does not branch on. */
  lemma SharedBits(s: nat)
    requires MIN_LARGE_SIZE <= s < Words()
    ensures s / Pow2(BitsOf(IndexOf(s))) == HighOf(IndexOf(s))
  {
    var i := IndexOf(s);
    if s / 256 > 0xFFFF {
      assert s / Pow2(WORD_BITS) == 0;
    } else {
      LeadingTwo(s);
      BitRange(s, Log2(s / 256) + 8);
      NotLast(s);
    }
  }

  /** Bin 31 also holds the sizes from 0xC00000 on that are below 2^24. */
  lemma NotLast(s: nat)
    requires 0 < s / 256 <= 0xFFFF
    ensures IndexOf(s) == 31 ==> s / Pow2(WORD_BITS) == 0
    ensures IndexOf(s) < 31 ==> BitsOf(IndexOf(s)) == Log2(s / 256) + 7
                                && HighOf(IndexOf(s)) == 2 + TopBit(s, Log2(s / 256) + 8)
  {
    BitRange(s, Log2(s / 256) + 8);
    Pow2Values();
    hide Pow2, Log2, TopBit;
    assert s < 0x1_0000_0000_0000_0000;
  }

  /** The bins partition the large sizes: bin `i` holds exactly those from its own minimum to the next bin's. */
  lemma Partition(s: nat)
    requires MIN_LARGE_SIZE <= s
    ensures MinSize(IndexOf(s)) <= s
    ensures IndexOf(s) < TREE_BINS - 1 ==> s < MinSize(IndexOf(s) + 1)
  {
    hide Pow2, TopBit, Log2, MinSize;
    if s / 256 > 0xFFFF {
      LastMin();
    } else {
      var k := Log2(s / 256);
      LeadingTwo(s);
      BitRange(s, k + 8);
      InHalf(s, k, TopBit(s, k + 8));
    }
  }

  lemma InHalf(s: nat, k: nat, bit: nat)
    requires 0 <= bit <= 1 && s / Pow2(k + 7) == 2 + bit
    ensures MinSize(2 * k + bit) <= s < MinSize(2 * k + bit + 1)
  {
    hide Pow2, MinSize;
    MinSizes(2 * k + bit);
    MinSizes(2 * k + bit + 1);
    TwoHalves(s, Pow2(k + 7));
    DoublePow(k + 7);
  }

  lemma DoublePow(n: nat)
    ensures Pow2(n + 1) == 2 * Pow2(n)
  {
  }

  lemma TwoHalves(s: nat, p: nat)
    requires p > 0
    ensures s / p == 1 ==> p <= s < 2 * p
    ensures s / p == 2 ==> 2 * p <= s < 3 * p
    ensures s / p == 3 ==> 3 * p <= s < 4 * p
  {
    assert s == (s / p) * p + s % p;
  }

  lemma MinSizes(i: nat)
    ensures MinSize(i) == (2 + i % 2) * Pow2(i / 2 + 7)
  {
  }

  lemma LastMin()
    ensures MinSize(TREE_BINS - 1) == 0xC00000
  {
    MinSizes(31);
    Pow2Sum(16, 6);
    Pow2Small();
    assert Pow2(6) == 64;
  }

  /** A greater bin, a greater size. */
  lemma BinOrder(s: nat, r: nat)
    requires MIN_LARGE_SIZE <= s && MIN_LARGE_SIZE <= r && IndexOf(s) < IndexOf(r)
    ensures s < r
  {
    hide IndexOf, MinSize;
    Partition(s);
    Partition(r);
    MinSizeGrows(IndexOf(s) + 1, IndexOf(r));
  }

  lemma {:induction false} MinSizeGrows(i: nat, j: nat)
    requires i <= j
    ensures MinSize(i) <= MinSize(j)
    decreases j
  {
    hide Pow2;
    if i < j {
      MinSizeGrows(i, j - 1);
      MinSizes(j);
      MinSizes(j - 1);
      DoublePow((j - 1) / 2 + 7);
    }
  }

  // -------------------------------------------------------------- the code's index

  function Half(x: bv64): (r: bv64)
    ensures x != 0 ==> r < x
  {
    x >> 1
  }

  predicate Odd(x: bv64) {
    x & 1 == 1
  }

  function Down(x: bv64, k: bv5): bv64 {
    x >> k
  }

  /** The number that a word stands for. */
  function Val(x: bv64): nat
    decreases x
  {
    if x == 0 then 0 else 2 * Val(Half(x)) + (if Odd(x) then 1 else 0)
  }

  lemma ValHalf(x: bv64)
    ensures Val(Half(x)) == Val(x) / 2 && (Odd(x) <==> Val(x) % 2 == 1)
  {
    hide Half, Odd;
    ZeroHalf();
    if x != 0 {
    }
  }

  lemma ZeroHalf()
    ensures Half(0) == 0 && !Odd(0)
  {
  }

  lemma StepDown(x: bv64, k: bv5)
    requires k != 0
    ensures Down(x, k) == Down(Half(x), k - 1)
  {
    hide Down;
    ShiftOne(x, k);
  }

  lemma ShiftOne(x: bv64, k: bv5)
    requires k != 0
    ensures Down(x, k) == Down(x >> 1, k - 1)
  {
    if k < 16 {
      ShiftLow(x, k);
    } else {
      ShiftHigh(x, k);
    }
  }

  lemma ShiftLow(x: bv64, k: bv5)
    requires 0 < k < 16
    ensures x >> k == (x >> 1) >> (k - 1)
  {
    if k < 4 {
    } else if k < 8 {
    } else if k < 12 {
    }
  }

  lemma ShiftHigh(x: bv64, k: bv5)
    requires 16 <= k
    ensures x >> k == (x >> 1) >> (k - 1)
  {
    if k < 20 {
    } else if k < 24 {
    } else if k < 28 {
    }
  }

  lemma DownNone(x: bv64)
    ensures Down(x, 0) == x
  {
  }

  function Count(k: bv5): nat {
    k as nat
  }

  lemma CountStep(k: bv5)
    ensures k == 0 ==> Count(k) == 0
    ensures k != 0 ==> Count(k) == Count(k - 1) + 1
  {
  }

  /** Shifting a word down divides its number. */
  lemma {:induction false} DownDivides(x: bv64, k: bv5)
    ensures Val(Down(x, k)) == Val(x) / Pow2(Count(k))
    decreases k
  {
    hide Down, Half, Val, Count;
    CountStep(k);
    if k == 0 {
      DownNone(x);
      assert Pow2(0) == 1;
    } else {
      StepDown(x, k);
      DownDivides(Half(x), k - 1);
      ValHalf(x);
      DivPow(Val(x), 1, Count(k - 1));
      assert Pow2(1) == 2;
    }
  }

  // -------------------------------------------------------- branch-free logarithm

  /** The leading bit of a word between 1 and 0xFFFF. */
  method LeadingBit(x: bv32) returns (k: bv5)
    requires 0 < x <= 0xFFFF
    ensures k < 16 && x >> k == 1
  {
    var y := x;
    var n := ((y - 0x100) >> 16) & 8;
    y := y << (n as bv5);
    var j := ((y - 0x1000) >> 16) & 4;
    n := n + j;
    y := y << (j as bv5);
    j := ((y - 0x4000) >> 16) & 2;
    n := n + j;
    y := y << (j as bv5);
    k := (14 - n + (y >> 15)) as bv5;
  }

  lemma Widen(x: bv64, k: bv5)
    requires x <= 0xFFFF && k < 16 && x as bv32 >> k == 1
    ensures Down(x, k) == 1
  {
  }

  lemma Narrow(x: bv64)
    requires x <= 0xFFFF
    ensures x as bv32 <= 0xFFFF && (x != 0 ==> x as bv32 != 0)
  {
  }

  /** A word that is 1 after a shift has its leading bit there. */
  lemma LeadingIsLog(x: bv64, k: bv5)
    requires Down(x, k) == 1
    ensures Val(x) > 0 && Log2(Val(x)) == Count(k)
  {
    hide Down, Half, Val, Pow2, Log2, Count;
    DownDivides(x, k);
    ValOne();
    TwoHalves(Val(x), Pow2(Count(k)));
    ValPositive(x);
    Log2Bounds(Val(x));
    OneSided(Val(x), Log2(Val(x)), Count(k));
    OneSided(Val(x), Count(k), Log2(Val(x)));
  }

  lemma ValPositive(x: bv64)
    ensures Val(x) >= 0
  {
  }

  lemma ValOne()
    ensures Val(1) == 1 && Val(0) == 0
  {
    assert Half(1) == 0 && Odd(1);
  }

  lemma {:induction false} NotZero(x: bv64)
    requires x != 0
    ensures Val(x) > 0
    decreases x
  {
    HalfZero(x);
    if !Odd(x) {
      NotZero(Half(x));
    }
  }

  lemma ValIsZero(x: bv64)
    ensures Val(x) == 0 <==> x == 0
  {
    hide Val;
    ValOne();
    if x != 0 {
      NotZero(x);
    }
  }

  lemma HalfZero(x: bv64)
    ensures x != 0 ==> Half(x) != 0 || Odd(x)
  {
  }

  lemma FitsSixteen(x: bv64)
    ensures x <= 0xFFFF <==> Down(x, 16) == 0
  {
  }

  /** The comparison of a word with 0xFFFF. */
  lemma Sixteen(x: bv64)
    ensures x <= 0xFFFF <==> Val(x) <= 0xFFFF
  {
    hide Down, Half, Val, Pow2, Count;
    FitsSixteen(x);
    DownDivides(x, 16);
    Pow2Small();
    Counts();
    ValIsZero(Down(x, 16));
    ValPositive(x);
  }

  lemma Counts()
    ensures Count(8) == 8 && Count(16) == 16
  {
  }

  /** The index as the code computes it from the size word `s`. */
  method ComputeIndex(s: bv64) returns (i: nat)
    ensures i == IndexOf(Val(s))
  {
    hide Half, Odd, Val, Pow2, Log2, TopBit, Down, Count;
    var x := Down(s, 8);
    EightFacts(s);
    ValIsZero(x);
    Sixteen(x);
    if x == 0 {
      i := 0;
    } else if x > 0xFFFF {
      i := TREE_BINS - 1;
    } else {
      Narrow(x);
      var k := LeadingBit(x as bv32);
      Widen(x, k);
      LeadingIsLog(x, k);
      NextBit(s, k);
      i := 2 * Count(k) + (if Odd(Down(s, k + 7)) then 1 else 0);
    }
  }

  lemma Plus7(k: bv5)
    requires k < 16
    ensures Count(k + 7) == Count(k) + 7
  {
  }

  lemma NextBit(s: bv64, k: bv5)
    requires k < 16
    ensures TopBit(Val(s), Count(k) + 8) == if Odd(Down(s, k + 7)) then 1 else 0
  {
    hide Half, Odd, Val, Pow2, Down, Count;
    Plus7(k);
    DownDivides(s, k + 7);
    ValHalf(Down(s, k + 7));
  }

  lemma EightFacts(s: bv64)
    ensures Val(Down(s, 8)) == Val(s) / 256
  {
    hide Half, Odd, Val, Pow2, Down, Count;
    DownDivides(s, 8);
    Counts();
    Pow2Small();
  }

  // -------------------------------------------------------------- words for sizes

  function Push(x: bv64, odd: bool): bv64 {
    (x << 1) | (if odd then 1 else 0)
  }

  /** The word that stands for a number. */
  function WordOf(n: nat): bv64 {
    if n == 0 then 0 else Push(WordOf(n / 2), n % 2 == 1)
  }

  /** No bit falls off the end of a word whose number is below 2^63. */
  lemma TopClear(x: bv64)
    requires Val(x) < Pow2(63)
    ensures Down(Down(Down(x, 31), 31), 1) == 0
  {
    hide Down, Half, Odd, Val, Pow2, Count;
    DownDivides(x, 31);
    DownDivides(Down(x, 31), 31);
    DownDivides(Down(Down(x, 31), 31), 1);
    LastCounts();
    DivPow(Val(x), 31, 31);
    DivPow(Val(x), 62, 1);
    DivSmall(Val(x), Pow2(63));
    ValIsZero(Down(Down(Down(x, 31), 31), 1));
  }

  lemma LastCounts()
    ensures Count(31) == 31 && Count(1) == 1
  {
  }

  lemma DivSmall(x: nat, d: nat)
    requires x < d
    ensures x / d == 0
  {
  }

  lemma PushBack(x: bv64, odd: bool)
    requires Down(Down(Down(x, 31), 31), 1) == 0
    ensures Half(Push(x, odd)) == x && (Odd(Push(x, odd)) <==> odd) && (Push(x, odd) == 0 ==> x == 0 && !odd)
  {
  }

  lemma {:induction false} WordVal(n: nat)
    requires n < Words()
    ensures Val(WordOf(n)) == n
  {
    hide Down, Half, Odd, Push, Pow2;
    ValOne();
    if n > 0 {
      Pow2Values();
      WordVal(n / 2);
      TopClear(WordOf(n / 2));
      PushBack(WordOf(n / 2), n % 2 == 1);
    }
  }

  /** The code's index of a size. */
  method TreeIndexOf(s: nat) returns (i: nat)
    requires s < Words()
    ensures i == IndexOf(s)
  {
    hide *;
    WordVal(s);
    i := ComputeIndex(WordOf(s));
  }
}
