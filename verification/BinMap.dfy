/** The 32-bit maps of non-empty bins, and the branch-free code that searches them. */
module BinMap {

  // ------------------------------------------------------------- words and bits

  function Mask(i: bv32): bv32 {
    if i < 32 then (1 as bv32) << i else 0
  }

  predicate Bit(x: bv32, i: bv32) {
    i < 32 && (x >> i) & 1 == 1
  }

  function ShiftDown(x: bv32, i: bv32): bv32 {
    if i < 32 then x >> i else 0
  }

  function ShiftUp(x: bv32, i: bv32): bv32 {
    if i < 32 then x << i else 0
  }

  /** The least set bit of a map. */
  function LeastBit(x: bv32): bv32 {
    x & (0 - x)
  }

  /** All bits to the left of the least bit of `x`. */
  function LeftBits(x: bv32): bv32 {
    (x << 1) | (0 - (x << 1))
  }

  /** The index of the only bit that is set. */
  function BitIndex(x: bv32): bv32 {
    var y0 := x - 1;
    var k0 := (y0 >> 12) & 16;
    var y1 := ShiftDown(y0, k0);
    var k1 := (y1 >> 5) & 8;
    var y2 := ShiftDown(y1, k1);
    var k2 := (y2 >> 2) & 4;
    var y3 := ShiftDown(y2, k2);
    var k3 := (y3 >> 1) & 2;
    var y4 := ShiftDown(y3, k3);
    var k4 := y4 & 1;
    k0 + k1 + k2 + k3 + k4 + ShiftDown(y4, k4)
  }

  /** `BitIndex` inverts `Mask`, on all single bits. */
  lemma BitIndexInverts(x: bv32)
    requires x != 0 && x & (x - 1) == 0
    ensures BitIndex(x) < 32 && Mask(BitIndex(x)) == x
  {
  }

  lemma LeastIsSingle(x: bv32)
    requires x != 0
    ensures LeastBit(x) != 0 && LeastBit(x) & (LeastBit(x) - 1) == 0
  {
  }

  lemma LeastIsFirst(x: bv32, i: bv32, j: bv32)
    requires x != 0 && i < 32 && LeastBit(x) == Mask(i)
    ensures Bit(x, i) && (j < i ==> !Bit(x, j))
  {
  }

  function MarkIn(x: bv32, i: bv32): bv32 {
    x | Mask(i)
  }

  function ClearIn(x: bv32, i: bv32): bv32 {
    x & !Mask(i)
  }

  function LeftIn(x: bv32, i: bv32): bv32 {
    x & LeftBits(Mask(i))
  }

  lemma LeftOf(x: bv32, i: bv32, j: bv32)
    requires i < 32 && j < 32
    ensures Bit(LeftIn(x, i), j) <==> Bit(x, j) && j > i
  {
  }

  lemma ShiftedBack(x: bv32, i: bv32)
    requires i < 32
    ensures LeftIn(ShiftUp(ShiftDown(x, i), i), i) == LeftIn(x, i)
  {
  }

  lemma SomeBit(x: bv32, i: bv32)
    ensures Bit(x, i) ==> x != 0
  {
  }

  lemma MarkBit(x: bv32, i: bv32, j: bv32)
    requires i < 32 && j < 32
    ensures Bit(MarkIn(x, i), j) <==> Bit(x, j) || i == j
  {
  }

  lemma ClearBit(x: bv32, i: bv32, j: bv32)
    requires i < 32 && j < 32
    ensures Bit(ClearIn(x, i), j) <==> Bit(x, j) && i != j
  {
  }

  lemma LowPair(x: bv32, i: bv32)
    requires i < 32
    ensures LowTwo(ShiftDown(x, i)) <==> Bit(x, i) || Bit(x, i + 1)
    ensures !ShiftDown(x, i) & 1 == if Bit(x, i) then 0 else 1
  {
  }

  lemma DownZero(x: bv32, i: bv32, j: bv32)
    requires i <= j < 32
    ensures ShiftDown(x, i) == 0 ==> !Bit(x, j)
  {
  }

  lemma DownRest(x: bv32, i: bv32)
    requires i < 32 && !Bit(x, i) && ShiftDown(x, i) != 0
    ensures LeftIn(x, i) != 0
  {
  }

  // ------------------------------------------------------------- bins by number

  const BINS: nat := 32

  function Ix(i: nat): bv32
    requires i < BINS
  {
    (i as bv5) as bv32
  }

  function Num(a: bv32): nat
    requires a < 32
  {
    (a as bv5) as nat
  }

  lemma IxBack(i: nat)
    requires i < BINS
    ensures Ix(i) < 32 && Num(Ix(i)) == i
  {
    IxBound(i as bv5);
    FiveBack(i);
    hide Num, Ix;
    FiveIs(i);
  }

  lemma FiveBack(i: nat)
    requires i < BINS
    ensures (i as bv5) as nat == i
  {
  }

  lemma IxBound(a: bv5)
    ensures a as bv32 < 32 && (a as bv32) as bv5 == a
  {
  }

  lemma FiveIs(i: nat)
    requires i < BINS && (i as bv5) as bv32 < 32 && ((i as bv5) as bv32) as bv5 == i as bv5
    ensures Ix(i) < 32 && Num(Ix(i)) == (i as bv5) as nat
  {
  }

  lemma IxNum(a: bv32)
    requires a < 32
    ensures Num(a) < 32 && Ix(Num(a)) == a
  {
    FiveNat(a as bv5);
    FiveWide(a);
  }

  lemma FiveNat(a: bv5)
    ensures a as nat < 32 && (a as nat) as bv5 == a
  {
  }

  lemma FiveWide(a: bv32)
    requires a < 32
    ensures (a as bv5) as bv32 == a
  {
  }

  lemma NumOrder(a: bv32, b: bv32)
    requires a < 32 && b < 32
    ensures a < b <==> Num(a) < Num(b)
    ensures b == a + 1 <==> Num(b) == Num(a) + 1
  {
    FiveWide(a);
    FiveWide(b);
    FiveOrder(a as bv5, b as bv5);
  }

  lemma FiveOrder(a: bv5, b: bv5)
    ensures a < b <==> a as nat < b as nat
    ensures a as bv32 < b as bv32 <==> a < b
    ensures b as bv32 == a as bv32 + 1 <==> b as nat == a as nat + 1
  {
  }

  lemma IxFacts(i: nat, j: nat)
    requires i < BINS && j < BINS
    ensures Ix(i) < 32 && Ix(j) < 32
    ensures Ix(i) < Ix(j) <==> i < j
    ensures Ix(i) == Ix(j) <==> i == j
    ensures Ix(j) == Ix(i) + 1 <==> j == i + 1
  {
    hide Ix, Num;
    IxBack(i);
    IxBack(j);
    NumOrder(Ix(i), Ix(j));
  }

  /** Bin `i` is marked as non-empty. */
  ghost predicate Has(x: bv32, i: nat) {
    i < BINS && Bit(x, Ix(i))
  }

  function Mark(x: bv32, i: nat): bv32
    requires i < BINS
  {
    MarkIn(x, Ix(i))
  }

  function Clear(x: bv32, i: nat): bv32
    requires i < BINS
  {
    ClearIn(x, Ix(i))
  }

  lemma Marked(x: bv32, i: nat, j: nat)
    requires i < BINS
    ensures Has(Mark(x, i), j) <==> Has(x, j) || i == j
    ensures Has(Clear(x, i), j) <==> Has(x, j) && i != j
  {
    hide Mark, Clear, Bit, Ix;
    if j < BINS {
      IxFacts(i, j);
      MarkedBit(x, i, j);
    }
  }

  lemma MarkedBit(x: bv32, i: nat, j: nat)
    requires i < BINS && j < BINS && Ix(i) < 32 && Ix(j) < 32
    ensures Bit(Mark(x, i), Ix(j)) <==> Bit(x, Ix(j)) || Ix(i) == Ix(j)
    ensures Bit(Clear(x, i), Ix(j)) <==> Bit(x, Ix(j)) && Ix(i) != Ix(j)
  {
    hide Bit, Ix, MarkIn, ClearIn;
    MarkBit(x, Ix(i), Ix(j));
    ClearBit(x, Ix(i), Ix(j));
  }

  lemma NothingIn(j: nat)
    ensures !Has(0, j)
  {
    if j < BINS {
      SomeBit(0, Ix(j));
    }
  }

  /** The first marked bin to the right of nothing, that is the lowest one. */
  function FirstBin(x: bv32): nat
    requires x != 0
  {
    LeastIsSingle(x);
    BitIndexInverts(LeastBit(x));
    Num(BitIndex(LeastBit(x)))
  }

  lemma FirstBinIsFirst(x: bv32)
    requires x != 0
    ensures Has(x, FirstBin(x)) && forall j :: 0 <= j < FirstBin(x) ==> !Has(x, j)
  {
    hide Ix, Bit, Mask, BitIndex, LeastBit;
    var b := BitIndex(LeastBit(x));
    LeastIsSingle(x);
    BitIndexInverts(LeastBit(x));
    IxNum(b);
    LeastIsFirst(x, b, b);
    forall j | 0 <= j < FirstBin(x)
      ensures !Has(x, j)
    {
      IxFacts(j, FirstBin(x));
      LeastIsFirst(x, b, Ix(j));
    }
  }

  /** The map with only the bins above bin `i`. */
  function Above(x: bv32, i: nat): bv32
    requires i < BINS
  {
    LeftIn(x, Ix(i))
  }

  lemma AboveHas(x: bv32, i: nat, j: nat)
    requires i < BINS
    ensures Has(Above(x, i), j) <==> Has(x, j) && j > i
  {
    hide Above, Bit, Ix;
    if j < BINS {
      IxFacts(i, j);
      AboveBit(x, i, j);
    }
  }

  lemma AboveBit(x: bv32, i: nat, j: nat)
    requires i < BINS && j < BINS && Ix(i) < 32 && Ix(j) < 32
    ensures Bit(Above(x, i), Ix(j)) <==> Bit(x, Ix(j)) && Ix(j) > Ix(i)
  {
    hide Bit, Ix, LeftIn;
    LeftOf(x, Ix(i), Ix(j));
  }

  /** The lowest marked bin above bin `i`. */
  lemma FirstAbove(x: bv32, i: nat)
    requires i < BINS
    ensures if Above(x, i) == 0 then forall j :: i < j ==> !Has(x, j)
            else
              var k := FirstBin(Above(x, i));
              i < k < BINS && Has(x, k) && forall j :: i < j < k ==> !Has(x, j)
  {
    hide Above, FirstBin, Has;
    forall j: nat
      ensures Has(Above(x, i), j) <==> Has(x, j) && j > i
    {
      AboveHas(x, i, j);
    }
    if Above(x, i) == 0 {
      forall j | i < j
        ensures !Has(x, j)
      {
        NothingIn(j);
      }
    } else {
      FirstBinIsFirst(Above(x, i));
      HasBound(x, FirstBin(Above(x, i)));
    }
  }

  lemma HasBound(x: bv32, i: nat)
    ensures Has(x, i) ==> i < BINS
  {
  }

  // ------------------------------------------------------- small bins, in pairs

  /** The map shifted so that bin `i` is at bit 0. */
  function From(x: bv32, i: nat): bv32
    requires i < BINS
  {
    ShiftDown(x, Ix(i))
  }

  /** One of the two lowest bits is set. */
  predicate LowTwo(x: bv32) {
    x & 3 != 0
  }

  /** A bin without remainder: bin `i`, or the next one if it is empty. */
  function ExactBin(x: bv32, i: nat): nat
    requires i < BINS
  {
    i + (if !From(x, i) & 1 == 0 then 0 else 1)
  }

  /** The two lowest bits of the shifted map stand for bin `i` and the next one. */
  lemma PairAt(x: bv32, i: nat)
    requires i < BINS
    ensures !LowTwo(From(x, i)) ==> !Has(x, i) && !Has(x, i + 1)
    ensures LowTwo(From(x, i)) ==> Has(x, ExactBin(x, i))
    ensures ExactBin(x, i) == if Has(x, i) then i else i + 1
  {
    hide Ix, Bit, ShiftDown;
    IxFacts(i, i);
    LowPair(x, Ix(i));
    if i + 1 < BINS {
      IxFacts(i, i + 1);
    } else {
      LastBin(x, i);
    }
  }

  lemma LastBin(x: bv32, i: nat)
    requires i == 31
    ensures !Bit(x, Ix(i) + 1)
  {
    assert Ix(31) == 31;
  }

  /** With no bin from `i` on, the shifted map is zero; otherwise, with bin `i` empty, there is one above it. */
  lemma RestFrom(x: bv32, i: nat)
    requires i < BINS
    ensures From(x, i) == 0 ==> forall j :: i <= j ==> !Has(x, j)
    ensures From(x, i) != 0 && !Has(x, i) ==> Above(x, i) != 0
    ensures Above(ShiftUp(From(x, i), Ix(i)), i) == Above(x, i)
  {
    hide Ix, Bit, ShiftDown, ShiftUp, LeftIn;
    IxFacts(i, i);
    ShiftedBack(x, Ix(i));
    if From(x, i) == 0 {
      forall j | i <= j
        ensures !Has(x, j)
      {
        if j < BINS {
          IxFacts(i, j);
          DownZero(x, Ix(i), Ix(j));
        }
      }
    } else if !Has(x, i) {
      DownRest(x, Ix(i));
    }
  }
}
