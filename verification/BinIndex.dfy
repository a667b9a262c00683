/** The cache bin for a size: the number of its leading bit, by smearing and counting bits. */
module BinIndex {
  import opened TreeBin
  import opened TreeFit
  import opened TreeIndex

  /** The leading bit of a word: all bits below it are set, then the zeros above are counted. */
  function TopBitOf(size: bv32): bv32 {
    var x1 := size | (size >> 1);
    var x2 := x1 | (x1 >> 2);
    var x3 := x2 | (x2 >> 4);
    var x4 := x3 | (x3 >> 8);
    var x5 := !(x4 | (x4 >> 16));
    var y1 := x5 - ((x5 >> 1) & 0x55555555);
    var y2 := (y1 & 0x33333333) + ((y1 >> 2) & 0x33333333);
    var y3 := (y2 + (y2 >> 4)) & 0x0F0F0F0F;
    var y4 := y3 + (y3 << 8);
    var y5 := y4 + (y4 << 16);
    31 - (y5 >> 24)
  }

  /** For every word but 0: shifted down by the result, only the leading bit is left. */
  lemma TopBitIs(x: bv64)
    requires 0 < x <= 0xFFFF_FFFF
    ensures TopBitOf(x as bv32) < 32 && Down(x, TopBitOf(x as bv32) as bv5) == 1
  {
  }

  lemma FitsWord(x: bv64)
    ensures x <= 0xFFFF_FFFF <==> Down(Down(x, 16), 16) == 0
  {
  }

  lemma Pow2Of16()
    ensures Pow2(16) == 0x1_0000 && Pow2(32) == 0x1_0000_0000
  {
    Pow2Small();
    Pow2Sum(16, 16);
  }

  lemma SmallWord(x: bv64)
    requires Val(x) < 0x1_0000_0000
    ensures x <= 0xFFFF_FFFF
  {
    hide Down, Half, Odd, Val, Pow2, Count;
    FitsWord(x);
    DownDivides(x, 16);
    DownDivides(Down(x, 16), 16);
    Counts();
    Pow2Of16();
    DivTwice(Val(x), 0x1_0000, 0x1_0000);
    ValIsZero(Down(Down(x, 16), 16));
  }

  /** `size2binidx`: the logarithm of the size in units of 16 bytes. */
  method Size2BinIdx(size: nat) returns (idx: nat)
    requires 16 <= size < 0x10_0000_0000
    ensures idx == Log2(size / 16)
  {
    hide Down, Val, WordOf, Log2, Count, TopBitOf;
    var x := WordOf(size / 16);
    WordsAbove();
    WordVal(size / 16);
    SmallWord(x);
    ValIsZero(x);
    TopBitIs(x);
    var k := TopBitOf(x as bv32) as bv5;
    LeadingIsLog(x, k);
    idx := Count(k);
  }

  lemma WordsAbove()
    ensures 0x1_0000_0000 < Words()
  {
  }
}
