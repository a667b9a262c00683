/** The bins of a heap: lists of small chunks, tries of large ones, and the maps that tell which bins are in use. */
module BinLists {
  import opened TreeBin
  import opened TreeFit
  import opened TreeIndex
  import opened BinMap

  /**
   * The lists are in `fd` order. A list or trie whose bit is off is not looked at: taking the last chunk of a small bin
   * only clears the bit and leaves the links as they were.
   */
  datatype Bins = Bins(small: seq<seq<Addr>>, smallmap: bv32, trees: seq<Trie>, treemap: bv32)

  predicate IsSmall(s: nat) {
    s / 8 < BINS
  }

  function SmallIndex(s: nat): nat {
    s / 8
  }

  predicate IsMarked(x: bv32, i: nat)
    requires i < BINS
  {
    TestBit(x, Ix(i))
  }

  lemma MarkedHas(x: bv32, i: nat)
    requires i < BINS
    ensures IsMarked(x, i) <==> Has(x, i)
  {
    hide Ix, TestBit, Bit;
    IxFacts(i, i);
    TestBitIs(x, Ix(i));
  }

  predicate TestBit(x: bv32, i: bv32) {
    x & Mask(i) != 0
  }

  lemma TestBitIs(x: bv32, i: bv32)
    requires i < 32
    ensures TestBit(x, i) <==> Bit(x, i)
  {
  }

  // ------------------------------------------------------------------ invariant

  /** A chunk as it may be in a bin. */
  predicate FreeSize(s: nat) {
    s % 8 == 0 && 32 <= s < 0x1_0000_0000_0000_0000
  }

  ghost function SmallOf(f: set<Chunk>, i: nat): set<Addr> {
    set c | c in f && c.size == 8 * i :: c.at
  }

  ghost function LargeOf(f: set<Chunk>, i: nat): set<Chunk> {
    set c | c in f && !IsSmall(c.size) && IndexOf(c.size) == i
  }

  /** Small bin `i` holds exactly the chunks of its size, each once. */
  ghost predicate SmallFiled(list: seq<Addr>, marked: bool, f: set<Chunk>, i: nat) {
    && (marked ==> list != [] && multiset(list) == multiset(SmallOf(f, i)))
    && (!marked ==> SmallOf(f, i) == {})
  }

  /** Tree bin `i` is a trie of exactly the chunks that belong there, each once. */
  ghost predicate LargeFiled(t: Trie, marked: bool, f: set<Chunk>, i: nat) {
    && (marked <==> t.Node?)
    && Inv(t, BitsOf(i), HighOf(i)) && Chunks(t) == multiset(LargeOf(f, i))
  }

  /** The bins hold exactly the chunks of `f`, each in the bin that its size selects. */
  ghost predicate Filed(b: Bins, f: set<Chunk>) {
    && |b.small| == BINS && |b.trees| == TREE_BINS
    && (forall c :: c in f ==> FreeSize(c.size))
    && (forall i :: 0 <= i < BINS ==> SmallFiled(b.small[i], Has(b.smallmap, i), f, i))
    && (forall i :: 0 <= i < TREE_BINS ==> LargeFiled(b.trees[i], Has(b.treemap, i), f, i))
  }

  // ------------------------------------------------------------- inserting

  function InsertSmall(b: Bins, p: Addr, s: nat): Bins
    requires |b.small| == BINS && IsSmall(s)
  {
    var i := SmallIndex(s);
    if IsMarked(b.smallmap, i) then b.(small := b.small[i := [p] + b.small[i]])
    else b.(small := b.small[i := [p]], smallmap := Mark(b.smallmap, i))
  }

  function InsertLarge(b: Bins, p: Addr, s: nat): Bins
    requires |b.trees| == TREE_BINS
  {
    var i := IndexOf(s);
    if IsMarked(b.treemap, i) then b.(trees := b.trees[i := Insert(b.trees[i], BitsOf(i), s, p)])
    else b.(trees := b.trees[i := Node([p], s, Nil, Nil)], treemap := Mark(b.treemap, i))
  }

  function InsertChunk(b: Bins, p: Addr, s: nat): Bins
    requires |b.small| == BINS && |b.trees| == TREE_BINS
  {
    if IsSmall(s) then InsertSmall(b, p, s) else InsertLarge(b, p, s)
  }

  lemma SmallSame(f: set<Chunk>, c: Chunk, i: nat)
    requires c.size != 8 * i
    ensures SmallOf(f + {c}, i) == SmallOf(f, i) && SmallOf(f - {c}, i) == SmallOf(f, i)
  {
    forall x
      ensures x in SmallOf(f + {c}, i) <==> x in SmallOf(f, i)
    {
      assert x in SmallOf(f + {c}, i) <==> Chunk(x, 8 * i) in f + {c};
      assert x in SmallOf(f, i) <==> Chunk(x, 8 * i) in f;
    }
    forall x
      ensures x in SmallOf(f - {c}, i) <==> x in SmallOf(f, i)
    {
      assert x in SmallOf(f - {c}, i) <==> Chunk(x, 8 * i) in f - {c};
      assert x in SmallOf(f, i) <==> Chunk(x, 8 * i) in f;
    }
  }

  lemma SmallMore(f: set<Chunk>, p: Addr, i: nat)
    ensures SmallOf(f + {Chunk(p, 8 * i)}, i) == SmallOf(f, i) + {p}
    ensures SmallOf(f - {Chunk(p, 8 * i)}, i) == SmallOf(f, i) - {p}
    ensures p in SmallOf(f, i) <==> Chunk(p, 8 * i) in f
  {
    var c := Chunk(p, 8 * i);
    forall x
      ensures x in SmallOf(f + {c}, i) <==> x in SmallOf(f, i) + {p}
    {
      assert x in SmallOf(f + {c}, i) <==> Chunk(x, 8 * i) in f + {c};
      assert x in SmallOf(f, i) <==> Chunk(x, 8 * i) in f;
    }
    forall x
      ensures x in SmallOf(f - {c}, i) <==> x in SmallOf(f, i) - {p}
    {
      assert x in SmallOf(f - {c}, i) <==> Chunk(x, 8 * i) in f - {c};
      assert x in SmallOf(f, i) <==> Chunk(x, 8 * i) in f;
    }
  }

  lemma LargeSame(f: set<Chunk>, c: Chunk, i: nat)
    requires IsSmall(c.size) || IndexOf(c.size) != i
    ensures LargeOf(f + {c}, i) == LargeOf(f, i) && LargeOf(f - {c}, i) == LargeOf(f, i)
  {
    hide IndexOf;
  }

  lemma LargeMore(f: set<Chunk>, c: Chunk)
    requires !IsSmall(c.size)
    ensures LargeOf(f + {c}, IndexOf(c.size)) == LargeOf(f, IndexOf(c.size)) + {c}
    ensures LargeOf(f - {c}, IndexOf(c.size)) == LargeOf(f, IndexOf(c.size)) - {c}
    ensures c in LargeOf(f, IndexOf(c.size)) <==> c in f
  {
    hide IndexOf;
  }

  lemma AddOne<T>(s: set<T>, x: T)
    requires x !in s
    ensures multiset(s + {x}) == multiset(s) + multiset{x}
  {
  }

  lemma TakeOne<T>(s: set<T>, x: T)
    requires x in s
    ensures multiset(s - {x}) + multiset{x} == multiset(s)
  {
  }

  /** Filing a chunk keeps the bins and adds exactly that chunk. */
  lemma InsertFiled(b: Bins, f: set<Chunk>, p: Addr, s: nat)
    requires Filed(b, f) && FreeSize(s) && Chunk(p, s) !in f
    ensures Filed(InsertChunk(b, p, s), f + {Chunk(p, s)})
  {
    hide SmallFiled, LargeFiled, IndexOf, Mark, IsMarked, FreeSize;
    var c := Chunk(p, s);
    if IsSmall(s) {
      SmallInserted(b, f, p, s);
      forall i | 0 <= i < TREE_BINS
        ensures LargeFiled(b.trees[i], Has(b.treemap, i), f + {c}, i)
      {
        OtherLarge(b.trees[i], Has(b.treemap, i), f, c, i);
      }
    } else {
      LargeInserted(b, f, p, s);
      forall i | 0 <= i < BINS
        ensures SmallFiled(b.small[i], Has(b.smallmap, i), f + {c}, i)
      {
        OtherSmall(b.small[i], Has(b.smallmap, i), f, c, i);
      }
    }
  }

  lemma OtherSmall(list: seq<Addr>, marked: bool, f: set<Chunk>, c: Chunk, i: nat)
    requires SmallFiled(list, marked, f, i) && c.size != 8 * i
    ensures SmallFiled(list, marked, f + {c}, i) && SmallFiled(list, marked, f - {c}, i)
  {
    hide SmallOf;
    SmallSame(f, c, i);
  }

  lemma OtherLarge(t: Trie, marked: bool, f: set<Chunk>, c: Chunk, i: nat)
    requires LargeFiled(t, marked, f, i) && (IsSmall(c.size) || IndexOf(c.size) != i)
    ensures LargeFiled(t, marked, f + {c}, i) && LargeFiled(t, marked, f - {c}, i)
  {
    hide LargeOf, IndexOf, Inv, Chunks;
    LargeSame(f, c, i);
  }

  lemma SmallInserted(b: Bins, f: set<Chunk>, p: Addr, s: nat)
    requires Filed(b, f) && FreeSize(s) && IsSmall(s) && Chunk(p, s) !in f
    ensures var b' := InsertSmall(b, p, s);
            |b'.small| == BINS && forall i :: 0 <= i < BINS ==>
              SmallFiled(b'.small[i], Has(b'.smallmap, i), f + {Chunk(p, s)}, i)
  {
    hide SmallFiled, LargeFiled, Mark, IsMarked, Has;
    var b' := InsertSmall(b, p, s);
    var k := SmallIndex(s);
    MarkedHas(b.smallmap, k);
    SmallFit(s);
    forall i | 0 <= i < BINS
      ensures SmallFiled(b'.small[i], Has(b'.smallmap, i), f + {Chunk(p, s)}, i)
    {
      Marked(b.smallmap, k, i);
      if i == k {
        ThisSmall(b.small[k], Has(b.smallmap, k), f, p, k);
      } else {
        OtherSmall(b.small[i], Has(b.smallmap, i), f, Chunk(p, s), i);
      }
    }
  }

  lemma SmallFit(s: nat)
    requires FreeSize(s)
    ensures s == 8 * SmallIndex(s)
  {
  }

  lemma ThisSmall(list: seq<Addr>, marked: bool, f: set<Chunk>, p: Addr, k: nat)
    requires SmallFiled(list, marked, f, k) && Chunk(p, 8 * k) !in f
    ensures SmallFiled(if marked then [p] + list else [p], true, f + {Chunk(p, 8 * k)}, k)
  {
    hide SmallOf;
    SmallMore(f, p, k);
    AddOne(SmallOf(f, k), p);
    assert multiset([p] + list) == multiset{p} + multiset(list);
    assert multiset([p]) == multiset{p};
  }

  lemma LargeInserted(b: Bins, f: set<Chunk>, p: Addr, s: nat)
    requires Filed(b, f) && FreeSize(s) && !IsSmall(s) && Chunk(p, s) !in f
    ensures var b' := InsertLarge(b, p, s);
            |b'.trees| == TREE_BINS
            && forall i :: 0 <= i < TREE_BINS ==> LargeFiled(b'.trees[i], Has(b'.treemap, i), f + {Chunk(p, s)}, i)
  {
    hide SmallFiled, LargeFiled, Mark, IsMarked, Has, IndexOf, Insert;
    var b' := InsertLarge(b, p, s);
    var k := IndexOf(s);
    MarkedHas(b.treemap, k);
    forall i | 0 <= i < TREE_BINS
      ensures LargeFiled(b'.trees[i], Has(b'.treemap, i), f + {Chunk(p, s)}, i)
    {
      Marked(b.treemap, k, i);
      if i == k {
        ThisLarge(b.trees[k], Has(b.treemap, k), f, p, s);
      } else {
        OtherLarge(b.trees[i], Has(b.treemap, i), f, Chunk(p, s), i);
      }
    }
  }

  lemma WordsIs()
    ensures Words() == 0x1_0000_0000_0000_0000
  {
  }

  lemma ThisLarge(t: Trie, marked: bool, f: set<Chunk>, p: Addr, s: nat)
    requires FreeSize(s) && !IsSmall(s) && Chunk(p, s) !in f && LargeFiled(t, marked, f, IndexOf(s))
    ensures LargeFiled(if marked then Insert(t, BitsOf(IndexOf(s)), s, p) else Node([p], s, Nil, Nil), true,
                       f + {Chunk(p, s)},
                       IndexOf(s))
  {
    hide Inv, Chunks, LargeOf, IndexOf, Insert, Sizes, BitsOf, HighOf, Words;
    var k := IndexOf(s);
    WordsIs();
    SharedBits(s);
    InsertKeeps(t, BitsOf(k), HighOf(k), s, p);
    LargeMore(f, Chunk(p, s));
    AddOne(LargeOf(f, k), Chunk(p, s));
    InsertFirst(t, BitsOf(k), s, p);
  }

  lemma InsertFirst(t: Trie, b: nat, s: nat, p: Addr)
    ensures t.Nil? ==> Insert(t, b, s, p) == Node([p], s, Nil, Nil)
    ensures Insert(t, b, s, p).Node?
  {
  }

  // ------------------------------------------------------------- unlinking

  function Without(list: seq<Addr>, p: Addr): seq<Addr> {
    if list == [] then [] else if list[0] == p then list[1..] else [list[0]] + Without(list[1..], p)
  }

  lemma {:induction false} WithoutIs(list: seq<Addr>, p: Addr)
    requires p in list
    ensures multiset(Without(list, p)) + multiset{p} == multiset(list)
  {
    assert list == [list[0]] + list[1..];
    if list[0] != p {
      WithoutIs(list[1..], p);
    }
  }

  function UnlinkSmall(b: Bins, p: Addr, s: nat): Bins
    requires |b.small| == BINS && IsSmall(s)
  {
    var i := SmallIndex(s);
    if |b.small[i]| == 1 then b.(smallmap := Clear(b.smallmap, i))
    else b.(small := b.small[i := Without(b.small[i], p)])
  }

  function UnlinkLarge(b: Bins, p: Addr, s: nat): Bins
    requires |b.trees| == TREE_BINS
  {
    var i := IndexOf(s);
    var t := Unlink(b.trees[i], BitsOf(i), s, p);
    b.(trees := b.trees[i := t], treemap := if t.Nil? then Clear(b.treemap, i) else b.treemap)
  }

  function UnlinkChunk(b: Bins, p: Addr, s: nat): Bins
    requires |b.small| == BINS && |b.trees| == TREE_BINS
  {
    if IsSmall(s) then UnlinkSmall(b, p, s) else UnlinkLarge(b, p, s)
  }

  /** Unlinking a chunk keeps the bins and takes away exactly that chunk. */
  lemma UnlinkFiled(b: Bins, f: set<Chunk>, p: Addr, s: nat)
    requires Filed(b, f) && Chunk(p, s) in f
    ensures Filed(UnlinkChunk(b, p, s), f - {Chunk(p, s)})
  {
    hide SmallFiled, LargeFiled, IndexOf, Clear, FreeSize;
    var c := Chunk(p, s);
    if IsSmall(s) {
      SmallUnlinked(b, f, p, s);
      forall i | 0 <= i < TREE_BINS
        ensures LargeFiled(b.trees[i], Has(b.treemap, i), f - {c}, i)
      {
        OtherLarge(b.trees[i], Has(b.treemap, i), f, c, i);
      }
    } else {
      LargeUnlinked(b, f, p, s);
      forall i | 0 <= i < BINS
        ensures SmallFiled(b.small[i], Has(b.smallmap, i), f - {c}, i)
      {
        OtherSmall(b.small[i], Has(b.smallmap, i), f, c, i);
      }
    }
  }

  lemma SmallUnlinked(b: Bins, f: set<Chunk>, p: Addr, s: nat)
    requires Filed(b, f) && IsSmall(s) && Chunk(p, s) in f
    ensures var b' := UnlinkSmall(b, p, s);
            |b'.small| == BINS && forall i :: 0 <= i < BINS ==>
              SmallFiled(b'.small[i], Has(b'.smallmap, i), f - {Chunk(p, s)}, i)
  {
    hide SmallFiled, LargeFiled, Clear, Has, Without;
    var b' := UnlinkSmall(b, p, s);
    var k := SmallIndex(s);
    SmallFit(s);
    forall i | 0 <= i < BINS
      ensures SmallFiled(b'.small[i], Has(b'.smallmap, i), f - {Chunk(p, s)}, i)
    {
      Marked(b.smallmap, k, i);
      if i == k {
        LessSmall(b.small[k], Has(b.smallmap, k), f, p, k);
      } else {
        OtherSmall(b.small[i], Has(b.smallmap, i), f, Chunk(p, s), i);
      }
    }
  }

  lemma LessSmall(list: seq<Addr>, marked: bool, f: set<Chunk>, p: Addr, k: nat)
    requires SmallFiled(list, marked, f, k) && Chunk(p, 8 * k) in f
    ensures marked && p in list
    ensures if |list| == 1 then SmallFiled(list, false, f - {Chunk(p, 8 * k)}, k)
            else SmallFiled(Without(list, p), true, f - {Chunk(p, 8 * k)}, k)
  {
    hide SmallOf, Without;
    SmallMore(f, p, k);
    TakeOne(SmallOf(f, k), p);
    assert p in multiset(list);
    WithoutIs(list, p);
    SameSum(multiset(Without(list, p)), multiset(SmallOf(f, k) - {p}), multiset{p});
    Emptied(list, Without(list, p), p, SmallOf(f, k) - {p});
  }

  lemma SameSum<T>(a: multiset<T>, b: multiset<T>, x: multiset<T>)
    requires a + x == b + x
    ensures a == b
  {
    forall e: T
      ensures a[e] == b[e]
    {
      assert (a + x)[e] == a[e] + x[e] && (b + x)[e] == b[e] + x[e];
    }
  }

  lemma Emptied(list: seq<Addr>, rest: seq<Addr>, p: Addr, others: set<Addr>)
    requires multiset(rest) + multiset{p} == multiset(list) && multiset(rest) == multiset(others)
    ensures |list| == 1 ==> others == {}
    ensures |list| != 1 ==> rest != []
  {
    assert |multiset(rest) + multiset{p}| == |multiset(rest)| + 1;
    assert |multiset(list)| == |list| && |multiset(rest)| == |rest|;
    assert |multiset(others)| == |rest|;
  }

  lemma LargeUnlinked(b: Bins, f: set<Chunk>, p: Addr, s: nat)
    requires Filed(b, f) && !IsSmall(s) && Chunk(p, s) in f
    ensures var b' := UnlinkLarge(b, p, s);
            |b'.trees| == TREE_BINS
            && forall i :: 0 <= i < TREE_BINS ==> LargeFiled(b'.trees[i], Has(b'.treemap, i), f - {Chunk(p, s)}, i)
  {
    hide SmallFiled, LargeFiled, Clear, Has, IndexOf, Unlink;
    var b' := UnlinkLarge(b, p, s);
    var k := IndexOf(s);
    forall i | 0 <= i < TREE_BINS
      ensures LargeFiled(b'.trees[i], Has(b'.treemap, i), f - {Chunk(p, s)}, i)
    {
      Marked(b.treemap, k, i);
      if i == k {
        LessLarge(b.trees[k], Has(b.treemap, k), f, p, s);
      } else {
        OtherLarge(b.trees[i], Has(b.treemap, i), f, Chunk(p, s), i);
      }
    }
  }

  lemma LessLarge(t: Trie, marked: bool, f: set<Chunk>, p: Addr, s: nat)
    requires !IsSmall(s) && Chunk(p, s) in f && LargeFiled(t, marked, f, IndexOf(s))
    ensures marked
    ensures var t' := Unlink(t, BitsOf(IndexOf(s)), s, p); LargeFiled(t', t'.Node?, f - {Chunk(p, s)}, IndexOf(s))
  {
    hide Inv, Chunks, LargeOf, IndexOf, Unlink, BitsOf, HighOf;
    var k := IndexOf(s);
    LargeMore(f, Chunk(p, s));
    assert Chunk(p, s) in Chunks(t);
    NotNil(t, Chunk(p, s));
    UnlinkKeeps(t, BitsOf(k), HighOf(k), s, p);
    TakeOne(LargeOf(f, k), Chunk(p, s));
    SameSum(Chunks(Unlink(t, BitsOf(k), s, p)), multiset(LargeOf(f, k) - {Chunk(p, s)}), multiset{Chunk(p, s)});
  }
}
