/** Best fit over all bins. */
module BinSearch {
  import opened TreeBin
  import opened TreeFit
  import opened TreeIndex
  import opened TreeSearch
  import opened BinMap
  import opened BinLists

  /**
   * `v` is the node whose first chunk is the smallest large chunk of at least `nb` bytes; without one, there is no
   * such.
   */
  ghost predicate BestLarge(v: Trie, rsize: nat, f: set<Chunk>, nb: nat)
    requires nb < Words()
  {
    if v.Node? then
      && v.ring != [] && Chunk(v.ring[0], v.size) in f && !IsSmall(v.size) && nb <= v.size && rsize == v.size - nb
      && forall c :: c in f && !IsSmall(c.size) && nb <= c.size ==> v.size <= c.size
    else
      && rsize == Minus(0, nb)
      && forall c :: c in f && !IsSmall(c.size) ==> c.size < nb
  }

  // ----------------------------------------------------------- one bin's sizes

  /** What filing says about the sizes in one bin. */
  lemma BinSizes(b: Bins, f: set<Chunk>, i: nat)
    requires Filed(b, f) && i < TREE_BINS
    ensures var t := b.trees[i];
            && (Has(b.treemap, i) <==> t.Node?)
            && Inv(t, BitsOf(i), HighOf(i)) && Fit64(t)
            && (forall s :: s in Sizes(t) ==> 256 <= s && IndexOf(s) == i)
  {
    hide Inv, Chunks, Sizes, IndexOf, BitsOf, HighOf;
    var t := b.trees[i];
    assert LargeFiled(t, Has(b.treemap, i), f, i);
    WordsIs();
    forall s | s in Sizes(t)
      ensures 256 <= s < Words() && IndexOf(s) == i
    {
      SizeHasChunk(t, BitsOf(i), HighOf(i), s);
      assert Chunk(HeadOf(t, s), s) in LargeOf(f, i);
    }
  }

  /** A chunk in the trie of a bin is one of the free chunks that belong there, and back. */
  lemma BinChunk(b: Bins, f: set<Chunk>, i: nat, c: Chunk)
    requires Filed(b, f) && i < TREE_BINS
    ensures c in Chunks(b.trees[i]) <==> c in f && !IsSmall(c.size) && IndexOf(c.size) == i
    ensures c in Chunks(b.trees[i]) ==> c.size in Sizes(b.trees[i])
  {
    hide Inv, Chunks, Sizes, IndexOf, BitsOf, HighOf;
    var t := b.trees[i];
    assert LargeFiled(t, Has(b.treemap, i), f, i);
    assert c in LargeOf(f, i) <==> c in f && !IsSmall(c.size) && IndexOf(c.size) == i;
    if c in Chunks(t) {
      ChunkSize(t, c);
    }
  }

  /** The bins from that of `nb` up to bin `k` hold only chunks that are too small. */
  ghost predicate NothingBefore(b: Bins, k: nat, nb: nat)
    requires |b.trees| == TREE_BINS
  {
    && IndexOf(nb) <= k < TREE_BINS
    && forall j, s :: IndexOf(nb) <= j < k && s in Sizes(b.trees[j]) ==> s < nb
  }

  /** The best of bin `k` is the best of all. */
  lemma BestOfBin(b: Bins, f: set<Chunk>, k: nat, nb: nat, v: Trie, rsize: nat)
    requires Filed(b, f) && 256 <= nb < Words() && |b.trees| == TREE_BINS && NothingBefore(b, k, nb)
    requires Best(v, rsize, Sizes(b.trees[k]), nb) && NodeOf(v, b.trees[k]) && v.Node?
    ensures BestLarge(v, rsize, f, nb)
  {
    hide Inv, Chunks, Sizes, IndexOf, BitsOf, HighOf, Words, Filed;
    BinChunk(b, f, k, Chunk(v.ring[0], v.size));
    BinSizes(b, f, k);
    forall c | c in f && !IsSmall(c.size) && nb <= c.size
      ensures v.size <= c.size
    {
      var i := IndexOf(c.size);
      BinChunk(b, f, i, c);
      if i < IndexOf(nb) {
        BinOrder(c.size, nb);
      } else if i > k {
        BinOrder(v.size, c.size);
      }
    }
  }

  lemma TreesThere(b: Bins, f: set<Chunk>)
    requires Filed(b, f)
    ensures |b.trees| == TREE_BINS
  {
  }

  lemma EmptyTree(t: Trie, c: Chunk)
    ensures c in Chunks(t) ==> t.Node?
  {
  }

  /** No bin from that of `nb` on has a chunk that fits. */
  lemma NoFit(b: Bins, f: set<Chunk>, nb: nat)
    requires Filed(b, f) && 256 <= nb < Words() && |b.trees| == TREE_BINS
    requires forall s :: s in Sizes(b.trees[IndexOf(nb)]) ==> s < nb
    requires forall j :: IndexOf(nb) < j < TREE_BINS ==> b.trees[j].Nil?
    ensures BestLarge(Nil, Minus(0, nb), f, nb)
  {
    hide Inv, Chunks, Sizes, IndexOf, BitsOf, HighOf, Words, Filed;
    forall c | c in f && !IsSmall(c.size)
      ensures c.size < nb
    {
      var i := IndexOf(c.size);
      BinChunk(b, f, i, c);
      EmptyTree(b.trees[i], c);
      if i < IndexOf(nb) {
        BinOrder(c.size, nb);
      }
    }
  }

  /** The leftmost path of `t` is all that is missing from the best of bin `k`. */
  ghost predicate PathMissing(b: Bins, k: nat, nb: nat, v: Trie, rsize: nat, t: Trie, seen: set<nat>)
    requires |b.trees| == TREE_BINS && k < TREE_BINS && 0 < nb < Words()
  {
    && Below(t, b.trees[k]) && Best(v, rsize, seen, nb) && NodeOf(v, b.trees[k]) && (v.Node? ==> v.size < Words())
    && (exists s :: s in Sizes(b.trees[k]) && nb <= s)
    && forall v', rsize': nat :: Best(v', rsize', seen + PathSizes(t), nb) ==> Best(v', rsize', Sizes(b.trees[k]), nb)
  }

  lemma InOneBin(b: Bins, k: nat, nb: nat, v: Trie, rsize: nat, t: Trie, seen: set<nat>, right: set<nat>)
    requires |b.trees| == TREE_BINS && k < TREE_BINS && 0 < nb < Words()
    requires Descended(b.trees[k], v, rsize, t, seen, right, nb) && (t.Node? || v.Node?)
    ensures PathMissing(b, k, nb, v, rsize, t, seen)
  {
    hide Inv, Chunks, Sizes, Best, PathSizes;
    forall v', rsize': nat | Best(v', rsize', seen + PathSizes(t), nb)
      ensures Best(v', rsize', Sizes(b.trees[k]), nb)
    {
      BinDone(b.trees[k], v, rsize, t, seen, right, nb, v', rsize');
    }
    SomeFit(b.trees[k], v, rsize, t, seen, right, nb);
  }

  lemma SomeFit(root: Trie, v: Trie, rsize: nat, t: Trie, seen: set<nat>, right: set<nat>, nb: nat)
    requires 0 < nb < Words() && Descended(root, v, rsize, t, seen, right, nb) && (t.Node? || v.Node?)
    ensures exists s :: s in Sizes(root) && nb <= s
  {
    hide Inv, Chunks, Sizes;
    if v.Node? {
      assert v.size in seen;
      assert v.size in Sizes(root);
    } else {
      HasSize(t);
      assert t.size in right;
      assert t.size in Sizes(root);
    }
  }

  /** No fit in the bin of `nb`: all of its sizes are too small. */
  lemma AllTooSmall(root: Trie, rsize: nat, seen: set<nat>, right: set<nat>, nb: nat)
    requires Descended(root, Nil, rsize, Nil, seen, right, nb)
    ensures rsize == Minus(0, nb) && forall s :: s in Sizes(root) ==> s < nb
  {
    hide Inv, Chunks;
    assert seen + right == seen;
  }

  /** In the next non-empty bin everything fits. */
  lemma InNextBin(b: Bins, f: set<Chunk>, k: nat, nb: nat)
    requires Filed(b, f) && |b.trees| == TREE_BINS && 256 <= nb < Words() && IndexOf(nb) < k < TREE_BINS
    requires b.trees[k].Node?
    ensures PathMissing(b, k, nb, Nil, Minus(0, nb), b.trees[k], {})
  {
    hide Inv, Chunks, Sizes, Best, PathSizes, IndexOf, BitsOf, HighOf, Filed, Words;
    var t := b.trees[k];
    BinSizes(b, f, k);
    forall s | s in Sizes(t)
      ensures nb <= s
    {
      BinOrder(nb, s);
    }
    forall v', rsize': nat | Best(v', rsize', {} + PathSizes(t), nb)
      ensures Best(v', rsize', Sizes(t), nb)
    {
      WholeSubtree(v', rsize', {}, t, nb);
      assert {} + Sizes(t) == Sizes(t);
    }
    HasSize(t);
    NoneSeen(nb);
  }

  lemma NoneSeen(nb: nat)
    requires 0 < nb < Words()
    ensures Best(Nil, Minus(0, nb), {}, nb)
  {
  }

  lemma SomeBest(b: Bins, k: nat, nb: nat, v: Trie, rsize: nat)
    requires |b.trees| == TREE_BINS && k < TREE_BINS && 0 < nb < Words() && Best(v, rsize, Sizes(b.trees[k]), nb)
    requires exists s :: s in Sizes(b.trees[k]) && nb <= s
    ensures v.Node?
  {
    hide Sizes;
  }

  lemma BinShift(nb: nat)
    requires 256 <= nb < Words()
    ensures var i := IndexOf(nb);
            BitsOf(i) <= WORD_BITS && nb / Pow2(BitsOf(i)) == HighOf(i) && ShiftOf(i) == WORD_BITS - BitsOf(i)
  {
    hide IndexOf, Pow2, Words;
    SharedBits(nb);
  }

  lemma EmptyBin(root: Trie, nb: nat, v: Trie, rsize: nat, t: Trie, seen: set<nat>, right: set<nat>)
    requires nb < Words()
    requires (root.Nil? && v.Nil? && rsize == Minus(0, nb)) || Descended(root, v, rsize, t, seen, right, nb)
    ensures t.Nil? && v.Nil? ==> rsize == Minus(0, nb) && forall s :: s in Sizes(root) ==> s < nb
  {
    hide Descended;
    if t.Nil? && v.Nil? && Descended(root, v, rsize, t, seen, right, nb) {
      AllTooSmall(root, rsize, seen, right, nb);
    }
  }

  lemma BinCount()
    ensures BINS == TREE_BINS == 32
  {
  }

  lemma NextBin(b: Bins, f: set<Chunk>, i: nat)
    requires Filed(b, f) && |b.trees| == TREE_BINS && i < TREE_BINS
    ensures if Above(b.treemap, i) == 0 then forall j :: i < j < TREE_BINS ==> b.trees[j].Nil?
            else
              var k := FirstBin(Above(b.treemap, i));
              i < k < TREE_BINS && b.trees[k].Node? && forall j :: i < j < k ==> b.trees[j].Nil?
  {
    hide Above, Has, FirstBin, LargeFiled, SmallFiled;
    FirstAbove(b.treemap, i);
    forall j | 0 <= j < TREE_BINS
      ensures Has(b.treemap, j) <==> b.trees[j].Node?
    {
      MarkedTree(b.trees[j], Has(b.treemap, j), f, j);
    }
  }

  lemma MarkedTree(t: Trie, marked: bool, f: set<Chunk>, i: nat)
    requires LargeFiled(t, marked, f, i)
    ensures marked <==> t.Node?
  {
  }

  lemma TooSmallBefore(b: Bins, k: nat, nb: nat)
    requires |b.trees| == TREE_BINS && IndexOf(nb) < k < TREE_BINS
    requires forall s :: s in Sizes(b.trees[IndexOf(nb)]) ==> s < nb
    requires forall j :: IndexOf(nb) < j < k ==> b.trees[j].Nil?
    ensures NothingBefore(b, k, nb)
  {
    hide IndexOf;
  }

  lemma HereFirst(b: Bins, nb: nat)
    requires |b.trees| == TREE_BINS
    ensures NothingBefore(b, IndexOf(nb), nb)
  {
    hide IndexOf;
  }

  /** The first part of the search of `tmalloc_large`: it leaves only the leftmost path of `t` to be looked at. */
  method StartLarge(b: Bins, nb: nat, ghost f: set<Chunk>)
    returns (v: Trie, rsize: nat, t: Trie, ghost k: nat, ghost seen: set<nat>)
    requires Filed(b, f) && |b.trees| == TREE_BINS && 256 <= nb < Words()
    ensures rsize < Words() && k < TREE_BINS
    ensures if t.Nil? && v.Nil? then BestLarge(Nil, Minus(0, nb), f, nb) && rsize == Minus(0, nb)
            else NothingBefore(b, k, nb) && PathMissing(b, k, nb, v, rsize, t, seen)
  {
    hide *;
    var idx := TreeIndexOf(nb);
    k := idx;
    t := b.trees[idx];
    v, rsize := Nil, Minus(0, nb);
    BinSizes(b, f, idx);
    seen := {};
    ghost var right: set<nat> := {};
    if t.Node? {
      BinShift(nb);
      v, rsize, t, seen, right := Descend(t, nb, ShiftOf(idx), BitsOf(idx), HighOf(idx));
    }
    EmptyBin(b.trees[idx], nb, v, rsize, t, seen, right);
    if t.Nil? && v.Nil? {
      BinCount();
      var leftbits := Above(b.treemap, idx);
      NextBin(b, f, idx);
      if leftbits != 0 {
        var i := FirstBin(leftbits);
        t := b.trees[i];
        k := i;
        InNextBin(b, f, k, nb);
        TooSmallBefore(b, k, nb);
        seen := {};
      } else {
        NoFit(b, f, nb);
      }
    } else {
      InOneBin(b, idx, nb, v, rsize, t, seen, right);
      HereFirst(b, nb);
    }
  }

  lemma PathFacts(b: Bins, k: nat, nb: nat, v: Trie, rsize: nat, t: Trie, seen: set<nat>)
    requires |b.trees| == TREE_BINS && k < TREE_BINS && 0 < nb < Words() && PathMissing(b, k, nb, v, rsize, t, seen)
    ensures Below(t, b.trees[k]) && Best(v, rsize, seen, nb) && NodeOf(v, b.trees[k]) && (v.Node? ==> v.size < Words())
  {
    hide Below, Best, NodeOf, Words, Sizes;
  }

  lemma PathDone(b: Bins, f: set<Chunk>, k: nat, nb: nat, v: Trie, rsize: nat, t: Trie, seen: set<nat>, v': Trie,
                 rsize': nat)
    requires Filed(b, f) && |b.trees| == TREE_BINS && k < TREE_BINS && 256 <= nb < Words()
    requires PathMissing(b, k, nb, v, rsize, t, seen) && NothingBefore(b, k, nb)
    requires Best(v', rsize', seen + PathSizes(t), nb) && (v' == v || NodeOf(v', b.trees[k]))
    ensures BestLarge(v', rsize', f, nb)
  {
    hide Below, Best, NodeOf, Words, Sizes, Filed, NothingBefore, BestLarge, PathSizes;
    assert Best(v', rsize', Sizes(b.trees[k]), nb);
    SomeBest(b, k, nb, v', rsize');
    BestOfBin(b, f, k, nb, v', rsize');
  }

  /** The search of `tmalloc_large`: the best fitting of all large chunks. */
  method FindLarge(b: Bins, nb: nat, ghost f: set<Chunk>) returns (v: Trie, rsize: nat)
    requires Filed(b, f) && 256 <= nb < Words()
    ensures rsize < Words() && BestLarge(v, rsize, f, nb)
  {
    hide *;
    TreesThere(b, f);
    var t;
    ghost var k: nat, seen;
    v, rsize, t, k, seen := StartLarge(b, nb, f);
    if t.Node? || v.Node? {
      PathFacts(b, k, nb, v, rsize, t, seen);
      BinSizes(b, f, k);
      ghost var v0, rsize0 := v, rsize;
      v, rsize := Smallest(t, v, rsize, nb, b.trees[k], seen);
      PathDone(b, f, k, nb, v0, rsize0, t, seen, v, rsize);
    }
  }

  // ------------------------------------------------------------ small requests

  /** The smallest of all large chunks. */
  lemma SmallestOfAll(b: Bins, f: set<Chunk>, i: nat, nb: nat, v: Trie, rsize: nat)
    requires Filed(b, f) && |b.trees| == TREE_BINS && i < TREE_BINS && 0 < nb < 256 && b.trees[i].Node?
    requires nb < Words() && forall j :: 0 <= j < i ==> b.trees[j].Nil?
    requires Best(v, rsize, PathSizes(b.trees[i]), nb) && NodeOf(v, b.trees[i])
    ensures v.Node? && BestLarge(v, rsize, f, nb)
  {
    hide Inv, Chunks, Sizes, IndexOf, BitsOf, HighOf, Words, Filed, PathMin;
    var t := b.trees[i];
    BinSizes(b, f, i);
    assert {} + PathSizes(t) == PathSizes(t) && {} + Sizes(t) == Sizes(t);
    WholeSubtree(v, rsize, {}, t, nb);
    HasSize(t);
    assert v.Node?;
    BinChunk(b, f, i, Chunk(v.ring[0], v.size));
    forall c | c in f && !IsSmall(c.size) && nb <= c.size
      ensures v.size <= c.size
    {
      var j := IndexOf(c.size);
      BinChunk(b, f, j, c);
      EmptyTree(b.trees[j], c);
      if i < j {
        BinOrder(v.size, c.size);
      }
    }
  }

  /** The search of `tmalloc_small`, with some tree bin in use: the globally smallest large chunk. */
  method FindSmallest(b: Bins, nb: nat, ghost f: set<Chunk>) returns (v: Trie, rsize: nat)
    requires Filed(b, f) && b.treemap != 0 && 0 < nb < 256 && nb < Words()
    ensures v.Node? && rsize < Words() && BestLarge(v, rsize, f, nb)
  {
    hide *;
    TreesThere(b, f);
    var i := FirstBin(b.treemap);
    FirstTree(b, f);
    var t := b.trees[i];
    BinSizes(b, f, i);
    RootBelow(t, BitsOf(i), HighOf(i));
    LeftmostBelow(t, t);
    FitSize(t, t.size);
    NoneSeen(nb);
    FirstLook(t, nb);
    v, rsize := t, Minus(t.size, nb);
    v, rsize := Smallest(LeftmostChild(t), v, rsize, nb, t, {t.size});
    PathOf(t);
    SmallestOfAll(b, f, i, nb, v, rsize);
  }

  lemma FirstTree(b: Bins, f: set<Chunk>)
    requires Filed(b, f) && |b.trees| == TREE_BINS && b.treemap != 0
    ensures var i := FirstBin(b.treemap);
            i < TREE_BINS && b.trees[i].Node? && forall j :: 0 <= j < i ==> b.trees[j].Nil?
  {
    hide Has, FirstBin, LargeFiled, SmallFiled;
    FirstBinIsFirst(b.treemap);
    HasBound(b.treemap, FirstBin(b.treemap));
    forall j | 0 <= j < TREE_BINS
      ensures Has(b.treemap, j) <==> b.trees[j].Node?
    {
      MarkedTree(b.trees[j], Has(b.treemap, j), f, j);
    }
  }

  lemma RootBelow(t: Trie, b: nat, hi: nat)
    requires Inv(t, b, hi)
    ensures Below(t, t)
  {
  }

  lemma FirstLook(t: Trie, nb: nat)
    requires t.Node? && 256 <= t.size < Words() && 0 < nb < 256
    ensures Best(t, Minus(t.size, nb), {t.size}, nb)
  {
  }

  lemma PathOf(t: Trie)
    requires t.Node?
    ensures PathSizes(t) == {t.size} + PathSizes(LeftmostChild(t))
  {
  }
}
