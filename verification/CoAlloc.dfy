/** Many blocks at once: `ialloc`, which takes one chunk and splits it into the blocks asked for. */
module CoAlloc {
  import opened TreeBin
  import opened TreeFit
  import opened BinLists
  import opened Tiles
  import opened HeapSpace
  import opened MSpaces
  import opened MemAlign

  const WORD_SIZE: nat := 8

  /** What is asked for; all elements may have the size of the first. Numbers and sizes are machine words. */
  datatype Order = Order(n: nat, sizes: seq<nat>, same: bool) {
    ghost predicate Ok() {
      && (if same then n == 0 || |sizes| > 0 else |sizes| == n) && n < Words()
      && forall i :: 0 <= i < |sizes| ==> sizes[i] < Words()
    }

    function At(i: nat): (s: nat)
      requires Ok() && i < n
      ensures s < Words()
    {
      if same then sizes[0] else sizes[i]
    }
  }

  // ------------------------------------------------------------ sizes in machine words

  /** `request2size` as it is meant: the chunk size for a request of any size. */
  function ChunkFor(bytes: nat): nat {
    if bytes < MIN_REQUEST then MIN_CHUNK else PadRequest(bytes)
  }

  /** `request2size` as it is computed: the sum may wrap around. */
  function WordChunk(bytes: nat): nat {
    if bytes < MIN_REQUEST then MIN_CHUNK else (bytes + OVERHEAD + 7) % Words() / 8 * 8
  }

  lemma ChunkFits(bytes: nat)
    ensures var nb := ChunkFor(bytes);
            bytes + OVERHEAD <= nb <= bytes + 2 * OVERHEAD && nb % 8 == 0 && MIN_CHUNK <= nb
  {
  }

  lemma WordChunkIs(bytes: nat)
    requires bytes < Words()
    ensures WordChunk(bytes) == ChunkFor(bytes) % Words()
  {
    WordsIs();
    hide Words;
    if bytes >= MIN_REQUEST {
      EightsWrap(bytes + OVERHEAD + 7);
    }
  }

  lemma EightsWrap(x: nat)
    requires x < 2 * Words()
    ensures x % Words() / 8 * 8 == (x / 8 * 8) % Words()
  {
    WordsIs();
    hide Words;
  }

  /** The chunk sizes of all elements and, if the caller has no room for it, of the array of pointers. */
  ghost function Total(o: Order, provided: bool): nat
    requires o.Ok()
  {
    Sum(o, 0, o.n) + if provided then 0 else ChunkFor(o.n * WORD_SIZE)
  }

  /** The chunk sizes of the elements from `i` up to `k`. */
  ghost function Sum(o: Order, i: nat, k: nat): nat
    requires o.Ok() && i <= k <= o.n
    decreases k - i
  {
    if i == k then 0 else ChunkFor(o.At(i)) + Sum(o, i + 1, k)
  }

  lemma {:induction false} SumMore(o: Order, i: nat, k: nat)
    requires o.Ok() && i <= k < o.n
    ensures Sum(o, i, k + 1) == Sum(o, i, k) + ChunkFor(o.At(k))
    decreases k - i
  {
    hide ChunkFor;
    if i < k {
      SumMore(o, i + 1, k);
    }
  }

  lemma {:induction false} SumFits(o: Order, i: nat, k: nat)
    requires o.Ok() && i <= k <= o.n
    ensures Sum(o, i, k) % 8 == 0 && (i < k ==> MIN_CHUNK <= Sum(o, i, k))
    decreases k - i
  {
    hide ChunkFor;
    if i < k {
      SumFits(o, i + 1, k);
      ChunkFits(o.At(i));
      EightsMore(ChunkFor(o.At(i)), Sum(o, i + 1, k));
    }
  }

  lemma EightsMore(a: nat, b: nat)
    requires a % 8 == 0 && b % 8 == 0
    ensures (a + b) % 8 == 0 && (a >= b ==> (a - b) % 8 == 0)
  {
  }

  lemma {:induction false} SameSum(o: Order, i: nat)
    requires o.Ok() && o.same && i <= o.n
    ensures Sum(o, i, o.n) == (o.n - i) * (if o.n == 0 then 0 else ChunkFor(o.sizes[0]))
    decreases o.n - i
  {
    hide ChunkFor;
    if i < o.n {
      SameSum(o, i + 1);
      var s := ChunkFor(o.sizes[0]);
      assert (o.n - i) * s == (o.n - (i + 1)) * s + s;
    }
  }

  // ------------------------------------------------------------------ the blocks

  /** The blocks in use after the first elements have been handed out as `blocks`. */
  ghost function Given(live: map<Addr, nat>, o: Order, blocks: seq<Addr>): map<Addr, nat>
    requires o.Ok() && |blocks| <= o.n
  {
    if blocks == [] then live
    else
      var k := |blocks| - 1;
      Given(live, o, blocks[..k])[blocks[k] := o.At(k)]
  }

  lemma GivenMore(live: map<Addr, nat>, o: Order, blocks: seq<Addr>, b: Addr)
    requires o.Ok() && |blocks| < o.n
    ensures Given(live, o, blocks + [b]) == Given(live, o, blocks)[b := o.At(|blocks|)]
  {
    assert (blocks + [b])[..|blocks|] == blocks;
  }

  /** What the caller may rely on: new, different blocks of the sizes asked for, and all others as before. */
  ghost predicate Allotted(live: map<Addr, nat>, live': map<Addr, nat>, o: Order, blocks: seq<Addr>)
    requires o.Ok()
  {
    && |blocks| == o.n
    && (forall i {:trigger blocks[i]} :: 0 <= i < o.n ==>
          blocks[i] !in live && blocks[i] in live' && live'[blocks[i]] == o.At(i))
    && (forall x :: x in live' <==> x in live || x in blocks)
    && (forall x :: x in live ==> live'[x] == live[x])
  }

  /** The blocks lie one behind the other, each in a chunk of just the size that its request needs. */
  ghost predicate Adjacent(o: Order, blocks: seq<Addr>)
    requires o.Ok() && |blocks| <= o.n
  {
    forall i {:trigger blocks[i]} :: 0 <= i < |blocks| - 1 ==> blocks[i + 1] == blocks[i] + ChunkFor(o.At(i))
  }

  lemma {:induction false} Ascending(o: Order, blocks: seq<Addr>, i: nat, j: nat)
    requires o.Ok() && |blocks| <= o.n && Adjacent(o, blocks) && i < j < |blocks|
    ensures blocks[i] + MIN_CHUNK <= blocks[j]
    decreases j
  {
    hide ChunkFor;
    ChunkFits(o.At(j - 1));
    assert blocks[j - 1 + 1] == blocks[j - 1] + ChunkFor(o.At(j - 1));
    if i < j - 1 {
      Ascending(o, blocks, i, j - 1);
    }
  }

  ghost predicate Fresh(live: map<Addr, nat>, blocks: seq<Addr>) {
    forall x :: x in blocks ==> x !in live
  }

  lemma {:induction false} GivenAllotted(live: map<Addr, nat>, o: Order, blocks: seq<Addr>)
    requires o.Ok() && |blocks| <= o.n && Adjacent(o, blocks) && Fresh(live, blocks)
    ensures var g := Given(live, o, blocks);
            && (forall i {:trigger blocks[i]} :: 0 <= i < |blocks| ==> blocks[i] in g && g[blocks[i]] == o.At(i))
            && (forall x :: x in g <==> x in live || x in blocks)
            && (forall x :: x in live ==> g[x] == live[x])
    decreases |blocks|
  {
    hide ChunkFor;
    if blocks != [] {
      var k := |blocks| - 1;
      var r := blocks[..k];
      AdjacentLess(o, blocks, k);
      GivenAllotted(live, o, r);
      assert blocks == r + [blocks[k]];
      assert blocks[k] in blocks;
      forall i | 0 <= i < k
        ensures blocks[i] != blocks[k] && blocks[i] == r[i]
      {
        Ascending(o, blocks, i, k);
        MinPositive();
      }
    }
  }

  lemma AdjacentLess(o: Order, blocks: seq<Addr>, k: nat)
    requires o.Ok() && k <= |blocks| <= o.n && Adjacent(o, blocks)
    ensures Adjacent(o, blocks[..k])
  {
    hide ChunkFor;
    forall i | 0 <= i < k - 1
      ensures blocks[..k][i + 1] == blocks[..k][i] + ChunkFor(o.At(i))
    {
      assert blocks[i + 1] == blocks[i] + ChunkFor(o.At(i));
    }
  }

  /** The chunks under the blocks have just the sizes that were asked for. */
  ghost predicate Exact(heads: map<Addr, Head>, o: Order, blocks: seq<Addr>)
    requires o.Ok() && |blocks| <= o.n
  {
    forall i {:trigger blocks[i]} :: 0 <= i < |blocks| ==>
      blocks[i] - OVERHEAD in heads && heads[blocks[i] - OVERHEAD].size == ChunkFor(o.At(i))
  }

  lemma CutExact(heads: map<Addr, Head>, o: Order, blocks: seq<Addr>, p: Addr, rest: nat, pinuse: bool,
                 live: map<Addr, nat>)
    requires o.Ok() && |blocks| < o.n && Exact(heads, o, blocks)
    requires forall x :: x in blocks ==> x in live
    requires p + OVERHEAD !in blocks && p + ChunkFor(o.At(|blocks|)) + OVERHEAD !in live
    ensures var size := ChunkFor(o.At(|blocks|));
            size > 0 ==> Exact(heads[p := Head(size, pinuse, true)][p + size := Head(rest, true, true)], o,
                               blocks + [p + OVERHEAD])
  {
    hide ChunkFor;
    var size := ChunkFor(o.At(|blocks|));
    if size > 0 {
      var bs := blocks + [p + OVERHEAD];
      forall i | 0 <= i < |bs|
        ensures var h := heads[p := Head(size, pinuse, true)][p + size := Head(rest, true, true)];
                bs[i] - OVERHEAD in h && h[bs[i] - OVERHEAD].size == ChunkFor(o.At(i))
      {
        if i < |blocks| {
          assert bs[i] == blocks[i] && blocks[i] in blocks;
        }
      }
    }
  }

  lemma AdjacentMore(o: Order, blocks: seq<Addr>, b: Addr)
    requires o.Ok() && |blocks| < o.n && Adjacent(o, blocks)
    requires blocks != [] ==> b == blocks[|blocks| - 1] + ChunkFor(o.At(|blocks| - 1))
    ensures Adjacent(o, blocks + [b])
  {
    hide ChunkFor;
    var bs := blocks + [b];
    forall i | 0 <= i < |bs| - 1
      ensures bs[i + 1] == bs[i] + ChunkFor(o.At(i))
    {
      if i < |blocks| - 1 {
        assert blocks[i + 1] == blocks[i] + ChunkFor(o.At(i));
      }
    }
  }

  // ------------------------------------------------------------------- splitting

  /** The elements so far, and the block that is still to be split. */
  ghost predicate Splitting(heads: map<Addr, Head>, now: map<Addr, nat>, live: map<Addr, nat>, o: Order,
                            blocks: seq<Addr>, p: Addr, remainder: nat)
    requires o.Ok() && |blocks| < o.n
  {
    && Adjacent(o, blocks) && Fresh(live, blocks) && Exact(heads, o, blocks)
    && p + OVERHEAD !in live && p + OVERHEAD !in blocks && p > 0
    && (blocks != [] ==> p + OVERHEAD == blocks[|blocks| - 1] + ChunkFor(o.At(|blocks| - 1)))
    && now == Given(live, o, blocks)[p + OVERHEAD := 0]
    && p in heads && heads[p].size == remainder
    && remainder % 8 == 0 && Sum(o, |blocks|, o.n) <= remainder
  }

  /** One element more is split off. */
  method SplitOff(m: MSpace, p: Addr, remainder: nat, size: nat, ghost live: map<Addr, nat>, ghost o: Order,
                  ghost blocks: seq<Addr>)
    requires m.Valid() && o.Ok() && |blocks| + 1 < o.n && Splitting(m.heads, m.live, live, o, blocks, p, remainder)
    requires size == ChunkFor(o.At(|blocks|))
    modifies m`heads, m`feet, m`starts, m`live
    ensures m.Valid() && m.base == old(m.base) && size < remainder
    ensures Splitting(m.heads, m.live, live, o, blocks + [p + OVERHEAD], p + size, remainder - size)
  {
    hide *;
    MinPositive();
    var k := |blocks|;
    SplitFacts(m.heads, m.live, live, o, blocks, p, remainder);
    CutBlock(m, p, size, remainder - size, o.At(k), 0);
    SplitMore(old(m.heads), old(m.live), m.heads, m.live, live, o, blocks, p, remainder);
  }

  lemma SplitFacts(heads: map<Addr, Head>, now: map<Addr, nat>, live: map<Addr, nat>, o: Order, blocks: seq<Addr>,
                   p: Addr, remainder: nat)
    requires o.Ok() && |blocks| < o.n && Splitting(heads, now, live, o, blocks, p, remainder)
    ensures var size := ChunkFor(o.At(|blocks|));
            && p in heads && p + OVERHEAD in now && heads[p].size == remainder >= size && size % 8 == 0
            && MIN_CHUNK <= size && o.At(|blocks|) + OVERHEAD <= size
            && (|blocks| + 1 < o.n ==> MIN_CHUNK <= remainder - size)
            && OVERHEAD <= MIN_CHUNK && (remainder - size) % 8 == 0
            && Sum(o, |blocks| + 1, o.n) <= remainder - size
  {
    hide Exact, Adjacent, Given, ChunkFor;
    var k := |blocks|;
    ChunkFits(o.At(k));
    SumFits(o, k + 1, o.n);
    EightsMore(remainder, ChunkFor(o.At(k)));
    MinPositive();
  }

  lemma SplitMore(heads: map<Addr, Head>, now: map<Addr, nat>, heads': map<Addr, Head>, now': map<Addr, nat>,
                  live: map<Addr, nat>, o: Order, blocks: seq<Addr>, p: Addr, remainder: nat)
    requires o.Ok() && |blocks| + 1 < o.n && Splitting(heads, now, live, o, blocks, p, remainder)
    requires var size := ChunkFor(o.At(|blocks|));
             && size <= remainder && p + size + OVERHEAD !in now
             && heads' == heads[p := Head(size, heads[p].pinuse, true)][p + size := Head(remainder - size, true, true)]
             && now' == now[p + OVERHEAD := o.At(|blocks|)][p + size + OVERHEAD := 0]
    ensures var size := ChunkFor(o.At(|blocks|));
            Splitting(heads', now', live, o, blocks + [p + OVERHEAD], p + size, remainder - size)
  {
    hide ChunkFor, Adjacent, Exact, Given, Sum;
    var size := ChunkFor(o.At(|blocks|));
    MinPositive();
    SplitFacts(heads, now, live, o, blocks, p, remainder);
    GivenAllotted(live, o, blocks);
    GivenMore(live, o, blocks, p + OVERHEAD);
    CutExact(heads, o, blocks, p, remainder - size, heads[p].pinuse, now);
    AdjacentMore(o, blocks, p + OVERHEAD);
    TwoPuts(Given(live, o, blocks), p + OVERHEAD, o.At(|blocks|));
  }

  lemma TwoPuts(g: map<Addr, nat>, x: Addr, n: nat)
    ensures g[x := 0][x := n] == g[x := n]
  {
  }

  /** The loop of `ialloc`: all elements but the last are split off, and the last takes what is left. */
  method SplitAll(m: MSpace, start: Addr, total: nat, o: Order, ghost live: map<Addr, nat>)
    returns (blocks: seq<Addr>)
    requires m.Valid() && o.Ok() && o.n > 0 && Splitting(m.heads, m.live, live, o, [], start, total)
    requires total < Words()
    modifies m`heads, m`feet, m`starts, m`live
    ensures m.Valid() && m.base == old(m.base)
    ensures |blocks| == o.n && Allotted(live, m.live, o, blocks) && Adjacent(o, blocks)
    ensures blocks[0] == start + OVERHEAD
    ensures Exact(m.heads, o, blocks[..o.n - 1])
    ensures var last := blocks[o.n - 1] - OVERHEAD;
            && last in m.heads && last == start + Sum(o, 0, o.n - 1) && m.heads[last].size == start + total - last
  {
    hide *;
    var i: nat, p: Addr, remainder: nat := 0, start, total;
    blocks := [];
    SumNone(o);
    while i != o.n - 1
      invariant i == |blocks| <= o.n - 1 && m.Valid() && m.base == old(m.base)
      invariant Splitting(m.heads, m.live, live, o, blocks, p, remainder)
      invariant p == start + Sum(o, 0, i) && p + remainder == start + total
      invariant i > 0 ==> blocks[0] == start + OVERHEAD
      decreases o.n - i
    {
      var size := WordChunk(o.At(i));
      SplitFacts(m.heads, m.live, live, o, blocks, p, remainder);
      WordChunkIs(o.At(i));
      SmallWrap(ChunkFor(o.At(i)));
      SplitOff(m, p, remainder, size, live, o, blocks);
      SumMore(o, 0, i);
      blocks := blocks + [p + OVERHEAD];
      remainder := remainder - size;
      p := p + size;
      i := i + 1;
    }
    SplitFacts(m.heads, m.live, live, o, blocks, p, remainder);
    BackAgain(p + OVERHEAD);
    LastSplit(m.heads, m.live, live, o, blocks, p, remainder);
    KeepLess(m, p + OVERHEAD, o.At(i));
    blocks := blocks + [p + OVERHEAD];
  }

  lemma SumNone(o: Order)
    requires o.Ok()
    ensures Sum(o, 0, 0) == 0
  {
  }

  lemma LastSplit(heads: map<Addr, Head>, now: map<Addr, nat>, live: map<Addr, nat>, o: Order, blocks: seq<Addr>,
                  p: Addr, remainder: nat)
    requires o.Ok() && |blocks| + 1 == o.n && Splitting(heads, now, live, o, blocks, p, remainder)
    ensures var bs := blocks + [p + OVERHEAD];
            && Allotted(live, now[p + OVERHEAD := o.At(|blocks|)], o, bs) && Adjacent(o, bs)
            && bs[..|blocks|] == blocks && Exact(heads, o, bs[..|blocks|]) && p in heads && heads[p].size == remainder
  {
    hide ChunkFor, Adjacent, Exact, Given, Sum;
    GivenMore(live, o, blocks, p + OVERHEAD);
    AdjacentMore(o, blocks, p + OVERHEAD);
    TwoPuts(Given(live, o, blocks), p + OVERHEAD, o.At(|blocks|));
    var bs := blocks + [p + OVERHEAD];
    GivenAllotted(live, o, bs);
    forall i | 0 <= i < o.n
      ensures bs[i] !in live
    {
      if i < |blocks| {
        assert bs[i] == blocks[i] && blocks[i] in blocks;
      }
    }
  }

  // --------------------------------------------------------- adding up the sizes

  lemma AddWrap(a: nat, b: nat)
    ensures (a % Words() + b % Words()) % Words() == (a + b) % Words()
  {
    hide Words;
    ModAdds(a, b, Words());
  }

  lemma ModAdds(a: nat, b: nat, m: nat)
    requires m > 0
    ensures (a % m + b % m) % m == (a + b) % m
  {
    var q, r := a / m, b / m;
    assert a == q * m + a % m && b == r * m + b % m;
    ModPlus(q + r, a % m + b % m, m);
    assert (q + r) * m == q * m + r * m;
  }

  lemma MulWrap(n: nat, s: nat)
    ensures (n * (s % Words())) % Words() == (n * s) % Words()
  {
    hide Words;
    ModTimes(n, s, Words());
  }

  lemma ModTimes(n: nat, s: nat, m: nat)
    requires m > 0
    ensures (n * (s % m)) % m == (n * s) % m
  {
    var q := s / m;
    assert s == q * m + s % m;
    assert n * s == (n * q) * m + n * (s % m);
    ModPlus(n * q, n * (s % m), m);
  }

  lemma SmallWrap(a: nat)
    ensures a % Words() == a <==> a < Words()
    ensures a % Words() < Words()
  {
  }

  /** The sizes of all elements together, added up without a look at whether the sum fits. */
  method ContentsSize(o: Order) returns (contents: nat)
    requires o.Ok() && o.n > 0
    ensures contents == Sum(o, 0, o.n) % Words()
  {
    hide ChunkFor, WordChunk, Words, Sum;
    if o.same {
      SameSum(o, 0);
      WordChunkIs(o.sizes[0]);
      MulWrap(o.n, ChunkFor(o.sizes[0]));
      contents := (o.n * WordChunk(o.sizes[0])) % Words();
    } else {
      contents := 0;
      SumNone(o);
      var i := 0;
      while i != o.n
        invariant i <= o.n && contents == Sum(o, 0, i) % Words()
        decreases o.n - i
      {
        SumMore(o, 0, i);
        WordChunkIs(o.sizes[i]);
        AddWrap(Sum(o, 0, i), ChunkFor(o.sizes[i]));
        contents := (contents + WordChunk(o.sizes[i])) % Words();
        i := i + 1;
      }
    }
  }

  /** The size of the chunk to be split: the words are right if and only if the true total fits in a word. */
  method AggregateSize(o: Order, provided: bool) returns (contents: nat, size: nat)
    requires o.Ok() && o.n > 0
    ensures size == Total(o, provided) <==> Total(o, provided) < Words()
    ensures Total(o, provided) < Words() ==> contents == Sum(o, 0, o.n)
    ensures provided ==> size == Total(o, provided) % Words()
  {
    hide ChunkFor, WordChunk, Words, Sum;
    contents := ContentsSize(o);
    SmallWrap(Sum(o, 0, o.n));
    SmallWrap(Total(o, provided));
    if provided {
      size := contents;
    } else {
      var arraySize := WordChunk((o.n * WORD_SIZE) % Words());
      size := (contents + arraySize) % Words();
      SmallWrap(contents + arraySize);
      ArrayWrap(o);
      SmallWrap(o.n * WORD_SIZE);
    }
  }

  /** So many elements that the array alone does not fit have no room themselves. */
  lemma ArrayWrap(o: Order)
    requires o.Ok()
    ensures Total(o, false) < Words() ==>
              && o.n * WORD_SIZE < Words()
              && WordChunk((o.n * WORD_SIZE) % Words()) == ChunkFor(o.n * WORD_SIZE)
  {
    hide ChunkFor, WordChunk, Words, Sum;
    if Total(o, false) < Words() {
      var b := o.n * WORD_SIZE;
      ChunkFits(b);
      SmallWrap(b);
      WordChunkIs(b);
      SmallWrap(ChunkFor(b));
    }
  }

  /** An order for which the words are wrong: two elements of half the address space are taken for 32 bytes. */
  lemma TwoHalvesWrap()
    ensures var o := Order(2, [0x8000_0000_0000_0000, 0x8000_0000_0000_0000], false);
            o.Ok() && Total(o, true) >= Words() && Total(o, true) % Words() == MIN_CHUNK
  {
    WordsIs();
    hide Words;
    var o := Order(2, [0x8000_0000_0000_0000, 0x8000_0000_0000_0000], false);
    assert Sum(o, 2, 2) == 0;
    assert Sum(o, 1, 2) == ChunkFor(0x8000_0000_0000_0000);
    assert Sum(o, 0, 2) == 2 * ChunkFor(0x8000_0000_0000_0000);
  }

  /** No heap has room for an order whose true total does not fit in a word: there the words lead the split astray. */
  lemma NoHeapHolds(m: MSpace, o: Order, provided: bool, blocks: seq<Addr>, marray: Addr)
    requires m.Valid() && o.Ok() && |blocks| == o.n > 0 && Adjacent(o, blocks)
    requires forall i {:trigger blocks[i]} :: 0 <= i < o.n ==> blocks[i] in m.live && m.live[blocks[i]] == o.At(i)
    requires !provided ==>
               && marray == blocks[o.n - 1] + ChunkFor(o.At(o.n - 1))
               && marray in m.live && m.live[marray] == o.n * WORD_SIZE
    ensures Total(o, provided) < Words()
  {
    hide Sum, ChunkFor, Adjacent, Sound, Owned, WORD_SIZE;
    var k := o.n - 1;
    m.ValidFacts();
    BlockInside(m.View(), m.live, blocks[0]);
    AdjacentSum(o, blocks, k);
    SumMore(o, 0, k);
    LimitFits(m);
    WordsIs();
    if provided {
      BlockInside(m.View(), m.live, blocks[k]);
      ChunkFits(o.At(k));
    } else {
      BlockInside(m.View(), m.live, marray);
      ChunkFits(o.n * WORD_SIZE);
    }
  }

  lemma LimitFits(m: MSpace)
    requires m.Valid()
    ensures 0 < m.View().t.base && m.View().t.limit < Words() && TOP_FOOT_SIZE == 80 && OVERHEAD == 16
  {
    hide Tiled, Filed, DvOk, Owned;
    WordsIs();
  }

  lemma {:induction false} AdjacentSum(o: Order, blocks: seq<Addr>, k: nat)
    requires o.Ok() && |blocks| == o.n && k < o.n && Adjacent(o, blocks)
    ensures blocks[k] == blocks[0] + Sum(o, 0, k)
    decreases k
  {
    hide ChunkFor;
    if k > 0 {
      AdjacentSum(o, blocks, k - 1);
      SumMore(o, 0, k - 1);
      assert blocks[k - 1 + 1] == blocks[k - 1] + ChunkFor(o.At(k - 1));
    }
  }

  lemma OverheadIs()
    ensures OVERHEAD == 16 && MIN_CHUNK == 32 && WORD_SIZE == 8
  {
  }

  /** Nothing is split off yet. */
  lemma Unsplit(heads: map<Addr, Head>, now: map<Addr, nat>, live: map<Addr, nat>, o: Order, p: Addr, total: nat)
    requires o.Ok() && o.n > 0 && p > 0 && p + OVERHEAD !in live && p in heads && heads[p].size == total
    requires total % 8 == 0 && Sum(o, 0, o.n) <= total && now == live[p + OVERHEAD := 0]
    ensures Splitting(heads, now, live, o, [], p, total)
  {
    hide Sum, ChunkFor;
  }

  lemma ArrayFits(n: nat)
    ensures var b := n * WORD_SIZE;
            b + OVERHEAD <= ChunkFor(b) && ChunkFor(b) % 8 == 0 && MIN_CHUNK <= ChunkFor(b)
  {
    ChunkFits(n * WORD_SIZE);
  }

  /** The pointer array gets the end of the chunk. */
  method CutArray(m: MSpace, p: Addr, contents: nat, total: nat, n: nat, ghost req: nat, ghost live: map<Addr, nat>)
    requires m.Valid() && p in m.heads && m.heads[p].size == total && p + OVERHEAD !in live
    requires m.live == live[p + OVERHEAD := req] && total % 8 == 0 && contents % 8 == 0 && MIN_CHUNK <= contents
    requires n * WORD_SIZE + OVERHEAD <= total - contents && MIN_CHUNK <= total - contents
    modifies m`heads, m`feet, m`starts, m`live
    ensures m.Valid() && m.base == old(m.base)
    ensures var marray := p + contents + OVERHEAD;
            && marray !in live && m.live == live[marray := n * WORD_SIZE][p + OVERHEAD := 0]
            && p + OVERHEAD !in live[marray := n * WORD_SIZE]
    ensures p in m.heads && m.heads[p].size == contents
  {
    hide *;
    OverheadIs();
    EightsMore(total, contents);
    CutBlock(m, p, contents, total - contents, 0, n * WORD_SIZE);
    Reordered(live, p + OVERHEAD, req, p + contents + OVERHEAD, n * WORD_SIZE);
  }

  lemma Reordered(live: map<Addr, nat>, a: Addr, req: nat, b: Addr, n: nat)
    requires a !in live && b !in live[a := req]
    ensures live[a := req][a := 0][b := n] == live[b := n][a := 0] && b !in live && a !in live[b := n]
  {
  }

  /** With the array behind them, the last element too has just the size it needs. */
  lemma AllExact(heads: map<Addr, Head>, o: Order, blocks: seq<Addr>, start: Addr)
    requires o.Ok() && |blocks| == o.n > 0 && Exact(heads, o, blocks[..o.n - 1])
    requires var last := blocks[o.n - 1] - OVERHEAD;
             && last in heads && last == start + Sum(o, 0, o.n - 1)
             && heads[last].size == start + Sum(o, 0, o.n) - last
    ensures Exact(heads, o, blocks) && start + Sum(o, 0, o.n) + OVERHEAD == blocks[o.n - 1] + ChunkFor(o.At(o.n - 1))
  {
    hide ChunkFor, Sum;
    SumMore(o, 0, o.n - 1);
    forall i | 0 <= i < o.n
      ensures blocks[i] - OVERHEAD in heads && heads[blocks[i] - OVERHEAD].size == ChunkFor(o.At(i))
    {
      if i < o.n - 1 {
        assert blocks[i] == blocks[..o.n - 1][i];
      }
    }
  }

  /** What `mspace_malloc` is asked for: one chunk for all. */
  ghost function AskedBytes(o: Order, provided: bool): nat
    requires o.Ok()
  {
    if o.n == 0 || Total(o, provided) < OVERHEAD then 0 else Total(o, provided) - OVERHEAD
  }

  lemma AskedIs(o: Order, provided: bool)
    requires o.Ok()
    ensures o.n == 0 ==> AskedBytes(o, provided) == 0
    ensures o.n > 0 ==> MIN_CHUNK <= Total(o, provided) && AskedBytes(o, provided) == Total(o, provided) - OVERHEAD
    ensures Total(o, provided) == Sum(o, 0, o.n) + if provided then 0 else ChunkFor(o.n * WORD_SIZE)
  {
    hide Sum, ChunkFor;
    SumFits(o, 0, o.n);
    OverheadIs();
  }

  /**
   * `ialloc`: as many blocks as asked for, new, apart and big enough, in adjacent chunks which, together with that of
   * the array of pointers to them, make up one chunk; or nothing at all, if neither the heap nor the system has a chunk
   * for them all. With `provided`, the caller has the array.
   */
  method Ialloc(m: MSpace, o: Order, provided: bool, granted: bool) returns (ok: bool, blocks: seq<Addr>, marray: Addr)
    requires m.Valid() && o.Ok() && Total(o, provided) < Words()
    modifies m
    ensures m.Valid() && m.base == old(m.base)
    ensures o.n == 0 && provided ==>
              ok && m.View() == old(m.View()) && m.live == old(m.live) && m.Limit() == old(m.Limit())
    ensures o.n > 0 || !provided ==>
              && (ok <==> !Unserved(m, old(m.View()), AskedBytes(o, provided), granted))
              && m.Limit() == old(m.Limit()) + m.Growth(old(m.View()), RequestSize(AskedBytes(o, provided)), granted)
    ensures !ok ==> m.View() == old(m.View()) && m.live == old(m.live)
    ensures o.n == 0 && !provided && ok ==> marray !in old(m.live) && m.live == old(m.live)[marray := 0]
    ensures o.n > 0 && ok && provided ==> Allotted(old(m.live), m.live, o, blocks)
    ensures o.n > 0 && ok && !provided ==>
              && marray !in old(m.live) && Allotted(old(m.live)[marray := o.n * WORD_SIZE], m.live, o, blocks)
              && Exact(m.heads, o, blocks) && marray == blocks[o.n - 1] + ChunkFor(o.At(o.n - 1))
    ensures o.n > 0 && ok ==> |blocks| == o.n && Adjacent(o, blocks) && Exact(m.heads, o, blocks[..o.n - 1])
  {
    hide *;
    ok, blocks, marray := true, [], 0;
    ghost var s, live := m.View(), m.live;
    AskedIs(o, provided);
    UnservedIs(m, s, 0, 8, AskedBytes(o, provided), granted);
    if o.n == 0 {
      if !provided {
        marray := m.Malloc(0, granted);
        ok := marray != 0;
      }
      return;
    }
    var contents, size := AggregateSize(o, provided);
    SumFits(o, 0, o.n);
    OverheadIs();
    var mem := m.Malloc(size - OVERHEAD, granted);
    if mem == 0 {
      ok := false;
      return;
    }
    NewBlock(m, s, mem, RequestSize(size - OVERHEAD), granted);
    RequestFits(size - OVERHEAD);
    BackAgain(mem);
    var p := mem - OVERHEAD;
    var total := m.heads[p].size;
    if provided {
      KeepLess(m, mem, 0);
      TwoPuts(live, mem, 0);
      Unsplit(m.heads, m.live, live, o, p, total);
    } else {
      marray := p + contents + OVERHEAD;
      ArrayFits(o.n);
      CutArray(m, p, contents, total, o.n, size - OVERHEAD, live);
      live := live[marray := o.n * WORD_SIZE];
      total := contents;
      Unsplit(m.heads, m.live, live, o, p, total);
    }
    blocks := SplitAll(m, p, total, o, live);
    if !provided {
      AllExact(m.heads, o, blocks, p);
    }
  }
}
