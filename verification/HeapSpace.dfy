/** One heap as a whole: its tiling, its bins, the designated victim and the blocks handed out. */
module HeapSpace {
  import opened TreeBin
  import opened TreeFit
  import opened BinLists
  import opened Tiles
  import opened BinMap
  import opened TreeIndex

  datatype Space = Space(t: Tiling, bins: Bins, dv: Addr, dvsize: nat)

  const OVERHEAD: nat := 16

  // ------------------------------------------------------------------ invariant

  ghost function DvSet(s: Space): set<Chunk> {
    if s.dvsize == 0 then {} else {Chunk(s.dv, s.dvsize)}
  }

  ghost function Binned(s: Space): set<Chunk> {
    FreeOf(s.t) - DvSet(s)
  }

  ghost predicate DvOk(s: Space) {
    if s.dvsize == 0 then s.dv == 0 else Chunk(s.dv, s.dvsize) in FreeOf(s.t)
  }

  ghost predicate Placed(t: Tiling) {
    0 < t.base && t.limit < 0x1_0000_0000_0000_0000
  }

  /** Every free chunk is exactly one of the top chunk, the designated victim or a member of the bin for its size. */
  ghost predicate Sound(s: Space) {
    Tiled(s.t) && Placed(s.t) && DvOk(s) && Filed(s.bins, Binned(s))
  }

  /**
   * The blocks handed out: each is a used chunk with room for the bytes asked for, and every used chunk is one, except
   * for the first, which holds the allocator's own record.
   */
  ghost predicate Owned(t: Tiling, live: map<Addr, nat>) {
    && (exists c :: c in UsedOf(t) && c.at == t.base)
    && (forall m {:trigger m in live} :: m in live ==> m - OVERHEAD != t.base && Block(t, live, m))
    && (forall c {:trigger c in UsedOf(t)} :: c in UsedOf(t) ==> c.at == t.base || c.at + OVERHEAD in live)
  }

  ghost predicate Block(t: Tiling, live: map<Addr, nat>, m: Addr)
    requires m in live
  {
    m - OVERHEAD in t.h && live[m] + OVERHEAD <= t.h[m - OVERHEAD].size
    && Chunk(m - OVERHEAD, t.h[m - OVERHEAD].size) in UsedOf(t)
  }

  // ------------------------------------------------------------- consequences

  lemma FreeSizes(t: Tiling, c: Chunk)
    requires Tiled(t) && Placed(t) && c in FreeOf(t)
    ensures FreeSize(c.size) && c.at + c.size in t.h && c.at in t.h && t.h[c.at] == Head(c.size, true, false)
            && c.at > 0
    ensures c.at in t.starts && c.at + c.size in t.starts && c.at < t.top && c.at + c.size < t.top
  {
    hide FreeOf, Tiled;
    FreeIs(t, c);
    ChunkFacts(t, c.at);
    EndsFacts(t);
    ChunkFacts(t, t.top);
    ChunkFacts(t, c.at + c.size);
  }

  /** A used chunk. */
  lemma UsedFacts(t: Tiling, c: Chunk)
    requires Tiled(t) && c in UsedOf(t)
    ensures c.at in t.starts && c.at in t.h && t.h[c.at].cinuse && t.h[c.at].size == c.size && c.at != t.top
    ensures c.at + c.size in t.starts && c.at + c.size in t.h && t.h[c.at + c.size].pinuse
            && c.at < c.at + c.size <= t.top
    ensures c.size % 8 == 0 && MIN_CHUNK <= c.size && c.at % 8 == 0 && t.base <= c.at
  {
    hide UsedOf, Tiled;
    UsedIs(t, c);
    ChunkFacts(t, c.at);
  }

  /** The chunk of a block. */
  lemma BlockFacts(t: Tiling, live: map<Addr, nat>, m: Addr)
    requires Owned(t, live) && m in live
    ensures var p := m - OVERHEAD;
            p != t.base && p in t.h && live[m] + OVERHEAD <= t.h[p].size && Chunk(p, t.h[p].size) in UsedOf(t)
  {
    hide UsedOf;
    assert Block(t, live, m);
  }

  /** A block is aligned and lies between the base and the end of the segment. */
  lemma BlockInside(s: Space, live: map<Addr, nat>, m: Addr)
    requires Sound(s) && Owned(s.t, live) && m in live
    ensures m % 8 == 0 && s.t.base < m && m + live[m] + TOP_FOOT_SIZE < s.t.limit
  {
    hide UsedOf, Filed, Tiled, DvOk, Owned, Placed;
    BlockFacts(s.t, live, m);
    UsedFacts(s.t, Chunk(m - OVERHEAD, s.t.h[m - OVERHEAD].size));
    EndsFacts(s.t);
  }

  /** Blocks do not overlap. */
  lemma BlocksApart(s: Space, live: map<Addr, nat>, m: Addr, n: Addr)
    requires Sound(s) && Owned(s.t, live) && m in live && n in live && m < n
    ensures m % 8 == 0 && s.t.base < m && m + live[m] + OVERHEAD <= n && n + live[n] <= s.t.top
  {
    hide UsedOf, Filed, Tiled, DvOk, Owned, Placed;
    BlockFacts(s.t, live, m);
    BlockFacts(s.t, live, n);
    UsedFacts(s.t, Chunk(m - OVERHEAD, s.t.h[m - OVERHEAD].size));
    UsedFacts(s.t, Chunk(n - OVERHEAD, s.t.h[n - OVERHEAD].size));
    ClearFacts(s.t, m - OVERHEAD, n - OVERHEAD);
  }

  /** One more used chunk, handed out for `bytes`. */
  lemma OwnedMore(t: Tiling, t': Tiling, live: map<Addr, nat>, c: Chunk, bytes: nat)
    requires Tiled(t) && Tiled(t') && Owned(t, live) && t'.base == t.base && UsedOf(t') == UsedOf(t) + {c}
    requires forall d :: d in UsedOf(t) ==> d.at != c.at
    requires bytes + OVERHEAD <= c.size
    ensures c.at + OVERHEAD !in live
    ensures Owned(t', live[c.at + OVERHEAD := bytes])
  {
    hide UsedOf, Tiled;
    var m := c.at + OVERHEAD;
    var live' := live[m := bytes];
    assert m in live ==> Block(t, live, m);
    assert c in UsedOf(t');
    UsedFacts(t', c);
    var b :| b in UsedOf(t) && b.at == t.base;
    assert b in UsedOf(t') && b.at == t'.base;
    forall x | x in live'
      ensures x - OVERHEAD != t'.base && Block(t', live', x)
    {
      if x != m {
        assert Block(t, live, x);
        UsedFacts(t', Chunk(x - OVERHEAD, t.h[x - OVERHEAD].size));
      }
    }
  }

  /** One used chunk less. */
  lemma OwnedLess(t: Tiling, t': Tiling, live: map<Addr, nat>, c: Chunk)
    requires Tiled(t) && Tiled(t') && Owned(t, live) && t'.base == t.base && UsedOf(t') == UsedOf(t) - {c}
    requires c in UsedOf(t) && c.at + OVERHEAD in live
    ensures Owned(t', live - {c.at + OVERHEAD})
  {
    hide UsedOf, Tiled;
    var live' := live - {c.at + OVERHEAD};
    UsedFacts(t, c);
    var b :| b in UsedOf(t) && b.at == t.base;
    assert b != c by {
      assert Block(t, live, c.at + OVERHEAD);
    }
    assert b in UsedOf(t') && b.at == t'.base;
    forall x | x in live'
      ensures x - OVERHEAD != t'.base && Block(t', live', x)
    {
      assert Block(t, live, x);
      assert Chunk(x - OVERHEAD, t.h[x - OVERHEAD].size) in UsedOf(t');
      UsedFacts(t', Chunk(x - OVERHEAD, t.h[x - OVERHEAD].size));
    }
    forall d | d in UsedOf(t')
      ensures d.at == t'.base || d.at + OVERHEAD in live'
    {
      UsedFacts(t, d);
    }
  }

  /** A free chunk does not begin where a used one does. */
  lemma FreeNotUsed(t: Tiling, p: Addr, size: nat)
    requires Tiled(t) && (Chunk(p, size) in FreeOf(t) || p == t.top)
    ensures forall d :: d in UsedOf(t) ==> d.at != p
  {
    hide FreeOf, Tiled, UsedOf;
    FreeIs(t, Chunk(p, size));
    if p == t.top {
      EndsFacts(t);
      ChunkFacts(t, t.top);
    }
    forall d | d in UsedOf(t)
      ensures d.at != p
    {
      UsedIs(t, d);
    }
  }

  /** A block of which fewer bytes are used from now on. */
  lemma OwnedShrink(t: Tiling, live: map<Addr, nat>, live': map<Addr, nat>, m: Addr)
    requires Owned(t, live) && m in live && live'.Keys == live.Keys
    requires m - OVERHEAD in t.h && live'[m] + OVERHEAD <= t.h[m - OVERHEAD].size
    requires forall x :: x in live && x != m ==> live'[x] == live[x]
    ensures Owned(t, live')
  {
    hide UsedOf, Block;
    forall x | x in live'
      ensures x - OVERHEAD != t.base && Block(t, live', x)
    {
      assert x in live && Block(t, live, x);
      BlockFacts(t, live, x);
      BlockAgain(t, live, live', x);
    }
  }

  lemma BlockAgain(t: Tiling, live: map<Addr, nat>, live': map<Addr, nat>, x: Addr)
    requires x in live && x in live' && Block(t, live, x) && live'[x] + OVERHEAD <= t.h[x - OVERHEAD].size
    ensures Block(t, live', x)
  {
    hide UsedOf;
  }

  /** A block is cut in two. */
  lemma BlockSplit(s: Space, live: map<Addr, nat>, p: Addr, a: nat, b: nat, footer: nat, ra: nat, rb: nat)
    requires Sound(s) && Owned(s.t, live) && p + OVERHEAD in live && Chunk(p, a + b) in UsedOf(s.t)
    requires a % 8 == 0 && b % 8 == 0 && MIN_CHUNK <= a && MIN_CHUNK <= b && ra + OVERHEAD <= a && rb + OVERHEAD <= b
    ensures p in s.t.h
    ensures var s' := s.(t := SplitUsed(s.t, p, a, b, footer));
            && Sound(s') && Owned(s'.t, live[p + OVERHEAD := ra][p + a + OVERHEAD := rb]) && s'.t.base == s.t.base
            && p in s'.t.h && s'.t.h[p].size == a && p + a in s'.t.h && s'.t.h[p + a].size == b
            && Chunk(p, a) in UsedOf(s'.t) && Chunk(p + a, b) in UsedOf(s'.t)
    ensures p + a + OVERHEAD !in live && p + a + OVERHEAD > 0
  {
    hide Tiled, Filed, UsedOf, FreeOf, Owned;
    UsedIs(s.t, Chunk(p, a + b));
    UsedFacts(s.t, Chunk(p, a + b));
    SplitUsedKeeps(s.t, p, a, b, footer);
    SplitUsedNew(s.t, p, a, b);
    var t' := SplitUsed(s.t, p, a, b, footer);
    UsedIs(t', Chunk(p, a));
    UsedIs(t', Chunk(p + a, b));
    UsedFacts(t', Chunk(p + a, b));
    NotABlock(s.t, live, p + a);
    OwnedSplit(s.t, t', live, p, a, b, ra, rb);
  }

  lemma NotABlock(t: Tiling, live: map<Addr, nat>, p: Addr)
    requires Owned(t, live) && p !in t.starts
    ensures p + OVERHEAD !in live
  {
    hide UsedOf;
    assert p + OVERHEAD in live ==> Block(t, live, p + OVERHEAD);
    forall c | c in UsedOf(t)
      ensures c.at in t.starts
    {
      UsedIs(t, c);
    }
  }

  lemma OwnedSplit(t: Tiling, t': Tiling, live: map<Addr, nat>, p: Addr, a: nat, b: nat, ra: nat, rb: nat)
    requires Tiled(t) && Tiled(t') && Owned(t, live) && t'.base == t.base && p + OVERHEAD in live
    requires UsedOf(t') == UsedOf(t) - {Chunk(p, a + b)} + {Chunk(p, a), Chunk(p + a, b)}
    requires Chunk(p, a + b) in UsedOf(t)
    requires a > 0 && b > 0 && ra + OVERHEAD <= a && rb + OVERHEAD <= b && p + a > t.base
    ensures Owned(t', live[p + OVERHEAD := ra][p + a + OVERHEAD := rb])
  {
    hide UsedOf, Tiled, Block;
    var live' := live[p + OVERHEAD := ra][p + a + OVERHEAD := rb];
    BlockFacts(t, live, p + OVERHEAD);
    var base :| base in UsedOf(t) && base.at == t.base;
    assert base in UsedOf(t') && base.at == t'.base;
    forall x | x in live'
      ensures x - OVERHEAD != t'.base && Block(t', live', x)
    {
      SplitBlockAt(t, t', live, p, a, b, ra, rb, x);
    }
  }

  lemma SplitBlockAt(t: Tiling, t': Tiling, live: map<Addr, nat>, p: Addr, a: nat, b: nat, ra: nat, rb: nat, x: Addr)
    requires Tiled(t') && Owned(t, live) && t'.base == t.base && p + OVERHEAD in live
    requires UsedOf(t') == UsedOf(t) - {Chunk(p, a + b)} + {Chunk(p, a), Chunk(p + a, b)}
    requires a > 0 && b > 0 && ra + OVERHEAD <= a && rb + OVERHEAD <= b && p + a > t.base
    requires x in live[p + OVERHEAD := ra][p + a + OVERHEAD := rb]
    ensures x - OVERHEAD != t'.base && Block(t', live[p + OVERHEAD := ra][p + a + OVERHEAD := rb], x)
  {
    hide UsedOf, Tiled, Owned;
    if x == p + a + OVERHEAD {
      UsedFacts(t', Chunk(p + a, b));
    } else if x == p + OVERHEAD {
      BlockFacts(t, live, x);
      UsedFacts(t', Chunk(p, a));
    } else {
      BlockFacts(t, live, x);
      UsedFacts(t', Chunk(x - OVERHEAD, t.h[x - OVERHEAD].size));
    }
  }

  lemma FiledShape(b: Bins, f: set<Chunk>)
    requires Filed(b, f)
    ensures |b.small| == BINS && |b.trees| == TREE_BINS
  {
  }

  // ------------------------------------------------------------- allocating

  /** From `s` to `s'` one used chunk has come, for a request of `nb` bytes; nothing else that is used has changed. */
  ghost predicate Handed(s: Space, s': Space, c: Chunk, nb: nat) {
    && Sound(s) && Sound(s') && s'.t.base == s.t.base && s'.t.limit == s.t.limit
    && UsedOf(s'.t) == UsedOf(s.t) + {c}
    && (forall d :: d in UsedOf(s.t) ==> d.at != c.at)
    && nb <= c.size < nb + MIN_CHUNK
  }

  /** That says all but which free chunk of those left is the victim. */
  lemma HandedDecides(s: Space, s1: Space, s2: Space, c: Chunk, nb: nat)
    requires Handed(s, s1, c, nb) && Handed(s, s2, c, nb)
    ensures FreeOf(s1.t) == FreeOf(s2.t) && s1.t.top == s2.t.top && s1.t.topsize == s2.t.topsize
  {
    hide Tiled, Filed, UsedOf, FreeOf, DvOk;
    UsedDecides(s1.t, s2.t);
  }

  /** A block for the caller. */
  lemma HandedOwned(s: Space, s': Space, c: Chunk, nb: nat, live: map<Addr, nat>, bytes: nat)
    requires Handed(s, s', c, nb) && Owned(s.t, live) && bytes + OVERHEAD <= nb
    ensures c.at + OVERHEAD !in live && c.at + OVERHEAD > 0 && Owned(s'.t, live[c.at + OVERHEAD := bytes])
  {
    hide Tiled, Filed, UsedOf, Owned, DvOk;
    OwnedMore(s.t, s'.t, live, c, bytes);
    UsedFacts(s'.t, c);
  }

  /** A whole chunk out of a bin. */
  lemma TakeWhole(s: Space, p: Addr, size: nat, footer: nat, nb: nat)
    requires Sound(s) && Chunk(p, size) in Binned(s) && nb <= size < nb + MIN_CHUNK
    ensures p + size in s.t.h
    ensures |s.bins.small| == BINS && |s.bins.trees| == TREE_BINS
    ensures var s' := s.(t := Occupied(s.t, p, size, footer), bins := UnlinkChunk(s.bins, p, size));
            Handed(s, s', Chunk(p, size), nb)
  {
    hide Tiled, Filed, FreeOf, UsedOf, UnlinkChunk;
    FiledShape(s.bins, Binned(s));
    OccupyKeeps(s.t, p, size, footer);
    UnlinkFiled(s.bins, Binned(s), p, size);
    FreeNotUsed(s.t, p, size);
    assert Binned(s) - {Chunk(p, size)} == (FreeOf(s.t) - {Chunk(p, size)}) - DvSet(s);
  }

  /** The front of a binned chunk; the rest goes to the bin for its size. */
  lemma TakeSplit(s: Space, p: Addr, nb: nat, rsize: nat, footer: nat)
    requires Sound(s) && Chunk(p, nb + rsize) in Binned(s) && nb % 8 == 0 && MIN_CHUNK <= nb && MIN_CHUNK <= rsize
    ensures |s.bins.small| == BINS && |s.bins.trees| == TREE_BINS
    ensures var s' := s.(t := Split(s.t, p, nb, rsize, footer),
                         bins := InsertChunk(UnlinkChunk(s.bins, p, nb + rsize), p + nb, rsize));
            Handed(s, s', Chunk(p, nb), nb)
  {
    hide Tiled, Filed, FreeOf, UsedOf, UnlinkChunk, InsertChunk;
    var c, r := Chunk(p, nb + rsize), Chunk(p + nb, rsize);
    SplitReady(s.t, p, nb, rsize);
    SplitKeeps(s.t, p, nb, rsize, footer);
    FreeNotUsed(s.t, p, nb + rsize);
    FiledShape(s.bins, Binned(s));
    UnlinkFiled(s.bins, Binned(s), p, nb + rsize);
    FiledShape(UnlinkChunk(s.bins, p, nb + rsize), Binned(s) - {c});
    FreeSizes(Split(s.t, p, nb, rsize, footer), r);
    InsertFiled(UnlinkChunk(s.bins, p, nb + rsize), Binned(s) - {c}, p + nb, rsize);
    assert r !in DvSet(s);
    assert Binned(s) - {c} + {r} == (FreeOf(s.t) - {c} + {r}) - DvSet(s);
  }

  /** `replace_dv`: the old victim goes to its bin. */
  function ReplaceDv(b: Bins, dv: Addr, dvsize: nat): Bins
    requires |b.small| == BINS && |b.trees| == TREE_BINS
  {
    if dvsize != 0 then InsertChunk(b, dv, dvsize) else b
  }

  /** The front of a binned chunk; the rest becomes the designated victim. */
  lemma TakeSplitDv(s: Space, p: Addr, nb: nat, rsize: nat, footer: nat)
    requires Sound(s) && Chunk(p, nb + rsize) in Binned(s) && nb % 8 == 0 && MIN_CHUNK <= nb && MIN_CHUNK <= rsize
    ensures |s.bins.small| == BINS && |s.bins.trees| == TREE_BINS
    ensures var s' := Space(Split(s.t, p, nb, rsize, footer),
                            ReplaceDv(UnlinkChunk(s.bins, p, nb + rsize), s.dv, s.dvsize), p + nb, rsize);
            Handed(s, s', Chunk(p, nb), nb)
  {
    hide Tiled, Filed, FreeOf, UsedOf, UnlinkChunk, InsertChunk;
    var c, r := Chunk(p, nb + rsize), Chunk(p + nb, rsize);
    SplitReady(s.t, p, nb, rsize);
    SplitKeeps(s.t, p, nb, rsize, footer);
    FreeNotUsed(s.t, p, nb + rsize);
    FiledShape(s.bins, Binned(s));
    UnlinkFiled(s.bins, Binned(s), p, nb + rsize);
    var b := UnlinkChunk(s.bins, p, nb + rsize);
    FiledShape(b, Binned(s) - {c});
    VictimFiled(s, b, c);
    assert FreeOf(s.t) - {c} == (FreeOf(s.t) - {c} + {r}) - {r};
  }

  /** Filing the old victim. */
  lemma VictimFiled(s: Space, b: Bins, c: Chunk)
    requires Sound(s) && c in Binned(s) && Filed(b, Binned(s) - {c}) && |b.small| == BINS && |b.trees| == TREE_BINS
    ensures Filed(ReplaceDv(b, s.dv, s.dvsize), FreeOf(s.t) - {c})
  {
    hide Tiled, Filed, FreeOf, InsertChunk;
    if s.dvsize != 0 {
      FreeSizes(s.t, Chunk(s.dv, s.dvsize));
      InsertFiled(b, Binned(s) - {c}, s.dv, s.dvsize);
      assert Binned(s) - {c} + {Chunk(s.dv, s.dvsize)} == FreeOf(s.t) - {c};
    } else {
      assert Binned(s) - {c} == FreeOf(s.t) - {c};
    }
  }

  /** A split leaves a free chunk that was not there. */
  lemma SplitReady(t: Tiling, p: Addr, nb: nat, rsize: nat)
    requires Tiled(t) && Chunk(p, nb + rsize) in FreeOf(t) && nb % 8 == 0 && MIN_CHUNK <= nb && MIN_CHUNK <= rsize
    ensures CanSplit(t, p, nb, rsize) && Chunk(p + nb, rsize) !in FreeOf(t)
  {
    hide Tiled, FreeOf;
    FreeIs(t, Chunk(p, nb + rsize));
    FreeIs(t, Chunk(p + nb, rsize));
    NewBoundary(t, p, nb, rsize);
  }

  /** All of the designated victim. */
  lemma DvWhole(s: Space, footer: nat, nb: nat)
    requires Sound(s) && s.dvsize > 0 && nb <= s.dvsize < nb + MIN_CHUNK
    ensures s.dv + s.dvsize in s.t.h
    ensures Handed(s, s.(t := Occupied(s.t, s.dv, s.dvsize, footer), dv := 0, dvsize := 0), Chunk(s.dv, s.dvsize), nb)
  {
    hide Tiled, Filed, FreeOf, UsedOf;
    OccupyKeeps(s.t, s.dv, s.dvsize, footer);
    FreeNotUsed(s.t, s.dv, s.dvsize);
    assert Binned(s) == (FreeOf(s.t) - {Chunk(s.dv, s.dvsize)}) - {};
  }

  /** The front of the designated victim. */
  lemma DvSplit(s: Space, footer: nat, nb: nat)
    requires Sound(s) && s.dvsize > 0 && nb % 8 == 0 && MIN_CHUNK <= nb && nb + MIN_CHUNK <= s.dvsize
    ensures Handed(s, s.(t := Split(s.t, s.dv, nb, s.dvsize - nb, footer), dv := s.dv + nb, dvsize := s.dvsize - nb),
                   Chunk(s.dv, nb), nb)
  {
    hide Tiled, Filed, FreeOf, UsedOf;
    var c, r := Chunk(s.dv, s.dvsize), Chunk(s.dv + nb, s.dvsize - nb);
    SplitReady(s.t, s.dv, nb, s.dvsize - nb);
    SplitKeeps(s.t, s.dv, nb, s.dvsize - nb, footer);
    FreeNotUsed(s.t, s.dv, s.dvsize);
    assert Binned(s) == (FreeOf(s.t) - {c} + {r}) - {r};
  }

  /** The front of the top chunk. */
  lemma TopSplit(s: Space, footer: nat, nb: nat)
    requires Sound(s) && nb % 8 == 0 && MIN_CHUNK <= nb < s.t.topsize
    ensures Handed(s, s.(t := SplitTop(s.t, nb, footer)), Chunk(s.t.top, nb), nb)
  {
    hide Tiled, Filed, FreeOf, UsedOf;
    SplitTopKeeps(s.t, nb, footer);
    FreeNotUsed(s.t, s.t.top, 0);
  }

  /** The heap with a longer segment. */
  ghost function Grown(s: Space, more: nat): Space {
    s.(t := GrownTop(s.t, more))
  }

  /** More memory for the top chunk. */
  lemma TopGrown(s: Space, more: nat)
    requires Sound(s) && s.t.limit + more < 0x1_0000_0000_0000_0000
    ensures var s' := Grown(s, more);
            && Sound(s') && UsedOf(s'.t) == UsedOf(s.t) && FreeOf(s'.t) == FreeOf(s.t) && s'.t.base == s.t.base
            && s'.t.limit == s.t.limit + more && s'.t.topsize == s.t.topsize + more
  {
    hide Tiled, Filed, FreeOf, UsedOf;
    GrowTopKeeps(s.t, more);
  }

  lemma OwnedGrown(s: Space, more: nat, live: map<Addr, nat>)
    requires Sound(s) && s.t.limit + more < 0x1_0000_0000_0000_0000 && Owned(s.t, live)
    ensures Owned(Grown(s, more).t, live)
  {
    hide Tiled, Filed, FreeOf, UsedOf, Owned, Grown;
    var s' := Grown(s, more);
    TopGrown(s, more);
    OwnedSame(s.t, s'.t, live);
  }

  lemma OwnedSame(t: Tiling, t': Tiling, live: map<Addr, nat>)
    requires Tiled(t) && Tiled(t') && Owned(t, live) && t'.base == t.base && UsedOf(t') == UsedOf(t)
    ensures Owned(t', live)
  {
    hide UsedOf, Tiled;
    forall x | x in live
      ensures x - OVERHEAD != t'.base && Block(t', live, x)
    {
      assert Block(t, live, x);
      UsedFacts(t', Chunk(x - OVERHEAD, t.h[x - OVERHEAD].size));
    }
  }

  // ------------------------------------------------------------------ freeing

  /** From `s` to `s'` one used chunk has gone; nothing else that is used has changed. */
  ghost predicate Returned(s: Space, s': Space, c: Chunk) {
    && Sound(s) && Sound(s') && s'.t.base == s.t.base && s'.t.limit == s.t.limit
    && c in UsedOf(s.t) && UsedOf(s'.t) == UsedOf(s.t) - {c}
  }

  /** That says all: which chunks are free afterwards, and where top begins, does not depend on how they were merged. */
  lemma ReturnedDecides(s: Space, s1: Space, s2: Space, c: Chunk)
    requires Returned(s, s1, c) && Returned(s, s2, c)
    ensures FreeOf(s1.t) == FreeOf(s2.t) && s1.t.top == s2.t.top && s1.t.topsize == s2.t.topsize
  {
    hide Tiled, Filed, UsedOf, FreeOf, DvOk;
    UsedDecides(s1.t, s2.t);
  }

  lemma ReturnedOwned(s: Space, s': Space, c: Chunk, live: map<Addr, nat>)
    requires Returned(s, s', c) && Owned(s.t, live) && c.at + OVERHEAD in live
    ensures Owned(s'.t, live - {c.at + OVERHEAD})
  {
    hide Tiled, Filed, UsedOf, Owned, DvOk;
    OwnedLess(s.t, s'.t, live, c);
  }

  /**
   * The chunk `c` to be freed with its free neighbours: `ps` bytes to the left and `ns` bytes to the right, 0 where the
   * neighbour is used.
   */
  ghost predicate Neighbours(t: Tiling, c: Chunk, ps: nat, ns: nat) {
    && Tiled(t) && c in UsedOf(t)
    && (ps == 0 || Chunk(c.at - ps, ps) in FreeOf(t))
    && (ns == 0 || Chunk(c.at + c.size, ns) in FreeOf(t))
  }

  /** The chunk to the left of `c`: none of the free ones if `ps` is 0. */
  ghost function Left(c: Chunk, ps: nat): Chunk {
    Chunk(c.at - ps, ps)
  }

  ghost function Right(c: Chunk, ns: nat): Chunk {
    Chunk(c.at + c.size, ns)
  }

  /** A chunk inside the merged range is one of the three. */
  lemma Within(t: Tiling, c: Chunk, ps: nat, ns: nat, q: Addr)
    requires Neighbours(t, c, ps, ns) && q in t.starts && c.at - ps <= q < c.at + c.size + ns
    ensures q == c.at || (ps != 0 && q == c.at - ps) || (ns != 0 && q == c.at + c.size)
  {
    hide Tiled, FreeOf, UsedOf;
    UsedFacts(t, c);
    FreeIs(t, Left(c, ps));
    FreeIs(t, Right(c, ns));
    ChunkFacts(t, q);
    ClearFacts(t, q, c.at);
    if ps != 0 {
      ClearFacts(t, q, c.at - ps);
    }
    if ns != 0 {
      ClearFacts(t, q, c.at + c.size);
    }
  }

  /** What the merged range takes away. */
  lemma MergedSets(t: Tiling, c: Chunk, ps: nat, ns: nat)
    requires Neighbours(t, c, ps, ns)
    ensures var p, e := c.at - ps, c.at + c.size + ns;
            && Apart(FreeOf(t), p, e) == FreeOf(t) - {Left(c, ps)} - {Right(c, ns)}
            && Apart(UsedOf(t), p, e) == UsedOf(t) - {c}
  {
    hide Tiled, FreeOf, UsedOf;
    var p, e := c.at - ps, c.at + c.size + ns;
    UsedFacts(t, c);
    forall x
      ensures x in Apart(FreeOf(t), p, e) <==> x in FreeOf(t) - {Left(c, ps)} - {Right(c, ns)}
    {
      MergedFree(t, c, ps, ns, x);
    }
    forall x
      ensures x in Apart(UsedOf(t), p, e) <==> x in UsedOf(t) - {c}
    {
      MergedUsed(t, c, ps, ns, x);
    }
  }

  lemma MergedFree(t: Tiling, c: Chunk, ps: nat, ns: nat, x: Chunk)
    requires Neighbours(t, c, ps, ns)
    ensures x in Apart(FreeOf(t), c.at - ps, c.at + c.size + ns) <==> x in FreeOf(t) - {Left(c, ps)} - {Right(c, ns)}
  {
    hide Tiled, FreeOf, UsedOf;
    UsedIs(t, c);
    UsedFacts(t, c);
    FreeIs(t, x);
    FreeIs(t, Left(c, ps));
    FreeIs(t, Right(c, ns));
    if x in FreeOf(t) {
      ChunkFacts(t, x.at);
      if c.at - ps <= x.at < c.at + c.size + ns {
        Within(t, c, ps, ns, x.at);
      }
    }
  }

  lemma MergedUsed(t: Tiling, c: Chunk, ps: nat, ns: nat, x: Chunk)
    requires Neighbours(t, c, ps, ns)
    ensures x in Apart(UsedOf(t), c.at - ps, c.at + c.size + ns) <==> x in UsedOf(t) - {c}
  {
    hide Tiled, FreeOf, UsedOf;
    UsedIs(t, c);
    UsedFacts(t, c);
    UsedIs(t, x);
    FreeIs(t, Left(c, ps));
    FreeIs(t, Right(c, ns));
    if x in UsedOf(t) && c.at - ps <= x.at < c.at + c.size + ns {
      Within(t, c, ps, ns, x.at);
    }
  }

  /** The merged range can be joined up to the used chunk behind it. */
  lemma CanMerge(t: Tiling, c: Chunk, ps: nat, ns: nat)
    requires Neighbours(t, c, ps, ns) && c.at - ps in t.h && t.h[c.at - ps].pinuse
    requires c.at + c.size + ns in t.h && t.h[c.at + c.size + ns].cinuse
    ensures CanJoin(t, c.at - ps, c.at + c.size + ns)
  {
    hide Tiled, FreeOf, UsedOf;
    UsedFacts(t, c);
    FreeIs(t, Left(c, ps));
    FreeIs(t, Right(c, ns));
    if ns != 0 {
      ChunkFacts(t, c.at + c.size);
    }
  }

  /** The bins after both neighbours have been unlinked, where they were binned. */
  ghost predicate NeighboursOut(s: Space, b: Bins, c: Chunk, ps: nat, ns: nat) {
    Filed(b, Binned(s) - {Left(c, ps)} - {Right(c, ns)})
  }

  lemma NeighbourUnlinked(s: Space, b: Bins, f: set<Chunk>, p: Addr, size: nat)
    requires Sound(s) && Filed(b, f) && f <= Binned(s) && Chunk(p, size) in FreeOf(s.t)
    requires Chunk(p, size) in Binned(s) ==> Chunk(p, size) in f
    ensures |b.small| == BINS && |b.trees| == TREE_BINS
    ensures Filed(if p == s.dv then b else UnlinkChunk(b, p, size), f - {Chunk(p, size)})
    ensures p == s.dv ==> size == s.dvsize
  {
    hide Tiled, Filed, FreeOf, UnlinkChunk;
    FiledShape(b, f);
    FreeIs(s.t, Chunk(p, size));
    FreeSizes(s.t, Chunk(p, size));
    if s.dvsize != 0 {
      FreeIs(s.t, Chunk(s.dv, s.dvsize));
    }
    if p == s.dv {
      assert f - {Chunk(p, size)} == f;
    } else {
      UnlinkFiled(b, f, p, size);
    }
  }

  /** The merged chunk goes to a bin. */
  lemma FreeToBin(s: Space, b: Bins, c: Chunk, ps: nat, ns: nat)
    requires Sound(s) && Neighbours(s.t, c, ps, ns) && NeighboursOut(s, b, c, ps, ns)
    requires CanJoin(s.t, c.at - ps, c.at + c.size + ns)
    requires s.dvsize != 0 ==> Chunk(s.dv, s.dvsize) != Left(c, ps) && Chunk(s.dv, s.dvsize) != Right(c, ns)
    ensures |b.small| == BINS && |b.trees| == TREE_BINS
    ensures var p, e := c.at - ps, c.at + c.size + ns;
            Returned(s, s.(t := Joined(s.t, p, e), bins := InsertChunk(b, p, e - p)), c)
  {
    hide Tiled, Filed, FreeOf, UsedOf, InsertChunk, Apart;
    var p, e := c.at - ps, c.at + c.size + ns;
    var m := Chunk(p, e - p);
    var f := Binned(s) - {Left(c, ps)} - {Right(c, ns)};
    FiledShape(b, f);
    MergedSets(s.t, c, ps, ns);
    JoinKeeps(s.t, p, e);
    MergedNew(s.t, c, ps, ns);
    FreeSizes(Joined(s.t, p, e), m);
    InsertFiled(b, f, p, e - p);
    assert f + {m} == (FreeOf(s.t) - {Left(c, ps)} - {Right(c, ns)} + {m}) - DvSet(s);
  }

  /** The merged chunk was not free before. */
  lemma MergedNew(t: Tiling, c: Chunk, ps: nat, ns: nat)
    requires Neighbours(t, c, ps, ns)
    ensures Chunk(c.at - ps, ps + c.size + ns) !in FreeOf(t)
  {
    hide Tiled, FreeOf, UsedOf;
    UsedFacts(t, c);
    FreeIs(t, Left(c, ps));
    FreeIs(t, Chunk(c.at - ps, ps + c.size + ns));
  }

  /** The merged chunk takes over as the designated victim, which was one of the neighbours. */
  lemma FreeToDv(s: Space, b: Bins, c: Chunk, ps: nat, ns: nat)
    requires Sound(s) && Neighbours(s.t, c, ps, ns) && NeighboursOut(s, b, c, ps, ns)
    requires CanJoin(s.t, c.at - ps, c.at + c.size + ns)
    requires s.dvsize != 0 && (Chunk(s.dv, s.dvsize) == Left(c, ps) || Chunk(s.dv, s.dvsize) == Right(c, ns))
    ensures var p, e := c.at - ps, c.at + c.size + ns;
            e - p >= 0 && Returned(s, Space(Joined(s.t, p, e), b, p, e - p), c)
  {
    hide Tiled, Filed, FreeOf, UsedOf, Apart;
    var p, e := c.at - ps, c.at + c.size + ns;
    var m := Chunk(p, e - p);
    var f := Binned(s) - {Left(c, ps)} - {Right(c, ns)};
    MergedSets(s.t, c, ps, ns);
    JoinKeeps(s.t, p, e);
    MergedNew(s.t, c, ps, ns);
    assert f == (FreeOf(s.t) - {Left(c, ps)} - {Right(c, ns)} + {m}) - {m};
  }

  /** The merged chunk becomes part of the top chunk. */
  lemma FreeToTop(s: Space, b: Bins, c: Chunk, ps: nat)
    requires Sound(s) && Neighbours(s.t, c, ps, 0) && NeighboursOut(s, b, c, ps, 0) && c.at + c.size == s.t.top
    requires c.at - ps in s.t.h && s.t.h[c.at - ps].pinuse
    ensures var p := c.at - ps;
            && p <= s.t.top
            && var dead := s.dvsize != 0 && Chunk(s.dv, s.dvsize) == Left(c, ps);
               Returned(s, Space(ToTop(s.t, p), b, if dead then 0 else s.dv, if dead then 0 else s.dvsize), c)
  {
    hide Tiled, Filed, FreeOf, UsedOf, Apart;
    var p := c.at - ps;
    TopReady(s.t, c, ps);
    TopMerged(s.t, c, ps);
    ToTopKeeps(s.t, p);
    NoRight(s.t, c);
    var f := Binned(s) - {Left(c, ps)} - {Right(c, 0)};
    if s.dvsize != 0 && Chunk(s.dv, s.dvsize) == Left(c, ps) {
      assert f == (FreeOf(s.t) - {Left(c, ps)}) - {};
    } else {
      assert f == (FreeOf(s.t) - {Left(c, ps)}) - DvSet(s);
    }
  }

  lemma NoRight(t: Tiling, c: Chunk)
    requires Tiled(t)
    ensures Right(c, 0) !in FreeOf(t)
  {
    hide Tiled, FreeOf;
    FreeIs(t, Right(c, 0));
    if c.at + c.size in t.starts {
      ChunkFacts(t, c.at + c.size);
    }
  }

  lemma TopReady(t: Tiling, c: Chunk, ps: nat)
    requires Neighbours(t, c, ps, 0) && c.at + c.size == t.top && c.at - ps in t.h && t.h[c.at - ps].pinuse
    ensures CanToTop(t, c.at - ps)
  {
    hide Tiled, FreeOf, UsedOf;
    UsedFacts(t, c);
    FreeIs(t, Left(c, ps));
  }

  /** What the new top chunk takes away. */
  lemma TopMerged(t: Tiling, c: Chunk, ps: nat)
    requires Neighbours(t, c, ps, 0) && c.at + c.size == t.top
    ensures var p, e := c.at - ps, t.top + t.topsize;
            Apart(FreeOf(t), p, e) == FreeOf(t) - {Left(c, ps)} && Apart(UsedOf(t), p, e) == UsedOf(t) - {c}
  {
    hide Tiled, FreeOf, UsedOf;
    var p, e := c.at - ps, t.top + t.topsize;
    forall x
      ensures x in Apart(FreeOf(t), p, e) <==> x in FreeOf(t) - {Left(c, ps)}
    {
      TopMergedFree(t, c, ps, x);
    }
    forall x
      ensures x in Apart(UsedOf(t), p, e) <==> x in UsedOf(t) - {c}
    {
      TopMergedUsed(t, c, ps, x);
    }
  }

  lemma TopMergedFree(t: Tiling, c: Chunk, ps: nat, x: Chunk)
    requires Neighbours(t, c, ps, 0) && c.at + c.size == t.top
    ensures x in Apart(FreeOf(t), c.at - ps, t.top + t.topsize) <==> x in FreeOf(t) - {Left(c, ps)}
  {
    hide Tiled, FreeOf, UsedOf;
    MergedFree(t, c, ps, 0, x);
    NoRight(t, c);
    FreeIs(t, x);
    EndsFacts(t);
    if x in FreeOf(t) {
      ChunkFacts(t, x.at);
    }
  }

  lemma TopMergedUsed(t: Tiling, c: Chunk, ps: nat, x: Chunk)
    requires Neighbours(t, c, ps, 0) && c.at + c.size == t.top
    ensures x in Apart(UsedOf(t), c.at - ps, t.top + t.topsize) <==> x in UsedOf(t) - {c}
  {
    hide Tiled, FreeOf, UsedOf;
    MergedUsed(t, c, ps, 0, x);
    EndsFacts(t);
    if x in UsedOf(t) {
      UsedFacts(t, x);
    }
  }
}
