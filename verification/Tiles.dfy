/** The memory of one heap as a tiling by chunks with boundary tags. */
module Tiles {
  import opened TreeBin

  /** A head word: the size of the chunk and the two in-use bits that share the word with it. */
  datatype Head = Head(size: nat, pinuse: bool, cinuse: bool)

  type Heads = map<Addr, Head>
  type Feet = map<Addr, nat>

  const MIN_CHUNK: nat := 32

  /** The room kept free behind the top chunk, with a head word of its own in front. */
  const TOP_FOOT_SIZE: nat := 80

  /**
   * The tags in memory, and the addresses where chunks begin, from `base` to the top chunk; `limit` is the end of the
   * segment, that is of the memory obtained from the system.
   */
  datatype Tiling = Tiling(h: Heads, feet: Feet, starts: set<Addr>, base: Addr, top: Addr, topsize: nat, limit: nat)

  // ------------------------------------------------------------------ invariant

  /**
   * One chunk: its neighbour to the right begins where it ends and tells whether it is used; a free chunk lies between
   * used ones and has its size in its foot.
   */
  ghost predicate ChunkOk(t: Tiling, p: Addr) {
    && p in t.h && t.base <= p <= t.top && p % 8 == 0
    && if p == t.top then t.h[p] == Head(t.topsize, true, false)
       else
         var s, n := t.h[p].size, p + t.h[p].size;
         && MIN_CHUNK <= s && s % 8 == 0 && n in t.starts && n in t.h && t.h[n].pinuse == t.h[p].cinuse
         && (!t.h[p].cinuse ==> t.h[p].pinuse && t.h[n].cinuse && n in t.feet && t.feet[n] == s)
  }

  /** Two chunks do not overlap. */
  ghost predicate NoOverlap(h: Heads, p: Addr, q: Addr) {
    p < q ==> p in h && p + h[p].size <= q
  }

  /** The first chunk and the top chunk, which reaches to the trailer at the end of the segment. */
  ghost predicate Ends(t: Tiling) {
    && t.base in t.starts && t.top in t.starts && t.base % 8 == 0 && t.topsize > 0 && t.base in t.h
    && t.h[t.base].pinuse
    && t.top + t.topsize + TOP_FOOT_SIZE == t.limit
    && t.top + t.topsize in t.h && t.h[t.top + t.topsize] == Trailer()
  }

  function Trailer(): Head {
    Head(TOP_FOOT_SIZE, false, false)
  }

  ghost predicate AllOk(t: Tiling) {
    forall p {:trigger ChunkOk(t, p)} :: p in t.starts ==> ChunkOk(t, p)
  }

  ghost predicate NoneOverlap(t: Tiling) {
    forall p, q {:trigger NoOverlap(t.h, p, q)} :: p in t.starts && q in t.starts ==> NoOverlap(t.h, p, q)
  }

  ghost predicate Tiled(t: Tiling) {
    Ends(t) && AllOk(t) && NoneOverlap(t)
  }

  /** The free chunks other than the top chunk, and the used ones. */
  ghost function FreeOf(t: Tiling): set<Chunk> {
    set p | p in t.starts && p in t.h && p != t.top && !t.h[p].cinuse :: Chunk(p, t.h[p].size)
  }

  ghost function UsedOf(t: Tiling): set<Chunk> {
    set p | p in t.starts && p in t.h && t.h[p].cinuse :: Chunk(p, t.h[p].size)
  }

  ghost predicate IsFree(t: Tiling, c: Chunk) {
    c.at in t.starts && c.at in t.h && c.at != t.top && !t.h[c.at].cinuse && t.h[c.at].size == c.size
  }

  ghost predicate IsUsed(t: Tiling, c: Chunk) {
    c.at in t.starts && c.at in t.h && t.h[c.at].cinuse && t.h[c.at].size == c.size
  }

  lemma FreeIs(t: Tiling, c: Chunk)
    ensures c in FreeOf(t) <==> IsFree(t, c)
  {
  }

  lemma UsedIs(t: Tiling, c: Chunk)
    ensures c in UsedOf(t) <==> IsUsed(t, c)
  {
  }

  // ------------------------------------------------------------ what it says

  /** Every address from the base to the end of the top chunk lies in exactly one chunk. */
  lemma {:induction false} Covered(t: Tiling, p: Addr, a: Addr)
    requires Tiled(t) && p in t.starts && p <= a < t.top + t.topsize
    ensures exists q :: q in t.starts && q in t.h && q <= a < q + t.h[q].size
    decreases t.top - p
  {
    assert ChunkOk(t, p);
    if p != t.top && p + t.h[p].size <= a {
      assert ChunkOk(t, p + t.h[p].size);
      Covered(t, p + t.h[p].size, a);
    }
  }

  /** The chunk that begins at `p` holds the address `a`. */
  ghost predicate InChunk(t: Tiling, p: Addr, a: Addr) {
    p in t.starts && p in t.h && p <= a < p + t.h[p].size
  }

  /** The chunks tile the segment: each address from its base to its trailer lies in exactly one chunk. */
  lemma ExactlyOneChunk(t: Tiling, a: Addr)
    requires Tiled(t) && t.base <= a < t.limit - TOP_FOOT_SIZE
    ensures exists p :: InChunk(t, p, a) && forall q :: InChunk(t, q, a) ==> q == p
  {
    Covered(t, t.base, a);
    var p :| p in t.starts && p in t.h && p <= a < p + t.h[p].size;
    assert InChunk(t, p, a);
    forall q | InChunk(t, q, a)
      ensures q == p
    {
      ClearFacts(t, p, q);
    }
  }

  /** What the tiling says of a chunk and its right neighbour. */
  lemma ChunkFacts(t: Tiling, p: Addr)
    requires Tiled(t) && p in t.starts
    ensures p in t.h && t.base <= p <= t.top && p % 8 == 0
    ensures p == t.top ==> t.h[p] == Head(t.topsize, true, false)
    ensures p != t.top ==>
              var s, n := t.h[p].size, p + t.h[p].size;
              && MIN_CHUNK <= s && s % 8 == 0 && n in t.starts && n in t.h && n <= t.top
              && t.h[n].pinuse == t.h[p].cinuse
              && (!t.h[p].cinuse ==> t.h[p].pinuse && t.h[n].cinuse && n in t.feet && t.feet[n] == s && n != t.top)
  {
    assert ChunkOk(t, p);
    if p != t.top {
      assert ChunkOk(t, p + t.h[p].size);
    }
  }

  lemma ClearFacts(t: Tiling, p: Addr, q: Addr)
    requires Tiled(t) && p in t.starts && q in t.starts && p in t.h && q in t.h
    ensures p < q ==> p + t.h[p].size <= q
    ensures q < p ==> q + t.h[q].size <= p
  {
    assert NoOverlap(t.h, p, q) && NoOverlap(t.h, q, p);
  }

  lemma EndsFacts(t: Tiling)
    requires Tiled(t)
    ensures Ends(t)
  {
  }

  /** Every chunk but the first has one to its left. */
  lemma Predecessor(t: Tiling, p: Addr) returns (q: Addr)
    requires Tiled(t) && p in t.starts && p != t.base
    ensures q in t.starts && q in t.h && q < p && q + t.h[q].size == p && q != t.top
  {
    hide Tiled;
    EndsFacts(t);
    ChunkFacts(t, p);
    Covered(t, t.base, p - 1);
    q :| q in t.starts && q in t.h && q <= p - 1 < q + t.h[q].size;
    ClearFacts(t, q, p);
    ChunkFacts(t, q);
  }

  /** Two tilings of the same segment with the same used chunks have the same boundaries. */
  lemma {:induction false} SameStart(t: Tiling, t': Tiling, p: Addr)
    requires Tiled(t) && Tiled(t') && t'.base == t.base && UsedOf(t') == UsedOf(t) && p in t.starts
    ensures p in t'.starts
    decreases p - t.base
  {
    hide Tiled, UsedOf;
    EndsFacts(t');
    ChunkFacts(t, p);
    if p != t.base {
      var q := Predecessor(t, p);
      ChunkFacts(t, q);
      SameStart(t, t', q);
      var c, d := Chunk(q, t.h[q].size), Chunk(p, t.h[p].size);
      UsedIs(t, c);
      UsedIs(t', c);
      UsedIs(t, d);
      UsedIs(t', d);
      if c in UsedOf(t) {
        NotTopWithin(t', c);
      }
    }
  }

  lemma NotTopWithin(t: Tiling, c: Chunk)
    requires Tiled(t) && c in UsedOf(t)
    ensures c.at != t.top && c.at + c.size in t.starts
  {
    hide Tiled;
    UsedIs(t, c);
    ChunkFacts(t, c.at);
  }

  /**
   * In a segment the used chunks decide everything else: with none of the memory lost and no two free chunks touching,
   * the free chunks and the top chunk are the gaps between them.
   */
  lemma UsedDecides(t: Tiling, t': Tiling)
    requires Tiled(t) && Tiled(t') && t'.base == t.base && t'.limit == t.limit && UsedOf(t') == UsedOf(t)
    ensures t'.starts == t.starts && t'.top == t.top && t'.topsize == t.topsize && FreeOf(t') == FreeOf(t)
  {
    hide Tiled, UsedOf, FreeOf;
    forall p
      ensures p in t.starts <==> p in t'.starts
    {
      if p in t.starts {
        SameStart(t, t', p);
      }
      if p in t'.starts {
        SameStart(t', t, p);
      }
    }
    EndsFacts(t);
    EndsFacts(t');
    ChunkFacts(t, t'.top);
    ChunkFacts(t', t.top);
    forall c
      ensures c in FreeOf(t) <==> c in FreeOf(t')
    {
      SameFree(t, t', c);
      SameFree(t', t, c);
    }
  }

  lemma SameFree(t: Tiling, t': Tiling, c: Chunk)
    requires Tiled(t) && Tiled(t') && UsedOf(t') == UsedOf(t) && t'.starts == t.starts && t'.top == t.top
    ensures c in FreeOf(t) ==> c in FreeOf(t')
  {
    hide Tiled, UsedOf, FreeOf;
    FreeIs(t, c);
    FreeIs(t', c);
    if c in FreeOf(t) {
      ChunkFacts(t, c.at);
      ChunkFacts(t', c.at);
      var d := Chunk(c.at, t'.h[c.at].size);
      UsedIs(t, d);
      UsedIs(t', d);
      ChunkFacts(t, c.at + c.size);
      ChunkFacts(t', c.at + c.size);
      ChunkFacts(t, c.at + d.size);
      ClearFacts(t', c.at, c.at + c.size);
      ClearFacts(t, c.at, c.at + d.size);
    }
  }

  // ------------------------------------------------------------------ occupying

  /** `set_inuse_and_pinuse`: the whole free chunk becomes used. */
  function OccupyHeads(h: Heads, p: Addr, s: nat): Heads
    requires p + s in h
  {
    h[p := Head(s, true, true)][p + s := h[p + s].(pinuse := true)]
  }

  ghost function Occupied(t: Tiling, p: Addr, s: nat, footer: nat): Tiling
    requires p + s in t.h
  {
    t.(h := OccupyHeads(t.h, p, s), feet := t.feet[p + s := footer])
  }

  lemma OccupyAt(t: Tiling, p: Addr, s: nat, footer: nat, q: Addr)
    requires Tiled(t) && IsFree(t, Chunk(p, s)) && p + s in t.h && q in t.starts && s > 0
    ensures ChunkOk(Occupied(t, p, s, footer), q)
  {
    hide Tiled;
    ChunkFacts(t, p);
    ChunkFacts(t, p + s);
    ChunkFacts(t, q);
    ClearFacts(t, p, q);
  }

  lemma OccupyClear(t: Tiling, p: Addr, s: nat, footer: nat, q: Addr, r: Addr)
    requires Tiled(t) && IsFree(t, Chunk(p, s)) && p + s in t.h && q in t.starts && r in t.starts
    ensures NoOverlap(Occupied(t, p, s, footer).h, q, r)
  {
    assert NoOverlap(t.h, q, r);
  }

  lemma OccupySets(t: Tiling, p: Addr, s: nat, footer: nat)
    requires Tiled(t) && IsFree(t, Chunk(p, s)) && p + s in t.h && s > 0
    ensures var t' := Occupied(t, p, s, footer);
            FreeOf(t') == FreeOf(t) - {Chunk(p, s)} && UsedOf(t') == UsedOf(t) + {Chunk(p, s)}
  {
    hide FreeOf, UsedOf, Tiled;
    ChunkFacts(t, p);
    var t' := Occupied(t, p, s, footer);
    forall c
      ensures c in FreeOf(t') <==> c in FreeOf(t) - {Chunk(p, s)}
    {
      FreeIs(t, c);
      FreeIs(t', c);
    }
    forall c
      ensures c in UsedOf(t') <==> c in UsedOf(t) + {Chunk(p, s)}
    {
      UsedIs(t, c);
      UsedIs(t', c);
    }
  }

  lemma OccupyKeeps(t: Tiling, p: Addr, s: nat, footer: nat)
    requires Tiled(t) && Chunk(p, s) in FreeOf(t)
    ensures p + s in t.h
    ensures var t' := Occupied(t, p, s, footer);
            && Tiled(t') && FreeOf(t') == FreeOf(t) - {Chunk(p, s)} && UsedOf(t') == UsedOf(t) + {Chunk(p, s)}
  {
    hide FreeOf, UsedOf, ChunkOk, NoOverlap, Tiled, AllOk, NoneOverlap;
    FreeIs(t, Chunk(p, s));
    ChunkFacts(t, p);
    EndsFacts(t);
    var t' := Occupied(t, p, s, footer);
    forall q | q in t'.starts
      ensures ChunkOk(t', q)
    {
      OccupyAt(t, p, s, footer, q);
    }
    forall q, r | q in t'.starts && r in t'.starts
      ensures NoOverlap(t'.h, q, r)
    {
      OccupyClear(t, p, s, footer, q, r);
    }
    TiledFrom(t');
    OccupySets(t, p, s, footer);
  }

  lemma TiledFrom(t: Tiling)
    requires Ends(t)
    requires forall q :: q in t.starts ==> ChunkOk(t, q)
    requires forall q, r :: q in t.starts && r in t.starts ==> NoOverlap(t.h, q, r)
    ensures Tiled(t)
  {
    hide ChunkOk, NoOverlap, Ends;
  }

  // ------------------------------------------------------------------- splitting

  /** The front of a free chunk becomes used, the rest stays free. */
  function SplitHeads(h: Heads, p: Addr, nb: nat, rsize: nat): Heads {
    h[p := Head(nb, true, true)][p + nb := Head(rsize, true, false)]
  }

  function SplitFeet(feet: Feet, p: Addr, nb: nat, rsize: nat, footer: nat): Feet {
    feet[p + nb := footer][p + nb + rsize := rsize]
  }

  ghost function Split(t: Tiling, p: Addr, nb: nat, rsize: nat, footer: nat): Tiling {
    t.(h := SplitHeads(t.h, p, nb, rsize), feet := SplitFeet(t.feet, p, nb, rsize, footer),
       starts := t.starts + {p + nb})
  }

  ghost predicate CanSplit(t: Tiling, p: Addr, nb: nat, rsize: nat) {
    Tiled(t) && IsFree(t, Chunk(p, nb + rsize)) && nb % 8 == 0 && MIN_CHUNK <= nb && MIN_CHUNK <= rsize
  }

  lemma SplitAt(t: Tiling, p: Addr, nb: nat, rsize: nat, footer: nat, q: Addr)
    requires CanSplit(t, p, nb, rsize) && q in t.starts + {p + nb}
    ensures ChunkOk(Split(t, p, nb, rsize, footer), q)
  {
    hide Tiled;
    ChunkFacts(t, p);
    ChunkFacts(t, p + nb + rsize);
    if q in t.starts {
      ChunkFacts(t, q);
      ClearFacts(t, p, q);
    }
  }

  lemma SplitClear(t: Tiling, p: Addr, nb: nat, rsize: nat, footer: nat, q: Addr, r: Addr)
    requires CanSplit(t, p, nb, rsize) && q in t.starts + {p + nb} && r in t.starts + {p + nb}
    ensures NoOverlap(Split(t, p, nb, rsize, footer).h, q, r)
  {
    hide Tiled;
    ChunkFacts(t, p);
    if q in t.starts {
      ChunkFacts(t, q);
      ClearFacts(t, p, q);
    }
    if r in t.starts {
      ChunkFacts(t, r);
      ClearFacts(t, p, r);
    }
    if q in t.starts && r in t.starts {
      ClearFacts(t, q, r);
    }
  }

  /** The new boundary was not one before. */
  lemma NewBoundary(t: Tiling, p: Addr, nb: nat, rsize: nat)
    requires CanSplit(t, p, nb, rsize)
    ensures p + nb !in t.starts && p + nb < t.top && p < p + nb
  {
    hide Tiled;
    ChunkFacts(t, p);
    if p + nb in t.starts {
      ChunkFacts(t, p + nb);
      ClearFacts(t, p, p + nb);
    }
  }

  lemma SplitSets(t: Tiling, p: Addr, nb: nat, rsize: nat, footer: nat)
    requires CanSplit(t, p, nb, rsize)
    ensures var t' := Split(t, p, nb, rsize, footer);
            && FreeOf(t') == FreeOf(t) - {Chunk(p, nb + rsize)} + {Chunk(p + nb, rsize)}
            && UsedOf(t') == UsedOf(t) + {Chunk(p, nb)}
  {
    hide FreeOf, UsedOf, Tiled;
    NewBoundary(t, p, nb, rsize);
    var t' := Split(t, p, nb, rsize, footer);
    forall c
      ensures c in FreeOf(t') <==> c in FreeOf(t) - {Chunk(p, nb + rsize)} + {Chunk(p + nb, rsize)}
    {
      FreeIs(t, c);
      FreeIs(t', c);
    }
    forall c
      ensures c in UsedOf(t') <==> c in UsedOf(t) + {Chunk(p, nb)}
    {
      UsedIs(t, c);
      UsedIs(t', c);
    }
  }

  lemma SplitKeeps(t: Tiling, p: Addr, nb: nat, rsize: nat, footer: nat)
    requires CanSplit(t, p, nb, rsize)
    ensures var t' := Split(t, p, nb, rsize, footer);
            && Tiled(t')
            && FreeOf(t') == FreeOf(t) - {Chunk(p, nb + rsize)} + {Chunk(p + nb, rsize)}
            && UsedOf(t') == UsedOf(t) + {Chunk(p, nb)}
  {
    hide FreeOf, UsedOf, ChunkOk, NoOverlap, Tiled, AllOk, NoneOverlap;
    EndsFacts(t);
    NewBoundary(t, p, nb, rsize);
    ChunkFacts(t, t.base);
    var t' := Split(t, p, nb, rsize, footer);
    forall q | q in t'.starts
      ensures ChunkOk(t', q)
    {
      SplitAt(t, p, nb, rsize, footer, q);
    }
    forall q, r | q in t'.starts && r in t'.starts
      ensures NoOverlap(t'.h, q, r)
    {
      SplitClear(t, p, nb, rsize, footer, q, r);
    }
    TiledFrom(t');
    SplitSets(t, p, nb, rsize, footer);
  }

  // ------------------------------------------------------------ splitting the top

  /** The front of the top chunk becomes used. */
  ghost function SplitTop(t: Tiling, nb: nat, footer: nat): Tiling
    requires nb < t.topsize
  {
    t.(h := SplitHeads(t.h, t.top, nb, t.topsize - nb), feet := t.feet[t.top + nb := footer],
       starts := t.starts + {t.top + nb}, top := t.top + nb, topsize := t.topsize - nb)
  }

  ghost predicate CanSplitTop(t: Tiling, nb: nat) {
    Tiled(t) && nb % 8 == 0 && MIN_CHUNK <= nb < t.topsize
  }

  lemma SplitTopAt(t: Tiling, nb: nat, footer: nat, q: Addr)
    requires CanSplitTop(t, nb) && q in t.starts + {t.top + nb}
    ensures ChunkOk(SplitTop(t, nb, footer), q)
  {
    hide Tiled;
    EndsFacts(t);
    ChunkFacts(t, t.top);
    if q in t.starts {
      ChunkFacts(t, q);
    }
  }

  lemma SplitTopClear(t: Tiling, nb: nat, footer: nat, q: Addr, r: Addr)
    requires CanSplitTop(t, nb) && q in t.starts + {t.top + nb} && r in t.starts + {t.top + nb}
    ensures NoOverlap(SplitTop(t, nb, footer).h, q, r)
  {
    hide Tiled;
    EndsFacts(t);
    if q in t.starts {
      ChunkFacts(t, q);
      ChunkFacts(t, t.top);
      ClearFacts(t, q, t.top);
    }
    if r in t.starts {
      ChunkFacts(t, r);
    }
    if q in t.starts && r in t.starts {
      ClearFacts(t, q, r);
    }
  }

  lemma SplitTopSets(t: Tiling, nb: nat, footer: nat)
    requires CanSplitTop(t, nb)
    ensures var t' := SplitTop(t, nb, footer);
            FreeOf(t') == FreeOf(t) && UsedOf(t') == UsedOf(t) + {Chunk(t.top, nb)}
  {
    hide FreeOf, UsedOf, Tiled;
    var t' := SplitTop(t, nb, footer);
    AboveTop(t, t.top + nb);
    EndsFacts(t);
    ChunkFacts(t, t.top);
    forall c
      ensures c in FreeOf(t') <==> c in FreeOf(t)
    {
      FreeIs(t, c);
      FreeIs(t', c);
    }
    forall c
      ensures c in UsedOf(t') <==> c in UsedOf(t) + {Chunk(t.top, nb)}
    {
      UsedIs(t, c);
      UsedIs(t', c);
    }
  }

  lemma AboveTop(t: Tiling, p: Addr)
    requires Tiled(t) && p > t.top
    ensures p !in t.starts
  {
    if p in t.starts {
      ChunkFacts(t, p);
    }
  }

  lemma SplitTopKeeps(t: Tiling, nb: nat, footer: nat)
    requires CanSplitTop(t, nb)
    ensures var t' := SplitTop(t, nb, footer);
            Tiled(t') && FreeOf(t') == FreeOf(t) && UsedOf(t') == UsedOf(t) + {Chunk(t.top, nb)}
  {
    hide FreeOf, UsedOf, ChunkOk, NoOverlap, Tiled, AllOk, NoneOverlap;
    EndsFacts(t);
    ChunkFacts(t, t.base);
    var t' := SplitTop(t, nb, footer);
    forall q | q in t'.starts
      ensures ChunkOk(t', q)
    {
      SplitTopAt(t, nb, footer, q);
    }
    forall q, r | q in t'.starts && r in t'.starts
      ensures NoOverlap(t'.h, q, r)
    {
      SplitTopClear(t, nb, footer, q, r);
    }
    TiledFrom(t');
    SplitTopSets(t, nb, footer);
  }

  // -------------------------------------------------------------- growing the top

  /** New memory at the end of the region belongs to the top chunk. */
  ghost function GrownTop(t: Tiling, more: nat): Tiling {
    t.(h := t.h[t.top := Head(t.topsize + more, true, false)][t.top + t.topsize + more := Trailer()],
       topsize := t.topsize + more, limit := t.limit + more)
  }

  lemma GrowTopAt(t: Tiling, more: nat, q: Addr)
    requires Tiled(t) && q in t.starts
    ensures ChunkOk(GrownTop(t, more), q)
  {
    hide Tiled;
    EndsFacts(t);
    ChunkFacts(t, q);
    ChunkFacts(t, t.top);
  }

  lemma GrowTopClear(t: Tiling, more: nat, q: Addr, r: Addr)
    requires Tiled(t) && q in t.starts && r in t.starts
    ensures NoOverlap(GrownTop(t, more).h, q, r)
  {
    hide Tiled;
    EndsFacts(t);
    ChunkFacts(t, q);
    ChunkFacts(t, r);
    ClearFacts(t, q, r);
  }

  lemma GrowTopSets(t: Tiling, more: nat)
    requires Tiled(t)
    ensures var t' := GrownTop(t, more); FreeOf(t') == FreeOf(t) && UsedOf(t') == UsedOf(t)
  {
    hide FreeOf, UsedOf, Tiled;
    EndsFacts(t);
    ChunkFacts(t, t.top);
    AboveTop(t, t.top + t.topsize + more);
    var t' := GrownTop(t, more);
    forall c
      ensures c in FreeOf(t') <==> c in FreeOf(t)
    {
      FreeIs(t, c);
      FreeIs(t', c);
    }
    forall c
      ensures c in UsedOf(t') <==> c in UsedOf(t)
    {
      UsedIs(t, c);
      UsedIs(t', c);
    }
  }

  lemma GrowTopKeeps(t: Tiling, more: nat)
    requires Tiled(t)
    ensures var t' := GrownTop(t, more); Tiled(t') && FreeOf(t') == FreeOf(t) && UsedOf(t') == UsedOf(t)
  {
    hide FreeOf, UsedOf, ChunkOk, NoOverlap, Tiled, AllOk, NoneOverlap;
    EndsFacts(t);
    ChunkFacts(t, t.base);
    var t' := GrownTop(t, more);
    forall q | q in t'.starts
      ensures ChunkOk(t', q)
    {
      GrowTopAt(t, more, q);
    }
    forall q, r | q in t'.starts && r in t'.starts
      ensures NoOverlap(t'.h, q, r)
    {
      GrowTopClear(t, more, q, r);
    }
    TiledFrom(t');
    GrowTopSets(t, more);
  }

  // ------------------------------------------------------------------ coalescing

  ghost function Outside(starts: set<Addr>, p: Addr, e: Addr): set<Addr> {
    set q | q in starts && (q <= p || e <= q)
  }

  ghost function Apart(f: set<Chunk>, p: Addr, e: Addr): set<Chunk> {
    set c | c in f && (c.at < p || e <= c.at)
  }

  function FreeHeads(h: Heads, p: Addr, e: Addr): Heads
    requires e in h && p <= e
  {
    h[e := h[e].(pinuse := false)][p := Head(e - p, true, false)]
  }

  /** All chunks from `p` up to the used chunk at `e` become one free chunk. */
  ghost function Joined(t: Tiling, p: Addr, e: Addr): Tiling
    requires e in t.h && p <= e
  {
    t.(h := FreeHeads(t.h, p, e), feet := t.feet[e := e - p], starts := Outside(t.starts, p, e))
  }

  ghost predicate CanJoin(t: Tiling, p: Addr, e: Addr) {
    && Tiled(t) && p in t.starts && e in t.starts && p < e && p in t.h && t.h[p].pinuse && e in t.h && t.h[e].cinuse
  }

  lemma OutsideIs(starts: set<Addr>, p: Addr, e: Addr, q: Addr)
    ensures q in Outside(starts, p, e) <==> q in starts && (q <= p || e <= q)
  {
  }

  lemma JoinSizes(t: Tiling, p: Addr, e: Addr)
    requires CanJoin(t, p, e)
    ensures (e - p) % 8 == 0 && MIN_CHUNK <= e - p && e != t.top && t.base <= p < t.top
  {
    hide Tiled;
    EndsFacts(t);
    ChunkFacts(t, t.top);
    ChunkFacts(t, e);
    ChunkFacts(t, p);
    ClearFacts(t, p, e);
  }

  lemma JoinAt(t: Tiling, p: Addr, e: Addr, q: Addr)
    requires CanJoin(t, p, e) && q in t.starts && (q <= p || e <= q)
    ensures ChunkOk(Joined(t, p, e), q)
  {
    hide Tiled, Outside;
    JoinSizes(t, p, e);
    ChunkFacts(t, p);
    ChunkFacts(t, e);
    ChunkFacts(t, q);
    EndsFacts(t);
    OutsideIs(t.starts, p, e, e);
    ClearFacts(t, q, p);
    if q != t.top && q != p {
      OutsideIs(t.starts, p, e, q + t.h[q].size);
    }
  }

  lemma JoinClear(t: Tiling, p: Addr, e: Addr, q: Addr, r: Addr)
    requires CanJoin(t, p, e) && q in t.starts && (q <= p || e <= q) && r in t.starts && (r <= p || e <= r)
    ensures NoOverlap(Joined(t, p, e).h, q, r)
  {
    hide Tiled, Outside;
    JoinSizes(t, p, e);
    ChunkFacts(t, q);
    ChunkFacts(t, r);
    ClearFacts(t, q, r);
  }

  lemma JoinSets(t: Tiling, p: Addr, e: Addr)
    requires CanJoin(t, p, e)
    ensures var t' := Joined(t, p, e);
            FreeOf(t') == Apart(FreeOf(t), p, e) + {Chunk(p, e - p)} && UsedOf(t') == Apart(UsedOf(t), p, e)
  {
    hide FreeOf, UsedOf, Tiled, Outside;
    JoinSizes(t, p, e);
    var t' := Joined(t, p, e);
    forall c
      ensures c in FreeOf(t') <==> c in Apart(FreeOf(t), p, e) + {Chunk(p, e - p)}
    {
      FreeIs(t, c);
      FreeIs(t', c);
      OutsideIs(t.starts, p, e, c.at);
    }
    forall c
      ensures c in UsedOf(t') <==> c in Apart(UsedOf(t), p, e)
    {
      UsedIs(t, c);
      UsedIs(t', c);
      OutsideIs(t.starts, p, e, c.at);
    }
  }

  lemma JoinKeeps(t: Tiling, p: Addr, e: Addr)
    requires CanJoin(t, p, e)
    ensures var t' := Joined(t, p, e);
            && Tiled(t')
            && FreeOf(t') == Apart(FreeOf(t), p, e) + {Chunk(p, e - p)} && UsedOf(t') == Apart(UsedOf(t), p, e)
  {
    hide FreeOf, UsedOf, ChunkOk, NoOverlap, Tiled, AllOk, NoneOverlap, Outside;
    EndsFacts(t);
    JoinSizes(t, p, e);
    OutsideIs(t.starts, p, e, t.base);
    OutsideIs(t.starts, p, e, t.top);
    ChunkFacts(t, e);
    var t' := Joined(t, p, e);
    forall q | q in t'.starts
      ensures ChunkOk(t', q)
    {
      OutsideIs(t.starts, p, e, q);
      JoinAt(t, p, e, q);
    }
    forall q, r | q in t'.starts && r in t'.starts
      ensures NoOverlap(t'.h, q, r)
    {
      OutsideIs(t.starts, p, e, q);
      OutsideIs(t.starts, p, e, r);
      JoinClear(t, p, e, q, r);
    }
    TiledFrom(t');
    JoinSets(t, p, e);
  }

  // ---------------------------------------------------------- joining with the top

  /** All chunks from `p` on become the top chunk. */
  ghost function ToTop(t: Tiling, p: Addr): Tiling
    requires p <= t.top
  {
    var size := t.top + t.topsize - p;
    t.(h := t.h[p := Head(size, true, false)], starts := Outside(t.starts, p, t.top + t.topsize), top := p,
       topsize := size)
  }

  ghost predicate CanToTop(t: Tiling, p: Addr) {
    Tiled(t) && p in t.starts && p in t.h && t.h[p].pinuse && p <= t.top
  }

  lemma ToTopAt(t: Tiling, p: Addr, q: Addr)
    requires CanToTop(t, p) && q in t.starts && q <= p
    ensures ChunkOk(ToTop(t, p), q)
  {
    hide Tiled, Outside;
    ChunkFacts(t, p);
    ChunkFacts(t, q);
    EndsFacts(t);
    ClearFacts(t, q, p);
    OutsideIs(t.starts, p, t.top + t.topsize, p);
    if q < p {
      OutsideIs(t.starts, p, t.top + t.topsize, q + t.h[q].size);
    }
  }

  lemma ToTopSets(t: Tiling, p: Addr)
    requires CanToTop(t, p)
    ensures var t', e := ToTop(t, p), t.top + t.topsize;
            FreeOf(t') == Apart(FreeOf(t), p, e) && UsedOf(t') == Apart(UsedOf(t), p, e)
  {
    hide FreeOf, UsedOf, Tiled, Outside;
    var t', e := ToTop(t, p), t.top + t.topsize;
    EndsFacts(t);
    forall c
      ensures c in FreeOf(t') <==> c in Apart(FreeOf(t), p, e)
    {
      FreeIs(t, c);
      FreeIs(t', c);
      OutsideIs(t.starts, p, e, c.at);
      if c.at in t.starts {
        ChunkFacts(t, c.at);
      }
    }
    forall c
      ensures c in UsedOf(t') <==> c in Apart(UsedOf(t), p, e)
    {
      UsedIs(t, c);
      UsedIs(t', c);
      OutsideIs(t.starts, p, e, c.at);
      if c.at in t.starts {
        ChunkFacts(t, c.at);
      }
    }
  }

  lemma ToTopKeeps(t: Tiling, p: Addr)
    requires CanToTop(t, p)
    ensures var t', e := ToTop(t, p), t.top + t.topsize;
            && Tiled(t')
            && FreeOf(t') == Apart(FreeOf(t), p, e) && UsedOf(t') == Apart(UsedOf(t), p, e)
  {
    hide FreeOf, UsedOf, ChunkOk, NoOverlap, Tiled, AllOk, NoneOverlap, Outside;
    var e := t.top + t.topsize;
    EndsFacts(t);
    ChunkFacts(t, p);
    OutsideIs(t.starts, p, e, t.base);
    OutsideIs(t.starts, p, e, p);
    var t' := ToTop(t, p);
    forall q | q in t'.starts
      ensures ChunkOk(t', q)
    {
      OutsideIs(t.starts, p, e, q);
      ChunkFacts(t, q);
      ToTopAt(t, p, q);
    }
    forall q, r | q in t'.starts && r in t'.starts
      ensures NoOverlap(t'.h, q, r)
    {
      OutsideIs(t.starts, p, e, q);
      OutsideIs(t.starts, p, e, r);
      ChunkFacts(t, q);
      ChunkFacts(t, r);
      ToTopClear(t, p, q, r);
    }
    TiledFrom(t');
    ToTopSets(t, p);
  }

  lemma ToTopClear(t: Tiling, p: Addr, q: Addr, r: Addr)
    requires CanToTop(t, p) && q in t.starts && r in t.starts && q <= p && r <= p
    ensures NoOverlap(ToTop(t, p).h, q, r)
  {
    hide Tiled;
    ChunkFacts(t, q);
    ChunkFacts(t, r);
    ClearFacts(t, q, r);
  }

  // ---------------------------------------------------------- splitting a used chunk

  /** A used chunk of `a + b` bytes becomes two. */
  ghost function SplitUsed(t: Tiling, p: Addr, a: nat, b: nat, footer: nat): Tiling
    requires p in t.h
  {
    t.(h := t.h[p := Head(a, t.h[p].pinuse, true)][p + a := Head(b, true, true)],
       feet := t.feet[p + a + b := footer][p + a := footer], starts := t.starts + {p + a})
  }

  ghost predicate CanSplitUsed(t: Tiling, p: Addr, a: nat, b: nat) {
    && Tiled(t) && IsUsed(t, Chunk(p, a + b)) && a % 8 == 0 && b % 8 == 0 && MIN_CHUNK <= a && MIN_CHUNK <= b
  }

  lemma SplitUsedAt(t: Tiling, p: Addr, a: nat, b: nat, footer: nat, q: Addr)
    requires CanSplitUsed(t, p, a, b) && q in t.starts + {p + a}
    ensures ChunkOk(SplitUsed(t, p, a, b, footer), q)
  {
    hide Tiled;
    ChunkFacts(t, p);
    ChunkFacts(t, p + a + b);
    if q in t.starts {
      ChunkFacts(t, q);
      ClearFacts(t, p, q);
    }
  }

  lemma SplitUsedClear(t: Tiling, p: Addr, a: nat, b: nat, footer: nat, q: Addr, r: Addr)
    requires CanSplitUsed(t, p, a, b) && q in t.starts + {p + a} && r in t.starts + {p + a}
    ensures NoOverlap(SplitUsed(t, p, a, b, footer).h, q, r)
  {
    hide Tiled;
    ChunkFacts(t, p);
    if q in t.starts {
      ChunkFacts(t, q);
      ClearFacts(t, p, q);
    }
    if r in t.starts {
      ChunkFacts(t, r);
      ClearFacts(t, p, r);
    }
    if q in t.starts && r in t.starts {
      ClearFacts(t, q, r);
    }
  }

  lemma SplitUsedNew(t: Tiling, p: Addr, a: nat, b: nat)
    requires CanSplitUsed(t, p, a, b)
    ensures p + a !in t.starts && p < p + a < t.top && p != t.top
  {
    hide Tiled;
    ChunkFacts(t, p);
    if p + a in t.starts {
      ChunkFacts(t, p + a);
      ClearFacts(t, p, p + a);
    }
  }

  lemma SplitUsedSets(t: Tiling, p: Addr, a: nat, b: nat, footer: nat)
    requires CanSplitUsed(t, p, a, b)
    ensures var t' := SplitUsed(t, p, a, b, footer);
            && FreeOf(t') == FreeOf(t)
            && UsedOf(t') == UsedOf(t) - {Chunk(p, a + b)} + {Chunk(p, a), Chunk(p + a, b)}
  {
    hide FreeOf, UsedOf, Tiled;
    SplitUsedNew(t, p, a, b);
    var t' := SplitUsed(t, p, a, b, footer);
    forall c
      ensures c in FreeOf(t') <==> c in FreeOf(t)
    {
      FreeIs(t, c);
      FreeIs(t', c);
    }
    forall c
      ensures c in UsedOf(t') <==> c in UsedOf(t) - {Chunk(p, a + b)} + {Chunk(p, a), Chunk(p + a, b)}
    {
      UsedIs(t, c);
      UsedIs(t', c);
    }
  }

  lemma SplitUsedKeeps(t: Tiling, p: Addr, a: nat, b: nat, footer: nat)
    requires CanSplitUsed(t, p, a, b)
    ensures var t' := SplitUsed(t, p, a, b, footer);
            && Tiled(t') && FreeOf(t') == FreeOf(t)
            && UsedOf(t') == UsedOf(t) - {Chunk(p, a + b)} + {Chunk(p, a), Chunk(p + a, b)}
  {
    hide FreeOf, UsedOf, ChunkOk, NoOverlap, Tiled, AllOk, NoneOverlap;
    EndsFacts(t);
    ChunkFacts(t, t.base);
    SplitUsedNew(t, p, a, b);
    var t' := SplitUsed(t, p, a, b, footer);
    forall q | q in t'.starts
      ensures ChunkOk(t', q)
    {
      SplitUsedAt(t, p, a, b, footer, q);
    }
    forall q, r | q in t'.starts && r in t'.starts
      ensures NoOverlap(t'.h, q, r)
    {
      SplitUsedClear(t, p, a, b, footer, q, r);
    }
    TiledFrom(t');
    SplitUsedSets(t, p, a, b, footer);
  }
}
