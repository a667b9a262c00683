/** The allocator of one heap, on the words in its memory: `mspace_malloc` and `mspace_free`. */
module MSpaces {
  import opened TreeBin
  import opened TreeFit
  import opened TreeIndex
  import opened BinMap
  import opened BinLists
  import opened BinSearch
  import opened Tiles
  import opened HeapSpace

  const WORD: nat := 0x1_0000_0000_0000_0000
  const MAX_SMALL_REQUEST: nat := 232
  const MIN_REQUEST: nat := 15
  const MAX_REQUEST: nat := 0xFFFF_FFFF_FFFF_FF80
  const MAX_SIZE: nat := 0xFFFF_FFFF_FFFF_FFFF
  const SYS_ALLOC_PADDING: nat := 88

  type Granule = g: nat | g > 0 witness 1

  // ------------------------------------------------------------------- requests

  function PadRequest(bytes: nat): nat {
    (bytes + OVERHEAD + 7) / 8 * 8
  }

  /** The chunk size for a request. */
  function RequestSize(bytes: nat): nat {
    if bytes <= MAX_SMALL_REQUEST then (if bytes < MIN_REQUEST then MIN_CHUNK else PadRequest(bytes))
    else if bytes >= MAX_REQUEST then MAX_SIZE
    else PadRequest(bytes)
  }

  lemma RequestFits(bytes: nat)
    ensures bytes < MAX_REQUEST ==>
              var nb := RequestSize(bytes);
              bytes + OVERHEAD <= nb < bytes + OVERHEAD + MIN_CHUNK && nb % 8 == 0 && MIN_CHUNK <= nb < MAX_SIZE
    ensures bytes <= MAX_SMALL_REQUEST ==> IsSmall(RequestSize(bytes)) && RequestSize(bytes) < 256
    ensures bytes > MAX_SMALL_REQUEST ==> RequestSize(bytes) >= 256
  {
  }

  /** Nothing in the heap is big enough. */
  ghost predicate Exhausted(s: Space, nb: nat) {
    s.t.topsize <= nb && forall c :: c in FreeOf(s.t) ==> c.size < nb
  }

  /** The designated victim fits at least as tightly as every binned large chunk that fits at all. */
  ghost predicate Declines(s: Space, nb: nat) {
    forall c :: c in Binned(s) && !IsSmall(c.size) && nb <= c.size ==> nb <= s.dvsize <= c.size
  }

  // ---------------------------------------------------------------- new states

  ghost function TakenWhole(s: Space, p: Addr, size: nat, footer: nat): Space
    requires p + size in s.t.h && |s.bins.small| == BINS && |s.bins.trees| == TREE_BINS
  {
    s.(t := Occupied(s.t, p, size, footer), bins := UnlinkChunk(s.bins, p, size))
  }

  ghost function TakenSplit(s: Space, p: Addr, nb: nat, rsize: nat, footer: nat): Space
    requires |s.bins.small| == BINS && |s.bins.trees| == TREE_BINS
  {
    s.(t := Split(s.t, p, nb, rsize, footer), bins := InsertChunk(UnlinkChunk(s.bins, p, nb + rsize), p + nb, rsize))
  }

  ghost function TakenSplitDv(s: Space, p: Addr, nb: nat, rsize: nat, footer: nat): Space
    requires |s.bins.small| == BINS && |s.bins.trees| == TREE_BINS
  {
    Space(Split(s.t, p, nb, rsize, footer), ReplaceDv(UnlinkChunk(s.bins, p, nb + rsize), s.dv, s.dvsize), p + nb,
          rsize)
  }

  function AlignUp(x: nat, g: nat): (r: nat)
    requires g > 0
  {
    Quotient(x + g - 1, g);
    (x + g - 1) / g * g
  }

  // ------------------------------------------------------------------- lemmas

  /** The first chunk of a marked small bin is there for the taking. */
  lemma FirstOfBin(s: Space, i: nat)
    requires Sound(s) && Has(s.bins.smallmap, i)
    ensures i < BINS && |s.bins.small| == BINS && |s.bins.trees| == TREE_BINS && s.bins.small[i] != []
    ensures Chunk(s.bins.small[i][0], 8 * i) in Binned(s)
  {
    hide FreeOf, Tiled, SmallOf, LargeFiled, Has, Binned, DvOk;
    HasBound(s.bins.smallmap, i);
    assert SmallFiled(s.bins.small[i], Has(s.bins.smallmap, i), Binned(s), i);
    var p := s.bins.small[i][0];
    assert p in multiset(s.bins.small[i]);
    SmallMore(Binned(s), p, i);
  }

  /** A binned chunk is a free chunk. */
  lemma BinnedFacts(s: Space, c: Chunk)
    requires Sound(s) && c in Binned(s)
    ensures c in FreeOf(s.t) && FreeSize(c.size) && c.at + c.size in s.t.h && c.at > 0 && c.size > 0
    ensures |s.bins.small| == BINS && |s.bins.trees| == TREE_BINS
  {
    hide FreeOf, Tiled, Filed, DvOk;
    FreeSizes(s.t, c);
    FiledShape(s.bins, Binned(s));
  }

  lemma SoundShape(s: Space)
    requires Sound(s)
    ensures |s.bins.small| == BINS && |s.bins.trees| == TREE_BINS && s.dvsize < WORD && s.t.topsize < MAX_SIZE
    ensures s.dvsize < MAX_SIZE && Filed(s.bins, Binned(s))
  {
    hide FreeOf, Tiled, Filed;
    FiledShape(s.bins, Binned(s));
    EndsFacts(s.t);
    ChunkFacts(s.t, s.t.top);
    if s.dvsize != 0 {
      FreeSizes(s.t, Chunk(s.dv, s.dvsize));
    }
  }

  /** No small bin from that of `nb` on is in use, no large chunk fits, the victim is too small: nothing fits. */
  lemma NothingFits(s: Space, nb: nat)
    requires Sound(s) && s.dvsize < nb && s.t.topsize <= nb
    requires IsSmall(nb) ==> forall j :: SmallIndex(nb) <= j ==> !Has(s.bins.smallmap, j)
    requires forall c :: c in Binned(s) && !IsSmall(c.size) ==> c.size < nb
    ensures Exhausted(s, nb)
  {
    hide FreeOf, Tiled, Filed, DvOk, Has;
    forall c | c in FreeOf(s.t)
      ensures c.size < nb
    {
      if c in Binned(s) && IsSmall(c.size) && IsSmall(nb) {
        SmallUsed(s, c);
      }
    }
  }

  lemma SmallUsed(s: Space, c: Chunk)
    requires Sound(s) && c in Binned(s) && IsSmall(c.size)
    ensures Has(s.bins.smallmap, SmallIndex(c.size)) && c.size == 8 * SmallIndex(c.size)
  {
    hide FreeOf, Tiled, SmallOf, LargeFiled, Has, Binned, DvOk;
    var i := SmallIndex(c.size);
    SmallFit(c.size);
    assert SmallFiled(s.bins.small[i], Has(s.bins.smallmap, i), Binned(s), i);
    SmallMore(Binned(s), c.at, i);
    assert c == Chunk(c.at, 8 * i);
  }

  lemma NoTrees(s: Space)
    requires Sound(s) && s.bins.treemap == 0
    ensures forall c :: c in Binned(s) ==> IsSmall(c.size)
  {
    hide FreeOf, Tiled, LargeOf, SmallFiled, Has, Binned, DvOk, IndexOf, Inv, Chunks;
    forall c | c in Binned(s)
      ensures IsSmall(c.size)
    {
      var i := IndexOf(c.size);
      NothingIn(i);
      assert LargeFiled(s.bins.trees[i], Has(s.bins.treemap, i), Binned(s), i);
      EmptyBinHas(s.bins.trees[i], Binned(s), c);
    }
  }

  lemma EmptyBinHas(t: Trie, f: set<Chunk>, c: Chunk)
    requires LargeFiled(t, false, f, IndexOf(c.size)) && c in f
    ensures IsSmall(c.size)
  {
    hide IndexOf, Inv;
    assert Chunks(t) == multiset{};
    assert c !in multiset(LargeOf(f, IndexOf(c.size)));
    assert c in LargeOf(f, IndexOf(c.size)) <==> !IsSmall(c.size);
  }

  /** The comparison of the remainders is right also when the victim is too small and the difference wraps around. */
  lemma VictimTighter(s: Space, v: Trie, rsize: nat, nb: nat)
    requires Sound(s) && 256 <= nb < Words() && s.dvsize < Words() && BestLarge(v, rsize, Binned(s), nb)
    requires v.Node? ==> v.size < Words()
    ensures Declines(s, nb) <==> !(v.Node? && rsize < Minus(s.dvsize, nb))
  {
    hide Sound, Binned, Words;
    assert v.Node? ==> Chunk(v.ring[0], v.size) in Binned(s);
  }

  class MSpace {
    // the memory of the region: the head words and the `prev_foot` words
    var heads: Heads
    var feet: Feet
    // malloc_state
    var smallmap: bv32
    var treemap: bv32
    var dvsize: nat
    var topsize: nat
    var dv: Addr
    var top: Addr
    var smallbins: seq<seq<Addr>>
    var treebins: seq<Trie>
    /** The segment: where it begins, and how many bytes the system has given for it. */
    const segbase: nat
    var segsize: nat
    /** What the foot of a used chunk holds. */
    const footer: nat
    const granularity: Granule

    ghost var base: Addr
    ghost var starts: set<Addr>
    /** The blocks handed out and not yet freed, with the bytes asked for. */
    ghost var live: map<Addr, nat>

    /** The end of the memory obtained from the system. */
    function Limit(): nat
      reads this`segsize
    {
      segbase + segsize
    }

    ghost function TileView(): Tiling
      reads this`heads, this`feet, this`starts, this`base, this`top, this`topsize, this`segsize
    {
      Tiling(heads, feet, starts, base, top, topsize, Limit())
    }

    function BinView(): Bins
      reads this`smallbins, this`smallmap, this`treebins, this`treemap
    {
      Bins(smallbins, smallmap, treebins, treemap)
    }

    ghost function View(): Space
      reads this`heads, this`feet, this`starts, this`base, this`top, this`topsize, this`segsize
      reads this`smallbins, this`smallmap, this`treebins, this`treemap, this`dv, this`dvsize
    {
      Space(TileView(), BinView(), dv, dvsize)
    }

    ghost predicate Valid()
      reads this
    {
      Sound(View()) && Owned(View().t, live)
    }

    // ------------------------------------------------------------ initialisation

    /** `init_user_mstate`: the region from `tbase` holds the allocator's record and the top chunk. */
    constructor (tbase: nat, tsize: nat, record: nat, foot: nat, granule: Granule)
      requires 0 < tbase && tbase + tsize < WORD && record % 8 == 0 && MIN_CHUNK <= record
      requires AlignAsChunk(tbase) + record + TOP_FOOT_SIZE < tbase + tsize
      ensures Valid() && live == map[] && base == AlignAsChunk(tbase) && segbase == tbase && Limit() == tbase + tsize
      ensures granularity == granule && footer == foot
    {
      var p := AlignAsChunk(tbase);
      var mn := p + record;
      var size := tbase + tsize - mn - TOP_FOOT_SIZE;
      footer, granularity, segbase, segsize := foot, granule, tbase, tsize;
      heads := map[p := Head(record, true, true), mn := Head(size, true, false),
                   mn + size := Trailer()];
      feet := map[];
      smallmap, treemap, smallbins := 0, 0, seq(BINS, i => []);
      treebins := seq(TREE_BINS, i => Nil);
      dv, dvsize, top, topsize := 0, 0, mn, size;
      base, starts, live := p, {p, mn}, map[];
      new;
      hide Sound, Owned;
      FreshHeap(View(), record, size);
    }

    // ------------------------------------------------------------ head and foot

    /** Sets the in-use bit of a chunk, the `pinuse` bit of the next one and the foot. */
    method SetInuseAndPinuse(p: Addr, s: nat)
      requires p + s in heads && s > 0
      modifies this`heads, this`feet
      ensures View() == old(View()).(t := Occupied(old(TileView()), p, s, footer))
    {
      heads := heads[p := Head(s, true, true)];
      heads := heads[p + s := heads[p + s].(pinuse := true)];
      feet := feet[p + s := footer];
    }

    /** The front of a free chunk becomes used, the rest a free chunk. */
    method SplitFree(p: Addr, nb: nat, rsize: nat)
      modifies this`heads, this`feet, this`starts
      ensures View() == old(View()).(t := Split(old(TileView()), p, nb, rsize, footer))
    {
      heads := heads[p := Head(nb, true, true)];
      feet := feet[p + nb := footer];
      heads := heads[p + nb := Head(rsize, true, false)];
      feet := feet[p + nb + rsize := rsize];
      starts := starts + {p + nb};
    }

    // --------------------------------------------------------------------- bins

    method InsertSmallChunk(p: Addr, s: nat)
      requires |smallbins| == BINS && |treebins| == TREE_BINS && IsSmall(s)
      modifies this`smallbins, this`smallmap
      ensures View() == old(View()).(bins := InsertChunk(old(BinView()), p, s))
    {
      var i := SmallIndex(s);
      if !IsMarked(smallmap, i) {
        smallmap := Mark(smallmap, i);
        smallbins := smallbins[i := [p]];
      } else {
        smallbins := smallbins[i := [p] + smallbins[i]];
      }
    }

    method InsertLargeChunk(p: Addr, s: nat)
      requires |smallbins| == BINS && |treebins| == TREE_BINS && !IsSmall(s) && s < Words()
      modifies this`treebins, this`treemap
      ensures View() == old(View()).(bins := InsertChunk(old(BinView()), p, s))
    {
      var i := TreeIndexOf(s);
      if !IsMarked(treemap, i) {
        treemap := Mark(treemap, i);
        treebins := treebins[i := Node([p], s, Nil, Nil)];
      } else {
        treebins := treebins[i := Insert(treebins[i], BitsOf(i), s, p)];
      }
    }

    method InsertFreeChunk(p: Addr, s: nat)
      requires |smallbins| == BINS && |treebins| == TREE_BINS && s < Words()
      modifies this`smallbins, this`smallmap, this`treebins, this`treemap
      ensures View() == old(View()).(bins := InsertChunk(old(BinView()), p, s))
    {
      if IsSmall(s) {
        InsertSmallChunk(p, s);
      } else {
        InsertLargeChunk(p, s);
      }
    }

    method UnlinkSmallChunk(p: Addr, s: nat)
      requires |smallbins| == BINS && |treebins| == TREE_BINS && IsSmall(s)
      modifies this`smallbins, this`smallmap
      ensures View() == old(View()).(bins := UnlinkChunk(old(BinView()), p, s))
    {
      var i := SmallIndex(s);
      if |smallbins[i]| == 1 {
        smallmap := Clear(smallmap, i);
      } else {
        smallbins := smallbins[i := Without(smallbins[i], p)];
      }
    }

    /** Takes the first chunk of small bin `i`. */
    method UnlinkFirstSmallChunk(i: nat) returns (p: Addr)
      requires |smallbins| == BINS && |treebins| == TREE_BINS && i < BINS && smallbins[i] != []
      modifies this`smallbins, this`smallmap
      ensures p == old(smallbins[i][0])
      ensures View() == old(View()).(bins := UnlinkChunk(old(BinView()), p, 8 * i))
    {
      p := smallbins[i][0];
      if |smallbins[i]| == 1 {
        smallmap := Clear(smallmap, i);
      } else {
        smallbins := smallbins[i := smallbins[i][1..]];
      }
    }

    method UnlinkLargeChunk(p: Addr, s: nat)
      requires |smallbins| == BINS && |treebins| == TREE_BINS && !IsSmall(s) && s < Words()
      modifies this`treebins, this`treemap
      ensures View() == old(View()).(bins := UnlinkChunk(old(BinView()), p, s))
    {
      var i := TreeIndexOf(s);
      var t := Unlink(treebins[i], BitsOf(i), s, p);
      treebins := treebins[i := t];
      if t.Nil? {
        treemap := Clear(treemap, i);
      }
    }

    method UnlinkFreeChunk(p: Addr, s: nat)
      requires |smallbins| == BINS && |treebins| == TREE_BINS && s < Words()
      modifies this`smallbins, this`smallmap, this`treebins, this`treemap
      ensures View() == old(View()).(bins := UnlinkChunk(old(BinView()), p, s))
    {
      if IsSmall(s) {
        UnlinkSmallChunk(p, s);
      } else {
        UnlinkLargeChunk(p, s);
      }
    }

    /** The remainder of a small request becomes the designated victim; the old one goes to its bin. */
    method ReplaceVictim(p: Addr, s: nat)
      requires |smallbins| == BINS && |treebins| == TREE_BINS && IsSmall(dvsize)
      modifies this`smallbins, this`smallmap, this`dv, this`dvsize
      ensures View() == old(View()).(bins := ReplaceDv(old(BinView()), old(dv), old(dvsize)), dv := p, dvsize := s)
    {
      if dvsize != 0 {
        InsertSmallChunk(dv, dvsize);
      }
      dvsize := s;
      dv := p;
    }

    // ------------------------------------------------------------- small requests

    /** A chunk is handed out. */
    ghost predicate Gives(s: Space, mem: Addr, nb: nat)
      reads this`heads, this`feet, this`starts, this`base, this`top, this`topsize, this`segsize
      reads this`smallbins, this`smallmap, this`treebins, this`treemap, this`dv, this`dvsize
    {
      mem - OVERHEAD in heads && Handed(s, View(), Chunk(mem - OVERHEAD, heads[mem - OVERHEAD].size), nb)
    }

    lemma GivesFrom(s: Space, p: Addr, size: nat, nb: nat)
      requires Handed(s, View(), Chunk(p, size), nb) && p in heads && heads[p].size == size
      ensures Gives(s, p + OVERHEAD, nb)
    {
    }

    lemma GivesMem(s: Space, mem: Addr, nb: nat)
      requires Gives(s, mem, nb)
      ensures mem > 0 && mem % 8 == 0
    {
      hide Tiled, Filed, UsedOf, DvOk;
      UsedFacts(View().t, Chunk(mem - OVERHEAD, heads[mem - OVERHEAD].size));
    }

    /** The first chunk of small bin `i`, without remainder. */
    method TakeExact(i: nat, nb: nat) returns (mem: Addr)
      requires Sound(View()) && Has(smallmap, i) && nb <= 8 * i < nb + MIN_CHUNK
      modifies this`heads, this`feet, this`smallbins, this`smallmap
      ensures Gives(old(View()), mem, nb)
    {
      hide *;
      ghost var s := View();
      ViewIs();
      FirstOfBin(s, i);
      BinnedFacts(s, Chunk(smallbins[i][0], 8 * i));
      TakeWhole(s, smallbins[i][0], 8 * i, footer, nb);
      var p := UnlinkFirstSmallChunk(i);
      ViewIs();
      SetInuseAndPinuse(p, 8 * i);
      ViewIs();
      OccupiedHead(s.t, p, 8 * i, footer);
      GivesFrom(s, p, 8 * i, nb);
      mem := p + OVERHEAD;
    }

    /** The first chunk of small bin `i`; what is left of it becomes the designated victim. */
    method TakeWithRemainder(i: nat, nb: nat) returns (mem: Addr)
      requires Sound(View()) && Has(smallmap, i) && nb % 8 == 0 && MIN_CHUNK <= nb <= 8 * i && dvsize < nb
               && IsSmall(nb)
      modifies this`heads, this`feet, this`starts, this`smallbins, this`smallmap, this`dv, this`dvsize
      ensures Gives(old(View()), mem, nb)
    {
      hide *;
      ghost var s := View();
      ViewIs();
      FirstOfBin(s, i);
      BinnedFacts(s, Chunk(smallbins[i][0], 8 * i));
      SmallerVictim(dvsize, nb);
      var p := UnlinkFirstSmallChunk(i);
      ViewIs();
      var rsize := 8 * i - nb;
      if rsize < MIN_CHUNK {
        TakeWhole(s, p, 8 * i, footer, nb);
        SetInuseAndPinuse(p, 8 * i);
        ViewIs();
        OccupiedHead(s.t, p, 8 * i, footer);
        GivesFrom(s, p, 8 * i, nb);
      } else {
        TakeSplitDv(s, p, nb, rsize, footer);
        UnlinkShape(s.bins, p, 8 * i);
        SplitFree(p, nb, rsize);
        ViewIs();
        ReplaceVictim(p + nb, rsize);
        ViewIs();
        SplitHead(s.t, p, nb, rsize, footer);
        GivesFrom(s, p, nb, nb);
      }
      mem := p + OVERHEAD;
    }

    /** `tmalloc_small`: the globally smallest large chunk; what is left of it becomes the designated victim. */
    method TmallocSmall(nb: nat) returns (mem: Addr, ghost chosen: nat)
      requires Sound(View()) && treemap != 0 && nb % 8 == 0 && MIN_CHUNK <= nb && nb < 256 && nb < Words()
               && dvsize < nb
      modifies this`heads, this`feet, this`starts, this`smallbins, this`smallmap, this`treebins, this`treemap, this`dv,
               this`dvsize
      ensures Gives(old(View()), mem, nb)
      ensures Chunk(mem - OVERHEAD, chosen) in Binned(old(View())) && nb <= chosen
      ensures forall c :: c in Binned(old(View())) && !IsSmall(c.size) ==> chosen <= c.size
      ensures chosen - nb < MIN_CHUNK ==>
                mem - OVERHEAD + chosen in old(heads) && |old(smallbins)| == BINS && |old(treebins)| == TREE_BINS
                && View() == TakenWhole(old(View()), mem - OVERHEAD, chosen, footer)
      ensures chosen - nb >= MIN_CHUNK ==>
                |old(smallbins)| == BINS && |old(treebins)| == TREE_BINS
                && View() == TakenSplitDv(old(View()), mem - OVERHEAD, nb, chosen - nb, footer)
    {
      hide *;
      ghost var s := View();
      ViewIs();
      SoundShape(s);
      SmallIs(nb);
      SmallerVictim(dvsize, nb);
      var v, rsize := FindSmallest(BinView(), nb, Binned(s));
      AllLargeFit(s, v, rsize, nb);
      LargeFits(s, v, rsize, nb);
      var p := v.ring[0];
      chosen := v.size;
      BinnedFacts(s, Chunk(p, v.size));
      UnlinkLargeChunk(p, v.size);
      ViewIs();
      if rsize < MIN_CHUNK {
        TakeWhole(s, p, v.size, footer, nb);
        SetInuseAndPinuse(p, v.size);
        ViewIs();
        OccupiedHead(s.t, p, v.size, footer);
        GivesFrom(s, p, v.size, nb);
        WholeIs(s, p, v.size, footer);
      } else {
        TakeSplitDv(s, p, nb, rsize, footer);
        UnlinkShape(s.bins, p, v.size);
        SplitFree(p, nb, rsize);
        ViewIs();
        ReplaceVictim(p + nb, rsize);
        ViewIs();
        SplitHead(s.t, p, nb, rsize, footer);
        GivesFrom(s, p, nb, nb);
        SplitDvIs(s, p, nb, rsize, footer);
      }
      mem := p + OVERHEAD;
    }

    // ------------------------------------------------------------- large requests

    /** `tmalloc_large`: the best fitting large chunk, unless the designated victim fits as tightly. */
    method TmallocLarge(nb: nat) returns (mem: Addr, ghost chosen: nat)
      requires Sound(View()) && nb % 8 == 0 && 256 <= nb < Words()
      modifies this`heads, this`feet, this`starts, this`smallbins, this`smallmap, this`treebins, this`treemap
      ensures mem == 0 <==> Declines(old(View()), nb)
      ensures mem == 0 ==> View() == old(View())
      ensures mem != 0 ==> Gives(old(View()), mem, nb)
      ensures mem != 0 ==> Chunk(mem - OVERHEAD, chosen) in Binned(old(View())) && nb <= chosen
      ensures mem != 0 ==> forall c :: c in Binned(old(View())) && !IsSmall(c.size) && nb <= c.size ==> chosen <= c.size
      ensures mem != 0 && chosen - nb < MIN_CHUNK ==>
                mem - OVERHEAD + chosen in old(heads) && |old(smallbins)| == BINS && |old(treebins)| == TREE_BINS
                && View() == TakenWhole(old(View()), mem - OVERHEAD, chosen, footer)
      ensures mem != 0 && chosen - nb >= MIN_CHUNK ==>
                |old(smallbins)| == BINS && |old(treebins)| == TREE_BINS
                && View() == TakenSplit(old(View()), mem - OVERHEAD, nb, chosen - nb, footer)
    {
      hide *;
      ghost var s := View();
      ViewIs();
      SoundShape(s);
      WordsIs();
      WordIs();
      MinPositive();
      var v, rsize := FindLarge(BinView(), nb, Binned(s));
      LargeFits(s, v, rsize, nb);
      VictimTighter(s, v, rsize, nb);
      chosen := 0;
      if v.Node? && rsize < Minus(dvsize, nb) {
        var p := v.ring[0];
        chosen := v.size;
        BinnedFacts(s, Chunk(p, v.size));
        UnlinkLargeChunk(p, v.size);
        ViewIs();
        if rsize < MIN_CHUNK {
          TakeWhole(s, p, v.size, footer, nb);
          SetInuseAndPinuse(p, v.size);
          ViewIs();
          OccupiedHead(s.t, p, v.size, footer);
          GivesFrom(s, p, v.size, nb);
          WholeIs(s, p, v.size, footer);
        } else {
          TakeSplit(s, p, nb, rsize, footer);
          UnlinkShape(s.bins, p, v.size);
          SplitFree(p, nb, rsize);
          ViewIs();
          InsertFreeChunk(p + nb, rsize);
          ViewIs();
          SplitHead(s.t, p, nb, rsize, footer);
          GivesFrom(s, p, nb, nb);
          SplitIs(s, p, nb, rsize, footer);
        }
        mem := p + OVERHEAD;
        OverheadPositive(p);
      } else {
        mem := 0;
      }
    }

    // --------------------------------------------------- victim, top and system

    /** From the designated victim. */
    method FromVictim(nb: nat) returns (mem: Addr)
      requires Sound(View()) && nb % 8 == 0 && MIN_CHUNK <= nb <= dvsize
      modifies this`heads, this`feet, this`starts, this`dv, this`dvsize
      ensures Gives(old(View()), mem, nb)
    {
      hide *;
      ghost var s := View();
      ViewIs();
      MinPositive();
      var rsize := dvsize - nb;
      var p := dv;
      if rsize >= MIN_CHUNK {
        DvSplit(s, footer, nb);
        dv := p + nb;
        dvsize := rsize;
        ViewIs();
        SplitFree(p, nb, rsize);
        ViewIs();
        SplitHead(s.t, p, nb, rsize, footer);
        GivesFrom(s, p, nb, nb);
      } else {
        DvWhole(s, footer, nb);
        var dvs := dvsize;
        dvsize := 0;
        dv := 0;
        ViewIs();
        SetInuseAndPinuse(p, dvs);
        ViewIs();
        OccupiedHead(s.t, p, dvs, footer);
        GivesFrom(s, p, dvs, nb);
      }
      mem := p + OVERHEAD;
    }

    /** From the front of the top chunk. */
    method FromTop(nb: nat) returns (mem: Addr)
      requires Sound(View()) && nb % 8 == 0 && MIN_CHUNK <= nb < topsize
      modifies this`heads, this`feet, this`starts, this`top, this`topsize
      ensures Gives(old(View()), mem, nb)
    {
      hide Sound, Handed, Gives, Owned;
      ghost var s := View();
      ViewIs();
      TopSplit(s, footer, nb);
      var p := top;
      topsize := topsize - nb;
      top := p + nb;
      heads := heads[p := Head(nb, true, true)];
      heads := heads[top := Head(topsize, true, false)];
      feet := feet[top := footer];
      starts := starts + {top};
      ViewIs();
      assert View().t == SplitTop(s.t, nb, footer);
      GivesFrom(s, p, nb, nb);
      mem := p + OVERHEAD;
    }

    /** What the system is asked for. */
    function SystemBytes(nb: nat): nat
    {
      var x := (nb + SYS_ALLOC_PADDING) % WORD;
      AlignUp(x, granularity) % WORD
    }

    /** The system gives that much behind the segment, and inside the address space. */
    ghost predicate SystemGives(s: Space, nb: nat, granted: bool)
    {
      granted && SystemBytes(nb) > nb && s.t.limit + SystemBytes(nb) < WORD
    }

    /**
     * `sys_alloc`, with a system that refuses or gives a region that begins where the segment ends; a region always
     * ends inside the address space.
     */
    method SysAlloc(nb: nat, granted: bool) returns (mem: Addr)
      requires Sound(View()) && MIN_CHUNK <= nb < WORD && (nb % 8 == 0 || nb == MAX_SIZE)
      modifies this`heads, this`feet, this`starts, this`top, this`topsize, this`segsize
      ensures mem == 0 ==> View() == old(View())
      ensures mem == 0 <==> !SystemGives(old(View()), nb, granted)
      ensures mem != 0 ==> Gives(Grown(old(View()), SystemBytes(nb)), mem, nb)
      ensures Limit() == old(Limit()) + if mem != 0 then SystemBytes(nb) else 0
    {
      hide Sound, Handed, Gives, Owned, SystemBytes, Tiled;
      ghost var s := View();
      var tsize := SystemBytes(nb);
      BelowWord(nb);
      if tsize > nb && granted && Limit() + tsize < WORD {
        TopGrown(s, tsize);
        heads := heads[top := Head(topsize + tsize, true, false)];
        segsize := segsize + tsize;
        topsize := topsize + tsize;
        heads := heads[top + topsize := Trailer()];
        ghost var s' := View();
        assert s' == Grown(s, tsize);
        SoundShape(s');
        mem := FromTop(nb);
        GivesMem(s', mem, nb);
      } else {
        mem := 0;
      }
    }

    lemma BelowWord(nb: nat)
      ensures SystemBytes(nb) < WORD
    {
    }

    /** The request is served from the heap if that can be, else from what the system adds to the segment. */
    ghost predicate Serves(s: Space, mem: Addr, nb: nat, granted: bool)
      reads this`heads, this`feet, this`starts, this`base, this`top, this`topsize, this`segsize
      reads this`smallbins, this`smallmap, this`treebins, this`treemap, this`dv, this`dvsize
    {
      if Exhausted(s, nb) then SystemGives(s, nb, granted) && Gives(Grown(s, SystemBytes(nb)), mem, nb)
      else Gives(s, mem, nb)
    }

    lemma ServesIs(s: Space, mem: Addr, nb: nat, granted: bool)
      ensures Serves(s, mem, nb, granted) <==>
                if Exhausted(s, nb) then SystemGives(s, nb, granted) && Gives(Grown(s, SystemBytes(nb)), mem, nb)
                else Gives(s, mem, nb)
    {
    }

    lemma ServesMem(s: Space, mem: Addr, nb: nat, granted: bool)
      requires Serves(s, mem, nb, granted)
      ensures mem > 0 && mem % 8 == 0
    {
      hide Exhausted, Gives, SystemBytes;
      if Exhausted(s, nb) {
        GivesMem(Grown(s, SystemBytes(nb)), mem, nb);
      } else {
        GivesMem(s, mem, nb);
      }
    }

    /** By how much the segment has grown. */
    ghost function Growth(s: Space, nb: nat, granted: bool): nat {
      if Exhausted(s, nb) && SystemGives(s, nb, granted) then SystemBytes(nb) else 0
    }

    lemma ServesLimit(s: Space, mem: Addr, nb: nat, granted: bool)
      requires Serves(s, mem, nb, granted)
      ensures View().t.limit == s.t.limit + Growth(s, nb, granted)
    {
      hide Exhausted, SystemBytes, Sound;
    }

    // ------------------------------------------------------------------- malloc

    /** A small request: an exact bin, the next bin, the tree bins, the victim, the top chunk, the system. */
    method MallocSmall(nb: nat, granted: bool) returns (mem: Addr)
      requires Sound(View()) && nb % 8 == 0 && MIN_CHUNK <= nb < 256
      modifies this`heads, this`feet, this`starts, this`smallbins, this`smallmap, this`treebins, this`treemap, this`dv,
               this`dvsize, this`top, this`topsize, this`segsize
      ensures mem != 0 ==> Serves(old(View()), mem, nb, granted)
      ensures mem == 0 ==> View() == old(View()) && Exhausted(View(), nb) && !SystemGives(old(View()), nb, granted)
    {
      hide *;
      ghost var s := View();
      ViewIs();
      SmallIs(nb);
      WordsIs();
      WordIs();
      MinPositive();
      var idx := SmallIndex(nb);
      IndexIs(nb);
      var smallbits := From(smallmap, idx);
      PairAt(smallmap, idx);
      RestFrom(smallmap, idx);
      if LowTwo(smallbits) {
        idx := ExactBin(smallmap, idx);
        BinServes(s, idx, nb);
        mem := TakeExact(idx, nb);
        ServesIs(s, mem, nb, granted);
        GivesMem(s, mem, nb);
        return;
      }
      if nb > dvsize {
        if smallbits != 0 {
          var leftbits := Above(ShiftUp(smallbits, Ix(idx)), idx);
          FirstAbove(smallmap, idx);
          var i := FirstBin(leftbits);
          BinServes(s, i, nb);
          mem := TakeWithRemainder(i, nb);
          ServesIs(s, mem, nb, granted);
          GivesMem(s, mem, nb);
          return;
        }
        if treemap != 0 {
          ghost var chosen;
          mem, chosen := TmallocSmall(nb);
          BinnedServes(s, Chunk(mem - OVERHEAD, chosen), nb);
          ServesIs(s, mem, nb, granted);
          GivesMem(s, mem, nb);
          return;
        }
      }
      if nb <= dvsize {
        VictimServes(s, nb);
        mem := FromVictim(nb);
        ServesIs(s, mem, nb, granted);
        GivesMem(s, mem, nb);
      } else if nb < topsize {
        TopServes(s, nb);
        mem := FromTop(nb);
        ServesIs(s, mem, nb, granted);
        GivesMem(s, mem, nb);
      } else {
        NoTrees(s);
        NothingFits(s, nb);
        mem := SysAlloc(nb, granted);
        ServesIs(s, mem, nb, granted);
      }
    }
    /** A large request: the tree bins, the victim, the top chunk, the system. */
    method MallocLarge(bytes: nat, granted: bool) returns (mem: Addr)
      requires Sound(View()) && MAX_SMALL_REQUEST < bytes
      modifies this`heads, this`feet, this`starts, this`smallbins, this`smallmap, this`treebins, this`treemap, this`dv,
               this`dvsize, this`top, this`topsize, this`segsize
      ensures mem != 0 ==> bytes < MAX_REQUEST && Serves(old(View()), mem, RequestSize(bytes), granted)
      ensures mem == 0 ==> View() == old(View()) && Exhausted(View(), RequestSize(bytes))
      ensures mem == 0 ==> !SystemGives(old(View()), RequestSize(bytes), granted)
    {
      hide *;
      ghost var s := View();
      ViewIs();
      WordsIs();
      WordIs();
      MinPositive();
      RequestFits(bytes);
      LargeRequests(bytes);
      SoundShape(s);
      var nb;
      ghost var tried := false;
      if bytes >= MAX_REQUEST {
        nb := MAX_SIZE;
      } else {
        nb := PadRequest(bytes);
        if treemap != 0 {
          ghost var chosen;
          mem, chosen := TmallocLarge(nb);
          if mem != 0 {
            BinnedServes(s, Chunk(mem - OVERHEAD, chosen), nb);
            ServesIs(s, mem, nb, granted);
            return;
          }
          tried := true;
          ViewIs();
        }
      }
      if nb <= dvsize {
        VictimServes(s, nb);
        mem := FromVictim(nb);
        ServesIs(s, mem, nb, granted);
        GivesMem(s, mem, nb);
      } else if nb < topsize {
        TopServes(s, nb);
        mem := FromTop(nb);
        ServesIs(s, mem, nb, granted);
        GivesMem(s, mem, nb);
      } else {
        LargeNothing(s, nb, tried);
        mem := SysAlloc(nb, granted);
        ServesIs(s, mem, nb, granted);
        NoneForMax(s, granted);
      }
    }

    lemma NoneForMax(s: Space, granted: bool)
      ensures !SystemGives(s, MAX_SIZE, granted)
    {
      hide SystemBytes;
      BelowWord(MAX_SIZE);
    }

    /**
     * `mspace_malloc`: 0 if and only if nothing in the heap is big enough and the system does not help; the segment
     * grows only if nothing in the heap is big enough, and then by what the system was asked for.
     */
    method Malloc(bytes: nat, granted: bool) returns (mem: Addr)
      requires Valid()
      modifies this
      ensures Valid() && base == old(base)
      ensures mem != 0 ==> mem !in old(live) && live == old(live)[mem := bytes]
                           && Serves(old(View()), mem, RequestSize(bytes), granted)
      ensures mem != 0 ==> mem % 8 == 0 && bytes < MAX_REQUEST
      ensures mem == 0 ==> View() == old(View()) && live == old(live)
      ensures mem == 0 <==> Exhausted(old(View()), RequestSize(bytes))
                            && !SystemGives(old(View()), RequestSize(bytes), granted)
      ensures Limit() == old(Limit()) + Growth(old(View()), RequestSize(bytes), granted)
    {
      hide *;
      ghost var s := View();
      ValidFacts();
      RequestFits(bytes);
      var nb := RequestSize(bytes);
      if bytes <= MAX_SMALL_REQUEST {
        SmallRequests(bytes);
        mem := MallocSmall(nb, granted);
      } else {
        mem := MallocLarge(bytes, granted);
      }
      GrowthIs(s, nb, granted);
      if mem != 0 {
        ServesIs(s, mem, nb, granted);
        ServesMem(s, mem, nb, granted);
        ServesLimit(s, mem, nb, granted);
        ServesOwned(s, mem, nb, granted, live, bytes);
        live := live[mem := bytes];
      }
      ValidFacts();
    }

    lemma GrowthIs(s: Space, nb: nat, granted: bool)
      ensures Growth(s, nb, granted) ==
              if Exhausted(s, nb) && SystemGives(s, nb, granted) then SystemBytes(nb) else 0
    {
    }

    lemma ValidFacts()
      ensures Valid() <==> Sound(View()) && Owned(View().t, live)
      ensures View().t.base == base && View().t.limit == Limit()
    {
      hide Sound, Owned;
    }

    lemma ServesOwned(s: Space, mem: Addr, nb: nat, granted: bool, blocks: map<Addr, nat>, bytes: nat)
      requires Serves(s, mem, nb, granted) && Sound(s) && Owned(s.t, blocks) && bytes + OVERHEAD <= nb
      ensures mem !in blocks && Sound(View()) && Owned(View().t, blocks[mem := bytes]) && View().t.base == s.t.base
    {
      hide Sound, Owned, View, Exhausted, Gives, SystemBytes, Grown;
      if Exhausted(s, nb) {
        OwnedGrown(s, SystemBytes(nb), blocks);
        TopGrown(s, SystemBytes(nb));
        GivesOwned(Grown(s, SystemBytes(nb)), mem, nb, blocks, bytes);
      } else {
        GivesOwned(s, mem, nb, blocks, bytes);
      }
    }

    lemma GivesOwned(s: Space, mem: Addr, nb: nat, blocks: map<Addr, nat>, bytes: nat)
      requires Gives(s, mem, nb) && Owned(s.t, blocks) && bytes + OVERHEAD <= nb
      ensures mem !in blocks && Sound(View()) && Owned(View().t, blocks[mem := bytes]) && View().t.base == s.t.base
    {
      hide Sound, Owned, UsedOf, View;
      HandedOwned(s, View(), Chunk(mem - OVERHEAD, heads[mem - OVERHEAD].size), nb, blocks, bytes);
    }

    // --------------------------------------------------------------------- free

    /** `set_free_with_pinuse`: the range from `p` to the used chunk `n` becomes a free chunk. */
    method SetFreeWithPinuse(p: Addr, s: nat, n: Addr)
      requires n == p + s && n in heads
      modifies this`heads, this`feet, this`starts
      ensures View() == old(View()).(t := Joined(old(TileView()), p, n))
    {
      heads := heads[n := heads[n].(pinuse := false)];
      heads := heads[p := Head(s, true, false)];
      feet := feet[n := s];
      starts := Outside(starts, p, n);
    }

    /** `set_size_and_pinuse_of_free_chunk` on a range that ends where a free chunk ended before. */
    method SetFree(p: Addr, s: nat)
      requires p + s in heads && !heads[p + s].pinuse
      modifies this`heads, this`feet, this`starts
      ensures View() == old(View()).(t := Joined(old(TileView()), p, p + s))
    {
      SameHead(heads, p + s);
      heads := heads[p := Head(s, true, false)];
      feet := feet[p + s := s];
      starts := Outside(starts, p, p + s);
    }

    /** The range from `p` on becomes the top chunk. */
    method GiveToTop(p: Addr, s: nat)
      requires p + s == top
      modifies this`heads, this`starts, this`top, this`topsize, this`dv, this`dvsize
      ensures View() == old(View()).(t := ToTop(old(TileView()), p), dv := if p == old(dv) then 0 else old(dv),
                                     dvsize := if p == old(dv) then 0 else old(dvsize))
    {
      starts := Outside(starts, p, top + topsize);
      topsize := topsize + s;
      top := p;
      heads := heads[p := Head(topsize, true, false)];
      if p == dv {
        dv := 0;
        dvsize := 0;
      }
    }

    /** A free neighbour that is not the designated victim leaves its bin. */
    method TakeNeighbour(p: Addr, size: nat, ghost s: Space, ghost f: set<Chunk>)
      requires View() == s.(bins := BinView()) && Sound(s) && Filed(BinView(), f) && f <= Binned(s)
      requires Chunk(p, size) in FreeOf(s.t) && (Chunk(p, size) in Binned(s) ==> Chunk(p, size) in f)
      modifies this`smallbins, this`smallmap, this`treebins, this`treemap
      ensures View() == s.(bins := BinView()) && Filed(BinView(), f - {Chunk(p, size)})
    {
      hide *;
      ViewIs();
      FiledShape(BinView(), f);
      FreeWord(s, Chunk(p, size));
      NeighbourUnlinked(s, BinView(), f, p, size);
      if p != dv {
        UnlinkFreeChunk(p, size);
      }
      ViewIs();
    }

    /** The left neighbour has been dealt with: the range to be freed is `psize` bytes from `q` to `next`. */
    ghost predicate HalfFreed(s: Space, c: Chunk, ps: nat, q: Addr, psize: nat, next: Addr)
      reads this`heads, this`feet, this`starts, this`base, this`top, this`topsize, this`segsize
      reads this`smallbins, this`smallmap, this`treebins, this`treemap, this`dv, this`dvsize
    {
      && View() == s.(bins := BinView()) && Sound(s) && Neighbours(s.t, c, ps, 0)
      && Filed(BinView(), Binned(s) - {Left(c, ps)})
      && q == c.at - ps && psize == c.size + ps && next == c.at + c.size
      && q in heads && heads[q].pinuse && next in heads && next in starts
    }

    /** The neighbour to the right is the top chunk. */
    method MergeWithTop(q: Addr, psize: nat, next: Addr, ghost s: Space, ghost c: Chunk, ghost ps: nat)
      requires HalfFreed(s, c, ps, q, psize, next) && next == top
      modifies this`heads, this`starts, this`top, this`topsize, this`dv, this`dvsize
      ensures Returned(s, View(), c)
    {
      hide *;
      HalfFacts(s, c, ps, q, psize, next);
      ViewIs();
      NoRightOut(s, BinView(), c, ps);
      FreeToTop(s, BinView(), c, ps);
      DeadVictim(s, c, ps);
      GiveToTop(q, psize);
      ViewIs();
    }

    /** The neighbour to the right is the designated victim. */
    method MergeWithVictim(q: Addr, psize: nat, next: Addr, ghost s: Space, ghost c: Chunk, ghost ps: nat)
      requires HalfFreed(s, c, ps, q, psize, next) && next == dv
      modifies this`heads, this`feet, this`starts, this`dv, this`dvsize
      ensures Returned(s, View(), c)
    {
      hide *;
      HalfFacts(s, c, ps, q, psize, next);
      ViewIs();
      RightVictim(s, BinView(), c, ps);
      FreeToDv(s, BinView(), c, ps, dvsize);
      dvsize := dvsize + psize;
      dv := q;
      ViewIs();
      SetFree(q, dvsize);
      ViewIs();
    }

    /** The neighbour to the right is a binned chunk. */
    method MergeWithFree(q: Addr, psize: nat, next: Addr, ghost s: Space, ghost c: Chunk, ghost ps: nat)
      requires HalfFreed(s, c, ps, q, psize, next) && !heads[next].cinuse && next != top && next != dv
      modifies this`heads, this`feet, this`starts, this`smallbins, this`smallmap, this`treebins, this`treemap,
               this`dvsize
      ensures Returned(s, View(), c)
    {
      hide *;
      HalfFacts(s, c, ps, q, psize, next);
      ViewIs();
      var nsize := heads[next].size;
      RightFree(s, c, ps, nsize);
      TakeNeighbour(next, nsize, s, Binned(s) - {Left(c, ps)});
      ViewIs();
      DeadVictim(s, c, ps);
      var size := psize + nsize;
      RightOut(s, BinView(), c, ps, nsize);
      if q == dv {
        FreeToDv(s, BinView(), c, ps, nsize);
        SetFree(q, size);
        ViewIs();
        dvsize := size;
        ViewIs();
      } else {
        FreeToBin(s, BinView(), c, ps, nsize);
        MergedWord(s, c, ps, nsize);
        SetFree(q, size);
        ViewIs();
        InsertFreeChunk(q, size);
        ViewIs();
      }
    }

    /** The neighbour to the right is used. */
    method MergeNothing(q: Addr, psize: nat, next: Addr, ghost s: Space, ghost c: Chunk, ghost ps: nat)
      requires HalfFreed(s, c, ps, q, psize, next) && heads[next].cinuse && q != dv
      modifies this`heads, this`feet, this`starts, this`smallbins, this`smallmap, this`treebins, this`treemap
      ensures Returned(s, View(), c)
    {
      hide *;
      HalfFacts(s, c, ps, q, psize, next);
      ViewIs();
      NoRightOut(s, BinView(), c, ps);
      CanMerge(s.t, c, ps, 0);
      DeadVictim(s, c, ps);
      NotRightVictim(s, c);
      FreeToBin(s, BinView(), c, ps, 0);
      MergedWord(s, c, ps, 0);
      SetFreeWithPinuse(q, psize, next);
      ViewIs();
      InsertFreeChunk(q, psize);
      ViewIs();
    }

    /** The neighbour to the left is the designated victim, that to the right is used. */
    method MergeIntoVictim(q: Addr, psize: nat, next: Addr, ghost s: Space, ghost c: Chunk, ghost ps: nat)
      requires HalfFreed(s, c, ps, q, psize, next) && heads[next].cinuse && q == dv
      modifies this`heads, this`feet, this`starts, this`dvsize
      ensures Returned(s, View(), c)
    {
      hide *;
      HalfFacts(s, c, ps, q, psize, next);
      ViewIs();
      NoRightOut(s, BinView(), c, ps);
      CanMerge(s.t, c, ps, 0);
      DeadVictim(s, c, ps);
      FreeToDv(s, BinView(), c, ps, 0);
      dvsize := psize;
      ViewIs();
      SetFreeWithPinuse(q, psize, next);
      ViewIs();
    }

    /** `mspace_free` on the used chunk at `p`. */
    method FreeChunk(p: Addr)
      requires Sound(View()) && p in heads && Chunk(p, heads[p].size) in UsedOf(TileView())
      modifies this`heads, this`feet, this`starts, this`smallbins, this`smallmap, this`treebins, this`treemap, this`dv,
               this`dvsize, this`top, this`topsize
      ensures Returned(old(View()), View(), Chunk(p, old(heads[p].size)))
    {
      hide *;
      ghost var s := View();
      ViewIs();
      var psize := heads[p].size;
      ghost var c := Chunk(p, psize);
      SoundTiled(s);
      UsedFacts(s.t, c);
      var q, next := p, p + psize;
      // the run-time checks of the code hold
      assert heads[p].cinuse && p < next && heads[next].pinuse;
      ghost var ps := 0;
      if heads[p].pinuse {
        NoLeft(s, c);
        HalfFrom(s, c, 0, q, psize, next);
      } else {
        LeftFree(s, c);
        var prevsize := feet[p];
        q, ps := p - prevsize, prevsize;
        psize := psize + prevsize;
        TakeNeighbour(q, prevsize, s, Binned(s));
        ViewIs();
        HalfFrom(s, c, ps, q, psize, next);
        if q == dv && heads[next].cinuse {
          MergeIntoVictim(q, psize, next, s, c, ps);
          return;
        }
      }
      if !heads[next].cinuse {
        if next == top {
          MergeWithTop(q, psize, next, s, c, ps);
        } else if next == dv {
          MergeWithVictim(q, psize, next, s, c, ps);
        } else {
          MergeWithFree(q, psize, next, s, c, ps);
        }
      } else {
        MergeNothing(q, psize, next, s, c, ps);
      }
    }

    lemma HalfFacts(s: Space, c: Chunk, ps: nat, q: Addr, psize: nat, next: Addr)
      requires HalfFreed(s, c, ps, q, psize, next)
      ensures View() == s.(bins := BinView()) && Sound(s) && Neighbours(s.t, c, ps, 0)
      ensures Filed(BinView(), Binned(s) - {Left(c, ps)})
      ensures q == c.at - ps && psize == c.size + ps && next == c.at + c.size
      ensures q in heads && heads[q].pinuse && next in heads && next in starts && starts == s.t.starts
      ensures |smallbins| == BINS && |treebins| == TREE_BINS
    {
      hide Sound, Neighbours, Filed;
      FiledShape(BinView(), Binned(s) - {Left(c, ps)});
    }

    lemma HalfFrom(s: Space, c: Chunk, ps: nat, q: Addr, psize: nat, next: Addr)
      requires View() == s.(bins := BinView()) && Sound(s) && Neighbours(s.t, c, ps, 0)
      requires Filed(BinView(), Binned(s) - {Left(c, ps)})
      requires q == c.at - ps && psize == c.size + ps && next == c.at + c.size
      requires q in s.t.h && s.t.h[q].pinuse && next in s.t.h && next in s.t.starts
      ensures HalfFreed(s, c, ps, q, psize, next)
    {
      hide Sound, Neighbours, Filed;
    }

    /** `mspace_free`: a null pointer is ignored, a block handed out is taken back. */
    method Free(mem: Addr)
      requires Valid() && (mem == 0 || mem in live)
      modifies this
      ensures Valid() && base == old(base) && Limit() == old(Limit())
      ensures mem == 0 ==> View() == old(View()) && live == old(live)
      ensures mem != 0 ==> live == old(live) - {mem}
      ensures mem != 0 ==> mem - OVERHEAD in old(heads)
      ensures mem != 0 ==> Returned(old(View()), View(), Chunk(mem - OVERHEAD, old(heads)[mem - OVERHEAD].size))
    {
      hide *;
      ghost var s := View();
      ValidFacts();
      if mem == 0 {
        return;
      }
      ViewIs();
      BlockFacts(s.t, live, mem);
      var p := mem - OVERHEAD;
      ghost var c := Chunk(p, heads[p].size);
      FreeChunk(p);
      BackAgain(mem);
      ReturnedOwned(s, View(), c, live);
      ReturnedFacts(s, View(), c);
      live := live - {mem};
      ValidFacts();
    }

    /** `mspace_usable_size`: how many bytes the block really has. */
    method UsableSize(mem: Addr) returns (n: nat)
      requires Valid() && (mem == 0 || mem in live)
      ensures mem == 0 ==> n == 0
      ensures mem != 0 ==> mem - OVERHEAD in heads && n == heads[mem - OVERHEAD].size - OVERHEAD && live[mem] <= n
    {
      hide *;
      n := 0;
      if mem != 0 {
        ghost var s := View();
        ValidFacts();
        ViewIs();
        BlockFacts(s.t, live, mem);
        SoundTiled(s);
        UsedFacts(s.t, Chunk(mem - OVERHEAD, heads[mem - OVERHEAD].size));
        var p := mem - OVERHEAD;
        if heads[p].cinuse {
          n := heads[p].size - OVERHEAD;
        }
      }
    }

    lemma ViewIs()
      ensures View().t.feet == feet && View().t.starts == starts
      ensures View().t.h == heads && View().bins.small == smallbins && View().bins.smallmap == smallmap
      ensures View().bins.trees == treebins && View().bins.treemap == treemap && View().bins == BinView()
      ensures View().t == TileView() && View().dv == dv && View().dvsize == dvsize && View().t.top == top
      ensures View().t.topsize == topsize
    {
    }
  }

  lemma IndexIs(nb: nat)
    requires nb % 8 == 0 && nb < 256
    ensures SmallIndex(nb) < BINS && nb == 8 * SmallIndex(nb)
  {
  }

  /** A free chunk that is big enough. */
  lemma BinnedServes(s: Space, c: Chunk, nb: nat)
    requires c in Binned(s) && nb <= c.size
    ensures !Exhausted(s, nb)
  {
    hide FreeOf;
  }

  lemma VictimServes(s: Space, nb: nat)
    requires Sound(s) && 0 < nb <= s.dvsize
    ensures !Exhausted(s, nb)
  {
    hide FreeOf, Tiled, Filed;
  }

  lemma TopServes(s: Space, nb: nat)
    requires nb < s.t.topsize
    ensures !Exhausted(s, nb)
  {
  }

  /** A marked small bin of big enough chunks. */
  lemma BinServes(s: Space, i: nat, nb: nat)
    requires Sound(s) && Has(s.bins.smallmap, i) && nb <= 8 * i
    ensures !Exhausted(s, nb)
  {
    hide Sound, Binned, Exhausted;
    FirstOfBin(s, i);
    BinnedServes(s, Chunk(s.bins.small[i][0], 8 * i), nb);
  }

  lemma SmallRequests(bytes: nat)
    requires bytes <= MAX_SMALL_REQUEST
    ensures bytes < MAX_REQUEST && RequestSize(bytes) % 8 == 0 && MIN_CHUNK <= RequestSize(bytes) < 256
  {
  }

  lemma LargeRequests(bytes: nat)
    requires MAX_SMALL_REQUEST < bytes
    ensures RequestSize(bytes) == if bytes >= MAX_REQUEST then MAX_SIZE else PadRequest(bytes)
    ensures bytes < MAX_REQUEST ==> PadRequest(bytes) % 8 == 0 && 256 <= PadRequest(bytes) < MAX_SIZE
    ensures 256 <= MAX_SIZE < WORD
  {
  }

  /** A large request that the tree bins, the victim and the top chunk do not meet. */
  lemma LargeNothing(s: Space, nb: nat, tried: bool)
    requires Sound(s) && s.dvsize < nb && s.t.topsize <= nb && 256 <= nb
    requires if tried then Declines(s, nb) else s.bins.treemap == 0 || nb == MAX_SIZE
    ensures Exhausted(s, nb)
  {
    hide Sound, Binned, Exhausted;
    SmallIs(nb);
    if !tried && s.bins.treemap == 0 {
      NoTrees(s);
    }
    forall c | c in Binned(s) && !IsSmall(c.size)
      ensures c.size < nb
    {
      BinnedFacts(s, c);
      BinnedBelow(s, c);
    }
    NothingFits(s, nb);
  }

  lemma BinnedBelow(s: Space, c: Chunk)
    requires Sound(s) && c in Binned(s)
    ensures c.size < MAX_SIZE
  {
    hide FreeOf, Tiled, Filed, DvOk;
    FreeSizes(s.t, c);
    EndsFacts(s.t);
  }

  // ------------------------------------------------------------- lemmas on freeing

  lemma SoundTiled(s: Space)
    requires Sound(s)
    ensures Tiled(s.t) && Filed(s.bins, Binned(s))
  {
    hide Tiled, Filed;
  }

  lemma FreeWord(s: Space, c: Chunk)
    requires Sound(s) && c in FreeOf(s.t)
    ensures c.size < Words()
  {
    hide Tiled, FreeOf, Filed, DvOk;
    WordsIs();
    FreeSizes(s.t, c);
  }

  /** A clear `pinuse` bit: the word before the chunk is the size of the free chunk to the left. */
  lemma LeftFree(s: Space, c: Chunk)
    requires Sound(s) && c in UsedOf(s.t) && c.at in s.t.h && !s.t.h[c.at].pinuse
    ensures c.at in s.t.feet
    ensures var ps := s.t.feet[c.at];
            && ps > 0 && ps % 8 == 0 && Left(c, ps) == Chunk(c.at - ps, ps) && Left(c, ps) in FreeOf(s.t)
            && Neighbours(s.t, c, ps, 0)
            && c.at - ps in s.t.h && s.t.h[c.at - ps].pinuse
  {
    hide Tiled, FreeOf, UsedOf, Filed, DvOk;
    UsedFacts(s.t, c);
    EndsFacts(s.t);
    var q := Predecessor(s.t, c.at);
    ChunkFacts(s.t, q);
    FreeIs(s.t, Chunk(q, s.t.h[q].size));
  }

  /** A set `pinuse` bit: there is nothing to merge on the left. */
  lemma NoLeft(s: Space, c: Chunk)
    requires Sound(s) && c in UsedOf(s.t) && c.at in s.t.h && s.t.h[c.at].pinuse
    ensures Neighbours(s.t, c, 0, 0) && Filed(s.bins, Binned(s) - {Left(c, 0)}) && c.at != s.dv
  {
    hide Tiled, FreeOf, UsedOf, Filed;
    UsedFacts(s.t, c);
    FreeIs(s.t, Left(c, 0));
    assert Binned(s) - {Left(c, 0)} == Binned(s);
    if s.dvsize != 0 {
      FreeIs(s.t, Chunk(s.dv, s.dvsize));
    }
  }

  /** The merged range begins at the designated victim exactly if that is the left neighbour. */
  lemma DeadVictim(s: Space, c: Chunk, ps: nat)
    requires Sound(s) && Neighbours(s.t, c, ps, 0)
    ensures c.at - ps == s.dv <==> s.dvsize != 0 && Chunk(s.dv, s.dvsize) == Left(c, ps)
  {
    hide Tiled, FreeOf, UsedOf, Filed;
    UsedFacts(s.t, c);
    if ps != 0 {
      FreeSizes(s.t, Left(c, ps));
      FreeIs(s.t, Left(c, ps));
    }
    if s.dvsize != 0 {
      FreeIs(s.t, Chunk(s.dv, s.dvsize));
    }
  }

  lemma NoRightOut(s: Space, b: Bins, c: Chunk, ps: nat)
    requires Sound(s) && Neighbours(s.t, c, ps, 0) && Filed(b, Binned(s) - {Left(c, ps)})
    ensures NeighboursOut(s, b, c, ps, 0)
  {
    hide Tiled, FreeOf, UsedOf, Filed, DvOk;
    NoRight(s.t, c);
    assert Binned(s) - {Left(c, ps)} - {Right(c, 0)} == Binned(s) - {Left(c, ps)};
  }

  lemma NotRightVictim(s: Space, c: Chunk)
    ensures s.dvsize != 0 ==> Chunk(s.dv, s.dvsize) != Right(c, 0)
  {
  }

  /** The free right neighbour and the used chunk behind it. */
  lemma RightJoin(s: Space, c: Chunk, ps: nat, ns: nat)
    requires Sound(s) && Neighbours(s.t, c, ps, 0) && ns != 0 && Right(c, ns) in FreeOf(s.t)
    requires c.at - ps in s.t.h && s.t.h[c.at - ps].pinuse
    ensures Neighbours(s.t, c, ps, ns)
    ensures var e := c.at + c.size + ns; e in s.t.h && !s.t.h[e].pinuse && CanJoin(s.t, c.at - ps, e)
  {
    hide Tiled, FreeOf, UsedOf, Filed, DvOk;
    FreeIs(s.t, Right(c, ns));
    ChunkFacts(s.t, c.at + c.size);
    CanMerge(s.t, c, ps, ns);
  }

  lemma RightVictim(s: Space, b: Bins, c: Chunk, ps: nat)
    requires Sound(s) && Neighbours(s.t, c, ps, 0) && Filed(b, Binned(s) - {Left(c, ps)}) && c.at + c.size == s.dv
    requires c.at - ps in s.t.h && s.t.h[c.at - ps].pinuse
    ensures s.dvsize != 0 && Chunk(s.dv, s.dvsize) == Right(c, s.dvsize) && NeighboursOut(s, b, c, ps, s.dvsize)
    ensures Neighbours(s.t, c, ps, s.dvsize)
    ensures var e := c.at + c.size + s.dvsize; e in s.t.h && !s.t.h[e].pinuse && CanJoin(s.t, c.at - ps, e)
  {
    hide Tiled, FreeOf, UsedOf, Filed;
    UsedFacts(s.t, c);
    RightJoin(s, c, ps, s.dvsize);
    assert Binned(s) - {Left(c, ps)} - {Right(c, s.dvsize)} == Binned(s) - {Left(c, ps)};
  }

  lemma RightFree(s: Space, c: Chunk, ps: nat, ns: nat)
    requires Sound(s) && Neighbours(s.t, c, ps, 0)
    requires var n := c.at + c.size;
             n in s.t.starts && n in s.t.h && !s.t.h[n].cinuse && n != s.t.top && n != s.dv && ns == s.t.h[n].size
    requires c.at - ps in s.t.h && s.t.h[c.at - ps].pinuse
    ensures ns != 0 && Right(c, ns) in FreeOf(s.t) && Right(c, ns) in Binned(s) && Right(c, ns) != Left(c, ps)
    ensures Right(c, ns) == Chunk(c.at + c.size, ns) && (s.dvsize != 0 ==> Chunk(s.dv, s.dvsize) != Right(c, ns))
    ensures Neighbours(s.t, c, ps, ns)
    ensures var e := c.at + c.size + ns; e in s.t.h && !s.t.h[e].pinuse && CanJoin(s.t, c.at - ps, e)
  {
    hide Tiled, FreeOf, UsedOf, Filed, DvOk;
    FreeIs(s.t, Right(c, ns));
    UsedFacts(s.t, c);
    ChunkFacts(s.t, c.at + c.size);
    RightJoin(s, c, ps, ns);
  }

  lemma RightOut(s: Space, b: Bins, c: Chunk, ps: nat, ns: nat)
    requires Filed(b, Binned(s) - {Left(c, ps)} - {Chunk(c.at + c.size, ns)})
    ensures NeighboursOut(s, b, c, ps, ns)
  {
    hide Filed, Binned;
  }

  lemma MergedWord(s: Space, c: Chunk, ps: nat, ns: nat)
    requires Sound(s) && CanJoin(s.t, c.at - ps, c.at + c.size + ns)
    ensures c.size + ps + ns < Words()
  {
    hide Tiled, Filed, DvOk;
    WordsIs();
    ChunkFacts(s.t, c.at - ps);
    ChunkFacts(s.t, c.at + c.size + ns);
    EndsFacts(s.t);
  }

  lemma SameHead(h: Heads, n: Addr)
    requires n in h && !h[n].pinuse
    ensures h[n := h[n].(pinuse := false)] == h
  {
  }

  function AlignAsChunk(a: nat): (p: nat)
    ensures a <= p < a + 8 && p % 8 == 0
  {
    a + (8 - (a + OVERHEAD) % 8) % 8
  }

  /** The heap as it begins: two chunks, empty bins. */
  lemma FreshHeap(s: Space, record: nat, size: nat)
    requires s.t.base % 8 == 0 && 0 < s.t.base && record % 8 == 0 && MIN_CHUNK <= record && size > 0
    requires s.t.top == s.t.base + record && s.t.topsize == size && s.t.limit < WORD
    requires s.t.top + size + TOP_FOOT_SIZE == s.t.limit
    requires s.t.starts == {s.t.base, s.t.top}
    requires s.t.h == map[s.t.base := Head(record, true, true), s.t.top := Head(size, true, false),
                          s.t.top + size := Trailer()]
    requires s.dv == 0 && s.dvsize == 0 && s.bins.smallmap == 0 && s.bins.treemap == 0
    requires |s.bins.small| == BINS && |s.bins.trees| == TREE_BINS
             && forall i :: 0 <= i < TREE_BINS ==> s.bins.trees[i] == Nil
    ensures Sound(s) && Owned(s.t, map[])
  {
    hide Filed;
    FreshTiles(s.t);
    FreshBins(s);
    assert Chunk(s.t.base, record) in UsedOf(s.t);
  }

  lemma FreshTiles(t: Tiling)
    requires t.base % 8 == 0 && t.topsize > 0 && t.starts == {t.base, t.top} && t.base in t.h && t.top in t.h
    requires t.h[t.top] == Head(t.topsize, true, false)
    requires t.top + t.topsize + TOP_FOOT_SIZE == t.limit
    requires t.top + t.topsize in t.h && t.h[t.top + t.topsize] == Trailer()
    requires var s := t.h[t.base].size;
             s % 8 == 0 && MIN_CHUNK <= s && t.top == t.base + s && t.h[t.base] == Head(s, true, true)
    ensures Tiled(t) && FreeOf(t) == {}
  {
  }

  lemma FreshBins(s: Space)
    requires FreeOf(s.t) == {} && s.dvsize == 0 && s.bins.smallmap == 0 && s.bins.treemap == 0
    requires |s.bins.small| == BINS && |s.bins.trees| == TREE_BINS
             && forall i :: 0 <= i < TREE_BINS ==> s.bins.trees[i] == Nil
    ensures Filed(s.bins, Binned(s))
  {
    hide FreeOf, Has;
    assert Binned(s) == {};
    forall i | 0 <= i < BINS
      ensures SmallFiled(s.bins.small[i], Has(s.bins.smallmap, i), {}, i)
    {
      NothingIn(i);
    }
    forall i | 0 <= i < TREE_BINS
      ensures LargeFiled(s.bins.trees[i], Has(s.bins.treemap, i), {}, i)
    {
      NothingIn(i);
      NilFacts(BitsOf(i), HighOf(i));
      assert LargeOf({}, i) == {};
    }
  }

  lemma ReturnedFacts(s: Space, s': Space, c: Chunk)
    requires Returned(s, s', c)
    ensures Sound(s') && s'.t.base == s.t.base
  {
    hide Sound;
  }

  lemma BackAgain(mem: Addr)
    ensures mem - OVERHEAD + OVERHEAD == mem
  {
  }

  lemma SplitHead(t: Tiling, p: Addr, nb: nat, rsize: nat, footer: nat)
    requires nb > 0
    ensures var h := Split(t, p, nb, rsize, footer).h; p in h && h[p].size == nb
  {
  }

  lemma SmallerVictim(dvsize: nat, nb: nat)
    requires dvsize < nb && IsSmall(nb)
    ensures IsSmall(dvsize)
  {
  }

  lemma SmallIs(nb: nat)
    ensures IsSmall(nb) <==> nb < 256
  {
  }

  lemma WordIs()
    ensures WORD == 0x1_0000_0000_0000_0000
  {
  }

  lemma MinPositive()
    ensures MIN_CHUNK == 32
  {
  }

  lemma OverheadPositive(p: Addr)
    ensures p > 0 ==> p + OVERHEAD > 0
  {
  }

  /** Unlinking keeps the number of bins. */
  lemma UnlinkShape(b: Bins, p: Addr, s: nat)
    requires |b.small| == BINS && |b.trees| == TREE_BINS
    ensures |UnlinkChunk(b, p, s).small| == BINS && |UnlinkChunk(b, p, s).trees| == TREE_BINS
  {
    hide IndexOf, Unlink, BinMap.Clear, Without;
  }

  lemma AllLargeFit(s: Space, v: Trie, rsize: nat, nb: nat)
    requires Sound(s) && 0 < nb < 256 && nb < Words() && v.Node? && BestLarge(v, rsize, Binned(s), nb)
    ensures v.ring != [] && Chunk(v.ring[0], v.size) in Binned(s) && !IsSmall(v.size) && v.size == nb + rsize
    ensures forall c :: c in Binned(s) && !IsSmall(c.size) ==> v.size <= c.size
  {
    hide Sound, Binned, Words;
  }

  lemma LargeFits(s: Space, v: Trie, rsize: nat, nb: nat)
    requires nb < Words() && BestLarge(v, rsize, Binned(s), nb) && Sound(s)
    ensures v.Node? ==> v.ring != [] && Chunk(v.ring[0], v.size) in Binned(s) && !IsSmall(v.size)
                        && v.size == nb + rsize
    ensures v.Node? ==> v.size < Words()
    ensures v.Node? ==> forall c :: c in Binned(s) && !IsSmall(c.size) && nb <= c.size ==> v.size <= c.size
  {
    hide Sound, Binned, Words;
    WordsIs();
    if v.Node? {
      BinnedFacts(s, Chunk(v.ring[0], v.size));
    }
  }

  lemma WholeIs(s: Space, p: Addr, size: nat, footer: nat)
    requires p + size in s.t.h && |s.bins.small| == BINS && |s.bins.trees| == TREE_BINS
    ensures TakenWhole(s, p, size, footer) ==
            s.(t := Occupied(s.t, p, size, footer), bins := UnlinkChunk(s.bins, p, size))
  {
  }

  lemma SplitIs(s: Space, p: Addr, nb: nat, rsize: nat, footer: nat)
    requires |s.bins.small| == BINS && |s.bins.trees| == TREE_BINS
    ensures TakenSplit(s, p, nb, rsize, footer)
         == s.(t := Split(s.t, p, nb, rsize, footer),
               bins := InsertChunk(UnlinkChunk(s.bins, p, nb + rsize), p + nb, rsize))
  {
  }

  lemma SplitDvIs(s: Space, p: Addr, nb: nat, rsize: nat, footer: nat)
    requires |s.bins.small| == BINS && |s.bins.trees| == TREE_BINS
    ensures TakenSplitDv(s, p, nb, rsize, footer)
         == Space(Split(s.t, p, nb, rsize, footer), ReplaceDv(UnlinkChunk(s.bins, p, nb + rsize), s.dv, s.dvsize),
                  p + nb, rsize)
  {
  }

  lemma OccupiedHead(t: Tiling, p: Addr, s: nat, footer: nat)
    requires p + s in t.h && s > 0
    ensures var h := Occupied(t, p, s, footer).h; p in h && h[p].size == s
  {
  }
}
