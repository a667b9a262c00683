/** Aligned blocks: `internal_memalign`, which cuts a bigger block and gives back what is left over. */
module MemAlign {
  import opened TreeBin
  import opened TreeFit
  import opened TreeIndex
  import opened BinLists
  import opened Tiles
  import opened HeapSpace
  import opened MSpaces

  // ---------------------------------------------------------------- powers of two

  /** The test of the code: clearing the lowest set bit leaves nothing. */
  predicate SingleBit(x: bv64) {
    x & (x - 1) == 0
  }

  lemma SingleOdd(x: bv64)
    requires x != 0 && Odd(x)
    ensures SingleBit(x) <==> x == 1
    ensures Half(x) == 0 <==> x == 1
  {
  }

  lemma SingleEven(x: bv64)
    requires x != 0 && !Odd(x)
    ensures Half(x) != 0 && (SingleBit(x) <==> SingleBit(Half(x)))
  {
  }

  /** It tells the powers of two. */
  lemma {:induction false} SingleIsPower(x: bv64)
    requires x != 0
    ensures Val(x) > 0 && (SingleBit(x) <==> Val(x) == Pow2(Log2(Val(x))))
    decreases x
  {
    hide SingleBit, Odd;
    NotZero(x);
    ValOne();
    if Odd(x) {
      SingleOdd(x);
      if x != 1 {
        NotZero(Half(x));
        OddNoPower(Val(x));
      }
    } else {
      SingleEven(x);
      SingleIsPower(Half(x));
    }
  }

  lemma OddNoPower(n: nat)
    requires n > 1 && n % 2 == 1
    ensures n != Pow2(Log2(n))
  {
  }

  /** The least power of two that is at least `n` and at least 32. */
  ghost predicate RoundedTo(r: nat, n: nat) {
    && r >= n && r >= MIN_CHUNK
    && (exists k: nat :: r == Pow2(k))
    && forall k: nat :: Pow2(k) >= n && Pow2(k) >= MIN_CHUNK ==> r <= Pow2(k)
  }

  /** The alignment that is really used. */
  method RoundAlignment(alignment: nat) returns (r: nat)
    requires 8 < alignment <= 0x8000_0000_0000_0000
    ensures RoundedTo(r, alignment) && r % 8 == 0 && r <= 0x8000_0000_0000_0000
  {
    hide Pow2, Val, WordOf, SingleBit, Log2;
    r := if alignment < MIN_CHUNK then MIN_CHUNK else alignment;
    WordIs();
    WordsIs();
    WordVal(r);
    WordNotZero(r);
    SingleIsPower(WordOf(r));
    if !SingleBit(WordOf(r)) {
      var a := 16;
      ghost var k: nat := 4;
      Pow2Low();
      while a < r
        invariant a == Pow2(k) && 4 <= k <= 63 && Pow2(k) <= 0x8000_0000_0000_0000
        invariant k > 4 ==> Pow2(k - 1) < r
        decreases r - a
      {
        NextPower(k);
        a := 2 * a;
        k := k + 1;
      }
      RoundedUp(a, k, r, alignment);
      r := a;
    } else {
      AlreadyRound(r, alignment);
    }
  }

  /** What the doubling loop holds after `n` rounds, in machine words. */
  function Doubled(n: nat): nat {
    if n == 0 then 16 else (2 * Doubled(n - 1)) % Words()
  }

  lemma {:induction false} DoubledIs(n: nat)
    ensures Doubled(n) == if n < 60 then Pow2(n + 4) else 0
  {
    hide Pow2, Words;
    Pow2Low();
    WordsIs();
    Pow2Values();
    if n > 0 {
      DoubledIs(n - 1);
      PowStep(n + 3);
      if n < 60 {
        Pow2Monotone(n + 4, 63);
      }
    }
  }

  lemma PowStep(k: nat)
    ensures Pow2(k + 1) == 2 * Pow2(k)
  {
  }

  /** The loop that looks for a power of two ends if and only if there is one in a word. */
  lemma LoopEnds(alignment: nat)
    requires 16 < alignment
    ensures (exists n :: Doubled(n) >= alignment) <==> alignment <= 0x8000_0000_0000_0000
  {
    hide Pow2, Doubled;
    Pow2Values();
    DoubledIs(59);
    forall n: nat
      ensures Doubled(n) <= 0x8000_0000_0000_0000
    {
      DoubledIs(n);
      if n < 60 {
        Pow2Monotone(n + 4, 63);
      }
    }
  }

  /** For one such alignment the loop goes on for ever. */
  lemma LoopNeverEnds()
    ensures forall n :: Doubled(n) < 0x8000_0000_0000_0001
  {
    LoopEnds(0x8000_0000_0000_0001);
  }

  lemma Pow2Low()
    ensures Pow2(4) == 16 && Pow2(5) == 32 && Pow2(3) == 8
  {
  }

  lemma WordNotZero(n: nat)
    requires 0 < n < Words() && Val(WordOf(n)) == n
    ensures WordOf(n) != 0
  {
  }

  /** Doubling a power of two that is below the bound stays within it. */
  lemma NextPower(k: nat)
    requires Pow2(k) < 0x8000_0000_0000_0000
    ensures Pow2(k + 1) == 2 * Pow2(k) && k < 63 && Pow2(k + 1) <= 0x8000_0000_0000_0000
  {
    Pow2Values();
    if k >= 63 {
      Pow2Monotone(63, k);
    } else {
      Pow2Monotone(k + 1, 63);
    }
  }

  lemma RoundedUp(a: nat, k: nat, r: nat, alignment: nat)
    requires a == Pow2(k) && k >= 4 && a >= r && (k > 4 ==> Pow2(k - 1) < r)
    requires r == if alignment < MIN_CHUNK then MIN_CHUNK else alignment
    ensures RoundedTo(a, alignment) && a % 8 == 0
  {
    hide Pow2;
    Pow2Low();
    PowerOfEight(k);
    forall j: nat | Pow2(j) >= alignment && Pow2(j) >= MIN_CHUNK
      ensures a <= Pow2(j)
    {
      if j < k {
        Pow2Monotone(j, k - 1);
      } else {
        Pow2Monotone(k, j);
      }
    }
  }

  lemma PowerOfEight(k: nat)
    requires k >= 3
    ensures Pow2(k) % 8 == 0
  {
    Pow2Sum(3, k - 3);
    Pow2Low();
    hide Pow2;
    MultipleOf(8, Pow2(k - 3));
  }

  lemma MultipleOf(d: nat, n: nat)
    requires d > 0
    ensures (d * n) % d == 0
  {
    ModZero(n, d);
  }

  lemma AlreadyRound(r: nat, alignment: nat)
    requires r > 0 && r == Pow2(Log2(r)) && r == if alignment < MIN_CHUNK then MIN_CHUNK else alignment
    ensures RoundedTo(r, alignment) && r % 8 == 0
  {
    hide Pow2, Log2;
    Pow2Low();
    var k := Log2(r);
    if k < 3 {
      Pow2Monotone(k, 3);
    }
    PowerOfEight(k);
  }

  // ------------------------------------------------------------ an aligned spot

  /** Aligning a block's address leaves room for a leader chunk, or moving one step further does. */
  lemma AlignedSpot(p: Addr, al: nat)
    requires p > 0 && p % 8 == 0 && al % 8 == 0 && al >= MIN_CHUNK && (p + OVERHEAD) % al != 0
    ensures var br := AlignUp(p + OVERHEAD, al) - OVERHEAD;
            var pos := if br - p >= MIN_CHUNK then br else br + al;
            && MIN_CHUNK <= pos - p <= al + MIN_CHUNK - 8 && (pos - p) % 8 == 0 && (pos + OVERHEAD) % al == 0
  {
    hide AlignUp;
    var up := AlignUp(p + OVERHEAD, al);
    AlignUpFacts(p + OVERHEAD, al);
    EightsOf(up, al);
    NextMultiple(up, al);
    SpotIn(p, al, up);
  }

  lemma SpotIn(p: Addr, al: nat, up: nat)
    requires p % 8 == 0 && al % 8 == 0 && al >= MIN_CHUNK && up % 8 == 0 && p + OVERHEAD < up < p + OVERHEAD + al
    ensures var br := up - OVERHEAD;
            var pos := if br - p >= MIN_CHUNK then br else br + al;
            && MIN_CHUNK <= pos - p <= al + MIN_CHUNK - 8 && (pos - p) % 8 == 0
            && (pos + OVERHEAD == up || pos + OVERHEAD == up + al)
  {
  }

  lemma AlignUpFacts(x: nat, g: nat)
    requires g > 0
    ensures x <= AlignUp(x, g) < x + g && AlignUp(x, g) % g == 0
  {
    var y := x + g - 1;
    Quotient(y, g);
    ModZero(y / g, g);
  }

  lemma EightsOf(x: nat, g: nat)
    requires g > 0 && g % 8 == 0 && x % g == 0
    ensures x % 8 == 0
  {
    var q, k := x / g, g / 8;
    assert x == q * g && g == 8 * k;
    assert q * (8 * k) == (q * k) * 8;
    ModZero(q * k, 8);
  }

  lemma NextMultiple(x: nat, g: nat)
    requires g > 0 && x % g == 0
    ensures (x + g) % g == 0
  {
    ModPlus(1, x, g);
  }

  // ------------------------------------------------------------------- the cuts

  /** Two `set_inuse` calls: a used chunk becomes two, and its block two blocks. */
  method CutBlock(m: MSpace, p: Addr, a: nat, b: nat, ghost ra: nat, ghost rb: nat)
    requires m.Valid() && p in m.heads && p + OVERHEAD in m.live && m.heads[p].size == a + b
    requires a % 8 == 0 && b % 8 == 0 && MIN_CHUNK <= a && MIN_CHUNK <= b && ra + OVERHEAD <= a && rb + OVERHEAD <= b
    modifies m`heads, m`feet, m`starts, m`live
    ensures m.Valid() && m.base == old(m.base)
    ensures p in m.heads && m.heads[p].size == a && p + a in m.heads && m.heads[p + a].size == b
    ensures m.live == old(m.live)[p + OVERHEAD := ra][p + a + OVERHEAD := rb]
    ensures p + a + OVERHEAD !in old(m.live) && p + a + OVERHEAD > 0
    ensures m.heads == old(m.heads)[p := Head(a, old(m.heads)[p].pinuse, true)][p + a := Head(b, true, true)]
  {
    hide *;
    ghost var s := m.View();
    m.ValidFacts();
    m.ViewIs();
    BlockFacts(s.t, m.live, p + OVERHEAD);
    BlockSplit(s, m.live, p, a, b, m.footer, ra, rb);
    SetBoth(m, p, a, b);
    m.live := m.live[p + OVERHEAD := ra][p + a + OVERHEAD := rb];
    m.ViewIs();
    m.ValidFacts();
  }

  method SetBoth(m: MSpace, p: Addr, a: nat, b: nat)
    requires p in m.heads
    modifies m`heads, m`feet, m`starts
    ensures m.View() == old(m.View()).(t := SplitUsed(old(m.TileView()), p, a, b, m.footer))
    ensures m.heads == old(m.heads)[p := Head(a, old(m.heads)[p].pinuse, true)][p + a := Head(b, true, true)]
  {
    m.heads := m.heads[p := Head(a, m.heads[p].pinuse, true)][p + a := Head(b, true, true)];
    m.feet := m.feet[p + a + b := m.footer][p + a := m.footer];
    m.starts := m.starts + {p + a};
  }

  /** What is asked of `mspace_malloc`. */
  function BigRequest(al: nat, bytes: nat): nat {
    RequestSize(bytes) + al + MIN_CHUNK - OVERHEAD
  }

  lemma BigRequestFits(al: nat, bytes: nat)
    requires MIN_CHUNK <= al <= 0x8000_0000_0000_0000 && bytes + al < MAX_REQUEST
    ensures bytes + OVERHEAD <= RequestSize(bytes) && RequestSize(bytes) % 8 == 0 && MIN_CHUNK <= RequestSize(bytes)
    ensures RequestSize(BigRequest(al, bytes)) >= RequestSize(bytes) + al + MIN_CHUNK
            || BigRequest(al, bytes) >= MAX_REQUEST
    ensures bytes < MAX_REQUEST && BigRequest(al, bytes) >= bytes
  {
    RequestFits(bytes);
    RequestFits(BigRequest(al, bytes));
  }

  /** The chunk of a block just handed out. */
  lemma NewBlock(m: MSpace, s: Space, mem: Addr, nb: nat, granted: bool)
    requires m.Serves(s, mem, nb, granted)
    ensures var p := mem - OVERHEAD;
            && p in m.heads && p > 0 && p % 8 == 0 && m.heads[p].size % 8 == 0
            && nb <= m.heads[p].size < Words()
  {
    hide Tiled, Filed, UsedOf, DvOk, Exhausted;
    var c := Chunk(mem - OVERHEAD, m.heads[mem - OVERHEAD].size);
    UsedFacts(m.View().t, c);
    EndsFacts(m.View().t);
    MSpaces.WordIs();
    TreeFit.Pow2Values();
  }

  /** The request cannot be met at all. */
  predicate TooBig(bytes: nat, al: nat) {
    bytes >= MAX_REQUEST - al
  }

  /** What `mspace_malloc` is asked for. */
  function AlignedRequest(alignment: nat, al: nat, bytes: nat): nat {
    if alignment <= 8 then bytes else BigRequest(al, bytes)
  }

  /** Neither the heap nor the system can help. */
  ghost predicate Unserved(m: MSpace, s: Space, bytes: nat, granted: bool) {
    Exhausted(s, RequestSize(bytes)) && !m.SystemGives(s, RequestSize(bytes), granted)
  }

  /**
   * `internal_memalign`: the block is aligned to the rounded alignment and big enough, and all that was taken beyond it
   * has been given back: as blocks go, only the one asked for is new.
   */
  method Memalign(m: MSpace, alignment: nat, bytes: nat, granted: bool) returns (mem: Addr, ghost al: nat)
    requires m.Valid() && alignment <= 0x8000_0000_0000_0000
    modifies m
    ensures m.Valid() && m.base == old(m.base)
    ensures alignment > 8 ==> RoundedTo(al, alignment) && al > 0
    ensures mem == 0 ==> m.View() == old(m.View()) && m.live == old(m.live)
    ensures mem == 0 <==>
              || (alignment > 8 && TooBig(bytes, al))
              || Unserved(m, old(m.View()), AlignedRequest(alignment, al, bytes), granted)
    ensures m.Limit() == old(m.Limit()) +
                         if alignment > 8 && TooBig(bytes, al) then 0
                         else m.Growth(old(m.View()), RequestSize(AlignedRequest(alignment, al, bytes)), granted)
    ensures mem != 0 ==> mem !in old(m.live) && m.live == old(m.live)[mem := bytes]
    ensures mem != 0 ==> mem % 8 == 0 && (alignment > 8 ==> mem % al == 0)
  {
    hide *;
    ghost var live := m.live;
    al := 8;
    UnservedIs(m, m.View(), alignment, 8, bytes, granted);
    if alignment <= 8 {
      mem := m.Malloc(bytes, granted);
      return;
    }
    var align := RoundAlignment(alignment);
    al := align;
    RoundedAtLeast(align, alignment);
    UnservedIs(m, m.View(), alignment, align, bytes, granted);
    if TooBig(bytes, align) {
      mem := 0;
      return;
    }
    var nb := RequestSize(bytes);
    var req := BigRequest(align, bytes);
    TooBigIs(bytes, align);
    BigRequestFits(align, bytes);
    ghost var s := m.View();
    mem := m.Malloc(req, granted);
    if mem != 0 {
      NewBlock(m, s, mem, RequestSize(req), granted);
      CarveFacts(m.heads, mem, align, nb, bytes, req);
      mem := CarveAligned(m, mem, align, nb, bytes, req, live);
      AlignedIs(mem, align);
    }
  }

  lemma UnservedIs(m: MSpace, s: Space, alignment: nat, al: nat, bytes: nat, granted: bool)
    ensures AlignedRequest(alignment, al, bytes) == if alignment <= 8 then bytes else BigRequest(al, bytes)
    ensures var nb := RequestSize(AlignedRequest(alignment, al, bytes));
            Unserved(m, s, AlignedRequest(alignment, al, bytes), granted) <==>
              Exhausted(s, nb) && !m.SystemGives(s, nb, granted)
  {
  }

  lemma TooBigIs(bytes: nat, al: nat)
    ensures TooBig(bytes, al) <==> bytes + al >= MAX_REQUEST
  {
  }

  lemma RoundedAtLeast(r: nat, n: nat)
    requires RoundedTo(r, n)
    ensures r >= n && r >= MIN_CHUNK && r > 0
  {
  }

  /** The block is in a chunk with room for a leader, the block asked for and a trailer. */
  ghost predicate CanCarve(heads: map<Addr, Head>, mem: Addr, align: nat, nb: nat, bytes: nat, req: nat) {
    var p := mem - OVERHEAD;
    && align % 8 == 0 && align >= MIN_CHUNK && nb % 8 == 0 && MIN_CHUNK <= nb && bytes + OVERHEAD <= nb && req >= bytes
    && p > 0 && p in heads && p % 8 == 0 && heads[p].size % 8 == 0 && nb + align + MIN_CHUNK <= heads[p].size
  }

  lemma CarveFacts(heads: map<Addr, Head>, mem: Addr, align: nat, nb: nat, bytes: nat, req: nat)
    ensures CanCarve(heads, mem, align, nb, bytes, req) <==>
              var p := mem - OVERHEAD;
              && align % 8 == 0 && align >= MIN_CHUNK && nb % 8 == 0 && MIN_CHUNK <= nb && bytes + OVERHEAD <= nb
              && req >= bytes && p > 0 && p in heads && p % 8 == 0 && heads[p].size % 8 == 0
              && nb + align + MIN_CHUNK <= heads[p].size
  {
  }

  /** A multiple of the alignment, and of 8 in any case. */
  predicate AlignedTo(r: nat, align: nat) {
    r % 8 == 0 && align > 0 && r % align == 0
  }

  lemma AlignedIs(r: nat, align: nat)
    ensures AlignedTo(r, align) <==> r % 8 == 0 && align > 0 && r % align == 0
  {
  }

  /** The big block `mem` has just been handed out for `req` bytes: an aligned part of it is kept. */
  method CarveAligned(m: MSpace, mem: Addr, align: nat, nb: nat, bytes: nat, ghost req: nat, ghost live: map<Addr, nat>)
    returns (r: Addr)
    requires m.Valid() && mem !in live && m.live == live[mem := req]
    requires CanCarve(m.heads, mem, align, nb, bytes, req)
    modifies m
    ensures m.Valid() && m.base == old(m.base) && m.Limit() == old(m.Limit())
    ensures r > 0 && r !in live && m.live == live[r := bytes] && AlignedTo(r, align)
  {
    hide *;
    CarveFacts(m.heads, mem, align, nb, bytes, req);
    MinPositive();
    BackAgain(mem);
    var p := mem - OVERHEAD;
    var leader, trailer := 0, 0;
    ghost var rest := live;
    if mem % align != 0 {
      var br := AlignUp(mem, align) - OVERHEAD;
      var pos := if br - p >= MIN_CHUNK then br else br + align;
      AlignedSpot(p, align);
      var leadsize := pos - p;
      var newsize := m.heads[p].size - leadsize;
      LeadFits(leadsize, newsize, nb, align, m.heads[p].size);
      CutBlock(m, p, leadsize, newsize, 0, bytes);
      leader := mem;
      rest := live[mem := 0];
      LeaderKept(live, mem, req, pos + OVERHEAD, bytes);
      p := pos;
    } else {
      KeepLess(m, mem, bytes);
      NoLeader(live, mem, req, bytes);
    }
    r := p + OVERHEAD;
    trailer := CutTrailer(m, p, nb, bytes, rest);
    LeaderThere(rest, mem, leader, r, bytes, trailer);
    m.Free(leader);
    m.Free(trailer);
    OnlyOne(live, rest, mem, leader, r, bytes, trailer);
    SpotAligned(r, align);
    AlignedIs(r, align);
  }

  lemma LeadFits(leadsize: nat, newsize: nat, nb: nat, align: nat, size: nat)
    requires MIN_CHUNK <= leadsize <= align + MIN_CHUNK - 8 && size == leadsize + newsize
             && nb + align + MIN_CHUNK <= size
    requires leadsize % 8 == 0 && size % 8 == 0
    ensures nb <= newsize && newsize % 8 == 0 && 0 + OVERHEAD <= leadsize
  {
  }

  lemma LeaderKept(live: map<Addr, nat>, mem: Addr, req: nat, r: Addr, bytes: nat)
    requires mem !in live && r !in live[mem := req]
    ensures live[mem := req][mem := 0][r := bytes] == live[mem := 0][r := bytes] && r !in live && r != mem
            && r !in live[mem := 0]
  {
  }

  lemma NoLeader(live: map<Addr, nat>, mem: Addr, req: nat, bytes: nat)
    ensures live[mem := req][mem := bytes] == live[mem := bytes]
  {
  }

  lemma LeaderThere(rest: map<Addr, nat>, mem: Addr, leader: Addr, r: Addr, bytes: nat, trailer: Addr)
    requires leader != 0 ==> leader == mem && mem in rest
    ensures leader != 0 ==> leader in rest[r := bytes] && leader in rest[r := bytes][trailer := 0]
    ensures trailer in rest[r := bytes][trailer := 0]
  {
  }

  /** With the leader and the trailer given back, only the aligned block is left. */
  lemma OnlyOne(live: map<Addr, nat>, rest: map<Addr, nat>, mem: Addr, leader: Addr, r: Addr, bytes: nat, trailer: Addr)
    requires mem !in live && r !in live
    requires if leader != 0 then leader == mem && rest == live[mem := 0] && r != mem else rest == live
    requires trailer != 0 ==> trailer !in rest[r := bytes]
    ensures leader == 0 && trailer == 0 ==> rest[r := bytes] == live[r := bytes]
    ensures leader == 0 && trailer != 0 ==> rest[r := bytes][trailer := 0] - {trailer} == live[r := bytes]
    ensures leader != 0 && trailer == 0 ==> rest[r := bytes] - {leader} == live[r := bytes]
    ensures leader != 0 && trailer != 0 ==> rest[r := bytes][trailer := 0] - {leader} - {trailer} == live[r := bytes]
    ensures leader != 0 && trailer != 0 ==> trailer in rest[r := bytes][trailer := 0] - {leader}
  {
  }

  lemma SpotAligned(r: nat, align: nat)
    requires align > 0 && align % 8 == 0 && r % align == 0
    ensures r % 8 == 0
  {
    EightsOf(r, align);
  }

  /** The block `mem` counts as one of `bytes` bytes from now on. */
  ghost method KeepLess(m: MSpace, mem: Addr, bytes: nat)
    requires m.Valid() && mem in m.live && mem - OVERHEAD in m.heads && bytes + OVERHEAD <= m.heads[mem - OVERHEAD].size
    modifies m`live
    ensures m.Valid() && m.live == old(m.live)[mem := bytes]
  {
    hide *;
    m.ValidFacts();
    m.ViewIs();
    ghost var live := m.live;
    OneChanged(live, mem, bytes);
    OwnedShrink(m.View().t, live, live[mem := bytes], mem);
    m.live := live[mem := bytes];
    m.ValidFacts();
  }

  lemma OneChanged(live: map<Addr, nat>, mem: Addr, bytes: nat)
    requires mem in live
    ensures live[mem := bytes].Keys == live.Keys && live[mem := bytes][mem] == bytes
    ensures forall x :: x in live && x != mem ==> live[mem := bytes][x] == live[x]
  {
  }

  /** Spare room behind the block becomes a block of its own, to be freed; 0 if there is too little. */
  method CutTrailer(m: MSpace, p: Addr, nb: nat, bytes: nat, ghost rest: map<Addr, nat>) returns (trailer: Addr)
    requires m.Valid() && m.live == rest[p + OVERHEAD := bytes] && p in m.heads && m.heads[p].size % 8 == 0
    requires nb % 8 == 0 && MIN_CHUNK <= nb <= m.heads[p].size && bytes + OVERHEAD <= nb
    modifies m`heads, m`feet, m`starts, m`live
    ensures m.Valid() && m.base == old(m.base)
    ensures trailer == 0 ==> m.live == old(m.live)
    ensures trailer != 0 ==> trailer !in old(m.live) && m.live == rest[p + OVERHEAD := bytes][trailer := 0]
  {
    hide *;
    MinPositive();
    trailer := 0;
    var size := m.heads[p].size;
    if size > nb + MIN_CHUNK {
      TrailerFits(size, nb);
      CutBlock(m, p, nb, size - nb, bytes, 0);
      trailer := p + nb + OVERHEAD;
      SameBlock(rest, p + OVERHEAD, bytes);
    }
  }

  lemma TrailerFits(size: nat, nb: nat)
    requires size % 8 == 0 && nb % 8 == 0 && size > nb + MIN_CHUNK
    ensures (size - nb) % 8 == 0 && MIN_CHUNK <= size - nb && OVERHEAD <= size - nb
  {
  }

  lemma SameBlock(rest: map<Addr, nat>, m: Addr, bytes: nat)
    ensures rest[m := bytes][m := bytes] == rest[m := bytes] && m in rest[m := bytes]
  {
  }
}
