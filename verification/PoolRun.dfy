/**
 * Programs that allocate through a thread cache in front of a heap: every block is held, cached or free, never two of
 * these.
 */
module PoolRuns {
  import opened TreeBin
  import opened Tiles
  import opened HeapSpace
  import opened MSpaces
  import opened HeapRuns
  import opened T = ThreadCaches

  // ------------------------------------------------------------------- who has what

  function Spots(held: seq<HeapRuns.Block>): (s: seq<Addr>)
    ensures |s| == |held| && forall i :: 0 <= i < |s| ==> s[i] == held[i].at
  {
    seq(|held|, i requires 0 <= i < |held| => held[i].at)
  }

  /**
   * Each block the heap has handed out, with `room` bytes at least, is held by the program, or cached, or about to be
   * given back, and only one of these; what is held is big enough.
   */
  ghost predicate Parted(room: map<Addr, nat>, held: seq<HeapRuns.Block>, cached: multiset<Addr>, pending: seq<Addr>) {
    && multiset(room.Keys) == multiset(Spots(held)) + cached + multiset(pending)
    && (forall i {:trigger held[i]} :: 0 <= i < |held| ==> held[i].at in room && held[i].bytes <= room[held[i].at])
    && (forall b :: b in room ==> BLOCK_HEADER <= room[b])
  }

  lemma PartedNone()
    ensures Parted(map[], [], multiset{}, [])
  {
  }

  /** A block that was cached or free is held now. */
  lemma PartedGet(room: map<Addr, nat>, room': map<Addr, nat>, held: seq<HeapRuns.Block>, cached: multiset<Addr>,
                  cached': multiset<Addr>, b: HeapRuns.Block)
    requires Parted(room, held, cached, []) && b.at in room' && b.bytes <= room'[b.at] && BLOCK_HEADER <= room'[b.at]
    requires (forall x :: x in room ==> x in room' && room'[x] == room[x])
    requires if b.at in room then room' == room && cached' + multiset{b.at} == cached
             else room'.Keys == room.Keys + {b.at} && cached' == cached
    ensures Parted(room', held + [b], cached', [])
  {
    assert Spots(held + [b]) == Spots(held) + [b.at];
    if b.at !in room {
      assert multiset(room'.Keys) == multiset(room.Keys) + multiset{b.at};
    }
  }

  /** A block that was held is cached now, and some cached ones are about to go. */
  lemma PartedReturn(room: map<Addr, nat>, n: nat, held: seq<HeapRuns.Block>, place: nat, cached: multiset<Addr>,
                     cached': multiset<Addr>, pending: seq<Addr>)
    requires Parted(room, held, cached, []) && place < |held| && BLOCK_HEADER <= n
    requires cached' + multiset(pending) == cached + multiset{held[place].at}
    ensures Parted(room[held[place].at := n], held[..place] + held[place + 1..], cached', pending)
  {
    var rest, mem := held[..place] + held[place + 1..], held[place].at;
    HeldOnce(room, held, cached, [], place);
    SpotsLess(held, place);
    assert room[mem := n].Keys == room.Keys;
    Moved(multiset(room.Keys), multiset(Spots(held)), multiset(Spots(rest)), multiset{mem}, cached, cached',
          multiset(pending));
    forall i | 0 <= i < |rest|
      ensures rest[i].at in room && rest[i].at != mem && rest[i].bytes <= room[rest[i].at]
    {
      var j := if i < place then i else i + 1;
      assert rest[i] == held[j];
      assert Spots(rest)[i] in Spots(rest);
    }
  }

  lemma Moved<X>(all: multiset<X>, held: multiset<X>, rest: multiset<X>, x: multiset<X>, cached: multiset<X>,
                 cached': multiset<X>, pending: multiset<X>)
    requires all == held + cached && held == rest + x && cached' + pending == cached + x
    ensures all == rest + cached' + pending
  {
    forall e: X
      ensures all[e] == (rest + cached' + pending)[e]
    {
      assert (cached' + pending)[e] == (cached + x)[e];
    }
  }

  lemma SpotsLess(held: seq<HeapRuns.Block>, place: nat)
    requires place < |held|
    ensures multiset(Spots(held)) == multiset(Spots(held[..place] + held[place + 1..])) + multiset{held[place].at}
  {
    var s := Spots(held);
    assert Spots(held[..place] + held[place + 1..]) == s[..place] + s[place + 1..];
    assert s == s[..place] + [s[place]] + s[place + 1..];
  }

  lemma HeldOnce(room: map<Addr, nat>, held: seq<HeapRuns.Block>, cached: multiset<Addr>, pending: seq<Addr>,
                 place: nat)
    requires Parted(room, held, cached, pending) && place < |held|
    ensures held[place].at !in cached && held[place].at in room
    ensures held[place].at !in Spots(held[..place] + held[place + 1..])
  {
    var x := held[place].at;
    SpotsLess(held, place);
    var rest := Spots(held[..place] + held[place + 1..]);
    assert multiset(room.Keys)[x] <= 1;
    assert (multiset(Spots(held)) + cached + multiset(pending))[x]
        == multiset(rest)[x] + 1 + cached[x] + multiset(pending)[x];
  }

  /** The program's own block goes back to the heap at once. */
  lemma PartedDirect(room: map<Addr, nat>, held: seq<HeapRuns.Block>, place: nat, cached: multiset<Addr>)
    requires Parted(room, held, cached, []) && place < |held|
    ensures Parted(room, held[..place] + held[place + 1..], cached, [held[place].at])
  {
    SpotsLess(held, place);
    var rest := held[..place] + held[place + 1..];
    forall i | 0 <= i < |rest|
      ensures rest[i].at in room && rest[i].bytes <= room[rest[i].at]
    {
      assert rest[i] == held[if i < place then i else i + 1];
    }
  }

  /** The next block that is to go has gone. */
  lemma PartedGone(room: map<Addr, nat>, held: seq<HeapRuns.Block>, cached: multiset<Addr>, pending: seq<Addr>)
    requires Parted(room, held, cached, pending) && pending != []
    ensures pending[0] in room && pending[0] !in cached && Parted(room - {pending[0]}, held, cached, pending[1..])
  {
    var x := pending[0];
    assert pending == [x] + pending[1..];
    var sum := multiset(Spots(held)) + cached + multiset(pending);
    assert sum[x] == multiset(Spots(held))[x] + cached[x] + multiset(pending)[x];
    assert multiset(room.Keys)[x] <= 1;
    assert multiset(room.Keys) == multiset((room - {x}).Keys) + multiset{x} by {
      assert room.Keys == (room - {x}).Keys + {x};
    }
    Less(multiset((room - {x}).Keys), multiset{x}, multiset(Spots(held)), cached, multiset(pending[1..]));
    forall i | 0 <= i < |held|
      ensures held[i].at != x
    {
      assert Spots(held)[i] in Spots(held);
    }
  }

  lemma Less<X>(all: multiset<X>, x: multiset<X>, held: multiset<X>, cached: multiset<X>, pending: multiset<X>)
    requires all + x == held + cached + (x + pending)
    ensures all == held + cached + pending
  {
    forall e: X
      ensures all[e] == (held + cached + pending)[e]
    {
      assert (all + x)[e] == (held + cached + (x + pending))[e];
    }
  }

  /** The bins and the count of blocks in them. */
  lemma {:induction false} InBlocks(lists: seq<seq<Addr>>, i: nat, x: Addr)
    ensures x in T.Blocks(lists, i) <==> exists j :: i <= j < |lists| && x in lists[j]
    decreases |lists| - i
  {
    if i < |lists| {
      InBlocks(lists, i + 1, x);
    }
  }

  // ------------------------------------------------------------- cache and heap together

  ghost predicate Shared(m: MSpace, tc: ThreadCache, held: seq<HeapRuns.Block>, pending: seq<Addr>,
                         room: map<Addr, nat>)
    reads m, tc
  {
    && m.Valid() && Owned(m.View().t, room) && room.Keys == m.live.Keys
    && tc.Valid(room) && tc.freeInCache < MAX_FREE_SPACE
    && Parted(room, held, T.Blocks(tc.lists, 0), pending)
  }

  lemma SharedIs(m: MSpace, tc: ThreadCache, held: seq<HeapRuns.Block>, pending: seq<Addr>, room: map<Addr, nat>)
    ensures Shared(m, tc, held, pending, room) <==>
              && m.Valid() && Owned(m.View().t, room) && room.Keys == m.live.Keys
              && tc.Valid(room) && tc.freeInCache < MAX_FREE_SPACE
              && Parted(room, held, T.Blocks(tc.lists, 0), pending)
  {
  }

  /** What is cached stays as it is when only blocks that are not cached come, go or change. */
  lemma CacheKept(tc: ThreadCache, room: map<Addr, nat>, room': map<Addr, nat>)
    requires tc.Valid(room)
    requires forall x :: x in room && x in T.Blocks(tc.lists, 0) ==> x in room' && room'[x] == room[x]
    ensures tc.Valid(room')
  {
    hide T.Sound, T.Blocks, T.Total;
    tc.ViewIs();
    tc.ValidFacts(room);
    tc.ValidFacts(room');
    forall i, x | 0 <= i < BINS && x in tc.lists[i] && x in room
      ensures x in room' && room'[x] == room[x]
    {
      InBlocks(tc.lists, 0, x);
    }
    OtherRoom(tc.View(), room, room');
  }

  lemma OutOfCache(tc: ThreadCache, room: map<Addr, nat>, x: Addr)
    requires tc.Valid(room) && x !in T.Blocks(tc.lists, 0)
    ensures Shaped(tc.View()) && NotCached(tc.View(), x)
  {
    hide T.Sound, T.Blocks, T.Total;
    tc.ViewIs();
    tc.ValidFacts(room);
    InBlocks(tc.lists, 0, x);
  }

  /** The cache is asked. */
  method FromCache(m: MSpace, tc: ThreadCache, size: nat, ghost bytes: nat, ghost held: seq<HeapRuns.Block>,
                   ghost room: map<Addr, nat>)
    returns (mem: Addr, got: nat)
    requires Shared(m, tc, held, [], room) && BLOCK_HEADER <= size <= CACHE_MAX && bytes <= size
    modifies tc
    ensures size <= got
    ensures mem == 0 ==> Shared(m, tc, held, [], room)
    ensures mem != 0 ==> Shared(m, tc, held + [HeapRuns.Block(mem, bytes)], [], room)
  {
    hide *;
    SharedIs(m, tc, held, [], room);
    tc.ViewIs();
    tc.ValidFacts(room);
    tc.SeenIs();
    ghost var cached, released := T.Blocks(tc.lists, 0), tc.released;
    mem, got := tc.Malloc(size, room);
    tc.SeenIs();
    ghost var now := T.Blocks(tc.lists, 0);
    GotSize(size, got);
    if mem != 0 {
      Cancel(now, multiset{mem}, cached, multiset(released));
      AtLeast(room, held, cached, mem);
      PartedGet(room, room, held, cached, now, HeapRuns.Block(mem, bytes));
      SharedIs(m, tc, held + [HeapRuns.Block(mem, bytes)], [], room);
    } else {
      Cancel(now, multiset{}, cached, multiset(released));
      assert now + multiset{} == now;
      SharedIs(m, tc, held, [], room);
    }
  }

  lemma GotSize(size: nat, got: nat)
    requires exists i :: BestBin(i, size) && got == BinSize(i)
    ensures size <= got
  {
  }

  lemma AtLeast(room: map<Addr, nat>, held: seq<HeapRuns.Block>, cached: multiset<Addr>, mem: Addr)
    requires Parted(room, held, cached, []) && mem in room
    ensures BLOCK_HEADER <= room[mem]
  {
  }

  lemma Cancel<X>(now: multiset<X>, x: multiset<X>, cached: multiset<X>, rest: multiset<X>)
    requires now + rest + x == cached + rest || (x == multiset{} && now + rest == cached + rest)
    ensures now + x == cached
  {
    forall e: X
      ensures (now + x)[e] == cached[e]
    {
      assert (now + rest + x)[e] == (cached + rest)[e];
    }
  }

  /** The heap is asked. */
  method FromHeap(m: MSpace, tc: ThreadCache, size: nat, granted: bool, ghost bytes: nat,
                  ghost held: seq<HeapRuns.Block>,
                  ghost room: map<Addr, nat>)
    returns (mem: Addr, ghost room': map<Addr, nat>)
    requires Shared(m, tc, held, [], room) && BLOCK_HEADER <= size && bytes <= size
    modifies m
    ensures m.base == old(m.base) && old(m.Limit()) <= m.Limit()
    ensures mem == 0 ==> Shared(m, tc, held, [], room')
    ensures mem != 0 ==> Shared(m, tc, held + [HeapRuns.Block(mem, bytes)], [], room')
  {
    hide *;
    SharedIs(m, tc, held, [], room);
    m.ValidFacts();
    RequestFits(size);
    ghost var s := m.View();
    mem := m.Malloc(size, granted);
    room' := room;
    if mem != 0 {
      m.ServesOwned(s, mem, RequestSize(size), granted, room, size);
      room' := room[mem := size];
      CacheKept(tc, room, room');
      PartedGet(room, room', held, T.Blocks(tc.lists, 0), T.Blocks(tc.lists, 0), HeapRuns.Block(mem, bytes));
      SharedIs(m, tc, held + [HeapRuns.Block(mem, bytes)], [], room');
    } else {
      SharedIs(m, tc, held, [], room);
    }
  }

  /** `nedpmalloc`: from the cache if the size is one of the cache's and there is a block, else from the heap. */
  method PoolMalloc(m: MSpace, tc: ThreadCache, bytes: nat, granted: bool, ghost held: seq<HeapRuns.Block>,
                    ghost room: map<Addr, nat>)
    returns (mem: Addr, ghost room': map<Addr, nat>)
    requires Shared(m, tc, held, [], room)
    modifies m, tc
    ensures m.base == old(m.base) && old(m.Limit()) <= m.Limit()
    ensures mem == 0 ==> Shared(m, tc, held, [], room')
    ensures mem != 0 ==> Shared(m, tc, held + [HeapRuns.Block(mem, bytes)], [], room')
  {
    hide *;
    Limits();
    mem, room' := 0, room;
    var size := if bytes < BLOCK_HEADER then BLOCK_HEADER else bytes;
    if size <= CACHE_MAX {
      mem, size := FromCache(m, tc, size, bytes, held, room);
    }
    if mem == 0 {
      mem, room' := FromHeap(m, tc, size, granted, bytes, held, room);
    }
  }

  /** The blocks the cache has let go of are freed, one `mspace_free` each. */
  method GiveBack(m: MSpace, tc: ThreadCache, from: nat, ghost held: seq<HeapRuns.Block>, ghost room: map<Addr, nat>)
    returns (ghost room': map<Addr, nat>)
    requires from <= |tc.released| && Shared(m, tc, held, tc.released[from..], room)
    modifies m
    ensures m.base == old(m.base) && m.Limit() == old(m.Limit())
    ensures Shared(m, tc, held, [], room')
  {
    hide *;
    room' := room;
    var i := from;
    while i < |tc.released|
      invariant i <= |tc.released| && Shared(m, tc, held, tc.released[i..], room')
      invariant m.base == old(m.base) && m.Limit() == old(m.Limit())
    {
      room' := GiveOne(m, tc, tc.released[i], held, tc.released[i..], room');
      assert tc.released[i..][1..] == tc.released[i + 1..];
      i := i + 1;
    }
  }

  method GiveOne(m: MSpace, tc: ThreadCache, mem: Addr, ghost held: seq<HeapRuns.Block>, ghost pending: seq<Addr>,
                 ghost room: map<Addr, nat>)
    returns (ghost room': map<Addr, nat>)
    requires Shared(m, tc, held, pending, room) && pending != [] && mem == pending[0]
    modifies m
    ensures m.base == old(m.base) && m.Limit() == old(m.Limit())
    ensures Shared(m, tc, held, pending[1..], room')
  {
    hide *;
    SharedIs(m, tc, held, pending, room);
    PartedGone(room, held, T.Blocks(tc.lists, 0), pending);
    ghost var s := m.View();
    m.ViewIs();
    BlockThere(m, mem);
    BlockFacts(s.t, room, mem);
    m.Free(mem);
    ghost var c := Chunk(mem - OVERHEAD, old(m.heads)[mem - OVERHEAD].size);
    BackAgain(mem);
    ReturnedOwned(s, m.View(), c, room);
    room' := room - {mem};
    CacheKept(tc, room, room');
    SharedIs(m, tc, held, pending[1..], room');
  }

  /** `nedpfree`: a block of a size that the cache takes goes there, any other back to the heap. */
  method PoolFree(m: MSpace, tc: ThreadCache, mem: Addr, ghost held: seq<HeapRuns.Block>, ghost place: nat,
                  ghost room: map<Addr, nat>)
    returns (ghost room': map<Addr, nat>)
    requires Shared(m, tc, held, [], room) && place < |held| && mem == held[place].at
    modifies m, tc
    ensures m.base == old(m.base) && m.Limit() == old(m.Limit())
    ensures Shared(m, tc, held[..place] + held[place + 1..], [], room')
  {
    hide *;
    ghost var rest := held[..place] + held[place + 1..];
    SharedIs(m, tc, held, [], room);
    HeldOnce(room, held, T.Blocks(tc.lists, 0), [], place);
    Limits();
    BlockThere(m, mem);
    var size := m.UsableSize(mem);
    if size <= CACHE_MAX + CHUNK_OVERHEAD {
      var from := |tc.released|;
      room' := ToCache(m, tc, mem, size, held, place, room);
      room' := GiveBack(m, tc, from, rest, room');
    } else {
      PartedDirect(room, held, place, T.Blocks(tc.lists, 0));
      SharedIs(m, tc, rest, [mem], room);
      room' := GiveOne(m, tc, mem, rest, [mem], room);
      assert [mem][1..] == [];
    }
  }

  method ToCache(m: MSpace, tc: ThreadCache, mem: Addr, size: nat, ghost held: seq<HeapRuns.Block>, ghost place: nat,
                 ghost room: map<Addr, nat>)
    returns (ghost room': map<Addr, nat>)
    requires Shared(m, tc, held, [], room) && place < |held| && mem == held[place].at
    requires mem - OVERHEAD in m.heads && size == m.heads[mem - OVERHEAD].size - OVERHEAD
             && size <= CACHE_MAX + CHUNK_OVERHEAD
    modifies tc
    ensures old(tc.released) <= tc.released
    ensures Shared(m, tc, held[..place] + held[place + 1..], tc.released[|old(tc.released)|..], room')
  {
    hide *;
    SharedIs(m, tc, held, [], room);
    ghost var cached, released := T.Blocks(tc.lists, 0), tc.released;
    HeldOnce(room, held, cached, [], place);
    AtLeast(room, held, cached, mem);
    m.ViewIs();
    ghost var s := m.View();
    BlockFacts(s.t, room, mem);
    room' := room[mem := size];
    OwnedShrink(s.t, room, room', mem);
    CacheKept(tc, room, room');
    OutOfCache(tc, room', mem);
    BlockThere(m, mem);
    tc.SeenIs();
    ghost var age, prior := tc.Free(mem, size, room');
    tc.SeenIs();
    ghost var pending := tc.released[|released|..];
    ghost var now := T.Blocks(tc.lists, 0);
    LetGo(now, released, tc.released, cached, multiset{mem});
    PartedReturn(room, size, held, place, cached, now, pending);
    SharedIs(m, tc, held[..place] + held[place + 1..], pending, room');
  }

  lemma LetGo(now: multiset<Addr>, released: seq<Addr>, after: seq<Addr>, cached: multiset<Addr>, x: multiset<Addr>)
    requires released <= after && now + multiset(after) == cached + multiset(released) + x
    ensures now + multiset(after[|released|..]) == cached + x
  {
    var pending := after[|released|..];
    assert after == released + pending;
    forall e: Addr
      ensures (now + multiset(pending))[e] == (cached + x)[e]
    {
      assert (now + multiset(after))[e] == (cached + multiset(released) + x)[e];
    }
  }

  lemma AllGone(room: map<Addr, nat>, held: seq<HeapRuns.Block>, cached: multiset<Addr>, pending: seq<Addr>)
    requires Parted(room, held, cached, []) && multiset{} + multiset(pending) == cached + multiset{}
    ensures Parted(room, held, multiset{}, pending)
  {
    assert multiset(pending) == multiset{} + multiset(pending) == cached;
    assert multiset(Spots(held)) + cached + multiset([]) == multiset(Spots(held)) + multiset{} + multiset(pending);
  }

  lemma OnlyHeld(room: map<Addr, nat>, held: seq<HeapRuns.Block>)
    requires Parted(room, held, multiset{}, [])
    ensures multiset(room.Keys) == multiset(Spots(held))
  {
  }

  /** `DestroyCaches`, for the one cache there is: nothing but what the program holds is left in the heap. */
  method PoolDestroy(m: MSpace, tc: ThreadCache, ghost held: seq<HeapRuns.Block>, ghost room: map<Addr, nat>)
    returns (ghost room': map<Addr, nat>)
    requires Shared(m, tc, held, [], room)
    modifies m, tc
    ensures Shared(m, tc, held, [], room') && m.base == old(m.base) && m.Limit() == old(m.Limit())
    ensures tc.freeInCache == 0 && multiset(m.live.Keys) == multiset(Spots(held))
  {
    hide *;
    SharedIs(m, tc, held, [], room);
    ghost var cached, released := T.Blocks(tc.lists, 0), tc.released;
    var from := |tc.released|;
    tc.SeenIs();
    tc.Destroy(room);
    tc.SeenIs();
    Limits();
    NothingLeft(T.Blocks(tc.lists, 0), tc.released);
    LetGo(multiset{}, released, tc.released, cached, multiset{});
    AllGone(room, held, cached, tc.released[from..]);
    SharedIs(m, tc, held, tc.released[from..], room);
    room' := GiveBack(m, tc, from, held, room);
    SharedIs(m, tc, held, [], room');
    OnlyHeld(room', held);
  }

  lemma NothingLeft(now: multiset<Addr>, released: seq<Addr>)
    requires multiset(released) == now + multiset(released)
    ensures now == multiset{}
  {
    forall e: Addr
      ensures now[e] == 0
    {
      assert multiset(released)[e] == (now + multiset(released))[e];
    }
  }

  // ------------------------------------------------------------------------- runs

  /** The calls that concern the cache. */
  predicate Pooled(call: Call) {
    call.Get? || call.Return?
  }

  lemma HeldApart(m: MSpace, tc: ThreadCache, held: seq<HeapRuns.Block>, room: map<Addr, nat>)
    requires Shared(m, tc, held, [], room)
    ensures WellPlaced(held, m.base, m.Limit())
  {
    hide HeapSpace.Sound, Owned, T.Blocks, T.Sound, T.Total;
    m.ValidFacts();
    forall i | 0 <= i < |held|
      ensures Inside(held[i], m.base, m.Limit())
    {
      BlockInside(m.View(), room, held[i].at);
    }
    forall i, j | 0 <= i < |held| && 0 <= j < |held| && i != j
      ensures Clear(held[i], held[j])
    {
      HeldDiffer(room, held, T.Blocks(tc.lists, 0), i, j);
      if held[i].at < held[j].at {
        BlocksApart(m.View(), room, held[i].at, held[j].at);
      } else {
        BlocksApart(m.View(), room, held[j].at, held[i].at);
      }
    }
  }

  lemma HeldDiffer(room: map<Addr, nat>, held: seq<HeapRuns.Block>, cached: multiset<Addr>, i: nat, j: nat)
    requires Parted(room, held, cached, []) && i < |held| && j < |held| && i != j
    ensures held[i].at != held[j].at
  {
    hide Parted;
    HeldOnce(room, held, cached, [], i);
    var rest := held[..i] + held[i + 1..];
    var k := if j < i then j else j - 1;
    assert rest[k] == held[j];
    assert Spots(rest)[k] in Spots(rest);
  }

  method PerformCall(m: MSpace, tc: ThreadCache, call: Call, held: seq<HeapRuns.Block>, ghost room: map<Addr, nat>)
    returns (after: seq<HeapRuns.Block>, ghost room': map<Addr, nat>)
    requires Shared(m, tc, held, [], room) && Pooled(call) && call.Ok()
    modifies m, tc
    ensures Shared(m, tc, after, [], room') && m.base == old(m.base) && old(m.Limit()) <= m.Limit()
    ensures Step(held, call, after)
  {
    hide *;
    PooledIs(call);
    after, room' := held, room;
    if call.Get? {
      StepGet(held, call.bytes, call.granted);
      var mem;
      mem, room' := PoolMalloc(m, tc, call.bytes, call.granted, held, room);
      if mem != 0 {
        after := held + [HeapRuns.Block(mem, call.bytes)];
      }
    } else {
      StepReturn(held, call.place);
      if call.place < |held| {
        room' := PoolFree(m, tc, held[call.place].at, held, call.place, room);
        after := held[..call.place] + held[call.place + 1..];
      }
    }
  }

  lemma PooledIs(call: Call)
    requires Pooled(call)
    ensures call.Get? || call.Return?
  {
  }

  lemma SharedFirst(m: MSpace, tc: ThreadCache)
    requires m.Valid() && m.live == map[] && tc.Valid(map[]) && tc.freeInCache == 0 && tc.Seen() == multiset{}
    ensures Shared(m, tc, [], [], map[])
  {
    hide HeapSpace.Sound, Owned, T.Sound, T.Total;
    m.ValidFacts();
    tc.SeenIs();
    PartedNone();
    Limits();
  }

  /**
   * Whatever a program does: after each call it holds what the calls say, each block as large as asked for, aligned,
   * within the memory obtained from the system and apart from all others, though blocks pass through the cache; when
   * the cache is destroyed in the end, the heap has handed out what the program holds and nothing else.
   */
  method Perform(m: MSpace, tc: ThreadCache, calls: seq<Call>)
    returns (states: seq<seq<HeapRuns.Block>>, ghost limits: seq<nat>)
    requires m.Valid() && m.live == map[] && tc.Valid(map[]) && tc.freeInCache == 0 && tc.Seen() == multiset{}
    requires forall k :: 0 <= k < |calls| ==> calls[k].Ok() && Pooled(calls[k])
    modifies m, tc
    ensures m.Valid() && m.base == old(m.base) && tc.freeInCache == 0
    ensures |states| == |limits| == |calls| + 1 && states[0] == [] && limits[0] == old(m.Limit())
    ensures limits[|calls|] == m.Limit() && multiset(m.live.Keys) == multiset(Spots(states[|calls|]))
    ensures forall k {:trigger StepAt(states, limits, calls, k)} :: 0 <= k < |calls| ==>
              StepAt(states, limits, calls, k)
    ensures forall k {:trigger states[k]} :: 0 <= k <= |calls| ==> WellPlaced(states[k], m.base, limits[k])
  {
    hide *;
    SharedFirst(m, tc);
    ghost var room: map<Addr, nat> := map[];
    states, limits := [[]], [m.Limit()];
    HeldApart(m, tc, [], room);
    for k := 0 to |calls|
      invariant m.base == old(m.base) && |states| == |limits| == k + 1 && Shared(m, tc, states[k], [], room)
      invariant limits[k] == m.Limit() && states[0] == [] && limits[0] == old(m.Limit())
      invariant forall i {:trigger StepAt(states, limits, calls, i)} :: 0 <= i < k ==>
                  StepAt(states, limits, calls, i)
      invariant forall i {:trigger states[i]} :: 0 <= i <= k ==> WellPlaced(states[i], m.base, limits[i])
    {
      var after;
      after, room := PerformCall(m, tc, calls[k], states[k], room);
      HeldApart(m, tc, after, room);
      TraceMore(states, limits, calls, k, after, m.Limit());
      states, limits := states + [after], limits + [m.Limit()];
    }
    room := PoolDestroy(m, tc, states[|calls|], room);
    SharedIs(m, tc, states[|calls|], [], room);
  }
}
