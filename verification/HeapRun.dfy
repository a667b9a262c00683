/** Programs that use a heap: any sequence of calls, with the blocks that the program holds after each of them. */
module HeapRuns {
  import opened TreeBin
  import opened TreeFit
  import opened Tiles
  import opened HeapSpace
  import opened MSpaces
  import opened MemAlign
  import opened CoAlloc

  /** A call; `granted` tells whether the system helps. `Return` gives back the block held at that place. */
  datatype Call =
    | Get(bytes: nat, granted: bool)
    | GetAligned(alignment: nat, bytes: nat, granted: bool)
    | GetMany(order: Order, provided: bool, granted: bool)
    | Return(place: nat)
  {
    ghost predicate Ok() {
      match this
      case GetAligned(alignment, _, _) => alignment <= 0x8000_0000_0000_0000
      case GetMany(order, provided, _) => order.Ok() && Total(order, provided) < Words()
      case _ => true
    }
  }

  /** A block and the bytes asked for. */
  datatype Block = Block(at: Addr, bytes: nat)

  // -------------------------------------------------------------- what is promised

  /** One call, as the program sees it: nothing has changed, or it holds what it asked for, or one block less. */
  ghost predicate Step(before: seq<Block>, call: Call, after: seq<Block>)
    requires call.Ok()
  {
    match call
    case Get(bytes, _) => after == before || exists b: Block :: after == before + [b] && b.bytes == bytes
    case GetAligned(alignment, bytes, _) =>
      after == before || exists b: Block :: after == before + [b] && b.bytes == bytes && IsAligned(b.at, alignment)
    case GetMany(order, provided, _) =>
      after == before || exists more: seq<Block> :: after == before + more && IsMany(more, order, provided)
    case Return(place) =>
      after == if place < |before| then before[..place] + before[place + 1..] else before
  }

  ghost predicate IsAligned(at: Addr, alignment: nat) {
    alignment > 8 ==> exists r: nat :: RoundedTo(r, alignment) && r > 0 && at % r == 0
  }

  /** The blocks of an order, each in its own chunk right behind the one before, and the pointer array behind them. */
  ghost predicate IsMany(more: seq<Block>, o: Order, provided: bool)
    requires o.Ok()
  {
    && |more| == o.n + (if provided then 0 else 1)
    && (forall i {:trigger more[i]} :: 0 <= i < o.n ==> more[i].bytes == o.At(i))
    && (forall i {:trigger more[i]} :: 0 <= i && i + 1 < o.n ==> more[i + 1].at == more[i].at + ChunkFor(o.At(i)))
    && (!provided ==> more[o.n].bytes == o.n * WORD_SIZE)
    && (!provided && o.n > 0 ==> more[o.n].at == more[o.n - 1].at + ChunkFor(o.At(o.n - 1)))
  }

  ghost predicate Clear(a: Block, b: Block) {
    a.at + a.bytes + OVERHEAD <= b.at || b.at + b.bytes + OVERHEAD <= a.at
  }

  ghost predicate Inside(b: Block, base: Addr, limit: nat) {
    b.at % 8 == 0 && base < b.at && b.at + b.bytes < limit
  }

  /** All blocks are aligned, lie in the memory obtained from the system and are apart from each other. */
  ghost predicate WellPlaced(held: seq<Block>, base: Addr, limit: nat) {
    && (forall i {:trigger held[i]} :: 0 <= i < |held| ==> Inside(held[i], base, limit))
    && (forall i, j {:trigger held[i], held[j]} :: 0 <= i < |held| && 0 <= j < |held| && i != j ==>
          Clear(held[i], held[j]))
  }

  // ------------------------------------------------------------ blocks and the heap

  ghost predicate InHeld(held: seq<Block>, x: Addr) {
    exists i :: 0 <= i < |held| && held[i].at == x
  }

  /** The blocks the program holds are those handed out, each once, with the bytes it asked for. */
  ghost predicate Holds(live: map<Addr, nat>, held: seq<Block>) {
    && (forall i {:trigger held[i]} :: 0 <= i < |held| ==> held[i].at in live && live[held[i].at] == held[i].bytes)
    && (forall i, j {:trigger held[i], held[j]} :: 0 <= i < j < |held| ==> held[i].at != held[j].at)
    && (forall x {:trigger InHeld(held, x)} :: x in live ==> InHeld(held, x))
  }

  lemma HoldsNone()
    ensures Holds(map[], [])
  {
  }

  lemma HoldsMore(live: map<Addr, nat>, held: seq<Block>, b: Block)
    requires Holds(live, held) && b.at !in live
    ensures Holds(live[b.at := b.bytes], held + [b])
  {
    var after := held + [b];
    forall x | x in live[b.at := b.bytes]
      ensures InHeld(after, x)
    {
      if x != b.at {
        assert InHeld(held, x);
        var i :| 0 <= i < |held| && held[i].at == x;
        assert after[i].at == x;
      } else {
        assert after[|held|].at == x;
      }
    }
  }

  lemma HoldsLess(live: map<Addr, nat>, held: seq<Block>, place: nat)
    requires Holds(live, held) && place < |held|
    ensures held[place].at in live
    ensures Holds(live - {held[place].at}, held[..place] + held[place + 1..])
  {
    var after := held[..place] + held[place + 1..];
    forall i | 0 <= i < |after|
      ensures after[i] == held[if i < place then i else i + 1]
    {
    }
    forall x | x in live - {held[place].at}
      ensures InHeld(after, x)
    {
      assert InHeld(held, x);
      var i :| 0 <= i < |held| && held[i].at == x;
      var j := if i < place then i else i - 1;
      assert after[j].at == x;
    }
  }

  /** The blocks of an order with their sizes. */
  function Sized(o: Order, blocks: seq<Addr>): (bs: seq<Block>)
    requires o.Ok() && |blocks| <= o.n
    ensures |bs| == |blocks| && forall i :: 0 <= i < |bs| ==> bs[i] == Block(blocks[i], o.At(i))
  {
    seq(|blocks|, i requires 0 <= i < |blocks| => Block(blocks[i], o.At(i)))
  }

  lemma HoldsMany(live: map<Addr, nat>, live': map<Addr, nat>, held: seq<Block>, o: Order, blocks: seq<Addr>)
    requires Holds(live, held) && o.Ok() && Allotted(live, live', o, blocks) && Adjacent(o, blocks)
    ensures Holds(live', held + Sized(o, blocks))
  {
    hide Adjacent;
    var more := Sized(o, blocks);
    var after := held + more;
    forall i | 0 <= i < |after|
      ensures after[i].at in live' && live'[after[i].at] == after[i].bytes
    {
      if i >= |held| {
        assert after[i] == more[i - |held|] && blocks[i - |held|] in live';
      } else {
        assert after[i] == held[i];
      }
    }
    forall i, j | 0 <= i < j < |after|
      ensures after[i].at != after[j].at
    {
      ManyDiffer(live, live', held, o, blocks, i, j);
    }
    forall x | x in live'
      ensures InHeld(after, x)
    {
      if x in live {
        assert InHeld(held, x);
        var i :| 0 <= i < |held| && held[i].at == x;
        assert after[i].at == x;
      } else {
        var i :| 0 <= i < |blocks| && blocks[i] == x;
        assert after[|held| + i] == more[i];
      }
    }
  }

  lemma ManyDiffer(live: map<Addr, nat>, live': map<Addr, nat>, held: seq<Block>, o: Order, blocks: seq<Addr>, i: nat,
                   j: nat)
    requires Holds(live, held) && o.Ok() && Allotted(live, live', o, blocks) && Adjacent(o, blocks)
    requires i < j < |held| + |blocks|
    ensures (held + Sized(o, blocks))[i].at != (held + Sized(o, blocks))[j].at
  {
    hide Adjacent;
    if i >= |held| {
      Ascending(o, blocks, i - |held|, j - |held|);
      MinPositive();
    } else if j >= |held| {
      assert blocks[j - |held|] !in live;
    }
  }

  lemma HeldPlaced(m: MSpace, held: seq<Block>)
    requires m.Valid() && Holds(m.live, held)
    ensures WellPlaced(held, m.base, m.Limit())
  {
    hide Sound, Owned;
    m.ValidFacts();
    forall i | 0 <= i < |held|
      ensures Inside(held[i], m.base, m.Limit())
    {
      BlockInside(m.View(), m.live, held[i].at);
    }
    forall i, j | 0 <= i < |held| && 0 <= j < |held| && i != j
      ensures Clear(held[i], held[j])
    {
      if held[i].at < held[j].at {
        BlocksApart(m.View(), m.live, held[i].at, held[j].at);
      } else {
        assert held[i].at != held[j].at;
        BlocksApart(m.View(), m.live, held[j].at, held[i].at);
      }
    }
  }

  lemma ManyIs(o: Order, blocks: seq<Addr>, marray: Addr, provided: bool)
    requires o.Ok() && |blocks| == o.n && Adjacent(o, blocks)
    requires !provided && o.n > 0 ==> marray == blocks[o.n - 1] + ChunkFor(o.At(o.n - 1))
    ensures IsMany(Sized(o, blocks) + if provided then [] else [Block(marray, o.n * WORD_SIZE)], o, provided)
  {
    var more := Sized(o, blocks) + if provided then [] else [Block(marray, o.n * WORD_SIZE)];
    forall i | 0 <= i && i + 1 < o.n
      ensures more[i + 1].at == more[i].at + ChunkFor(o.At(i))
    {
      assert more[i] == Sized(o, blocks)[i] && more[i + 1] == Sized(o, blocks)[i + 1];
      assert blocks[i + 1] == blocks[i] + ChunkFor(o.At(i));
    }
  }

  // ------------------------------------------------------------------------- runs

  method PerformMany(m: MSpace, order: Order, provided: bool, granted: bool, held: seq<Block>)
    returns (after: seq<Block>)
    requires m.Valid() && Holds(m.live, held) && order.Ok() && Total(order, provided) < Words()
    modifies m
    ensures m.Valid() && Holds(m.live, after) && m.base == old(m.base) && old(m.Limit()) <= m.Limit()
    ensures after == held || exists more: seq<Block> :: after == held + more && IsMany(more, order, provided)
  {
    hide *;
    ghost var live := m.live;
    var ok, blocks, marray := Ialloc(m, order, provided, granted);
    after := held;
    if ok && order.n > 0 {
      ManyIs(order, blocks, marray, provided);
      var bs := Sized(order, blocks);
      if provided {
        HoldsMany(live, m.live, held, order, blocks);
        after := held + bs;
        assert bs + [] == bs;
      } else {
        // the array is handed out first, but stands last
        var a := Block(marray, order.n * WORD_SIZE);
        HoldsMore(live, held, a);
        HoldsMany(live[a.at := a.bytes], m.live, held + [a], order, blocks);
        SwapHeld(m.live, held, a, bs);
        after := held + (bs + [a]);
      }
    } else if ok && !provided {
      HoldsMore(live, held, Block(marray, 0));
      NoneMany(order, marray);
      after := held + [Block(marray, 0)];
    }
  }

  lemma NoneMany(o: Order, marray: Addr)
    requires o.Ok() && o.n == 0
    ensures IsMany([Block(marray, 0)], o, false)
  {
  }

  lemma SwapHeld(live: map<Addr, nat>, held: seq<Block>, a: Block, bs: seq<Block>)
    requires Holds(live, held + [a] + bs)
    ensures Holds(live, held + (bs + [a]))
  {
    var x, y, k := held + [a] + bs, held + (bs + [a]), |held|;
    forall i | 0 <= i < |y|
      ensures y[i] == x[Turned(k, |bs|, i)]
    {
    }
    forall i, j | 0 <= i < j < |y|
      ensures y[i].at != y[j].at
    {
      var c, d := Turned(k, |bs|, i), Turned(k, |bs|, j);
      assert y[i] == x[c] && y[j] == x[d] && c != d;
    }
    forall b | b in live
      ensures InHeld(y, b)
    {
      assert InHeld(x, b);
      var i :| 0 <= i < |x| && x[i].at == b;
      var j := if i < k then i else if i == k then k + |bs| else i - 1;
      assert y[j] == x[i];
    }
  }

  function Turned(k: nat, n: nat, i: nat): nat {
    if i < k then i else if i == k + n then k else i + 1
  }

  method PerformOne(m: MSpace, call: Call, held: seq<Block>) returns (after: seq<Block>)
    requires m.Valid() && Holds(m.live, held) && call.Ok()
    modifies m
    ensures m.Valid() && Holds(m.live, after) && m.base == old(m.base) && old(m.Limit()) <= m.Limit()
    ensures Step(held, call, after)
  {
    hide *;
    after := held;
    ghost var live := m.live;
    match call
    case Get(bytes, granted) =>
      StepGet(held, bytes, granted);
      var mem := m.Malloc(bytes, granted);
      if mem != 0 {
        HoldsMore(live, held, Block(mem, bytes));
        after := held + [Block(mem, bytes)];
      }
    case GetAligned(alignment, bytes, granted) =>
      CallOk(call);
      var mem;
      ghost var al;
      mem, al := Memalign(m, alignment, bytes, granted);
      StepAligned(held, alignment, bytes, granted, mem, al);
      if mem != 0 {
        HoldsMore(live, held, Block(mem, bytes));
        after := held + [Block(mem, bytes)];
      }
    case GetMany(order, provided, granted) =>
      CallOk(call);
      after := PerformMany(m, order, provided, granted, held);
      StepMany(held, order, provided, granted, after);
    case Return(place) =>
      StepReturn(held, place);
      if place < |held| {
        HoldsLess(live, held, place);
        BlockThere(m, held[place].at);
        m.Free(held[place].at);
        after := held[..place] + held[place + 1..];
      }
  }

  lemma CallOk(call: Call)
    requires call.Ok()
    ensures call.GetAligned? ==> call.alignment <= 0x8000_0000_0000_0000
    ensures call.GetMany? ==> call.order.Ok() && Total(call.order, call.provided) < Words()
  {
  }

  lemma StepGet(held: seq<Block>, bytes: nat, granted: bool)
    ensures Step(held, Get(bytes, granted), held)
    ensures forall mem: Addr {:trigger Block(mem, bytes)} :: Step(held, Get(bytes, granted), held + [Block(mem, bytes)])
  {
  }

  lemma StepAligned(held: seq<Block>, alignment: nat, bytes: nat, granted: bool, mem: Addr, al: nat)
    requires alignment <= 0x8000_0000_0000_0000
    ensures Step(held, GetAligned(alignment, bytes, granted), held)
    ensures (alignment > 8 ==> RoundedTo(al, alignment) && al > 0 && mem % al == 0) ==>
              Step(held, GetAligned(alignment, bytes, granted), held + [Block(mem, bytes)])
  {
    hide RoundedTo;
    var b := Block(mem, bytes);
    assert b.at == mem && b.bytes == bytes;
  }

  lemma StepMany(held: seq<Block>, order: Order, provided: bool, granted: bool, after: seq<Block>)
    requires order.Ok() && Total(order, provided) < Words()
    requires after == held || exists more: seq<Block> :: after == held + more && IsMany(more, order, provided)
    ensures Step(held, GetMany(order, provided, granted), after)
  {
    hide IsMany, Total;
  }

  lemma StepReturn(held: seq<Block>, place: nat)
    ensures place < |held| ==> Step(held, Return(place), held[..place] + held[place + 1..])
    ensures place >= |held| ==> Step(held, Return(place), held)
  {
  }

  lemma BlockThere(m: MSpace, mem: Addr)
    requires m.Valid() && mem in m.live
    ensures mem != 0
  {
    hide Sound, Owned;
    m.ValidFacts();
    BlockInside(m.View(), m.live, mem);
    BasePositive(m.View());
  }

  lemma BasePositive(s: Space)
    requires Sound(s)
    ensures s.t.base > 0
  {
  }

  /** Call `k` of a run. */
  ghost predicate StepAt(states: seq<seq<Block>>, limits: seq<nat>, calls: seq<Call>, k: nat) {
    && k < |calls| && k + 1 < |states| && k + 1 < |limits| && calls[k].Ok()
    && Step(states[k], calls[k], states[k + 1]) && limits[k] <= limits[k + 1]
  }

  lemma TraceMore(states: seq<seq<Block>>, limits: seq<nat>, calls: seq<Call>, k: nat, after: seq<Block>, limit: nat)
    requires |states| == |limits| == k + 1 && k < |calls| && calls[k].Ok()
    requires forall i {:trigger StepAt(states, limits, calls, i)} :: 0 <= i < k ==> StepAt(states, limits, calls, i)
    requires Step(states[k], calls[k], after) && limits[k] <= limit
    ensures forall i {:trigger StepAt(states + [after], limits + [limit], calls, i)} :: 0 <= i <= k ==>
              StepAt(states + [after], limits + [limit], calls, i)
  {
    hide Step;
    forall i | 0 <= i <= k
      ensures StepAt(states + [after], limits + [limit], calls, i)
    {
      assert i < k ==> StepAt(states, limits, calls, i);
    }
  }

  /**
   * Whatever a program does: after each call it holds what the calls say, each block as large as asked for, aligned,
   * within the memory obtained from the system so far and apart from all others; that memory never shrinks.
   */
  method Perform(m: MSpace, calls: seq<Call>) returns (states: seq<seq<Block>>, ghost limits: seq<nat>)
    requires m.Valid() && m.live == map[] && forall k :: 0 <= k < |calls| ==> calls[k].Ok()
    modifies m
    ensures m.Valid() && m.base == old(m.base)
    ensures |states| == |limits| == |calls| + 1 && states[0] == [] && limits[0] == old(m.Limit())
    ensures limits[|calls|] == m.Limit() && Holds(m.live, states[|calls|])
    ensures forall k {:trigger StepAt(states, limits, calls, k)} :: 0 <= k < |calls| ==>
              StepAt(states, limits, calls, k)
    ensures forall k {:trigger states[k]} :: 0 <= k <= |calls| ==> WellPlaced(states[k], m.base, limits[k])
  {
    hide *;
    HoldsNone();
    states, limits := [[]], [m.Limit()];
    HeldPlaced(m, []);
    for k := 0 to |calls|
      invariant m.Valid() && m.base == old(m.base) && |states| == |limits| == k + 1
      invariant Holds(m.live, states[k]) && limits[k] == m.Limit() && states[0] == [] && limits[0] == old(m.Limit())
      invariant forall i {:trigger StepAt(states, limits, calls, i)} :: 0 <= i < k ==>
                  StepAt(states, limits, calls, i)
      invariant forall i {:trigger states[i]} :: 0 <= i <= k ==> WellPlaced(states[i], m.base, limits[i])
    {
      var after := PerformOne(m, calls[k], states[k]);
      HeldPlaced(m, after);
      TraceMore(states, limits, calls, k, after, m.Limit());
      states, limits := states + [after], limits + [m.Limit()];
    }
  }
}
