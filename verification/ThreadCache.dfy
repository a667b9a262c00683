/**
 * The cache of free blocks that each thread keeps: bins by powers of two, an age for every block, and a bound on it
 * all.
 */
module ThreadCaches {
  import opened TreeBin
  import opened TreeFit
  import opened TreeIndex
  import opened BinIndex
  import L = CacheList

  const BINS: nat := 10
  const CACHE_MAX: nat := 8192
  const MAX_FREE_SPACE: nat := 524288
  const CHUNK_OVERHEAD: nat := 16
  const BLOCK_HEADER: nat := 24

  /** The size recorded for the blocks in a bin. */
  function BinSize(i: nat): nat {
    Pow2(i + 4)
  }

  lemma BinSizes(i: nat)
    ensures BinSize(i) > 0 && BinSize(i + 1) == 2 * BinSize(i)
    ensures i < BINS ==> BinSize(i) <= CACHE_MAX
    ensures BinSize(BINS - 1) == CACHE_MAX
  {
    if i < BINS {
      Pow2Monotone(i + 4, 13);
    }
    Pow2Of13();
  }

  lemma Pow2Of13()
    ensures Pow2(13) == 8192
  {
    assert Pow2(4) == 16;
    assert Pow2(8) == 256;
    assert Pow2(12) == 4096;
  }

  // ------------------------------------------------------------------ the cache

  /**
   * The words in the cached blocks, the two ends of each bin, the counter of frees, and the lists that the links make,
   * newest block first.
   */
  datatype Cache = Cache(l: L.Links, size: map<Addr, nat>, used: map<Addr, nat>, heads: seq<Addr>, tails: seq<Addr>,
                         frees: nat, lists: seq<seq<Addr>>)

  /** A cached block: its recorded size is its bin's, and it really has that many bytes. */
  ghost predicate BlockOk(c: Cache, room: map<Addr, nat>, i: nat, b: Addr) {
    && b in c.size && c.size[b] == BinSize(i) && b in c.used && c.used[b] <= c.frees
    && b in room && BinSize(i) <= room[b]
  }

  ghost predicate Older(c: Cache, a: Addr, b: Addr) {
    a in c.used && b in c.used && c.used[a] > c.used[b]
  }

  ghost predicate BinOk(c: Cache, room: map<Addr, nat>, i: nat)
    requires i < |c.lists| && i < |c.heads| && i < |c.tails|
  {
    var s := c.lists[i];
    && L.ListIs(c.l, c.heads[i], c.tails[i], s)
    && (forall k {:trigger s[k]} :: 0 <= k < |s| ==> BlockOk(c, room, i, s[k]))
    && (forall j, k {:trigger s[j], s[k]} :: 0 <= j < k < |s| ==> Older(c, s[j], s[k]))
  }

  ghost predicate Shaped(c: Cache) {
    |c.heads| == BINS && |c.tails| == BINS && |c.lists| == BINS
  }

  /** No block is in two bins, and no two blocks were freed at the same count. */
  ghost predicate Different(c: Cache, i: nat, j: nat)
    requires i < |c.lists| && j < |c.lists|
  {
    forall a, b :: a in c.lists[i] && b in c.lists[j] ==>
                     a != b && (a in c.used && b in c.used ==> c.used[a] != c.used[b])
  }

  ghost predicate Sound(c: Cache, room: map<Addr, nat>) {
    && Shaped(c)
    && (forall i {:trigger BinOk(c, room, i)} :: 0 <= i < BINS ==> BinOk(c, room, i))
    && (forall i, j {:trigger Different(c, i, j)} :: 0 <= i < BINS && 0 <= j < BINS && i != j ==> Different(c, i, j))
  }

  /** The bytes recorded in the bins from `i` on. */
  function Total(lists: seq<seq<Addr>>, i: nat): nat
    decreases |lists| - i
  {
    if i >= |lists| then 0 else |lists[i]| * BinSize(i) + Total(lists, i + 1)
  }

  /** The blocks in the bins from `i` on. */
  function Blocks(lists: seq<seq<Addr>>, i: nat): multiset<Addr>
    decreases |lists| - i
  {
    if i >= |lists| then multiset{} else multiset(lists[i]) + Blocks(lists, i + 1)
  }

  lemma {:induction false} TotalUpdate(lists: seq<seq<Addr>>, i: nat, k: nat, s: seq<Addr>)
    requires i <= k < |lists|
    ensures Total(lists[k := s], i) + |lists[k]| * BinSize(k) == Total(lists, i) + |s| * BinSize(k)
    decreases |lists| - i
  {
    hide BinSize;
    if i < k {
      TotalUpdate(lists, i + 1, k, s);
    } else {
      TotalSame(lists, lists[k := s], i + 1);
    }
  }

  lemma {:induction false} TotalSame(x: seq<seq<Addr>>, y: seq<seq<Addr>>, i: nat)
    requires |x| == |y| && forall j :: i <= j < |x| ==> x[j] == y[j]
    ensures Total(x, i) == Total(y, i) && Blocks(x, i) == Blocks(y, i)
    decreases |x| - i
  {
    if i < |x| {
      TotalSame(x, y, i + 1);
    }
  }

  lemma {:induction false} BlocksUpdate(lists: seq<seq<Addr>>, i: nat, k: nat, s: seq<Addr>)
    requires i <= k < |lists|
    ensures Blocks(lists[k := s], i) + multiset(lists[k]) == Blocks(lists, i) + multiset(s)
    decreases |lists| - i
  {
    if i < k {
      BlocksUpdate(lists, i + 1, k, s);
      AddFirst(multiset(lists[i]), Blocks(lists[k := s], i + 1), multiset(lists[k]), Blocks(lists, i + 1), multiset(s));
    } else {
      TotalSame(lists, lists[k := s], i + 1);
      Swap(multiset(s), Blocks(lists, i + 1), multiset(lists[k]));
    }
  }

  lemma AddFirst<T>(m: multiset<T>, a: multiset<T>, x: multiset<T>, b: multiset<T>, y: multiset<T>)
    requires a + x == b + y
    ensures m + a + x == m + b + y
  {
    assert m + a + x == m + (a + x);
  }

  lemma Swap<T>(a: multiset<T>, b: multiset<T>, c: multiset<T>)
    ensures a + b + c == c + b + a
  {
  }

  /** One block more or less in a bin. */
  lemma TotalStep(lists: seq<seq<Addr>>, k: nat, s: seq<Addr>)
    requires k < |lists|
    ensures |s| == |lists[k]| + 1 ==> Total(lists[k := s], 0) == Total(lists, 0) + BinSize(k)
    ensures |s| + 1 == |lists[k]| ==> Total(lists[k := s], 0) + BinSize(k) == Total(lists, 0)
  {
    TotalUpdate(lists, 0, k, s);
    var n := BinSize(k);
    assert (|s| + 1) * n == |s| * n + n;
    assert (|lists[k]| + 1) * n == |lists[k]| * n + n;
  }

  // ------------------------------------------------------------------- changes

  /** A bin that nothing has been done to. */
  lemma OtherBin(c: Cache, c': Cache, room: map<Addr, nat>, room': map<Addr, nat>, j: nat)
    requires Shaped(c) && Shaped(c') && j < BINS && BinOk(c, room, j) && c'.lists[j] == c.lists[j]
    requires c'.heads[j] == c.heads[j] && c'.tails[j] == c.tails[j] && c.frees <= c'.frees
    requires forall x :: x in c.lists[j] ==>
               && x in c.l.next && x in c.l.prev && x in c'.l.next && x in c'.l.prev && c'.l.next[x] == c.l.next[x]
               && c'.l.prev[x] == c.l.prev[x] && x in c.size && x in c'.size && c'.size[x] == c.size[x]
               && x in c.used && x in c'.used && c'.used[x] == c.used[x]
    requires forall x :: x in room ==> x in room' && room'[x] == room[x]
    ensures BinOk(c', room', j)
  {
    hide L.ListIs, BinSize;
    L.Untouched(c.l, c'.l, c.heads[j], c.tails[j], c.lists[j]);
    var s := c.lists[j];
    forall k | 0 <= k < |s|
      ensures BlockOk(c', room', j, s[k])
    {
      assert BlockOk(c, room, j, s[k]);
    }
    forall i, k | 0 <= i < k < |s|
      ensures Older(c', s[i], s[k])
    {
      assert Older(c, s[i], s[k]);
    }
  }

  /** What is known of each block in a bin. */
  lemma InBin(c: Cache, room: map<Addr, nat>, i: nat, x: Addr)
    requires Shaped(c) && i < BINS && BinOk(c, room, i) && x in c.lists[i]
    ensures BlockOk(c, room, i, x) && x != 0 && x in c.l.next && x in c.l.prev
  {
    var k :| 0 <= k < |c.lists[i]| && c.lists[i][k] == x;
  }

  // --------------------------------------------------------- taking a block out

  ghost function FrontOut(c: Cache, i: nat): Cache
    requires Shaped(c) && i < BINS && c.heads[i] in c.l.next && c.lists[i] != []
  {
    var x := c.heads[i];
    var n := c.l.next[x];
    c.(l := L.PoppedFront(c.l, x), heads := c.heads[i := n], tails := if n == 0 then c.tails[i := 0] else c.tails,
       lists := c.lists[i := c.lists[i][1..]])
  }

  ghost function BackOut(c: Cache, i: nat): Cache
    requires Shaped(c) && i < BINS && c.tails[i] in c.l.prev && c.lists[i] != []
  {
    var x := c.tails[i];
    var n := c.l.prev[x];
    c.(l := L.PoppedBack(c.l, x), tails := c.tails[i := n], heads := if n == 0 then c.heads[i := 0] else c.heads,
       lists := c.lists[i := c.lists[i][..|c.lists[i]| - 1]])
  }

  /** A part of a bin, with only the links of that bin's blocks changed. */
  ghost predicate PartOf(c: Cache, c': Cache, i: nat)
    requires Shaped(c) && i < BINS
  {
    && Shaped(c') && c'.size == c.size && c'.used == c.used && c'.frees == c.frees
    && c'.l.next.Keys == c.l.next.Keys && c'.l.prev.Keys == c.l.prev.Keys
    && (forall x :: x in c.l.next && x !in c.lists[i] ==> c'.l.next[x] == c.l.next[x])
    && (forall x :: x in c.l.prev && x !in c.lists[i] ==> c'.l.prev[x] == c.l.prev[x])
    && (forall j :: 0 <= j < BINS && j != i ==>
          c'.lists[j] == c.lists[j] && c'.heads[j] == c.heads[j] && c'.tails[j] == c.tails[j])
    && (exists a, b :: 0 <= a <= b <= |c.lists[i]| && c'.lists[i] == c.lists[i][a..b])
    && L.ListIs(c'.l, c'.heads[i], c'.tails[i], c'.lists[i])
  }

  lemma PartSound(c: Cache, c': Cache, room: map<Addr, nat>, i: nat)
    requires Sound(c, room) && i < BINS && PartOf(c, c', i)
    ensures Sound(c', room)
  {
    hide L.ListIs, BinSize, BlockOk, Older;
    assert BinOk(c, room, i);
    forall j | 0 <= j < BINS
      ensures BinOk(c', room, j)
    {
      assert BinOk(c, room, j);
      if j != i {
        assert Different(c, j, i);
        PartOther(c, c', room, i, j);
      } else {
        PartSelf(c, c', room, i);
      }
    }
    forall j, k | 0 <= j < BINS && 0 <= k < BINS && j != k
      ensures Different(c', j, k)
    {
      assert Different(c, j, k);
      PartIn(c, c', i, j);
      PartIn(c, c', i, k);
    }
  }

  lemma PartIn(c: Cache, c': Cache, i: nat, j: nat)
    requires Shaped(c) && i < BINS && j < BINS && PartOf(c, c', i)
    ensures forall x :: x in c'.lists[j] ==> x in c.lists[j]
  {
    hide L.ListIs;
  }

  lemma PartOther(c: Cache, c': Cache, room: map<Addr, nat>, i: nat, j: nat)
    requires Shaped(c) && i < BINS && j < BINS && i != j && PartOf(c, c', i) && BinOk(c, room, j) && Different(c, j, i)
    ensures BinOk(c', room, j)
  {
    hide L.ListIs, BinSize, BinOk, Older;
    forall x | x in c.lists[j]
      ensures x in c.l.next && x in c.l.prev && x in c.size && x in c.used && x !in c.lists[i]
    {
      InBin(c, room, j, x);
      assert x in c.lists[i] ==> x != x;
    }
    OtherBin(c, c', room, room, j);
  }

  lemma PartSelf(c: Cache, c': Cache, room: map<Addr, nat>, i: nat)
    requires Shaped(c) && i < BINS && PartOf(c, c', i) && BinOk(c, room, i)
    ensures BinOk(c', room, i)
  {
    hide L.ListIs, BinSize;
    var a, b :| 0 <= a <= b <= |c.lists[i]| && c'.lists[i] == c.lists[i][a..b];
    var s, s' := c.lists[i], c'.lists[i];
    forall k | 0 <= k < |s'|
      ensures BlockOk(c', room, i, s'[k])
    {
      assert s'[k] == s[a + k];
      assert BlockOk(c, room, i, s[a + k]);
    }
    forall j, k | 0 <= j < k < |s'|
      ensures Older(c', s'[j], s'[k])
    {
      assert s'[j] == s[a + j] && s'[k] == s[a + k];
      assert Older(c, s[a + j], s[a + k]);
    }
  }

  lemma FrontTaken(c: Cache, room: map<Addr, nat>, i: nat)
    requires Sound(c, room) && i < BINS && c.lists[i] != []
    ensures c.heads[i] == c.lists[i][0] && c.heads[i] in c.l.next && c.heads[i] != 0
    ensures BlockOk(c, room, i, c.heads[i]) && Sound(FrontOut(c, i), room)
  {
    hide L.ListIs, BinSize, BlockOk, Older;
    assert BinOk(c, room, i);
    L.PopFront(c.l, c.heads[i], c.tails[i], c.lists[i]);
    InBin(c, room, i, c.lists[i][0]);
    var c' := FrontOut(c, i);
    var s := c.lists[i];
    assert c'.lists[i] == s[1..|s|];
    NextInList(c.l, c.heads[i], c.tails[i], s, 0);
    PartSound(c, c', room, i);
  }

  lemma NextInList(l: L.Links, head: Addr, tail: Addr, s: seq<Addr>, k: nat)
    requires L.ListIs(l, head, tail, s) && k < |s|
    ensures s[k] in l.next && s[k] in l.prev && (l.next[s[k]] != 0 ==> l.next[s[k]] in s)
    ensures l.prev[s[k]] != 0 ==> l.prev[s[k]] in s
    ensures forall x :: x in s ==> x in l.next && x in l.prev
  {
  }

  lemma BackTaken(c: Cache, room: map<Addr, nat>, i: nat)
    requires Sound(c, room) && i < BINS && c.lists[i] != []
    ensures var n := |c.lists[i]| - 1;
            && c.tails[i] == c.lists[i][n] && c.tails[i] in c.l.prev && c.tails[i] != 0
    ensures BlockOk(c, room, i, c.tails[i]) && Sound(BackOut(c, i), room)
  {
    hide L.ListIs, BinSize, BlockOk, Older;
    assert BinOk(c, room, i);
    L.PopBack(c.l, c.heads[i], c.tails[i], c.lists[i]);
    var s := c.lists[i];
    InBin(c, room, i, s[|s| - 1]);
    var c' := BackOut(c, i);
    assert c'.lists[i] == s[0..|s| - 1];
    NextInList(c.l, c.heads[i], c.tails[i], s, |s| - 1);
    PartSound(c, c', room, i);
  }

  lemma EmptyBin(c: Cache, room: map<Addr, nat>, i: nat)
    requires Sound(c, room) && i < BINS
    ensures c.heads[i] == 0 <==> c.lists[i] == []
    ensures c.tails[i] == 0 <==> c.lists[i] == []
  {
    hide BinSize, BlockOk, Older;
    assert BinOk(c, room, i);
  }

  // ------------------------------------------------------------------ putting one in

  ghost function FrontIn(c: Cache, i: nat, x: Addr): Cache
    requires Shaped(c) && i < BINS
  {
    c.(l := L.Pushed(c.l, c.heads[i], x), size := c.size[x := BinSize(i)], used := c.used[x := c.frees + 1],
       heads := c.heads[i := x], tails := if c.heads[i] != 0 then c.tails else c.tails[i := x], frees := c.frees + 1,
       lists := c.lists[i := [x] + c.lists[i]])
  }

  ghost predicate NotCached(c: Cache, x: Addr)
    requires Shaped(c)
  {
    forall i :: 0 <= i < BINS ==> x !in c.lists[i]
  }

  lemma FrontPut(c: Cache, room: map<Addr, nat>, i: nat, x: Addr)
    requires Sound(c, room) && i < BINS && x != 0 && NotCached(c, x) && x in room && BinSize(i) <= room[x]
    ensures Sound(FrontIn(c, i, x), room)
  {
    hide L.ListIs, BinSize, BlockOk, Older, BinOk, Different;
    var c' := FrontIn(c, i, x);
    forall j | 0 <= j < BINS
      ensures BinOk(c', room, j)
    {
      assert BinOk(c, room, j);
      if j == i {
        PutHere(c, room, i, x);
      } else {
        assert Different(c, j, i) && BinOk(c, room, i);
        PutElsewhere(c, room, i, x, j);
      }
    }
    forall j, k | 0 <= j < BINS && 0 <= k < BINS && j != k
      ensures Different(c', j, k)
    {
      assert Different(c, j, k) && BinOk(c, room, j) && BinOk(c, room, k);
      PutDifferent(c, room, i, x, j, k);
    }
  }

  lemma PutHere(c: Cache, room: map<Addr, nat>, i: nat, x: Addr)
    requires Shaped(c) && i < BINS && BinOk(c, room, i) && x != 0 && x !in c.lists[i] && x in room
             && BinSize(i) <= room[x]
    ensures BinOk(FrontIn(c, i, x), room, i)
  {
    hide L.ListIs, BinSize;
    L.PushFront(c.l, c.heads[i], c.tails[i], c.lists[i], x);
    var c', s := FrontIn(c, i, x), [x] + c.lists[i];
    forall k | 0 <= k < |s|
      ensures BlockOk(c', room, i, s[k])
    {
      if k > 0 {
        assert s[k] == c.lists[i][k - 1];
        assert BlockOk(c, room, i, c.lists[i][k - 1]);
      }
    }
    forall j, k | 0 <= j < k < |s|
      ensures Older(c', s[j], s[k])
    {
      assert s[k] == c.lists[i][k - 1];
      assert BlockOk(c, room, i, c.lists[i][k - 1]);
      if j > 0 {
        assert s[j] == c.lists[i][j - 1];
        assert Older(c, c.lists[i][j - 1], c.lists[i][k - 1]);
      }
    }
  }

  lemma PutElsewhere(c: Cache, room: map<Addr, nat>, i: nat, x: Addr, j: nat)
    requires Shaped(c) && i < BINS && j < BINS && i != j && BinOk(c, room, j) && BinOk(c, room, i) && Different(c, j, i)
    requires NotCached(c, x)
    ensures BinOk(FrontIn(c, i, x), room, j)
  {
    hide L.ListIs, BinSize, BinOk, Older;
    HeadOf(c, room, i);
    forall y | y in c.lists[j]
      ensures y in c.l.next && y in c.l.prev && y in c.size && y in c.used && y != x && y != c.heads[i]
    {
      InBin(c, room, j, y);
    }
    OtherBin(c, FrontIn(c, i, x), room, room, j);
  }

  lemma HeadOf(c: Cache, room: map<Addr, nat>, i: nat)
    requires Shaped(c) && i < BINS && BinOk(c, room, i)
    ensures c.heads[i] != 0 ==> c.heads[i] in c.lists[i]
  {
  }

  lemma PutDifferent(c: Cache, room: map<Addr, nat>, i: nat, x: Addr, j: nat, k: nat)
    requires Shaped(c) && i < BINS && j < BINS && k < BINS && j != k && Different(c, j, k) && NotCached(c, x)
    requires BinOk(c, room, j) && BinOk(c, room, k)
    ensures Different(FrontIn(c, i, x), j, k)
  {
    hide L.ListIs, BinSize, BinOk, Older;
    var c' := FrontIn(c, i, x);
    forall a, b | a in c'.lists[j] && b in c'.lists[k]
      ensures a != b && (a in c'.used && b in c'.used ==> c'.used[a] != c'.used[b])
    {
      if a != x {
        InBin(c, room, j, a);
      }
      if b != x {
        InBin(c, room, k, b);
      }
    }
  }

  // ------------------------------------------------------------------------ ages

  /** Every cached block was freed less than `age` frees ago. */
  ghost predicate Young(c: Cache, age: nat)
    requires Shaped(c)
  {
    forall i, b :: 0 <= i < BINS && b in c.lists[i] && b in c.used ==> c.frees - c.used[b] < age
  }

  ghost predicate YoungBin(c: Cache, i: nat, age: nat)
    requires Shaped(c) && i < BINS
  {
    forall b :: b in c.lists[i] && b in c.used ==> c.frees - c.used[b] < age
  }

  /** If the oldest block of a bin is young, all of them are. */
  lemma OldestYoung(c: Cache, room: map<Addr, nat>, i: nat, age: nat)
    requires Sound(c, room) && i < BINS && c.lists[i] != []
    requires var b := c.lists[i][|c.lists[i]| - 1]; b in c.used ==> c.frees - c.used[b] < age
    ensures YoungBin(c, i, age)
  {
    hide L.ListIs, BinSize;
    assert BinOk(c, room, i);
    var s := c.lists[i];
    var n := |s| - 1;
    assert BlockOk(c, room, i, s[n]);
    forall b | b in s && b in c.used
      ensures c.frees - c.used[b] < age
    {
      var k :| 0 <= k < |s| && s[k] == b;
      assert k < n ==> Older(c, s[k], s[n]);
    }
  }

  /** With only the newest block left, next to nothing is cached. */
  lemma {:induction false} OnlyNewest(c: Cache, room: map<Addr, nat>, i: nat)
    requires Sound(c, room) && Shaped(c) && Young(c, 1) && i <= BINS
    ensures Total(c.lists, i) <= CACHE_MAX
    decreases BINS - i
  {
    hide L.ListIs, BlockOk, Older, Sound, BinSize, Young;
    if i < BINS {
      OnlyNewest(c, room, i + 1);
      OneAtMost(c, room, i);
      BinSizes(i);
      OthersEmpty(c, room, i);
      assert |c.lists[i]| == 1 ==> |c.lists[i]| * BinSize(i) == BinSize(i);
    }
  }

  /** A young block is the newest one. */
  lemma Newest(c: Cache, room: map<Addr, nat>, i: nat, b: Addr)
    requires Sound(c, room) && Young(c, 1) && i < BINS && b in c.lists[i]
    ensures b in c.used && c.used[b] == c.frees
  {
    hide L.ListIs, BinSize;
    assert BinOk(c, room, i);
    InBin(c, room, i, b);
  }

  lemma OneAtMost(c: Cache, room: map<Addr, nat>, i: nat)
    requires Sound(c, room) && Young(c, 1) && i < BINS
    ensures |c.lists[i]| <= 1
  {
    hide L.ListIs, BinSize, Young, BlockOk;
    assert BinOk(c, room, i);
    var s := c.lists[i];
    forall k | 0 <= k < |s|
      ensures s[k] in c.used && c.used[s[k]] == c.frees
    {
      Newest(c, room, i, s[k]);
    }
    assert 1 < |s| ==> Older(c, s[0], s[1]);
  }

  lemma NoElements(s: seq<Addr>)
    requires forall b :: b !in s
    ensures s == []
  {
    var b: Addr := if s == [] then 0 else s[0];
    assert s != [] ==> b in s;
  }

  lemma {:induction false} NothingCached(lists: seq<seq<Addr>>, i: nat)
    requires forall j :: i <= j < |lists| ==> lists[j] == []
    ensures Total(lists, i) == 0 && Blocks(lists, i) == multiset{}
    decreases |lists| - i
  {
    if i < |lists| {
      NothingCached(lists, i + 1);
    }
  }

  lemma NotNewest(c: Cache, i: nat, j: nat, a: Addr)
    requires i < |c.lists| && j < |c.lists| && Different(c, i, j) && a in c.lists[i] && a in c.used
    ensures forall b :: b in c.lists[j] && b in c.used ==> c.used[b] != c.used[a]
  {
  }

  /** All blocks were freed at different counts, so no other bin holds one of the newest count. */
  lemma OthersEmpty(c: Cache, room: map<Addr, nat>, i: nat)
    requires Sound(c, room) && Young(c, 1) && i < BINS
    ensures c.lists[i] != [] ==> Total(c.lists, i + 1) == 0
  {
    hide L.ListIs, BinSize, Older, BinOk, Young, Total;
    if c.lists[i] != [] {
      var a := c.lists[i][0];
      Newest(c, room, i, a);
      forall j | i + 1 <= j < BINS
        ensures c.lists[j] == []
      {
        assert Different(c, i, j);
        NotNewest(c, i, j, a);
        forall b | b in c.lists[j]
          ensures b in c.used && c.used[b] == c.frees
        {
          Newest(c, room, j, b);
        }
        NoElements(c.lists[j]);
      }
      NothingCached(c.lists, i + 1);
    }
  }

  // ------------------------------------------------------------- for the object

  lemma BinCount()
    ensures BINS == 10
  {
  }

  lemma FreshCache(c: Cache)
    requires Shaped(c) && forall i :: 0 <= i < BINS ==> c.lists[i] == [] && c.heads[i] == 0 && c.tails[i] == 0
    ensures Sound(c, map[])
  {
  }

  lemma {:induction false} TotalZero(lists: seq<seq<Addr>>, i: nat, j: nat)
    requires Total(lists, i) == 0 && i <= j < |lists|
    ensures lists[j] == []
    decreases |lists| - i
  {
    if i < j {
      NoNegative(|lists[i]|, BinSize(i));
      TotalZero(lists, i + 1, j);
    } else {
      BinSizes(i);
      Positive(|lists[i]|, BinSize(i));
    }
  }

  lemma NoNegative(a: nat, b: nat)
    ensures a * b >= 0
  {
  }

  lemma Positive(a: nat, b: nat)
    requires b > 0
    ensures a > 0 ==> a * b > 0
  {
  }

  lemma NoBlocks(c: Cache, n: nat, age: nat)
    requires Shaped(c) && n < BINS && c.lists[n] == []
    ensures YoungBin(c, n, age)
  {
  }

  /** The recorded size of a cached block. */
  lemma SizeOf(c: Cache, room: map<Addr, nat>, n: nat, x: Addr)
    requires Sound(c, room) && n < BINS && x in c.lists[n]
    ensures x in c.size && c.size[x] == BinSize(n) && x in c.used && c.used[x] <= c.frees
    ensures x in room && BinSize(n) <= room[x] && x in c.l.next && x in c.l.prev && x != 0
  {
    hide L.ListIs, BinSize;
    assert BinOk(c, room, n);
    InBin(c, room, n, x);
  }

  lemma TailUsed(c: Cache, room: map<Addr, nat>, n: nat)
    requires Sound(c, room) && Shaped(c) && n < BINS
    ensures c.tails[n] != 0 ==>
              && c.lists[n] != [] && c.tails[n] == c.lists[n][|c.lists[n]| - 1]
              && c.tails[n] in c.used && c.used[c.tails[n]] <= c.frees
  {
    hide Sound, BinSize;
    EmptyBin(c, room, n);
    if c.lists[n] != [] {
      BackTaken(c, room, n);
      SizeOf(c, room, n, c.lists[n][|c.lists[n]| - 1]);
    }
  }

  /** Taking the last block of a bin out, and giving it back. */
  lemma LastOut(lists: seq<seq<Addr>>, n: nat, released: seq<Addr>)
    requires n < |lists| && lists[n] != []
    ensures var k := |lists[n]| - 1;
            Blocks(lists[n := lists[n][..k]], 0) + multiset(released + [lists[n][k]])
            == Blocks(lists, 0) + multiset(released)
  {
    var k := |lists[n]| - 1;
    var s := lists[n][..k];
    BlocksUpdate(lists, 0, n, s);
    assert lists[n] == s + [lists[n][k]];
    MoveOne(Blocks(lists[n := s], 0), multiset(s), multiset{lists[n][k]}, Blocks(lists, 0), multiset(released));
  }

  lemma MoveOne<T>(a: multiset<T>, s: multiset<T>, x: multiset<T>, b: multiset<T>, r: multiset<T>)
    requires a + (s + x) == b + s
    ensures a + (r + x) == b + r
  {
    forall e: T
      ensures (a + (r + x))[e] == (b + r)[e]
    {
      assert (a + (s + x))[e] == a[e] + s[e] + x[e] && (b + s)[e] == b[e] + s[e];
    }
  }

  lemma BackIs(c: Cache, n: nat)
    requires Shaped(c) && n < BINS && c.tails[n] in c.l.prev && c.lists[n] != []
    ensures var m, c' := c.l.prev[c.tails[n]], BackOut(c, n);
            && c'.l.next == (if m != 0 then c.l.next[m := 0] else c.l.next) && c'.l.prev == c.l.prev
            && c'.tails == c.tails[n := m] && c'.heads == (if m == 0 then c.heads[n := 0] else c.heads)
            && c'.lists == c.lists[n := c.lists[n][..|c.lists[n]| - 1]]
            && c'.size == c.size && c'.used == c.used && c'.frees == c.frees
  {
  }

  /** From place `k` on, the blocks were freed `age` frees ago or earlier. */
  ghost predicate OldOnes(released: seq<Addr>, k: nat, c: Cache, age: nat) {
    forall j :: k <= j < |released| ==> released[j] in c.used && c.frees - c.used[released[j]] >= age
  }

  lemma NoneOld(released: seq<Addr>, c: Cache, age: nat)
    ensures OldOnes(released, |released|, c, age)
  {
  }

  lemma OneOld(released: seq<Addr>, x: Addr, c: Cache, age: nat)
    requires x in c.used && c.frees - c.used[x] >= age
    ensures OldOnes(released + [x], |released|, c, age)
  {
  }

  lemma MoreOld(a: seq<Addr>, b: seq<Addr>, r: seq<Addr>, c: Cache, age: nat)
    requires a <= b <= r && OldOnes(b, |a|, c, age) && OldOnes(r, |b|, c, age)
    ensures a <= r && OldOnes(r, |a|, c, age)
  {
    forall j | |a| <= j < |r|
      ensures r[j] in c.used && c.frees - c.used[r[j]] >= age
    {
      assert j < |b| ==> r[j] == b[j];
    }
  }

  /** What is left of a bin when exactly the blocks freed `age` frees ago or earlier have gone. */
  ghost predicate CutBin(c: Cache, bin: seq<Addr>, rest: seq<Addr>, age: nat) {
    && rest <= bin
    && (forall b :: b in rest && b in c.used ==> c.frees - c.used[b] < age)
    && (forall k {:trigger bin[k]} :: |rest| <= k < |bin| ==> bin[k] in c.used && c.frees - c.used[bin[k]] >= age)
  }

  ghost predicate Cut(c: Cache, rest: seq<seq<Addr>>, age: nat) {
    && |c.lists| == |rest| == BINS
    && forall i {:trigger rest[i]} :: 0 <= i < BINS ==> CutBin(c, c.lists[i], rest[i], age)
  }

  lemma CutEmpty(c: Cache, age: nat)
    requires Shaped(c) && Total(c.lists, 0) == 0
    ensures Cut(c, c.lists, age)
  {
    forall i | 0 <= i < BINS
      ensures c.lists[i] == []
    {
      TotalZero(c.lists, 0, i);
    }
  }

  lemma CutAll(c: Cache, c': Cache, age: nat)
    requires Shaped(c) && Shaped(c') && c'.frees == c.frees && c'.used == c.used && Cut(c, c'.lists, age)
    ensures Young(c', age) && forall i :: 0 <= i < BINS ==> c'.lists[i] <= c.lists[i]
  {
    hide Total;
    forall i, b | 0 <= i < BINS && b in c'.lists[i] && b in c'.used
      ensures c'.frees - c'.used[b] < age
    {
      assert CutBin(c, c.lists[i], c'.lists[i], age);
    }
  }

  /** A cut at a lower age makes one at a higher age before it invisible. */
  lemma CutTwice(c: Cache, d: Cache, rest: seq<seq<Addr>>, high: nat, low: nat)
    requires Cut(c, d.lists, high) && d.frees == c.frees && d.used == c.used && Cut(d, rest, low) && low <= high
    ensures Cut(c, rest, low)
  {
    forall i | 0 <= i < BINS
      ensures CutBin(c, c.lists[i], rest[i], low)
    {
      assert CutBin(c, c.lists[i], d.lists[i], high) && CutBin(d, d.lists[i], rest[i], low);
      CutBinTwice(c, d, c.lists[i], d.lists[i], rest[i], high, low);
    }
  }

  lemma CutBinTwice(c: Cache, d: Cache, a: seq<Addr>, b: seq<Addr>, r: seq<Addr>, high: nat, low: nat)
    requires CutBin(c, a, b, high) && d.frees == c.frees && d.used == c.used && CutBin(d, b, r, low) && low <= high
    ensures CutBin(c, a, r, low)
  {
    forall k | |r| <= k < |a|
      ensures a[k] in c.used && c.frees - c.used[a[k]] >= low
    {
      assert k < |b| ==> b[k] == a[k];
    }
  }

  lemma CutIs(c: Cache, rest: seq<seq<Addr>>, age: nat)
    requires Shaped(c) && |rest| == BINS && forall i :: 0 <= i < BINS ==> CutBin(c, c.lists[i], rest[i], age)
    ensures Cut(c, rest, age)
  {
  }

  /** Some of the oldest blocks of a bin have gone. */
  ghost predicate TailOld(c: Cache, bin: seq<Addr>, rest: seq<Addr>, age: nat) {
    && rest <= bin
    && forall k {:trigger bin[k]} :: |rest| <= k < |bin| ==> bin[k] in c.used && c.frees - c.used[bin[k]] >= age
  }

  lemma TailOldAll(c: Cache, bin: seq<Addr>, age: nat)
    ensures TailOld(c, bin, bin, age)
  {
  }

  lemma TailOldMore(c: Cache, bin: seq<Addr>, rest: seq<Addr>, age: nat)
    requires TailOld(c, bin, rest, age) && rest != []
    requires var b := rest[|rest| - 1]; b in c.used && c.frees - c.used[b] >= age
    ensures TailOld(c, bin, rest[..|rest| - 1], age)
  {
  }

  lemma BinCut(c: Cache, d: Cache, bin: seq<Addr>, n: nat, age: nat)
    requires Shaped(d) && n < BINS && d.frees == c.frees && d.used == c.used
    requires TailOld(c, bin, d.lists[n], age) && YoungBin(d, n, age)
    ensures CutBin(c, bin, d.lists[n], age)
  {
  }

  ghost predicate IsAge(age: nat) {
    age == 64 || age == 32 || age == 16 || age == 8 || age == 4 || age == 2 || age == 1
  }

  /** The cache `c` was cut at `age`, since a cut at twice that age leaves `prior`, which is still too much. */
  ghost predicate Trimmed(c: Cache, rest: seq<seq<Addr>>, age: nat, prior: seq<seq<Addr>>) {
    && IsAge(age) && Cut(c, rest, age)
    && (age < 64 ==> Cut(c, prior, 2 * age) && Total(prior, 0) >= MAX_FREE_SPACE)
  }

  lemma TrimmedMore(c: Cache, d: Cache, rest: seq<seq<Addr>>, age: nat, now: nat)
    requires Shaped(c) && d.frees == c.frees && d.used == c.used && Cut(d, rest, now) && IsAge(now)
    requires if age == 0 then d == c && now == 64 else age == 2 * now && Cut(c, d.lists, age)
    requires Total(d.lists, 0) >= MAX_FREE_SPACE
    ensures Trimmed(c, rest, now, d.lists)
  {
    hide Total;
    if age > 0 {
      CutTwice(c, d, rest, age, now);
    }
  }

  lemma TrimmedIs(c: Cache, rest: seq<seq<Addr>>, age: nat, prior: seq<seq<Addr>>)
    requires Trimmed(c, rest, age, prior)
    ensures Cut(c, rest, age)
  {
  }

  /** A block of `bytes` bytes was put into the cache `c`, which held `before` bytes; now the cache is `c'`. */
  ghost predicate PutBack(c: Cache, c': Cache, before: nat, mem: Addr, bytes: nat, age: nat, prior: seq<seq<Addr>>)
    requires Shaped(c)
  {
    exists i: nat ::
      && i < BINS && BinSize(i) <= bytes < 2 * BinSize(i)
      && var d := FrontIn(c, i, mem);
         if before + BinSize(i) < MAX_FREE_SPACE then c' == d
         else Trimmed(d, c'.lists, age, prior) && c'.frees == d.frees && c'.used == d.used
  }

  lemma PutBackIs(c: Cache, c': Cache, before: nat, mem: Addr, bytes: nat, age: nat, prior: seq<seq<Addr>>, i: nat)
    requires Shaped(c) && i < BINS && BinSize(i) <= bytes < 2 * BinSize(i)
    requires var d := FrontIn(c, i, mem);
             if before + BinSize(i) < MAX_FREE_SPACE then c' == d
             else Trimmed(d, c'.lists, age, prior) && c'.frees == d.frees && c'.used == d.used
    ensures PutBack(c, c', before, mem, bytes, age, prior)
  {
    hide BinSize, FrontIn, Trimmed;
  }

  lemma Ages()
    ensures MAX_FREE_SPACE / 8192 == 64 && IsAge(64)
    ensures forall a: nat :: IsAge(a) && a > 1 ==> IsAge(a / 2) && a == 2 * (a / 2)
    ensures forall a: nat :: IsAge(a) ==> 0 < a <= 64 && (a / 2 == 0 <==> a == 1)
  {
  }

  /** Only one list is left over at an age. */
  lemma CutDecides(c: Cache, r1: seq<seq<Addr>>, r2: seq<seq<Addr>>, age: nat)
    requires Cut(c, r1, age) && Cut(c, r2, age)
    ensures r1 == r2
  {
    forall i | 0 <= i < BINS
      ensures r1[i] == r2[i]
    {
      assert CutBin(c, c.lists[i], r1[i], age) && CutBin(c, c.lists[i], r2[i], age);
      BinDecides(c, c.lists[i], r1[i], r2[i], age);
      BinDecides(c, c.lists[i], r2[i], r1[i], age);
    }
  }

  lemma Stays(c: Cache, bin: seq<Addr>, rest: seq<Addr>, age: nat, k: nat)
    requires CutBin(c, bin, rest, age) && k < |rest|
    ensures k < |bin| && (bin[k] in c.used ==> c.frees - c.used[bin[k]] < age)
  {
    assert bin[k] == rest[k] && rest[k] in rest;
  }

  lemma BinDecides(c: Cache, bin: seq<Addr>, a: seq<Addr>, b: seq<Addr>, age: nat)
    requires CutBin(c, bin, a, age) && CutBin(c, bin, b, age)
    ensures a <= b
  {
    if |b| < |a| {
      Stays(c, bin, a, age, |b|);
    }
  }

  // ------------------------------------------------------------- choosing a bin

  /** The bin for freed blocks: rounding down, so no block is recorded as larger than it is. */
  lemma BinFor(size: nat)
    requires 16 <= size <= CACHE_MAX + CHUNK_OVERHEAD
    ensures var i := Log2(size / 16); i < BINS && BinSize(i) <= size < 2 * BinSize(i)
  {
    hide Pow2, Log2;
    var i := Log2(size / 16);
    Log2Bounds(size / 16);
    Pow2Sum(i, 4);
    Pow2Of4();
    if i >= BINS {
      Pow2Monotone(BINS, i);
    }
  }

  lemma Pow2Of4()
    ensures Pow2(4) == 16 && Pow2(BINS) == 1024
  {
    assert Pow2(8) == 256;
  }

  /** The smallest bin whose blocks are big enough. */
  ghost predicate BestBin(i: nat, size: nat) {
    i < BINS && size <= BinSize(i) && (i > 0 ==> BinSize(i - 1) < size)
  }

  lemma BestBinIs(i: nat, size: nat)
    requires 16 <= size <= CACHE_MAX && i < BINS && BinSize(i) <= size < 2 * BinSize(i)
    ensures BestBin(if size > BinSize(i) then i + 1 else i, size)
    ensures size > BinSize(i) ==> BinSize(i + 1) == 2 * BinSize(i)
  {
    hide BinSize;
    BinSizes(i);
    BinSizes(BINS - 1);
    if i > 0 {
      BinSizes(i - 1);
    }
  }

  lemma BestBinFacts(i: nat, size: nat)
    requires BestBin(i, size)
    ensures i < BINS && size <= BinSize(i)
  {
  }

  lemma Limits()
    ensures BINS == 10 && CACHE_MAX == 8192 && MAX_FREE_SPACE == 524288 && CHUNK_OVERHEAD == 16 && BLOCK_HEADER == 24
  {
  }

  /** What is taken for a request whose best bin is `i`: the newest block of that bin or else of the next. */
  ghost predicate Taken(c: Cache, c': Cache, i: nat, ret: Addr)
    requires Shaped(c) && i < BINS
  {
    var k := if c.lists[i] == [] && i + 1 < BINS then i + 1 else i;
    if c.lists[k] == [] then
      ret == 0 && c' == c
    else
      ret == c.lists[k][0] && c.heads[k] in c.l.next && c' == FrontOut(c, k)
  }

  lemma TakenIs(c: Cache, i: nat, ret: Addr)
    requires Shaped(c) && i < BINS
    ensures var k := if c.lists[i] == [] && i + 1 < BINS then i + 1 else i;
            && (c.lists[k] == [] && ret == 0 ==> Taken(c, c, i, ret))
            && (c.lists[k] != [] && ret == c.lists[k][0] && c.heads[k] in c.l.next ==>
                  Taken(c, FrontOut(c, k), i, ret))
  {
  }

  lemma HeadSize(c: Cache, room: map<Addr, nat>, n: nat)
    requires Sound(c, room) && Shaped(c) && n < BINS
    ensures c.lists[n] != [] ==>
              && c.heads[n] == c.lists[n][0] && c.heads[n] in c.size && c.size[c.heads[n]] == BinSize(n)
              && c.heads[n] in c.l.next && c.heads[n] in room && BinSize(n) <= room[c.heads[n]]
  {
    hide Sound, BinSize;
    if c.lists[n] != [] {
      FrontTaken(c, room, n);
      SizeOf(c, room, n, c.lists[n][0]);
    }
  }

  lemma FrontIs(c: Cache, i: nat, x: Addr)
    requires Shaped(c) && i < BINS
    ensures var c' := FrontIn(c, i, x);
            && c'.l.next == c.l.next[x := c.heads[i]]
            && c'.l.prev == (if c.heads[i] != 0 then c.l.prev[x := 0][c.heads[i] := x] else c.l.prev[x := 0])
            && c'.size == c.size[x := BinSize(i)] && c'.used == c.used[x := c.frees + 1] && c'.frees == c.frees + 1
            && c'.heads == c.heads[i := x] && c'.tails == (if c.heads[i] != 0 then c.tails else c.tails[i := x])
            && c'.lists == c.lists[i := [x] + c.lists[i]]
  {
  }

  lemma FrontOutIs(c: Cache, i: nat)
    requires Shaped(c) && i < BINS && c.heads[i] in c.l.next && c.lists[i] != []
    ensures var n, c' := c.l.next[c.heads[i]], FrontOut(c, i);
            && c'.l.prev == (if n != 0 then c.l.prev[n := 0] else c.l.prev) && c'.l.next == c.l.next
            && c'.heads == c.heads[i := n] && c'.tails == (if n == 0 then c.tails[i := 0] else c.tails)
            && c'.lists == c.lists[i := c.lists[i][1..]]
            && c'.size == c.size && c'.used == c.used && c'.frees == c.frees
  {
  }

  lemma OneMore(lists: seq<seq<Addr>>, i: nat, x: Addr, released: seq<Addr>)
    requires i < |lists|
    ensures Blocks(lists[i := [x] + lists[i]], 0) + multiset(released)
            == Blocks(lists, 0) + multiset(released) + multiset{x}
  {
    BlocksUpdate(lists, 0, i, [x] + lists[i]);
    AddOne(Blocks(lists[i := [x] + lists[i]], 0), multiset(lists[i]), multiset{x}, Blocks(lists, 0),
           multiset(released));
  }

  lemma AddOne<T>(a: multiset<T>, s: multiset<T>, x: multiset<T>, b: multiset<T>, r: multiset<T>)
    requires a + s == b + (x + s)
    ensures a + r == b + r + x
  {
    forall e: T
      ensures (a + r)[e] == (b + r + x)[e]
    {
      assert (a + s)[e] == a[e] + s[e] && (b + (x + s))[e] == b[e] + (x[e] + s[e]);
    }
  }

  lemma OneLess(lists: seq<seq<Addr>>, i: nat, released: seq<Addr>)
    requires i < |lists| && lists[i] != []
    ensures Blocks(lists[i := lists[i][1..]], 0) + multiset(released) + multiset{lists[i][0]}
            == Blocks(lists, 0) + multiset(released)
  {
    var s := lists[i][1..];
    BlocksUpdate(lists, 0, i, s);
    assert lists[i] == [lists[i][0]] + s;
    AddOne(Blocks(lists, 0), multiset(s), multiset{lists[i][0]}, Blocks(lists[i := s], 0), multiset(released));
  }

  /** Nothing is younger than the newest block. */
  lemma NoneYoung(c: Cache, room: map<Addr, nat>)
    requires Sound(c, room) && Shaped(c) && Young(c, 0)
    ensures Total(c.lists, 0) == 0 && Blocks(c.lists, 0) == multiset{}
  {
    hide L.ListIs, BinSize, Sound, BlockOk, Older;
    forall i | 0 <= i < BINS
      ensures c.lists[i] == []
    {
      forall b | b in c.lists[i]
        ensures b in c.used && c.used[b] <= c.frees
      {
        SizeOf(c, room, i, b);
      }
      NoElements(c.lists[i]);
    }
    NothingCached(c.lists, 0);
  }

  /** One free more has been counted. */
  lemma FreeCounted(c: Cache, room: map<Addr, nat>)
    requires Sound(c, room)
    ensures Sound(c.(frees := c.frees + 1), room)
  {
    hide L.ListIs, BinSize, Different, Older;
    var c' := c.(frees := c.frees + 1);
    forall i | 0 <= i < BINS
      ensures BinOk(c', room, i)
    {
      assert BinOk(c, room, i);
      forall k | 0 <= k < |c.lists[i]|
        ensures BlockOk(c', room, i, c.lists[i][k])
      {
        assert BlockOk(c, room, i, c.lists[i][k]);
      }
      forall j, k | 0 <= j < k < |c.lists[i]|
        ensures Older(c', c.lists[i][j], c.lists[i][k])
      {
        assert Older(c, c.lists[i][j], c.lists[i][k]);
        SameOlder(c, c', c.lists[i][j], c.lists[i][k]);
      }
    }
    forall i, j | 0 <= i < BINS && 0 <= j < BINS && i != j
      ensures Different(c', i, j)
    {
      assert Different(c, i, j);
      SameDifferent(c, c', i, j);
    }
  }

  lemma SameOlder(c: Cache, c': Cache, a: Addr, b: Addr)
    requires c'.used == c.used && Older(c, a, b)
    ensures Older(c', a, b)
  {
  }

  lemma SameDifferent(c: Cache, c': Cache, i: nat, j: nat)
    requires c'.used == c.used && c'.lists == c.lists && i < |c.lists| && j < |c.lists| && Different(c, i, j)
    ensures Different(c', i, j)
  {
  }

  /** Only what room the cached blocks have matters: the allocator may reuse all other addresses as it likes. */
  lemma OtherRoom(c: Cache, room: map<Addr, nat>, room': map<Addr, nat>)
    requires Sound(c, room)
    requires forall i, x :: 0 <= i < BINS && x in c.lists[i] && x in room ==> x in room' && room'[x] == room[x]
    ensures Sound(c, room')
  {
    hide L.ListIs, BinSize, Different, Older;
    forall i | 0 <= i < BINS
      ensures BinOk(c, room', i)
    {
      assert BinOk(c, room, i);
      var s := c.lists[i];
      forall k | 0 <= k < |s|
        ensures BlockOk(c, room', i, s[k])
      {
        assert BlockOk(c, room, i, s[k]) && s[k] in s;
      }
    }
  }

  // ------------------------------------------------------------------- the object

  class ThreadCache {
    // the words in the cached blocks
    var next: map<Addr, Addr>
    var prev: map<Addr, Addr>
    var size: map<Addr, nat>
    var lastUsed: map<Addr, nat>
    // the cache's own fields; `bins` are the pairs of heads and tails
    var heads: seq<Addr>
    var tails: seq<Addr>
    var freeInCache: nat
    var mallocs: nat
    var frees: nat
    var successes: nat
    ghost var lists: seq<seq<Addr>>
    /** The blocks that have been given back to the allocator. */
    var released: seq<Addr>

    ghost function View(): Cache
      reads this`next, this`prev, this`size, this`lastUsed, this`heads, this`tails, this`frees, this`lists
    {
      Cache(L.Links(next, prev), size, lastUsed, heads, tails, frees, lists)
    }

    /** `room` tells how many bytes each block really has. */
    ghost predicate Valid(room: map<Addr, nat>)
      reads this`next, this`prev, this`size, this`lastUsed, this`heads, this`tails, this`frees, this`lists
      reads this`freeInCache
    {
      Sound(View(), room) && freeInCache == Total(lists, 0)
    }

    /** All blocks that are cached or have been given back. */
    ghost function Seen(): multiset<Addr>
      reads this`lists, this`released
    {
      Blocks(lists, 0) + multiset(released)
    }

    lemma ViewIs()
      ensures View().l == L.Links(next, prev) && View().size == size && View().used == lastUsed
      ensures View().heads == heads && View().tails == tails && View().frees == frees && View().lists == lists
    {
    }

    lemma ValidFacts(room: map<Addr, nat>)
      ensures Valid(room) <==> Sound(View(), room) && freeInCache == Total(lists, 0)
      ensures Sound(View(), room) ==> Shaped(View()) && |heads| == BINS && |tails| == BINS && |lists| == BINS
    {
    }

    constructor ()
      ensures Valid(map[]) && Seen() == multiset{} && freeInCache == 0
    {
      next, prev, size, lastUsed := map[], map[], map[], map[];
      heads, tails, lists := seq(BINS, i => 0), seq(BINS, i => 0), seq(BINS, i => []);
      freeInCache, mallocs, frees, successes, released := 0, 0, 0, 0, [];
      new;
      NothingCached(lists, 0);
      FreshCache(View());
    }

    // ------------------------------------------------------------------ ageing

    /** The oldest block of bin `n` is given back. */
    method ReleaseOldest(n: nat, ghost room: map<Addr, nat>)
      requires Valid(room) && n < BINS && tails[n] != 0
      modifies `next, `heads, `tails, `freeInCache, `lists, `released
      ensures var c := old(View());
              && Shaped(c) && c.lists[n] != [] && c.tails[n] in c.l.prev && View() == BackOut(c, n)
      ensures Valid(room)
      ensures Seen() == old(Seen()) && freeInCache <= old(freeInCache)
      ensures released == old(released) + [old(tails)[n]]
    {
      hide *;
      ghost var c := View();
      ViewIs();
      ValidFacts(room);
      EmptyBin(c, room, n);
      BackTaken(c, room, n);
      SizeOf(c, room, n, tails[n]);
      SeenIs();
      ghost var s := lists[n][..|lists[n]| - 1];
      TotalStep(lists, n, s);
      LastOut(lists, n, released);
      var f := tails[n];
      var blksize := size[f];
      tails := tails[n := prev[f]];
      if tails[n] != 0 {
        next := next[tails[n] := 0];
      } else {
        heads := heads[n := 0];
      }
      freeInCache := freeInCache - blksize;
      released := released + [f];
      lists := lists[n := s];
      BackIs(c, n);
      ViewIs();
      ValidFacts(room);
      SeenIs();
    }

    lemma SeenIs()
      ensures Seen() == Blocks(lists, 0) + multiset(released)
    {
    }

    /** `RemoveCacheEntries`: every block that has not been used for `age` frees is given back, oldest first. */
    method RemoveCacheEntries(age: nat, ghost room: map<Addr, nat>)
      requires Valid(room)
      modifies `next, `heads, `tails, `freeInCache, `lists, `released
      ensures Valid(room) && Shaped(View()) && Seen() == old(Seen()) && Cut(old(View()), lists, age)
      ensures View().frees == old(View()).frees && View().used == old(View()).used && View().lists == lists
      ensures freeInCache <= old(freeInCache)
      ensures old(released) <= released && OldOnes(released, |old(released)|, old(View()), age)
    {
      hide *;
      ghost var c := View();
      ViewIs();
      ValidFacts(room);
      BinCount();
      NoneOld(released, c, age);
      if freeInCache != 0 {
        var n := 0;
        while n < BINS
          invariant Valid(room) && Seen() == old(Seen()) && freeInCache <= old(freeInCache) && n <= BINS
          invariant View().frees == c.frees && View().used == c.used
          invariant old(released) <= released && OldOnes(released, |old(released)|, c, age)
          invariant |lists| == BINS && |tails| == BINS && Shaped(View()) && View().lists == lists
          invariant forall i :: 0 <= i < n ==> CutBin(c, c.lists[i], lists[i], age)
          invariant forall i :: n <= i < BINS ==> lists[i] == c.lists[i]
        {
          ghost var r := released;
          RemoveFrom(n, age, room, c);
          MoreOld(old(released), r, released, c, age);
          n := n + 1;
        }
        CutIs(c, lists, age);
      } else {
        CutEmpty(c, age);
      }
    }

    /** One bin, from its oldest end. */
    method RemoveFrom(n: nat, age: nat, ghost room: map<Addr, nat>, ghost c: Cache)
      requires Valid(room) && n < BINS && Shaped(View()) && |lists| == BINS && |tails| == BINS
      requires View().frees == c.frees && View().used == c.used
      modifies `next, `heads, `tails, `freeInCache, `lists, `released
      ensures Valid(room) && Seen() == old(Seen()) && freeInCache <= old(freeInCache)
      ensures View().frees == c.frees && View().used == c.used && View().lists == lists
      ensures old(released) <= released && OldOnes(released, |old(released)|, c, age)
      ensures |lists| == BINS && |tails| == BINS && Shaped(View()) && CutBin(c, old(lists)[n], lists[n], age)
      ensures forall i :: 0 <= i < BINS && i != n ==> lists[i] == old(lists)[i]
    {
      hide *;
      ViewIs();
      ValidFacts(room);
      ghost var v, bin := View(), lists[n];
      EmptyBin(v, room, n);
      TailUsed(v, room, n);
      NoneOld(released, c, age);
      TailOldAll(c, bin, age);
      while tails[n] != 0 && frees - lastUsed[tails[n]] >= age
        invariant Valid(room) && Seen() == old(Seen()) && freeInCache <= old(freeInCache)
        invariant |lists| == BINS && |tails| == BINS && Shaped(View()) && View().lists == lists
        invariant View().frees == c.frees && View().used == c.used && frees == c.frees && lastUsed == c.used
        invariant TailOld(c, bin, lists[n], age)
        invariant forall i :: 0 <= i < BINS && i != n ==> lists[i] == old(lists)[i]
        invariant old(released) <= released && OldOnes(released, |old(released)|, c, age)
        invariant tails[n] == 0 <==> lists[n] == []
        invariant tails[n] != 0 ==> tails[n] in lastUsed && tails[n] == lists[n][|lists[n]| - 1]
        decreases |lists[n]|
      {
        v := View();
        ViewIs();
        ValidFacts(room);
        EmptyBin(v, room, n);
        BackTaken(v, room, n);
        ghost var r := released;
        OneOld(r, tails[n], c, age);
        TailOldMore(c, bin, lists[n], age);
        ReleaseOldest(n, room);
        MoreOld(old(released), r, released, c, age);
        ViewIs();
        ValidFacts(room);
        BackIs(v, n);
        EmptyBin(View(), room, n);
        TailUsed(View(), room, n);
      }
      ViewIs();
      ValidFacts(room);
      if tails[n] != 0 {
        OldestYoung(View(), room, n, age);
      } else {
        NoBlocks(View(), n, age);
      }
      BinCut(c, View(), bin, n, age);
    }

    /**
     * `ReleaseFreeInCache`: exactly the blocks freed `age` frees ago or earlier go, where `age` is the greatest of 64,
     * 32, and so on down to 1 for which that is enough; for the age before, `prior` would have been left.
     */
    method ReleaseFreeInCache(ghost room: map<Addr, nat>) returns (ghost age: nat, ghost prior: seq<seq<Addr>>)
      requires Valid(room)
      modifies `next, `heads, `tails, `freeInCache, `lists, `released
      ensures Valid(room) && Seen() == old(Seen()) && old(released) <= released
      ensures freeInCache < MAX_FREE_SPACE && freeInCache <= old(freeInCache)
      ensures View().frees == old(View()).frees && View().used == old(View()).used && View().lists == lists
      ensures old(freeInCache) < MAX_FREE_SPACE ==> View() == old(View()) && released == old(released)
      ensures old(freeInCache) >= MAX_FREE_SPACE ==> Trimmed(old(View()), lists, age, prior)
    {
      hide *;
      Limits();
      Ages();
      ghost var c := View();
      ViewIs();
      ValidFacts(room);
      var now: nat := MAX_FREE_SPACE / 8192;
      age, prior := 0, c.lists;
      while now > 0 && freeInCache >= MAX_FREE_SPACE
        invariant Valid(room) && Seen() == old(Seen()) && old(released) <= released
        invariant View().frees == c.frees && View().used == c.used && View().lists == lists
        invariant freeInCache <= old(freeInCache)
        invariant now == 0 ==> freeInCache <= CACHE_MAX
        invariant age == 0 ==> View() == c && freeInCache == old(freeInCache) && released == old(released) && now == 64
        invariant age > 0 ==> old(freeInCache) >= MAX_FREE_SPACE && IsAge(age) && now == age / 2
        invariant age > 0 ==> Trimmed(c, lists, age, prior)
        decreases now
      {
        ghost var d := View();
        ValidFacts(room);
        if age > 0 {
          TrimmedIs(c, lists, age, prior);
        }
        prior := lists;
        RemoveCacheEntries(now, room);
        TrimmedMore(c, d, lists, age, now);
        if now == 1 {
          ValidFacts(room);
          CutAll(d, View(), 1);
          OnlyNewest(View(), room, 0);
          ViewIs();
        }
        age := now;
        now := now / 2;
      }
    }

    // --------------------------------------------------------- freeing and allocating

    /**
     * `threadcache_free`: a block goes to the front of the bin that its size, rounded down, selects; if too much is
     * cached then, exactly the blocks from the age on that `ReleaseFreeInCache` finds are given back.
     */
    method Free(mem: Addr, bytes: nat, ghost room: map<Addr, nat>) returns (ghost age: nat, ghost prior: seq<seq<Addr>>)
      requires Valid(room) && Shaped(View()) && mem != 0 && NotCached(View(), mem)
      requires mem in room && BLOCK_HEADER <= bytes <= room[mem] && bytes <= CACHE_MAX + CHUNK_OVERHEAD
      modifies this
      ensures Valid(room) && Seen() == old(Seen()) + multiset{mem} && freeInCache < MAX_FREE_SPACE
      ensures old(released) <= released
      ensures Shaped(old(View())) && PutBack(old(View()), View(), old(freeInCache), mem, bytes, age, prior)
    {
      hide *;
      Limits();
      BinFor(bytes);
      ghost var c, before := View(), freeInCache;
      var idx := Size2BinIdx(bytes);
      PutIn(idx, mem, room);
      ghost var d := View();
      age, prior := ReleaseFreeInCache(room);
      ViewIs();
      PutBackIs(c, View(), before, mem, bytes, age, prior, idx);
    }

    method LinkFront(idx: nat, mem: Addr)
      requires idx < |heads| && idx < |tails|
      modifies `next, `prev, `heads, `tails
      ensures var h := old(heads[idx]);
              && next == old(next)[mem := h]
              && prev == (if h != 0 then old(prev)[mem := 0][h := mem] else old(prev)[mem := 0])
              && heads == old(heads)[idx := mem]
              && tails == (if h != 0 then old(tails) else old(tails)[idx := mem])
    {
      var head := heads[idx];
      next := next[mem := head];
      prev := prev[mem := 0];
      if head != 0 {
        prev := prev[head := mem];
      } else {
        tails := tails[idx := mem];
      }
      heads := heads[idx := mem];
    }

    method PutIn(idx: nat, mem: Addr, ghost room: map<Addr, nat>)
      requires Valid(room) && Shaped(View()) && mem != 0 && NotCached(View(), mem) && idx < BINS
      requires mem in room && BinSize(idx) <= room[mem]
      modifies `next, `prev, `size, `lastUsed, `heads, `tails, `freeInCache, `frees, `lists
      ensures Valid(room) && View() == FrontIn(old(View()), idx, mem)
      ensures freeInCache == old(freeInCache) + BinSize(idx) && Seen() == old(Seen()) + multiset{mem}
    {
      hide *;
      ghost var c := View();
      ViewIs();
      ValidFacts(room);
      SeenIs();
      FrontPut(c, room, idx, mem);
      FrontIs(c, idx, mem);
      TotalStep(lists, idx, [mem] + lists[idx]);
      OneMore(lists, idx, mem, released);
      frees := frees + 1;
      lastUsed := lastUsed[mem := frees];
      size := size[mem := BinSize(idx)];
      LinkFront(idx, mem);
      freeInCache := freeInCache + BinSize(idx);
      lists := lists[idx := [mem] + lists[idx]];
      ViewIs();
      ValidFacts(room);
      SeenIs();
    }

    /** The bin to take from: the best one, or the next one up if that is empty. */
    method Pick(bytes: nat, ghost room: map<Addr, nat>) returns (idx: nat, got: nat, ghost i: nat)
      requires Valid(room) && Shaped(View()) && BLOCK_HEADER <= bytes <= CACHE_MAX
      ensures BestBin(i, bytes) && got == BinSize(i) && bytes <= got && i < BINS && idx < BINS
      ensures |lists| == BINS && |heads| == BINS && idx == if lists[i] == [] && i + 1 < BINS then i + 1 else i
      ensures heads[idx] == 0 <==> lists[idx] == []
      ensures var ret := heads[idx];
              ret != 0 ==> ret == lists[idx][0] && ret in next && ret in room && got <= room[ret]
    {
      hide *;
      Limits();
      ghost var c := View();
      ViewIs();
      ValidFacts(room);
      BinFor(bytes);
      idx := Size2BinIdx(bytes);
      BestBinIs(idx, bytes);
      got := BinSize(idx);
      if bytes > got {
        idx := idx + 1;
        got := 2 * got;
      }
      i := idx;
      BestBinFacts(i, bytes);
      EmptyBin(c, room, idx);
      HeadSize(c, room, idx);
      var blk := heads[idx];
      if blk == 0 || size[blk] < got {
        if idx < BINS - 1 {
          idx := idx + 1;
          EmptyBin(c, room, idx);
          HeadSize(c, room, idx);
          BinSizes(i);
        }
      }
    }

    /** `threadcache_malloc`: a block from the best bin, or from the next one; 0 if both are empty. */
    method Malloc(bytes: nat, ghost room: map<Addr, nat>) returns (ret: Addr, got: nat)
      requires Valid(room) && Shaped(View()) && BLOCK_HEADER <= bytes <= CACHE_MAX
      modifies this
      ensures Valid(room) && Shaped(old(View())) && released == old(released)
      ensures exists i :: BestBin(i, bytes) && got == BinSize(i) && Taken(old(View()), View(), i, ret)
      ensures ret != 0 ==> ret in room && bytes <= got <= room[ret] && Seen() + multiset{ret} == old(Seen())
      ensures ret == 0 ==> Seen() == old(Seen())
      ensures freeInCache <= old(freeInCache)
      ensures mallocs == old(mallocs) + 1 && successes == old(successes) + if ret != 0 then 1 else 0
    {
      hide *;
      var idx;
      ghost var i;
      ViewIs();
      idx, got, i := Pick(bytes, room);
      ret := heads[idx];
      TakenIs(View(), i, ret);
      mallocs := mallocs + 1;
      if ret != 0 {
        TakeOut(idx, room);
        successes := successes + 1;
      }
    }

    method TakeOut(idx: nat, ghost room: map<Addr, nat>)
      requires Valid(room) && Shaped(View()) && idx < BINS && heads[idx] != 0
      modifies `prev, `heads, `tails, `freeInCache, `lists
      ensures var c := old(View());
              && Shaped(c) && c.lists[idx] != [] && c.heads[idx] in c.l.next && View() == FrontOut(c, idx)
      ensures Valid(room) && Seen() + multiset{old(heads[idx])} == old(Seen())
      ensures freeInCache + BinSize(idx) == old(freeInCache)
    {
      hide *;
      ghost var c := View();
      ViewIs();
      ValidFacts(room);
      SeenIs();
      EmptyBin(c, room, idx);
      FrontTaken(c, room, idx);
      SizeOf(c, room, idx, heads[idx]);
      TotalStep(lists, idx, lists[idx][1..]);
      OneLess(lists, idx, released);
      FrontOutIs(c, idx);
      var blk := heads[idx];
      if next[blk] != 0 {
        prev := prev[next[blk] := 0];
      }
      heads := heads[idx := next[blk]];
      if heads[idx] == 0 {
        tails := tails[idx := 0];
      }
      freeInCache := freeInCache - size[blk];
      lists := lists[idx := lists[idx][1..]];
      ViewIs();
      ValidFacts(room);
      SeenIs();
    }

    /** `DestroyCaches`, for this cache: every block that was ever cached here has been given back. */
    method Destroy(ghost room: map<Addr, nat>)
      requires Valid(room)
      modifies this
      ensures Valid(room) && freeInCache == 0 && old(released) <= released
      ensures multiset(released) == Seen() == old(Seen())
    {
      hide *;
      ghost var c := View();
      ViewIs();
      ValidFacts(room);
      SeenIs();
      FreeCounted(c, room);
      frees := frees + 1;
      ViewIs();
      CountedIs(c);
      ValidFacts(room);
      SeenIs();
      ghost var d := View();
      RemoveCacheEntries(0, room);
      CutAll(d, View(), 0);
      ViewIs();
      ValidFacts(room);
      NoneYoung(View(), room);
      SeenIs();
    }

    static lemma CountedIs(c: Cache)
      ensures c.(frees := c.frees + 1) == Cache(c.l, c.size, c.used, c.heads, c.tails, c.frees + 1, c.lists)
    {
    }
  }
}
