/** One tree bin of the allocator: a trie over chunk sizes that branches on one size bit per level. */
module TreeBin {

  type Addr = int

  /**
   * A tree node is the first chunk of a ring of chunks of one size; `ring` lists the ring in `fd` order, from the one
   * member that has a parent.
   */
  datatype Trie = Nil | Node(ring: seq<Addr>, size: nat, left: Trie, right: Trie)

  /** A free chunk: its address and its size. */
  datatype Chunk = Chunk(at: Addr, size: nat)

  function Pow2(n: nat): (r: nat)
    ensures r > 0
  {
    if n == 0 then 1 else 2 * Pow2(n - 1)
  }

  /** Bit `b - 1` of `s`; once the bits are used up, the shifted size has only zeros left. */
  function TopBit(s: nat, b: nat): nat {
    if b == 0 then 0 else (s / Pow2(b - 1)) % 2
  }

  // ------------------------------------------------------------------ contents

  function RingChunks(ring: seq<Addr>, size: nat): multiset<Chunk> {
    if ring == [] then multiset{} else multiset{Chunk(ring[0], size)} + RingChunks(ring[1..], size)
  }

  function Chunks(t: Trie): multiset<Chunk> {
    match t
    case Nil => multiset{}
    case Node(ring, size, left, right) => RingChunks(ring, size) + Chunks(left) + Chunks(right)
  }

  function Sizes(t: Trie): set<nat> {
    match t
    case Nil => {}
    case Node(_, size, left, right) => {size} + Sizes(left) + Sizes(right)
  }

  /**
   * The invariant of a bin whose subtree `t` still branches on `b` bits: all sizes in it agree on the bits above these,
   * which make the number `hi`, each size has one node, and no ring is empty.
   */
  ghost predicate Inv(t: Trie, b: nat, hi: nat) {
    match t
    case Nil => true
    case Node(ring, size, left, right) =>
      && ring != [] && size / Pow2(b) == hi
      && (b == 0 ==> left.Nil? && right.Nil?)
      && (b > 0 ==> Inv(left, b - 1, 2 * hi) && Inv(right, b - 1, 2 * hi + 1))
      && size !in Sizes(left) && size !in Sizes(right)
  }

  lemma HalfSize(s: nat, b: nat)
    requires b > 0
    ensures s / Pow2(b - 1) == 2 * (s / Pow2(b)) + TopBit(s, b)
  {
    var p := Pow2(b - 1);
    var q, r := s / p, s % p;
    assert s == q * p + r;
    var q2, r2 := q / 2, q % 2;
    assert q == 2 * q2 + r2;
    assert s == q2 * (2 * p) + (r2 * p + r) by {
      assert (2 * q2 + r2) * p == q2 * (2 * p) + r2 * p;
    }
    assert 0 <= r2 * p + r < 2 * p;
    DivIs(s, 2 * p, q2, r2 * p + r);
  }

  lemma DivIs(s: nat, d: nat, q: nat, r: nat)
    requires d > 0 && s == q * d + r && r < d
    ensures s / d == q
  {
    var q', r' := s / d, s % d;
    var k := q - q';
    assert k * d == r' - r by {
      assert q * d - q' * d == k * d;
    }
    assert (-k) * d == r' - r || (-k) * d == r - r';
    if k >= 1 {
      AtLeast(k, d);
    } else if k <= -1 {
      AtLeast(-k, d);
    }
  }

  lemma AtLeast(k: int, d: int)
    requires k >= 1 && d >= 1
    ensures k * d >= d
  {
  }

  /** All sizes in a subtree have the same leading bits. */
  lemma {:induction false} SizesHigh(t: Trie, b: nat, hi: nat, s: nat)
    requires Inv(t, b, hi) && s in Sizes(t)
    ensures s / Pow2(b) == hi
    decreases t
  {
    if s != t.size {
      if s in Sizes(t.left) {
        SizesHigh(t.left, b - 1, 2 * hi, s);
      } else {
        SizesHigh(t.right, b - 1, 2 * hi + 1, s);
      }
      HalfSize(s, b);
    }
  }

  /** The sizes are those of the chunks. */
  lemma {:induction false} ChunkSize(t: Trie, c: Chunk)
    requires c in Chunks(t)
    ensures c.size in Sizes(t)
    decreases t
  {
    RingSize(t.ring, t.size);
    if c !in RingChunks(t.ring, t.size) {
      if c in Chunks(t.left) {
        ChunkSize(t.left, c);
      } else {
        ChunkSize(t.right, c);
      }
    }
  }

  /** The first chunk of the ring with this size. */
  function HeadOf(t: Trie, s: nat): Addr {
    if t.Nil? then 0
    else if t.size == s then (if t.ring == [] then 0 else t.ring[0])
    else if s in Sizes(t.left) then HeadOf(t.left, s)
    else HeadOf(t.right, s)
  }

  lemma {:induction false} SizeHasChunk(t: Trie, b: nat, hi: nat, s: nat)
    requires Inv(t, b, hi) && s in Sizes(t)
    ensures Chunk(HeadOf(t, s), s) in Chunks(t)
    decreases t
  {
    RingSize(t.ring, t.size);
    if t.size != s {
      if s in Sizes(t.left) {
        SizeHasChunk(t.left, b - 1, 2 * hi, s);
      } else {
        SizeHasChunk(t.right, b - 1, 2 * hi + 1, s);
      }
    }
  }

  lemma {:induction false} RingSize(ring: seq<Addr>, size: nat)
    ensures forall c :: c in RingChunks(ring, size) <==> c.size == size && c.at in ring
  {
    if ring != [] {
      RingSize(ring[1..], size);
    }
  }

  lemma {:induction false} RingConcat(x: seq<Addr>, y: seq<Addr>, size: nat)
    ensures RingChunks(x + y, size) == RingChunks(x, size) + RingChunks(y, size)
  {
    if x == [] {
      assert x + y == y;
    } else {
      RingConcat(x[1..], y, size);
      RingFirst(x, y, size);
      Sum(multiset{Chunk(x[0], size)}, RingChunks(x[1..], size), RingChunks(y, size));
    }
  }

  lemma RingFirst(x: seq<Addr>, y: seq<Addr>, size: nat)
    requires x != []
    ensures RingChunks(x + y, size) == multiset{Chunk(x[0], size)} + RingChunks(x[1..] + y, size)
  {
    assert (x + y)[1..] == x[1..] + y;
  }

  lemma Sum<T>(a: multiset<T>, b: multiset<T>, c: multiset<T>)
    ensures a + (b + c) == a + b + c
  {
  }

  /** A tree is never deeper than there are bits to branch on. */
  function Depth(t: Trie): nat {
    if t.Nil? then 0 else 1 + (if Depth(t.left) < Depth(t.right) then Depth(t.right) else Depth(t.left))
  }

  lemma {:induction false} DepthBound(t: Trie, b: nat, hi: nat)
    requires Inv(t, b, hi)
    ensures Depth(t) <= b + 1
    decreases t
  {
    if t.Node? && b > 0 {
      DepthBound(t.left, b - 1, 2 * hi);
      DepthBound(t.right, b - 1, 2 * hi + 1);
    }
  }

  /** What the invariant says of a node, and back. */
  lemma Open(t: Trie, b: nat, hi: nat)
    requires Inv(t, b, hi) && t.Node?
    ensures t.ring != [] && t.size / Pow2(b) == hi && t.size !in Sizes(t.left) && t.size !in Sizes(t.right)
    ensures b == 0 ==> t.left.Nil? && t.right.Nil?
    ensures b > 0 ==> Inv(t.left, b - 1, 2 * hi) && Inv(t.right, b - 1, 2 * hi + 1)
    ensures Sizes(t) == {t.size} + Sizes(t.left) + Sizes(t.right)
    ensures Chunks(t) == RingChunks(t.ring, t.size) + Chunks(t.left) + Chunks(t.right)
  {
  }

  lemma Close(ring: seq<Addr>, size: nat, left: Trie, right: Trie, b: nat, hi: nat)
    requires ring != [] && size / Pow2(b) == hi && size !in Sizes(left) && size !in Sizes(right)
    requires b == 0 ==> left.Nil? && right.Nil?
    requires b > 0 ==> Inv(left, b - 1, 2 * hi) && Inv(right, b - 1, 2 * hi + 1)
    ensures var t := Node(ring, size, left, right);
            && Inv(t, b, hi) && Sizes(t) == {size} + Sizes(left) + Sizes(right)
            && Chunks(t) == RingChunks(ring, size) + Chunks(left) + Chunks(right)
  {
  }

  lemma NilFacts(b: nat, hi: nat)
    ensures Inv(Nil, b, hi) && Sizes(Nil) == {} && Chunks(Nil) == multiset{}
  {
  }

  lemma AddLeft<T>(a: multiset<T>, l: multiset<T>, r: multiset<T>, x: multiset<T>)
    ensures a + (l + x) + r == (a + l + r) + x
  {
  }

  lemma AddRight<T>(a: multiset<T>, l: multiset<T>, r: multiset<T>, x: multiset<T>)
    ensures a + l + (r + x) == (a + l + r) + x
  {
  }

  lemma AddRing<T>(a: multiset<T>, l: multiset<T>, r: multiset<T>, x: multiset<T>)
    ensures (a + x) + l + r == (a + l + r) + x
  {
  }

  // ----------------------------------------------------------------- insertion

  /** The descent follows the bits of the size until it meets that size or a free place. */
  function Insert(t: Trie, b: nat, s: nat, x: Addr): Trie {
    match t
    case Nil => Node([x], s, Nil, Nil)
    case Node(ring, size, left, right) =>
      if size != s then
        var b' := if b == 0 then 0 else b - 1;
        if TopBit(s, b) == 0 then Node(ring, size, Insert(left, b', s, x), right)
        else Node(ring, size, left, Insert(right, b', s, x))
      else if ring == [] then Node([x], s, left, right)
      else Node([ring[0], x] + ring[1..], size, left, right)
  }

  /** Insertion keeps the trie and adds exactly the one chunk. */
  lemma {:induction false} InsertKeeps(t: Trie, b: nat, hi: nat, s: nat, x: Addr)
    requires Inv(t, b, hi) && s / Pow2(b) == hi
    ensures Inv(Insert(t, b, s, x), b, hi)
    ensures Chunks(Insert(t, b, s, x)) == Chunks(t) + multiset{Chunk(x, s)}
    ensures Sizes(Insert(t, b, s, x)) == Sizes(t) + {s}
    decreases t
  {
    hide Inv, Sizes, Chunks, RingChunks, Pow2, TopBit;
    match t
    case Nil =>
      NilFacts(b, hi);
      NilSides(b, hi);
      RingOne(x, s);
      Close([x], s, Nil, Nil, b, hi);
    case Node(ring, size, left, right) =>
      Open(t, b, hi);
      if size != s {
        NoBitsLeft(s, size, b, hi);
        HalfSize(s, b);
        BitRange(s, b);
        var one := multiset{Chunk(x, s)};
        if TopBit(s, b) == 0 {
          InsertKeeps(left, b - 1, 2 * hi, s, x);
          Close(ring, size, Insert(left, b - 1, s, x), right, b, hi);
          AddLeft(RingChunks(ring, size), Chunks(left), Chunks(right), one);
        } else {
          InsertKeeps(right, b - 1, 2 * hi + 1, s, x);
          Close(ring, size, left, Insert(right, b - 1, s, x), b, hi);
          AddRight(RingChunks(ring, size), Chunks(left), Chunks(right), one);
        }
      } else {
        RingInsert(ring, size, x);
        Close([ring[0], x] + ring[1..], size, left, right, b, hi);
        AddRing(RingChunks(ring, size), Chunks(left), Chunks(right), multiset{Chunk(x, s)});
      }
  }

  lemma NilSides(b: nat, hi: nat)
    ensures b > 0 ==> Inv(Nil, b - 1, 2 * hi) && Inv(Nil, b - 1, 2 * hi + 1)
  {
  }

  lemma BitRange(s: nat, b: nat)
    ensures 0 <= TopBit(s, b) <= 1
  {
  }

  lemma NoBitsLeft(s: nat, size: nat, b: nat, hi: nat)
    requires s / Pow2(b) == hi && size / Pow2(b) == hi && s != size
    ensures b > 0
  {
  }

  lemma RingInsert(ring: seq<Addr>, size: nat, x: Addr)
    requires ring != []
    ensures RingChunks([ring[0], x] + ring[1..], size) == RingChunks(ring, size) + multiset{Chunk(x, size)}
  {
    var r := [ring[0], x] + ring[1..];
    assert r[1..] == [x] + ring[1..];
    assert r[1..][1..] == ring[1..];
  }

  // ------------------------------------------------------------------ unlinking

  /** The leaf that takes the place of an inner node: the right child is preferred at every step. */
  function LastLeaf(t: Trie): (r: Trie)
    requires t.Node?
    ensures r.Node?
  {
    if t.right.Node? then LastLeaf(t.right) else if t.left.Node? then LastLeaf(t.left) else t
  }

  function WithoutLeaf(t: Trie): Trie
    requires t.Node?
  {
    if t.right.Node? then Node(t.ring, t.size, t.left, WithoutLeaf(t.right))
    else if t.left.Node? then Node(t.ring, t.size, WithoutLeaf(t.left), t.right)
    else Nil
  }

  /** The ring without `x`; if `x` was the member with the parent, its predecessor in the ring takes over. */
  function RingWithout(ring: seq<Addr>, x: Addr): seq<Addr>
    requires |ring| > 1 && x in ring
  {
    var n := |ring| - 1;
    if x == ring[0] then [ring[n]] + ring[1..n]
    else
      var i := Place(ring, x);
      ring[..i] + ring[i + 1..]
  }

  function Place(ring: seq<Addr>, x: Addr): (i: nat)
    requires x in ring
    ensures i < |ring| && ring[i] == x
  {
    if ring[0] == x then 0 else 1 + Place(ring[1..], x)
  }

  /** The node of a chunk that was the last of its size: a leaf from below takes its place. */
  function Replace(t: Trie): Trie
    requires t.Node?
  {
    if t.right.Node? then
      var r := LastLeaf(t.right);
      Node(r.ring, r.size, t.left, WithoutLeaf(t.right))
    else if t.left.Node? then
      var r := LastLeaf(t.left);
      Node(r.ring, r.size, WithoutLeaf(t.left), t.right)
    else Nil
  }

  /** The trie without the chunk `x` of size `s`. */
  function Unlink(t: Trie, b: nat, s: nat, x: Addr): Trie {
    match t
    case Nil => Nil
    case Node(ring, size, left, right) =>
      if size != s then
        var b' := if b == 0 then 0 else b - 1;
        if TopBit(s, b) == 0 then Node(ring, size, Unlink(left, b', s, x), right)
        else Node(ring, size, left, Unlink(right, b', s, x))
      else if |ring| > 1 && x in ring then Node(RingWithout(ring, x), size, left, right)
      else Replace(t)
  }

  lemma RingRemove(ring: seq<Addr>, size: nat, x: Addr)
    requires |ring| > 1 && x in ring
    ensures RingChunks(RingWithout(ring, x), size) + multiset{Chunk(x, size)} == RingChunks(ring, size)
    ensures RingWithout(ring, x) != []
  {
    var n := |ring| - 1;
    if x == ring[0] {
      RotateRing(ring, size);
    } else {
      var i := Place(ring, x);
      CutRing(ring, size, i);
    }
  }

  lemma RotateRing(ring: seq<Addr>, size: nat)
    requires |ring| > 1
    ensures var n := |ring| - 1;
            RingChunks([ring[n]] + ring[1..n], size) + multiset{Chunk(ring[0], size)} == RingChunks(ring, size)
  {
    var n := |ring| - 1;
    var mid := ring[1..n];
    assert ring[1..] == mid + [ring[n]];
    RingConcat(mid, [ring[n]], size);
    RingConcat([ring[n]], mid, size);
    RingOne(ring[n], size);
  }

  lemma RingOne(x: Addr, size: nat)
    ensures RingChunks([x], size) == multiset{Chunk(x, size)}
  {
    assert RingChunks([x], size) == multiset{Chunk(x, size)} + RingChunks([], size);
  }

  lemma CutRing(ring: seq<Addr>, size: nat, i: nat)
    requires i < |ring|
    ensures RingChunks(ring[..i] + ring[i + 1..], size) + multiset{Chunk(ring[i], size)} == RingChunks(ring, size)
  {
    var x, y := ring[..i], ring[i + 1..];
    assert ring == x + ([ring[i]] + y);
    RingConcat(x, [ring[i]] + y, size);
    RingConcat([ring[i]], y, size);
    RingConcat(x, y, size);
    RingOne(ring[i], size);
  }

  /** A size on the left has a clear bit where a size on the right has a set one. */
  lemma SidesApart(t: Trie, b: nat, hi: nat)
    requires Inv(t, b, hi) && t.Node?
    ensures Sizes(t.left) !! Sizes(t.right)
  {
    forall s | s in Sizes(t.left)
      ensures s !in Sizes(t.right)
    {
      SizesHigh(t.left, b - 1, 2 * hi, s);
      if s in Sizes(t.right) {
        SizesHigh(t.right, b - 1, 2 * hi + 1, s);
      }
    }
  }

  /** Taking the last leaf out of a subtree. */
  lemma {:induction false} LeafTaken(t: Trie, b: nat, hi: nat)
    requires Inv(t, b, hi) && t.Node?
    ensures var r, t' := LastLeaf(t), WithoutLeaf(t);
            && r.Node? && r.ring != [] && r.size / Pow2(b) == hi
            && Inv(t', b, hi) && r.size !in Sizes(t') && Sizes(t) == Sizes(t') + {r.size}
            && Chunks(t) == Chunks(t') + RingChunks(r.ring, r.size)
    decreases t
  {
    hide Inv, Sizes, Chunks, RingChunks, Pow2, TopBit;
    Open(t, b, hi);
    SidesApart(t, b, hi);
    NilFacts(b, hi);
    var r := LastLeaf(t);
    if t.right.Node? {
      LeafTaken(t.right, b - 1, 2 * hi + 1);
      HalfSize(r.size, b);
      RightHalf(r.size, b, hi);
      Close(t.ring, t.size, t.left, WithoutLeaf(t.right), b, hi);
      AddRight(RingChunks(t.ring, t.size), Chunks(t.left), Chunks(WithoutLeaf(t.right)), RingChunks(r.ring, r.size));
    } else if t.left.Node? {
      LeafTaken(t.left, b - 1, 2 * hi);
      HalfSize(r.size, b);
      LeftHalf(r.size, b, hi);
      Close(t.ring, t.size, WithoutLeaf(t.left), t.right, b, hi);
      AddLeft(RingChunks(t.ring, t.size), Chunks(WithoutLeaf(t.left)), Chunks(t.right), RingChunks(r.ring, r.size));
    }
  }

  lemma RightHalf(s: nat, b: nat, hi: nat)
    requires b > 0 && s / Pow2(b - 1) == 2 * hi + 1
    ensures s / Pow2(b) == hi
  {
    HalfSize(s, b);
    BitRange(s, b);
    hide TopBit, Pow2;
  }

  lemma LeftHalf(s: nat, b: nat, hi: nat)
    requires b > 0 && s / Pow2(b - 1) == 2 * hi
    ensures s / Pow2(b) == hi
  {
    HalfSize(s, b);
    BitRange(s, b);
    hide TopBit, Pow2;
  }

  /** The replacement of a node keeps the trie and takes away exactly the node's ring. */
  lemma ReplaceKeeps(t: Trie, b: nat, hi: nat)
    requires Inv(t, b, hi) && t.Node?
    ensures var t' := Replace(t);
            && Inv(t', b, hi)
            && Chunks(t) == Chunks(t') + RingChunks(t.ring, t.size)
            && Sizes(t') == Sizes(t) - {t.size}
  {
    hide Inv, Sizes, Chunks, RingChunks, Pow2, TopBit;
    Open(t, b, hi);
    SidesApart(t, b, hi);
    NilFacts(b, hi);
    if t.right.Node? {
      var r := LastLeaf(t.right);
      LeafTaken(t.right, b - 1, 2 * hi + 1);
      RightHalf(r.size, b, hi);
      Close(r.ring, r.size, t.left, WithoutLeaf(t.right), b, hi);
      SwapRings(RingChunks(t.ring, t.size), Chunks(t.left), Chunks(WithoutLeaf(t.right)), RingChunks(r.ring, r.size));
    } else if t.left.Node? {
      var r := LastLeaf(t.left);
      LeafTaken(t.left, b - 1, 2 * hi);
      LeftHalf(r.size, b, hi);
      Close(r.ring, r.size, WithoutLeaf(t.left), t.right, b, hi);
      SwapRings(RingChunks(t.ring, t.size), Chunks(t.right), Chunks(WithoutLeaf(t.left)), RingChunks(r.ring, r.size));
    }
  }

  lemma SwapRings<T>(a: multiset<T>, l: multiset<T>, r: multiset<T>, x: multiset<T>)
    ensures a + l + (r + x) == (x + l + r) + a && a + (r + x) + l == (x + r + l) + a
  {
  }

  /** Unlinking keeps the trie and takes away exactly the one chunk. */
  lemma {:induction false} UnlinkKeeps(t: Trie, b: nat, hi: nat, s: nat, x: Addr)
    requires Inv(t, b, hi) && Chunk(x, s) in Chunks(t)
    ensures Inv(Unlink(t, b, s, x), b, hi)
    ensures Chunks(Unlink(t, b, s, x)) + multiset{Chunk(x, s)} == Chunks(t)
    ensures Sizes(Unlink(t, b, s, x)) <= Sizes(t)
    decreases t
  {
    hide Inv, Sizes, Chunks, RingChunks, Pow2, TopBit;
    NotNil(t, Chunk(x, s));
    Open(t, b, hi);
    ChunkSize(t, Chunk(x, s));
    SizesHigh(t, b, hi, s);
    var one := multiset{Chunk(x, s)};
    if t.size != s {
      NoBitsLeft(s, t.size, b, hi);
      HalfSize(s, b);
      BitRange(s, b);
      WhichSide(t, b, hi, s, x);
      if TopBit(s, b) == 0 {
        UnlinkKeeps(t.left, b - 1, 2 * hi, s, x);
        var l' := Unlink(t.left, b - 1, s, x);
        Close(t.ring, t.size, l', t.right, b, hi);
        AddLeft(RingChunks(t.ring, t.size), Chunks(l'), Chunks(t.right), one);
      } else {
        UnlinkKeeps(t.right, b - 1, 2 * hi + 1, s, x);
        var r' := Unlink(t.right, b - 1, s, x);
        Close(t.ring, t.size, t.left, r', b, hi);
        AddRight(RingChunks(t.ring, t.size), Chunks(t.left), Chunks(r'), one);
      }
    } else {
      InRing(t, b, hi, x);
      if |t.ring| > 1 {
        RingRemove(t.ring, s, x);
        var ring' := RingWithout(t.ring, x);
        Close(ring', t.size, t.left, t.right, b, hi);
        AddRing(RingChunks(ring', t.size), Chunks(t.left), Chunks(t.right), one);
      } else {
        ReplaceKeeps(t, b, hi);
        RingOne(x, s);
        assert t.ring == [x];
      }
    }
  }

  lemma NotNil(t: Trie, c: Chunk)
    requires c in Chunks(t)
    ensures t.Node?
  {
  }

  /** The size bit tells on which side a chunk is. */
  lemma WhichSide(t: Trie, b: nat, hi: nat, s: nat, x: Addr)
    requires Inv(t, b, hi) && Chunk(x, s) in Chunks(t) && t.Node? && t.size != s && b > 0 && s / Pow2(b) == hi
    ensures Chunk(x, s) in Chunks(if TopBit(s, b) == 0 then t.left else t.right)
  {
    hide Inv, Chunks, Pow2, TopBit, Sizes, RingChunks;
    NotNil(t, Chunk(x, s));
    Open(t, b, hi);
    HalfSize(s, b);
    RingSize(t.ring, t.size);
    if Chunk(x, s) in Chunks(t.left) {
      ChunkSize(t.left, Chunk(x, s));
      SizesHigh(t.left, b - 1, 2 * hi, s);
    } else {
      ChunkSize(t.right, Chunk(x, s));
      SizesHigh(t.right, b - 1, 2 * hi + 1, s);
    }
  }

  lemma InRing(t: Trie, b: nat, hi: nat, x: Addr)
    requires t.Node? && Inv(t, b, hi) && Chunk(x, t.size) in Chunks(t)
    ensures x in t.ring
  {
    RingSize(t.ring, t.size);
    if Chunk(x, t.size) in Chunks(t.left) {
      ChunkSize(t.left, Chunk(x, t.size));
    } else if Chunk(x, t.size) in Chunks(t.right) {
      ChunkSize(t.right, Chunk(x, t.size));
    }
  }

  // --------------------------------------------------------------- smallest size

  function LeftmostChild(t: Trie): Trie
    requires t.Node?
  {
    if t.left.Node? then t.left else t.right
  }

  /** The least size on the path of leftmost children. */
  function PathMin(t: Trie): nat
    requires t.Node?
    decreases t
  {
    var c := LeftmostChild(t);
    if c.Nil? then t.size else if t.size <= PathMin(c) then t.size else PathMin(c)
  }

  /** That path goes through the smallest chunk of all. */
  lemma {:induction false} PathMinIsLeast(t: Trie, b: nat, hi: nat)
    requires Inv(t, b, hi) && t.Node?
    ensures PathMin(t) in Sizes(t) && forall s :: s in Sizes(t) ==> PathMin(t) <= s
    decreases t
  {
    var c := LeftmostChild(t);
    if c.Node? {
      if t.left.Node? {
        PathMinIsLeast(t.left, b - 1, 2 * hi);
        forall s | s in Sizes(t.right)
          ensures PathMin(t.left) <= s
        {
          SizesHigh(t.right, b - 1, 2 * hi + 1, s);
          SizesHigh(t.left, b - 1, 2 * hi, PathMin(t.left));
          HighOrder(PathMin(t.left), s, b - 1);
        }
      } else {
        PathMinIsLeast(t.right, b - 1, 2 * hi + 1);
      }
    }
  }

  /** Greater leading bits, greater number. */
  lemma HighOrder(x: nat, y: nat, b: nat)
    requires x / Pow2(b) < y / Pow2(b)
    ensures x < y
  {
    var p := Pow2(b);
    assert x == (x / p) * p + x % p && y == (y / p) * p + y % p;
    var k := y / p - x / p;
    AtLeast(k, p);
    assert (y / p) * p - (x / p) * p == k * p;
  }
}
