/** The search of the tree bins for the best fitting chunk. */
module TreeSearch {
  import opened TreeBin
  import opened TreeFit
  import opened TreeIndex
  import opened BinMap

  /** `v` is a node of `root`: its first chunk can be taken from there. */
  ghost predicate NodeOf(v: Trie, root: Trie) {
    v.Node? ==> v.ring != [] && Chunk(v.ring[0], v.size) in Chunks(root)
  }

  ghost predicate Trieish(t: Trie) {
    exists b: nat, hi: nat :: Inv(t, b, hi)
  }

  // --------------------------------------------------------- following the bits

  /** The state of the descent: `v` is the best of the nodes seen, `rst` the deepest right subtree not taken. */
  ghost predicate Going(root: Trie, v: Trie, rsize: nat, seen: set<nat>, t: Trie, right: set<nat>, rst: Trie,
                        b: nat, hi: nat, nb: nat) {
    && Looked(root, v, rsize, seen, nb) && b <= WORD_BITS && nb / Pow2(b) == hi
    && Inv(t, b, hi) && Fit64(root)
    && Cover(root, seen, t, right, rst, b, hi)
  }

  /** What the descent leaves to do: an exact fit, or sizes above `nb` whose least is in the subtree `t`. */
  ghost predicate Descended(root: Trie, v: Trie, rsize: nat, t: Trie, seen: set<nat>, right: set<nat>, nb: nat) {
    && Looked(root, v, rsize, seen, nb)
    && Chunks(t) <= Chunks(root) && Trieish(t) && Sizes(t) <= Sizes(root)
    && if v.Node? && rsize == 0 then seen <= Sizes(root)
       else Sizes(root) == seen + right && Untaken(t, right) && forall r :: r in right ==> r > nb
  }

  /** The best of the nodes seen is known. */
  ghost predicate Looked(root: Trie, v: Trie, rsize: nat, seen: set<nat>, nb: nat) {
    0 < nb < Words() && Best(v, rsize, seen, nb) && NodeOf(v, root) && (v.Node? ==> v.size < Words())
  }

  ghost function High(nb: nat, b: nat): nat {
    hide Pow2;
    Quotient(nb, Pow2(b));
    nb / Pow2(b)
  }

  ghost function NextBits(b: nat): nat {
    if b == 0 then 0 else b - 1
  }

  ghost function NextSeen(seen: set<nat>, t: Trie, b: nat, nb: nat): set<nat>
    requires t.Node?
  {
    if TopBit(nb, b) == 0 then seen + {t.size} else seen + {t.size} + Sizes(t.left)
  }

  ghost function NextRight(right: set<nat>, t: Trie, b: nat, nb: nat): set<nat>
    requires t.Node?
  {
    if TopBit(nb, b) == 0 then right + Sizes(t.right) else right
  }

  function Child(t: Trie, bit: nat): Trie
    requires t.Node?
  {
    if bit == 0 then t.left else t.right
  }

  function NextRst(rst: Trie, t: Trie, bit: nat): Trie
    requires t.Node?
  {
    if t.right.Node? && t.right != Child(t, bit) then t.right else rst
  }

  lemma GoingStarts(root: Trie, nb: nat, b: nat, hi: nat)
    requires Inv(root, b, hi) && Fit64(root) && 0 < nb < Words() && nb / Pow2(b) == hi && b <= WORD_BITS
    ensures Going(root, Nil, Minus(0, nb), {}, root, {}, Nil, b, hi, nb)
  {
    NilFacts(0, 0);
    hide Inv, Chunks, Sizes;
  }

  /** Looking at the node of the descent. */
  lemma GoingLook(root: Trie, v: Trie, rsize: nat, seen: set<nat>, t: Trie, right: set<nat>, rst: Trie, b: nat, hi: nat,
                  nb: nat)
    requires t.Node? && Going(root, v, rsize, seen, t, right, rst, b, hi, nb)
    ensures t.size < Words()
    ensures nb < Words()
    ensures var trem := Minus(t.size, nb);
            var v', rsize' := if trem < rsize then t else v, if trem < rsize then trem else rsize;
            Looked(root, v', rsize', seen + {t.size}, nb)
  {
    hide Inv, Chunks, Sizes, RingChunks, Pow2, Untaken, LeastFit;
    HasSize(t);
    Look(v, rsize, seen, nb, t);
    Open(t, b, hi);
    RingSize(t.ring, t.size);
    assert Chunk(t.ring[0], t.size) in Chunks(t);
  }

  /** One more step down. */
  lemma GoingStep(root: Trie, v: Trie, rsize: nat, seen: set<nat>, t: Trie, right: set<nat>, rst: Trie, b: nat, hi: nat,
                  nb: nat, v': Trie, rsize': nat)
    requires t.Node? && Going(root, v, rsize, seen, t, right, rst, b, hi, nb)
    requires Looked(root, v', rsize', seen + {t.size}, nb)
    ensures var bit := TopBit(nb, b);
            Going(root, v', rsize', NextSeen(seen, t, b, nb), Child(t, bit), NextRight(right, t, b, nb),
                  NextRst(rst, t, bit), NextBits(b), High(nb, NextBits(b)), nb)
    ensures b == 0 ==> t.left.Nil? && t.right.Nil?
  {
    hide Inv, Chunks, RingChunks, Pow2, Untaken, TopBit, Sizes, Cover, LeastFit;
    Open(t, b, hi);
    if b == 0 {
      NoBit(nb);
      NilFacts(0, hi);
      AtLeaf(root, seen, t, right, rst, hi);
    } else {
      HalfSize(nb, b);
      BitRange(nb, b);
      if TopBit(nb, b) == 0 {
        GoLeft(root, seen, t, right, rst, b, hi);
        ChildrenDiffer(t, b, hi);
      } else {
        GoRight(root, seen, t, right, rst, b, hi, nb);
        Skip(v', rsize', seen + {t.size}, nb, Sizes(t.left));
      }
    }
  }

  lemma NoBit(nb: nat)
    ensures TopBit(nb, 0) == 0
  {
  }

  lemma AtLeaf(root: Trie, seen: set<nat>, t: Trie, right: set<nat>, rst: Trie, hi: nat)
    requires t.Node? && t.left.Nil? && t.right.Nil? && Cover(root, seen, t, right, rst, 0, hi)
    ensures Cover(root, seen + {t.size}, Nil, right + Sizes(Nil), rst, 0, hi)
  {
    hide Inv, Untaken;
    assert Sizes(t) == {t.size};
    assert right + Sizes(Nil) == right;
    assert Sizes(root) == seen + {t.size} + Sizes(Nil) + right;
    assert Chunks(Nil) <= Chunks(root);
  }

  lemma ChildrenDiffer(t: Trie, b: nat, hi: nat)
    requires t.Node? && Inv(t, b, hi)
    ensures t.right.Node? ==> t.right != t.left
  {
    if t.right.Node? {
      SidesApart(t, b, hi);
      assert t.right.size in Sizes(t.right);
    }
  }

  /** The descent ends at a free place: the remaining sizes are those of the right subtrees. */
  lemma GoingEnds(root: Trie, v: Trie, rsize: nat, seen: set<nat>, right: set<nat>, rst: Trie, b: nat, hi: nat, nb: nat)
    requires Going(root, v, rsize, seen, Nil, right, rst, b, hi, nb)
    ensures Descended(root, v, rsize, rst, seen, right, nb)
  {
    hide Inv, Chunks, RingChunks, Pow2, Untaken;
    NilFacts(0, 0);
    assert Sizes(root) == seen + right;
    UntakenInside(rst, right);
    forall r | r in right
      ensures r > nb
    {
      HighOrder(nb, r, b);
    }
  }

  lemma UntakenInside(rst: Trie, right: set<nat>)
    requires Untaken(rst, right)
    ensures Sizes(rst) <= right
  {
  }

  lemma ExactFound(root: Trie, v: Trie, rsize: nat, seen: set<nat>, t: Trie, right: set<nat>, rst: Trie, b: nat,
                   hi: nat,
                   nb: nat)
    requires t.Node? && Going(root, v, rsize, seen, t, right, rst, b, hi, nb)
    requires Looked(root, t, 0, seen + {t.size}, nb)
    ensures Descended(root, t, 0, t, seen + {t.size}, right, nb)
  {
    hide Inv, Chunks, RingChunks, Pow2, Untaken, LeastFit;
    HasSize(t);
  }

  lemma ChildOf(t: Trie, bit: nat)
    requires t.Node?
    ensures Child(t, bit) == t.left || Child(t, bit) == t.right
    ensures Child(t, bit) < t
  {
  }

  /** The shifted size follows the descent. */
  lemma NextShift(nb: nat, b: nat)
    requires 0 < b <= WORD_BITS
    ensures NextBits(b) <= WORD_BITS
    ensures ShiftLeft(ShiftLeft(nb, WORD_BITS - b), 1) == ShiftLeft(nb, WORD_BITS - NextBits(b))
  {
    hide ShiftLeft;
    ShiftOnce(nb, b);
  }

  /** The first loop: down the bin along the bits of `nb`. */
  method Descend(root: Trie, nb: nat, shift: nat, ghost b0: nat, ghost hi0: nat)
    returns (v: Trie, rsize: nat, t: Trie, ghost seen: set<nat>, ghost right: set<nat>)
    requires root.Node? && Inv(root, b0, hi0) && Fit64(root)
    requires 0 < nb < Words() && nb / Pow2(b0) == hi0 && b0 <= WORD_BITS && shift == WORD_BITS - b0
    ensures rsize < Words() && Descended(root, v, rsize, t, seen, right, nb)
  {
    hide Going, Descended, Minus, ShiftLeft, Pow2, Child, NextRst, NextSeen, NextRight, NextBits, Words, Inv, Sizes,
         Fit64, TopBit,
      Best, NodeOf, Cover, Chunks, Looked, High;
    v, rsize, t := Nil, Minus(0, nb), root;
    var sizebits := ShiftLeft(nb, shift);
    var rst := Nil;
    seen, right := {}, {};
    ghost var b: nat, hi: nat := b0, hi0;
    GoingStarts(root, nb, b, hi);
    while true
      invariant t.Node? && rsize < Words() && b <= WORD_BITS
      invariant Going(root, v, rsize, seen, t, right, rst, b, hi, nb)
      invariant sizebits == ShiftLeft(nb, WORD_BITS - b)
      decreases t
    {
      GoingLook(root, v, rsize, seen, t, right, rst, b, hi, nb);
      ghost var v0, rsize0 := v, rsize;
      var trem := Minus(t.size, nb);
      if trem < rsize {
        v, rsize := t, trem;
        if rsize == 0 {
          ExactFound(root, v0, rsize0, seen, t, right, rst, b, hi, nb);
          seen := seen + {t.size};
          break;
        }
      }
      GoingStep(root, v0, rsize0, seen, t, right, rst, b, hi, nb, v, rsize);
      SignBit(nb, b);
      seen, right := NextSeen(seen, t, b, nb), NextRight(right, t, b, nb);
      var bit := sizebits / Pow2(63);
      rst := NextRst(rst, t, bit);
      ghost var t0 := t;
      t := Child(t, bit);
      ChildOf(t0, bit);
      if t.Nil? {
        GoingEnds(root, v, rsize, seen, right, rst, NextBits(b), High(nb, NextBits(b)), nb);
        t := rst;
        break;
      }
      NextShift(nb, b);
      sizebits := ShiftLeft(sizebits, 1);
      b, hi := NextBits(b), High(nb, NextBits(b));
    }
  }

  // -------------------------------------------------------- the leftmost path

  /** The sizes on the path of leftmost children. */
  ghost function PathSizes(t: Trie): set<nat>
    decreases t
  {
    if t.Nil? then {} else {t.size} + PathSizes(LeftmostChild(t))
  }

  lemma {:induction false} PathInside(t: Trie)
    ensures PathSizes(t) <= Sizes(t)
    ensures t.Node? ==> PathMin(t) in PathSizes(t)
    decreases t
  {
    if t.Node? {
      PathInside(LeftmostChild(t));
    }
  }

  /** Everything below a node belongs to the bin. */
  ghost predicate Below(t: Trie, root: Trie) {
    Trieish(t) && Chunks(t) <= Chunks(root) && Sizes(t) <= Sizes(root)
  }

  lemma LeftmostBelow(t: Trie, root: Trie)
    requires t.Node? && Below(t, root)
    ensures Below(LeftmostChild(t), root) && LeftmostChild(t) < t
    ensures NodeOf(t, root) && t.size in Sizes(root)
  {
    hide RingChunks, Pow2, Inv, Chunks, Sizes;
    var b: nat, hi: nat :| Inv(t, b, hi);
    Open(t, b, hi);
    ChildTrieish(t, b, hi);
    RingSize(t.ring, t.size);
    assert Chunk(t.ring[0], t.size) in RingChunks(t.ring, t.size);
    assert Chunk(t.ring[0], t.size) in Chunks(t);
  }

  lemma ChildTrieish(t: Trie, b: nat, hi: nat)
    requires t.Node? && Inv(t, b, hi)
    ensures Trieish(LeftmostChild(t))
  {
    hide RingChunks, Pow2, Inv, Chunks, Sizes;
    Open(t, b, hi);
    NilFacts(0, 0);
    if b > 0 {
      if t.left.Node? {
        assert Inv(t.left, b - 1, 2 * hi);
      } else {
        assert Inv(t.right, b - 1, 2 * hi + 1);
      }
    } else {
      assert Inv(t.left, 0, 0) && Inv(t.right, 0, 0);
    }
  }

  /** The second loop: the smallest chunk of a subtree is on its leftmost path. */
  method Smallest(start: Trie, v0: Trie, rsize0: nat, nb: nat, ghost root: Trie, ghost seen: set<nat>)
    returns (v: Trie, rsize: nat)
    requires 0 < nb < Words() && rsize0 < Words() && Below(start, root) && Fit64(root)
    requires Best(v0, rsize0, seen, nb) && (v0.Node? ==> v0.size < Words())
    ensures rsize < Words() && Best(v, rsize, seen + PathSizes(start), nb) && (v.Node? ==> v.size < Words())
    ensures v == v0 || NodeOf(v, root)
  {
    hide Below, NodeOf, Best, PathSizes, Fit64, Sizes, Minus, LeftmostChild;
    v, rsize := v0, rsize0;
    var t := start;
    ghost var done := seen;
    while t.Node?
      invariant Below(t, root) && rsize < Words() && (v.Node? ==> v.size < Words())
      invariant Best(v, rsize, done, nb) && done + PathSizes(t) == seen + PathSizes(start)
      invariant v == v0 || NodeOf(v, root)
      decreases t
    {
      LeftmostBelow(t, root);
      FitSize(root, t.size);
      Look(v, rsize, done, nb, t);
      PathStep(done, t);
      done := done + {t.size};
      var trem := Minus(t.size, nb);
      if trem < rsize {
        v, rsize := t, trem;
      }
      t := LeftmostChild(t);
    }
    PathEnd(done);
  }

  lemma FitSize(root: Trie, s: nat)
    requires Fit64(root) && s in Sizes(root)
    ensures s < Words()
  {
  }

  lemma PathStep(done: set<nat>, t: Trie)
    requires t.Node?
    ensures done + PathSizes(t) == done + {t.size} + PathSizes(LeftmostChild(t))
  {
  }

  lemma PathEnd(done: set<nat>)
    ensures done + PathSizes(Nil) == done
  {
  }

  /** The least of a subtree is on the path, so that nothing else in it matters if all of it fits. */
  lemma WholeSubtree(v: Trie, rsize: nat, seen: set<nat>, t: Trie, nb: nat)
    requires 0 < nb < Words() && Trieish(t) && Best(v, rsize, seen + PathSizes(t), nb)
    requires forall s :: s in Sizes(t) ==> nb <= s
    ensures Best(v, rsize, seen + Sizes(t), nb)
  {
    hide Inv, Chunks, Pow2, PathMin;
    PathInside(t);
    if t.Node? {
      var b: nat, hi: nat :| Inv(t, b, hi);
      PathMinIsLeast(t, b, hi);
      assert PathMin(t) in seen + PathSizes(t);
    } else {
      assert seen + Sizes(t) == seen + PathSizes(t);
    }
  }

  /** After both loops the best fit of the whole bin is known. */
  lemma BinDone(root: Trie, v0: Trie, rsize0: nat, t: Trie, seen: set<nat>, right: set<nat>, nb: nat, v: Trie,
                rsize: nat)
    requires Descended(root, v0, rsize0, t, seen, right, nb)
    requires Best(v, rsize, seen + PathSizes(t), nb)
    ensures Best(v, rsize, Sizes(root), nb)
  {
    hide Inv, Chunks, Pow2, PathMin, Trieish, PathSizes;
    PathInside(t);
    if v0.Node? && rsize0 == 0 {
      assert v0.size in seen + PathSizes(t);
      MoreAboveExact(v, rsize, seen + PathSizes(t), Sizes(root), nb);
      assert seen + PathSizes(t) + Sizes(root) == Sizes(root);
    } else {
      WholeSubtree(v, rsize, seen, t, nb);
      if t.Node? {
        HasSize(t);
        MoreAboveRight(v, rsize, seen, t, right, nb);
      } else {
        assert right == {} && Sizes(t) == {};
      }
      assert seen + Sizes(t) + right == Sizes(root);
    }
  }

  lemma MoreAboveExact(v: Trie, rsize: nat, ss: set<nat>, more: set<nat>, nb: nat)
    requires 0 < nb < Words() && Best(v, rsize, ss, nb) && nb in ss
    ensures Best(v, rsize, ss + more, nb)
  {
  }

  lemma MoreAboveRight(v: Trie, rsize: nat, seen: set<nat>, t: Trie, right: set<nat>, nb: nat)
    requires 0 < nb < Words() && t.Node? && t.size in Sizes(t) && Untaken(t, right)
    requires Best(v, rsize, seen + Sizes(t), nb) && forall r :: r in right ==> r > nb
    ensures Best(v, rsize, seen + Sizes(t) + right, nb)
  {
    assert t.size in right;
    assert v.Node?;
    forall r | r in right
      ensures v.size <= r
    {
      if r !in Sizes(t) {
        assert t.size < r;
        assert t.size in seen + Sizes(t);
      }
    }
  }
}
