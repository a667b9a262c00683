/** A tree bin as it lies in memory: the trie is in the link words of the chunks themselves. */
module TreeLinks {
  import opened TreeBin
  import opened TreeFit

  /** The words of free chunks in the bin; 0 is the null pointer. */
  datatype Links = Links(fd: map<Addr, Addr>, bk: map<Addr, Addr>, parent: map<Addr, Addr>, child0: map<Addr, Addr>,
                         child1: map<Addr, Addr>)

  ghost predicate Known(l: Links, x: Addr) {
    x in l.fd && x in l.bk && x in l.parent && x in l.child0 && x in l.child1
  }

  ghost predicate Agree(l: Links, l': Links, x: Addr) {
    && Known(l, x) && Known(l', x) && l'.fd[x] == l.fd[x] && l'.bk[x] == l.bk[x] && l'.parent[x] == l.parent[x]
    && l'.child0[x] == l.child0[x] && l'.child1[x] == l.child1[x]
  }

  function Child(l: Links, x: Addr, right: bool): Addr
    requires x in l.child0 && x in l.child1
  {
    if right then l.child1[x] else l.child0[x]
  }

  // ------------------------------------------------------------------ the trie in memory

  /** The chunks of a ring are linked both ways. */
  ghost predicate RingIs(l: Links, ring: seq<Addr>) {
    && ring != [] && 0 !in ring
    && forall i {:trigger ring[i]} :: 0 <= i < |ring| ==>
         && Known(l, ring[i])
         && l.fd[ring[i]] == (if i + 1 < |ring| then ring[i + 1] else ring[0])
         && l.bk[ring[i]] == (if i > 0 then ring[i - 1] else ring[|ring| - 1])
  }

  /** All chunks of a ring but the first have neither parent nor children. */
  ghost predicate Chained(l: Links, ring: seq<Addr>) {
    forall i {:trigger ring[i]} :: 1 <= i < |ring| ==>
      Known(l, ring[i]) && l.parent[ring[i]] == l.child0[ring[i]] == l.child1[ring[i]] == 0
  }

  ghost predicate Sized(size: map<Addr, nat>, ring: seq<Addr>, s: nat) {
    forall i {:trigger ring[i]} :: 0 <= i < |ring| ==> ring[i] in size && size[ring[i]] == s
  }

  /** The address of a subtree. */
  function Top(t: Trie): Addr {
    if t.Nil? || t.ring == [] then 0 else t.ring[0]
  }

  /** Below the node or bin at `par` lies the subtree `t`. */
  ghost predicate TreeIs(l: Links, size: map<Addr, nat>, par: Addr, t: Trie)
    decreases t
  {
    match t
    case Nil => true
    case Node(ring, s, left, right) =>
      && RingIs(l, ring) && Chained(l, ring) && Sized(size, ring, s) && l.parent[ring[0]] == par
      && l.child0[ring[0]] == Top(left) && l.child1[ring[0]] == Top(right)
      && TreeIs(l, size, ring[0], left) && TreeIs(l, size, ring[0], right)
  }

  /** The chunks of a subtree. */
  function Members(t: Trie): multiset<Addr> {
    match t
    case Nil => multiset{}
    case Node(ring, _, left, right) => multiset(ring) + Members(left) + Members(right)
  }

  ghost predicate Single(m: multiset<Addr>) {
    forall x :: m[x] <= 1
  }

  ghost predicate Once(t: Trie) {
    Single(Members(t))
  }

  /** The members are the chunks' addresses. */
  lemma {:induction false} MembersAre(t: Trie, x: Addr)
    ensures x in Members(t) <==> exists s :: Chunk(x, s) in Chunks(t)
    decreases t
  {
    if t.Node? {
      MembersAre(t.left, x);
      MembersAre(t.right, x);
      RingSize(t.ring, t.size);
      if x in t.ring {
        assert Chunk(x, t.size) in Chunks(t);
      }
    }
  }

  lemma OnceParts(t: Trie)
    requires Once(t) && t.Node?
    ensures Once(t.left) && Once(t.right)
    ensures forall x :: !(x in Members(t.left) && x in Members(t.right))
    ensures forall x :: x in t.ring ==> x !in Members(t.left) && x !in Members(t.right)
    ensures forall x :: x in Members(t) <==> x in t.ring || x in Members(t.left) || x in Members(t.right)
    ensures forall i, j :: 0 <= i < j < |t.ring| ==> t.ring[i] != t.ring[j]
  {
    forall x: Addr
      ensures Members(t)[x] == multiset(t.ring)[x] + Members(t.left)[x] + Members(t.right)[x]
    {
    }
    forall i, j | 0 <= i < j < |t.ring|
      ensures t.ring[i] != t.ring[j]
    {
      Twice(t.ring, i, j);
    }
    forall x | x in t.ring
      ensures x !in Members(t.left) && x !in Members(t.right)
    {
      assert multiset(t.ring)[x] >= 1;
    }
  }

  lemma Twice(s: seq<Addr>, i: nat, j: nat)
    requires i < j < |s|
    ensures s[i] == s[j] ==> multiset(s)[s[i]] >= 2
  {
    assert s == s[..i] + [s[i]] + s[i + 1..j] + [s[j]] + s[j + 1..];
  }

  lemma TopIn(t: Trie)
    ensures Top(t) != 0 ==> Top(t) in Members(t)
  {
    if Top(t) != 0 {
      assert t.ring[0] in t.ring;
    }
  }

  // ----------------------------------------------------------------------- frames

  lemma RingFrame(l: Links, l': Links, ring: seq<Addr>)
    requires RingIs(l, ring) && Chained(l, ring) && forall x :: x in ring ==> Agree(l, l', x)
    ensures RingIs(l', ring) && Chained(l', ring)
  {
    forall i | 0 <= i < |ring|
      ensures Agree(l, l', ring[i])
    {
    }
  }

  /** A tree is not touched by changes to the words of other chunks. */
  lemma {:induction false} Frame(l: Links, l': Links, size: map<Addr, nat>, par: Addr, t: Trie)
    requires TreeIs(l, size, par, t) && forall x :: x in Members(t) ==> Agree(l, l', x)
    ensures TreeIs(l', size, par, t)
    decreases t
  {
    hide RingIs, Chained, Sized;
    if t.Node? {
      RingFrame(l, l', t.ring);
      RingHead(l, t.ring);
      assert t.ring[0] in t.ring && Agree(l, l', t.ring[0]);
      Frame(l, l', size, t.ring[0], t.left);
      Frame(l, l', size, t.ring[0], t.right);
    }
  }

  lemma RingHead(l: Links, ring: seq<Addr>)
    requires RingIs(l, ring)
    ensures ring != [] && ring[0] != 0 && ring[0] in ring && Known(l, ring[0])
    ensures forall x :: x in ring ==> Known(l, x) && x != 0
  {
  }

  lemma {:induction false} AllKnown(l: Links, size: map<Addr, nat>, par: Addr, t: Trie, x: Addr)
    requires TreeIs(l, size, par, t) && x in Members(t)
    ensures Known(l, x) && x != 0
    decreases t
  {
    hide RingIs, Chained, Sized, Known;
    RingHead(l, t.ring);
    if x in t.ring {
    } else if x in Members(t.left) {
      AllKnown(l, size, t.ring[0], t.left, x);
    } else {
      AllKnown(l, size, t.ring[0], t.right, x);
    }
  }

  // ------------------------------------------------------------------------ paths

  /** The subtree at the end of a path of turns; `true` is right. */
  function Sub(t: Trie, path: seq<bool>): Trie {
    if path == [] || t.Nil? then t else Sub(Side(t, path[0]), path[1..])
  }

  function Side(t: Trie, right: bool): (r: Trie)
    requires t.Node?
    ensures r < t
  {
    if right then t.right else t.left
  }

  /** The tree with another subtree at the end of the path. */
  function Graft(t: Trie, path: seq<bool>, u: Trie): Trie {
    if path == [] then u
    else if t.Nil? then Nil
    else if path[0] then Node(t.ring, t.size, t.left, Graft(t.right, path[1..], u))
    else Node(t.ring, t.size, Graft(t.left, path[1..], u), t.right)
  }

  /** There are nodes all along the path but perhaps at its end. */
  predicate Path(t: Trie, path: seq<bool>) {
    path == [] || (t.Node? && Path(Side(t, path[0]), path[1..]))
  }

  /** Where the subtree at the end of the path hangs. */
  function Above(t: Trie, path: seq<bool>, par: Addr): Addr {
    if path == [] || t.Nil? then par else Above(Side(t, path[0]), path[1..], Top(t))
  }

  /** What is at the end of a path, and the node above it. */
  lemma {:induction false} PathFacts(l: Links, size: map<Addr, nat>, par: Addr, t: Trie, path: seq<bool>)
    requires TreeIs(l, size, par, t) && Path(t, path) && Once(t)
    ensures var u, p := Sub(t, path), Above(t, path, par);
            && TreeIs(l, size, p, u) && Once(u) && (forall x :: x in Members(u) ==> x in Members(t))
            && (path != [] ==> p in Members(t) && p !in Members(u) && Known(l, p) && p != 0
                               && Child(l, p, path[|path| - 1]) == Top(u) && Top(t) !in Members(u))
    decreases path
  {
    hide RingIs, Chained, Sized;
    if path != [] {
      var k := Side(t, path[0]);
      RingHead(l, t.ring);
      OnceParts(t);
      PathFacts(l, size, t.ring[0], k, path[1..]);
      if path[1..] != [] {
        assert path[1..][|path[1..]| - 1] == path[|path| - 1];
      }
    }
  }

  /** Only the one child word of `p` differs, and it is `to` afterwards. */
  ghost predicate SlotTo(l: Links, l': Links, p: Addr, right: bool, to: Addr) {
    && Known(l, p) && Known(l', p) && l'.fd[p] == l.fd[p] && l'.bk[p] == l.bk[p] && l'.parent[p] == l.parent[p]
    && Child(l', p, right) == to && Child(l', p, !right) == Child(l, p, !right)
  }

  /** The chunks outside the subtree are as they were, except for the child word that leads to it. */
  ghost predicate Outside(l: Links, l': Links, t: Trie, path: seq<bool>, p: Addr, to: Addr) {
    && (forall x :: x in Members(t) && x !in Members(Sub(t, path)) && (path == [] || x != p) ==> Agree(l, l', x))
    && (path != [] ==> SlotTo(l, l', p, path[|path| - 1], to))
  }

  /** Only parent or children of the first chunk have changed. */
  lemma RingBut(l: Links, l': Links, ring: seq<Addr>)
    requires RingIs(l, ring) && Chained(l, ring) && Known(l', ring[0])
    requires l'.fd[ring[0]] == l.fd[ring[0]] && l'.bk[ring[0]] == l.bk[ring[0]]
    requires forall x :: x in ring && x != ring[0] ==> Agree(l, l', x)
    requires forall i, j :: 0 <= i < j < |ring| ==> ring[i] != ring[j]
    ensures RingIs(l', ring) && Chained(l', ring)
  {
    forall i | 0 <= i < |ring|
      ensures Known(l', ring[i]) && l'.fd[ring[i]] == l.fd[ring[i]] && l'.bk[ring[i]] == l.bk[ring[i]]
      ensures i > 0 ==> Agree(l, l', ring[i])
    {
      if i > 0 {
        assert ring[i] in ring && ring[0] != ring[i];
      }
    }
  }

  /** What is at the first node of a path. */
  lemma PathStep(t: Trie, path: seq<bool>, par: Addr)
    requires path != [] && Path(t, path)
    ensures t.Node? && var k, r := Side(t, path[0]), path[1..];
                       && Path(k, r) && Sub(t, path) == Sub(k, r) && k == (if path[0] then t.right else t.left)
                       && Above(t, path, par) == (if r == [] then Top(t) else Above(k, r, Top(t)))
                       && Side(t, !path[0]) == (if path[0] then t.left else t.right)
  {
  }

  lemma PathNone(t: Trie, par: Addr)
    ensures Path(t, []) && Sub(t, []) == t && Above(t, [], par) == par
  {
  }

  lemma TreeParts(l: Links, size: map<Addr, nat>, par: Addr, t: Trie)
    ensures t.Node? ==>
              (TreeIs(l, size, par, t) <==>
                 && RingIs(l, t.ring) && Chained(l, t.ring) && Sized(size, t.ring, t.size) && l.parent[t.ring[0]] == par
                 && l.child0[t.ring[0]] == Top(t.left) && l.child1[t.ring[0]] == Top(t.right)
                 && TreeIs(l, size, t.ring[0], t.left) && TreeIs(l, size, t.ring[0], t.right))
    ensures t.Nil? ==> TreeIs(l, size, par, t)
    ensures t.Node? && RingIs(l, t.ring) ==> t.ring != [] && Known(l, t.ring[0]) && Top(t) == t.ring[0] != 0
  {
  }

  lemma KnownParts(l: Links, x: Addr)
    ensures Known(l, x) <==> x in l.fd && x in l.bk && x in l.parent && x in l.child0 && x in l.child1
    ensures Known(l, x) ==> forall right :: Child(l, x, right) == if right then l.child1[x] else l.child0[x]
  {
  }

  /** Another subtree at the end of a path. */
  lemma {:induction false} Regraft(l: Links, l': Links, size: map<Addr, nat>, par: Addr, t: Trie, path: seq<bool>,
                                   u: Trie)
    requires TreeIs(l, size, par, t) && Path(t, path) && Once(t) && TreeIs(l', size, Above(t, path, par), u)
    requires Outside(l, l', t, path, Above(t, path, par), Top(u))
    ensures TreeIs(l', size, par, Graft(t, path, u))
    decreases path
  {
    hide *;
    GraftStep(t, path, u);
    if path == [] {
      PathNone(t, par);
    } else {
      PathStep(t, path, par);
      var k, other, r := Side(t, path[0]), Side(t, !path[0]), path[1..];
      OnceParts(t);
      TreeParts(l, size, par, t);
      KnownParts(l, t.ring[0]);
      OutsideSide(l, l', size, par, t, path, Top(u));
      HeadParts(l, l', t.ring[0], path[0], if r == [] then Top(u) else Child(l, t.ring[0], path[0]));
      PathNone(k, Top(t));
      Regraft(l, l', size, t.ring[0], k, r, u);
      Frame(l, l', size, t.ring[0], other);
      GraftStep(k, r, u);
      KnownParts(l', t.ring[0]);
      TreeParts(l', size, par, Graft(t, path, u));
    }
  }

  lemma GraftStep(t: Trie, path: seq<bool>, u: Trie)
    requires Path(t, path)
    ensures path == [] ==> Graft(t, path, u) == u
    ensures path != [] ==>
              t.Node? && var k := Graft(Side(t, path[0]), path[1..], u);
                         && Graft(t, path, u) == (if path[0] then Node(t.ring, t.size, t.left, k)
                                                  else Node(t.ring, t.size, k, t.right))
                         && Top(Graft(t, path, u)) == Top(t)
  {
  }

  lemma OutsideParts(l: Links, l': Links, t: Trie, path: seq<bool>, p: Addr, to: Addr)
    ensures Outside(l, l', t, path, p, to) <==>
              && (forall x :: x in Members(t) && x !in Members(Sub(t, path)) && (path == [] || x != p) ==>
                    Agree(l, l', x))
              && (path != [] ==> SlotTo(l, l', p, path[|path| - 1], to))
  {
  }

  /** One turn down. */
  lemma OutsideSide(l: Links, l': Links, size: map<Addr, nat>, par: Addr, t: Trie, path: seq<bool>, to: Addr)
    requires TreeIs(l, size, par, t) && path != [] && Path(t, path) && Once(t)
    requires Outside(l, l', t, path, Above(t, path, par), to)
    ensures t.Node? && t.ring != [] && Known(l, t.ring[0])
    ensures var k, other, r := Side(t, path[0]), Side(t, !path[0]), path[1..];
            && Outside(l, l', k, r, Above(k, r, t.ring[0]), to)
            && (forall x :: x in Members(other) ==> Agree(l, l', x))
            && RingIs(l', t.ring) && Chained(l', t.ring)
            && HeadWords(l, l', t.ring[0], path[0], if r == [] then to else Child(l, t.ring[0], path[0]))
  {
    hide *;
    PathStep(t, path, par);
    var k, other, r, p := Side(t, path[0]), Side(t, !path[0]), path[1..], Above(t, path, par);
    OnceParts(t);
    TreeParts(l, size, par, t);
    KnownParts(l, t.ring[0]);
    OutsideParts(l, l', t, path, p, to);
    OutsideParts(l, l', k, r, Above(k, r, t.ring[0]), to);
    PathFacts(l, size, t.ring[0], k, r);
    PathNone(k, t.ring[0]);
    assert t.ring[0] in t.ring;
    if r == [] {
      HeadSlot(l, l', t.ring[0], path[0], to);
      RingBut(l, l', t.ring);
    } else {
      assert r[|r| - 1] == path[|path| - 1];
      RingFrame(l, l', t.ring);
      HeadSame(l, l', t.ring[0], path[0]);
    }
  }

  /** Nothing but one child word has changed, if that. */
  ghost predicate HeadWords(l: Links, l': Links, x: Addr, right: bool, to: Addr) {
    && Known(l, x) && Known(l', x) && l'.parent[x] == l.parent[x] && Child(l', x, right) == to
    && Child(l', x, !right) == Child(l, x, !right)
  }

  lemma HeadParts(l: Links, l': Links, x: Addr, right: bool, to: Addr)
    requires HeadWords(l, l', x, right, to)
    ensures Known(l, x) && Known(l', x) && l'.parent[x] == l.parent[x]
    ensures l'.child0[x] == (if right then l.child0[x] else to) && l'.child1[x] == (if right then to else l.child1[x])
  {
  }

  lemma HeadSlot(l: Links, l': Links, x: Addr, right: bool, to: Addr)
    requires SlotTo(l, l', x, right, to)
    ensures HeadWords(l, l', x, right, to) && Known(l', x)
    ensures x in l.fd && x in l'.fd && x in l.bk && x in l'.bk && l'.fd[x] == l.fd[x] && l'.bk[x] == l.bk[x]
  {
  }

  lemma HeadSame(l: Links, l': Links, x: Addr, right: bool)
    requires Agree(l, l', x)
    ensures Known(l, x) && HeadWords(l, l', x, right, Child(l, x, right))
  {
  }

  // -------------------------------------------------------------------- the way to a size

  function Fewer(b: nat): nat {
    if b == 0 then 0 else b - 1
  }

  /** The turns that the bits of a size prescribe, up to the node of that size or to a free place. */
  function PathTo(t: Trie, b: nat, s: nat): seq<bool> {
    if t.Nil? || t.size == s then []
    else
      var right := TopBit(s, b) != 0;
      [right] + PathTo(Side(t, right), Fewer(b), s)
  }

  lemma PathToStep(t: Trie, b: nat, s: nat)
    ensures t.Nil? || t.size == s ==> PathTo(t, b, s) == []
    ensures t.Node? && t.size != s ==>
              var right := TopBit(s, b) != 0;
              PathTo(t, b, s) == [right] + PathTo(Side(t, right), Fewer(b), s)
              && Side(t, right) == if right then t.right else t.left
  {
  }

  lemma {:induction false} PathToIs(t: Trie, b: nat, s: nat)
    ensures Path(t, PathTo(t, b, s))
    ensures var u := Sub(t, PathTo(t, b, s)); u.Node? ==> u.size == s
    decreases t
  {
    hide TopBit;
    PathToStep(t, b, s);
    if t.Node? && t.size != s {
      PathToIs(Side(t, TopBit(s, b) != 0), Fewer(b), s);
    }
  }

  lemma {:induction false} InsertPath(t: Trie, b: nat, s: nat, x: Addr)
    ensures var path := PathTo(t, b, s);
            var u := Sub(t, path);
            Insert(t, b, s, x) == Graft(t, path, if u.Nil? then Node([x], s, Nil, Nil)
                                                 else if u.ring == [] then Node([x], s, u.left, u.right)
                                                 else Node([u.ring[0], x] + u.ring[1..], s, u.left, u.right))
    decreases t
  {
    hide TopBit;
    PathToStep(t, b, s);
    PathToIs(t, b, s);
    if t.Node? && t.size != s {
      InsertPath(Side(t, TopBit(s, b) != 0), Fewer(b), s, x);
    }
  }

  lemma {:induction false} UnlinkPath(t: Trie, b: nat, s: nat, x: Addr)
    requires Sub(t, PathTo(t, b, s)).Node?
    ensures var path := PathTo(t, b, s);
            var u := Sub(t, path);
            Unlink(t, b, s, x) == Graft(t, path, if |u.ring| > 1 && x in u.ring
                                                 then Node(RingWithout(u.ring, x), s, u.left, u.right) else Replace(u))
    decreases t
  {
    hide TopBit, RingWithout, Replace;
    PathToStep(t, b, s);
    PathToIs(t, b, s);
    if t.Node? && t.size != s {
      UnlinkPath(Side(t, TopBit(s, b) != 0), Fewer(b), s, x);
    }
  }

  // ----------------------------------------------------------------------- insertion

  /** `x` becomes a child of `cur`, a ring of its own. */
  function Hung(l: Links, cur: Addr, right: bool, x: Addr): Links {
    var c0, c1 := l.child0[x := 0], l.child1[x := 0];
    Links(l.fd[x := x], l.bk[x := x], l.parent[x := cur], if right then c0 else c0[cur := x],
          if right then c1[cur := x] else c1)
  }

  /** `x` is put into the ring behind its first chunk `cur`. */
  function Joined(l: Links, cur: Addr, x: Addr): Links
    requires cur in l.fd
  {
    var f := l.fd[cur];
    Links(l.fd[cur := x][x := f], l.bk[f := x][x := cur], l.parent[x := 0], l.child0[x := 0], l.child1[x := 0])
  }

  lemma HungFacts(l: Links, cur: Addr, right: bool, x: Addr)
    requires Known(l, cur) && cur != x
    ensures var l' := Hung(l, cur, right, x);
            && SlotTo(l, l', cur, right, x) && (forall y :: Known(l, y) && y != x && y != cur ==> Agree(l, l', y))
            && RingIs(l', [x]) == (x != 0) && Chained(l', [x])
            && Known(l', x) && l'.parent[x] == cur && l'.child0[x] == l'.child1[x] == 0
  {
  }

  lemma Lone(l: Links, size: map<Addr, nat>, par: Addr, x: Addr, s: nat)
    requires RingIs(l, [x]) && Chained(l, [x]) && Known(l, x) && x in size && size[x] == s
    requires l.parent[x] == par && l.child0[x] == l.child1[x] == 0
    ensures TreeIs(l, size, par, Node([x], s, Nil, Nil)) && Top(Node([x], s, Nil, Nil)) == x
  {
  }

  lemma Hangs(l: Links, size: map<Addr, nat>, par: Addr, t: Trie, path: seq<bool>, x: Addr, s: nat)
    requires TreeIs(l, size, par, t) && Path(t, path) && Once(t) && path != [] && Sub(t, path) == Nil
    requires x != 0 && x !in Members(t) && x in size && size[x] == s
    ensures TreeIs(Hung(l, Above(t, path, par), path[|path| - 1], x), size, par,
                   Graft(t, path, Node([x], s, Nil, Nil)))
  {
    hide *;
    var p, right, u := Above(t, path, par), path[|path| - 1], Node([x], s, Nil, Nil);
    var l' := Hung(l, p, right, x);
    PathFacts(l, size, par, t, path);
    HungFacts(l, p, right, x);
    Lone(l', size, p, x, s);
    forall y | y in Members(t)
      ensures Known(l, y)
    {
      AllKnown(l, size, par, t, y);
    }
    OutsideParts(l, l', t, path, p, x);
    Regraft(l, l', size, par, t, path, u);
  }

  lemma JoinedWords(l: Links, cur: Addr, x: Addr)
    requires Known(l, cur) && cur != x && x != l.fd[cur] && Known(l, l.fd[cur])
    ensures var l', f := Joined(l, cur, x), l.fd[cur];
            && Known(l', x) && l'.fd[x] == f && l'.bk[x] == cur && l'.parent[x] == l'.child0[x] == l'.child1[x] == 0
            && forall y :: Known(l, y) && y != x ==>
                 && Known(l', y) && l'.fd[y] == (if y == cur then x else l.fd[y])
                 && l'.bk[y] == (if y == f then x else l.bk[y])
                 && l'.parent[y] == l.parent[y] && l'.child0[y] == l.child0[y] && l'.child1[y] == l.child1[y]
  {
  }

  lemma RingAt(l: Links, ring: seq<Addr>, i: nat)
    requires RingIs(l, ring) && Chained(l, ring) && i < |ring|
    ensures Known(l, ring[i]) && ring[i] in ring && ring[i] != 0
    ensures l.fd[ring[i]] == (if i + 1 < |ring| then ring[i + 1] else ring[0])
    ensures l.bk[ring[i]] == (if i > 0 then ring[i - 1] else ring[|ring| - 1])
    ensures i > 0 ==> l.parent[ring[i]] == l.child0[ring[i]] == l.child1[ring[i]] == 0
  {
  }

  ghost predicate Placed(l: Links, r: seq<Addr>, i: nat)
    requires i < |r|
  {
    && Known(l, r[i]) && r[i] != 0 && l.fd[r[i]] == (if i + 1 < |r| then r[i + 1] else r[0])
    && l.bk[r[i]] == (if i > 0 then r[i - 1] else r[|r| - 1])
    && (i > 0 ==> l.parent[r[i]] == l.child0[r[i]] == l.child1[r[i]] == 0)
  }

  lemma AllPlaced(l: Links, r: seq<Addr>)
    requires r != [] && forall i :: 0 <= i < |r| ==> Placed(l, r, i)
    ensures RingIs(l, r) && Chained(l, r)
  {
    forall i | 0 <= i < |r|
      ensures r[i] != 0
    {
      assert Placed(l, r, i);
    }
    forall i | 0 <= i < |r|
      ensures Known(l, r[i]) && l.fd[r[i]] == (if i + 1 < |r| then r[i + 1] else r[0])
      ensures l.bk[r[i]] == (if i > 0 then r[i - 1] else r[|r| - 1])
      ensures i > 0 ==> l.parent[r[i]] == l.child0[r[i]] == l.child1[r[i]] == 0
    {
      assert Placed(l, r, i);
    }
  }

  lemma JoinedAt(l: Links, ring: seq<Addr>, x: Addr, i: nat)
    requires ring != [] && RingIs(l, ring) && Chained(l, ring) && x !in ring && x != 0 && i <= |ring|
    requires forall j, k :: 0 <= j < k < |ring| ==> ring[j] != ring[k]
    ensures Placed(Joined(l, ring[0], x), [ring[0], x] + ring[1..], i)
  {
    hide RingIs, Chained, Known, Joined;
    var r, n := [ring[0], x] + ring[1..], |ring|;
    var second := if n > 1 then 1 else 0;
    RingAt(l, ring, 0);
    RingAt(l, ring, second);
    JoinedWords(l, ring[0], x);
    if i != 1 {
      var k := if i > 1 then i - 1 else 0;
      RingAt(l, ring, k);
      assert r[i] == ring[k];
      assert k > 1 ==> ring[1] != ring[k];
      assert k > 0 ==> ring[0] != ring[k];
      assert i + 1 < |r| ==> r[i + 1] == if i == 0 then x else ring[i];
      assert i > 1 ==> r[i - 1] == if i == 2 then x else ring[i - 2];
      assert r[|r| - 1] == if n > 1 then ring[n - 1] else x;
    } else {
      assert n > 1 ==> r[2] == ring[1];
    }
  }

  lemma JoinedFacts(l: Links, ring: seq<Addr>, x: Addr)
    requires ring != [] && RingIs(l, ring) && Chained(l, ring) && x !in ring && x != 0
    requires forall i, j :: 0 <= i < j < |ring| ==> ring[i] != ring[j]
    ensures var l', r := Joined(l, ring[0], x), [ring[0], x] + ring[1..];
            && RingIs(l', r) && Chained(l', r)
            && Known(l', ring[0]) && l'.parent[ring[0]] == l.parent[ring[0]]
            && l'.child0[ring[0]] == l.child0[ring[0]] && l'.child1[ring[0]] == l.child1[ring[0]]
            && (forall y :: Known(l, y) && y != x && y !in ring ==> Agree(l, l', y))
  {
    hide RingIs, Chained, Joined, Placed;
    RingAt(l, ring, 0);
    var l', r, n := Joined(l, ring[0], x), [ring[0], x] + ring[1..], |ring|;
    RingAt(l, ring, if n > 1 then 1 else 0);
    JoinedWords(l, ring[0], x);
    forall i | 0 <= i < |r|
      ensures Placed(l', r, i)
    {
      JoinedAt(l, ring, x, i);
    }
    AllPlaced(l', r);
  }

  lemma Joins(l: Links, size: map<Addr, nat>, par: Addr, t: Trie, path: seq<bool>, x: Addr)
    requires TreeIs(l, size, par, t) && Path(t, path) && Once(t) && Sub(t, path).Node?
    requires x != 0 && x !in Members(t) && x in size && size[x] == Sub(t, path).size
    ensures var u := Sub(t, path);
            && u.ring != [] && u.ring[0] in l.fd
            && TreeIs(Joined(l, u.ring[0], x), size, par,
                      Graft(t, path, Node([u.ring[0], x] + u.ring[1..], u.size, u.left, u.right)))
  {
    hide *;
    var u, p := Sub(t, path), Above(t, path, par);
    PathFacts(l, size, par, t, path);
    TreeParts(l, size, p, u);
    KnownParts(l, u.ring[0]);
    OnceParts(u);
    var l', u' := Joined(l, u.ring[0], x), Node([u.ring[0], x] + u.ring[1..], u.size, u.left, u.right);
    JoinedFacts(l, u.ring, x);
    forall y | y in Members(t)
      ensures Known(l, y)
    {
      AllKnown(l, size, par, t, y);
    }
    SizedMore(size, u.ring, x, u.size);
    Frame(l, l', size, u.ring[0], u.left);
    Frame(l, l', size, u.ring[0], u.right);
    TreeParts(l', size, p, u');
    OutsideParts(l, l', t, path, p, u.ring[0]);
    SlotSame(l, l', p, if path == [] then false else path[|path| - 1]);
    Regraft(l, l', size, par, t, path, u');
  }

  lemma SizedMore(size: map<Addr, nat>, ring: seq<Addr>, x: Addr, s: nat)
    requires Sized(size, ring, s) && ring != [] && x in size && size[x] == s
    ensures Sized(size, [ring[0], x] + ring[1..], s)
  {
  }

  lemma SlotSame(l: Links, l': Links, p: Addr, right: bool)
    ensures Agree(l, l', p) ==> SlotTo(l, l', p, right, Child(l, p, right))
  {
  }

  // ----------------------------------------------------------------------- unlinking

  /** `x` is taken out of its ring; its own words stay as they are. */
  function CutOut(l: Links, x: Addr): Links
    requires x in l.fd && x in l.bk
  {
    var f, r := l.fd[x], l.bk[x];
    l.(bk := l.bk[f := r], fd := l.fd[r := f])
  }

  lemma CutWords(l: Links, x: Addr)
    requires Known(l, x) && Known(l, l.fd[x]) && Known(l, l.bk[x])
    ensures var l', f, r := CutOut(l, x), l.fd[x], l.bk[x];
            && forall y :: Known(l, y) ==>
                 && Known(l', y) && l'.fd[y] == (if y == r then f else l.fd[y])
                 && l'.bk[y] == (if y == f then r else l.bk[y])
                 && l'.parent[y] == l.parent[y] && l'.child0[y] == l.child0[y] && l'.child1[y] == l.child1[y]
  {
  }

  /** A chunk in the middle goes. */
  lemma CutAt(l: Links, ring: seq<Addr>, p: nat, i: nat)
    requires |ring| > 1 && RingIs(l, ring) && Chained(l, ring) && 0 < p < |ring| && i < |ring| - 1
    requires forall j, k :: 0 <= j < k < |ring| ==> ring[j] != ring[k]
    ensures ring[p] in l.fd && ring[p] in l.bk && Placed(CutOut(l, ring[p]), ring[..p] + ring[p + 1..], i)
  {
    hide RingIs, Chained, Known, CutOut;
    var r, n := ring[..p] + ring[p + 1..], |ring|;
    RingAt(l, ring, p);
    RingAt(l, ring, p - 1);
    RingAt(l, ring, if p + 1 < n then p + 1 else 0);
    KnownParts(l, ring[p]);
    CutWords(l, ring[p]);
    var k := if i < p then i else i + 1;
    RingAt(l, ring, k);
    assert r[i] == ring[k];
    assert r[0] == ring[0];
    assert i + 1 < |r| ==> r[i + 1] == ring[if i + 1 < p then i + 1 else i + 2];
    assert i > 0 ==> r[i - 1] == ring[if i - 1 < p then i - 1 else i];
    assert r[|r| - 1] == ring[if p == n - 1 then n - 2 else n - 1];
    assert k < p - 1 ==> ring[k] != ring[p - 1];
    assert p - 1 < k ==> ring[p - 1] != ring[k];
    var f := if p + 1 < n then p + 1 else 0;
    assert k < f ==> ring[k] != ring[f];
    assert f < k ==> ring[f] != ring[k];
  }

  /** The first chunk goes, and the last one comes to the front. */
  lemma CutFirst(l: Links, ring: seq<Addr>, i: nat)
    requires |ring| > 1 && RingIs(l, ring) && Chained(l, ring) && i < |ring| - 1
    requires forall j, k :: 0 <= j < k < |ring| ==> ring[j] != ring[k]
    ensures ring[0] in l.fd && ring[0] in l.bk
    ensures Placed(CutOut(l, ring[0]), [ring[|ring| - 1]] + ring[1..|ring| - 1], i)
  {
    hide RingIs, Chained, Known, CutOut;
    var n := |ring| - 1;
    var r := [ring[n]] + ring[1..n];
    RingAt(l, ring, 0);
    RingAt(l, ring, 1);
    RingAt(l, ring, n);
    KnownParts(l, ring[0]);
    CutWords(l, ring[0]);
    var k := if i == 0 then n else i;
    RingAt(l, ring, k);
    assert r[i] == ring[k];
    assert i + 1 < |r| ==> r[i + 1] == ring[i + 1];
    assert i > 1 ==> r[i - 1] == ring[i - 1];
    assert r[|r| - 1] == if n == 1 then ring[1] else ring[n - 1];
    assert k < n ==> ring[k] != ring[n];
    assert 1 < k ==> ring[1] != ring[k];
  }

  lemma CutFacts(l: Links, ring: seq<Addr>, x: Addr)
    requires |ring| > 1 && RingIs(l, ring) && Chained(l, ring) && x in ring
    requires forall i, j :: 0 <= i < j < |ring| ==> ring[i] != ring[j]
    ensures x in l.fd && x in l.bk && RingWithout(ring, x) != []
    ensures var l', r := CutOut(l, x), RingWithout(ring, x);
            && RingIs(l', r) && Chained(l', r) && (forall y :: y in r ==> y in ring && y != x)
            && (forall i, j :: 0 <= i < j < |r| ==> r[i] != r[j])
            && r[0] == (if x == ring[0] then l.bk[x] else ring[0])
            && (forall y :: Known(l, y) ==> Known(l', y) && l'.parent[y] == l.parent[y]
                                            && l'.child0[y] == l.child0[y] && l'.child1[y] == l.child1[y])
            && (forall y :: Known(l, y) && y !in ring ==> Agree(l, l', y))
    ensures x == ring[0] ==> var z := l.bk[x]; Known(l, z) && l.child0[z] == l.child1[z] == 0
  {
    hide RingIs, Chained, CutOut, Placed;
    var p, n, r := Place(ring, x), |ring| - 1, RingWithout(ring, x);
    RingAt(l, ring, p);
    RingAt(l, ring, if p > 0 then p - 1 else n);
    RingAt(l, ring, if p < n then p + 1 else 0);
    RingAt(l, ring, n);
    CutWords(l, x);
    assert x == ring[0] ==> p == 0;
    forall i | 0 <= i < |r|
      ensures Placed(CutOut(l, x), r, i)
    {
      if p == 0 {
        CutFirst(l, ring, i);
      } else {
        CutAt(l, ring, p, i);
      }
    }
    AllPlaced(CutOut(l, x), r);
    WithoutOnce(ring, x);
  }

  lemma WithoutOnce(ring: seq<Addr>, x: Addr)
    requires |ring| > 1 && x in ring && forall i, j :: 0 <= i < j < |ring| ==> ring[i] != ring[j]
    ensures var r := RingWithout(ring, x);
            (forall i, j :: 0 <= i < j < |r| ==> r[i] != r[j]) && forall y :: y in r ==> y in ring && y != x
  {
    var p, n, r := Place(ring, x), |ring| - 1, RingWithout(ring, x);
    forall i | 0 <= i < |r|
      ensures r[i] == ring[if x == ring[0] then (if i == 0 then n else i) else if i < p then i else i + 1]
    {
    }
  }

  /** Another parent for a subtree. */
  ghost predicate ParentTo(l: Links, l': Links, x: Addr, par: Addr) {
    && Known(l, x) && Known(l', x) && l'.fd[x] == l.fd[x] && l'.bk[x] == l.bk[x] && l'.parent[x] == par
    && l'.child0[x] == l.child0[x] && l'.child1[x] == l.child1[x]
  }

  lemma ParentWords(l: Links, l': Links, x: Addr, par: Addr)
    requires ParentTo(l, l', x, par)
    ensures Known(l, x) && Known(l', x) && l'.parent[x] == par && l'.child0[x] == l.child0[x]
            && l'.child1[x] == l.child1[x]
    ensures x in l.fd && x in l'.fd && x in l.bk && x in l'.bk && l'.fd[x] == l.fd[x] && l'.bk[x] == l.bk[x]
  {
  }

  lemma Reparent(l: Links, l': Links, size: map<Addr, nat>, par: Addr, par': Addr, t: Trie)
    requires TreeIs(l, size, par, t) && Once(t) && (t.Node? ==> ParentTo(l, l', Top(t), par'))
    requires forall x :: x in Members(t) && x != Top(t) ==> Agree(l, l', x)
    ensures TreeIs(l', size, par', t)
  {
    hide *;
    TreeParts(l, size, par, t);
    TreeParts(l', size, par', t);
    if t.Node? {
      OnceParts(t);
      assert t.ring[0] in t.ring;
      ParentWords(l, l', t.ring[0], par');
      RingBut(l, l', t.ring);
      Frame(l, l', size, t.ring[0], t.left);
      Frame(l, l', size, t.ring[0], t.right);
    }
  }

  /** `r` takes over the place below `xp` and the children that `x` has. */
  function Moved(l: Links, x: Addr, r: Addr, xp: Addr): Links
    requires x in l.child0 && x in l.child1
  {
    var c0, c1 := l.child0[x], l.child1[x];
    var p := l.parent[r := xp];
    var p0 := if c0 != 0 then p[c0 := r] else p;
    Links(l.fd, l.bk, if c1 != 0 then p0[c1 := r] else p0, if c0 != 0 then l.child0[r := c0] else l.child0,
          if c1 != 0 then l.child1[r := c1] else l.child1)
  }

  /** The node `u` is ready to stand in for the chunk `x`: its ring is linked, and below `x` hang its subtrees to be. */
  ghost predicate Detached(l: Links, size: map<Addr, nat>, x: Addr, u: Trie) {
    && u.Node? && Once(u) && RingIs(l, u.ring) && Chained(l, u.ring) && Sized(size, u.ring, u.size)
    && l.child0[u.ring[0]] == l.child1[u.ring[0]] == 0
    && Known(l, x) && l.child0[x] == Top(u.left) && l.child1[x] == Top(u.right)
    && TreeIs(l, size, x, u.left) && TreeIs(l, size, x, u.right)
  }

  lemma DetachedParts(l: Links, size: map<Addr, nat>, x: Addr, u: Trie)
    ensures Detached(l, size, x, u) ==>
              && u.Node? && u.ring != [] && Known(l, u.ring[0]) && Once(u) && Top(u) == u.ring[0] != 0
    ensures u.Node? && u.ring != [] && Known(l, u.ring[0]) && Known(l, x) ==>
              (Detached(l, size, x, u) <==>
                 && Once(u) && RingIs(l, u.ring) && Chained(l, u.ring) && Sized(size, u.ring, u.size)
                 && l.child0[u.ring[0]] == l.child1[u.ring[0]] == 0
                 && l.child0[x] == Top(u.left) && l.child1[x] == Top(u.right)
                 && TreeIs(l, size, x, u.left) && TreeIs(l, size, x, u.right))
    ensures Detached(l, size, x, u) ==> Known(l, x)
  {
  }

  lemma MovedWords(l: Links, x: Addr, r: Addr, xp: Addr)
    requires Known(l, x) && Known(l, r) && l.child0[r] == l.child1[r] == 0
    requires (l.child0[x] != 0 ==> Known(l, l.child0[x])) && (l.child1[x] != 0 ==> Known(l, l.child1[x]))
    requires r != l.child0[x] && r != l.child1[x] && (l.child0[x] != 0 ==> l.child0[x] != l.child1[x])
    ensures var l', c0, c1 := Moved(l, x, r, xp), l.child0[x], l.child1[x];
            && Known(l', r) && l'.fd[r] == l.fd[r] && l'.bk[r] == l.bk[r] && l'.parent[r] == xp
            && l'.child0[r] == c0 && l'.child1[r] == c1
            && (c0 != 0 ==> ParentTo(l, l', c0, r)) && (c1 != 0 ==> ParentTo(l, l', c1, r))
            && forall y :: Known(l, y) && y != r && (c0 == 0 || y != c0) && (c1 == 0 || y != c1) ==> Agree(l, l', y)
  {
  }

  /** Then the node is in its new place. */
  lemma MovedIs(l: Links, size: map<Addr, nat>, x: Addr, u: Trie, xp: Addr)
    requires Detached(l, size, x, u)
    ensures Known(l, x) && u.ring != []
    ensures TreeIs(Moved(l, x, u.ring[0], xp), size, xp, u)
    ensures forall y :: Known(l, y) && y !in Members(u) ==> Agree(l, Moved(l, x, u.ring[0], xp), y)
  {
    hide *;
    DetachedParts(l, size, x, u);
    KnownParts(l, x);
    KnownParts(l, u.ring[0]);
    var r := u.ring[0];
    var l' := Moved(l, x, r, xp);
    OnceParts(u);
    assert r in u.ring;
    TreeParts(l, size, x, u.left);
    TreeParts(l, size, x, u.right);
    TopIn(u.left);
    TopIn(u.right);
    TopNil(u.left);
    TopNil(u.right);
    MembersKnown(l, size, x, u.left);
    MembersKnown(l, size, x, u.right);
    RingKnown(l, u.ring);
    MovedWords(l, x, r, xp);
    RingBut(l, l', u.ring);
    Reparent(l, l', size, x, r, u.left);
    Reparent(l, l', size, x, r, u.right);
    TreeParts(l', size, xp, u);
  }

  lemma TopNil(t: Trie)
    ensures t.Nil? ==> Top(t) == 0
    ensures t.Node? && t.ring != [] ==> Top(t) == t.ring[0]
  {
  }

  lemma RingKnown(l: Links, ring: seq<Addr>)
    requires RingIs(l, ring)
    ensures forall x :: x in ring ==> Known(l, x) && x != 0
  {
  }

  lemma MembersKnown(l: Links, size: map<Addr, nat>, par: Addr, t: Trie)
    requires TreeIs(l, size, par, t)
    ensures forall x :: x in Members(t) ==> Known(l, x) && x != 0
  {
    hide *;
    forall x | x in Members(t)
      ensures Known(l, x) && x != 0
    {
      AllKnown(l, size, par, t, x);
    }
  }

  /** The way to the leaf that takes the place of an inner node. */
  function LeafPath(t: Trie): seq<bool> {
    if t.Nil? then [] else if t.right.Node? then [true] + LeafPath(t.right)
    else if t.left.Node? then [false] + LeafPath(t.left) else []
  }

  lemma {:induction false} LeafPathIs(t: Trie)
    requires t.Node?
    ensures var q := LeafPath(t);
            && Path(t, q) && Sub(t, q) == LastLeaf(t) && Graft(t, q, Nil) == WithoutLeaf(t)
            && LastLeaf(t).left.Nil? && LastLeaf(t).right.Nil?
            && (q != [] <==> t.left.Node? || t.right.Node?)
    decreases t
  {
    if t.right.Node? {
      LeafPathIs(t.right);
    } else if t.left.Node? {
      LeafPathIs(t.left);
    }
  }

  /** What is left when the leaf has been cut off, and what stands in. */
  lemma ReplaceIs(t: Trie)
    requires t.Node?
    ensures var q, r := LeafPath(t), LastLeaf(t);
            if q == [] then Replace(t) == Nil
            else
              && Graft(t, q, Nil).Node? && Graft(t, q, Nil).ring == t.ring && Graft(t, q, Nil).size == t.size
              && Replace(t) == Node(r.ring, r.size, Graft(t, q, Nil).left, Graft(t, q, Nil).right)
  {
    LeafPathIs(t);
    if t.right.Node? {
      LeafPathIs(t.right);
      assert [true] + LeafPath(t.right) != [];
    } else if t.left.Node? {
      LeafPathIs(t.left);
      assert [false] + LeafPath(t.left) != [];
    }
  }

  /** A child word is overwritten. */
  function SlotSet(l: Links, p: Addr, right: bool, to: Addr): Links {
    if right then l.(child1 := l.child1[p := to]) else l.(child0 := l.child0[p := to])
  }

  lemma SlotSetIs(l: Links, p: Addr, right: bool, to: Addr)
    requires Known(l, p)
    ensures SlotTo(l, SlotSet(l, p, right, to), p, right, to)
    ensures forall y :: Known(l, y) && y != p ==> Agree(l, SlotSet(l, p, right, to), y)
  {
  }

  lemma NilMembers()
    ensures Members(Nil) == multiset{}
  {
  }

  lemma MembersStep(t: Trie)
    ensures t.Node? ==> Members(t) == multiset(t.ring) + Members(t.left) + Members(t.right)
  {
  }

  lemma OnceIs(t: Trie)
    ensures Once(t) ==> forall x: Addr :: Members(t)[x] <= 1
    ensures (forall x: Addr :: Members(t)[x] <= 1) ==> Once(t)
  {
    var m := Members(t);
    assert Once(t) == Single(m);
    SingleIs(m);
    assert Once(t) ==> forall x: Addr :: m[x] <= 1;
  }

  lemma SingleIs(m: multiset<Addr>)
    ensures Single(m) <==> forall x: Addr :: m[x] <= 1
  {
  }

  /** `x` has left its ring, whose new first chunk can stand in for it. */
  lemma CutDetached(l: Links, size: map<Addr, nat>, par: Addr, u: Trie, x: Addr)
    requires TreeIs(l, size, par, u) && Once(u) && u.Node? && |u.ring| > 1 && x in u.ring
    ensures x in l.fd && x in l.bk && RingWithout(u.ring, x) != []
    ensures var l', u' := CutOut(l, x), Node(RingWithout(u.ring, x), u.size, u.left, u.right);
            && (x == u.ring[0] ==> Detached(l', size, x, u') && Top(u') == l.bk[x])
            && (x != u.ring[0] ==> TreeIs(l', size, par, u') && Top(u') == Top(u))
            && (forall y :: Known(l, y) && y !in u.ring ==> Agree(l, l', y))
            && (forall y :: y in Members(u') ==> y in Members(u))
            && (forall y :: Known(l, y) ==> Known(l', y))
  {
    hide *;
    OnceParts(u);
    TreeParts(l, size, par, u);
    CutFacts(l, u.ring, x);
    var l', u' := CutOut(l, x), Node(RingWithout(u.ring, x), u.size, u.left, u.right);
    KnownParts(l, x);
    MembersKnown(l, size, par, u);
    MembersStep(u);
    MembersStep(u');
    Frame(l, l', size, u.ring[0], u.left);
    Frame(l, l', size, u.ring[0], u.right);
    SizedLess(size, u.ring, u'.ring, u.size);
    TopNil(u');
    if x == u.ring[0] {
      OnceLess(u, u');
      DetachedParts(l', size, x, u');
    } else {
      TreeParts(l', size, par, u');
    }
  }

  lemma SizedLess(size: map<Addr, nat>, ring: seq<Addr>, r: seq<Addr>, s: nat)
    requires Sized(size, ring, s) && forall x :: x in r ==> x in ring
    ensures Sized(size, r, s)
  {
    forall i | 0 <= i < |r|
      ensures r[i] in size && size[r[i]] == s
    {
      var y := r[i];
      assert y in r;
      var j :| 0 <= j < |ring| && ring[j] == y;
    }
  }

  lemma OnceLess(u: Trie, u': Trie)
    requires Once(u) && u.Node? && u'.Node? && u'.left == u.left && u'.right == u.right
    requires forall x :: x in u'.ring ==> x in u.ring
    requires forall i, j :: 0 <= i < j < |u'.ring| ==> u'.ring[i] != u'.ring[j]
    ensures Once(u')
  {
    hide Members, Once;
    OnceIs(u);
    MembersStep(u);
    MembersStep(u');
    forall x: Addr
      ensures Members(u')[x] <= 1
    {
      SingleCount(u'.ring, x);
      assert Members(u)[x] == multiset(u.ring)[x] + Members(u.left)[x] + Members(u.right)[x];
      assert Members(u')[x] == multiset(u'.ring)[x] + Members(u.left)[x] + Members(u.right)[x];
    }
    OnceIs(u');
  }

  lemma {:induction false} SingleCount(s: seq<Addr>, x: Addr)
    requires forall i, j :: 0 <= i < j < |s| ==> s[i] != s[j]
    ensures multiset(s)[x] == if x in s then 1 else 0
  {
    if s != [] {
      var r := s[1..];
      forall i, j | 0 <= i < j < |r|
        ensures r[i] != r[j]
      {
        assert s[i + 1] != s[j + 1];
      }
      SingleCount(r, x);
      assert s == [s[0]] + r;
      if s[0] in r {
        var j :| 0 <= j < |r| && r[j] == s[0];
        assert s[j + 1] != s[0];
      }
    }
  }

  /** The leaf has been cut off and can stand in for `x`, the only chunk of its size. */
  lemma LeafDetached(l: Links, size: map<Addr, nat>, par: Addr, u: Trie, x: Addr)
    requires TreeIs(l, size, par, u) && Once(u) && u.Node? && u.ring == [x] && LeafPath(u) != []
    ensures var q := LeafPath(u);
            var p := Above(u, q, par);
            && Known(l, p) && p in Members(u) && Child(l, p, q[|q| - 1]) == Top(LastLeaf(u)) && Top(LastLeaf(u)) != 0
            && var l' := SlotSet(l, p, q[|q| - 1], 0);
               && Detached(l', size, x, Replace(u)) && Top(Replace(u)) == Top(LastLeaf(u))
               && (forall y :: Known(l, y) && y !in Members(u) ==> Agree(l, l', y))
               && (forall y :: y in Members(Replace(u)) ==> y in Members(u))
               && (forall y :: Known(l, y) ==> Known(l', y))
  {
    hide *;
    var q, r := LeafPath(u), LastLeaf(u);
    var p := Above(u, q, par);
    LeafPathIs(u);
    ReplaceIs(u);
    PathFacts(l, size, par, u, q);
    var l' := SlotSet(l, p, q[|q| - 1], 0);
    SlotSetIs(l, p, q[|q| - 1], 0);
    SlotKnown(l, l', p, q[|q| - 1], 0);
    MembersKnown(l, size, par, u);
    MembersKnown(l, size, p, r);
    OutsideParts(l, l', u, q, p, 0);
    NilTop(l', size, p);
    Regraft(l, l', size, par, u, q, Nil);
    var rest, u' := Graft(u, q, Nil), Replace(u);
    Frame(l, l', size, p, r);
    TreeParts(l, size, p, r);
    TreeParts(l', size, p, r);
    TreeParts(l', size, par, rest);
    KnownParts(l', x);
    KnownParts(l, x);
    TopNil(r);
    TopNil(r.left);
    TopNil(r.right);
    TopNil(u');
    GraftMembers(u, q, Nil);
    NilMembers();
    assert Members(u) + multiset{} == Members(u);
    LeafOnce(u, rest, r, u', x);
    DetachedParts(l', size, x, u');
  }

  lemma SlotKnown(l: Links, l': Links, p: Addr, right: bool, to: Addr)
    requires SlotTo(l, l', p, right, to)
    ensures Known(l', p)
    ensures forall y :: Agree(l, l', y) ==> Known(l', y)
  {
  }

  lemma NilTop(l: Links, size: map<Addr, nat>, p: Addr)
    ensures TreeIs(l, size, p, Nil) && Top(Nil) == 0
  {
  }

  lemma LeafOnce(u: Trie, rest: Trie, r: Trie, u': Trie, x: Addr)
    requires Once(u) && Members(rest) + Members(r) == Members(u) && rest.Node? && rest.ring == [x] && r.Node?
    requires r.left.Nil? && r.right.Nil? && u' == Node(r.ring, r.size, rest.left, rest.right)
    ensures Once(u') && (forall y :: y in Members(u') ==> y in Members(u)) && x in Members(u)
  {
    hide Members, Once;
    OnceIs(u);
    MembersStep(rest);
    MembersStep(r);
    MembersStep(u');
    NilMembers();
    forall y: Addr
      ensures Members(u')[y] <= Members(u)[y]
    {
      assert Members(u)[y] == Members(rest)[y] + Members(r)[y];
    }
    assert Members(u)[x] == Members(rest)[x] + Members(r)[x];
    assert multiset(rest.ring)[x] == 1;
    OnceIs(u');
  }

  lemma AgreeTrans(l: Links, l1: Links, l2: Links, x: Addr)
    ensures Agree(l, l1, x) && Agree(l1, l2, x) ==> Agree(l, l2, x)
    ensures forall p: Addr, right: bool, to: Addr {:trigger SlotTo(l, l2, p, right, to)} ::
              (Agree(l, l1, p) && SlotTo(l1, l2, p, right, to)) || (SlotTo(l, l1, p, right, to) && Agree(l1, l2, p)) ==>
                SlotTo(l, l2, p, right, to)
    ensures Agree(l, l1, x) ==> Known(l, x) && Known(l1, x)
  {
  }

  lemma DetachedFrame(l: Links, l': Links, size: map<Addr, nat>, x: Addr, u: Trie)
    requires Detached(l, size, x, u) && Agree(l, l', x) && forall y :: y in Members(u) ==> Agree(l, l', y)
    ensures Detached(l', size, x, u)
  {
    hide *;
    DetachedParts(l, size, x, u);
    OnceParts(u);
    assert u.ring[0] in u.ring;
    AgreeWords(l, l', x);
    AgreeWords(l, l', u.ring[0]);
    RingFrame(l, l', u.ring);
    Frame(l, l', size, x, u.left);
    Frame(l, l', size, x, u.right);
    DetachedParts(l', size, x, u);
  }

  lemma AgreeWords(l: Links, l': Links, x: Addr)
    requires Agree(l, l', x)
    ensures Known(l, x) && Known(l', x) && l'.child0[x] == l.child0[x] && l'.child1[x] == l.child1[x]
  {
  }

  /** The link to the subtree is set. */
  function Hooked(l: Links, path: seq<bool>, p: Addr, to: Addr): Links {
    if path == [] then l else SlotSet(l, p, path[|path| - 1], to)
  }

  lemma HookedIs(l: Links, path: seq<bool>, p: Addr, to: Addr)
    ensures path == [] ==> Hooked(l, path, p, to) == l
    ensures path != [] ==> Hooked(l, path, p, to) == SlotSet(l, p, path[|path| - 1], to)
  {
  }

  lemma SelfAgree(l: Links, x: Addr)
    requires Known(l, x)
    ensures Agree(l, l, x)
  {
  }

  /** Another node stands in for `x` in the whole tree. */
  lemma StandsIn(l: Links, l1: Links, size: map<Addr, nat>, slot: Addr, t: Trie, path: seq<bool>, x: Addr, u: Trie)
    requires TreeIs(l, size, slot, t) && Path(t, path) && Once(t) && Detached(l1, size, x, u)
    requires (forall y :: y in Members(u) ==> y in Members(Sub(t, path))) && x in Members(Sub(t, path))
    requires forall y :: Known(l, y) && y !in Members(Sub(t, path)) ==> Agree(l, l1, y)
    requires forall y :: Known(l, y) ==> Known(l1, y)
    ensures var p := Above(t, path, slot);
            var l2 := Hooked(l1, path, p, Top(u));
            Known(l2, x) && TreeIs(Moved(l2, x, Top(u), p), size, slot, Graft(t, path, u))
  {
    hide *;
    var p, r := Above(t, path, slot), Top(u);
    var l2 := Hooked(l1, path, p, r);
    HookedIs(l1, path, p, r);
    PathFacts(l, size, slot, t, path);
    MembersKnown(l, size, slot, t);
    if path != [] {
      SlotSetIs(l1, p, path[|path| - 1], r);
    } else {
      forall y | Known(l1, y)
        ensures Agree(l1, l2, y)
      {
        SelfAgree(l1, y);
      }
    }
    DetachedFrame(l1, l2, size, x, u);
    DetachedParts(l2, size, x, u);
    MovedIs(l2, size, x, u, p);
    var l3 := Moved(l2, x, r, p);
    forall y | y in Members(t) && y !in Members(Sub(t, path)) && (path == [] || y != p)
      ensures Agree(l, l3, y)
    {
      AgreeTrans(l, l1, l2, y);
      AgreeTrans(l1, l2, l3, y);
      AgreeTrans(l, l2, l3, y);
    }
    if path != [] {
      AgreeTrans(l1, l2, l3, p);
      AgreeTrans(l, l1, l3, p);
      SlotAfter(l1, l2, l3, p, path[|path| - 1], r);
    }
    OutsideParts(l, l3, t, path, p, r);
    Regraft(l, l3, size, slot, t, path, u);
  }

  lemma SlotAfter(l: Links, l1: Links, l2: Links, p: Addr, right: bool, to: Addr)
    requires SlotTo(l, l1, p, right, to)
    ensures Known(l1, p) && (Agree(l1, l2, p) ==> SlotTo(l, l2, p, right, to))
  {
  }

  /** The node of `x` was a leaf and is gone. */
  lemma Vanishes(l: Links, size: map<Addr, nat>, slot: Addr, t: Trie, path: seq<bool>)
    requires TreeIs(l, size, slot, t) && Path(t, path) && Once(t)
    ensures TreeIs(Hooked(l, path, Above(t, path, slot), 0), size, slot, Graft(t, path, Nil))
  {
    hide *;
    var p := Above(t, path, slot);
    var l' := Hooked(l, path, p, 0);
    HookedIs(l, path, p, 0);
    PathFacts(l, size, slot, t, path);
    MembersKnown(l, size, slot, t);
    NilTop(l', size, p);
    OutsideParts(l, l', t, path, p, 0);
    if path != [] {
      SlotSetIs(l, p, path[|path| - 1], 0);
    } else {
      PathNone(t, slot);
    }
    Regraft(l, l', size, slot, t, path, Nil);
  }

  /** A chunk that was not first in its ring is gone. */
  lemma CutInside(l: Links, size: map<Addr, nat>, slot: Addr, t: Trie, path: seq<bool>, x: Addr)
    requires TreeIs(l, size, slot, t) && Path(t, path) && Once(t) && Sub(t, path).Node?
    requires var u := Sub(t, path); |u.ring| > 1 && x in u.ring && x != u.ring[0]
    ensures x in l.fd && x in l.bk
    ensures var u := Sub(t, path);
            TreeIs(CutOut(l, x), size, slot, Graft(t, path, Node(RingWithout(u.ring, x), u.size, u.left, u.right)))
  {
    hide *;
    var u, p := Sub(t, path), Above(t, path, slot);
    PathFacts(l, size, slot, t, path);
    CutDetached(l, size, p, u, x);
    var l', u' := CutOut(l, x), Node(RingWithout(u.ring, x), u.size, u.left, u.right);
    MembersKnown(l, size, slot, t);
    OnceParts(u);
    OutsideParts(l, l', t, path, p, Top(u));
    SlotSame(l, l', p, if path == [] then false else path[|path| - 1]);
    Regraft(l, l', size, slot, t, path, u');
  }

  /** How far the descent is: at the subtree `u`, which hangs below `par` and branches on `c` bits. */
  datatype Way = Way(u: Trie, c: nat, h: nat, par: Addr, path: seq<bool>)

  ghost predicate OnWay(l: Links, size: map<Addr, nat>, t: Trie, path: seq<bool>, slot: Addr, s: nat, w: Way) {
    && w.u.Node? && TreeIs(l, size, w.par, w.u) && Inv(w.u, w.c, w.h) && s / Pow2(w.c) == w.h && w.c <= WORD_BITS
    && w.path + PathTo(w.u, w.c, s) == path && Sub(t, path) == Sub(w.u, PathTo(w.u, w.c, s))
    && Above(t, path, slot) == Above(w.u, PathTo(w.u, w.c, s), w.par)
  }

  /** The descent ends at the node of the size, or above the free place where the size belongs. */
  ghost predicate Arrived(t: Trie, path: seq<bool>, slot: Addr, s: nat, cur: Addr, exact: bool, right: bool) {
    var u := Sub(t, path);
    if exact then u.Node? && cur == Top(u) && u.size == s
    else u.Nil? && path != [] && cur == Above(t, path, slot) && right == path[|path| - 1]
  }

  lemma WayBegins(l: Links, size: map<Addr, nat>, t: Trie, slot: Addr, s: nat, w: Way)
    requires TreeIs(l, size, slot, t) && t.Node? && Inv(t, w.c, w.h) && s / Pow2(w.c) == w.h && w.c <= WORD_BITS
    requires w.u == t && w.par == slot && w.path == []
    ensures OnWay(l, size, t, PathTo(t, w.c, s), slot, s, w)
  {
    hide Inv, Pow2, TreeIs, PathTo, Sub, Above;
    assert [] + PathTo(t, w.c, s) == PathTo(t, w.c, s);
  }

  lemma WayWords(l: Links, size: map<Addr, nat>, t: Trie, path: seq<bool>, slot: Addr, s: nat, w: Way)
    requires OnWay(l, size, t, path, slot, s, w)
    ensures var x := Top(w.u);
            && x in size && size[x] == w.u.size && x in l.child0 && x in l.child1
            && l.child0[x] == Top(w.u.left) && l.child1[x] == Top(w.u.right)
  {
    hide Inv, PathTo, Sub, Above, TreeIs, RingIs, Chained;
    TreeParts(l, size, w.par, w.u);
    KnownParts(l, Top(w.u));
  }

  lemma WayExact(l: Links, size: map<Addr, nat>, t: Trie, path: seq<bool>, slot: Addr, s: nat, w: Way, right: bool)
    requires OnWay(l, size, t, path, slot, s, w) && w.u.size == s
    ensures Arrived(t, path, slot, s, Top(w.u), true, right)
  {
    hide Inv, Pow2, TreeIs, PathTo, Above, Top;
    PathToStep(w.u, w.c, s);
  }

  /** The sign bit says which way to go. */
  lemma WayTurns(l: Links, size: map<Addr, nat>, t: Trie, path: seq<bool>, slot: Addr, s: nat, w: Way, k: nat)
    requires OnWay(l, size, t, path, slot, s, w) && w.u.size != s && k == ShiftLeft(s, WORD_BITS - w.c)
    ensures k / Pow2(63) != 0 <==> TopBit(s, w.c) != 0
    ensures w.c > 0 && ShiftLeft(k, 1) == ShiftLeft(s, WORD_BITS - (w.c - 1))
  {
    hide Inv, Pow2, TreeIs, PathTo, Above, Sub, ShiftLeft, TopBit;
    Open(w.u, w.c, w.h);
    NoBitsLeft(s, w.u.size, w.c, w.h);
    SignBit(s, w.c);
    ShiftOnce(s, w.c);
  }

  /** One turn further. */
  lemma WayNext(l: Links, size: map<Addr, nat>, t: Trie, path: seq<bool>, slot: Addr, s: nat, w: Way) returns (w': Way)
    requires OnWay(l, size, t, path, slot, s, w) && w.u.size != s
    requires (if TopBit(s, w.c) != 0 then Top(w.u.right) else Top(w.u.left)) != 0
    ensures OnWay(l, size, t, path, slot, s, w') && w'.u.Node? && w'.u < w.u && w.c > 0 && w'.c == w.c - 1
    ensures Top(w'.u) == if TopBit(s, w.c) != 0 then Top(w.u.right) else Top(w.u.left)
  {
    hide *;
    WayIs(l, size, t, path, slot, s, w);
    Open(w.u, w.c, w.h);
    NoBitsLeft(s, w.u.size, w.c, w.h);
    HalfSize(s, w.c);
    BitRange(s, w.c);
    PathToStep(w.u, w.c, s);
    PathToIs(w.u, w.c, s);
    PathStep(w.u, PathTo(w.u, w.c, s), w.par);
    TreeParts(l, size, w.par, w.u);
    var right := TopBit(s, w.c) != 0;
    var v := Side(w.u, right);
    TopNil(v);
    FewerIs(w.c);
    PathNone(v, Top(w.u));
    w' := Way(v, w.c - 1, if right then 2 * w.h + 1 else 2 * w.h, Top(w.u), w.path + [right]);
    assert w.path + ([right] + PathTo(v, w.c - 1, s)) == w'.path + PathTo(v, w.c - 1, s);
    assert ([right] + PathTo(v, w.c - 1, s))[1..] == PathTo(v, w.c - 1, s);
    WayIs(l, size, t, path, slot, s, w');
  }

  lemma WayIs(l: Links, size: map<Addr, nat>, t: Trie, path: seq<bool>, slot: Addr, s: nat, w: Way)
    ensures OnWay(l, size, t, path, slot, s, w) <==>
              && w.u.Node? && TreeIs(l, size, w.par, w.u) && Inv(w.u, w.c, w.h) && s / Pow2(w.c) == w.h
              && w.c <= WORD_BITS
              && w.path + PathTo(w.u, w.c, s) == path && Sub(t, path) == Sub(w.u, PathTo(w.u, w.c, s))
              && Above(t, path, slot) == Above(w.u, PathTo(w.u, w.c, s), w.par)
  {
  }

  lemma FewerIs(b: nat)
    ensures Fewer(b) == if b == 0 then 0 else b - 1
  {
  }

  /** No child there. */
  lemma WayEnds(l: Links, size: map<Addr, nat>, t: Trie, path: seq<bool>, slot: Addr, s: nat, w: Way)
    requires OnWay(l, size, t, path, slot, s, w) && w.u.size != s
    requires (if TopBit(s, w.c) != 0 then Top(w.u.right) else Top(w.u.left)) == 0
    ensures Arrived(t, path, slot, s, Top(w.u), false, TopBit(s, w.c) != 0)
  {
    hide *;
    WayIs(l, size, t, path, slot, s, w);
    PathToStep(w.u, w.c, s);
    PathToIs(w.u, w.c, s);
    PathStep(w.u, PathTo(w.u, w.c, s), w.par);
    TreeParts(l, size, w.par, w.u);
    var right := TopBit(s, w.c) != 0;
    var v := Side(w.u, right);
    TreeParts(l, size, Top(w.u), v);
    PathToStep(v, Fewer(w.c), s);
    PathNone(v, Top(w.u));
    assert PathTo(w.u, w.c, s) == [right];
    ArrivedIs(t, path, slot, s, Top(w.u), right);
  }

  lemma ArrivedIs(t: Trie, path: seq<bool>, slot: Addr, s: nat, cur: Addr, right: bool)
    requires Sub(t, path).Nil? && path != [] && cur == Above(t, path, slot) && right == path[|path| - 1]
    ensures Arrived(t, path, slot, s, cur, false, right)
  {
  }

  // --------------------------------------------------------------- for whole trees

  lemma Swapped<T>(a: multiset<T>, k': multiset<T>, o: multiset<T>, m: multiset<T>, k: multiset<T>, u: multiset<T>)
    requires k' + m == k + u
    ensures a + k' + o + m == a + k + o + u && a + o + k' + m == a + o + k + u
  {
    forall x: T
      ensures (a + k' + o + m)[x] == (a + k + o + u)[x] && (a + o + k' + m)[x] == (a + o + k + u)[x]
    {
      assert (k' + m)[x] == (k + u)[x];
    }
  }

  lemma {:induction false} GraftMembers(t: Trie, path: seq<bool>, u: Trie)
    requires Path(t, path)
    ensures Members(Graft(t, path, u)) + Members(Sub(t, path)) == Members(t) + Members(u)
    decreases path
  {
    hide *;
    GraftStep(t, path, u);
    PathNone(t, 0);
    if path != [] {
      PathStep(t, path, 0);
      GraftMembers(Side(t, path[0]), path[1..], u);
      MembersStep(t);
      MembersStep(Graft(t, path, u));
      var k := Side(t, path[0]);
      Swapped(multiset(t.ring), Members(Graft(k, path[1..], u)), Members(Side(t, !path[0])), Members(Sub(t, path)),
              Members(k), Members(u));
    } else {
      assert Members(u) + Members(t) == Members(t) + Members(u);
    }
  }

  /** What the bin's own word and its bit have to be. */
  lemma GraftWhole(t: Trie, path: seq<bool>, u: Trie)
    requires Path(t, path)
    ensures Top(Graft(t, path, u)) == if path == [] then Top(u) else Top(t)
    ensures Graft(t, path, u).Node? <==> path != [] || u.Node?
  {
    GraftStep(t, path, u);
  }

  lemma OnceGrown(t: Trie, path: seq<bool>, u: Trie, x: Addr)
    requires Path(t, path) && Once(t) && x !in Members(t) && Members(u) == Members(Sub(t, path)) + multiset{x}
    ensures Once(Graft(t, path, u))
  {
    hide *;
    var t' := Graft(t, path, u);
    GraftMembers(t, path, u);
    OnceIs(t);
    OnceIs(t');
    forall y: Addr
      ensures Members(t')[y] <= 1
    {
      var m := Members(Sub(t, path));
      assert (Members(t') + m)[y] == (Members(t) + (m + multiset{x}))[y];
      assert (Members(t') + m)[y] == Members(t')[y] + m[y];
      assert (Members(t) + (m + multiset{x}))[y] == Members(t)[y] + m[y] + multiset{x}[y];
    }
  }

  lemma OnceShrunk(t: Trie, path: seq<bool>, u: Trie)
    requires Path(t, path) && Once(t) && Once(u) && forall x :: x in Members(u) ==> x in Members(Sub(t, path))
    ensures Once(Graft(t, path, u))
  {
    hide *;
    var t', m := Graft(t, path, u), Members(Sub(t, path));
    GraftMembers(t, path, u);
    OnceIs(t);
    OnceIs(u);
    OnceIs(t');
    forall y: Addr
      ensures Members(t')[y] <= 1
    {
      assert (Members(t') + m)[y] == Members(t')[y] + m[y];
      assert (Members(t) + Members(u))[y] == Members(t)[y] + Members(u)[y];
      assert y in Members(u) ==> y in m;
    }
  }

  lemma NewMembers(x: Addr, s: nat)
    ensures Members(Node([x], s, Nil, Nil)) == Members(Nil) + multiset{x}
  {
  }

  lemma JoinedMembers(u: Trie, x: Addr)
    requires u.Node? && u.ring != []
    ensures Members(Node([u.ring[0], x] + u.ring[1..], u.size, u.left, u.right)) == Members(u) + multiset{x}
  {
    var r := [u.ring[0], x] + u.ring[1..];
    assert u.ring == [u.ring[0]] + u.ring[1..];
    assert multiset(r) == multiset(u.ring) + multiset{x};
    AddRing(multiset(u.ring), Members(u.left), Members(u.right), multiset{x});
  }

  /** The first chunk of an empty bin. */
  lemma FirstIn(l: Links, size: map<Addr, nat>, slot: Addr, x: Addr, s: nat, b: nat)
    requires x != 0 && x in size && size[x] == s
    requires x in l.fd && x in l.bk && x in l.parent && x in l.child0 && x in l.child1
    requires l.fd[x] == l.bk[x] == x && l.parent[x] == slot && l.child0[x] == l.child1[x] == 0
    ensures var t := Insert(Nil, b, s, x); TreeIs(l, size, slot, t) && Once(t) && Top(t) == x && t.Node?
  {
    var t := Insert(Nil, b, s, x);
    assert RingIs(l, [x]) && Chained(l, [x]);
    Lone(l, size, slot, x, s);
    NewMembers(x, s);
    NilMembers();
    forall y
      ensures Members(t)[y] <= 1
    {
      assert Members(t) == multiset{} + multiset{x};
    }
  }

  /** `x` hangs where its size belongs. */
  lemma HungIn(l: Links, size: map<Addr, nat>, slot: Addr, t: Trie, b: nat, s: nat, x: Addr, cur: Addr, right: bool)
    requires TreeIs(l, size, slot, t) && Once(t) && Arrived(t, PathTo(t, b, s), slot, s, cur, false, right)
    requires x != 0 && x !in Members(t) && x in size && size[x] == s
    ensures var t' := Insert(t, b, s, x);
            && TreeIs(Hung(l, cur, right, x), size, slot, t') && Once(t') && Top(t') == Top(t) && t'.Node?
  {
    hide *;
    var path, u := PathTo(t, b, s), Node([x], s, Nil, Nil);
    PathToIs(t, b, s);
    ArrivedMeans(t, path, slot, s, cur, false, right);
    InsertPath(t, b, s, x);
    Hangs(l, size, slot, t, path, x, s);
    NewMembers(x, s);
    OnceGrown(t, path, u, x);
    GraftWhole(t, path, u);
  }

  lemma ArrivedMeans(t: Trie, path: seq<bool>, slot: Addr, s: nat, cur: Addr, exact: bool, right: bool)
    requires Arrived(t, path, slot, s, cur, exact, right)
    ensures var u := Sub(t, path);
            if exact then u.Node? && cur == Top(u) && u.size == s
            else u == Nil && path != [] && cur == Above(t, path, slot) && right == path[|path| - 1]
  {
  }

  /** `x` joins the ring of its size. */
  lemma JoinedIn(l: Links, size: map<Addr, nat>, slot: Addr, t: Trie, b: nat, s: nat, x: Addr, cur: Addr, right: bool)
    requires TreeIs(l, size, slot, t) && Once(t) && Arrived(t, PathTo(t, b, s), slot, s, cur, true, right)
    requires x != 0 && x !in Members(t) && x in size && size[x] == s
    ensures cur in l.fd && var t' := Insert(t, b, s, x);
            && TreeIs(Joined(l, cur, x), size, slot, t') && Once(t') && Top(t') == Top(t) && t'.Node?
  {
    hide *;
    var path := PathTo(t, b, s);
    var u := Sub(t, path);
    PathToIs(t, b, s);
    ArrivedMeans(t, path, slot, s, cur, true, right);
    InsertPath(t, b, s, x);
    Joins(l, size, slot, t, path, x);
    TopNil(u);
    JoinedMembers(u, x);
    var u' := Node([u.ring[0], x] + u.ring[1..], u.size, u.left, u.right);
    TopNil(u');
    OnceGrown(t, path, u', x);
    GraftWhole(t, path, u');
    PathNone(t, slot);
  }

  /** Where a chunk of the bin is. */
  lemma {:induction false} RingOf(t: Trie, b: nat, hi: nat, s: nat, x: Addr)
    requires Inv(t, b, hi) && Chunk(x, s) in Chunks(t)
    ensures var u := Sub(t, PathTo(t, b, s)); u.Node? && u.size == s && x in u.ring
    decreases t
  {
    hide *;
    NotNil(t, Chunk(x, s));
    ChunkSize(t, Chunk(x, s));
    SizesHigh(t, b, hi, s);
    PathToStep(t, b, s);
    PathToIs(t, b, s);
    PathNone(t, 0);
    if t.size == s {
      InRing(t, b, hi, x);
    } else {
      Open(t, b, hi);
      NoBitsLeft(s, t.size, b, hi);
      WhichSide(t, b, hi, s, x);
      PathStep(t, PathTo(t, b, s), 0);
      BitRange(s, b);
      FewerIs(b);
      if TopBit(s, b) == 0 {
        RingOf(t.left, b - 1, 2 * hi, s, x);
      } else {
        RingOf(t.right, b - 1, 2 * hi + 1, s, x);
      }
      assert PathTo(t, b, s)[1..] == PathTo(Side(t, TopBit(s, b) != 0), Fewer(b), s);
    }
  }

  /** How far the way to the leaf is: at the subtree `v`, which hangs below `holder`, on its right or left. */
  datatype Descent = Descent(v: Trie, holder: Addr, right: bool, path: seq<bool>)

  ghost predicate OnLeafWay(l: Links, size: map<Addr, nat>, par: Addr, u: Trie, d: Descent) {
    && d.v.Node? && TreeIs(l, size, d.holder, d.v) && d.path != [] && d.path[|d.path| - 1] == d.right
    && d.path + LeafPath(d.v) == LeafPath(u) && LastLeaf(d.v) == (if u.Node? then LastLeaf(u) else u)
    && Above(u, LeafPath(u), par) == Above(d.v, LeafPath(d.v), d.holder)
  }

  /** The leaf has been found, and the child word that leads to it. */
  ghost predicate LeafFound(par: Addr, u: Trie, holder: Addr, right: bool, r: Addr) {
    && u.Node? && LeafPath(u) != [] && r == Top(LastLeaf(u)) && holder == Above(u, LeafPath(u), par)
    && right == LeafPath(u)[|LeafPath(u)| - 1]
  }

  lemma NodeWords(l: Links, size: map<Addr, nat>, par: Addr, u: Trie)
    requires TreeIs(l, size, par, u) && u.Node?
    ensures var x := Top(u);
            x != 0 && x in l.child0 && x in l.child1 && l.child0[x] == Top(u.left) && l.child1[x] == Top(u.right)
    ensures Top(u.left) != 0 <==> u.left.Node?
    ensures Top(u.right) != 0 <==> u.right.Node?
  {
    hide *;
    TreeParts(l, size, par, u);
    KnownParts(l, Top(u));
    TreeParts(l, size, Top(u), u.left);
    TreeParts(l, size, Top(u), u.right);
    TopNil(u.left);
    TopNil(u.right);
  }

  lemma LeafPathStep(u: Trie, par: Addr)
    requires u.Node?
    ensures u.left.Nil? && u.right.Nil? ==> LeafPath(u) == [] && LastLeaf(u) == u
    ensures !(u.left.Nil? && u.right.Nil?) ==>
              var right := u.right.Node?;
              var v := if right then u.right else u.left;
              && LeafPath(u) == [right] + LeafPath(v) && LastLeaf(u) == LastLeaf(v)
              && Above(u, LeafPath(u), par) == Above(v, LeafPath(v), Top(u))
  {
    if !(u.left.Nil? && u.right.Nil?) {
      var right := u.right.Node?;
      var v := if right then u.right else u.left;
      assert ([right] + LeafPath(v))[1..] == LeafPath(v);
    }
  }

  /** The first turn. */
  lemma LeafWayBegins(l: Links, size: map<Addr, nat>, par: Addr, u: Trie) returns (d: Descent)
    requires TreeIs(l, size, par, u) && u.Node? && !(u.left.Nil? && u.right.Nil?)
    ensures OnLeafWay(l, size, par, u, d) && d.holder == Top(u) && d.right == u.right.Node?
    ensures d.v == if u.right.Node? then u.right else u.left
  {
    hide TreeIs, LeafPath, LastLeaf, Above;
    TreeParts(l, size, par, u);
    LeafPathStep(u, par);
    var v := if u.right.Node? then u.right else u.left;
    TopNil(u);
    d := Descent(v, Top(u), u.right.Node?, [u.right.Node?]);
  }

  /** One turn more. */
  lemma LeafWayNext(l: Links, size: map<Addr, nat>, par: Addr, u: Trie, d: Descent) returns (e: Descent)
    requires OnLeafWay(l, size, par, u, d) && !(d.v.left.Nil? && d.v.right.Nil?)
    ensures OnLeafWay(l, size, par, u, e) && e.holder == Top(d.v) && e.right == d.v.right.Node?
    ensures e.v == (if d.v.right.Node? then d.v.right else d.v.left) && e.v < d.v
  {
    hide TreeIs, LeafPath, LastLeaf, Above;
    TreeParts(l, size, d.holder, d.v);
    LeafPathStep(d.v, d.holder);
    TopNil(d.v);
    var right := d.v.right.Node?;
    var v := if right then d.v.right else d.v.left;
    e := Descent(v, Top(d.v), right, d.path + [right]);
    assert d.path + ([right] + LeafPath(v)) == e.path + LeafPath(v);
  }

  lemma LeafWayEnds(l: Links, size: map<Addr, nat>, par: Addr, u: Trie, d: Descent)
    requires u.Node? && OnLeafWay(l, size, par, u, d) && d.v.left.Nil? && d.v.right.Nil?
    ensures LeafFound(par, u, d.holder, d.right, Top(d.v))
  {
    hide TreeIs;
    LeafPathStep(d.v, d.holder);
    assert d.path + [] == d.path;
  }

  lemma LeafWayIs(l: Links, size: map<Addr, nat>, par: Addr, u: Trie, d: Descent)
    requires OnLeafWay(l, size, par, u, d)
    ensures d.v.Node? && TreeIs(l, size, d.holder, d.v)
  {
  }

  /** What the words of `x` tell about its place. */
  lemma PlaceTold(l: Links, size: map<Addr, nat>, slot: Addr, t: Trie, path: seq<bool>, x: Addr)
    requires TreeIs(l, size, slot, t) && Path(t, path) && Once(t) && slot != 0
    requires Sub(t, path).Node? && x in Sub(t, path).ring
    ensures var u, p := Sub(t, path), Above(t, path, slot);
            && Known(l, x) && (l.bk[x] == x <==> u.ring == [x])
            && l.parent[x] == (if x == u.ring[0] then p else 0) && p != 0
            && (x == u.ring[0] ==> (x == Top(t) <==> path == []))
            && (path != [] && x == u.ring[0] ==>
                  p in l.child0 && p in l.child1 && (l.child0[p] == x <==> !path[|path| - 1]))
  {
    hide *;
    var u, p := Sub(t, path), Above(t, path, slot);
    PathFacts(l, size, slot, t, path);
    PathNone(t, slot);
    TreeParts(l, size, p, u);
    OnceParts(u);
    MembersStep(u);
    RingTold(l, u.ring, x);
    TopNil(u);
    if path != [] {
      KnownParts(l, p);
      if x == u.ring[0] {
        OtherChild(l, size, slot, t, path);
      }
    }
  }

  lemma RingTold(l: Links, ring: seq<Addr>, x: Addr)
    requires RingIs(l, ring) && Chained(l, ring) && x in ring
    requires forall i, j :: 0 <= i < j < |ring| ==> ring[i] != ring[j]
    ensures Known(l, x) && x != 0 && (l.bk[x] == x <==> ring == [x])
    ensures x != ring[0] ==> l.parent[x] == 0
  {
    hide RingIs, Chained;
    var p := TreeBin.Place(ring, x);
    RingAt(l, ring, p);
    assert p > 0 ==> ring[p - 1] != ring[p];
    assert p == 0 && |ring| > 1 ==> ring[0] != ring[|ring| - 1];
  }

  /** The other child of the node above is another chunk. */
  lemma {:induction false} OtherChild(l: Links, size: map<Addr, nat>, par: Addr, t: Trie, path: seq<bool>)
    requires TreeIs(l, size, par, t) && Path(t, path) && Once(t) && path != [] && Sub(t, path).Node?
    ensures var p := Above(t, path, par);
            Known(l, p) && Child(l, p, !path[|path| - 1]) != Top(Sub(t, path))
    decreases path
  {
    hide *;
    PathStep(t, path, par);
    var k, o, r := Side(t, path[0]), Side(t, !path[0]), path[1..];
    OnceParts(t);
    TreeParts(l, size, par, t);
    KnownParts(l, t.ring[0]);
    if r == [] {
      PathNone(k, t.ring[0]);
      TreeParts(l, size, t.ring[0], k);
      TopIn(k);
      TopIn(o);
    } else {
      OtherChild(l, size, t.ring[0], k, r);
      assert r[|r| - 1] == path[|path| - 1];
    }
  }

  // ---------------------------------------------------------- the four ways to unlink

  /** A chunk that has others before it in its ring. */
  lemma UnlinkInside(l: Links, size: map<Addr, nat>, slot: Addr, t: Trie, b: nat, s: nat, x: Addr)
    requires TreeIs(l, size, slot, t) && Once(t)
    requires var u := Sub(t, PathTo(t, b, s)); u.Node? && u.size == s && |u.ring| > 1 && x in u.ring && x != u.ring[0]
    ensures x in l.fd && x in l.bk
    ensures var t' := Unlink(t, b, s, x);
            TreeIs(CutOut(l, x), size, slot, t') && Once(t') && Top(t') == Top(t) && t'.Node?
  {
    hide *;
    var path := PathTo(t, b, s);
    var u := Sub(t, path);
    PathToIs(t, b, s);
    UnlinkPath(t, b, s, x);
    CutInside(l, size, slot, t, path, x);
    PathFacts(l, size, slot, t, path);
    var u', p := Node(RingWithout(u.ring, x), s, u.left, u.right), Above(t, path, slot);
    CutDetached(l, size, p, u, x);
    TreeParts(l, size, p, u);
    OnceParts(u);
    CutFacts(l, u.ring, x);
    OnceLess(u, u');
    OnceShrunk(t, path, u');
    GraftWhole(t, path, u');
    PathNone(t, slot);
  }

  /** The first chunk of its ring, with others behind it. */
  lemma UnlinkFirst(l: Links, size: map<Addr, nat>, slot: Addr, t: Trie, b: nat, s: nat, x: Addr)
    requires TreeIs(l, size, slot, t) && Once(t)
    requires var u := Sub(t, PathTo(t, b, s)); u.Node? && u.size == s && |u.ring| > 1 && x == u.ring[0]
    ensures x in l.fd && x in l.bk
    ensures var t', path := Unlink(t, b, s, x), PathTo(t, b, s);
            var p, r := Above(t, path, slot), l.bk[x];
            var l2 := Hooked(CutOut(l, x), path, p, r);
            && (path != [] ==> SameChildren(l, CutOut(l, x), p))
            && r != 0 && x in l2.child0 && x in l2.child1
            && TreeIs(Moved(l2, x, r, p), size, slot, t') && Once(t')
            && Top(t') == (if path == [] then r else Top(t)) && t'.Node?
  {
    hide *;
    var path := PathTo(t, b, s);
    var u, p := Sub(t, path), Above(t, path, slot);
    PathToIs(t, b, s);
    UnlinkPath(t, b, s, x);
    PathFacts(l, size, slot, t, path);
    assert x in u.ring;
    var u' := Node(RingWithout(u.ring, x), s, u.left, u.right);
    CutDetached(l, size, p, u, x);
    DetachedParts(CutOut(l, x), size, x, u');
    MembersStep(u);
    StandsIn(l, CutOut(l, x), size, slot, t, path, x, u');
    KnownParts(Hooked(CutOut(l, x), path, p, Top(u')), x);
    OnceParts(u);
    AgreeChildren(l, CutOut(l, x), p);
    OnceShrunk(t, path, u');
    GraftWhole(t, path, u');
  }

  /** The only chunk of its size, with nodes below: the leaf found there stands in. */
  lemma UnlinkInner(l: Links, size: map<Addr, nat>, slot: Addr, t: Trie, b: nat, s: nat, x: Addr, holder: Addr,
                    right: bool, r: Addr)
    requires TreeIs(l, size, slot, t) && Once(t)
    requires var u := Sub(t, PathTo(t, b, s));
             && u.Node? && u.size == s && u.ring == [x]
             && LeafFound(Above(t, PathTo(t, b, s), slot), u, holder, right, r)
    ensures var t', path := Unlink(t, b, s, x), PathTo(t, b, s);
            var p := Above(t, path, slot);
            var l2 := Hooked(SlotSet(l, holder, right, 0), path, p, r);
            && (path != [] ==> SameChildren(l, SlotSet(l, holder, right, 0), p))
            && r != 0 && x in l2.child0 && x in l2.child1
            && TreeIs(Moved(l2, x, r, p), size, slot, t') && Once(t')
            && Top(t') == (if path == [] then r else Top(t)) && t'.Node?
  {
    hide *;
    var path := PathTo(t, b, s);
    var u, p := Sub(t, path), Above(t, path, slot);
    PathToIs(t, b, s);
    UnlinkPath(t, b, s, x);
    PathFacts(l, size, slot, t, path);
    LeafFoundIs(p, u, holder, right, r);
    LeafDetached(l, size, p, u, x);
    var l1, u' := SlotSet(l, holder, right, 0), Replace(u);
    DetachedParts(l1, size, x, u');
    MembersStep(u);
    assert x in u.ring;
    StandsIn(l, l1, size, slot, t, path, x, u');
    KnownParts(Hooked(l1, path, p, r), x);
    AgreeChildren(l, l1, p);
    OnceShrunk(t, path, u');
    GraftWhole(t, path, u');
  }

  lemma LeafFoundIs(par: Addr, u: Trie, holder: Addr, right: bool, r: Addr)
    requires LeafFound(par, u, holder, right, r)
    ensures u.Node? && LeafPath(u) != [] && r == Top(LastLeaf(u)) && holder == Above(u, LeafPath(u), par)
            && right == LeafPath(u)[|LeafPath(u)| - 1]
  {
  }

  /** The only chunk of its size, and nothing below. */
  lemma UnlinkLeaf(l: Links, size: map<Addr, nat>, slot: Addr, t: Trie, b: nat, s: nat, x: Addr)
    requires TreeIs(l, size, slot, t) && Once(t)
    requires var u := Sub(t, PathTo(t, b, s)); u.Node? && u.size == s && u.ring == [x] && u.left.Nil? && u.right.Nil?
    ensures var t', path := Unlink(t, b, s, x), PathTo(t, b, s);
            && TreeIs(Hooked(l, path, Above(t, path, slot), 0), size, slot, t') && Once(t')
            && Top(t') == (if path == [] then 0 else Top(t)) && (t'.Node? <==> path != [])
  {
    hide *;
    var path := PathTo(t, b, s);
    var u := Sub(t, path);
    PathToIs(t, b, s);
    UnlinkPath(t, b, s, x);
    LeafPathStep(u, 0);
    ReplaceIs(u);
    Vanishes(l, size, slot, t, path);
    NilOnce();
    OnceShrunk(t, path, Nil);
    GraftWhole(t, path, Nil);
    NilTop(l, size, 0);
  }

  /** Once the link above leads to `r`, and `r` has taken over place and children of `x`, the trie `t'` is there. */
  ghost predicate Prepared(l: Links, size: map<Addr, nat>, slot: Addr, t: Trie, t': Trie, path: seq<bool>, x: Addr,
                           r: Addr) {
    var p := Above(t, path, slot);
    var l2 := Hooked(l, path, p, r);
    && (if r == 0 then TreeIs(l2, size, slot, t')
        else x in l2.child0 && x in l2.child1 && TreeIs(Moved(l2, x, r, p), size, slot, t'))
    && Once(t') && Top(t') == (if path == [] then r else Top(t)) && (t'.Node? <==> path != [] || r != 0)
    && (path != [] ==> p in l.child0 && p in l.child1 && (l.child0[p] == x <==> !path[|path| - 1]))
  }

  lemma PreparedMeans(l: Links, size: map<Addr, nat>, slot: Addr, t: Trie, t': Trie, path: seq<bool>, x: Addr, r: Addr)
    requires Prepared(l, size, slot, t, t', path, x, r)
    ensures var p := Above(t, path, slot);
            var l2 := Hooked(l, path, p, r);
            && (r == 0 ==> TreeIs(l2, size, slot, t'))
            && (r != 0 ==> x in l2.child0 && x in l2.child1 && TreeIs(Moved(l2, x, r, p), size, slot, t'))
            && Once(t') && Top(t') == (if path == [] then r else Top(t)) && (t'.Node? <==> path != [] || r != 0)
            && (path != [] ==> p in l.child0 && p in l.child1 && (l.child0[p] == x <==> !path[|path| - 1]))
  {
  }

  lemma PreparedIs(l: Links, l1: Links, size: map<Addr, nat>, slot: Addr, t: Trie, t': Trie, path: seq<bool>, x: Addr,
                   r: Addr)
    requires var p := Above(t, path, slot);
             var l2 := Hooked(l1, path, p, r);
             && r != 0 && x in l2.child0 && x in l2.child1 && TreeIs(Moved(l2, x, r, p), size, slot, t')
             && Once(t') && Top(t') == (if path == [] then r else Top(t)) && t'.Node?
             && (path != [] ==> SameChildren(l, l1, p))
             && (path != [] ==> p in l.child0 && (l.child0[p] == x <==> !path[|path| - 1]))
    ensures Prepared(l1, size, slot, t, t', path, x, r)
  {
    hide TreeIs, Moved, Hooked, Above, Once;
  }

  lemma PreparedNone(l: Links, size: map<Addr, nat>, slot: Addr, t: Trie, t': Trie, path: seq<bool>, x: Addr)
    requires var p := Above(t, path, slot);
             && TreeIs(Hooked(l, path, p, 0), size, slot, t')
             && Once(t') && Top(t') == (if path == [] then 0 else Top(t)) && (t'.Node? <==> path != [])
             && (path != [] ==> p in l.child0 && p in l.child1 && (l.child0[p] == x <==> !path[|path| - 1]))
    ensures Prepared(l, size, slot, t, t', path, x, 0)
  {
    hide TreeIs, Hooked, Above, Once;
  }

  /** Nothing more is to be done. */
  ghost predicate Inside(l: Links, size: map<Addr, nat>, slot: Addr, t: Trie, t': Trie) {
    TreeIs(l, size, slot, t') && Once(t') && Top(t') == Top(t) && t'.Node?
  }

  lemma InsideFrom(l: Links, size: map<Addr, nat>, slot: Addr, t: Trie, t': Trie)
    requires TreeIs(l, size, slot, t') && Once(t') && Top(t') == Top(t) && t'.Node?
    ensures Inside(l, size, slot, t, t')
  {
  }

  lemma InsideIs(l: Links, size: map<Addr, nat>, slot: Addr, t: Trie, t': Trie)
    requires Inside(l, size, slot, t, t')
    ensures TreeIs(l, size, slot, t') && Once(t') && Top(t') == Top(t) && t'.Node?
  {
  }

  ghost predicate SameChildren(l: Links, l': Links, p: Addr) {
    && p in l.child0 && p in l.child1 && p in l'.child0 && p in l'.child1
    && l'.child0[p] == l.child0[p] && l'.child1[p] == l.child1[p]
  }

  lemma AgreeChildren(l: Links, l': Links, p: Addr)
    ensures Agree(l, l', p) ==> SameChildren(l, l', p)
  {
  }

  lemma NilOnce()
    ensures Once(Nil) && Members(Nil) == multiset{}
  {
  }

  // ------------------------------------------------------------------- the object

  /** A tree bin of the allocator, at the address `slot`, with the words of the chunks in it. */
  class LinkedBin {
    var fd: map<Addr, Addr>
    var bk: map<Addr, Addr>
    var parent: map<Addr, Addr>
    var child0: map<Addr, Addr>
    var child1: map<Addr, Addr>
    /** The chunk sizes, from the head words. */
    var size: map<Addr, nat>
    /** The bin's own word, and its bit in the tree map. */
    var root: Addr
    var marked: bool
    const slot: Addr

    function View(): Links
      reads this`fd, this`bk, this`parent, this`child0, this`child1
    {
      Links(fd, bk, parent, child0, child1)
    }

    /** In memory lies the trie `t`. */
    ghost predicate Holds(t: Trie)
      reads this
    {
      TreeIs(View(), size, slot, t) && Once(t) && root == Top(t) && (marked <==> t.Node?) && slot != 0
    }

    lemma HoldsIs(t: Trie)
      ensures Holds(t) <==>
                TreeIs(View(), size, slot, t) && Once(t) && root == Top(t) && (marked <==> t.Node?) && slot != 0
    {
    }

    lemma ViewIs()
      ensures View() == Links(fd, bk, parent, child0, child1)
    {
    }

    // -------------------------------------------------------------- inserting

    /** The descent of `insert_large_chunk`: to the node of the size, or to the node that has no child there. */
    method Place(s: nat, shift: nat, ghost t: Trie, ghost b: nat, ghost hi: nat)
      returns (cur: Addr, exact: bool, right: bool)
      requires Holds(t) && t.Node? && Inv(t, b, hi) && s / Pow2(b) == hi && b <= WORD_BITS && shift == WORD_BITS - b
      ensures Arrived(t, PathTo(t, b, s), slot, s, cur, exact, right)
    {
      hide *;
      HoldsIs(t);
      ViewIs();
      cur, exact, right := root, false, false;
      var k := ShiftLeft(s, shift);
      ghost var w := Way(t, b, hi, slot, []);
      WayBegins(View(), size, t, slot, s, w);
      while true
        invariant w.u.Node? && cur == Top(w.u) && w.c <= WORD_BITS && k == ShiftLeft(s, WORD_BITS - w.c)
        invariant OnWay(View(), size, t, PathTo(t, b, s), slot, s, w)
        decreases w.u
      {
        WayWords(View(), size, t, PathTo(t, b, s), slot, s, w);
        if size[cur] == s {
          exact := true;
          WayExact(View(), size, t, PathTo(t, b, s), slot, s, w, right);
          return;
        }
        WayTurns(View(), size, t, PathTo(t, b, s), slot, s, w, k);
        right := k / Pow2(63) != 0;
        k := ShiftLeft(k, 1);
        var next := if right then child1[cur] else child0[cur];
        if next == 0 {
          WayEnds(View(), size, t, PathTo(t, b, s), slot, s, w);
          return;
        }
        w := WayNext(View(), size, t, PathTo(t, b, s), slot, s, w);
        cur := next;
      }
    }

    /** `insert_large_chunk`. */
    method Insert(x: Addr, s: nat, shift: nat, ghost t: Trie, ghost b: nat, ghost hi: nat)
      requires Holds(t) && Inv(t, b, hi) && s / Pow2(b) == hi && b <= WORD_BITS && shift == WORD_BITS - b
      requires x != 0 && x !in Members(t) && x in size && size[x] == s
      modifies this
      ensures Holds(TreeBin.Insert(t, b, s, x)) && size == old(size)
    {
      hide *;
      HoldsIs(t);
      if !marked {
        First(x);
        ViewIs();
        FirstIn(View(), size, slot, x, s, b);
      } else {
        var cur, exact, right := Place(s, shift, t, b, hi);
        if !exact {
          HungIn(View(), size, slot, t, b, s, x, cur, right);
          Hang(x, cur, right);
        } else {
          JoinedIn(View(), size, slot, t, b, s, x, cur, right);
          ViewIs();
          Join(x, cur);
        }
      }
      HoldsIs(TreeBin.Insert(t, b, s, x));
    }

    method First(x: Addr)
      modifies `fd, `bk, `parent, `child0, `child1, `root, `marked
      ensures fd == old(fd)[x := x] && bk == old(bk)[x := x] && parent == old(parent)[x := slot]
      ensures child0 == old(child0)[x := 0] && child1 == old(child1)[x := 0] && root == x && marked
    {
      child0, child1 := child0[x := 0], child1[x := 0];
      marked := true;
      root := x;
      parent := parent[x := slot];
      fd, bk := fd[x := x], bk[x := x];
    }

    method Hang(x: Addr, cur: Addr, right: bool)
      modifies `fd, `bk, `parent, `child0, `child1
      ensures View() == Hung(old(View()), cur, right, x)
    {
      child0, child1 := child0[x := 0], child1[x := 0];
      if right {
        child1 := child1[cur := x];
      } else {
        child0 := child0[cur := x];
      }
      parent := parent[x := cur];
      fd, bk := fd[x := x], bk[x := x];
    }

    method Join(x: Addr, cur: Addr)
      requires cur in fd
      modifies `fd, `bk, `parent, `child0, `child1
      ensures cur in old(View()).fd && View() == Joined(old(View()), cur, x)
    {
      child0, child1 := child0[x := 0], child1[x := 0];
      var f := fd[cur];
      fd := fd[cur := x];
      bk := bk[f := x];
      fd := fd[x := f];
      bk := bk[x := cur];
      parent := parent[x := 0];
    }

    // --------------------------------------------------------------- unlinking

    /** `x` leaves its ring; its predecessor is returned. */
    method Cut(x: Addr) returns (r: Addr)
      requires x in fd && x in bk
      modifies `fd, `bk
      ensures x in old(View()).fd && x in old(View()).bk && View() == CutOut(old(View()), x) && r == old(bk)[x]
    {
      var f := fd[x];
      r := bk[x];
      bk := bk[f := r];
      fd := fd[r := f];
    }

    /** The leaf that can stand in for `x`, cut off from the node above it; 0 if `x` has no children. */
    method TakeLeaf(x: Addr, ghost par: Addr, ghost u: Trie)
      returns (r: Addr, ghost holder: Addr, ghost right: bool)
      requires TreeIs(View(), size, par, u) && u.Node? && x == Top(u)
      modifies `child0, `child1
      ensures r == 0 ==> View() == old(View()) && u.left.Nil? && u.right.Nil?
      ensures r != 0 ==> LeafFound(par, u, holder, right, r) && View() == SlotSet(old(View()), holder, right, 0)
    {
      hide *;
      ViewIs();
      NodeWords(View(), size, par, u);
      holder, right := x, true;
      r := child1[x];
      if r == 0 {
        r := child0[x];
      }
      if r != 0 {
        var at, turn;
        r, at, turn := FindLeaf(x, par, u);
        holder, right := at, turn;
        SlotIs(View(), at, turn, 0);
        if turn {
          child1 := child1[at := 0];
        } else {
          child0 := child0[at := 0];
        }
        ViewIs();
      }
    }

    /** The loop: down to the right wherever possible, otherwise to the left. */
    method FindLeaf(x: Addr, ghost par: Addr, ghost u: Trie) returns (r: Addr, at: Addr, turn: bool)
      requires TreeIs(View(), size, par, u) && u.Node? && x == Top(u) && !(u.left.Nil? && u.right.Nil?)
      ensures r != 0 && LeafFound(par, u, at, turn, r)
    {
      hide *;
      ViewIs();
      NodeWords(View(), size, par, u);
      ghost var d := LeafWayBegins(View(), size, par, u);
      at := x;
      turn := child1[x] != 0;
      r := if turn then child1[x] else child0[x];
      LeafWayIs(View(), size, par, u, d);
      NodeWords(View(), size, d.holder, d.v);
      while child1[r] != 0 || child0[r] != 0
        invariant OnLeafWay(View(), size, par, u, d) && r == Top(d.v) && at == d.holder && turn == d.right
        invariant r != 0 && r in child0 && r in child1 && d.v.Node?
        invariant child0[r] == Top(d.v.left) && child1[r] == Top(d.v.right)
        invariant (Top(d.v.left) != 0 <==> d.v.left.Node?) && (Top(d.v.right) != 0 <==> d.v.right.Node?)
        decreases d.v
      {
        d := LeafWayNext(View(), size, par, u, d);
        at := r;
        turn := child1[r] != 0;
        r := if turn then child1[r] else child0[r];
        LeafWayIs(View(), size, par, u, d);
        NodeWords(View(), size, d.holder, d.v);
      }
      LeafWayEnds(View(), size, par, u, d);
    }

    static lemma SlotIs(l: Links, p: Addr, right: bool, to: Addr)
      ensures SlotSet(l, p, right, to) == Links(l.fd, l.bk, l.parent, if right then l.child0 else l.child0[p := to],
                                                if right then l.child1[p := to] else l.child1)
    {
    }

    /** The word that led to `x` leads to `r`: the bin's own, or a child word of the node above. */
    method Hook(x: Addr, xp: Addr, r: Addr, ghost path: seq<bool>)
      requires x == root <==> path == []
      requires path != [] ==> xp in child0 && xp in child1 && (child0[xp] == x <==> !path[|path| - 1])
      modifies `child0, `child1, `root, `marked
      ensures View() == Hooked(old(View()), path, xp, r)
      ensures root == (if path == [] then r else old(root)) && marked == (old(marked) && !(path == [] && r == 0))
    {
      hide *;
      ViewIs();
      HookedIs(View(), path, xp, r);
      if x == root {
        root := r;
        if r == 0 {
          marked := false;
        }
      } else {
        SlotIs(View(), xp, path[|path| - 1], r);
        if child0[xp] == x {
          child0 := child0[xp := r];
        } else {
          child1 := child1[xp := r];
        }
      }
      ViewIs();
    }

    /** `r` takes over the place and the children of `x`. */
    method Adopt(x: Addr, r: Addr, xp: Addr)
      requires x in child0 && x in child1
      modifies `parent, `child0, `child1
      ensures x in old(View()).child0 && x in old(View()).child1 && View() == Moved(old(View()), x, r, xp)
    {
      parent := parent[r := xp];
      var c0 := child0[x];
      if c0 != 0 {
        child0 := child0[r := c0];
        parent := parent[c0 := r];
      }
      var c1 := child1[x];
      if c1 != 0 {
        child1 := child1[r := c1];
        parent := parent[c1 := r];
      }
    }

    /** `unlink_large_chunk`. */
    method Unlink(x: Addr, ghost s: nat, ghost t: Trie, ghost b: nat, ghost hi: nat)
      requires Holds(t) && Inv(t, b, hi) && Chunk(x, s) in Chunks(t)
      modifies this
      ensures Holds(TreeBin.Unlink(t, b, s, x)) && size == old(size)
    {
      hide *;
      HoldsIs(t);
      ViewIs();
      RingOf(t, b, hi, s, x);
      ghost var path := PathTo(t, b, s);
      ghost var u, p, l := Sub(t, path), Above(t, path, slot), View();
      PathToIs(t, b, s);
      PlaceTold(l, size, slot, t, path, x);
      KnownParts(l, x);
      TopNil(u);
      NotNil(t, Chunk(x, s));
      var xp := parent[x];
      var r := Detach(x, s, t, b);
      if xp != 0 {
        PutIn(x, xp, r, t, TreeBin.Unlink(t, b, s, x), path);
      } else {
        InsideIs(View(), size, slot, t, TreeBin.Unlink(t, b, s, x));
        HoldsIs(TreeBin.Unlink(t, b, s, x));
      }
    }

    /** The first half: out of the ring, or the leaf that stands in; what is returned is to replace `x`. */
    method Detach(x: Addr, ghost s: nat, ghost t: Trie, ghost b: nat) returns (r: Addr)
      requires Holds(t)
      requires var u := Sub(t, PathTo(t, b, s)); u.Node? && u.size == s && x in u.ring
      modifies `fd, `bk, `child0, `child1
      ensures var t', path := TreeBin.Unlink(t, b, s, x), PathTo(t, b, s);
              if x == Top(Sub(t, path)) then Prepared(View(), size, slot, t, t', path, x, r)
              else Inside(View(), size, slot, t, t')
    {
      hide *;
      HoldsIs(t);
      ViewIs();
      ghost var path := PathTo(t, b, s);
      ghost var u, p, l := Sub(t, path), Above(t, path, slot), View();
      PathToIs(t, b, s);
      PlaceTold(l, size, slot, t, path, x);
      KnownParts(l, x);
      TopNil(u);
      PathFacts(l, size, slot, t, path);
      TreeParts(l, size, p, u);
      if bk[x] != x {
        RingMore(u.ring, x);
        if x == u.ring[0] {
          UnlinkFirst(l, size, slot, t, b, s, x);
          PreparedIs(l, CutOut(l, x), size, slot, t, TreeBin.Unlink(t, b, s, x), path, x, l.bk[x]);
        } else {
          UnlinkInside(l, size, slot, t, b, s, x);
          InsideFrom(CutOut(l, x), size, slot, t, TreeBin.Unlink(t, b, s, x));
        }
        r := Cut(x);
      } else {
        ghost var holder, right;
        r, holder, right := TakeLeaf(x, p, u);
        if r == 0 {
          UnlinkLeaf(l, size, slot, t, b, s, x);
          PreparedNone(l, size, slot, t, TreeBin.Unlink(t, b, s, x), path, x);
        } else {
          UnlinkInner(l, size, slot, t, b, s, x, holder, right, r);
          PreparedIs(l, SlotSet(l, holder, right, 0), size, slot, t, TreeBin.Unlink(t, b, s, x), path, x, r);
        }
      }
    }

    /** The second half: `r`, or nothing, takes the place of `x`. */
    method PutIn(x: Addr, xp: Addr, r: Addr, ghost t: Trie, ghost t': Trie, ghost path: seq<bool>)
      requires Prepared(View(), size, slot, t, t', path, x, r) && xp == Above(t, path, slot)
      requires root == Top(t) && (marked <==> t.Node?) && t.Node? && slot != 0 && (x == root <==> path == [])
      modifies `parent, `child0, `child1, `root, `marked
      ensures Holds(t')
    {
      hide *;
      ViewIs();
      PreparedMeans(View(), size, slot, t, t', path, x, r);
      Hook(x, xp, r, path);
      if r != 0 {
        ViewIs();
        Adopt(x, r, xp);
      }
      HoldsIs(t');
    }

    static lemma RingMore(ring: seq<Addr>, x: Addr)
      requires x in ring && ring != [x]
      ensures |ring| > 1
    {
      if |ring| == 1 {
        assert ring == [ring[0]];
      }
    }
  }
}
