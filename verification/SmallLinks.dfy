/** A small bin as it lies in memory: a ring of chunks through the bin's own header, linked both ways. */
module SmallLinks {
  import opened TreeBin
  import opened BinLists

  type Words = map<Addr, Addr>

  function Next(r: seq<Addr>, i: nat): Addr
    requires i < |r|
  {
    if i + 1 < |r| then r[i + 1] else r[0]
  }

  function Prev(r: seq<Addr>, i: nat): Addr
    requires i < |r|
  {
    if i > 0 then r[i - 1] else r[|r| - 1]
  }

  ghost predicate At(fd: Words, bk: Words, r: seq<Addr>, i: nat)
    requires i < |r|
  {
    r[i] in fd && r[i] in bk && fd[r[i]] == Next(r, i) && bk[r[i]] == Prev(r, i)
  }

  /** The members of `r` are different and linked in a ring. */
  ghost predicate Ring(fd: Words, bk: Words, r: seq<Addr>) {
    && r != [] && (forall i {:trigger At(fd, bk, r, i)} :: 0 <= i < |r| ==> At(fd, bk, r, i))
    && (forall i, j {:trigger r[i], r[j]} :: 0 <= i < j < |r| ==> r[i] != r[j])
  }

  /** A member behind the first. */
  lemma PutAt(fd: Words, bk: Words, r: seq<Addr>, x: Addr, i: nat)
    requires Ring(fd, bk, r) && x !in r && i <= |r|
    ensures r[0] in fd && var f := fd[r[0]];
            At(fd[r[0] := x][x := f], bk[f := x][x := r[0]], [r[0], x] + r[1..], i)
  {
    var n, r' := |r|, [r[0], x] + r[1..];
    assert At(fd, bk, r, 0);
    var second := if n > 1 then 1 else 0;
    assert fd[r[0]] == r[second];
    if i != 1 {
      var k := if i > 1 then i - 1 else 0;
      assert At(fd, bk, r, k) && r'[i] == r[k] && r[k] in r;
      assert k > 1 ==> r[1] != r[k];
      assert k > 0 ==> r[0] != r[k];
      assert i + 1 < |r'| ==> r'[i + 1] == if i == 0 then x else r[i];
      assert i > 1 ==> r'[i - 1] == if i == 2 then x else r[i - 2];
      assert r'[|r'| - 1] == if n > 1 then r[n - 1] else x;
    } else {
      assert n > 1 ==> r'[2] == r[1];
    }
  }

  lemma Put(fd: Words, bk: Words, r: seq<Addr>, x: Addr)
    requires Ring(fd, bk, r) && x !in r
    ensures r[0] in fd && var f := fd[r[0]];
            Ring(fd[r[0] := x][x := f], bk[f := x][x := r[0]], [r[0], x] + r[1..])
  {
    hide At;
    var r' := [r[0], x] + r[1..];
    PutAt(fd, bk, r, x, 0);
    var f := fd[r[0]];
    var fd', bk' := fd[r[0] := x][x := f], bk[f := x][x := r[0]];
    forall i | 0 <= i < |r'|
      ensures At(fd', bk', r', i)
    {
      PutAt(fd, bk, r, x, i);
    }
    forall i, j | 0 <= i < j < |r'|
      ensures r'[i] != r'[j]
    {
      assert i != 1 ==> r'[i] == r[if i > 1 then i - 1 else 0];
      assert j != 1 ==> r'[j] == r[if j > 1 then j - 1 else 0];
      assert j > 1 ==> r[j - 1] in r;
      assert r[0] in r;
    }
  }

  /** Any member but the first goes. */
  lemma CutAt(fd: Words, bk: Words, r: seq<Addr>, p: nat, i: nat)
    requires Ring(fd, bk, r) && 0 < p < |r| && i < |r| - 1
    ensures r[p] in fd && r[p] in bk && var f, b := fd[r[p]], bk[r[p]];
            At(fd[b := f], bk[f := b], r[..p] + r[p + 1..], i)
  {
    var n, r' := |r|, r[..p] + r[p + 1..];
    var q := if p + 1 < n then p + 1 else 0;
    assert At(fd, bk, r, p);
    var k := if i < p then i else i + 1;
    assert At(fd, bk, r, k) && r'[i] == r[k];
    assert i + 1 < |r'| ==> r'[i + 1] == r[if i + 1 < p then i + 1 else i + 2];
    assert i > 0 ==> r'[i - 1] == r[if i - 1 < p then i - 1 else i];
    assert r'[|r'| - 1] == r[if p == n - 1 then n - 2 else n - 1];
    assert k < p - 1 ==> r[k] != r[p - 1];
    assert p - 1 < k ==> r[p - 1] != r[k];
    assert k < q ==> r[k] != r[q];
    assert q < k ==> r[q] != r[k];
  }

  lemma Cut(fd: Words, bk: Words, r: seq<Addr>, p: nat)
    requires Ring(fd, bk, r) && 0 < p < |r|
    ensures r[p] in fd && r[p] in bk && var f, b := fd[r[p]], bk[r[p]];
            && Ring(fd[b := f], bk[f := b], r[..p] + r[p + 1..]) && (f == b <==> |r| == 2)
  {
    hide At;
    var r' := r[..p] + r[p + 1..];
    CutAt(fd, bk, r, p, 0);
    Ends(fd, bk, r, p);
    var f, b := fd[r[p]], bk[r[p]];
    var fd', bk' := fd[b := f], bk[f := b];
    forall i | 0 <= i < |r'|
      ensures At(fd', bk', r', i)
    {
      CutAt(fd, bk, r, p, i);
    }
    forall i, j | 0 <= i < j < |r'|
      ensures r'[i] != r'[j]
    {
      assert r'[i] == r[if i < p then i else i + 1] && r'[j] == r[if j < p then j else j + 1];
    }
  }

  lemma Ends(fd: Words, bk: Words, r: seq<Addr>, p: nat)
    requires Ring(fd, bk, r) && 0 < p < |r|
    ensures r[p] in fd && r[p] in bk && (fd[r[p]] == bk[r[p]] <==> |r| == 2)
  {
    assert At(fd, bk, r, p);
    assert p + 1 < |r| ==> r[p - 1] != r[p + 1];
    assert p > 1 ==> r[0] != r[p - 1];
  }

  lemma {:induction false} WithoutAt(list: seq<Addr>, x: Addr, p: nat)
    requires p < |list| && list[p] == x && forall i, j :: 0 <= i < j < |list| ==> list[i] != list[j]
    ensures Without(list, x) == list[..p] + list[p + 1..]
  {
    if p > 0 {
      assert list[0] != list[p];
      WithoutAt(list[1..], x, p - 1);
      assert list[..p] + list[p + 1..] == [list[0]] + (list[1..][..p - 1] + list[1..][p..]);
    }
  }

  // ------------------------------------------------------------------- the object

  class LinkedBin {
    var fd: Words
    var bk: Words
    /** The bin's bit in the map of small bins. */
    var marked: bool
    const header: Addr

    /** The ring goes through the header and the chunks of `list`; an unmarked bin is not looked at. */
    ghost predicate Holds(list: seq<Addr>)
      reads this
    {
      marked ==> list != [] && Ring(fd, bk, [header] + list)
    }

    lemma HoldsIs(list: seq<Addr>)
      ensures Holds(list) <==> (marked ==> list != [] && Ring(fd, bk, [header] + list))
    {
    }

    /** `insert_small_chunk`. */
    method Insert(p: Addr, ghost list: seq<Addr>)
      requires Holds(list) && p != header && (marked ==> p !in list)
      modifies this
      ensures marked && Holds(if old(marked) then [p] + list else [p])
    {
      hide *;
      HoldsIs(list);
      var b, f := header, header;
      if !marked {
        marked := true;
        Two(fd, bk, header, p);
      } else {
        Put(fd, bk, [header] + list, p);
        assert ([header] + list)[1..] == list;
        assert [header, p] + list == [header] + ([p] + list);
        f := fd[b];
      }
      fd := fd[b := p];
      bk := bk[f := p];
      fd := fd[p := f];
      bk := bk[p := b];
      HoldsIs(if old(marked) then [p] + list else [p]);
    }

    static lemma Two(fd: Words, bk: Words, h: Addr, p: Addr)
      requires p != h
      ensures Ring(fd[h := p][p := h], bk[h := p][p := h], [h] + [p])
    {
      var r, fd', bk' := [h] + [p], fd[h := p][p := h], bk[h := p][p := h];
      forall i | 0 <= i < |r|
        ensures At(fd', bk', r, i)
      {
        assert i == 0 || i == 1;
      }
    }

    /** `unlink_small_chunk`: the last chunk of a bin takes only the mark away. */
    method Unlink(p: Addr, ghost list: seq<Addr>)
      requires Holds(list) && marked && p in list
      modifies this
      ensures Holds(Without(list, p)) && (marked <==> |list| > 1)
    {
      hide *;
      HoldsIs(list);
      ghost var k := Find(fd, bk, header, list, p);
      Cut(fd, bk, [header] + list, k + 1);
      RestIs(list, header, p, k);
      var f, b := fd[p], bk[p];
      if f == b {
        marked := false;
      } else {
        bk := bk[f := b];
        fd := fd[b := f];
      }
      HoldsIs(Without(list, p));
    }

    static lemma Find(fd: Words, bk: Words, h: Addr, list: seq<Addr>, p: Addr) returns (k: nat)
      requires Ring(fd, bk, [h] + list) && p in list
      ensures k < |list| && list[k] == p && ([h] + list)[k + 1] == p && |[h] + list| == |list| + 1
      ensures Without(list, p) == list[..k] + list[k + 1..] && (|list| == 1 <==> Without(list, p) == [])
    {
      k :| 0 <= k < |list| && list[k] == p;
      forall i, j | 0 <= i < j < |list|
        ensures list[i] != list[j]
      {
        assert ([h] + list)[i + 1] != ([h] + list)[j + 1];
      }
      WithoutAt(list, p, k);
    }

    static lemma RestIs(list: seq<Addr>, h: Addr, p: Addr, k: nat)
      requires k < |list|
      ensures ([h] + list)[..k + 1] + ([h] + list)[k + 2..] == [h] + (list[..k] + list[k + 1..])
    {
    }

    /** `unlink_first_small_chunk`. */
    method UnlinkFirst(ghost list: seq<Addr>) returns (p: Addr)
      requires Holds(list) && marked
      modifies this
      ensures list != [] && p == list[0] && Holds(list[1..]) && (marked <==> |list| > 1)
    {
      hide *;
      HoldsIs(list);
      FirstIs(fd, bk, header, list);
      Cut(fd, bk, [header] + list, 1);
      RestIs(list, header, list[0], 0);
      assert list[..0] + list[1..] == list[1..];
      p := fd[header];
      var f := fd[p];
      if header == f {
        marked := false;
      } else {
        fd := fd[header := f];
        bk := bk[f := header];
      }
      HoldsIs(list[1..]);
    }

    static lemma FirstIs(fd: Words, bk: Words, h: Addr, list: seq<Addr>)
      requires Ring(fd, bk, [h] + list) && list != []
      ensures h in fd && fd[h] == list[0] && list[0] in bk && bk[list[0]] == h && ([h] + list)[1] == list[0]
      ensures |[h] + list| == |list| + 1
    {
      var r := [h] + list;
      assert At(fd, bk, r, 0) && At(fd, bk, r, 1);
    }
  }
}
