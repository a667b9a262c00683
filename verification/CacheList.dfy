/** One bin of the thread cache: a doubly linked list threaded through the cached blocks themselves. */
module CacheList {

  type Addr = int

  /** The link words in the blocks; 0 is the null pointer. */
  datatype Links = Links(next: map<Addr, Addr>, prev: map<Addr, Addr>)

  function Nth(s: seq<Addr>, i: int): Addr {
    if 0 <= i < |s| then s[i] else 0
  }

  ghost predicate NoRepeats(s: seq<Addr>) {
    forall i, j {:trigger s[i], s[j]} :: 0 <= i < j < |s| ==> s[i] != s[j]
  }

  /** From `head` to `tail` the blocks of `s`, linked both ways. */
  ghost predicate ListIs(l: Links, head: Addr, tail: Addr, s: seq<Addr>) {
    && NoRepeats(s) && 0 !in s && head == Nth(s, 0) && tail == Nth(s, |s| - 1)
    && (forall i {:trigger s[i]} :: 0 <= i < |s| ==> s[i] in l.next && l.next[s[i]] == Nth(s, i + 1))
    && (forall i {:trigger s[i]} :: 0 <= i < |s| ==> s[i] in l.prev && l.prev[s[i]] == Nth(s, i - 1))
  }

  /** A list is not touched by changes to the links of other blocks. */
  lemma Untouched(l: Links, l': Links, head: Addr, tail: Addr, s: seq<Addr>)
    requires ListIs(l, head, tail, s)
    requires forall x :: x in s ==> x in l'.next && x in l'.prev && x in l.next && x in l.prev
                                    && l'.next[x] == l.next[x] && l'.prev[x] == l.prev[x]
    ensures ListIs(l', head, tail, s)
  {
  }

  // ------------------------------------------------------------------- push

  function Pushed(l: Links, head: Addr, x: Addr): Links {
    Links(l.next[x := head], if head != 0 then l.prev[x := 0][head := x] else l.prev[x := 0])
  }

  lemma PushFront(l: Links, head: Addr, tail: Addr, s: seq<Addr>, x: Addr)
    requires ListIs(l, head, tail, s) && x != 0 && x !in s
    ensures ListIs(Pushed(l, head, x), x, if head != 0 then tail else x, [x] + s)
  {
    var l', t := Pushed(l, head, x), [x] + s;
    forall i, j | 0 <= i < j < |t|
      ensures t[i] != t[j]
    {
      if i > 0 {
        assert s[i - 1] != s[j - 1];
      } else {
        assert s[j - 1] in s;
      }
    }
    forall i | 0 <= i < |t|
      ensures t[i] in l'.next && l'.next[t[i]] == Nth(t, i + 1)
      ensures t[i] in l'.prev && l'.prev[t[i]] == Nth(t, i - 1)
    {
      if i > 0 {
        assert t[i] == s[i - 1];
        assert i > 1 ==> s[i - 1] != s[0];
      }
    }
  }

  // --------------------------------------------------------------------- pop

  function PoppedFront(l: Links, x: Addr): Links
    requires x in l.next
  {
    if l.next[x] != 0 then Links(l.next, l.prev[l.next[x] := 0]) else l
  }

  lemma PopFront(l: Links, head: Addr, tail: Addr, s: seq<Addr>)
    requires ListIs(l, head, tail, s) && s != []
    ensures head == s[0] && head in l.next
    ensures ListIs(PoppedFront(l, head), l.next[head], if l.next[head] == 0 then 0 else tail, s[1..])
  {
    assert s[0] in l.next && l.next[s[0]] == Nth(s, 1);
    var l', t := PoppedFront(l, head), s[1..];
    forall i | 0 <= i < |t|
      ensures t[i] in l'.next && l'.next[t[i]] == Nth(t, i + 1)
      ensures t[i] in l'.prev && l'.prev[t[i]] == Nth(t, i - 1)
    {
      assert t[i] == s[i + 1] && s[i + 1] != 0;
      assert i > 0 ==> s[1] != s[i + 1];
    }
    forall i, j | 0 <= i < j < |t|
      ensures t[i] != t[j]
    {
      assert s[i + 1] != s[j + 1];
    }
  }

  function PoppedBack(l: Links, x: Addr): Links
    requires x in l.prev
  {
    if l.prev[x] != 0 then Links(l.next[l.prev[x] := 0], l.prev) else l
  }

  lemma PopBack(l: Links, head: Addr, tail: Addr, s: seq<Addr>)
    requires ListIs(l, head, tail, s) && s != []
    ensures tail == s[|s| - 1] && tail in l.prev
    ensures ListIs(PoppedBack(l, tail), if l.prev[tail] == 0 then 0 else head, l.prev[tail], s[..|s| - 1])
  {
    var n := |s| - 1;
    assert s[n] in l.prev && l.prev[s[n]] == Nth(s, n - 1);
    var l', t := PoppedBack(l, tail), s[..n];
    forall i | 0 <= i < |t|
      ensures t[i] in l'.next && l'.next[t[i]] == Nth(t, i + 1)
      ensures t[i] in l'.prev && l'.prev[t[i]] == Nth(t, i - 1)
    {
      assert t[i] == s[i] && s[i] != 0;
      assert i < n - 1 ==> s[i] != s[n - 1];
    }
    forall i, j | 0 <= i < j < |t|
      ensures t[i] != t[j]
    {
      assert s[i] != s[j];
    }
  }
}
