/**
 * The loops over slot arrays. A slot array is a sequence of fixed length of which the first `use` slots are in use;
 * each loop overwrites one slot at a time and leaves the length as it is.
 */
module BTreeSlots {
  import opened Sorted

  /** Binary search for the first slot in use whose key is not less than `key`. */
  method FindLower(keys: seq<Key>, use: nat, key: Key) returns (r: nat)
    requires use <= |keys| && SortedKeys(keys[..use])
    ensures r == Lower(keys[..use], key)
  {
    if use == 0 {
      return 0;
    }
    var lo, hi := 0, use - 1;
    while lo < hi
      invariant 0 <= lo <= hi + 1 <= use
      invariant lo > 0 ==> keys[lo - 1] < key
      invariant hi + 1 < use ==> key <= keys[hi + 1]
    {
      var mid := (lo + hi) / 2;
      if key <= keys[mid] {
        hi := mid - 1;
      } else {
        lo := mid + 1;
      }
    }
    if hi < 0 || keys[hi] < key {
      hi := hi + 1;
    }
    LowerUnique(keys[..use], key, hi);
    return hi;
  }

  /** Binary search for the first slot in use whose key is greater than `key`. */
  method FindUpper(keys: seq<Key>, use: nat, key: Key) returns (r: nat)
    requires use <= |keys| && SortedKeys(keys[..use])
    ensures r == Upper(keys[..use], key)
  {
    if use == 0 {
      return 0;
    }
    var lo, hi := 0, use - 1;
    while lo < hi
      invariant 0 <= lo <= hi + 1 <= use
      invariant lo > 0 ==> keys[lo - 1] <= key
      invariant hi + 1 < use ==> key < keys[hi + 1]
    {
      var mid := (lo + hi) / 2;
      if key < keys[mid] {
        hi := mid - 1;
      } else {
        lo := mid + 1;
      }
    }
    if hi < 0 || keys[hi] <= key {
      hi := hi + 1;
    }
    UpperUnique(keys[..use], key, hi);
    return hi;
  }

  lemma Inserted<T>(now: seq<T>, was: seq<T>, r: nat, x: T)
    requires |now| == |was| + 1 && r <= |was| && now[r] == x
    requires forall j :: 0 <= j < r ==> now[j] == was[j]
    requires forall j :: r <= j < |was| ==> now[j + 1] == was[j]
    ensures now == InsertAt(was, r, x)
  {
    assert now[r + 1..] == was[r..];
  }

  lemma Removed<T>(now: seq<T>, was: seq<T>, r: nat)
    requires |now| + 1 == |was| && r < |was|
    requires forall j :: 0 <= j < r ==> now[j] == was[j]
    requires forall j :: r < j < |was| ==> now[j - 1] == was[j]
    ensures now == RemoveAt(was, r)
  {
    assert forall j {:trigger now[j]} :: r <= j < |now| ==> now[j] == was[j + 1];
  }

  /** Puts a pair behind all pairs in use whose key is not greater. */
  method PutPair<T>(keys0: seq<Key>, data0: seq<T>, use: nat, key: Key, value: T)
    returns (keys: seq<Key>, data: seq<T>, r: nat)
    requires use < |keys0| == |data0| && SortedKeys(keys0[..use])
    ensures |keys| == |data| == |keys0|
    ensures r == Upper(keys0[..use], key)
    ensures keys[..use + 1] == InsertAt(keys0[..use], r, key) && data[..use + 1] == InsertAt(data0[..use], r, value)
  {
    keys, data := keys0, data0;
    var i := use - 1;
    while i >= 0 && key < keys[i]
      invariant -1 <= i < use && |keys| == |data| == |keys0|
      invariant forall j :: 0 <= j <= i ==> keys[j] == keys0[j] && data[j] == data0[j]
      invariant forall j :: i < j < use ==> keys[j + 1] == keys0[j] && data[j + 1] == data0[j]
      invariant i + 1 < use ==> key < keys0[i + 1]
    {
      keys := keys[i + 1 := keys[i]];
      data := data[i + 1 := data[i]];
      i := i - 1;
    }
    r := i + 1;
    UpperUnique(keys0[..use], key, r);
    keys := keys[r := key];
    data := data[r := value];
    Inserted(keys[..use + 1], keys0[..use], r, key);
    Inserted(data[..use + 1], data0[..use], r, value);
  }

  /** Closes the gap that the pair at `slot` leaves. */
  method RemovePair<T>(keys0: seq<Key>, data0: seq<T>, use: nat, slot: nat) returns (keys: seq<Key>, data: seq<T>)
    requires slot < use <= |keys0| == |data0|
    ensures |keys| == |data| == |keys0|
    ensures keys[..use - 1] == RemoveAt(keys0[..use], slot) && data[..use - 1] == RemoveAt(data0[..use], slot)
  {
    keys, data := keys0, data0;
    var i := slot;
    while i < use - 1
      invariant slot <= i <= use - 1 && |keys| == |data| == |keys0|
      invariant forall j :: 0 <= j < slot ==> keys[j] == keys0[j] && data[j] == data0[j]
      invariant forall j :: slot < j <= i ==> keys[j - 1] == keys0[j] && data[j - 1] == data0[j]
      invariant forall j :: i <= j < use ==> keys[j] == keys0[j] && data[j] == data0[j]
    {
      keys := keys[i := keys[i + 1]];
      data := data[i := data[i + 1]];
      i := i + 1;
    }
    Removed(keys[..use - 1], keys0[..use], slot);
    Removed(data[..use - 1], data0[..use], slot);
  }

  // What a slot array looks like after `i` slots were copied or moved, and one step further.

  lemma CopyStep<T>(s: seq<T>, at: nat, src: seq<T>, from: nat, i: nat)
    requires at + i < |s| && from + i < |src|
    ensures (s[..at] + src[from..from + i] + s[at + i..])[at + i := src[from + i]]
         == s[..at] + src[from..from + i + 1] + s[at + i + 1..]
  {
  }

  lemma MoveDownStep<T>(s: seq<T>, n: nat, i: nat)
    requires n + i < |s|
    ensures var now := s[n..n + i] + s[i..];
            now[i := now[i + n]] == s[n..n + i + 1] + s[i + 1..]
  {
  }

  lemma MoveUpStep<T>(s: seq<T>, n: nat, count: nat, i: nat)
    requires n + count <= |s| && i < count
    ensures var now := s[..n + i + 1] + s[i + 1..count] + s[n + count..];
            now[i + n := now[i]] == s[..n + i] + s[i..count] + s[n + count..]
  {
  }

  /** Copies `n` slots from slot `from` of one node to slot `at` of another. */
  method CopySlots<T>(keys0: seq<Key>, data0: seq<T>, at: nat, sk: seq<Key>, sd: seq<T>, from: nat, n: nat)
    returns (keys: seq<Key>, data: seq<T>)
    requires at + n <= |keys0| && at + n <= |data0| && from + n <= |sk| && from + n <= |sd|
    ensures keys == keys0[..at] + sk[from..from + n] + keys0[at + n..]
    ensures data == data0[..at] + sd[from..from + n] + data0[at + n..]
  {
    keys, data := keys0, data0;
    var i := 0;
    while i < n
      invariant 0 <= i <= n
      invariant keys == keys0[..at] + sk[from..from + i] + keys0[at + i..]
      invariant data == data0[..at] + sd[from..from + i] + data0[at + i..]
    {
      CopyStep(keys0, at, sk, from, i);
      CopyStep(data0, at, sd, from, i);
      keys := keys[at + i := sk[from + i]];
      data := data[at + i := sd[from + i]];
      i := i + 1;
    }
  }

  /** Moves the slots from `n` on down over the first ones; `count` slots are moved. */
  method MoveDown<T>(keys0: seq<Key>, data0: seq<T>, n: nat, count: nat) returns (keys: seq<Key>, data: seq<T>)
    requires n + count <= |keys0| && n + count <= |data0|
    ensures keys == keys0[n..n + count] + keys0[count..] && data == data0[n..n + count] + data0[count..]
  {
    keys, data := keys0, data0;
    var i := 0;
    while i < count
      invariant 0 <= i <= count
      invariant keys == keys0[n..n + i] + keys0[i..] && data == data0[n..n + i] + data0[i..]
    {
      MoveDownStep(keys0, n, i);
      MoveDownStep(data0, n, i);
      keys := keys[i := keys[i + n]];
      data := data[i := data[i + n]];
      i := i + 1;
    }
  }

  /** Moves the first `count` slots up by `n`. */
  method MoveUp<T>(keys0: seq<Key>, data0: seq<T>, n: nat, count: nat) returns (keys: seq<Key>, data: seq<T>)
    requires n + count <= |keys0| && n + count <= |data0|
    ensures keys == keys0[..n] + keys0[..count] + keys0[n + count..]
    ensures data == data0[..n] + data0[..count] + data0[n + count..]
  {
    keys, data := keys0, data0;
    var i := count - 1;
    ghost var k: nat := count;
    while i >= 0
      invariant i == k - 1 && k <= count
      invariant keys == keys0[..n + k] + keys0[k..count] + keys0[n + count..]
      invariant data == data0[..n + k] + data0[k..count] + data0[n + count..]
    {
      MoveUpStep(keys0, n, count, i);
      MoveUpStep(data0, n, count, i);
      keys := keys[i + n := keys[i]];
      data := data[i + n := data[i]];
      i, k := i - 1, k - 1;
    }
    assert keys0[0..count] == keys0[..count] && data0[0..count] == data0[..count];
  }

  /** Makes room at `slot` for a separator and the child to its right. */
  method PutChild<T>(keys0: seq<Key>, kids0: seq<T>, use: nat, slot: nat, key: Key, kid: T)
    returns (keys: seq<Key>, kids: seq<T>)
    requires slot <= use < |keys0| && use + 1 < |kids0|
    ensures |keys| == |keys0| && |kids| == |kids0|
    ensures keys[..use + 1] == InsertAt(keys0[..use], slot, key)
    ensures kids[..use + 2] == InsertAt(kids0[..use + 1], slot + 1, kid)
  {
    keys, kids := keys0, kids0;
    var i := use;
    while i > slot
      invariant slot <= i <= use && |keys| == |keys0| && |kids| == |kids0|
      invariant forall j :: 0 <= j < i ==> keys[j] == keys0[j]
      invariant forall j :: 0 <= j <= i ==> kids[j] == kids0[j]
      invariant forall j :: i <= j < use ==> keys[j + 1] == keys0[j]
      invariant forall j :: i < j <= use ==> kids[j + 1] == kids0[j]
    {
      keys := keys[i := keys[i - 1]];
      kids := kids[i + 1 := kids[i]];
      i := i - 1;
    }
    keys := keys[slot := key];
    kids := kids[slot + 1 := kid];
    Inserted(keys[..use + 1], keys0[..use], slot, key);
    Inserted(kids[..use + 2], kids0[..use + 1], slot + 1, kid);
  }

  /** Closes the gap that child `slot` and the separator left of it leave. */
  method DropChild<T>(keys0: seq<Key>, kids0: seq<T>, use: nat, slot: nat) returns (keys: seq<Key>, kids: seq<T>)
    requires 0 < slot <= use <= |keys0| && use < |kids0|
    ensures |keys| == |keys0| && |kids| == |kids0|
    ensures keys[..use - 1] == RemoveAt(keys0[..use], slot - 1) && kids[..use] == RemoveAt(kids0[..use + 1], slot)
  {
    keys, kids := keys0, kids0;
    var i := slot;
    while i < use
      invariant slot <= i <= use && |keys| == |keys0| && |kids| == |kids0|
      invariant forall j :: 0 <= j < slot - 1 ==> keys[j] == keys0[j]
      invariant forall j :: slot <= j < i ==> keys[j - 1] == keys0[j]
      invariant forall j :: i <= j < use ==> keys[j] == keys0[j]
      invariant forall j :: 0 <= j < slot ==> kids[j] == kids0[j]
      invariant forall j :: slot < j <= i ==> kids[j - 1] == kids0[j]
      invariant forall j :: i <= j <= use ==> kids[j] == kids0[j]
    {
      keys := keys[i - 1 := keys[i]];
      kids := kids[i := kids[i + 1]];
      i := i + 1;
    }
    Removed(keys[..use - 1], keys0[..use], slot - 1);
    Removed(kids[..use], kids0[..use + 1], slot);
  }

  /** Raised by `n` slots and then filled up in front from the end of `left`. */
  lemma TakenInFront<T>(s: seq<T>, left: seq<T>, use: nat, n: nat, m: nat, count: nat)
    requires use <= count && n + count <= |s| && m + n <= |left|
    ensures var up := s[..n] + s[..count] + s[n + count..];
            (up[..0] + left[m..m + n] + up[n..])[..use + n] == left[..m + n][m..] + s[..use]
  {
  }

  /** Moves the pairs up, with the slot behind them, and copies the last `n` pairs of the left leaf in front. */
  method PutInFront<T>(keys0: seq<Key>, data0: seq<T>, use: nat, lk: seq<Key>, ld: seq<T>, luse: nat, n: nat)
    returns (keys: seq<Key>, data: seq<T>)
    requires use + n < |keys0| == |data0| && n <= luse <= |lk| == |ld|
    ensures |keys| == |data| == |keys0|
    ensures keys[..use + n] == lk[..luse][luse - n..] + keys0[..use]
            && data[..use + n] == ld[..luse][luse - n..] + data0[..use]
  {
    TakenInFront(keys0, lk, use, n, luse - n, use + 1);
    TakenInFront(data0, ld, use, n, luse - n, use + 1);
    keys, data := MoveUp(keys0, data0, n, use + 1);
    keys, data := CopySlots(keys, data, 0, lk, ld, luse - n, n);
  }

  lemma KeysInFront(s: seq<Key>, left: seq<Key>, use: nat, n: nat, m: nat, sep: Key)
    requires 0 < n && use + n <= |s| && m + n <= |left|
    ensures var up := (s[..n] + s[..use] + s[n + use..])[n - 1 := sep];
            (up[..0] + left[m + 1..m + n] + up[n - 1..])[..use + n] == left[..m + n][m + 1..] + [sep] + s[..use]
  {
  }

  lemma KidsInFront<T>(s: seq<T>, left: seq<T>, use: nat, n: nat, m: nat)
    requires 0 < n && use + n < |s| && m + n < |left|
    ensures var s1 := s[use + n := s[use]];
            var up := (s1[..n] + s1[..use] + s1[n + use..])[n - 1 := left[m + n]];
            (up[..0] + left[m + 1..m + n] + up[n - 1..])[..use + n + 1] == left[..m + n + 1][m + 1..] + s[..use + 1]
  {
  }

  /** Moves the children up and copies the last `n` children of the left node in front, with `sep` between. */
  method PutKidsInFront<T>(keys0: seq<Key>, kids0: seq<T>, use: nat, lk: seq<Key>, lc: seq<T>, luse: nat, sep: Key,
                           n: nat)
    returns (keys: seq<Key>, kids: seq<T>)
    requires 0 < n <= luse <= |lk| && luse < |lc| && use + n <= |keys0| && use + n < |kids0|
    ensures |keys| == |keys0| && |kids| == |kids0|
    ensures keys[..use + n] == lk[..luse][luse - n + 1..] + [sep] + keys0[..use]
    ensures kids[..use + n + 1] == lc[..luse + 1][luse - n + 1..] + kids0[..use + 1]
  {
    KeysInFront(keys0, lk, use, n, luse - n, sep);
    KidsInFront(kids0, lc, use, n, luse - n);
    kids := kids0[use + n := kids0[use]];
    keys, kids := MoveUp(keys0, kids, n, use);
    keys := keys[n - 1 := sep];
    kids := kids[n - 1 := lc[luse]];
    keys, kids := CopySlots(keys, kids, 0, lk, lc, luse - n + 1, n - 1);
  }

  // ------------------------------------------------ slots in use after a copy

  lemma SetThenCopy<T>(s: seq<T>, use: nat, x: T, t: seq<T>, n: nat)
    requires use + 1 + n <= |s| && n <= |t|
    ensures var r := s[use := x];
            (r[..use + 1] + t[0..0 + n] + r[use + 1 + n..])[..use + 1 + n] == s[..use] + [x] + t[..n]
  {
  }

  lemma CopyThenSet<T>(s: seq<T>, use: nat, t: seq<T>, n: nat)
    requires use + n < |s| && n < |t|
    ensures var r := s[..use] + t[0..0 + n] + s[use + n..];
            |r| == |s| && r[use + n := t[n]][..use + n + 1] == s[..use] + t[..n + 1]
  {
    var r := (s[..use] + t[0..0 + n] + s[use + n..])[use + n := t[n]];
    assert r[..use + n] == s[..use] + t[..n];
    assert r[use + n] == t[n];
    assert t[..n + 1] == t[..n] + [t[n]];
  }

  lemma CopyBehind<T>(s: seq<T>, t: seq<T>, from: nat, n: nat)
    requires n < |s| && from + n < |t|
    ensures var r := s[..0] + t[from..from + n] + s[0 + n..];
            |r| == |s| && r[n := t[from + n]][..n + 1] == t[from..from + n + 1]
  {
    var r := (s[..0] + t[from..from + n] + s[0 + n..])[n := t[from + n]];
    assert r[..n] == t[from..from + n] && r[n] == t[from + n];
  }

  lemma SliceOfPrefix<T>(s: seq<T>, use: nat, from: nat, to: nat)
    requires from <= to <= use <= |s|
    ensures s[..use][from..to] == s[from..to] && s[..use][from..] == s[from..use] && s[..use][..to] == s[..to]
  {
  }

  /** Behind the slots in use: a separator, and the first `n` keys and `n + 1` children of another node. */
  method AppendKids<T>(keys0: seq<Key>, kids0: seq<T>, use: nat, rk: seq<Key>, rc: seq<T>, sep: Key, n: nat)
    returns (keys: seq<Key>, kids: seq<T>)
    requires use + 1 + n <= |keys0| && use + 1 + n < |kids0| && n <= |rk| && n < |rc|
    ensures |keys| == |keys0| && |kids| == |kids0|
    ensures keys[..use + 1 + n] == keys0[..use] + [sep] + rk[..n]
    ensures kids[..use + n + 2] == kids0[..use + 1] + rc[..n + 1]
  {
    SetThenCopy(keys0, use, sep, rk, n);
    CopyThenSet(kids0, use + 1, rc, n);
    keys := keys0[use := sep];
    keys, kids := CopySlots(keys, kids0, use + 1, rk, rc, 0, n);
    kids := kids[use + 1 + n := rc[n]];
  }

  /** The slots in use without the first `n` keys and children. */
  method DropFront<T>(keys0: seq<Key>, kids0: seq<T>, use: nat, n: nat) returns (keys: seq<Key>, kids: seq<T>)
    requires n <= use <= |keys0| && use < |kids0|
    ensures |keys| == |keys0| && |kids| == |kids0|
    ensures keys[..use - n] == keys0[n..use] && kids[..use - n + 1] == kids0[n..use + 1]
  {
    keys, kids := MoveDown(keys0, kids0, n, use - n);
    kids := kids[use - n := kids[use]];
    assert kids[..use - n] == kids0[n..use] && kids[use - n] == kids0[use];
  }

  /** The keys and children of another node from slot `from` on, to the first slots. */
  method CopyTail<T>(keys0: seq<Key>, kids0: seq<T>, sk: seq<Key>, sc: seq<T>, use: nat, from: nat)
    returns (keys: seq<Key>, kids: seq<T>)
    requires from <= use <= |sk| && use < |sc| && use - from <= |keys0| && use - from < |kids0|
    ensures |keys| == |keys0| && |kids| == |kids0|
    ensures keys[..use - from] == sk[from..use] && kids[..use - from + 1] == sc[from..use + 1]
  {
    CopyBehind(kids0, sc, from, use - from);
    keys, kids := CopySlots(keys0, kids0, 0, sk, sc, from, use - from);
    kids := kids[use - from := sc[use]];
  }
}
