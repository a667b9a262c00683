/** The matcher of many keys at once: a trie of characters, and the list of matches that are still alive. */
module StringMatcher {
  import opened Options

  /** A character code, compared as unsigned. */
  type Char = int

  /** A node of the trie holds its children itself, in one array ordered by character. */
  datatype CharNode = CharNode(ch: Char, flag: bool, kids: seq<CharNode>)

  // ------------------------------------------------------------------ the trie

  ghost predicate SortedKids(kids: seq<CharNode>) {
    forall i, j {:trigger kids[i], kids[j]} :: 0 <= i < j < |kids| ==> kids[i].ch < kids[j].ch
  }

  ghost predicate WellFormed(n: CharNode) {
    SortedKids(n.kids) && forall i {:trigger n.kids[i]} :: 0 <= i < |n.kids| ==> WellFormed(n.kids[i])
  }

  /** The number of children with a smaller character. */
  ghost predicate IsSlot(kids: seq<CharNode>, ch: Char, slot: nat) {
    && slot <= |kids|
    && (forall i {:trigger kids[i]} :: 0 <= i < slot ==> kids[i].ch < ch)
    && (forall i {:trigger kids[i]} :: slot <= i < |kids| ==> ch <= kids[i].ch)
  }

  function Slot(kids: seq<CharNode>, ch: Char): (s: nat)
    ensures s <= |kids|
  {
    if kids == [] || ch <= kids[0].ch then 0 else 1 + Slot(kids[1..], ch)
  }

  lemma {:induction false} SlotIs(kids: seq<CharNode>, ch: Char)
    requires SortedKids(kids)
    ensures IsSlot(kids, ch, Slot(kids, ch))
  {
    if kids != [] && kids[0].ch < ch {
      var rest := kids[1..];
      assert forall i {:trigger rest[i]} :: 0 <= i < |rest| ==> rest[i] == kids[i + 1];
      SlotIs(rest, ch);
      forall i | 0 <= i < |kids|
        ensures i < 1 + Slot(rest, ch) ==> kids[i].ch < ch
        ensures 1 + Slot(rest, ch) <= i ==> ch <= kids[i].ch
      {
        if i > 0 {
          assert kids[i] == rest[i - 1];
        }
      }
    }
  }

  lemma OneSlot(kids: seq<CharNode>, ch: Char, i: nat, j: nat)
    requires IsSlot(kids, ch, i) && IsSlot(kids, ch, j)
    ensures i == j
  {
    if i < |kids| {
      var x := kids[i];
    }
    if j < |kids| {
      var y := kids[j];
    }
  }

  predicate Found(kids: seq<CharNode>, ch: Char) {
    var s := Slot(kids, ch);
    s < |kids| && kids[s].ch == ch
  }

  function Find(n: CharNode, ch: Char): Option<CharNode> {
    if Found(n.kids, ch) then Some(n.kids[Slot(n.kids, ch)]) else None
  }

  /** `find_`: binary search; `insert` is where the character belongs if it is not there. */
  method FindSlot(kids: seq<CharNode>, ch: Char) returns (found: bool, insert: nat)
    requires SortedKids(kids)
    ensures insert == Slot(kids, ch) && found == Found(kids, ch)
  {
    SlotIs(kids, ch);
    ghost var s := Slot(kids, ch);
    var low, high := 0, |kids| - 1;
    while low <= high
      invariant 0 <= low <= s <= high + 1 <= |kids|
      invariant forall i {:trigger kids[i]} :: high < i < |kids| ==> ch < kids[i].ch
    {
      var mid := (low + high) / 2;
      if ch == kids[mid].ch {
        FindIs(CharNode(0, false, kids), ch, mid);
        return true, mid;
      } else if ch < kids[mid].ch {
        high := mid - 1;
      } else {
        low := mid + 1;
      }
    }
    return false, low;
  }

  /** The node that a word leads to. */
  function Walk(n: CharNode, w: seq<Char>): Option<CharNode> {
    if w == [] then Some(n)
    else
      match Find(n, w[0])
      case None => None
      case Some(kid) => Walk(kid, w[1..])
  }

  /** The keys in a trie. */
  predicate HasKey(n: CharNode, w: seq<Char>) {
    var p := Walk(n, w);
    p.Some? && p.value.flag
  }

  /** `set`: the child for a character, made if it is not there. */
  function WithKid(kids: seq<CharNode>, ch: Char): seq<CharNode> {
    var s := Slot(kids, ch);
    if Found(kids, ch) then kids else kids[..s] + [CharNode(ch, false, [])] + kids[s..]
  }

  lemma WithKidAt(kids: seq<CharNode>, ch: Char, j: nat)
    requires j < |WithKid(kids, ch)|
    ensures |WithKid(kids, ch)| == if Found(kids, ch) then |kids| else |kids| + 1
    ensures var s := Slot(kids, ch);
            if Found(kids, ch) || j < s then j < |kids| && WithKid(kids, ch)[j] == kids[j]
            else if j == s then WithKid(kids, ch)[j] == CharNode(ch, false, [])
            else j - 1 < |kids| && WithKid(kids, ch)[j] == kids[j - 1]
  {
  }

  function WithKey(n: CharNode, key: seq<Char>): CharNode
    decreases |key|
  {
    if key == [] then n.(flag := true)
    else
      var kids, s := WithKid(n.kids, key[0]), Slot(n.kids, key[0]);
      n.(kids := if s < |kids| then kids[s := WithKey(kids[s], key[1..])] else kids)
  }

  /** A child for every character, still sorted; the others stay where they are found. */
  lemma WithKidFacts(kids: seq<CharNode>, ch: Char)
    requires SortedKids(kids)
    ensures var kids', s := WithKid(kids, ch), Slot(kids, ch);
            && s < |kids'| && SortedKids(kids') && kids'[s].ch == ch
            && (if Found(kids, ch) then kids' == kids else kids'[s] == CharNode(ch, false, []))
  {
    hide WithKid, Found, Slot, WithKey;
    SlotIs(kids, ch);
    WithKidSize(kids, ch);
    var kids', s := WithKid(kids, ch), Slot(kids, ch);
    WithKidAt(kids, ch, s);
    if !Found(kids, ch) {
      forall i, j | 0 <= i < j < |kids'|
        ensures kids'[i].ch < kids'[j].ch
      {
        WithKidAt(kids, ch, i);
        WithKidAt(kids, ch, j);
        if j > s {
          NotFound(kids, ch, j - 1);
        }
      }
    } else {
      FoundAt(kids, ch);
    }
  }

  lemma WithKidSize(kids: seq<CharNode>, ch: Char)
    ensures Slot(kids, ch) < |WithKid(kids, ch)| && (Found(kids, ch) ==> WithKid(kids, ch) == kids)
  {
  }

  /** Finding a character is finding the one child that has it. */
  lemma FindIs(n: CharNode, ch: Char, i: nat)
    requires SortedKids(n.kids) && i < |n.kids| && n.kids[i].ch == ch
    ensures Find(n, ch) == Some(n.kids[i]) && Slot(n.kids, ch) == i
  {
    SlotIs(n.kids, ch);
    assert IsSlot(n.kids, ch, i);
    OneSlot(n.kids, ch, i, Slot(n.kids, ch));
  }

  lemma FindNone(n: CharNode, ch: Char)
    requires forall i {:trigger n.kids[i]} :: 0 <= i < |n.kids| ==> n.kids[i].ch != ch
    ensures Find(n, ch) == None
  {
  }

  /** The children after the insertion of a key. */
  lemma InsertKids(n: CharNode, key: seq<Char>, ch: Char)
    requires SortedKids(n.kids) && key != []
    ensures var n' := WithKey(n, key);
            var kid := if Find(n, key[0]).Some? then Find(n, key[0]).value else CharNode(key[0], false, []);
            && SortedKids(n'.kids) && n'.ch == n.ch && n'.flag == n.flag
            && Find(n', ch) == if ch == key[0] then Some(WithKey(kid, key[1..])) else Find(n, ch)
  {
    WithKidFacts(n.kids, key[0]);
    var n', s := WithKey(n, key), Slot(n.kids, key[0]);
    var kids := WithKid(n.kids, key[0]);
    InsertKeepsChar(kids[s], key[1..]);
    assert n'.kids == kids[s := WithKey(kids[s], key[1..])];
    if ch == key[0] {
      FindIs(n', ch, s);
    } else {
      OtherKid(n, key[0], ch, n', s);
    }
  }

  lemma InsertKeepsChar(n: CharNode, key: seq<Char>)
    ensures WithKey(n, key).ch == n.ch
  {
  }

  lemma OtherKid(n: CharNode, c: Char, ch: Char, n': CharNode, s: nat)
    requires SortedKids(n.kids) && ch != c && s == Slot(n.kids, c) && s < |WithKid(n.kids, c)|
    requires |n'.kids| == |WithKid(n.kids, c)| && SortedKids(n'.kids) && n'.kids[s].ch == c
    requires forall i {:trigger n'.kids[i]} :: 0 <= i < |n'.kids| && i != s ==> n'.kids[i] == WithKid(n.kids, c)[i]
    ensures Find(n', ch) == Find(n, ch)
  {
    hide Found, Slot, SortedKids, WithKid, WithKey;
    WithKidFacts(n.kids, c);
    WithKidAt(n.kids, c, s);
    var i := Slot(n.kids, ch);
    if Found(n.kids, ch) {
      FoundAt(n.kids, ch);
      var j := if Found(n.kids, c) || i < s then i else i + 1;
      WithKidAt(n.kids, c, j);
      NotThere(n.kids, c, ch);
      FindIs(n', ch, j);
    } else {
      forall j | 0 <= j < |n'.kids|
        ensures n'.kids[j].ch != ch
      {
        if j != s {
          WithKidAt(n.kids, c, j);
          NotFound(n.kids, ch, if Found(n.kids, c) || j < s then j else j - 1);
        }
      }
      FindNone(n', ch);
    }
  }

  lemma FoundAt(kids: seq<CharNode>, ch: Char)
    requires Found(kids, ch)
    ensures Slot(kids, ch) < |kids| && kids[Slot(kids, ch)].ch == ch
  {
  }

  /** Where one character is found, another is not. */
  lemma NotThere(kids: seq<CharNode>, c: Char, ch: Char)
    requires Found(kids, ch) && c != ch
    ensures Found(kids, c) ==> Slot(kids, c) != Slot(kids, ch)
  {
  }

  lemma NotFound(kids: seq<CharNode>, ch: Char, k: nat)
    requires SortedKids(kids) && !Found(kids, ch) && k < |kids|
    ensures kids[k].ch != ch
  {
    if kids[k].ch == ch {
      FindIs(CharNode(0, false, kids), ch, k);
    }
  }

  lemma KidWellFormed(n: CharNode, ch: Char)
    requires WellFormed(n)
    ensures Find(n, ch).Some? ==> WellFormed(Find(n, ch).value)
  {
  }

  lemma NewNode(ch: Char)
    ensures WellFormed(CharNode(ch, false, []))
  {
  }

  /** Insertion keeps the children of every node sorted and different. */
  lemma {:induction false} InsertWellFormed(n: CharNode, key: seq<Char>)
    requires WellFormed(n)
    ensures WellFormed(WithKey(n, key))
    decreases |key|
  {
    if key != [] {
      hide Slot, Found;
      var kids, s := WithKid(n.kids, key[0]), Slot(n.kids, key[0]);
      WithKidFacts(n.kids, key[0]);
      KidsWellFormed(n, key[0]);
      InsertWellFormed(kids[s], key[1..]);
      InsertKeepsChar(kids[s], key[1..]);
      SortedUpdate(kids, s, WithKey(kids[s], key[1..]));
    }
  }

  lemma SortedUpdate(kids: seq<CharNode>, s: nat, kid: CharNode)
    requires SortedKids(kids) && s < |kids| && kid.ch == kids[s].ch
    requires WellFormed(kid) && forall i {:trigger kids[i]} :: 0 <= i < |kids| ==> WellFormed(kids[i])
    ensures SortedKids(kids[s := kid])
    ensures forall i {:trigger kids[s := kid][i]} :: 0 <= i < |kids| ==> WellFormed(kids[s := kid][i])
  {
    hide WellFormed;
  }

  lemma KidsWellFormed(n: CharNode, ch: Char)
    requires WellFormed(n)
    ensures forall i {:trigger WithKid(n.kids, ch)[i]} ::
              0 <= i < |WithKid(n.kids, ch)| ==> WellFormed(WithKid(n.kids, ch)[i])
  {
    hide WithKid, Slot, Found;
    NewNode(ch);
    forall i | 0 <= i < |WithKid(n.kids, ch)|
      ensures WellFormed(WithKid(n.kids, ch)[i])
    {
      WithKidAt(n.kids, ch, i);
    }
  }

  predicate IsPrefix(w: seq<Char>, key: seq<Char>) {
    |w| <= |key| && w == key[..|w|]
  }

  /** Insertion adds exactly the one key, and the paths along it. */
  lemma {:induction false} InsertKeyCorrect(n: CharNode, key: seq<Char>, w: seq<Char>)
    requires WellFormed(n)
    ensures HasKey(WithKey(n, key), w) <==> HasKey(n, w) || w == key
    ensures Walk(WithKey(n, key), w).Some? <==> Walk(n, w).Some? || IsPrefix(w, key)
    decreases |key|
  {
    hide Find, WithKey, WellFormed;
    if key == [] {
      InsertNothing(n, w);
    } else if w == [] {
      InsertFlag(n, key);
    } else {
      var n' := WithKey(n, key);
      WellFormedSorted(n);
      InsertKids(n, key, w[0]);
      KeyStep(n, w);
      KeyStep(n', w);
      PrefixStep(w, key);
      if w[0] == key[0] {
        var kid := if Find(n, key[0]).Some? then Find(n, key[0]).value else CharNode(key[0], false, []);
        KidWellFormed(n, key[0]);
        NewNode(key[0]);
        InsertKeyCorrect(kid, key[1..], w[1..]);
        NewKeys(key[0], w[1..]);
      }
    }
  }

  lemma WellFormedSorted(n: CharNode)
    requires WellFormed(n)
    ensures SortedKids(n.kids)
  {
  }

  lemma InsertNothing(n: CharNode, w: seq<Char>)
    ensures HasKey(WithKey(n, []), w) <==> HasKey(n, w) || w == []
    ensures Walk(WithKey(n, []), w).Some? <==> Walk(n, w).Some? || IsPrefix(w, [])
  {
    if w != [] {
      assert Find(WithKey(n, []), w[0]) == Find(n, w[0]);
    }
  }

  lemma InsertFlag(n: CharNode, key: seq<Char>)
    requires key != []
    ensures HasKey(WithKey(n, key), []) <==> HasKey(n, [])
    ensures Walk(WithKey(n, key), []).Some?
  {
  }

  /** The first character of a word decides. */
  lemma KeyStep(n: CharNode, w: seq<Char>)
    requires w != []
    ensures HasKey(n, w) <==> Find(n, w[0]).Some? && HasKey(Find(n, w[0]).value, w[1..])
    ensures Walk(n, w) == if Find(n, w[0]).Some? then Walk(Find(n, w[0]).value, w[1..]) else None
  {
  }

  lemma PrefixStep(w: seq<Char>, key: seq<Char>)
    requires w != [] && key != []
    ensures IsPrefix(w, key) <==> w[0] == key[0] && IsPrefix(w[1..], key[1..])
    ensures w == key <==> w[0] == key[0] && w[1..] == key[1..]
  {
    assert w == [w[0]] + w[1..] && key == [key[0]] + key[1..];
    if w[0] == key[0] && IsPrefix(w[1..], key[1..]) {
      assert key[..|w|] == [key[0]] + key[1..][..|w[1..]|];
    }
  }

  /** A new node has no keys, and no paths but the empty one. */
  lemma NewKeys(ch: Char, w: seq<Char>)
    ensures !HasKey(CharNode(ch, false, []), w)
    ensures Walk(CharNode(ch, false, []), w).Some? <==> w == []
  {
    if w != [] {
      assert Find(CharNode(ch, false, []), w[0]) == None;
    }
  }

  /** `set`, down to the end of the key; the last node is marked. */
  method InsertWord(n: CharNode, key: seq<Char>) returns (n': CharNode)
    requires WellFormed(n)
    ensures n' == WithKey(n, key)
    decreases |key|
  {
    hide WellFormed, Slot, Found;
    if key == [] {
      return n.(flag := true);
    }
    WellFormedSorted(n);
    var found, s := FindSlot(n.kids, key[0]);
    WithKidFacts(n.kids, key[0]);
    var kids := if found then n.kids else n.kids[..s] + [CharNode(key[0], false, [])] + n.kids[s..];
    KidsWellFormed(n, key[0]);
    assert kids == WithKid(n.kids, key[0]);
    var kid := InsertWord(kids[s], key[1..]);
    n' := n.(kids := kids[s := kid]);
  }

  // ------------------------------------------------------------------ live matches

  /** A match that is alive: the node it has come to and the place in the text where it began. */
  datatype Live = Live(curr: CharNode, head: nat)

  /** A key reported: where it begins and how long it is. */
  datatype Hit = Hit(start: nat, size: nat)

  /** The live matches that began before `i`, newest first, when the text has been read up to `pos`. */
  function Lives(root: CharNode, text: seq<Char>, pos: nat, i: nat): seq<Live>
    requires i <= pos <= |text|
  {
    if i == 0 then []
    else
      var rest := Lives(root, text, pos, i - 1);
      match Walk(root, text[i - 1..pos])
      case None => rest
      case Some(node) => [Live(node, i - 1)] + rest
  }

  /** The hits among these, in the same order. */
  function HitsOf(lives: seq<Live>, pos: nat): seq<Hit>
    requires forall j :: 0 <= j < |lives| ==> lives[j].head <= pos
  {
    if lives == [] then []
    else (if lives[0].curr.flag then [Hit(lives[0].head, pos - lives[0].head)] else []) + HitsOf(lives[1..], pos)
  }

  /** One character moves each live match on, or ends it. */
  function Advance(lives: seq<Live>, c: Char): seq<Live> {
    if lives == [] then []
    else
      var rest := Advance(lives[1..], c);
      match Find(lives[0].curr, c)
      case None => rest
      case Some(node) => [Live(node, lives[0].head)] + rest
  }

  /** One character more on a path. */
  lemma {:induction false} WalkOn(n: CharNode, w: seq<Char>, c: Char)
    ensures Walk(n, w + [c]) ==
            match Walk(n, w) { case None => None case Some(m) => Find(m, c) }
    decreases |w|
  {
    hide Find;
    if w == [] {
      assert w + [c] == [c] && [c][1..] == [];
    } else {
      assert (w + [c])[1..] == w[1..] + [c];
      if Find(n, w[0]).Some? {
        WalkOn(Find(n, w[0]).value, w[1..], c);
      }
    }
  }

  /** Moving on leads from the live matches at one position to those at the next. */
  lemma {:induction false} AdvanceLives(root: CharNode, text: seq<Char>, pos: nat, i: nat)
    requires i <= pos < |text|
    ensures Advance(Lives(root, text, pos, i), text[pos]) == Lives(root, text, pos + 1, i)
    decreases i
  {
    hide Find, Walk;
    if i > 0 {
      AdvanceLives(root, text, pos, i - 1);
      WalkOn(root, text[i - 1..pos], text[pos]);
      assert text[i - 1..pos + 1] == text[i - 1..pos] + [text[pos]];
      var rest := Lives(root, text, pos, i - 1);
      if Walk(root, text[i - 1..pos]).Some? {
        AdvanceFirst(Live(Walk(root, text[i - 1..pos]).value, i - 1), rest, text[pos]);
      }
    }
  }

  lemma AdvanceFirst(x: Live, rest: seq<Live>, c: Char)
    ensures Advance([x] + rest, c) ==
            (if Find(x.curr, c).Some? then [Live(Find(x.curr, c).value, x.head)] else []) + Advance(rest, c)
  {
    hide Find;
    assert ([x] + rest)[1..] == rest;
  }

  lemma {:induction false} LivesHeads(root: CharNode, text: seq<Char>, pos: nat, i: nat, j: nat)
    requires i <= pos <= |text| && j < |Lives(root, text, pos, i)|
    ensures Lives(root, text, pos, i)[j].head < i
    decreases i
  {
    if i > 0 {
      var rest := Lives(root, text, pos, i - 1);
      if Walk(root, text[i - 1..pos]).Some? {
        if j > 0 {
          LivesHeads(root, text, pos, i - 1, j - 1);
        }
      } else {
        LivesHeads(root, text, pos, i - 1, j);
      }
    }
  }

  lemma {:induction false} AdvanceHeads(lives: seq<Live>, c: Char, pos: nat)
    requires forall j :: 0 <= j < |lives| ==> lives[j].head <= pos
    ensures forall j :: 0 <= j < |Advance(lives, c)| ==> Advance(lives, c)[j].head <= pos
  {
    hide Find;
    if lives != [] {
      AdvanceHeads(lives[1..], c, pos);
    }
  }

  /** Reading the text up to `pos`: everything that has been reported, in order. */
  function Reported(root: CharNode, text: seq<Char>, pos: nat): seq<Hit>
    requires pos <= |text|
  {
    if pos == 0 then [] else Reported(root, text, pos - 1) + StepHits(root, text, pos)
  }

  /**
   * What is reported when the character before `pos` is read: first the older matches, then the one that begins here.
   */
  function StepHits(root: CharNode, text: seq<Char>, pos: nat): seq<Hit>
    requires 0 < pos <= |text|
  {
    HitsHere(root, text, pos, pos - 1) + (if HasKey(root, text[pos - 1..pos]) then [Hit(pos - 1, 1)] else [])
  }

  function HitsHere(root: CharNode, text: seq<Char>, pos: nat, i: nat): seq<Hit>
    requires i <= pos <= |text|
  {
    if i == 0 then []
    else (if HasKey(root, text[i - 1..pos]) then [Hit(i - 1, pos - (i - 1))] else []) + HitsHere(root, text, pos, i - 1)
  }

  lemma {:induction false} HitsOfLives(root: CharNode, text: seq<Char>, pos: nat, i: nat)
    requires i <= pos <= |text|
    ensures forall j :: 0 <= j < |Lives(root, text, pos, i)| ==> Lives(root, text, pos, i)[j].head <= pos
    ensures HitsOf(Lives(root, text, pos, i), pos) == HitsHere(root, text, pos, i)
    decreases i
  {
    hide Walk;
    if i > 0 {
      HitsOfLives(root, text, pos, i - 1);
      var rest := Lives(root, text, pos, i - 1);
      if Walk(root, text[i - 1..pos]).Some? {
        var x := Live(Walk(root, text[i - 1..pos]).value, i - 1);
        assert ([x] + rest)[1..] == rest;
      }
    }
  }

  // -------------------------------------------------------------------- exactness

  /** Which hits one character brings. */
  lemma {:induction false} HitsHereExact(root: CharNode, text: seq<Char>, pos: nat, i: nat, h: Hit)
    requires i <= pos <= |text|
    ensures h in HitsHere(root, text, pos, i) <==>
              h.start < i && h.start + h.size == pos && HasKey(root, text[h.start..pos])
    ensures multiset(HitsHere(root, text, pos, i))[h] <= 1
    decreases i
  {
    hide HasKey;
    if i > 0 {
      HitsHereExact(root, text, pos, i - 1, h);
    }
  }

  lemma StepExact(root: CharNode, text: seq<Char>, pos: nat, h: Hit)
    requires 0 < pos <= |text|
    ensures h in StepHits(root, text, pos) <==>
              h.size > 0 && h.start + h.size == pos && HasKey(root, text[h.start..pos])
    ensures multiset(StepHits(root, text, pos))[h] <= 1
  {
    hide HasKey;
    HitsHereExact(root, text, pos, pos - 1, h);
    var x := HitsHere(root, text, pos, pos - 1);
    var y := if HasKey(root, text[pos - 1..pos]) then [Hit(pos - 1, 1)] else [];
    assert h in x + y <==> h in x || h in y;
    assert h in x ==> h.start < pos - 1;
  }

  /** Up to any position, exactly the slices of the text that are keys have been reported, each once. */
  lemma {:induction false} ReportedExact(root: CharNode, text: seq<Char>, pos: nat, h: Hit)
    requires pos <= |text|
    ensures h in Reported(root, text, pos) <==>
              h.size > 0 && h.start + h.size <= pos && HasKey(root, text[h.start..h.start + h.size])
    ensures multiset(Reported(root, text, pos))[h] <= 1
    decreases pos
  {
    hide HasKey, StepHits;
    if pos > 0 {
      ReportedExact(root, text, pos - 1, h);
      StepExact(root, text, pos, h);
      var x, y := Reported(root, text, pos - 1), StepHits(root, text, pos);
      assert h in x + y <==> h in x || h in y;
    }
  }

  // ------------------------------------------------------------------- the matcher

  lemma {:induction false} AdvanceConcat(a: seq<Live>, x: Live, c: Char)
    ensures Advance(a + [x], c) == Advance(a, c) + Advance([x], c)
  {
    hide Find;
    if a == [] {
      assert a + [x] == [x];
    } else {
      AdvanceConcat(a[1..], x, c);
      assert (a + [x])[1..] == a[1..] + [x];
    }
  }

  lemma {:induction false} HitsConcat(a: seq<Live>, b: seq<Live>, pos: nat)
    requires forall j :: 0 <= j < |a| ==> a[j].head <= pos
    requires forall j :: 0 <= j < |b| ==> b[j].head <= pos
    ensures forall j :: 0 <= j < |a + b| ==> (a + b)[j].head <= pos
    ensures HitsOf(a + b, pos) == HitsOf(a, pos) + HitsOf(b, pos)
  {
    hide HitsOf;
    HeadsConcat(a, b, pos);
    if a == [] {
      NoLives(0, pos);
      assert a + b == b;
    } else {
      HitsConcat(a[1..], b, pos);
      assert (a + b)[1..] == a[1..] + b;
      HitsStep(a, pos);
      HitsStep(a + b, pos);
      Associate(FirstHit(a[0], pos), HitsOf(a[1..], pos), HitsOf(b, pos));
    }
  }

  lemma HeadsConcat(a: seq<Live>, b: seq<Live>, pos: nat)
    requires forall j :: 0 <= j < |a| ==> a[j].head <= pos
    requires forall j :: 0 <= j < |b| ==> b[j].head <= pos
    ensures forall j :: 0 <= j < |a + b| ==> (a + b)[j].head <= pos
  {
  }

  function FirstHit(x: Live, pos: nat): seq<Hit>
    requires x.head <= pos
  {
    if x.curr.flag then [Hit(x.head, pos - x.head)] else []
  }

  lemma HitsStep(a: seq<Live>, pos: nat)
    requires a != [] && forall j :: 0 <= j < |a| ==> a[j].head <= pos
    ensures HitsOf(a, pos) == FirstHit(a[0], pos) + HitsOf(a[1..], pos)
  {
  }

  lemma Associate<T>(a: seq<T>, b: seq<T>, c: seq<T>)
    ensures a + (b + c) == a + b + c
  {
  }

  lemma {:induction false} WalkWellFormed(n: CharNode, w: seq<Char>)
    requires WellFormed(n)
    ensures Walk(n, w).Some? ==> WellFormed(Walk(n, w).value)
    decreases |w|
  {
    hide Find, WellFormed;
    if w != [] && Find(n, w[0]).Some? {
      KidWellFormed(n, w[0]);
      WalkWellFormed(Find(n, w[0]).value, w[1..]);
    }
  }

  lemma {:induction false} LivesWellFormed(root: CharNode, text: seq<Char>, pos: nat, i: nat)
    requires i <= pos <= |text| && WellFormed(root)
    ensures forall j :: 0 <= j < |Lives(root, text, pos, i)| ==> WellFormed(Lives(root, text, pos, i)[j].curr)
    decreases i
  {
    hide WellFormed, Walk;
    if i > 0 {
      LivesWellFormed(root, text, pos, i - 1);
      WalkWellFormed(root, text[i - 1..pos]);
    }
  }

  /** Each match moved on, or gone; with what is reported of it. */
  lemma OneOn(x: Live, c: Char, pos: nat)
    requires x.head <= pos
    ensures Advance([x], c) == if Find(x.curr, c).Some? then [Live(Find(x.curr, c).value, x.head)] else []
    ensures forall j :: 0 <= j < |Advance([x], c)| ==> Advance([x], c)[j].head <= pos
    ensures HitsOf(Advance([x], c), pos) ==
            if Find(x.curr, c).Some? && Find(x.curr, c).value.flag then [Hit(x.head, pos - x.head)] else []
  {
    hide Find;
    assert [x][1..] == [];
  }

  /** The match that begins at the character just read. */
  lemma NewLife(root: CharNode, text: seq<Char>, pos: nat)
    requires pos < |text|
    ensures Lives(root, text, pos + 1, pos + 1) ==
            (if Find(root, text[pos]).Some? then [Live(Find(root, text[pos]).value, pos)] else [])
            + Lives(root, text, pos + 1, pos)
    ensures HasKey(root, text[pos..pos + 1]) <==> Find(root, text[pos]).Some? && Find(root, text[pos]).value.flag
  {
    hide Find, Lives, Walk;
    assert text[pos..pos + 1] == [text[pos]];
    LivesStep(root, text, pos + 1, pos + 1);
    WalkOne(root, text[pos]);
    assert [] + Lives(root, text, pos + 1, pos) == Lives(root, text, pos + 1, pos);
  }

  lemma LivesStep(root: CharNode, text: seq<Char>, pos: nat, i: nat)
    requires 0 < i <= pos <= |text|
    ensures var p, rest := Walk(root, text[i - 1..pos]), Lives(root, text, pos, i - 1);
            Lives(root, text, pos, i) == if p.None? then rest else [Live(p.value, i - 1)] + rest
  {
    hide Walk;
  }

  lemma WalkOne(n: CharNode, c: Char)
    ensures Walk(n, [c]) == Find(n, c)
  {
    hide Find;
    assert [c][1..] == [];
  }

  class CharIndexer {
    var root: CharNode
    /** The live matches, newest first. */
    var matches: seq<Live>
    /** What has been reported, in order. */
    var hits: seq<Hit>
    /** The keys put in so far. */
    ghost var keys: set<seq<Char>>

    ghost predicate Valid()
      reads this
    {
      WellFormed(root) && forall w :: HasKey(root, w) <==> w in keys
    }

    constructor ()
      ensures Valid() && keys == {} && matches == [] && hits == []
    {
      root := CharNode(0, false, []);
      matches, hits, keys := [], [], {};
      new;
      forall w
        ensures !HasKey(root, w)
      {
        NewKeys(0, w);
      }
    }

    /** `insert_key`. */
    method InsertKey(key: seq<Char>)
      requires Valid()
      modifies `root, `keys
      ensures Valid() && keys == old(keys) + {key}
    {
      hide WellFormed, HasKey, WithKey;
      forall w
        ensures HasKey(WithKey(root, key), w) <==> HasKey(root, w) || w == key
      {
        InsertKeyCorrect(root, key, w);
      }
      InsertWellFormed(root, key);
      root := InsertWord(root, key);
      keys := keys + {key};
    }

    /** The matches are those of the text read so far, and its keys have been reported. */
    ghost predicate ReadTo(text: seq<Char>, pos: nat)
      reads this
      requires pos <= |text|
    {
      Valid() && matches == Lives(root, text, pos, pos) && hits == Reported(root, text, pos)
    }

    /** `move`: one character. */
    method Move(text: seq<Char>, pos: nat)
      requires pos < |text| && ReadTo(text, pos)
      modifies `matches, `hits
      ensures ReadTo(text, pos + 1)
    {
      hide WellFormed, Lives, Advance, HitsOf, Reported, StepHits, HasKey, Find, Slot, Found, Walk;
      var c := text[pos];
      WellFormedSorted(root);
      var anew, slot := FindSlot(root.kids, c);
      FindFrom(root, c, anew, slot);
      ghost var before, said := matches, hits;
      LivesWellFormed(root, text, pos, pos);
      HitsOfLives(root, text, pos, pos);
      AdvanceLives(root, text, pos, pos);
      NewLife(root, text, pos);
      StepIs(root, text, pos);
      if !anew && matches == [] {
        NoLives(c, pos + 1);
        return;
      }
      MoveAll(c, pos + 1);
      HitsOfLives(root, text, pos + 1, pos);
      if anew {
        var node := root.kids[slot];
        matches := [Live(node, pos)] + matches;
        if node.flag {
          hits := hits + [Hit(pos, 1)];
        }
      } else {
        assert [] + matches == matches;
      }
    }

    /** The loop over the list: matches that cannot go on are erased. */
    method MoveAll(c: Char, pos: nat)
      requires forall j :: 0 <= j < |matches| ==> WellFormed(matches[j].curr) && matches[j].head <= pos
      modifies `matches, `hits
      ensures matches == Advance(old(matches), c)
      ensures forall j :: 0 <= j < |matches| ==> matches[j].head <= pos
      ensures hits == old(hits) + HitsOf(matches, pos)
    {
      hide WellFormed, Advance, HitsOf, Find, Slot, Found;
      ghost var m0, h0 := matches, hits;
      ghost var done := 0;
      var iter := 0;
      NoLives(c, pos);
      while iter < |matches|
        invariant 0 <= done <= |m0| && iter <= |matches| && matches[iter..] == m0[done..]
        invariant matches[..iter] == Advance(m0[..done], c)
        invariant forall j :: 0 <= j < iter ==> matches[..iter][j].head <= pos
        invariant hits == h0 + HitsOf(matches[..iter], pos)
        decreases |m0| - done
      {
        var x := matches[iter];
        assert x == m0[done];
        WellFormedSorted(x.curr);
        var found, slot := FindSlot(x.curr.kids, c);
        FindFrom(x.curr, c, found, slot);
        OneOn(x, c, pos);
        AdvanceConcat(m0[..done], x, c);
        assert m0[..done] + [x] == m0[..done + 1];
        HitsConcat(matches[..iter], Advance([x], c), pos);
        ghost var front := matches[..iter];
        if found {
          var y := Live(x.curr.kids[slot], x.head);
          matches := matches[iter := y];
          if y.curr.flag {
            hits := hits + [Hit(y.head, pos - y.head)];
          }
          iter := iter + 1;
          assert matches[..iter] == front + [y];
        } else {
          matches := matches[..iter] + matches[iter + 1..];
          assert matches[..iter] == front && front + [] == front;
        }
        done := done + 1;
      }
      assert m0[..done] == m0 && matches[..iter] == matches;
    }

    /**
     * The loop of the header's documentation: every character of a text, with the matches still alive kept for more.
     */
    method Search(text: seq<Char>)
      requires Valid() && matches == [] && hits == []
      modifies `matches, `hits
      ensures Valid()
      ensures forall h :: h in hits <==>
                h.size > 0 && h.start + h.size <= |text| && text[h.start..h.start + h.size] in keys
      ensures forall h :: multiset(hits)[h] <= 1
      ensures ReadTo(text, |text|)
    {
      hide WellFormed, HasKey, Walk;
      for pos := 0 to |text|
        invariant ReadTo(text, pos)
      {
        hide Lives, Reported;
        Move(text, pos);
      }
      forall h
        ensures h in hits <==> h.size > 0 && h.start + h.size <= |text| && text[h.start..h.start + h.size] in keys
        ensures multiset(hits)[h] <= 1
      {
        ReportedExact(root, text, |text|, h);
      }
    }
  }

  lemma FindFrom(n: CharNode, c: Char, found: bool, slot: nat)
    requires slot == Slot(n.kids, c) && found == Found(n.kids, c)
    ensures if found then slot < |n.kids| && Find(n, c) == Some(n.kids[slot]) else Find(n, c) == None
  {
  }

  lemma NoLives(c: Char, pos: nat)
    ensures Advance([], c) == [] && HitsOf([], pos) == []
  {
  }

  /** What one step adds to the report. */
  lemma StepIs(root: CharNode, text: seq<Char>, pos: nat)
    requires pos < |text|
    ensures var lives := Lives(root, text, pos + 1, pos);
            forall j :: 0 <= j < |lives| ==> lives[j].head <= pos + 1
    ensures Reported(root, text, pos + 1) ==
            Reported(root, text, pos) + HitsOf(Lives(root, text, pos + 1, pos), pos + 1)
            + (if HasKey(root, text[pos..pos + 1]) then [Hit(pos, 1)] else [])
  {
    hide Lives, HasKey, HitsHere, HitsOf;
    HitsOfLives(root, text, pos + 1, pos);
  }
}
