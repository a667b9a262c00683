/** The node object: leaves hold pairs, inner nodes hold separators and children. */
module BTreeNode {
  import opened Sorted
  import opened BTree
  import Slots = BTreeSlots

  /** What the slots in use of a node say; links between leaves are not part of it. */
  datatype Cell<V(0)> =
    | LeafCell(keys: seq<Key>, data: seq<V>)
    | InnerCell(level: nat, keys: seq<Key>, kids: seq<Node?<V>>)

  class Node<V(0)> {
    const p: Params
    const level: nat
    var slotuse: nat
    // the slot arrays: sequences whose length is the capacity of the node and never changes
    var slotkey: seq<Key>
    var slotdata: seq<V>
    var childid: seq<Node?<V>>
    var prevleaf: Node?<V>
    var nextleaf: Node?<V>

    /** An empty node; `level` 0 makes a leaf. */
    constructor (p: Params, level: nat)
      ensures this.p == p && this.level == level && Valid()
      ensures Image() == if level == 0 then LeafCell([], []) else InnerCell(level, [], [null])
      ensures prevleaf == null && nextleaf == null
    {
      this.p := p;
      this.level := level;
      slotuse := 0;
      var data: V := *;
      slotkey := seq(if level == 0 then p.leafMax else p.innerMax, i => 0);
      slotdata := seq(if level == 0 then p.leafMax else 0, i => data);
      childid := seq(if level == 0 then 0 else p.innerMax + 1, i => null);
      prevleaf, nextleaf := null, null;
    }

    /** The slot arrays have the capacities of the node type, and the slots in use fit. */
    ghost predicate Valid()
      reads `slotuse, `slotkey, `slotdata, `childid
    {
      && |slotkey| == (if level == 0 then p.leafMax else p.innerMax)
      && |slotdata| == (if level == 0 then p.leafMax else 0)
      && |childid| == (if level == 0 then 0 else p.innerMax + 1)
      && slotuse <= |slotkey|
    }

    ghost function Image(): Cell<V>
      requires Valid()
      reads `slotuse, `slotkey, `slotdata, `childid
    {
      if level == 0 then LeafCell(slotkey[..slotuse], slotdata[..slotuse])
      else InnerCell(level, slotkey[..slotuse], childid[..slotuse + 1])
    }

    method FindLower(key: Key) returns (r: nat)
      requires Valid() && SortedKeys(Image().keys)
      ensures r == Lower(Image().keys, key)
    {
      r := Slots.FindLower(slotkey, slotuse, key);
    }

    method FindUpper(key: Key) returns (r: nat)
      requires Valid() && SortedKeys(Image().keys)
      ensures r == Upper(Image().keys, key)
    {
      r := Slots.FindUpper(slotkey, slotuse, key);
    }

    // ---------------------------------------------------------------- leaves

    /** Puts a pair behind all pairs whose key is not greater. */
    method PutPair(key: Key, value: V) returns (r: nat)
      requires Valid() && level == 0 && slotuse < p.leafMax && SortedKeys(Image().keys)
      modifies `slotuse, `slotkey, `slotdata
      ensures Valid()
      ensures r == Upper(old(Image().keys), key)
      ensures Image() == LeafCell(InsertAt(old(Image().keys), r, key), InsertAt(old(Image().data), r, value))
    {
      slotkey, slotdata, r := Slots.PutPair(slotkey, slotdata, slotuse, key, value);
      slotuse := slotuse + 1;
    }

    /** Moves the pairs from slot `mid` on into the empty leaf `n`. */
    method SplitPairs(n: Node<V>, mid: nat)
      requires Valid() && n.Valid() && n != this && level == 0 && n.level == 0 && n.p == p && mid <= slotuse
      modifies `slotuse, n`slotuse, n`slotkey, n`slotdata
      ensures Valid() && n.Valid()
      ensures Image() == LeafCell(old(Image().keys)[..mid], old(Image().data)[..mid])
      ensures n.Image() == LeafCell(old(Image().keys)[mid..], old(Image().data)[mid..])
    {
      n.slotuse := slotuse - mid;
      n.slotkey, n.slotdata := Slots.CopySlots(n.slotkey, n.slotdata, 0, slotkey, slotdata, mid, slotuse - mid);
      slotuse := mid;
    }

    /** Takes the pair at `slot` away. */
    method RemovePair(slot: nat)
      requires Valid() && level == 0 && slot < slotuse
      modifies `slotuse, `slotkey, `slotdata
      ensures Valid()
      ensures Image() == LeafCell(RemoveAt(old(Image().keys), slot), RemoveAt(old(Image().data), slot))
    {
      slotkey, slotdata := Slots.RemovePair(slotkey, slotdata, slotuse, slot);
      slotuse := slotuse - 1;
    }

    /** Appends the first `n` pairs of `right`. */
    method AppendPairs(right: Node<V>, n: nat)
      requires Valid() && right.Valid() && right != this && level == 0 && right.level == 0 && right.p == p
      requires n <= right.slotuse && slotuse + n <= p.leafMax
      modifies `slotuse, `slotkey, `slotdata
      ensures Valid()
      ensures Image() == LeafCell(old(Image().keys) + right.Image().keys[..n],
                                  old(Image().data) + right.Image().data[..n])
    {
      slotkey, slotdata := Slots.CopySlots(slotkey, slotdata, slotuse, right.slotkey, right.slotdata, 0, n);
      slotuse := slotuse + n;
    }

    /** Takes all pairs of the leaf `right`, which is left empty. */
    method MergePairs(right: Node<V>)
      requires Valid() && right.Valid() && right != this && level == 0 && right.level == 0 && right.p == p
      requires slotuse + right.slotuse <= p.leafMax
      modifies `slotuse, `slotkey, `slotdata, right`slotuse
      ensures Valid() && right.Valid()
      ensures Image() == LeafCell(old(Image().keys) + old(right.Image().keys),
                                  old(Image().data) + old(right.Image().data))
      ensures right.Image() == LeafCell([], [])
    {
      AppendPairs(right, right.slotuse);
      right.slotuse := 0;
    }

    /** Takes the first `n` pairs of `right`, which keeps the others. */
    method TakePairsFromRight(right: Node<V>, n: nat)
      requires Valid() && right.Valid() && right != this && level == 0 && right.level == 0 && right.p == p
      requires n <= right.slotuse && slotuse + n <= p.leafMax
      modifies `slotuse, `slotkey, `slotdata, right`slotuse, right`slotkey, right`slotdata
      ensures Valid() && right.Valid()
      ensures Image() == LeafCell(old(Image().keys) + old(right.Image().keys)[..n],
                                  old(Image().data) + old(right.Image().data)[..n])
      ensures right.Image() == LeafCell(old(right.Image().keys)[n..], old(right.Image().data)[n..])
    {
      AppendPairs(right, n);
      right.slotuse := right.slotuse - n;
      right.slotkey, right.slotdata := Slots.MoveDown(right.slotkey, right.slotdata, n, right.slotuse);
    }

    /** Takes the last `n` pairs of `left`; the slot behind the last pair is moved up with the others. */
    method TakePairsFromLeft(left: Node<V>, n: nat)
      requires Valid() && left.Valid() && left != this && level == 0 && left.level == 0 && left.p == p
      requires n <= left.slotuse && slotuse + n < p.leafMax
      modifies `slotuse, `slotkey, `slotdata, left`slotuse
      ensures Valid() && left.Valid()
      ensures var m := |old(left.Image().keys)| - n;
              && Image() == LeafCell(old(left.Image().keys)[m..] + old(Image().keys),
                                     old(left.Image().data)[m..] + old(Image().data))
              && left.Image() == LeafCell(old(left.Image().keys)[..m], old(left.Image().data)[..m])
    {
      slotkey, slotdata := Slots.PutInFront(slotkey, slotdata, slotuse, left.slotkey, left.slotdata, left.slotuse, n);
      slotuse := slotuse + n;
      left.slotuse := left.slotuse - n;
    }

    /** Writes all pairs anew. */
    method LoadPairs(keys: seq<Key>, data: seq<V>)
      requires Valid() && level == 0 && |keys| == |data| <= p.leafMax
      modifies `slotuse, `slotkey, `slotdata
      ensures Valid() && Image() == LeafCell(keys, data)
    {
      slotkey := keys + slotkey[|keys|..];
      slotdata := data + slotdata[|data|..];
      slotuse := |keys|;
    }

    // ----------------------------------------------------------- inner nodes

    /** Writes all separators anew; the children are still to come. */
    method LoadKeys(keys: seq<Key>)
      requires Valid() && level > 0 && |keys| <= p.innerMax
      modifies `slotuse, `slotkey
      ensures Valid() && Image().keys == keys
    {
      slotkey := keys + slotkey[|keys|..];
      slotuse := |keys|;
    }

    /** Puts a separator at `slot` and the child to its right behind it. */
    method PutChild(slot: nat, newkey: Key, newchild: Node<V>)
      requires Valid() && level > 0 && slot <= slotuse < p.innerMax
      modifies `slotuse, `slotkey, `childid
      ensures Valid()
      ensures Image() == InnerCell(level, InsertAt(old(Image().keys), slot, newkey),
                                   InsertAt(old(Image().kids), slot + 1, newchild))
    {
      slotkey, childid := Slots.PutChild(slotkey, childid, slotuse, slot, newkey, newchild);
      slotuse := slotuse + 1;
    }

    /** Moves the children right of separator `mid` into the empty node `n`; the separator itself is returned. */
    method SplitChildren(n: Node<V>, mid: nat) returns (newkey: Key)
      requires Valid() && n.Valid() && n != this && level > 0 && n.level == level && n.p == p && mid < slotuse
      modifies `slotuse, n`slotuse, n`slotkey, n`childid
      ensures Valid() && n.Valid()
      ensures Image() == InnerCell(level, old(Image().keys)[..mid], old(Image().kids)[..mid + 1])
      ensures n.Image() == InnerCell(level, old(Image().keys)[mid + 1..], old(Image().kids)[mid + 1..])
      ensures newkey == old(Image().keys)[mid]
    {
      Slots.SliceOfPrefix(slotkey, slotuse, mid + 1, slotuse);
      Slots.SliceOfPrefix(childid, slotuse + 1, mid + 1, slotuse + 1);
      Slots.SliceOfPrefix(slotkey, slotuse, 0, mid);
      Slots.SliceOfPrefix(childid, slotuse + 1, 0, mid + 1);
      n.slotuse := slotuse - (mid + 1);
      n.slotkey, n.childid := Slots.CopyTail(n.slotkey, n.childid, slotkey, childid, slotuse, mid + 1);
      slotuse := mid;
      newkey := slotkey[mid];
    }

    /** Appends one separator and the child to its right. */
    method AppendChild(key: Key, child: Node?<V>)
      requires Valid() && level > 0 && slotuse < p.innerMax
      modifies `slotuse, `slotkey, `childid
      ensures Valid()
      ensures Image() == InnerCell(level, old(Image().keys) + [key], old(Image().kids) + [child])
    {
      slotkey := slotkey[slotuse := key];
      childid := childid[slotuse + 1 := child];
      slotuse := slotuse + 1;
    }

    method SetKey(slot: nat, key: Key)
      requires Valid() && level > 0 && slot < slotuse
      modifies `slotkey
      ensures Valid()
      ensures Image() == InnerCell(level, old(Image().keys)[slot := key], old(Image().kids))
    {
      slotkey := slotkey[slot := key];
    }

    /** Writes a key slot that may be just behind the separators in use. */
    method WriteKey(slot: nat, key: Key)
      requires Valid() && level > 0 && slot <= slotuse < p.innerMax
      modifies `slotkey
      ensures Valid()
      ensures Image() == InnerCell(level, if slot < slotuse then old(Image().keys)[slot := key] else old(Image().keys),
                                   old(Image().kids))
    {
      slotkey := slotkey[slot := key];
    }

    method SetChild(slot: nat, child: Node?<V>)
      requires Valid() && level > 0 && slot <= slotuse
      modifies `childid
      ensures Valid()
      ensures Image() == InnerCell(level, old(Image().keys), old(Image().kids)[slot := child])
    {
      childid := childid[slot := child];
    }

    /** Takes away child `slot` and the separator left of it. */
    method DropChild(slot: nat)
      requires Valid() && level > 0 && 0 < slot <= slotuse
      modifies `slotuse, `slotkey, `childid
      ensures Valid()
      ensures Image() == InnerCell(level, RemoveAt(old(Image().keys), slot - 1), RemoveAt(old(Image().kids), slot))
    {
      slotkey, childid := Slots.DropChild(slotkey, childid, slotuse, slot);
      slotuse := slotuse - 1;
    }

    /** Appends `sep`, the first `n` separators of `right` and one child more. */
    method AppendChildren(right: Node<V>, sep: Key, n: nat)
      requires Valid() && right.Valid() && right != this && level > 0 && right.level == level && right.p == p
      requires n <= right.slotuse && slotuse + 1 + n <= p.innerMax
      modifies `slotuse, `slotkey, `childid
      ensures Valid()
      ensures Image() == InnerCell(level, old(Image().keys) + [sep] + right.Image().keys[..n],
                                   old(Image().kids) + right.Image().kids[..n + 1])
    {
      Slots.SliceOfPrefix(right.slotkey, right.slotuse, 0, n);
      Slots.SliceOfPrefix(right.childid, right.slotuse + 1, 0, n + 1);
      slotkey, childid := Slots.AppendKids(slotkey, childid, slotuse, right.slotkey, right.childid, sep, n);
      slotuse := slotuse + 1 + n;
    }

    /** Takes the separator and all children of `right`, which is left without separators. */
    method MergeChildren(right: Node<V>, sep: Key)
      requires Valid() && right.Valid() && right != this && level > 0 && right.level == level && right.p == p
      requires slotuse + 1 + right.slotuse <= p.innerMax
      modifies `slotuse, `slotkey, `childid, right`slotuse
      ensures Valid() && right.Valid()
      ensures Image() == InnerCell(level, old(Image().keys) + [sep] + old(right.Image().keys),
                                   old(Image().kids) + old(right.Image().kids))
      ensures right.Image() == InnerCell(level, [], old(right.Image().kids)[..1])
    {
      AppendChildren(right, sep, right.slotuse);
      right.slotuse := 0;
    }

    /** Takes the first `n` children of `right`; `sep` comes down between the two, and the new separator is returned. */
    method TakeChildrenFromRight(right: Node<V>, sep: Key, n: nat) returns (up: Key)
      requires Valid() && right.Valid() && right != this && level > 0 && right.level == level && right.p == p
      requires 0 < n <= right.slotuse && slotuse + n <= p.innerMax
      modifies `slotuse, `slotkey, `childid, right`slotuse, right`slotkey, right`childid
      ensures Valid() && right.Valid()
      ensures Image() == InnerCell(level, old(Image().keys) + [sep] + old(right.Image().keys)[..n - 1],
                                   old(Image().kids) + old(right.Image().kids)[..n])
      ensures up == old(right.Image().keys)[n - 1]
      ensures right.Image() == InnerCell(level, old(right.Image().keys)[n..], old(right.Image().kids)[n..])
    {
      Slots.SliceOfPrefix(right.slotkey, right.slotuse, n, right.slotuse);
      Slots.SliceOfPrefix(right.childid, right.slotuse + 1, n, right.slotuse + 1);
      AppendChildren(right, sep, n - 1);
      up := right.slotkey[n - 1];
      right.slotkey, right.childid := Slots.DropFront(right.slotkey, right.childid, right.slotuse, n);
      right.slotuse := right.slotuse - n;
    }

    /** Puts the last `n` children of `left` in front, with `sep` behind their separators. */
    method PrependChildren(left: Node<V>, sep: Key, n: nat)
      requires Valid() && left.Valid() && left != this && level > 0 && left.level == level && left.p == p
      requires 0 < n <= left.slotuse && slotuse + n <= p.innerMax
      modifies `slotuse, `slotkey, `childid
      ensures Valid()
      ensures var m := left.slotuse - n;
              Image() == InnerCell(level, left.Image().keys[m + 1..] + [sep] + old(Image().keys),
                                   left.Image().kids[m + 1..] + old(Image().kids))
    {
      slotkey, childid := Slots.PutKidsInFront(slotkey, childid, slotuse, left.slotkey, left.childid, left.slotuse, sep,
                                               n);
      slotuse := slotuse + n;
    }

    /** Takes the last `n` children of `left`; `sep` comes down between the two, and the new separator is returned. */
    method TakeChildrenFromLeft(left: Node<V>, sep: Key, n: nat) returns (up: Key)
      requires Valid() && left.Valid() && left != this && level > 0 && left.level == level && left.p == p
      requires 0 < n <= left.slotuse && slotuse + n <= p.innerMax
      modifies `slotuse, `slotkey, `childid, left`slotuse
      ensures Valid() && left.Valid()
      ensures var m := |old(left.Image().keys)| - n;
              && Image() == InnerCell(level, old(left.Image().keys)[m + 1..] + [sep] + old(Image().keys),
                                     old(left.Image().kids)[m + 1..] + old(Image().kids))
              && left.Image() == InnerCell(level, old(left.Image().keys)[..m], old(left.Image().kids)[..m + 1])
              && up == old(left.Image().keys)[m]
    {
      PrependChildren(left, sep, n);
      Slots.SliceOfPrefix(left.slotkey, left.slotuse, 0, left.slotuse - n);
      Slots.SliceOfPrefix(left.childid, left.slotuse + 1, 0, left.slotuse - n + 1);
      up := left.slotkey[left.slotuse - n];
      left.slotuse := left.slotuse - n;
    }
  }
}
