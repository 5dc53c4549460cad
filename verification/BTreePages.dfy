/** Leaf and internal pages: fixed arrays of slots that the page methods shift and copy in place. */
module BTreePages {
  import opened Bytes
  import opened Ids
  import opened BTreeModel

  class BtreeLeafPage {
    var parent: PageId
    var next: PageId
    var size: nat
    const maxSize: nat
    const nodes: array<LeafNode>

    ghost predicate Ok()
      reads this
    {
      nodes.Length == maxSize && size <= maxSize
    }

    function Value(): Page
      reads this, nodes
      requires Ok()
    {
      Leaf(parent, next, nodes[..size], nodes[size..])
    }

    /** The page's memory seen as a leaf. */
    constructor View(page: Page)
      requires page.Leaf?
      ensures Ok() && fresh(nodes) && maxSize == |page.entries| + |page.tail| && Value() == page
      ensures nodes[..] == page.entries + page.tail && size == |page.entries|
    {
      var slots := page.entries + page.tail;
      parent, next, size, maxSize := page.parent, page.next, |page.entries|, |slots|;
      nodes := new LeafNode[|slots|](i requires 0 <= i < |slots| => slots[i]);
      new;
      assert nodes[..] == slots;
    }

    /** `std::lower_bound`: the first used slot whose key is not below `key`. */
    method FindKeyIndex(key: Key) returns (index: nat)
      requires Ok() && Sorted(nodes[..size])
      ensures index <= size
      ensures forall i :: 0 <= i < index ==> nodes[i].key < key
      ensures forall i :: index <= i < size ==> key <= nodes[i].key
    {
      var first, count := 0, size;
      while count > 0
        invariant 0 <= first && 0 <= count && first + count <= size
        invariant forall i :: 0 <= i < first ==> nodes[i].key < key
        invariant forall i :: first + count <= i < size ==> key <= nodes[i].key
      {
        var step := count / 2;
        var it := first + step;
        assert forall i :: 0 <= i < size ==> nodes[i] == nodes[..size][i];
        if nodes[it].key < key {
          first, count := it + 1, count - (step + 1);
        } else {
          count := step;
        }
      }
      index := first;
    }

    /** The comparison that stops `Insert`: slot `index` is read even when it is past the used slots. */
    ghost predicate Blocked(index: nat, key: Key)
      requires Ok() && index <= size < maxSize
      reads this, nodes
    {
      size > 0 && nodes[index].key == key
    }

    /** Inserts in key order, unless the slot at the insertion point already holds the key. */
    method Insert(key: Key, rid: Rid) returns (ghost index: nat)
      requires Ok() && size < maxSize && Sorted(nodes[..size])
      modifies this`size, nodes
      ensures Ok() && index <= old(size)
      ensures forall i :: 0 <= i < index ==> old(nodes[i].key) < key
      ensures forall i :: index <= i < old(size) ==> key <= old(nodes[i].key)
      ensures old(Blocked(index, key)) ==> Value() == old(Value())
      ensures !old(Blocked(index, key)) ==>
        Value() == Leaf(parent, next, InsertAt(old(nodes[..size]), index, LeafNode(key, rid)), old(nodes[size + 1..]))
    {
      var keyIndex := FindKeyIndex(key);
      index := keyIndex;
      if size > 0 && nodes[keyIndex].key == key {
        return;
      }
      ghost var was := nodes[..];
      forall j | keyIndex < j <= size {
        nodes[j] := nodes[j - 1];
      }
      nodes[keyIndex] := LeafNode(key, rid);
      size := size + 1;
      assert nodes[..size] == InsertAt(was[..size - 1], keyIndex, LeafNode(key, rid));
      assert nodes[size..] == was[size..];
    }

    /** The value stored under `key`, if a used slot holds it. */
    method Lookup(key: Key) returns (r: Option<Rid>)
      requires Ok() && size < maxSize && Sorted(nodes[..size])
      ensures match r
        case Some(rid) => exists i :: 0 <= i < size && nodes[i] == LeafNode(key, rid)
        case None => forall i :: 0 <= i < size ==> nodes[i].key != key
    {
      var target := FindKeyIndex(key);
      var leafKey := nodes[target].key;
      if target < size && leafKey == key {
        assert nodes[target] == LeafNode(key, nodes[target].rid);
        return Some(nodes[target].rid);
      }
      assert forall i :: 0 <= i < size ==> nodes[i] == nodes[..size][i];
      return None;
    }

    /** Moves the upper half of a full leaf; its own slots past the new size keep the moved entries. */
    method MoveHalfTo(recipient: BtreeLeafPage)
      requires Ok() && size == maxSize == recipient.maxSize == recipient.nodes.Length && recipient.size == 0
      requires this != recipient && nodes != recipient.nodes
      modifies this`size, recipient`size, recipient.nodes
      ensures Ok() && recipient.Ok()
      ensures Value() == Leaf(parent, next, old(nodes[..])[..maxSize / 2], old(nodes[..])[maxSize / 2..])
      ensures recipient.Value() == Leaf(recipient.parent, recipient.next, old(nodes[..])[maxSize / 2..],
                                        old(recipient.nodes[..])[maxSize - maxSize / 2..])
    {
      var start := maxSize / 2;
      size := start;
      recipient.CopyNFrom(nodes, start, maxSize - start);
      assert recipient.nodes[..recipient.size] == old(nodes[start..]);
    }

    method CopyNFrom(items: array<LeafNode>, from: nat, count: nat)
      requires Ok() && from + count <= items.Length && size + count <= maxSize && items != nodes
      modifies this`size, nodes
      ensures Ok() && size == old(size) + count
      ensures nodes[..] == old(nodes[..size]) + items[from..from + count] + old(nodes[size + count..])
    {
      forall j | 0 <= j < count {
        nodes[size + j] := items[from + j];
      }
      size := size + count;
    }
  }

  class BtreeInternalPage {
    var parent: PageId
    var size: nat
    const maxSize: nat
    const nodes: array<InternalNode>

    /** A page holds `maxSize` slots; the buffer an overfull page is copied to holds one more. */
    ghost predicate Ok()
      reads this
    {
      size <= nodes.Length && maxSize <= nodes.Length
    }

    function Value(): Page
      reads this, nodes
      requires Ok()
    {
      Internal(parent, nodes[..size])
    }

    /** The page's memory seen as an internal page; slots past the used ones are never read before they are written. */
    constructor View(page: Page, maxSize: nat, room: nat)
      requires page.Internal? && |page.kids| <= room && maxSize <= room
      ensures Ok() && fresh(nodes) && this.maxSize == maxSize && nodes.Length == room && Value() == page
      ensures size == |page.kids| && nodes[..size] == page.kids
      ensures forall i :: |page.kids| <= i < room ==> nodes[i] == InternalNode(0, 0)
    {
      var kids := page.kids;
      parent, size, this.maxSize := page.parent, |kids|, maxSize;
      nodes := new InternalNode[room](i requires 0 <= i => if i < |kids| then kids[i] else InternalNode(0, 0));
      new;
      assert nodes[..size] == kids;
    }

    function GetMinSize(): nat { (maxSize + 1) / 2 }

    /** The child whose separators enclose the key; slot 0's key is never compared. */
    method Lookup(key: Key) returns (child: PageId)
      requires Ok() && size > 0
      requires forall i, j :: 1 <= i < j < size ==> nodes[i].key < nodes[j].key
      ensures exists i :: Routes(nodes[..size], key, i) && nodes[i].child == child
    {
      var first, count := 1, size - 1;
      while count > 0
        invariant 1 <= first && 0 <= count && first + count <= size
        invariant forall i :: 1 <= i < first ==> nodes[i].key < key
        invariant forall i :: first + count <= i < size ==> key <= nodes[i].key
      {
        var step := count / 2;
        var it := first + step;
        if nodes[it].key < key {
          first, count := it + 1, count - (step + 1);
        } else {
          count := step;
        }
      }
      if first == size {
        assert Routes(nodes[..size], key, size - 1);
        return nodes[size - 1].child;
      }
      if nodes[first].key == key {
        assert Routes(nodes[..size], key, first);
        return nodes[first].child;
      }
      assert Routes(nodes[..size], key, first - 1);
      return nodes[first - 1].child;
    }

    method ValueIndex(child: PageId) returns (index: nat)
      requires Ok()
      ensures index <= size
      ensures index < size ==> nodes[index].child == child
      ensures forall i :: 0 <= i < index ==> nodes[i].child != child
    {
      index := 0;
      while index < size && nodes[index].child != child
        invariant index <= size
        invariant forall i :: 0 <= i < index ==> nodes[i].child != child
      {
        index := index + 1;
      }
    }

    method PopulateNewRoot(oldChild: PageId, key: Key, newChild: PageId)
      requires Ok() && maxSize >= 2
      modifies this`size, nodes
      ensures Ok() && size == 2
      ensures nodes[..2] == [InternalNode(old(nodes[0].key), oldChild), InternalNode(key, newChild)]
    {
      nodes[0] := InternalNode(nodes[0].key, oldChild);
      nodes[1] := InternalNode(key, newChild);
      size := 2;
    }

    /** Shifts the slots after `oldChild` up by one and stores the new pair there. */
    method InsertNodeAfter(oldChild: PageId, key: Key, newChild: PageId) returns (ghost index: nat)
      requires Ok() && size < nodes.Length
      requires exists i :: 0 <= i < size && nodes[i].child == oldChild
      modifies this`size, nodes
      ensures Ok() && index < old(size) && old(nodes[index].child) == oldChild
      ensures Value() == Internal(parent, InsertAt(old(nodes[..size]), index + 1, InternalNode(key, newChild)))
    {
      var at := ValueIndex(oldChild);
      index := at;
      ghost var was := nodes[..];
      forall j | at + 1 < j <= size {
        nodes[j] := nodes[j - 1];
      }
      nodes[at + 1] := InternalNode(key, newChild);
      size := size + 1;
      assert nodes[..size] == InsertAt(was[..size - 1], at + 1, InternalNode(key, newChild));
    }

    /** Copies the upper part to the recipient; telling the moved children is up to the caller. */
    method MoveHalfTo(recipient: BtreeInternalPage)
      requires Ok() && recipient.Ok() && recipient.size == 0 && size >= GetMinSize()
      requires size - GetMinSize() <= recipient.nodes.Length && nodes != recipient.nodes && this != recipient
      modifies this`size, recipient`size, recipient.nodes
      ensures Ok() && recipient.Ok()
      ensures Value() == Internal(parent, old(nodes[..GetMinSize()]))
      ensures recipient.Value() == Internal(recipient.parent, old(nodes[GetMinSize()..size]))
    {
      var start := GetMinSize();
      var original := size;
      size := start;
      recipient.CopyNFrom(nodes, start, original - start);
      assert recipient.nodes[..recipient.size] == old(nodes[start..size]);
    }

    method CopyNFrom(items: array<InternalNode>, from: nat, count: nat)
      requires Ok() && from + count <= items.Length && size + count <= nodes.Length && items != nodes
      modifies this`size, nodes
      ensures Ok() && size == old(size) + count
      ensures nodes[..] == old(nodes[..size]) + items[from..from + count] + old(nodes[size + count..])
    {
      forall j | 0 <= j < count {
        nodes[size + j] := items[from + j];
      }
      size := size + count;
    }
  }
}
