/** The index pages of one table as the buffer pool holds them: page memory by number, how often each
    page is pinned and which pages are latched.  A page method runs in place on a typed view of the
    page's memory, as the program's `As` and `AsMut` casts do. */
module PageStores {
  import opened Bytes
  import opened Ids
  import opened BTreeModel
  import opened BTreePages

  datatype Memory = Memory(pages: map<PageId, Page>)

  /** How often each page is pinned, and which latches are held. */
  datatype Grip = Grip(pins: multiset<PageId>, reading: multiset<PageId>, writing: set<PageId>)

  const NO_GRIP := Grip(multiset{}, multiset{}, {})

  class PageStore {
    const limits: Limits
    const header: PageId
    var rootId: PageId
    var memory: Memory
    var grip: Grip

    constructor (limits: Limits, header: PageId)
      ensures memory.pages == map[] && rootId == INVALID_PAGE_ID
      ensures this.limits == limits && this.header == header && grip == NO_GRIP
    {
      this.limits, this.header, rootId := limits, header, INVALID_PAGE_ID;
      memory, grip := Memory(map[]), NO_GRIP;
    }

    // ---------- pins and latches ----------

    method FetchPage(p: PageId)
      requires p == header || p in memory.pages
      modifies `grip
      ensures grip == old(grip).(pins := old(grip).pins + multiset{p})
    {
      grip := grip.(pins := grip.pins + multiset{p});
    }

    method UnpinPage(p: PageId)
      requires p in grip.pins
      modifies `grip
      ensures grip == old(grip).(pins := old(grip).pins - multiset{p})
    {
      grip := grip.(pins := grip.pins - multiset{p});
    }

    method WLatch(p: PageId)
      requires p !in grip.writing && p !in grip.reading
      modifies `grip
      ensures grip == old(grip).(writing := old(grip).writing + {p})
    {
      grip := grip.(writing := grip.writing + {p});
    }

    method WUnlatch(p: PageId)
      requires p in grip.writing
      modifies `grip
      ensures grip == old(grip).(writing := old(grip).writing - {p})
    {
      grip := grip.(writing := grip.writing - {p});
    }

    method RLatch(p: PageId)
      requires p !in grip.writing
      modifies `grip
      ensures grip == old(grip).(reading := old(grip).reading + multiset{p})
    {
      grip := grip.(reading := grip.reading + multiset{p});
    }

    method RUnlatch(p: PageId)
      requires p in grip.reading
      modifies `grip
      ensures grip == old(grip).(reading := old(grip).reading - multiset{p})
    {
      grip := grip.(reading := grip.reading - multiset{p});
    }

    // ---------- page memory ----------

    /** A page from the pool is zeroed and pinned once; `Init` then writes the leaf header. */
    method NewLeaf(p: PageId, parent: PageId)
      requires p != header && p !in memory.pages
      modifies `grip, `memory
      ensures grip == old(grip).(pins := old(grip).pins + multiset{p})
      ensures memory.pages ==
        old(memory).pages[p := Leaf(parent, INVALID_PAGE_ID, [], seq(limits.leaf, _ => ZERO_LEAF_NODE))]
    {
      grip := grip.(pins := grip.pins + multiset{p});
      memory := Memory(memory.pages[p := Leaf(parent, INVALID_PAGE_ID, [], seq(limits.leaf, _ => ZERO_LEAF_NODE))]);
    }

    method NewInternal(p: PageId, parent: PageId)
      requires p != header && p !in memory.pages
      modifies `grip, `memory
      ensures grip == old(grip).(pins := old(grip).pins + multiset{p})
      ensures memory.pages == old(memory).pages[p := Internal(parent, [])]
    {
      grip := grip.(pins := grip.pins + multiset{p});
      memory := Memory(memory.pages[p := Internal(parent, [])]);
    }

    method SetParent(p: PageId, parent: PageId)
      requires p in memory.pages
      modifies `memory
      ensures memory.pages == old(memory).pages[p := old(memory).pages[p].(parent := parent)]
    {
      memory := Memory(memory.pages[p := memory.pages[p].(parent := parent)]);
    }

    method SetNext(p: PageId, next: PageId)
      requires p in memory.pages && memory.pages[p].Leaf?
      modifies `memory
      ensures memory.pages == old(memory).pages[p := old(memory).pages[p].(next := next)]
    {
      memory := Memory(memory.pages[p := memory.pages[p].(next := next)]);
    }

    method LeafInsert(p: PageId, key: Key, rid: Rid) returns (ghost index: nat)
      requires p in memory.pages && memory.pages[p].Leaf? && Sorted(memory.pages[p].entries)
      requires memory.pages[p].tail != []
      modifies `memory
      ensures index <= |old(memory).pages[p].entries|
      ensures var page := old(memory).pages[p];
        && (forall i :: 0 <= i < index ==> page.entries[i].key < key)
        && (forall i :: index <= i < |page.entries| ==> key <= page.entries[i].key)
        && var blocked := page.entries != [] && (page.entries + page.tail)[index].key == key;
           if blocked then memory.pages == old(memory).pages
           else memory.pages == old(memory).pages[p := Leaf(page.parent, page.next,
                                              InsertAt(page.entries, index, LeafNode(key, rid)), page.tail[1..])]
    {
      ghost var page := memory.pages[p];
      var leaf := new BtreeLeafPage.View(memory.pages[p]);
      assert leaf.nodes[leaf.size + 1..] == (page.entries + page.tail)[leaf.size + 1..] == page.tail[1..];
      index := leaf.Insert(key, rid);
      ghost var blocked := page.entries != [] && (page.entries + page.tail)[index].key == key;
      ghost var after := if blocked then page
        else Leaf(page.parent, page.next, InsertAt(page.entries, index, LeafNode(key, rid)), page.tail[1..]);
      assert leaf.Value() == after;
      memory := Memory(memory.pages[p := leaf.Value()]);
    }

    method LeafMoveHalf(p: PageId, s: PageId)
      requires p in memory.pages && s in memory.pages && p != s && memory.pages[p].Leaf? && memory.pages[s].Leaf?
      requires memory.pages[p].tail == [] && memory.pages[s].entries == [] && limits.leaf > 0
      requires |memory.pages[p].entries| == |memory.pages[s].tail| == limits.leaf
      modifies `memory
      ensures var left, right, h := old(memory).pages[p], old(memory).pages[s], limits.MinLeaf();
        && h <= |left.entries| && limits.leaf - h <= |right.tail|
        && memory.pages == old(memory).pages[p := Leaf(left.parent, left.next, left.entries[..h], left.entries[h..])]
                              [s := Leaf(right.parent, right.next, left.entries[h..], right.tail[limits.leaf - h..])]
    {
      var left, right := Halve(memory.pages[p], memory.pages[s]);
      memory := Memory(memory.pages[p := left][s := right]);
    }

    /** Both pages through their views. */
    static method Halve(full: Page, blank: Page) returns (left: Page, right: Page)
      requires full.Leaf? && blank.Leaf? && full.tail == [] && blank.entries == []
      requires |full.entries| == |blank.tail| > 0
      ensures var n, h := |full.entries|, |full.entries| / 2;
        && left == Leaf(full.parent, full.next, full.entries[..h], full.entries[h..])
        && right == Leaf(blank.parent, blank.next, full.entries[h..], blank.tail[n - h..])
    {
      var leaf := new BtreeLeafPage.View(full);
      var sibling := new BtreeLeafPage.View(blank);
      ghost var n, a, b := |full.entries|, leaf.nodes[..], sibling.nodes[..];
      assert leaf.maxSize == n && a == full.entries by { assert full.entries + [] == full.entries; }
      assert sibling.maxSize == n && b == blank.tail by { assert [] + blank.tail == blank.tail; }
      leaf.MoveHalfTo(sibling);
      left := leaf.Value();
      assert left == Leaf(full.parent, full.next, a[..n / 2], a[n / 2..]);
      right := sibling.Value();
      assert right == Leaf(blank.parent, blank.next, a[n / 2..], b[n - n / 2..]);
    }

    /** The value a leaf stores under `key`. */
    method LeafLookup(p: PageId, key: Key) returns (r: Option<Rid>)
      requires p in memory.pages && memory.pages[p].Leaf? && Sorted(memory.pages[p].entries)
      requires memory.pages[p].tail != []
      ensures match r
        case Some(rid) =>
          exists i :: 0 <= i < |memory.pages[p].entries| && memory.pages[p].entries[i] == LeafNode(key, rid)
        case None => forall i :: 0 <= i < |memory.pages[p].entries| ==> memory.pages[p].entries[i].key != key
    {
      var leaf := new BtreeLeafPage.View(memory.pages[p]);
      r := leaf.Lookup(key);
      assert forall i :: 0 <= i < leaf.size ==> memory.pages[p].entries[i] == leaf.nodes[i];
    }

    /** The child an internal page routes `key` to. */
    method InternalLookup(p: PageId, key: Key) returns (child: PageId)
      requires p in memory.pages && memory.pages[p].Internal? && 0 < |memory.pages[p].kids| <= limits.internal
      requires forall i, j :: 1 <= i < j < |memory.pages[p].kids| ==>
        memory.pages[p].kids[i].key < memory.pages[p].kids[j].key
      ensures exists i :: Routes(memory.pages[p].kids, key, i) && memory.pages[p].kids[i].child == child
    {
      var node := new BtreeInternalPage.View(memory.pages[p], limits.internal, limits.internal);
      assert forall i :: 0 <= i < node.size ==> memory.pages[p].kids[i] == node.nodes[i];
      child := node.Lookup(key);
    }

    method PopulateNewRoot(r: PageId, left: PageId, key: Key, right: PageId)
      requires r in memory.pages && memory.pages[r].Internal? && memory.pages[r].kids == [] && 2 <= limits.internal
      modifies `memory
      ensures memory.pages == old(memory).pages[r :=
        Internal(old(memory).pages[r].parent, [InternalNode(0, left), InternalNode(key, right)])]
    {
      var node := new BtreeInternalPage.View(memory.pages[r], limits.internal, limits.internal);
      node.PopulateNewRoot(left, key, right);
      memory := Memory(memory.pages[r := node.Value()]);
    }

    /** The page of a new root.  Its guard is a temporary, so it is pinned and latched only on the way. */
    method NewRootPage(r: PageId, left: PageId, key: Key, right: PageId)
      requires r != header && r !in memory.pages && 2 <= limits.internal
      requires r !in grip.writing && r !in grip.reading
      modifies `grip, `memory
      ensures grip == old(grip)
      ensures memory.pages
        == old(memory).pages[r := Internal(INVALID_PAGE_ID, [InternalNode(0, left), InternalNode(key, right)])]
    {
      NewInternal(r, INVALID_PAGE_ID);
      WLatch(r);
      WUnlatch(r);
      UnpinPage(r);
      PopulateNewRoot(r, left, key, right);
    }

    /** The page of a first leaf, pinned and latched only on the way. */
    method FirstLeafPage(p: PageId)
      requires p != header && p !in memory.pages && p !in grip.writing && p !in grip.reading
      modifies `grip, `memory
      ensures grip == old(grip)
      ensures memory.pages
        == old(memory).pages[p := Leaf(INVALID_PAGE_ID, INVALID_PAGE_ID, [], seq(limits.leaf, _ => ZERO_LEAF_NODE))]
    {
      NewLeaf(p, INVALID_PAGE_ID);
      WLatch(p);
      WUnlatch(p);
      UnpinPage(p);
    }

    /** A new page `s` takes the upper half of the full leaf `p` and follows it in the chain. */
    method SplitLeafPage(p: PageId, s: PageId)
      requires p in memory.pages && memory.pages[p].Leaf? && memory.pages[p].tail == []
      requires |memory.pages[p].entries| == limits.leaf > 0 && s != header && s !in memory.pages
      modifies `grip, `memory
      ensures grip == old(grip).(pins := old(grip).pins + multiset{s})
      ensures var page, h := old(memory).pages[p], limits.MinLeaf();
        && h < limits.leaf
        && memory.pages == old(memory).pages[p := Leaf(page.parent, s, page.entries[..h], page.entries[h..])]
                              [s := Leaf(page.parent, page.next, page.entries[h..],
                                         seq(limits.leaf, _ => ZERO_LEAF_NODE)[limits.leaf - h..])]
    {
      var page := memory.pages[p];
      NewLeaf(s, page.parent);
      LeafMoveHalf(p, s);
      SetNext(s, page.next);
      SetNext(p, s);
    }

    method InsertNodeAfter(p: PageId, left: PageId, key: Key, right: PageId) returns (ghost index: nat)
      requires p in memory.pages && memory.pages[p].Internal? && |memory.pages[p].kids| < limits.internal
      requires ListedIn(memory.pages[p].kids, left)
      modifies `memory
      ensures var page := old(memory).pages[p];
        && index < |page.kids| && page.kids[index].child == left
        && memory.pages ==
          old(memory).pages[p := Internal(page.parent, InsertAt(page.kids, index + 1, InternalNode(key, right)))]
    {
      var node := new BtreeInternalPage.View(memory.pages[p], limits.internal, limits.internal);
      assert forall i :: 0 <= i < node.size ==> memory.pages[p].kids[i] == node.nodes[i];
      index := node.InsertNodeAfter(left, key, right);
      memory := Memory(memory.pages[p := node.Value()]);
    }

    /** Splits the full internal page `p` while listing `right` after `left`: a copy with one more slot
        takes the new pair, its upper half moves to the new page `s`, and its header and lower half are
        copied back over `p`.  The moved children still name `p` as their parent. */
    method InsertThroughBuffer(p: PageId, s: PageId, left: PageId, key: Key, right: PageId) returns (ghost index: nat)
      requires p in memory.pages && memory.pages[p].Internal? && |memory.pages[p].kids| == limits.internal
      requires limits.Ok() && ListedIn(memory.pages[p].kids, left)
      requires s in memory.pages && s != p && memory.pages[s] == Internal(memory.pages[p].parent, [])
      modifies `memory
      ensures var page := old(memory).pages[p];
        && index < |page.kids| && page.kids[index].child == left
        && var all := InsertAt(page.kids, index + 1, InternalNode(key, right));
           memory.pages == old(memory).pages[s := Internal(page.parent, all[limits.MinInternal()..])]
                              [p := Internal(page.parent, all[..limits.MinInternal()])]
    {
      ghost var page := memory.pages[p];
      var copy := new BtreeInternalPage.View(memory.pages[p], limits.internal, limits.internal + 1);
      assert forall i :: 0 <= i < copy.size ==> page.kids[i] == copy.nodes[..copy.size][i];
      index := copy.InsertNodeAfter(left, key, right);
      ghost var all := InsertAt(page.kids, index + 1, InternalNode(key, right));
      var sibling := new BtreeInternalPage.View(memory.pages[s], limits.internal, limits.internal);
      assert copy.Value() == Internal(page.parent, all);
      CopyOut(p, s, copy, sibling, all);
    }

    method CopyOut(p: PageId, s: PageId, copy: BtreeInternalPage, sibling: BtreeInternalPage,
      ghost all: seq<InternalNode>)
      requires p in memory.pages && s in memory.pages && p != s && copy != sibling && copy.nodes != sibling.nodes
      requires copy.Ok() && copy.Value() == Internal(copy.parent, all) && copy.maxSize == limits.internal
      requires |all| == limits.internal + 1 && limits.Ok()
      requires sibling.size == 0 && sibling.maxSize == limits.internal == sibling.nodes.Length
      modifies `memory, copy, copy.nodes, sibling, sibling.nodes
      ensures var h := limits.MinInternal();
        memory.pages ==
          old(memory).pages[s := Internal(old(sibling.parent), all[h..])][p := Internal(old(copy.parent), all[..h])]
    {
      assert copy.nodes[..copy.GetMinSize()] == all[..limits.MinInternal()];
      assert copy.nodes[copy.GetMinSize()..copy.size] == all[limits.MinInternal()..];
      copy.MoveHalfTo(sibling);
      memory := Memory(memory.pages[s := sibling.Value()]);
      memory := Memory(memory.pages[p := Internal(copy.parent, copy.nodes[..copy.GetMinSize()])]);
    }

    /** Every child listed by `s` learns that `s` is now its parent; each is pinned only for the write. */
    method ReparentChildren(s: PageId)
      requires s in memory.pages && memory.pages[s].Internal?
      requires forall i :: 0 <= i < |memory.pages[s].kids| ==> memory.pages[s].kids[i].child in memory.pages
      modifies `grip, `memory
      ensures grip == old(grip)
      ensures memory.pages == Reparented(old(memory).pages, old(memory).pages[s].kids, s)
    {
      ghost var was, kids := memory.pages, memory.pages[s].kids;
      var i, size := 0, |memory.pages[s].kids|;
      while i < size
        invariant grip == old(grip)
        invariant i <= size == |kids| && memory.pages.Keys == was.Keys
        invariant memory.pages[s] == Internal(memory.pages[s].parent, kids)
        invariant memory.pages == Adopted(was, kids, i, s)
      {
        var child := memory.pages[s].kids[i].child;
        FetchPage(child);
        SetParent(child, s);
        UnpinPage(child);
        i := i + 1;
      }
      assert kids[..i] == kids;
      AdoptedIsReparented(was, kids, i, s);
    }
  }
}
