/** Inserting into and searching the B+ tree index, with the latches and pins one operation holds. */
module BTreeIndexes {
  import opened Bytes
  import opened Ids
  import opened BTreeModel
  import opened BTreeSteps
  import opened BTreeTheorems
  import opened PageStores
  import TableMetas

  /** `EmptyPageSet` is the program taking the front of an empty page set. */
  datatype InsertResult = Done(inserted: bool) | EmptyPageSet

  /** What the index means: the spans of its pages and the map it stands for. */
  datatype Shadow = Shadow(span: map<PageId, Span>, contents: map<Key, Rid>)

  class Transaction {
    var pageSet: seq<PageId>

    constructor ()
      ensures pageSet == []
    {
      pageSet := [];
    }
  }

  ghost function Elements(s: seq<PageId>): set<PageId> { set p | p in s }

  class BTreeIndex {
    const store: PageStore
    const meta: TableMetas.TableMeta
    const rule: SafetyRule
    ghost var shadow: Shadow

    ghost function T(): Tree
      reads `shadow, store`rootId, store`memory
    {
      Tree(store.limits, store.rootId, store.memory.pages, shadow.span)
    }

    ghost function St(): State
      reads `shadow, store`rootId, store`memory, meta`lastTableDataPageId
    {
      State(T(), shadow.contents, meta.lastTableDataPageId)
    }

    /** Latches are held on allocated pages only. */
    static ghost predicate Known(grip: Grip, last: PageId) {
      && (forall p :: p in grip.writing ==> p <= last)
      && (forall p :: p in grip.reading ==> p <= last)
    }

    /** Page numbers come from the table's counter, so the next one is new. */
    ghost predicate Ready()
      reads `shadow, store`rootId, store`memory, meta`lastTableDataPageId
    {
      && store.limits.Ok() && store.header !in store.memory.pages
      && 0 <= store.header <= meta.lastTableDataPageId
      && Numbered(T(), meta.lastTableDataPageId)
    }

    ghost predicate Shaped(pend: Pending)
      reads `shadow, store`rootId, store`memory, meta`lastTableDataPageId
    {
      Ready() && Inv(T(), pend)
    }

    ghost predicate Valid()
      reads `shadow, store, meta`lastTableDataPageId
    {
      Ready() && Known(store.grip, meta.lastTableDataPageId) && Good(St())
    }

    /** A new index: its header page is allocated and names no root. */
    constructor (limits: Limits, meta: TableMetas.TableMeta, rule: SafetyRule)
      requires limits.Ok() && INVALID_PAGE_ID <= meta.lastTableDataPageId
      modifies meta`lastTableDataPageId
      ensures Valid() && shadow.contents == map[] && store.rootId == INVALID_PAGE_ID
      ensures fresh(store) && this.meta == meta && this.rule == rule
      ensures store.limits == limits && store.grip == NO_GRIP
      ensures store.header == meta.lastTableDataPageId == old(meta.lastTableDataPageId) + 1 && store.rootId == -1
    {
      var id := meta.IncrementTableDataPageId();
      this.meta, this.rule := meta, rule;
      store := new PageStore(limits, id);
      shadow := Shadow(map[], map[]);
    }

    /** The pages of a store with spans and a map to go with them. */
    static ghost function Seen(store: PageStore, shadow: Shadow, last: PageId): State
      reads store
    {
      State(Tree(store.limits, store.rootId, store.memory.pages, shadow.span), shadow.contents, last)
    }

    /** An index whose header page is there already: it stands for the one map its pages hold. */
    constructor Open(store: PageStore, meta: TableMetas.TableMeta, rule: SafetyRule)
      requires store.limits.Ok() && store.header !in store.memory.pages && Known(store.grip, meta.lastTableDataPageId)
      requires 0 <= store.header <= meta.lastTableDataPageId
      requires exists shadow :: Good(Seen(store, shadow, meta.lastTableDataPageId))
      ensures Valid() && this.store == store && this.meta == meta && this.rule == rule
      ensures forall shadow :: Good(Seen(store, shadow, meta.lastTableDataPageId)) ==> shadow == this.shadow
    {
      ghost var last := meta.lastTableDataPageId;
      ghost var seen: Shadow :| Good(Seen(store, seen, last));
      this.store, this.meta, this.rule, this.shadow := store, meta, rule, seen;
      forall shadow | Good(Seen(store, shadow, last)) ensures shadow == seen {
        PagesDecideState(Seen(store, shadow, last), Seen(store, seen, last));
      }
    }

    // ---------- the page set ----------

    /** The pages of a page set are pinned once each for it and latched for writing. */
    static ghost predicate Gripped(grip: Grip, s: seq<PageId>) {
      && multiset(s) <= grip.pins
      && Elements(s) <= grip.writing
      && multiset(s) == multiset(Elements(s))
    }

    static ghost function Released(grip: Grip, s: seq<PageId>): Grip {
      grip.(pins := grip.pins - multiset(s), writing := grip.writing - Elements(s))
    }

    static lemma ReleasedFirst(grip: Grip, s: seq<PageId>)
      requires s != []
      ensures Released(Released(grip, s[..1]), s[1..]) == Released(grip, s)
      ensures Released(grip, s[..1]) == grip.(pins := grip.pins - multiset{s[0]}, writing := grip.writing - {s[0]})
    {
      assert s == s[..1] + s[1..];
      assert multiset(s) == multiset(s[..1]) + multiset(s[1..]);
      assert s[..1] == [s[0]];
      assert Elements(s) == Elements(s[..1]) + Elements(s[1..]);
    }

    method ReleaseFront(txn: Transaction)
      requires Gripped(store.grip, txn.pageSet) && txn.pageSet != []
      modifies txn, store`grip
      ensures txn.pageSet == old(txn.pageSet)[1..] && Gripped(store.grip, txn.pageSet)
      ensures store.grip == Released(old(store.grip), old(txn.pageSet)[..1])
      ensures store.grip.writing <= old(store.grip).writing
    {
      ReleasedFirst(store.grip, txn.pageSet);
      ghost var was := txn.pageSet;
      var page := txn.pageSet[0];
      assert page in was && was == [page] + was[1..];
      assert page in multiset(was) && page in Elements(was);
      txn.pageSet := txn.pageSet[1..];
      store.WUnlatch(page);
      store.UnpinPage(page);
      assert multiset(was) == multiset{page} + multiset(was[1..]);
      assert multiset(was[1..])[page] == 0;
      assert Elements(was[1..]) == Elements(was) - {page};
    }

    /** Unlatches and unpins every page still in the set, front first. */
    method ReleaseParentWriteLatches(txn: Transaction)
      requires Gripped(store.grip, txn.pageSet)
      modifies txn, store`grip
      ensures txn.pageSet == [] && store.grip == Released(old(store.grip), old(txn.pageSet))
      ensures store.grip.writing <= old(store.grip).writing
    {
      ghost var goal := Released(store.grip, txn.pageSet);
      while txn.pageSet != []
        invariant store.grip.writing <= old(store.grip).writing
        invariant Gripped(store.grip, txn.pageSet) && Released(store.grip, txn.pageSet) == goal
        decreases |txn.pageSet|
      {
        ReleasedFirst(store.grip, txn.pageSet);
        ReleaseFront(txn);
      }
      assert Released(store.grip, []) == store.grip;
    }

    // ---------- growing the tree upwards ----------

    /** The old root and its sibling get a new root, and the header is told. */
    method GrowRoot(original: PageId, sibling: PageId, key: Key)
      requires Shaped(Split(original, sibling)) && original == store.rootId && key == Sp(T(), sibling).lo
      requires Known(store.grip, meta.lastTableDataPageId)
      modifies `shadow, store, meta`lastTableDataPageId
      ensures Shaped(Whole)
      ensures Grown(T(), meta.lastTableDataPageId) == old(Told(T(), original, sibling, meta.lastTableDataPageId))
      ensures store.rootId in store.memory.pages
        && store.memory.pages[store.rootId] == Internal(-1, [InternalNode(0, original), InternalNode(key, sibling)])
      ensures store.grip == old(store.grip) && shadow == old(shadow).(span := shadow.span)
    {
      ghost var t := T();
      var id := meta.IncrementTableDataPageId();
      RootGrownKeepsInv(t, original, sibling, id);
      store.NewRootPage(id, original, key, sibling);
      store.SetParent(original, id);
      store.SetParent(sibling, id);
      store.rootId := id;
      shadow := shadow.(span := shadow.span[id := Span(KEY_MIN, KEY_END, Sp(t, original).level + 1)]);
      assert T() == RootGrown(t, original, sibling, id);
    }

    /** The entries of `was` with `x` behind the one for `left`: the first `h` of them are in `a`, the others in `b`. */
    static ghost predicate Halved(was: Page, a: Page, b: Page, left: PageId, x: InternalNode, h: nat) {
      && was.Internal? && a.Internal? && b.Internal? && |a.kids| == h
      && exists i :: 0 <= i < |was.kids| && was.kids[i].child == left
                     && a.kids + b.kids == was.kids[..i + 1] + [x] + was.kids[i + 1..]
    }

    /** A full parent is split through the working copy; the new right half waits for its own parent. */
    method SplitParent(parent: PageId, original: PageId, sibling: PageId, key: Key) returns (s: PageId, risen: Key)
      requires Shaped(Split(original, sibling)) && original != store.rootId && key == Sp(T(), sibling).lo
      requires parent == store.memory.pages[original].parent && parent in store.memory.pages
      requires store.memory.pages[parent].Internal? && |store.memory.pages[parent].kids| == store.limits.internal
      modifies `shadow, store, meta`lastTableDataPageId
      ensures Shaped(Split(parent, s)) && s == meta.lastTableDataPageId == old(meta.lastTableDataPageId) + 1
      ensures T() == ParentSplit(old(T()), original, sibling, s) && risen == Sp(T(), s).lo
      ensures parent in store.memory.pages && s in store.memory.pages
      ensures Halved(old(store.memory).pages[parent], store.memory.pages[parent], store.memory.pages[s],
                     original, InternalNode(key, sibling), (store.limits.internal + 1) / 2)
      ensures store.grip == old(store.grip).(pins := old(store.grip).pins + multiset{s})
      ensures shadow == old(shadow).(span := shadow.span)
    {
      hide Inv, ParentSplit, Reparented, InsertAt, ListedIn, BTreeIndex.Halved;
      ghost var t := T();
      SplitHasParent(t, original, sibling);
      s := meta.IncrementTableDataPageId();
      store.NewInternal(s, store.memory.pages[parent].parent);
      ghost var index := store.InsertThroughBuffer(parent, s, original, key, sibling);
      SplitParentSteps(t, original, sibling, index, s, store.memory.pages);
      store.ReparentChildren(s);
      risen := store.memory.pages[s].kids[0].key;
      shadow := shadow.(span := ParentSplit(t, original, sibling, s).span);
    }

    /** What the page work of `SplitParent` adds up to. */
    static lemma SplitParentSteps(t: Tree, l: PageId, r: PageId, i: nat, s: PageId, pages: map<PageId, Page>)
      requires Inv(t, Split(l, r)) && l != t.root && s !in t.pages && s != INVALID_PAGE_ID && ParentIsFull(t, l)
      requires i < |t.pages[t.pages[l].parent].kids| && t.pages[t.pages[l].parent].kids[i].child == l
      requires KEY_MIN <= Sp(t, r).lo < KEY_END && r in t.pages
      requires var p := t.pages[l].parent; var all := ParentInserted(t, l, r, i).pages[p].kids;
        && t.limits.MinInternal() <= |all|
        && pages == t.pages[s := Internal(t.pages[p].parent, all[t.limits.MinInternal()..])]
                           [p := Internal(t.pages[p].parent, all[..t.limits.MinInternal()])]
      ensures var (p, u) := (t.pages[l].parent, ParentSplit(t, l, r, s));
        && (forall i :: 0 <= i < |pages[s].kids| ==> pages[s].kids[i].child in pages)
        && Reparented(pages, pages[s].kids, s) == u.pages && u.limits == t.limits && u.root == t.root
        && u.pages.Keys == t.pages.Keys + {s} && pages.Keys == u.pages.Keys
        && Inv(u, Split(p, s)) && u.pages[s].Internal? && u.pages[s].kids != [] && u.pages[s].kids[0].key == Sp(u, s).lo
        && p in u.pages
        && Halved(t.pages[p], u.pages[p], u.pages[s], l, InternalNode(Sp(t, r).lo, r), (t.limits.internal + 1) / 2)
    {
      hide BTreeIndex.Halved, Inv;
      var p := t.pages[l].parent;
      ListedKeepsInv(t, l, r);
      var t1 := Listed(t, l, r);
      MovedChildren(t1, p, s);
      SplitKids(t1, p, s, pages);
      SplitIsOne(t1, p, s);
      ParentSplitIs(t, l, r, s);
      ParentHalved(t.pages[p], t1.pages[p], i, l, InternalNode(Sp(t, r).lo, r), (t.limits.internal + 1) / 2);
    }

    static lemma ParentHalved(was: Page, all: Page, i: nat, l: PageId, x: InternalNode, h: nat)
      requires was.Internal? && i < |was.kids| && was.kids[i].child == l && h <= |was.kids|
      requires all == was.(kids := InsertAt(was.kids, i + 1, x))
      ensures Halved(was, all.(kids := all.kids[..h]), all.(kids := all.kids[h..]), l, x, h)
    {
      assert all.kids[..h] + all.kids[h..] == all.kids == was.kids[..i + 1] + [x] + was.kids[i + 1..];
    }

    static lemma SplitKids(t: Tree, p: PageId, s: PageId, pages: map<PageId, Page>)
      requires CanSplitInternal(t, p, s)
      requires pages.Keys == t.pages.Keys + {s}
      requires forall q :: q in t.pages && q != p ==> pages[q] == t.pages[q]
      requires t.limits.MinInternal() <= |t.pages[p].kids|
      requires pages[p] == t.pages[p].(kids := t.pages[p].kids[..t.limits.MinInternal()])
      requires pages[s] == t.pages[p].(kids := t.pages[p].kids[t.limits.MinInternal()..])
      ensures forall i :: 0 <= i < |pages[s].kids| ==> pages[s].kids[i].child in pages
      ensures Reparented(pages, pages[s].kids, s) == InternalSplit(t, p, s).pages
    {
      MovedChildren(t, p, s);
      var kids, h := t.pages[p].kids, t.limits.MinInternal();
      forall i | 0 <= i < |pages[s].kids| ensures pages[s].kids[i].child in pages {
        assert ListedIn(kids[h..], kids[h..][i].child);
      }
      var split := t.pages[p := t.pages[p].(kids := kids[..h])][s := t.pages[p].(kids := kids[h..])];
      forall q | q in pages ensures q in split && pages[q] == split[q] {}
      assert pages == split;
    }

    /** Pins taken on top of the page set stay when the page set is released. */
    static lemma ReleasedAround(grip: Grip, extra: multiset<PageId>, s: seq<PageId>)
      requires Gripped(grip, s)
      ensures var more := grip.(pins := grip.pins + extra);
        && Gripped(more, s)
        && Released(more, s) == Released(grip, s).(pins := Released(grip, s).pins + extra)
    {}

    /** Facts about the parent of a split node that is not the root. */
    static lemma ParentFacts(t: Tree, u: Tree, l: PageId, r: PageId, held: seq<PageId>, header: PageId)
      requires Inv(t, Split(l, r)) && l != t.root
      ensures var p := t.pages[l].parent;
        && p in t.pages && t.pages[p].Internal? && ListedIn(t.pages[p].kids, l)
        && |t.pages[p].kids| <= t.limits.internal
        && Sp(t, l).level < Sp(t, p).level <= Sp(t, t.root).level && p != r
        && KEY_MIN <= Sp(t, r).lo < KEY_END
        && (IsFull(t.limits, t.pages[p]) ==> ReachesRoot(t, l) == ReachesRoot(t, p))
        && (!IsFull(t.limits, t.pages[p]) ==> !ReachesRoot(t, l))
        && (Held(t, l, held, header) ==> p in held)
        && (Held(t, l, held, header) && IsFull(t.limits, t.pages[p]) ==> Held(t, p, held, header))
        && (p in u.pages && u.pages[p].parent == t.pages[p].parent && SameAbove(t, u, Sp(t, p).level) ==>
              ReachesRoot(t, p) == ReachesRoot(u, p) && Held(t, p, held, header) == Held(u, p, held, header))
    {
      SplitHasParent(t, l, r);
      InvLinked(t, Split(l, r));
      var p := t.pages[l].parent;
      assert NodeOk(t, r, Split(l, r)) && NodeOk(t, p, Split(l, r));
      if p in u.pages && u.pages[p].parent == t.pages[p].parent && SameAbove(t, u, Sp(t, p).level) {
        ClimbsAlike(t, u, p, held, header);
      }
    }

    /** The parent has room: the sibling is listed after the original node. */
    method ListSibling(parent: PageId, original: PageId, sibling: PageId, key: Key)
      requires Shaped(Split(original, sibling)) && original != store.rootId && key == Sp(T(), sibling).lo
      requires parent == store.memory.pages[original].parent && parent in store.memory.pages
      requires store.memory.pages[parent].Internal? && |store.memory.pages[parent].kids| < store.limits.internal
      modifies store`memory
      ensures Shaped(Whole)
      ensures Grown(T(), meta.lastTableDataPageId) == old(Told(T(), original, sibling, meta.lastTableDataPageId))
    {
      ghost var t := T();
      SplitHasParent(t, original, sibling);
      ghost var index := store.InsertNodeAfter(parent, original, key, sibling);
      ListedKeepsInv(t, original, sibling);
      ListedIs(t, original, sibling);
      assert T() == ParentInserted(t, original, sibling, index);
    }

    method InsertAtRoot(original: PageId, sibling: PageId, key: Key, txn: Transaction) returns (ok: bool)
      requires Shaped(Split(original, sibling)) && original == store.rootId && key == Sp(T(), sibling).lo
      requires Known(store.grip, meta.lastTableDataPageId)
      requires Gripped(store.grip, txn.pageSet)
      modifies `shadow, store, meta`lastTableDataPageId, txn
      ensures ok <==> old(txn.pageSet) != []
      ensures Shaped(Whole)
      ensures Grown(T(), meta.lastTableDataPageId) == old(Told(T(), original, sibling, meta.lastTableDataPageId))
      ensures ok ==> txn.pageSet == [] && store.grip == Released(old(store.grip), old(txn.pageSet))
      ensures shadow == old(shadow).(span := shadow.span)
    {
      hide BTreeIndex.Gripped, BTreeIndex.Released;
      GrowRoot(original, sibling, key);
      if txn.pageSet == [] {
        return false;
      }
      ReleasedFirst(store.grip, txn.pageSet);
      ReleaseFront(txn);
      ReleaseParentWriteLatches(txn);
      ok := true;
    }

    method InsertInParent(parent: PageId, original: PageId, sibling: PageId, key: Key, txn: Transaction)
      requires Shaped(Split(original, sibling)) && original != store.rootId && key == Sp(T(), sibling).lo
      requires parent == store.memory.pages[original].parent && parent in store.memory.pages
      requires store.memory.pages[parent].Internal? && |store.memory.pages[parent].kids| < store.limits.internal
      requires Gripped(store.grip, txn.pageSet)
      modifies store`memory, store`grip, txn
      ensures Shaped(Whole)
      ensures Grown(T(), meta.lastTableDataPageId) == old(Told(T(), original, sibling, meta.lastTableDataPageId))
      ensures txn.pageSet == [] && store.grip == Released(old(store.grip), old(txn.pageSet))
    {
      hide BTreeIndex.Gripped, BTreeIndex.Released;
      ReleasedAround(store.grip, multiset{parent}, txn.pageSet);
      store.FetchPage(parent);
      ListSibling(parent, original, sibling, key);
      ReleaseParentWriteLatches(txn);
      store.UnpinPage(parent);
    }

    /** Pins the full parent and splits it; the pins of both halves stay until the parent's parent knows. */
    method FetchAndSplit(parent: PageId, original: PageId, sibling: PageId, key: Key) returns (s: PageId, risen: Key)
      requires Shaped(Split(original, sibling)) && original != store.rootId && key == Sp(T(), sibling).lo
      requires parent == store.memory.pages[original].parent && parent in store.memory.pages
      requires store.memory.pages[parent].Internal? && |store.memory.pages[parent].kids| == store.limits.internal
      modifies `shadow, store, meta`lastTableDataPageId
      ensures Shaped(Split(parent, s)) && s == meta.lastTableDataPageId == old(meta.lastTableDataPageId) + 1
      ensures T() == ParentSplit(old(T()), original, sibling, s) && risen == Sp(T(), s).lo
      ensures store.grip == old(store.grip).(pins := old(store.grip).pins + (multiset{parent} + multiset{s}))
      ensures shadow == old(shadow).(span := shadow.span)
    {
      store.FetchPage(parent);
      s, risen := SplitParent(parent, original, sibling, key);
    }

    method UnpinBoth(p: PageId, s: PageId, ghost pins: multiset<PageId>)
      requires store.grip.pins == pins + (multiset{p} + multiset{s})
      modifies store`grip
      ensures store.grip == old(store.grip).(pins := pins)
    {
      store.UnpinPage(p);
      store.UnpinPage(s);
      assert pins + (multiset{p} + multiset{s}) - multiset{p} - multiset{s} == pins;
    }

    /** Tells the parent about a split, splitting ancestors as far as they are full.  Of the internal pages that were
        there exactly those of the climb have other entries afterwards, and all of them are latched if what the climb
        needs is held.  A root split takes the header from the front of the page set, which must not be empty then. */
    method InsertIntoParent(original: PageId, sibling: PageId, key: Key, txn: Transaction) returns (ok: bool)
      requires Shaped(Split(original, sibling)) && key == Sp(T(), sibling).lo
      requires Gripped(store.grip, txn.pageSet) && Known(store.grip, meta.lastTableDataPageId)
      requires txn.pageSet != [] && ReachesRoot(T(), original) ==> txn.pageSet[0] == store.header
      modifies `shadow, store, meta`lastTableDataPageId, txn
      ensures ok <==> !(old(ReachesRoot(T(), original)) && old(txn.pageSet) == [])
      ensures Shaped(Whole)
      ensures Grown(T(), meta.lastTableDataPageId) == old(Told(T(), original, sibling, meta.lastTableDataPageId))
      ensures SameLeaves(old(store.memory).pages, store.memory.pages)
      ensures KidsChanged(old(store.memory).pages, store.memory.pages, old(Climb(T(), original)))
      ensures old(Held(T(), original, txn.pageSet, store.header)) ==>
        old(Climb(T(), original)) <= old(store.grip).writing
      ensures ok ==> txn.pageSet == [] && store.grip == Released(old(store.grip), old(txn.pageSet))
      ensures shadow == old(shadow).(span := shadow.span)
      decreases Sp(T(), store.rootId).level - Sp(T(), original).level
    {
      hide BTreeIndex.Gripped, BTreeIndex.Released, SameLeaves, KidsChanged, Inv, ParentSplit;
      ghost var t, held, grip := T(), txn.pageSet, store.grip;
      RootHasNoParent(t, original, sibling);
      var parent := store.memory.pages[original].parent;
      ToldChanges(t, original, sibling, meta.lastTableDataPageId);
      ClimbIsLatched(t, original, held, store.header, grip);
      if parent == INVALID_PAGE_ID {
        ok := InsertAtRoot(original, sibling, key, txn);
        return;
      }
      ParentFacts(t, t, original, sibling, held, store.header);
      if |store.memory.pages[parent].kids| < store.limits.internal {
        InsertInParent(parent, original, sibling, key, txn);
        return true;
      }
      var newSibling, newKey := FetchAndSplit(parent, original, sibling, key);
      ParentSplitIs(t, original, sibling, newSibling);
      ParentFacts(t, T(), original, sibling, held, store.header);
      ReleasedAround(grip, multiset{parent} + multiset{newSibling}, held);
      ok := InsertIntoParent(parent, newSibling, newKey, txn);
      if ok {
        UnpinBoth(parent, newSibling, Released(grip, held).pins);
      }
    }

    static lemma ClimbIsLatched(t: Tree, p: PageId, held: seq<PageId>, header: PageId, grip: Grip)
      requires Gripped(grip, held)
      ensures Held(t, p, held, header) ==> Climb(t, p) <= grip.writing
    {
      if Held(t, p, held, header) {
        HeldCovers(t, p, held, header);
        forall q | q in Climb(t, p) ensures q in grip.writing { assert q in Elements(held); }
      }
    }

    static lemma RootHasNoParent(t: Tree, l: PageId, r: PageId)
      requires Inv(t, Split(l, r))
      ensures t.pages[l].parent == INVALID_PAGE_ID <==> l == t.root
      ensures l == t.root ==> ReachesRoot(t, l)
      ensures l in t.pages && t.limits.Ok()
    {
      assert NodeOk(t, l, Split(l, r));
      assert ParentOk(t, l, Split(l, r));
    }

    // ---------- descending ----------

    /** A node an insert below cannot split.  The comment asks that one more entry stay under the leaf's
        maximum; the test written only asks that the leaf be under it now. */
    method IsSafeNode(p: PageId) returns (safe: bool)
      requires p in store.memory.pages
      ensures safe <==> Safe(rule, store.limits, store.memory.pages[p])
      ensures var page := store.memory.pages[p];
        safe <==> match page
                  case Leaf(_, _, entries, _) =>
                    (if rule.AsWritten? then |entries| else |entries| + 1) < store.limits.leaf
                  case Internal(_, kids) => |kids| < store.limits.internal
    {
      if store.memory.pages[p].Leaf? {
        var size := |store.memory.pages[p].entries|;
        return if rule.AsWritten? then size < store.limits.leaf else size + 1 < store.limits.leaf;
      }
      return |store.memory.pages[p].kids| < store.limits.internal;
    }

    /** What a descent holds when it stands on `page`: the page itself, and above it the page set. */
    static ghost predicate Standing(grip: Grip, page: PageId, ps: seq<PageId>, base: multiset<PageId>) {
      && grip.pins == base + multiset(ps) + multiset{page}
      && grip.writing == Elements(ps) + {page}
      && multiset(ps) == multiset(Elements(ps)) && page !in ps
    }

    static lemma SetGrows(ps: seq<PageId>, page: PageId)
      requires multiset(ps) == multiset(Elements(ps)) && page !in ps
      ensures Elements(ps + [page]) == Elements(ps) + {page}
      ensures multiset(ps + [page]) == multiset(ps) + multiset{page} == multiset(Elements(ps) + {page})
    {
      var all := ps + [page];
      assert forall q :: q in all <==> q in ps || q == page;
      assert page !in Elements(ps);
      assert multiset(Elements(ps)) + multiset{page} == multiset(Elements(ps) + {page});
    }

    static lemma StandingBelow(grip: Grip, page: PageId, child: PageId, ps: seq<PageId>, base: multiset<PageId>)
      requires Standing(grip, page, ps, base) && child !in ps + [page]
      ensures child !in grip.writing
      ensures var down := grip.(pins := grip.pins + multiset{child}, writing := grip.writing + {child});
        && Gripped(down, ps + [page])
        && Standing(down, child, ps + [page], base)
        && Standing(Released(down, ps + [page]), child, [], base)
    {
      SetGrows(ps, page);
      var (m, e) := (multiset(ps + [page]), Elements(ps + [page]));
      assert child !in e;
      assert e + {child} - e == {child};
      MultisetBack(base, m, multiset{child});
      assert Elements([]) == {};
    }

    static lemma MultisetBack(a: multiset<PageId>, b: multiset<PageId>, c: multiset<PageId>)
      ensures a + b + c - b == a + c
    {}

    static lemma CrabbedBelow(rule: SafetyRule, header: PageId, t: Tree, page: PageId, child: PageId)
      requires Inv(t, Whole) && page in t.pages && header !in t.pages && child in t.pages && child != t.root
      requires t.pages[child].parent == page && Sp(t, child).level + 1 == Sp(t, page).level
      ensures Crabbed(rule, header, t, child)
        == if Safe(rule, t.limits, t.pages[child]) then [] else Crabbed(rule, header, t, page) + [page]
      ensures child !in Crabbed(rule, header, t, page) + [page]
    {
      InvLinked(t, Whole);
      if child in Crabbed(rule, header, t, page) { CrabbedAbove(rule, header, t, page, child); }
    }

    /** One step down: pin and latch the child, put the page into the set, release the set if the child is safe. */
    method StepDown(page: PageId, child: PageId, txn: Transaction, ghost t: Tree, ghost base: multiset<PageId>)
      requires t == T() && Inv(t, Whole) && store.header !in t.pages && child in t.pages && child != t.root
      requires page in t.pages && t.pages[child].parent == page && Sp(t, child).level + 1 == Sp(t, page).level
      requires Standing(store.grip, page, txn.pageSet, base) && txn.pageSet == Crabbed(rule, store.header, t, page)
      requires store.grip.reading == multiset{}
      modifies store`grip, txn
      ensures store.grip.reading == old(store.grip).reading
      ensures Standing(store.grip, child, txn.pageSet, base) && txn.pageSet == Crabbed(rule, store.header, t, child)
      ensures txn.pageSet == if Safe(rule, t.limits, t.pages[child]) then [] else old(txn.pageSet) + [page]
    {
      hide BTreeIndex.Gripped, BTreeIndex.Standing, Crabbed, Inv;
      CrabbedBelow(rule, store.header, t, page, child);
      StandingBelow(store.grip, page, child, txn.pageSet, base);
      var safe := IsSafeNode(child);
      store.FetchPage(child);
      store.WLatch(child);
      txn.pageSet := txn.pageSet + [page];
      if safe {
        ReleaseParentWriteLatches(txn);
      }
    }

    /** Descends to the leaf for `key`, latching on the way; the page set starts with the header alone. */
    method SearchLeafPage(key: Key, txn: Transaction, ghost base: multiset<PageId>) returns (leaf: PageId)
      requires Shaped(Whole) && txn.pageSet == [store.header]
      requires store.grip.pins == base + multiset{store.header} && store.grip.writing == {store.header}
      requires store.grip.reading == multiset{}
      modifies store`grip, txn
      ensures store.grip.reading == old(store.grip).reading
      ensures leaf == LeafFor(T(), key)
      ensures Standing(store.grip, leaf, txn.pageSet, base) && txn.pageSet == Crabbed(rule, store.header, T(), leaf)
    {
      ghost var t := T();
      RootCovers(t, key);
      var page := store.rootId;
      store.FetchPage(page);
      store.WLatch(page);
      assert Elements([store.header]) == {store.header};
      while store.memory.pages[page].Internal?
        invariant page in store.memory.pages && Covers(t, page, key) && store.grip.reading == old(store.grip).reading
        invariant Standing(store.grip, page, txn.pageSet, base) && txn.pageSet == Crabbed(rule, store.header, t, page)
        decreases Sp(t, page).level
      {
        assert NodeOk(t, page, Whole);
        assert SeparatorsOk(t.pages[page].kids, Sp(t, page).lo, Sp(t, page).hi);
        var child := store.InternalLookup(page, key);
        ghost var i :| Routes(t.pages[page].kids, key, i) && t.pages[page].kids[i].child == child;
        ChildCovers(t, page, i, key);
        StepDown(page, child, txn, t, base);
        page := child;
      }
      leaf := page;
    }

    // ---------- inserting into a leaf ----------

    /** The upper half of a leaf that reached its maximum moves to a new leaf, which follows it in the chain. */
    method SplitLeaf(leaf: PageId) returns (s: PageId, risen: Key)
      requires Shaped(Over(leaf)) && leaf in store.memory.pages && store.memory.pages[leaf].Leaf?
      requires |store.memory.pages[leaf].entries| == store.limits.leaf
      modifies `shadow, store`memory, store`grip, meta`lastTableDataPageId
      ensures s == meta.lastTableDataPageId == old(meta.lastTableDataPageId) + 1
      ensures s !in old(store.memory).pages && T() == LeafSplit(old(T()), leaf, s)
      ensures Shaped(Split(leaf, s)) && risen == Sp(T(), s).lo
      ensures var (was, now, h) := (old(store.memory).pages[leaf], store.memory.pages, store.limits.leaf / 2);
        && leaf in now && s in now && now[leaf].Leaf? && now[s].Leaf? && h < |was.entries|
        && now[leaf].entries == was.entries[..h] && now[s].entries == was.entries[h..]
        && now[leaf].next == s && now[s].next == was.next && risen == was.entries[h].key
      ensures store.grip == old(store.grip).(pins := old(store.grip).pins + multiset{s})
      ensures shadow == old(shadow).(span := shadow.span)
    {
      hide Inv, LeafSplit;
      ghost var t := T();
      AtMaximum(t, leaf);
      s := meta.IncrementTableDataPageId();
      LeafSplitKeepsInv(t, leaf, s);
      LeafSplitNext(t, leaf, s);
      store.SplitLeafPage(leaf, s);
      risen := store.memory.pages[s].entries[0].key;
      shadow := shadow.(span := LeafSplit(t, leaf, s).span);
      LeafSplitPages(t, leaf, s, store.memory.pages);
    }

    static lemma AtMaximum(t: Tree, leaf: PageId)
      requires Inv(t, Over(leaf)) && leaf in t.pages && t.pages[leaf].Leaf? && |t.pages[leaf].entries| == t.limits.leaf
      ensures t.pages[leaf].tail == [] && t.limits.Ok()
    {
      assert NodeOk(t, leaf, Over(leaf));
    }

    static lemma LeafSplitNext(t: Tree, p: PageId, s: PageId)
      requires p in t.pages && t.pages[p].Leaf? && |t.pages[p].entries| == t.limits.leaf && t.limits.Ok() && p != s
      ensures var u := LeafSplit(t, p, s);
        && u.limits == t.limits && u.root == t.root && u.pages.Keys == t.pages.Keys + {s}
        && Sp(u, s).lo == t.pages[p].entries[t.limits.MinLeaf()..][0].key
    {}

    static lemma LeafSplitPages(t: Tree, p: PageId, s: PageId, pages: map<PageId, Page>)
      requires p in t.pages && t.pages[p].Leaf? && |t.pages[p].entries| == t.limits.leaf && t.limits.Ok() && p != s
      requires t.pages[p].tail == [] && pages.Keys == t.pages.Keys + {s}
      requires forall q :: q in t.pages && q != p && q != s ==> pages[q] == t.pages[q]
      requires var page, h := t.pages[p], t.limits.MinLeaf();
        && pages[p] == Leaf(page.parent, s, page.entries[..h], page.entries[h..])
        && pages[s] == Leaf(page.parent, page.next, page.entries[h..],
                            seq(t.limits.leaf, _ => ZERO_LEAF_NODE)[t.limits.leaf - h..])
      ensures pages == LeafSplit(t, p, s).pages
    {
      var page, h := t.pages[p], t.limits.MinLeaf();
      assert seq(t.limits.leaf, _ => ZERO_LEAF_NODE)[t.limits.leaf - h..] == seq(h, _ => ZERO_LEAF_NODE);
      assert page.entries[h..] + page.tail == page.entries[h..];
      var u := LeafSplit(t, p, s);
      forall q | q in pages ensures pages[q] == u.pages[q] {}
    }

    static lemma StandingOnSplit(grip: Grip, leaf: PageId, s: PageId, ps: seq<PageId>, base: multiset<PageId>)
      requires Standing(grip, leaf, ps, base)
      ensures var more := grip.(pins := grip.pins + multiset{s});
        && Gripped(more, ps) && Gripped(grip, ps)
        && Released(more, ps) == Grip(base + (multiset{leaf} + multiset{s}), grip.reading, {leaf})
        && Released(grip, ps) == Grip(base + multiset{leaf}, grip.reading, {leaf})
    {
      assert leaf !in Elements(ps);
      assert Elements(ps) + {leaf} - Elements(ps) == {leaf};
      assert base + multiset(ps) + multiset{leaf} - multiset(ps) == base + multiset{leaf};
      assert base + multiset(ps) + multiset{leaf} + multiset{s} - multiset(ps) == base + (multiset{leaf} + multiset{s});
    }

    method ReleaseLeaf(leaf: PageId, ghost base: multiset<PageId>)
      requires store.grip.pins == base + multiset{leaf} && store.grip.writing == {leaf}
      modifies store`grip
      ensures store.grip == Grip(base, old(store.grip).reading, {})
    {
      store.WUnlatch(leaf);
      store.UnpinPage(leaf);
      assert base + multiset{leaf} - multiset{leaf} == base;
    }

    /** Splits the leaf that reached its maximum, tells the parents, and lets go of both halves. */
    method SplitAndRelease(leaf: PageId, txn: Transaction, ghost base: multiset<PageId>) returns (ok: bool)
      requires Shaped(Over(leaf)) && leaf in store.memory.pages && store.memory.pages[leaf].Leaf?
      requires |store.memory.pages[leaf].entries| == store.limits.leaf
      requires Standing(store.grip, leaf, txn.pageSet, base) && Known(store.grip, meta.lastTableDataPageId)
      requires txn.pageSet != [] && ReachesRoot(T(), leaf) ==> txn.pageSet[0] == store.header
      modifies `shadow, store, meta`lastTableDataPageId, txn
      ensures ok <==> !(old(ReachesRoot(T(), leaf)) && old(txn.pageSet) == [])
      ensures Shaped(Whole)
      ensures Grown(T(), meta.lastTableDataPageId) == LeafBroken(old(T()), leaf, old(meta.lastTableDataPageId) + 1)
      ensures old(Held(T(), leaf, txn.pageSet, store.header)) ==> old(Climb(T(), leaf)) <= old(store.grip).writing
      ensures ok ==> txn.pageSet == [] && store.grip == Grip(base, old(store.grip).reading, {})
      ensures shadow == old(shadow).(span := shadow.span)
    {
      hide BTreeIndex.Gripped, BTreeIndex.Released, BTreeIndex.Standing, SameLeaves, LeafSplit, Inv, KidsChanged;
      ghost var t, ps, grip := T(), txn.pageSet, store.grip;
      var sibling, risen := SplitLeaf(leaf);
      StandingOnSplit(grip, leaf, sibling, ps, base);
      LeafSplitIs(t, leaf, sibling, ps, store.header);
      ok := InsertIntoParent(leaf, sibling, risen, txn);
      if ok {
        store.WUnlatch(leaf);
        UnpinBoth(leaf, sibling, base);
      }
    }

    /** The leaf's own part of an insert. */
    method LeafPart(leaf: PageId, key: Key, rid: Rid, ghost held: seq<PageId>)
      requires Shaped(Whole) && Holds(store.memory.pages, shadow.contents) && leaf == LeafFor(T(), key)
      modifies store`memory
      ensures leaf in store.memory.pages && store.memory.pages[leaf].Leaf?
      ensures ReachesRoot(T(), leaf) == old(ReachesRoot(T(), leaf))
      ensures Held(T(), leaf, held, store.header) == old(Held(T(), leaf, held, store.header))
      ensures store.memory.pages[leaf].parent == old(store.memory).pages[leaf].parent
      ensures var was := old(store.memory).pages[leaf];
        if old(Refuses(T(), shadow.contents, key)) then
          store.memory == old(store.memory) && |was.entries| < store.limits.leaf
        else
          && Shaped(Over(leaf)) && T() == LeafGrown(old(T()), shadow.contents, LeafNode(key, rid))
          && |store.memory.pages[leaf].entries| == |was.entries| + 1 <= store.limits.leaf
    {
      ghost var t, m := T(), shadow.contents;
      LeafReady(t, leaf);
      ghost var index := store.LeafInsert(leaf, key, rid);
      RefusedExactly(t, m, leaf, key, index);
      LeafClimbs(t, T(), leaf, Whole, held, store.header);
      if !Refuses(t, m, key) {
        ghost var x := LeafNode(key, rid);
        LeafGrownIs(t, m, x);
        assert T() == WithInserted(t, leaf, index, x);
      }
    }

    /** Inserts at the leaf the key belongs to.  `latched` are the write latches held when the descent ends; they stay
        until the parents are told. */
    method InsertIntoLeaf(key: Key, rid: Rid, txn: Transaction, ghost base: multiset<PageId>)
      returns (r: InsertResult, ghost latched: set<PageId>)
      requires Valid() && store.rootId != INVALID_PAGE_ID && txn.pageSet == [store.header]
      requires store.grip.pins == base + multiset{store.header} && store.grip.writing == {store.header}
      requires store.grip.reading == multiset{}
      modifies `shadow, store, meta`lastTableDataPageId, txn
      ensures r == EmptyPageSet <==> rule.AsWritten? && old(Overruns(St(), key))
      ensures r.Done? ==> St() == Insert(old(St()), LeafNode(key, rid))
      ensures r.Done? ==> Valid() && txn.pageSet == [] && store.grip == Grip(base, old(store.grip).reading, {})
      ensures r.Done? ==> (r.inserted <==> !old(Refuses(T(), shadow.contents, key)))
      ensures latched ==
        Elements(Crabbed(rule, store.header, old(T()), LeafFor(old(T()), key))) + {LeafFor(old(T()), key)}
    {
      hide BTreeIndex.Standing, BTreeIndex.Known, Insert, LeafGrown, LeafBroken, Crabbed, Good, Inv;
      ghost var st, x := St(), LeafNode(key, rid);
      GoodIs(st);
      var leaf := SearchLeafPage(key, txn, base);
      CrabbedFacts(rule, store.header, T(), leaf);
      latched := store.grip.writing;
      ghost var ps := txn.pageSet;
      KnownStanding(store.grip, leaf, ps, base, rule, store.header, T(), meta.lastTableDataPageId);
      var size := |store.memory.pages[leaf].entries|;
      LeafPart(leaf, key, rid, ps);
      InsertIs(st, x);
      var newSize := |store.memory.pages[leaf].entries|;
      if newSize >= store.limits.leaf {
        r := FinishSplit(leaf, key, rid, txn, base);
        return;
      }
      FinishPlain(leaf, key, rid, txn, base, newSize != size);
      r := Done(newSize != size);
    }

    static lemma KnownStanding(grip: Grip, leaf: PageId, ps: seq<PageId>, base: multiset<PageId>, rule: SafetyRule,
                               header: PageId, t: Tree, last: PageId)
      requires Standing(grip, leaf, ps, base) && Inv(t, Whole) && leaf in t.pages && Numbered(t, last) && header <= last
      requires ps == Crabbed(rule, header, t, leaf) && grip.reading == multiset{}
      ensures Known(grip, last) && grip.writing == Elements(ps) + {leaf}
    {
      forall p | p in grip.writing ensures p <= last {
        if p in ps { CrabbedAbove(rule, header, t, leaf, p); }
      }
    }

    method FinishSplit(leaf: PageId, key: Key, rid: Rid, txn: Transaction, ghost base: multiset<PageId>)
      returns (r: InsertResult)
      requires Shaped(Over(leaf)) && Holds(store.memory.pages, shadow.contents[key := rid])
      requires leaf in store.memory.pages && store.memory.pages[leaf].Leaf?
      requires |store.memory.pages[leaf].entries| == store.limits.leaf
      requires Standing(store.grip, leaf, txn.pageSet, base) && Known(store.grip, meta.lastTableDataPageId)
      requires rule.AsCommented? ==> Held(T(), leaf, txn.pageSet, store.header)
      requires leaf == store.rootId ==> txn.pageSet == [store.header]
      requires rule.AsWritten? && leaf != store.rootId ==> txn.pageSet == []
      modifies `shadow, store, meta`lastTableDataPageId, txn
      ensures r == EmptyPageSet <==> old(rule.AsWritten? && leaf != store.rootId && ReachesRoot(T(), leaf))
      ensures r.Done? ==>
        r.inserted && Valid() && txn.pageSet == [] && store.grip == Grip(base, old(store.grip).reading, {})
      ensures Grown(T(), meta.lastTableDataPageId) == LeafBroken(old(T()), leaf, old(meta.lastTableDataPageId) + 1)
      ensures old(Held(T(), leaf, txn.pageSet, store.header)) ==> old(Climb(T(), leaf)) <= old(store.grip).writing
      ensures r.Done? ==> shadow.contents == old(shadow).contents[key := rid]
    {
      hide BTreeIndex.Standing, LeafBroken, Inv, Holds, Numbered;
      ghost var t, ps := T(), txn.pageSet;
      if Held(t, leaf, ps, store.header) && ReachesRoot(t, leaf) { HeldToRoot(t, leaf, ps, store.header); }
      LeafBrokenIs(t, leaf, meta.lastTableDataPageId + 1, shadow.contents[key := rid]);
      var ok := SplitAndRelease(leaf, txn, base);
      if !ok {
        return EmptyPageSet;
      }
      shadow := shadow.(contents := shadow.contents[key := rid]);
      RootIsPage(T());
      r := Done(true);
    }

    method FinishPlain(leaf: PageId, key: Key, rid: Rid, txn: Transaction, ghost base: multiset<PageId>,
      ghost grew: bool)
      requires leaf in store.memory.pages && store.memory.pages[leaf].Leaf?
      requires |store.memory.pages[leaf].entries| < store.limits.leaf
      requires Standing(store.grip, leaf, txn.pageSet, base)
      requires Known(store.grip, meta.lastTableDataPageId)
      requires if grew then Shaped(Over(leaf)) && Holds(store.memory.pages, shadow.contents[key := rid])
        else Shaped(Whole) && Holds(store.memory.pages, shadow.contents)
      modifies `shadow, store`grip, txn
      ensures Valid() && txn.pageSet == [] && store.grip == Grip(base, old(store.grip).reading, {})
      ensures T() == old(T())
      ensures shadow.contents == if grew then old(shadow).contents[key := rid] else old(shadow).contents
    {
      StandingOnSplit(store.grip, leaf, leaf, txn.pageSet, base);
      ReleaseParentWriteLatches(txn);
      ReleaseLeaf(leaf, base);
      if grew {
        NotOver(T(), leaf);
        shadow := shadow.(contents := shadow.contents[key := rid]);
      }
      RootIsPage(T());
    }

    static lemma LeafReady(t: Tree, leaf: PageId)
      requires Inv(t, Whole) && leaf in t.pages && t.pages[leaf].Leaf?
      ensures Sorted(t.pages[leaf].entries) && t.pages[leaf].tail != [] && |t.pages[leaf].entries| < t.limits.leaf
    {
      assert NodeOk(t, leaf, Whole);
    }

    // ---------- the two operations ----------

    /** The first insert makes a leaf the root. */
    method CreateNewRoot(key: Key, rid: Rid)
      requires Valid() && store.rootId == INVALID_PAGE_ID
      modifies `shadow, store, meta`lastTableDataPageId
      ensures Valid() && store.rootId != INVALID_PAGE_ID && store.grip == old(store.grip)
      ensures St() == Insert(old(St()), LeafNode(key, rid)) && shadow.contents == map[key := rid]
    {
      hide Inv, Holds;
      var id := meta.IncrementTableDataPageId();
      store.FirstLeafPage(id);
      store.rootId := id;
      ghost var blank := store.memory.pages[id];
      assert blank.tail[1..] == seq(store.limits.leaf - 1, _ => ZERO_LEAF_NODE);
      ghost var index := store.LeafInsert(id, key, rid);
      assert index == 0 && InsertAt([], 0, LeafNode(key, rid)) == [LeafNode(key, rid)];
      assert store.memory.pages[id] == Leaf(INVALID_PAGE_ID, INVALID_PAGE_ID, [LeafNode(key, rid)], blank.tail[1..]);
      assert store.memory.pages == map[id := store.memory.pages[id]];
      shadow := Shadow(map[id := Span(KEY_MIN, KEY_END, 0)], map[key := rid]);
      FirstTree(store.limits, id, LeafNode(key, rid), store.memory.pages[id].tail);
    }

    /** Inserts a pair.  On every normal return the index stands for the map with the pair added, or for the
        same map if the insert is refused, and every pin and latch taken on the way is given back. */
    method InternalInsertRecord(txn: Transaction, key: Key, rid: Rid)
      returns (r: InsertResult, ghost latched: set<PageId>)
      requires Valid() && txn.pageSet == [] && store.grip.writing == {} && store.grip.reading == multiset{}
      modifies `shadow, store, meta`lastTableDataPageId, txn
      ensures r == EmptyPageSet <==> rule.AsWritten? && old(Overruns(St(), key))
      ensures r.Done? ==> St() == Insert(old(St()), LeafNode(key, rid))
      ensures r.Done? ==>
        Valid() && txn.pageSet == [] && store.grip == old(store.grip) && store.rootId != INVALID_PAGE_ID
      ensures r.Done? ==>
        (r.inserted <==> old(store.rootId == INVALID_PAGE_ID || !Refuses(T(), shadow.contents, key)))
      ensures r.Done? ==>
        shadow.contents == if r.inserted then old(shadow).contents[key := rid] else old(shadow).contents
      ensures r.Done? && old(store.rootId) != INVALID_PAGE_ID ==>
        && KidsChanged(old(store.memory).pages, store.memory.pages, old(ClimbFor(T(), shadow.contents, key)))
        && LeavesBut(old(store.memory).pages, store.memory.pages, LeafFor(old(T()), key))
      ensures old(store.rootId) != INVALID_PAGE_ID ==>
        && latched == Elements(Crabbed(rule, store.header, old(T()), LeafFor(old(T()), key))) + {LeafFor(old(T()), key)}
        && (ClimbFor(old(T()), old(shadow).contents, key) <= latched <==>
            (rule.AsCommented? || old(!SplitsLeaf(T(), shadow.contents, key) || LeafFor(T(), key) == store.rootId)))
    {
      hide Inv, Holds, Insert, Crabbed;
      ghost var base, st := store.grip.pins, St();
      InsertChanges(st, LeafNode(key, rid));
      if st.tree.root != INVALID_PAGE_ID { LatchesCover(rule, store.header, st, key); }
      store.FetchPage(store.header);
      store.WLatch(store.header);
      txn.pageSet := txn.pageSet + [store.header];
      if store.rootId == INVALID_PAGE_ID {
        CreateNewRoot(key, rid);
        ReleaseHeader(txn, base);
        return Done(true), {};
      }
      r, latched := InsertIntoLeaf(key, rid, txn, base);
    }

    static lemma LatchesCover(rule: SafetyRule, header: PageId, st: State, key: Key)
      requires Good(st) && st.tree.root != INVALID_PAGE_ID
      ensures var (t, leaf) := (st.tree, LeafFor(st.tree, key));
        ClimbFor(t, st.contents, key) <= Elements(Crabbed(rule, header, t, leaf)) + {leaf} <==>
        (rule.AsCommented? || !SplitsLeaf(t, st.contents, key) || leaf == t.root)
    {
      var (t, leaf) := (st.tree, LeafFor(st.tree, key));
      LatchedExactly(rule, header, st, key);
      InvLinked(t, Whole);
      ClimbIsAbove(t, leaf, Whole);
      hide Inv, Climb, Crabbed;
      var (climb, ps) := (ClimbFor(t, st.contents, key), Crabbed(rule, header, t, leaf));
      assert leaf !in climb;
      assert climb <= Elements(ps) + {leaf} <==> Within(climb, ps) by {
        if climb <= Elements(ps) + {leaf} { forall q | q in climb ensures q in ps {} }
        if Within(climb, ps) { forall q | q in climb ensures q in Elements(ps) {} }
      }
    }

    method ReleaseHeader(txn: Transaction, ghost base: multiset<PageId>)
      requires txn.pageSet == [store.header]
      requires store.grip.pins == base + multiset{store.header} && store.grip.writing == {store.header}
      modifies store`grip, txn
      ensures txn.pageSet == [] && store.grip == Grip(base, old(store.grip).reading, {})
    {
      assert Elements([store.header]) == {store.header};
      assert multiset([store.header]) == multiset({store.header});
      ReleaseParentWriteLatches(txn);
      assert base + multiset{store.header} - multiset{store.header} == base;
    }

    /** The descent of a search: the parent's latch is given up for the child's, and its pin with it. */
    method SearchLeafForScan(key: Key) returns (leaf: PageId)
      requires Shaped(Whole) && store.header in store.grip.reading && store.grip.writing == {}
      modifies store`grip
      ensures leaf == LeafFor(T(), key)
      ensures store.grip.pins == old(store.grip).pins + multiset{leaf} && store.grip.writing == old(store.grip).writing
      ensures store.grip.reading == old(store.grip).reading - multiset{store.header} + multiset{leaf}
    {
      ghost var t, was := T(), store.grip;
      RootCovers(t, key);
      var page := store.rootId;
      store.FetchPage(page);
      store.RUnlatch(store.header);
      store.RLatch(page);
      while store.memory.pages[page].Internal?
        invariant page in store.memory.pages && Covers(t, page, key)
        invariant store.grip ==
          Grip(was.pins + multiset{page}, was.reading - multiset{store.header} + multiset{page}, was.writing)
        decreases Sp(t, page).level
      {
        assert NodeOk(t, page, Whole);
        var child := store.InternalLookup(page, key);
        ghost var i :| Routes(t.pages[page].kids, key, i) && t.pages[page].kids[i].child == child;
        ChildCovers(t, page, i, key);
        ScanStep(page, child, was.pins, was.reading - multiset{store.header});
        page := child;
      }
      leaf := page;
    }

    method ScanStep(page: PageId, child: PageId, ghost pins: multiset<PageId>, ghost reading: multiset<PageId>)
      requires child in store.memory.pages
      requires store.grip.pins == pins + multiset{page} && store.grip.reading == reading + multiset{page}
      requires store.grip.writing == {}
      modifies store`grip
      ensures store.grip == Grip(pins + multiset{child}, reading + multiset{child}, old(store.grip).writing)
    {
      store.FetchPage(child);
      store.RLatch(child);
      store.RUnlatch(page);
      store.UnpinPage(page);
      assert pins + multiset{page} + multiset{child} - multiset{page} == pins + multiset{child};
      assert reading + multiset{page} + multiset{child} - multiset{page} == reading + multiset{child};
    }

    /** What the leaf for a key answers is what the map answers. */
    static lemma AnswerIs(t: Tree, m: map<Key, Rid>, leaf: PageId, key: Key, r: Option<Rid>)
      requires Inv(t, Whole) && Holds(t.pages, m) && leaf == LeafFor(t, key)
      requires match r
        case Some(rid) => exists i :: 0 <= i < |t.pages[leaf].entries| && t.pages[leaf].entries[i] == LeafNode(key, rid)
        case None => forall i :: 0 <= i < |t.pages[leaf].entries| ==> t.pages[leaf].entries[i].key != key
      ensures r == if key in m then Some(m[key]) else None
    {
      LeafDecides(t, m, leaf, key);
      if r.Some? {
        var i :| 0 <= i < |t.pages[leaf].entries| && t.pages[leaf].entries[i] == LeafNode(key, r.value);
        assert At(t.pages, leaf, i, key);
      }
    }

    /** Looks a key up.  The answer is the map's; the header page keeps one pin more than before. */
    method InternalScanKey(key: Key) returns (r: Option<Rid>)
      requires Valid() && store.rootId != INVALID_PAGE_ID && store.grip.writing == {}
      modifies store`grip
      ensures Valid()
      ensures r == if key in shadow.contents then Some(shadow.contents[key]) else None
      ensures store.grip == old(store.grip).(pins := old(store.grip).pins + multiset{store.header})
    {
      hide Inv, Holds, Sorted;
      ghost var t, m, was := T(), shadow.contents, store.grip;
      store.FetchPage(store.header);
      store.RLatch(store.header);
      var leaf := SearchLeafForScan(key);
      LeafReady(t, leaf);
      r := store.LeafLookup(leaf, key);
      AnswerIs(t, m, leaf, key, r);
      TakenBack(was.reading, multiset{store.header}, multiset{leaf});
      EndScan(leaf, was.pins + multiset{store.header}, was.reading);
    }

    static lemma TakenBack(a: multiset<PageId>, b: multiset<PageId>, c: multiset<PageId>)
      ensures a + b - b + c == a + c && a + c - c == a
    {}

    method EndScan(leaf: PageId, ghost pins: multiset<PageId>, ghost reading: multiset<PageId>)
      requires store.grip.pins == pins + multiset{leaf} && store.grip.reading == reading + multiset{leaf}
      modifies store`grip
      ensures store.grip == Grip(pins, reading, old(store.grip).writing)
    {
      TakenBack(pins, multiset{}, multiset{leaf});
      TakenBack(reading, multiset{}, multiset{leaf});
      store.RUnlatch(leaf);
      store.UnpinPage(leaf);
    }
  }
}
