/** A whole insert as one function on trees: what every page is afterwards, which pages changed, which were latched. */
module BTreeSteps {
  import opened Ids
  import opened BTreeModel

  /** When a node counts as safe for an insert: as the code tests it, or as its comment words it. */
  datatype SafetyRule = AsWritten | AsCommented

  /** The tree, the map it stands for and the last page number handed out. */
  datatype State = State(tree: Tree, contents: map<Key, Rid>, last: PageId)

  datatype Grown = Grown(tree: Tree, last: PageId)

  /** Page numbers above `last` are new. */
  ghost predicate Numbered(t: Tree, last: PageId) {
    0 <= last && forall p :: p in t.pages ==> 0 <= p <= last
  }

  // ---------- telling the parents about a split ----------

  ghost function IndexOf(kids: seq<InternalNode>, c: PageId): (i: nat)
    requires ListedIn(kids, c)
    ensures i < |kids| && kids[i].child == c
  {
    var i :| 0 <= i < |kids| && kids[i].child == c;
    i
  }

  lemma SplitHasParent(t: Tree, l: PageId, s: PageId)
    requires Inv(t, Split(l, s)) && l != t.root
    ensures l in t.pages && s in t.pages && t.pages[l].parent in t.pages
    ensures var p := t.pages[l].parent;
      && t.pages[p].Internal? && ListedIn(t.pages[p].kids, l) && |t.pages[p].kids| <= t.limits.internal
      && Sp(t, l).level < Sp(t, p).level <= Sp(t, t.root).level && p != s
    ensures KEY_MIN <= Sp(t, s).lo < KEY_END && t.limits.Ok() && t.root in t.pages
  {
    var pend := Split(l, s);
    assert NodeOk(t, l, pend) && ParentOk(t, l, pend) && NodeOk(t, s, pend);
    InvLinked(t, pend);
    assert NodeOk(t, t.pages[l].parent, pend);
  }

  /** The right half listed behind the left one. */
  ghost function Listed(t: Tree, l: PageId, s: PageId): Tree
    requires Inv(t, Split(l, s)) && l != t.root
  {
    SplitHasParent(t, l, s);
    ParentInserted(t, l, s, IndexOf(t.pages[t.pages[l].parent].kids, l))
  }

  lemma ListedKeepsInv(t: Tree, l: PageId, s: PageId)
    requires Inv(t, Split(l, s)) && l != t.root
    ensures Inv(Listed(t, l, s), Over(t.pages[l].parent)) && t.pages[l].parent in t.pages
    ensures var (u, p) := (Listed(t, l, s), t.pages[l].parent);
      && u.limits == t.limits && u.root == t.root && u.span == t.span && u.pages.Keys == t.pages.Keys
      && t.pages[p].Internal? && u.pages[p].Internal? && |u.pages[p].kids| == |t.pages[p].kids| + 1
      && u.pages[p].parent == t.pages[p].parent
      && (forall q :: q in t.pages && q != p ==> u.pages[q] == t.pages[q])
    ensures forall i :: 0 <= i < |t.pages[t.pages[l].parent].kids| && t.pages[t.pages[l].parent].kids[i].child == l ==>
      Listed(t, l, s) == ParentInserted(t, l, s, i)
  {
    SplitHasParent(t, l, s);
    var p := t.pages[l].parent;
    var j := IndexOf(t.pages[p].kids, l);
    ParentInsertKeepsInv(t, l, s, j);
    assert NodeOk(t, p, Split(l, s));
    forall i | 0 <= i < |t.pages[p].kids| && t.pages[p].kids[i].child == l ensures i == j {
      if i != j { KidsDistinct(t, p, i, j, Split(l, s)); }
    }
  }

  ghost predicate ParentIsFull(t: Tree, l: PageId) {
    && l in t.pages && t.pages[l].parent in t.pages && t.pages[t.pages[l].parent].Internal?
    && |t.pages[t.pages[l].parent].kids| == t.limits.internal
  }

  /** A full parent split after listing; its right half is the new page. */
  ghost function ParentSplit(t: Tree, l: PageId, s: PageId, new': PageId): Tree
    requires Inv(t, Split(l, s)) && l != t.root
    requires ParentIsFull(t, l)
  {
    SplitHasParent(t, l, s);
    ListedKeepsInv(t, l, s);
    InternalSplit(Listed(t, l, s), t.pages[l].parent, new')
  }

  lemma ParentSplitIs(t: Tree, l: PageId, s: PageId, n: PageId)
    requires Inv(t, Split(l, s)) && l != t.root && n !in t.pages && n != INVALID_PAGE_ID
    requires ParentIsFull(t, l)
    ensures var (u, p) := (ParentSplit(t, l, s, n), t.pages[l].parent);
      && Inv(u, Split(p, n)) && u.pages.Keys == t.pages.Keys + {n} && u.limits == t.limits && u.root == t.root
      && p in u.pages && u.pages[p].parent == t.pages[p].parent
      && SameAbove(t, u, Sp(t, p).level) && SameLeaves(t.pages, u.pages)
      && KidsChanged(t.pages, u.pages, {p}) && Sp(u, p).level == Sp(t, p).level
      && Sp(u, u.root).level == Sp(t, t.root).level
  {
    hide Inv, NodeOk, Listed, InternalSplit, CanSplitInternal, InsertAt;
    SplitHasParent(t, l, s);
    ListedKeepsInv(t, l, s);
    var (t1, p) := (Listed(t, l, s), t.pages[l].parent);
    assert CanSplitInternal(t1, p, n) by { SplitIsDue(t1, p, n); }
    SplitChanges(t1, p, n);
  }

  lemma SplitIsDue(t: Tree, p: PageId, s: PageId)
    requires Inv(t, Over(p)) && p in t.pages && t.pages[p].Internal? && |t.pages[p].kids| == t.limits.internal + 1
    requires s !in t.pages && s != INVALID_PAGE_ID
    ensures CanSplitInternal(t, p, s)
  {}

  lemma SplitIsOne(t: Tree, p: PageId, s: PageId)
    requires CanSplitInternal(t, p, s)
    ensures t.limits.Ok() && IsInternalSplit(t, InternalSplit(t, p, s), p, s)
  {
    MovedChildren(t, p, s);
    InternalSplitIsOne(t, p, s);
  }

  /** What splitting an over-full internal page changes, seen from above it and from the leaves. */
  lemma SplitChanges(t: Tree, p: PageId, s: PageId)
    requires CanSplitInternal(t, p, s)
    ensures var u := InternalSplit(t, p, s);
      && Inv(u, Split(p, s)) && u.pages.Keys == t.pages.Keys + {s} && u.limits == t.limits && u.root == t.root
      && u.pages[p].parent == t.pages[p].parent && Sp(u, p).level == Sp(t, p).level
      && SameAbove(t, u, Sp(t, p).level) && SameLeaves(t.pages, u.pages) && u.pages[p].Internal?
      && (forall q :: q in t.pages && t.pages[q].Internal? && q != p ==>
        u.pages[q].Internal? && u.pages[q].kids == t.pages[q].kids)
      && |u.pages[p].kids| < t.limits.internal
  {
    hide Inv, NodeOk, InternalSplit;
    SplitIsOne(t, p, s);
    MovedChildren(t, p, s);
    InternalSplitKeepsInv(t, InternalSplit(t, p, s), p, s);
    InvLinked(t, Over(p));
  }

  /** All parents told: the tree is whole again. */
  ghost function Told(t: Tree, l: PageId, s: PageId, last: PageId): (g: Grown)
    requires Inv(t, Split(l, s)) && Numbered(t, last)
    decreases Sp(t, t.root).level - Sp(t, l).level
  {
    if l == t.root then
      RootGrownKeepsInv(t, l, s, last + 1);
      Grown(RootGrown(t, l, s, last + 1), last + 1)
    else
      SplitHasParent(t, l, s);
      var p := t.pages[l].parent;
      if |t.pages[p].kids| < t.limits.internal then Grown(Listed(t, l, s), last)
      else
        ParentSplitIs(t, l, s, last + 1);
        Told(ParentSplit(t, l, s, last + 1), p, last + 1, last + 1)
  }

  lemma RootGrownIs(t: Tree, l: PageId, s: PageId, r: PageId)
    requires Inv(t, Split(l, s)) && l == t.root && r !in t.pages && r != INVALID_PAGE_ID
    ensures KEY_MIN <= Sp(t, s).lo < KEY_END && l in t.pages && s in t.pages
    ensures var u := RootGrown(t, l, s, r);
      && Inv(u, Whole) && u.limits == t.limits && u.pages.Keys == t.pages.Keys + {r}
      && SameLeaves(t.pages, u.pages) && KidsChanged(t.pages, u.pages, {})
  {
    RootGrownKeepsInv(t, l, s, r);
  }

  lemma ListedIs(t: Tree, l: PageId, s: PageId)
    requires Inv(t, Split(l, s)) && l != t.root
    requires SplitHasRoom(t, l)
    ensures var u := Listed(t, l, s);
      && Inv(u, Whole) && u.limits == t.limits && u.pages.Keys == t.pages.Keys
      && SameLeaves(t.pages, u.pages) && KidsChanged(t.pages, u.pages, {t.pages[l].parent})
  {
    ListedKeepsInv(t, l, s);
    NotOver(Listed(t, l, s), t.pages[l].parent);
  }

  ghost predicate SplitHasRoom(t: Tree, l: PageId) {
    && l in t.pages && t.pages[l].parent in t.pages && t.pages[t.pages[l].parent].Internal?
    && |t.pages[t.pages[l].parent].kids| < t.limits.internal
  }

  /** The climb goes on above a split parent as it would have before, and does not come back to it. */
  lemma ClimbAfterSplit(t: Tree, u: Tree, l: PageId, s: PageId, p: PageId, n: PageId)
    requires Inv(t, Split(l, s)) && l in t.pages && l != t.root && p == t.pages[l].parent && ParentIsFull(t, l)
    requires Inv(u, Split(p, n)) && SameAbove(t, u, Sp(t, p).level)
    requires p in u.pages && u.pages[p].parent == t.pages[p].parent
    ensures p !in Climb(u, p) && Climb(t, l) == {p} + Climb(u, p)
  {
    InvLinked(t, Split(l, s));
    InvLinked(u, Split(p, n));
    SplitLevels(u, p, n);
    SplitLevels(t, l, s);
    hide Inv;
    ClimbsAlike(t, u, p, [], INVALID_PAGE_ID);
    ClimbIsAbove(u, p, Split(p, n));
  }

  lemma SplitLevels(t: Tree, l: PageId, s: PageId)
    requires Inv(t, Split(l, s))
    ensures Sp(t, l).level == Sp(t, s).level && l != s && l in t.pages && s in t.pages
    ensures t.pages[s].parent == t.pages[l].parent
  {}

  /** Telling the parents makes the tree whole, keeps every leaf and changes the entries of exactly the climbed
      pages. */
  lemma {:induction false} ToldChanges(t: Tree, l: PageId, s: PageId, last: PageId)
    requires Inv(t, Split(l, s)) && Numbered(t, last)
    ensures var g := Told(t, l, s, last);
      && Inv(g.tree, Whole) && Numbered(g.tree, g.last) && last <= g.last && g.tree.limits == t.limits
      && SameLeaves(t.pages, g.tree.pages) && KidsChanged(t.pages, g.tree.pages, Climb(t, l))
    decreases Sp(t, t.root).level - Sp(t, l).level
  {
    hide Inv, NodeOk, Listed, ParentSplit, RootGrown, SameLeaves, KidsChanged, SameAbove;
    if l == t.root {
      RootGrownIs(t, l, s, last + 1);
    } else {
      SplitHasParent(t, l, s);
      var p := t.pages[l].parent;
      if |t.pages[p].kids| < t.limits.internal {
        ListedIs(t, l, s);
        assert Climb(t, l) == {p};
      } else {
        var n := last + 1;
        ParentSplitIs(t, l, s, n);
        var u := ParentSplit(t, l, s, n);
        ToldChanges(u, p, n, n);
        ClimbAfterSplit(t, u, l, s, p, n);
        SameLeavesTrans(t.pages, u.pages, Told(u, p, n, n).tree.pages);
        KidsChangedTrans(t.pages, u.pages, Told(u, p, n, n).tree.pages, {p}, Climb(u, p));
      }
    }
  }

  /** Telling the parents makes the tree one level higher if and only if the split reaches the root. */
  lemma {:induction false} ToldHeight(t: Tree, l: PageId, s: PageId, last: PageId)
    requires Inv(t, Split(l, s)) && Numbered(t, last)
    ensures var u := Told(t, l, s, last).tree;
      Sp(u, u.root).level == Sp(t, t.root).level + if ReachesRoot(t, l) then 1 else 0
    decreases Sp(t, t.root).level - Sp(t, l).level
  {
    hide Inv, NodeOk, Listed, ParentSplit, RootGrown, ReachesRoot, SameAbove, SameLeaves, KidsChanged;
    if l == t.root {
      RootRises(t, l, s, last + 1);
    } else {
      SplitHasParent(t, l, s);
      StopsBelowRoot(t, l, s);
      var p, n := t.pages[l].parent, last + 1;
      if |t.pages[p].kids| == t.limits.internal {
        ParentSplitIs(t, l, s, n);
        ToldHeight(ParentSplit(t, l, s, n), p, n, n);
        ReachAfterSplit(t, ParentSplit(t, l, s, n), l, s, p, n);
      }
    }
  }

  lemma RootRises(t: Tree, l: PageId, s: PageId, r: PageId)
    requires Inv(t, Split(l, s)) && l == t.root && r !in t.pages && r != INVALID_PAGE_ID
    ensures KEY_MIN <= Sp(t, s).lo < KEY_END && l in t.pages && s in t.pages && ReachesRoot(t, l)
    ensures var u := RootGrown(t, l, s, r);
      Sp(u, u.root).level == Sp(t, t.root).level + 1
  {
    RootGrownKeepsInv(t, l, s, r);
  }

  lemma StopsBelowRoot(t: Tree, l: PageId, s: PageId)
    requires Inv(t, Split(l, s)) && l != t.root
    ensures SplitHasRoom(t, l) ==> !ReachesRoot(t, l)
    ensures var u := Listed(t, l, s);
      u.root == t.root && Sp(u, u.root).level == Sp(t, t.root).level
  {
    ListedKeepsInv(t, l, s);
  }

  lemma ReachAfterSplit(t: Tree, u: Tree, l: PageId, s: PageId, p: PageId, n: PageId)
    requires Inv(t, Split(l, s)) && l in t.pages && l != t.root && p == t.pages[l].parent && ParentIsFull(t, l)
    requires Inv(u, Split(p, n)) && SameAbove(t, u, Sp(t, p).level)
    requires p in u.pages && u.pages[p].parent == t.pages[p].parent
    ensures ReachesRoot(t, l) == ReachesRoot(u, p)
  {
    InvLinked(t, Split(l, s));
    SplitLevels(t, l, s);
    hide Inv;
    ClimbsAlike(t, u, p, [], INVALID_PAGE_ID);
  }

  // ---------- one insert ----------

  /** What an index is between two operations. */
  ghost predicate Good(st: State) {
    && st.tree.limits.Ok() && Numbered(st.tree, st.last) && Holds(st.tree.pages, st.contents)
    && if st.tree.root == INVALID_PAGE_ID then st.tree.pages == map[] && st.tree.span == map[] && st.contents == map[]
       else Inv(st.tree, Whole)
  }

  /** The first insert makes a leaf the root. */
  ghost function FirstLeaf(limits: Limits, id: PageId, x: LeafNode): Tree
    requires limits.Ok()
  {
    var blank := seq(limits.leaf - 1, _ => ZERO_LEAF_NODE);
    Tree(limits, id, map[id := Leaf(INVALID_PAGE_ID, INVALID_PAGE_ID, [x], blank)],
         map[id := Span(KEY_MIN, KEY_END, 0)])
  }

  ghost function SlotFor(s: seq<LeafNode>, k: int): (i: nat)
    requires exists i :: FitsBefore(s, i, k)
    ensures FitsBefore(s, i, k)
  {
    var i :| FitsBefore(s, i, k);
    i
  }

  lemma {:induction false} SlotExists(s: seq<LeafNode>, k: int)
    requires Sorted(s) && forall i :: 0 <= i < |s| ==> s[i].key != k
    ensures exists i :: FitsBefore(s, i, k)
  {
    if s == [] || s[|s| - 1].key < k {
      assert FitsBefore(s, |s|, k);
    } else {
      var rest := s[..|s| - 1];
      SlotExists(rest, k);
      var i :| FitsBefore(rest, i, k);
      assert FitsBefore(s, i, k);
    }
  }

  lemma SlotIsUnique(s: seq<LeafNode>, i: int, j: int, k: int)
    requires FitsBefore(s, i, k) && FitsBefore(s, j, k)
    ensures i == j
  {
    assert i < |s| ==> s[i] in s;
    assert j < |s| ==> s[j] in s;
  }

  /** Where the new pair goes. */
  ghost function NewSlot(t: Tree, m: map<Key, Rid>, x: LeafNode): (i: nat)
    requires Inv(t, Whole) && Holds(t.pages, m) && !Refuses(t, m, x.key)
    ensures FitsBefore(t.pages[LeafFor(t, x.key)].entries, i, x.key) && t.pages[LeafFor(t, x.key)].tail != []
    ensures forall j: nat :: FitsBefore(t.pages[LeafFor(t, x.key)].entries, j, x.key) ==> i == j
  {
    var p := LeafFor(t, x.key);
    assert NodeOk(t, p, Whole);
    LeafDecides(t, m, p, x.key);
    assert forall i :: 0 <= i < |t.pages[p].entries| ==> At(t.pages, p, i, t.pages[p].entries[i].key);
    SlotExists(t.pages[p].entries, x.key);
    var i := SlotFor(t.pages[p].entries, x.key);
    assert forall j: nat :: FitsBefore(t.pages[p].entries, j, x.key) ==> i == j by {
      forall j: nat | FitsBefore(t.pages[p].entries, j, x.key) ensures i == j {
        SlotIsUnique(t.pages[p].entries, i, j, x.key);
      }
    }
    i
  }

  /** The leaf with the new pair in its slot. */
  ghost function LeafGrown(t: Tree, m: map<Key, Rid>, x: LeafNode): (u: Tree)
    requires Inv(t, Whole) && Holds(t.pages, m) && !Refuses(t, m, x.key)
  {
    WithInserted(t, LeafFor(t, x.key), NewSlot(t, m, x), x)
  }

  lemma LeafGrownIs(t: Tree, m: map<Key, Rid>, x: LeafNode)
    requires Inv(t, Whole) && Holds(t.pages, m) && !Refuses(t, m, x.key)
    ensures var (u, p) := (LeafGrown(t, m, x), LeafFor(t, x.key));
      && Inv(u, Over(p)) && p in u.pages && u.pages[p].Leaf? && |u.pages[p].entries| == |t.pages[p].entries| + 1
      && u.limits == t.limits && u.root == t.root && u.span == t.span && u.pages.Keys == t.pages.Keys
      && u.pages[p].parent == t.pages[p].parent
      && (forall q :: q in t.pages && q != p ==> u.pages[q] == t.pages[q])
      && |t.pages[p].entries| < t.limits.leaf && t.limits.Ok()
      && Holds(u.pages, m[x.key := x.rid])
  {
    var p := LeafFor(t, x.key);
    assert NodeOk(t, p, Whole);
    InsertKeepsInv(t, p, NewSlot(t, m, x), x);
    InsertAddsKey(t.pages, m, p, NewSlot(t, m, x), x, LeafGrown(t, m, x).pages[p]);
  }

  /** One insert: nothing for a refused key, else the leaf grows and, having reached its maximum, splits. */
  ghost function Insert(st: State, x: LeafNode): (after: State)
    requires Good(st)
  {
    var (t, m) := (st.tree, st.contents);
    if t.root == INVALID_PAGE_ID then State(FirstLeaf(t.limits, st.last + 1, x), map[x.key := x.rid], st.last + 1)
    else if Refuses(t, m, x.key) then st
    else
      var (u, p) := (LeafGrown(t, m, x), LeafFor(t, x.key));
      LeafGrownIs(t, m, x);
      if !IsFull(t.limits, t.pages[p]) then State(u, m[x.key := x.rid], st.last)
      else
        var g := LeafBroken(u, p, st.last + 1);
        State(g.tree, m[x.key := x.rid], g.last)
  }

  /** A leaf that reached its maximum split and the parents told. */
  ghost function LeafBroken(t: Tree, p: PageId, s: PageId): Grown
    requires Inv(t, Over(p)) && p in t.pages && t.pages[p].Leaf? && |t.pages[p].entries| == t.limits.leaf
    requires s > 0 && Numbered(t, s - 1)
  {
    LeafSplitKeepsInv(t, p, s);
    Told(LeafSplit(t, p, s), p, s, s)
  }

  lemma LeafBrokenIs(t: Tree, p: PageId, s: PageId, m: map<Key, Rid>)
    requires Inv(t, Over(p)) && p in t.pages && t.pages[p].Leaf? && |t.pages[p].entries| == t.limits.leaf
    requires s > 0 && Numbered(t, s - 1) && Holds(t.pages, m)
    ensures var g := LeafBroken(t, p, s);
      && Inv(g.tree, Whole) && Numbered(g.tree, g.last) && s <= g.last && g.tree.limits == t.limits
      && Holds(g.tree.pages, m) && KidsChanged(t.pages, g.tree.pages, Climb(t, p))
      && LeavesBut(t.pages, g.tree.pages, p)
  {
    hide Inv, LeafSplit, Holds, SameLeaves, KidsChanged;
    LeafIsLowest(t, p, Over(p));
    LeafSplitIs(t, p, s, [], INVALID_PAGE_ID);
    LeafSplitHolds(t, p, s, m);
    var u := LeafSplit(t, p, s);
    ToldChanges(u, p, s, s);
    var g := Told(u, p, s, s);
    SameLeavesHold(u.pages, g.tree.pages, m);
    KidsChangedTrans(t.pages, u.pages, g.tree.pages, {}, Climb(t, p));
    assert {} + Climb(t, p) == Climb(t, p);
    LeavesButTrans(t.pages, u.pages, g.tree.pages, p);
  }

  lemma LeavesButTrans(a: map<PageId, Page>, b: map<PageId, Page>, c: map<PageId, Page>, p: PageId)
    requires LeavesBut(a, b, p) && SameLeaves(b, c)
    ensures LeavesBut(a, c, p)
  {}

  lemma LeafSplitIs(t: Tree, p: PageId, s: PageId, held: seq<PageId>, header: PageId)
    requires Inv(t, Over(p)) && p in t.pages && t.pages[p].Leaf? && |t.pages[p].entries| == t.limits.leaf
    requires s > 0 && Numbered(t, s - 1)
    ensures var u := LeafSplit(t, p, s);
      && Inv(u, Split(p, s)) && Numbered(u, s) && u.limits == t.limits
      && Climb(u, p) == Climb(t, p) && KidsChanged(t.pages, u.pages, {}) && LeavesBut(t.pages, u.pages, p)
      && ReachesRoot(u, p) == ReachesRoot(t, p) && Held(u, p, held, header) == Held(t, p, held, header)
  {
    hide Inv;
    LeafSplitKeepsInv(t, p, s);
    LeafIsLowest(t, p, Over(p));
    LeafSplitFrame(t, p, s);
    LeafClimbs(t, LeafSplit(t, p, s), p, Over(p), held, header);
  }

  lemma LeafSplitFrame(t: Tree, p: PageId, s: PageId)
    requires p in t.pages && t.pages[p].Leaf? && |t.pages[p].entries| == t.limits.leaf && t.limits.Ok()
    requires s > 0 && Numbered(t, s - 1) && p in t.span
    requires Sp(t, p).level == 0
    ensures var u := LeafSplit(t, p, s);
      && Numbered(u, s) && u.limits == t.limits && u.root == t.root && t.pages.Keys <= u.pages.Keys
      && u.pages[p].parent == t.pages[p].parent && (forall q :: q in t.pages && q != p ==> u.pages[q] == t.pages[q])
      && (forall q :: q in t.pages ==> Sp(u, q).level == Sp(t, q).level)
      && KidsChanged(t.pages, u.pages, {}) && LeavesBut(t.pages, u.pages, p)
  {}

  /** Changing a leaf and adding leaves does not change how far a split of the leaf climbs. */
  lemma LeafClimbs(t: Tree, u: Tree, p: PageId, pend: Pending, held: seq<PageId>, header: PageId)
    requires Inv(t, pend) && !pend.Split? && p in t.pages && t.pages[p].Leaf?
    requires t.root == u.root && t.limits == u.limits && t.pages.Keys <= u.pages.Keys && p in u.pages
    requires u.pages[p].parent == t.pages[p].parent
    requires forall q :: q in t.pages && q != p ==> u.pages[q] == t.pages[q]
    requires forall q :: q in t.pages ==> Sp(u, q).level == Sp(t, q).level
    ensures ReachesRoot(t, p) == ReachesRoot(u, p) && Held(t, p, held, header) == Held(u, p, held, header)
    ensures Climb(t, p) == Climb(u, p)
  {
    LeafIsLowest(t, p, pend);
    InvLinked(t, pend);
    hide Inv;
    ClimbsAlike(t, u, p, held, header);
  }

  lemma LeafIsLowest(t: Tree, p: PageId, pend: Pending)
    requires Inv(t, pend) && p in t.pages && t.pages[p].Leaf?
    ensures Sp(t, p).level == 0 && p in t.span && t.limits.Ok()
  {
    assert NodeOk(t, p, pend);
  }

  lemma GoodIs(st: State)
    requires Good(st) && st.tree.root != INVALID_PAGE_ID
    ensures Inv(st.tree, Whole) && Holds(st.tree.pages, st.contents) && Numbered(st.tree, st.last)
  {}

  lemma SomePage(t: Tree, last: PageId, p: PageId)
    requires Numbered(t, last) && p in t.pages
    ensures 0 <= p <= last
  {}

  /** The cases of an insert into a tree. */
  lemma InsertIs(st: State, x: LeafNode)
    requires Good(st) && st.tree.root != INVALID_PAGE_ID
    ensures var (t, m) := (st.tree, st.contents);
      if Refuses(t, m, x.key) then Insert(st, x) == st
      else
        var (p, u, m') := (LeafFor(t, x.key), LeafGrown(t, m, x), m[x.key := x.rid]);
        && Inv(u, Over(p)) && Holds(u.pages, m') && p in u.pages && u.pages[p].Leaf?
        && |u.pages[p].entries| == |t.pages[p].entries| + 1 <= u.limits.leaf == t.limits.leaf
        && Numbered(u, st.last) && st.last >= 0
        && if |u.pages[p].entries| < t.limits.leaf then Insert(st, x) == State(u, m', st.last)
           else var g := LeafBroken(u, p, st.last + 1); Insert(st, x) == State(g.tree, m', g.last)
  {
    hide Inv, Holds, LeafGrown, LeafBroken, Refuses, InsertAt;
    if !Refuses(st.tree, st.contents, x.key) {
      LeafGrownIs(st.tree, st.contents, x);
      SomePage(st.tree, st.last, LeafFor(st.tree, x.key));
    }
  }

  /** The pages whose entries an insert into a split leaf changes above it. */
  ghost function ClimbFor(t: Tree, m: map<Key, Rid>, k: Key): set<PageId>
    requires Inv(t, Whole)
  {
    if SplitsLeaf(t, m, k) then Climb(t, LeafFor(t, k)) else {}
  }

  /** Page by page: an insert changes the entries of internal pages exactly on the climb of the leaf it splits,
      and of the leaves that were there only the one the key belongs to. */
  lemma InsertChanges(st: State, x: LeafNode)
    requires Good(st)
    ensures var after := Insert(st, x);
      && Good(after) && after.tree.root != INVALID_PAGE_ID && after.tree.limits == st.tree.limits
      && st.last <= after.last
      && after.contents == (if st.tree.root != INVALID_PAGE_ID && Refuses(st.tree, st.contents, x.key) then st.contents
                            else st.contents[x.key := x.rid])
    ensures st.tree.root != INVALID_PAGE_ID ==>
      && KidsChanged(st.tree.pages, Insert(st, x).tree.pages, ClimbFor(st.tree, st.contents, x.key))
      && LeavesBut(st.tree.pages, Insert(st, x).tree.pages, LeafFor(st.tree, x.key))
  {
    var (t, m) := (st.tree, st.contents);
    if t.root == INVALID_PAGE_ID {
      FirstTree(t.limits, st.last + 1, x, seq(t.limits.leaf - 1, _ => ZERO_LEAF_NODE));
    } else if !Refuses(t, m, x.key) {
      ServedChanges(st, x);
    }
  }

  lemma ServedChanges(st: State, x: LeafNode)
    requires Good(st) && st.tree.root != INVALID_PAGE_ID && !Refuses(st.tree, st.contents, x.key)
    ensures var after := Insert(st, x);
      && Good(after) && after.tree.root != INVALID_PAGE_ID && after.tree.limits == st.tree.limits
      && st.last <= after.last
      && after.contents == st.contents[x.key := x.rid]
    ensures KidsChanged(st.tree.pages, Insert(st, x).tree.pages, ClimbFor(st.tree, st.contents, x.key))
    ensures LeavesBut(st.tree.pages, Insert(st, x).tree.pages, LeafFor(st.tree, x.key))
  {
    hide Inv, Holds, LeafGrown, LeafBroken, Refuses;
    var (t, m, p) := (st.tree, st.contents, LeafFor(st.tree, x.key));
    var u := LeafGrown(t, m, x);
    LeafGrownIs(t, m, x);
    if !IsFull(t.limits, t.pages[p]) {
      NotOver(u, p);
    } else {
      LeafBrokenIs(u, p, st.last + 1, m[x.key := x.rid]);
      LeafClimbs(t, u, p, Whole, [], INVALID_PAGE_ID);
    }
    RootIsPage(Insert(st, x).tree);
  }

  lemma RootIsPage(t: Tree)
    requires Inv(t, Whole)
    ensures t.root in t.pages && t.root != INVALID_PAGE_ID && t.limits.Ok()
  {}

  /** The inserts a descent as written leaves without the latches of the root's split. */
  ghost predicate Overruns(st: State, k: Key) {
    && Inv(st.tree, Whole) && SplitsLeaf(st.tree, st.contents, k)
    && LeafFor(st.tree, k) != st.tree.root && ReachesRoot(st.tree, LeafFor(st.tree, k))
  }

  /** An insert makes a tree one level higher if and only if it splits every page from its leaf to the root. */
  lemma InsertHeight(st: State, x: LeafNode)
    requires Good(st) && st.tree.root != INVALID_PAGE_ID
    ensures var (t, u) := (st.tree, Insert(st, x).tree);
      Sp(u, u.root).level == Sp(t, t.root).level
        + if SplitsLeaf(t, st.contents, x.key) && ReachesRoot(t, LeafFor(t, x.key)) then 1 else 0
  {
    hide Inv, Holds, LeafGrown, LeafSplit, Refuses, Told;
    var (t, m, p, s) := (st.tree, st.contents, LeafFor(st.tree, x.key), st.last + 1);
    if SplitsLeaf(t, m, x.key) {
      InsertIs(st, x);
      LeafGrownIs(t, m, x);
      var u := LeafGrown(t, m, x);
      LeafClimbs(t, u, p, Whole, [], INVALID_PAGE_ID);
      LeafSplitIs(u, p, s, [], INVALID_PAGE_ID);
      LeafIsLowest(u, p, Over(p));
      LeafSplitFrame(u, p, s);
      RootIsPage(t);
      ToldHeight(LeafSplit(u, p, s), p, s, s);
    } else if !Refuses(t, m, x.key) {
      LeafGrownIs(t, m, x);
    }
  }

  // ---------- runs of inserts ----------

  /** The state after a run of inserts. */
  ghost function InsertRun(st: State, ops: seq<LeafNode>): (after: State)
    requires Good(st)
    ensures Good(after) && after.tree.limits == st.tree.limits
  {
    if ops == [] then st
    else
      var before := InsertRun(st, ops[..|ops| - 1]);
      InsertChanges(before, ops[|ops| - 1]);
      Insert(before, ops[|ops| - 1])
  }

  // ---------- which latches a descent keeps ----------

  /** Safe by the comment is what cannot become over-full; as written, every leaf under its maximum is safe too. */
  predicate Safe(rule: SafetyRule, limits: Limits, page: Page) {
    !IsFull(limits, page) || (rule.AsWritten? && page.Leaf? && |page.entries| < limits.leaf)
  }

  /** The page set a descent to `p` ends with: nothing above a safe page, else the parent behind what its descent
      kept. */
  ghost function Crabbed(rule: SafetyRule, header: PageId, t: Tree, p: PageId): seq<PageId>
    decreases Sp(t, t.root).level - Sp(t, p).level
  {
    if p == t.root then [header]
    else if p !in t.pages || Safe(rule, t.limits, t.pages[p]) then []
    else
      var q := t.pages[p].parent;
      (if Sp(t, p).level < Sp(t, q).level <= Sp(t, t.root).level then Crabbed(rule, header, t, q) else []) + [q]
  }

  lemma {:induction false} CrabbedAbove(rule: SafetyRule, header: PageId, t: Tree, p: PageId, q: PageId)
    requires Inv(t, Whole) && p in t.pages && q in Crabbed(rule, header, t, p)
    ensures q == header || (q in t.pages && Sp(t, p).level < Sp(t, q).level)
    decreases Sp(t, t.root).level - Sp(t, p).level
  {
    InvLinked(t, Whole);
    if p != t.root && q != t.pages[p].parent {
      CrabbedAbove(rule, header, t, t.pages[p].parent, q);
    }
  }

  /** By the comment's rule a descent to a full page holds all a split of it needs. */
  lemma {:induction false} CrabbedIsHeld(header: PageId, t: Tree, p: PageId)
    requires Inv(t, Whole) && p in t.pages && (p == t.root || IsFull(t.limits, t.pages[p]))
    ensures Held(t, p, Crabbed(AsCommented, header, t, p), header)
    decreases Sp(t, t.root).level - Sp(t, p).level
  {
    InvLinked(t, Whole);
    if p != t.root {
      var q := t.pages[p].parent;
      if IsFull(t.limits, t.pages[q]) {
        CrabbedIsHeld(header, t, q);
        HeldGrows(t, q, Crabbed(AsCommented, header, t, q), q, header);
      }
    }
  }

  ghost predicate Within(a: set<PageId>, s: seq<PageId>) {
    forall q :: q in a ==> q in s
  }

  /** The latches kept cover the pages a leaf's split changes if and only if the comment's rule is used or the leaf is
      the root: as written, a split below the root changes its parent with no latch kept above the leaf. */
  lemma CrabbingCovers(rule: SafetyRule, header: PageId, t: Tree, leaf: PageId)
    requires Inv(t, Whole) && leaf in t.pages && t.pages[leaf].Leaf? && IsFull(t.limits, t.pages[leaf])
    ensures Within(Climb(t, leaf), Crabbed(rule, header, t, leaf)) <==> rule.AsCommented? || leaf == t.root
    ensures rule.AsWritten? && leaf != t.root ==>
      Crabbed(rule, header, t, leaf) == [] && t.pages[leaf].parent in Climb(t, leaf)
  {
    assert NodeOk(t, leaf, Whole);
    if rule.AsCommented? {
      CrabbedIsHeld(header, t, leaf);
      HeldCovers(t, leaf, Crabbed(rule, header, t, leaf), header);
    }
    if rule.AsWritten? && leaf != t.root {
      assert t.pages[leaf].parent in Climb(t, leaf);
    }
  }

  /** The page set a descent for `k` ends with covers every internal page the insert changes. */
  ghost predicate Latched(rule: SafetyRule, header: PageId, st: State, k: Key)
    requires Inv(st.tree, Whole)
  {
    Within(ClimbFor(st.tree, st.contents, k), Crabbed(rule, header, st.tree, LeafFor(st.tree, k)))
  }

  lemma LatchedExactly(rule: SafetyRule, header: PageId, st: State, k: Key)
    requires Inv(st.tree, Whole)
    ensures Latched(rule, header, st, k)
      <==> rule.AsCommented? || !SplitsLeaf(st.tree, st.contents, k) || LeafFor(st.tree, k) == st.tree.root
  {
    var (t, leaf) := (st.tree, LeafFor(st.tree, k));
    if SplitsLeaf(t, st.contents, k) {
      CrabbingCovers(rule, header, t, leaf);
    }
  }

  /** What the page set at a leaf is good for. */
  lemma CrabbedFacts(rule: SafetyRule, header: PageId, t: Tree, leaf: PageId)
    requires Inv(t, Whole) && leaf in t.pages && t.pages[leaf].Leaf?
    ensures var ps := Crabbed(rule, header, t, leaf);
      && (leaf == t.root ==> ps == [header])
      && (rule.AsCommented? && IsFull(t.limits, t.pages[leaf]) ==> Held(t, leaf, ps, header))
      && (rule.AsWritten? && leaf != t.root ==> ps == [])
  {
    assert NodeOk(t, leaf, Whole);
    if rule.AsCommented? && IsFull(t.limits, t.pages[leaf]) { CrabbedIsHeld(header, t, leaf); }
  }
}
