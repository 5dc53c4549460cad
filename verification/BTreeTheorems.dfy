/** What the local invariant means for the whole tree. */
module BTreeTheorems {
  import opened Ids
  import opened BTreeModel
  import opened BTreeSteps

  // ---------- shape ----------

  /** Pages each of which lists the next. */
  ghost predicate IsPath(t: Tree, path: seq<PageId>) {
    && path != []
    && (forall i :: 0 <= i < |path| ==> path[i] in t.pages)
    && (forall i :: 0 <= i < |path| - 1 ==> Lists(t.pages[path[i]], path[i + 1]))
  }

  lemma RestIsPath(t: Tree, path: seq<PageId>)
    requires IsPath(t, path) && |path| > 1
    ensures IsPath(t, path[1..])
  {
    var rest := path[1..];
    forall j | 0 <= j < |rest| - 1 ensures Lists(t.pages[rest[j]], rest[j + 1]) {
      assert Lists(t.pages[path[j + 1]], path[j + 1 + 1]);
    }
  }

  lemma {:induction false} PathDescends(t: Tree, path: seq<PageId>)
    requires Inv(t, Whole) && IsPath(t, path)
    ensures Sp(t, path[0]).level == Sp(t, path[|path| - 1]).level + |path| - 1
  {
    if |path| > 1 {
      assert NodeOk(t, path[0], Whole) && Lists(t.pages[path[0]], path[0 + 1]);
      var i :| 0 <= i < |t.pages[path[0]].kids| && t.pages[path[0]].kids[i].child == path[1];
      assert KidOk(t, path[0], i, Whole);
      RestIsPath(t, path);
      PathDescends(t, path[1..]);
    }
  }

  /** All leaves are at one depth: every way from the root to a leaf has the same number of pages. */
  lemma LeavesAtOneDepth(t: Tree, a: seq<PageId>, b: seq<PageId>)
    requires Inv(t, Whole) && IsPath(t, a) && IsPath(t, b) && a[0] == b[0] == t.root
    requires t.pages[a[|a| - 1]].Leaf? && t.pages[b[|b| - 1]].Leaf?
    ensures |a| == |b|
  {
    PathDescends(t, a);
    PathDescends(t, b);
    assert NodeOk(t, a[|a| - 1], Whole) && NodeOk(t, b[|b| - 1], Whole);
  }

  lemma {:induction false} PathNarrows(t: Tree, path: seq<PageId>)
    requires Inv(t, Whole) && IsPath(t, path)
    ensures Sp(t, path[0]).lo <= Sp(t, path[|path| - 1]).lo && Sp(t, path[|path| - 1]).hi <= Sp(t, path[0]).hi
  {
    if |path| > 1 {
      assert NodeOk(t, path[0], Whole) && Lists(t.pages[path[0]], path[0 + 1]);
      var i :| 0 <= i < |t.pages[path[0]].kids| && t.pages[path[0]].kids[i].child == path[1];
      assert KidOk(t, path[0], i, Whole);
      RestIsPath(t, path);
      PathNarrows(t, path[1..]);
    }
  }

  /** Each separator bounds, on both sides, every key stored anywhere below the child it belongs to. */
  lemma SeparatorsBoundSubtrees(t: Tree, p: PageId, i: int, path: seq<PageId>, j: int)
    requires Inv(t, Whole) && p in t.pages && t.pages[p].Internal? && 0 <= i < |t.pages[p].kids|
    requires IsPath(t, path) && path[0] == t.pages[p].kids[i].child
    requires var leaf := path[|path| - 1]; t.pages[leaf].Leaf? && 0 <= j < |t.pages[leaf].entries|
    ensures var key := t.pages[path[|path| - 1]].entries[j].key;
      && (i > 0 ==> t.pages[p].kids[i].key <= key)
      && (i + 1 < |t.pages[p].kids| ==> key < t.pages[p].kids[i + 1].key)
  {
    PathNarrows(t, path);
    assert NodeOk(t, p, Whole);
    assert KidOk(t, p, i, Whole);
    assert NodeOk(t, path[|path| - 1], Whole);
  }

  /** The stored parent id of a page names the one page that lists it, once; the root is listed nowhere. */
  lemma ParentIsTheOneLister(t: Tree, p: PageId, q: PageId)
    requires Inv(t, Whole) && p in t.pages && q in t.pages
    ensures Lists(t.pages[q], p) <==> p != t.root && q == t.pages[p].parent
    ensures p == t.root <==> t.pages[p].parent == INVALID_PAGE_ID
    ensures forall i, j :: t.pages[q].Internal? && 0 <= i < j < |t.pages[q].kids| ==>
      t.pages[q].kids[i].child != t.pages[q].kids[j].child
  {
    assert NodeOk(t, p, Whole);
    assert NodeOk(t, q, Whole);
    assert ParentOk(t, p, Whole);
    if Lists(t.pages[q], p) {
      var i :| 0 <= i < |t.pages[q].kids| && t.pages[q].kids[i].child == p;
      assert KidOk(t, q, i, Whole);
    }
    if t.pages[q].Internal? {
      forall i, j | 0 <= i < j < |t.pages[q].kids|
        ensures t.pages[q].kids[i].child != t.pages[q].kids[j].child
      {
        KidsDistinct(t, q, i, j, Whole);
      }
    }
  }

  /** How full every page is. */
  lemma FillOfPages(t: Tree, p: PageId)
    requires Inv(t, Whole) && p in t.pages
    ensures t.pages[p].Leaf? ==>
      && 1 <= |t.pages[p].entries| <= t.limits.leaf - 1
      && (p != t.root ==> t.limits.leaf / 2 <= |t.pages[p].entries|)
    ensures t.pages[p].Internal? ==>
      && 2 <= |t.pages[p].kids| <= t.limits.internal
      && (p != t.root ==> (t.limits.internal + 1) / 2 <= |t.pages[p].kids|)
  {
    assert NodeOk(t, p, Whole);
  }

  // ---------- what the pages alone decide ----------

  /** The same pages, root and limits. */
  ghost predicate SamePages(t: Tree, u: Tree) {
    t.pages == u.pages && t.root == u.root && t.limits == u.limits
  }

  lemma {:induction false} SameLevels(t: Tree, u: Tree, p: PageId)
    requires Inv(t, Whole) && Inv(u, Whole) && SamePages(t, u) && p in t.pages
    ensures Sp(t, p).level == Sp(u, p).level
    decreases Sp(t, p).level
  {
    assert NodeOk(t, p, Whole) && NodeOk(u, p, Whole);
    if t.pages[p].Internal? {
      assert KidOk(t, p, 0, Whole) && KidOk(u, p, 0, Whole);
      SameLevels(t, u, t.pages[p].kids[0].child);
    }
  }

  lemma {:induction false} SameBounds(t: Tree, u: Tree, p: PageId)
    requires Inv(t, Whole) && Inv(u, Whole) && SamePages(t, u) && p in t.pages
    ensures Sp(t, p).lo == Sp(u, p).lo && Sp(t, p).hi == Sp(u, p).hi
    decreases Sp(t, t.root).level - Sp(t, p).level
  {
    assert NodeOk(t, p, Whole) && NodeOk(u, p, Whole);
    if p != t.root {
      InvLinked(t, Whole);
      assert ParentOk(t, p, Whole);
      var q := t.pages[p].parent;
      var i :| 0 <= i < |t.pages[q].kids| && t.pages[q].kids[i].child == p;
      assert NodeOk(t, q, Whole) && NodeOk(u, q, Whole);
      assert KidOk(t, q, i, Whole) && KidOk(u, q, i, Whole);
      SameBounds(t, u, q);
    }
  }

  /** Spans and map are no more than what the pages say: the pages of an index stand for one map only. */
  lemma PagesDecideState(a: State, b: State)
    requires Good(a) && Good(b) && SamePages(a.tree, b.tree)
    ensures a.tree == b.tree && a.contents == b.contents
  {
    if a.tree.root != INVALID_PAGE_ID {
      forall p | p in a.tree.pages ensures a.tree.span[p] == b.tree.span[p] {
        SameLevels(a.tree, b.tree, p);
        SameBounds(a.tree, b.tree, p);
      }
      assert a.tree.span == b.tree.span;
    }
    HeldByBoth(a.tree.pages, a.contents, b.contents);
    HeldByBoth(a.tree.pages, b.contents, a.contents);
    assert a.contents.Keys == b.contents.Keys;
  }

  lemma HeldByBoth(pages: map<PageId, Page>, m: map<Key, Rid>, n: map<Key, Rid>)
    requires Holds(pages, m) && Holds(pages, n)
    ensures forall k :: k in m ==> k in n && n[k] == m[k]
  {
    forall k | k in m ensures k in n && n[k] == m[k] {
      var p, i :| At(pages, p, i, k);
    }
  }

  // ---------- the chain of leaves ----------

  lemma NextLeaf(t: Tree, p: PageId)
    requires Inv(t, Whole) && p in t.pages && t.pages[p].Leaf?
    ensures var next := t.pages[p].next;
      if next == INVALID_PAGE_ID then Sp(t, p).hi == KEY_END
      else next in t.pages && t.pages[next].Leaf? && Sp(t, next).lo == Sp(t, p).hi < Sp(t, next).hi <= KEY_END
  {
    assert NodeOk(t, p, Whole);
    assert NextOk(t, p);
    if Sp(t, p).hi != KEY_END {
      assert NodeOk(t, t.pages[p].next, Whole);
    }
  }

  /** Everything met by following next ids from a leaf. */
  ghost function Chain(t: Tree, p: PageId): seq<LeafNode>
    requires Inv(t, Whole) && p in t.pages && t.pages[p].Leaf?
    decreases KEY_END - Sp(t, p).hi
  {
    NextLeaf(t, p);
    t.pages[p].entries + if t.pages[p].next == INVALID_PAGE_ID then [] else Chain(t, t.pages[p].next)
  }

  lemma {:induction false} ChainSorted(t: Tree, p: PageId)
    requires Inv(t, Whole) && p in t.pages && t.pages[p].Leaf?
    ensures Sorted(Chain(t, p)) && KeysIn(Chain(t, p), Sp(t, p).lo, KEY_END)
    decreases KEY_END - Sp(t, p).hi
  {
    NextLeaf(t, p);
    assert NodeOk(t, p, Whole);
    if t.pages[p].next != INVALID_PAGE_ID {
      ChainSorted(t, t.pages[p].next);
    }
  }

  lemma {:induction false} ChainHolds(t: Tree, p: PageId, q: PageId, i: int)
    requires Inv(t, Whole) && p in t.pages && t.pages[p].Leaf?
    requires q in t.pages && t.pages[q].Leaf? && 0 <= i < |t.pages[q].entries|
    requires Sp(t, p).lo <= t.pages[q].entries[i].key
    ensures t.pages[q].entries[i] in Chain(t, p)
    decreases KEY_END - Sp(t, p).hi
  {
    NextLeaf(t, p);
    assert NodeOk(t, q, Whole) && NodeOk(t, p, Whole);
    var k := t.pages[q].entries[i].key;
    if k < Sp(t, p).hi {
      LeafIsUnique(t, p, q, k);
    } else {
      ChainHolds(t, t.pages[p].next, q, i);
    }
  }

  lemma {:induction false} ChainFromLeaves(t: Tree, p: PageId, x: LeafNode)
    requires Inv(t, Whole) && p in t.pages && t.pages[p].Leaf? && x in Chain(t, p)
    ensures exists q, i :: At(t.pages, q, i, x.key) && t.pages[q].entries[i] == x
    decreases KEY_END - Sp(t, p).hi
  {
    NextLeaf(t, p);
    if x in t.pages[p].entries {
      var i :| 0 <= i < |t.pages[p].entries| && t.pages[p].entries[i] == x;
      assert At(t.pages, p, i, x.key);
    } else {
      ChainFromLeaves(t, t.pages[p].next, x);
    }
  }

  /** Following next ids from the leftmost leaf gives the whole map in strictly increasing key order. */
  lemma ChainIsTheSortedMap(t: Tree, m: map<Key, Rid>)
    requires Inv(t, Whole) && Holds(t.pages, m)
    ensures var chain := Chain(t, LeafFor(t, KEY_MIN));
      && Sorted(chain)
      && (forall x :: x in chain <==> x.key in m && m[x.key] == x.rid)
  {
    var p := LeafFor(t, KEY_MIN);
    assert NodeOk(t, p, Whole);
    ChainSorted(t, p);
    forall x ensures x in Chain(t, p) <==> x.key in m && m[x.key] == x.rid {
      if x in Chain(t, p) {
        ChainFromLeaves(t, p, x);
      }
      if x.key in m && m[x.key] == x.rid {
        var q, i :| At(t.pages, q, i, x.key);
        ChainHolds(t, p, q, i);
      }
    }
  }

  // ---------- height ----------

  lemma Scaled(n: nat, a: nat, b: nat)
    requires a <= b
    ensures n * a <= n * b && a * n <= b * n
  {}

  lemma OneMoreTime(n: int, a: nat)
    ensures n * a == (n - 1) * a + a
  {}

  /** The least number of keys below a node of a level that is not the root. */
  function MinKeys(limits: Limits, level: nat): nat {
    if level == 0 then limits.MinLeaf() else limits.MinInternal() * MinKeys(limits, level - 1)
  }

  ghost function KeysBetween(m: map<Key, Rid>, lo: int, hi: int): set<Key> {
    set k | k in m && lo <= k < hi
  }

  lemma {:induction false} SortedKeysCount(s: seq<LeafNode>, m: map<Key, Rid>, lo: int, hi: int)
    requires Sorted(s) && KeysIn(s, lo, hi) && forall i :: 0 <= i < |s| ==> s[i].key in m
    ensures |KeysBetween(m, lo, hi)| >= |s|
  {
    if s != [] {
      var last := s[|s| - 1];
      var rest := s[..|s| - 1];
      SortedKeysCount(rest, m, lo, last.key);
      KeysSplit(m, lo, last.key, hi);
      assert last.key in KeysBetween(m, last.key, hi);
    }
  }

  lemma KeysSplit(m: map<Key, Rid>, lo: int, mid: int, hi: int)
    requires lo <= mid <= hi
    ensures |KeysBetween(m, lo, hi)| == |KeysBetween(m, lo, mid)| + |KeysBetween(m, mid, hi)|
  {
    assert KeysBetween(m, lo, hi) == KeysBetween(m, lo, mid) + KeysBetween(m, mid, hi);
  }

  lemma {:induction false} NodeHoldsEnough(t: Tree, m: map<Key, Rid>, p: PageId)
    requires Inv(t, Whole) && Holds(t.pages, m) && p in t.pages && p != t.root
    ensures |KeysBetween(m, Sp(t, p).lo, Sp(t, p).hi)| >= MinKeys(t.limits, Sp(t, p).level)
    decreases Sp(t, p).level, 1, 0
  {
    assert NodeOk(t, p, Whole);
    if t.pages[p].Leaf? {
      var s := t.pages[p].entries;
      forall i | 0 <= i < |s| ensures s[i].key in m { assert At(t.pages, p, i, s[i].key); }
      SortedKeysCount(s, m, Sp(t, p).lo, Sp(t, p).hi);
    } else {
      var n := |t.pages[p].kids|;
      KidsHoldEnough(t, m, p, n);
      Scaled(MinKeys(t.limits, Sp(t, p).level - 1), t.limits.MinInternal(), n);
    }
  }

  lemma {:induction false} KidsHoldEnough(t: Tree, m: map<Key, Rid>, p: PageId, n: nat)
    requires Inv(t, Whole) && Holds(t.pages, m) && p in t.pages && t.pages[p].Internal?
    requires 1 <= n <= |t.pages[p].kids|
    ensures Sp(t, p).level > 0
    ensures var kids := t.pages[p].kids; var end := if n < |kids| then kids[n].key else Sp(t, p).hi;
      |KeysBetween(m, Sp(t, p).lo, end)| >= n * MinKeys(t.limits, Sp(t, p).level - 1)
    decreases Sp(t, p).level, 0, n
  {
    assert NodeOk(t, p, Whole);
    var kids := t.pages[p].kids;
    var c := kids[n - 1].child;
    assert KidOk(t, p, n - 1, Whole);
    assert NodeOk(t, t.root, Whole) && ParentOk(t, t.root, Whole);
    NodeHoldsEnough(t, m, c);
    if n > 1 {
      KidsHoldEnough(t, m, p, n - 1);
      KeysSplit(m, Sp(t, p).lo, Sp(t, c).lo, Sp(t, c).hi);
      OneMoreTime(n, MinKeys(t.limits, Sp(t, p).level - 1));
    }
  }

  /** A tree of `level + 1` levels holds at least twice the least content of a node below its root, so a
      descent, which meets one page a level, is logarithmic in the number of keys. */
  lemma HeightIsLogarithmic(t: Tree, m: map<Key, Rid>)
    requires Inv(t, Whole) && Holds(t.pages, m) && t.pages[t.root].Internal?
    ensures Sp(t, t.root).level > 0
    ensures |m| >= 2 * MinKeys(t.limits, Sp(t, t.root).level - 1)
  {
    assert NodeOk(t, t.root, Whole);
    var n := |t.pages[t.root].kids|;
    KidsHoldEnough(t, m, t.root, n);
    assert KeysBetween(m, KEY_MIN, KEY_END) == m.Keys;
    Scaled(MinKeys(t.limits, Sp(t, t.root).level - 1), 2, n);
  }

  // ---------- inputs the program does not serve ----------

  /** Among keys that are not negative the dropped key 0 never shows. */
  lemma NothingDroppedAmongNonNegative(t: Tree, m: map<Key, Rid>, k: Key)
    requires Inv(t, Whole) && Holds(t.pages, m) && forall x :: x in m ==> x >= 0
    ensures Refuses(t, m, k) <==> k in m
  {
    var p := LeafFor(t, k);
    assert NodeOk(t, p, Whole);
    assert At(t.pages, p, 0, t.pages[p].entries[0].key);
  }

  /** In an index of any page size whose one key is negative, key 0 is lost although it is absent. */
  lemma ZeroAfterNegativeIsLost(limits: Limits, id: PageId, k: Key, rid: Rid)
    requires limits.Ok() && id >= 0 && k < 0
    ensures var st := State(FirstLeaf(limits, id, LeafNode(k, rid)), map[k := rid], id);
      Good(st) && 0 !in st.contents && Refuses(st.tree, st.contents, 0)
  {
    FirstTree(limits, id, LeafNode(k, rid), seq(limits.leaf - 1, _ => ZERO_LEAF_NODE));
  }

  // ---------- where the code as written stops ----------

  /** The most keys at or below a node of a level. */
  function MaxKeys(limits: Limits, level: nat): nat
    requires limits.Ok()
  {
    if level == 0 then limits.leaf - 1 else limits.internal * MaxKeys(limits, level - 1)
  }

  lemma {:induction false} KeysAmong(keys: set<Key>, s: seq<LeafNode>)
    requires forall k :: k in keys ==> exists i :: 0 <= i < |s| && s[i].key == k
    ensures |keys| <= |s|
  {
    if s == [] {
      assert keys == {};
    } else {
      var last := s[|s| - 1].key;
      var rest := s[..|s| - 1];
      forall k | k in keys - {last} ensures exists i :: 0 <= i < |rest| && rest[i].key == k {
        var i :| 0 <= i < |s| && s[i].key == k;
        assert rest[i].key == k;
      }
      KeysAmong(keys - {last}, rest);
    }
  }

  lemma {:induction false} NodeHoldsAtMost(t: Tree, m: map<Key, Rid>, p: PageId)
    requires Inv(t, Whole) && Holds(t.pages, m) && p in t.pages
    ensures |KeysBetween(m, Sp(t, p).lo, Sp(t, p).hi)| <= MaxKeys(t.limits, Sp(t, p).level)
    decreases Sp(t, p).level, 1, 0
  {
    assert NodeOk(t, p, Whole);
    if t.pages[p].Leaf? {
      var s := t.pages[p].entries;
      forall k | k in KeysBetween(m, Sp(t, p).lo, Sp(t, p).hi) ensures exists i :: 0 <= i < |s| && s[i].key == k {
        LeafDecides(t, m, p, k);
        var i :| At(t.pages, p, i, k);
        assert s[i].key == k;
      }
      KeysAmong(KeysBetween(m, Sp(t, p).lo, Sp(t, p).hi), s);
    } else {
      var n := |t.pages[p].kids|;
      KidsHoldAtMost(t, m, p, n);
      Scaled(MaxKeys(t.limits, Sp(t, p).level - 1), n, t.limits.internal);
    }
  }

  lemma {:induction false} KidsHoldAtMost(t: Tree, m: map<Key, Rid>, p: PageId, n: nat)
    requires Inv(t, Whole) && Holds(t.pages, m) && p in t.pages && t.pages[p].Internal?
    requires 1 <= n <= |t.pages[p].kids|
    ensures Sp(t, p).level > 0
    ensures var kids := t.pages[p].kids; var end := if n < |kids| then kids[n].key else Sp(t, p).hi;
      |KeysBetween(m, Sp(t, p).lo, end)| <= n * MaxKeys(t.limits, Sp(t, p).level - 1)
    decreases Sp(t, p).level, 0, n
  {
    assert NodeOk(t, p, Whole);
    var kids := t.pages[p].kids;
    var c := kids[n - 1].child;
    assert KidOk(t, p, n - 1, Whole);
    NodeHoldsAtMost(t, m, c);
    if n > 1 {
      KidsHoldAtMost(t, m, p, n - 1);
      KeysSplit(m, Sp(t, p).lo, Sp(t, c).lo, Sp(t, c).hi);
      OneMoreTime(n, MaxKeys(t.limits, Sp(t, p).level - 1));
    }
  }

  /** A tree is no lower than its keys demand. */
  lemma HeightIsEnough(t: Tree, m: map<Key, Rid>)
    requires Inv(t, Whole) && Holds(t.pages, m)
    ensures |m| <= MaxKeys(t.limits, Sp(t, t.root).level)
  {
    assert NodeOk(t, t.root, Whole);
    NodeHoldsAtMost(t, m, t.root);
    assert KeysBetween(m, KEY_MIN, KEY_END) == m.Keys;
  }

  lemma {:induction false} FullToTheRoot(t: Tree, p: PageId)
    requires Inv(t, Whole) && p in t.pages && p != t.root && ReachesRoot(t, p)
    ensures t.pages[t.root].Internal? && |t.pages[t.root].kids| == t.limits.internal
    decreases Sp(t, t.root).level - Sp(t, p).level
  {
    InvLinked(t, Whole);
    var q := t.pages[p].parent;
    if q == t.root {
      assert NodeOk(t, q, Whole);
    } else {
      FullToTheRoot(t, q);
    }
  }

  lemma {:induction false} MinKeysGrow(limits: Limits, level: nat)
    requires limits.Ok()
    ensures MinKeys(limits, level) >= limits.MinLeaf() >= 1
    ensures level > 0 ==> MinKeys(limits, level) >= 2 * limits.MinLeaf()
  {
    if level > 0 {
      MinKeysGrow(limits, level - 1);
      Scaled(MinKeys(limits, level - 1), 2, limits.MinInternal());
    }
  }

  /** As written an insert can only run out of latches in a tree of at least this many keys, of any shape: a caller
      who counts the keys knows when every insert is served. */
  lemma OverrunNeedsKeys(st: State, k: Key)
    requires Good(st) && Overruns(st, k)
    ensures |st.contents| >= st.tree.limits.internal * st.tree.limits.MinLeaf()
  {
    var (t, m) := (st.tree, st.contents);
    FullToTheRoot(t, LeafFor(t, k));
    assert NodeOk(t, t.root, Whole);
    KidsHoldEnough(t, m, t.root, t.limits.internal);
    assert KeysBetween(m, KEY_MIN, KEY_END) == m.Keys;
    MinKeysGrow(t.limits, Sp(t, t.root).level - 1);
    Scaled(t.limits.internal, t.limits.MinLeaf(), MinKeys(t.limits, Sp(t, t.root).level - 1));
  }
}
