/** The B+ tree as a store of page values, and the invariant every insert keeps.

    A page is identified by its number.  Every page carries, besides what the program stores,
    a ghost span: the half-open key range [lo, hi) it is responsible for and its level (0 for a
    leaf).  All clauses of the invariant are local: they relate a page to the pages it lists,
    to its parent or to the next leaf. */
module BTreeModel {
  import opened Ids

  /** INTEGER keys: the comparator reads the first four key bytes as an int32. */
  const KEY_MIN: int := -0x8000_0000
  const KEY_END: int := 0x8000_0000
  type Key = k: int | KEY_MIN <= k < KEY_END witness 0

  datatype LeafNode = LeafNode(key: Key, rid: Rid)
  datatype InternalNode = InternalNode(key: Key, child: PageId)

  /** `entries` and `tail` are the used and the unused slots of a leaf; unused slots keep stale data. */
  datatype Page =
    | Leaf(parent: PageId, next: PageId, entries: seq<LeafNode>, tail: seq<LeafNode>)
    | Internal(parent: PageId, kids: seq<InternalNode>)

  datatype Limits = Limits(leaf: nat, internal: nat)
  {
    ghost predicate Ok() { 2 <= leaf && 3 <= internal }
    function MinLeaf(): nat { leaf / 2 }
    function MinInternal(): nat { (internal + 1) / 2 }
  }

  datatype Span = Span(lo: int, hi: int, level: nat)

  datatype Tree = Tree(limits: Limits, root: PageId, pages: map<PageId, Page>, span: map<PageId, Span>)

  /** What an insert in progress may leave unfinished: one node holding one entry too many, or a
      split node whose right half no parent lists yet. */
  datatype Pending = Whole | Over(page: PageId) | Split(left: PageId, right: PageId)

  const ZERO_LEAF_NODE := LeafNode(0, Rid(0, 0))

  function InsertAt<T>(s: seq<T>, i: nat, x: T): (r: seq<T>)
    requires i <= |s|
    ensures |r| == |s| + 1 && r[i] == x
    ensures forall j :: 0 <= j < i ==> r[j] == s[j]
    ensures forall j {:trigger r[j]} :: i < j < |r| ==> r[j] == s[j - 1]
  {
    s[..i] + [x] + s[i..]
  }

  // ---------- the invariant ----------

  ghost function Sp(t: Tree, p: PageId): Span {
    if p in t.span then t.span[p] else Span(0, 0, 0)
  }

  /** The end of the range the parent still attributes to `c`. */
  ghost function End(t: Tree, c: PageId, pend: Pending): int {
    if pend.Split? && c == pend.left then Sp(t, pend.right).hi else Sp(t, c).hi
  }

  ghost predicate Sorted(s: seq<LeafNode>) {
    forall i, j :: 0 <= i < j < |s| ==> s[i].key < s[j].key
  }

  ghost predicate KeysIn(s: seq<LeafNode>, lo: int, hi: int) {
    forall i :: 0 <= i < |s| ==> lo <= s[i].key < hi
  }

  /** Unused slots hold zeros or entries that were moved to a leaf on the right. */
  ghost predicate Stale(s: seq<LeafNode>, hi: int) {
    forall i :: 0 <= i < |s| ==> s[i].key == 0 || hi <= s[i].key
  }

  ghost predicate SeparatorsOk(kids: seq<InternalNode>, lo: int, hi: int) {
    && (forall i :: 1 <= i < |kids| ==> lo < kids[i].key < hi)
    && (forall i, j :: 1 <= i < j < |kids| ==> kids[i].key < kids[j].key)
  }

  ghost predicate Lists(page: Page, c: PageId) {
    page.Internal? && exists i :: 0 <= i < |page.kids| && page.kids[i].child == c
  }

  ghost predicate KidOk(t: Tree, p: PageId, i: int, pend: Pending)
    requires p in t.pages && t.pages[p].Internal? && 0 <= i < |t.pages[p].kids|
  {
    var kids := t.pages[p].kids;
    var c := kids[i].child;
    && c in t.pages
    && t.pages[c].parent == p
    && (pend.Split? ==> c != pend.right)
    && Sp(t, c).level + 1 == Sp(t, p).level
    && Sp(t, c).lo == (if i == 0 then Sp(t, p).lo else kids[i].key)
    && End(t, c, pend) == (if i + 1 < |kids| then kids[i + 1].key else Sp(t, p).hi)
  }

  ghost function Excess(pend: Pending, p: PageId): nat {
    if pend == Over(p) then 1 else 0
  }

  /** At least as full as a node other than the root has to be. */
  ghost predicate Filled(limits: Limits, page: Page) {
    if page.Leaf? then limits.MinLeaf() <= |page.entries| else limits.MinInternal() <= |page.kids|
  }

  ghost predicate InternalOk(t: Tree, p: PageId, pend: Pending)
    requires p in t.pages && t.pages[p].Internal?
  {
    var kids := t.pages[p].kids;
    && Sp(t, p).level > 0
    && 2 <= |kids| <= t.limits.internal + Excess(pend, p)
    && (p != t.root ==> Filled(t.limits, t.pages[p]))
    && SeparatorsOk(kids, Sp(t, p).lo, Sp(t, p).hi)
    && forall i {:trigger KidOk(t, p, i, pend)} :: 0 <= i < |kids| ==> KidOk(t, p, i, pend)
  }

  ghost predicate NextOk(t: Tree, p: PageId)
    requires p in t.pages && t.pages[p].Leaf?
  {
    var next := t.pages[p].next;
    if Sp(t, p).hi == KEY_END then next == INVALID_PAGE_ID
    else next in t.pages && t.pages[next].Leaf? && Sp(t, next).lo == Sp(t, p).hi
  }

  ghost predicate LeafOk(t: Tree, p: PageId, pend: Pending)
    requires p in t.pages && t.pages[p].Leaf?
  {
    var page := t.pages[p];
    && Sp(t, p).level == 0
    && 1 <= |page.entries| < t.limits.leaf + Excess(pend, p)
    && (p != t.root ==> Filled(t.limits, page))
    && |page.entries| + |page.tail| == t.limits.leaf
    && Sorted(page.entries)
    && KeysIn(page.entries, Sp(t, p).lo, Sp(t, p).hi)
    && Stale(page.tail, Sp(t, p).hi)
    && NextOk(t, p)
  }

  ghost predicate ParentOk(t: Tree, p: PageId, pend: Pending)
    requires p in t.pages
  {
    var parent := t.pages[p].parent;
    if p == t.root then parent == INVALID_PAGE_ID
    else if pend.Split? && p == pend.right then true
    else parent in t.pages && Sp(t, p).level < Sp(t, t.root).level && Lists(t.pages[parent], p)
  }

  ghost predicate NodeOk(t: Tree, p: PageId, pend: Pending)
    requires p in t.pages
  {
    && KEY_MIN <= Sp(t, p).lo < Sp(t, p).hi <= KEY_END
    && Sp(t, p).level <= Sp(t, t.root).level
    && (if t.pages[p].Leaf? then LeafOk(t, p, pend) else InternalOk(t, p, pend))
    && ParentOk(t, p, pend)
  }

  ghost predicate PendingOk(t: Tree, pend: Pending) {
    pend.Split? ==>
      && pend.left in t.pages && pend.right in t.pages && pend.left != pend.right && pend.right != t.root
      && Filled(t.limits, t.pages[pend.left])
      && t.pages[pend.right].parent == t.pages[pend.left].parent
      && Sp(t, pend.left).level == Sp(t, pend.right).level
      && Sp(t, pend.left).hi == Sp(t, pend.right).lo
  }

  ghost predicate Inv(t: Tree, pend: Pending) {
    && t.limits.Ok()
    && t.span.Keys == t.pages.Keys
    && t.root in t.pages && INVALID_PAGE_ID !in t.pages
    && Sp(t, t.root).lo == KEY_MIN && End(t, t.root, pend) == KEY_END
    && PendingOk(t, pend)
    && forall p {:trigger NodeOk(t, p, pend)} :: p in t.pages ==> NodeOk(t, p, pend)
  }

  // ---------- contents ----------

  ghost predicate At(pages: map<PageId, Page>, p: PageId, i: int, k: Key) {
    p in pages && pages[p].Leaf? && 0 <= i < |pages[p].entries| && pages[p].entries[i].key == k
  }

  /** `m` is exactly what the leaves of the store hold. */
  ghost predicate Holds(pages: map<PageId, Page>, m: map<Key, Rid>) {
    && (forall p, i, k :: At(pages, p, i, k) ==> k in m && m[k] == pages[p].entries[i].rid)
    && (forall k :: k in m ==> exists p, i :: At(pages, p, i, k))
  }

  ghost predicate SameLeaf(a: Page, b: Page) {
    a.Leaf? && b.Leaf? && a.entries == b.entries && a.tail == b.tail && a.next == b.next
  }

  /** The leaves keep their entries; only parent ids of leaves and internal pages may differ. */
  ghost predicate SameLeaves(a: map<PageId, Page>, b: map<PageId, Page>) {
    && (forall p :: p in a && a[p].Leaf? ==> p in b && SameLeaf(a[p], b[p]))
    && (forall p :: p in b && b[p].Leaf? ==> p in a && a[p].Leaf?)
  }

  lemma SameLeavesTrans(a: map<PageId, Page>, b: map<PageId, Page>, c: map<PageId, Page>)
    requires SameLeaves(a, b) && SameLeaves(b, c)
    ensures SameLeaves(a, c)
  {}

  /** Of the internal pages that were there, exactly those in `s` have other entries than before. */
  ghost predicate KidsChanged(a: map<PageId, Page>, b: map<PageId, Page>, s: set<PageId>) {
    forall q :: q in a && a[q].Internal? ==> q in b && b[q].Internal? && (b[q].kids != a[q].kids <==> q in s)
  }

  lemma KidsChangedTrans(a: map<PageId, Page>, b: map<PageId, Page>, c: map<PageId, Page>, s: set<PageId>,
    r: set<PageId>)
    requires KidsChanged(a, b, s) && KidsChanged(b, c, r) && s !! r
    ensures KidsChanged(a, c, s + r)
  {}

  /** Of the leaves that were there, all but one keep their entries, unused slots and next ids. */
  ghost predicate LeavesBut(a: map<PageId, Page>, b: map<PageId, Page>, p: PageId) {
    forall q :: q in a && a[q].Leaf? && q != p ==> q in b && SameLeaf(a[q], b[q])
  }

  lemma SameLeavesHold(a: map<PageId, Page>, b: map<PageId, Page>, m: map<Key, Rid>)
    requires SameLeaves(a, b) && Holds(a, m)
    ensures Holds(b, m)
  {
    forall p, i, k | At(b, p, i, k) ensures k in m && m[k] == b[p].entries[i].rid {
      assert At(a, p, i, k);
    }
    forall k | k in m ensures exists p, i :: At(b, p, i, k) {
      var p, i :| At(a, p, i, k);
      assert At(b, p, i, k);
    }
  }

  // ---------- one step of each kind keeps the invariant ----------

  /** Slot `i` is where a new key `k` belongs. */
  ghost predicate FitsBefore(s: seq<LeafNode>, i: int, k: int) {
    && 0 <= i <= |s|
    && (forall j :: 0 <= j < i ==> s[j].key < k)
    && (forall j :: i <= j < |s| ==> k < s[j].key)
  }

  ghost function WithInserted(t: Tree, p: PageId, i: nat, x: LeafNode): Tree
    requires p in t.pages && t.pages[p].Leaf? && i <= |t.pages[p].entries| && t.pages[p].tail != []
  {
    var page := t.pages[p];
    t.(pages := t.pages[p := page.(entries := InsertAt(page.entries, i, x), tail := page.tail[1..])])
  }

  lemma InsertKeepsLeaf(t: Tree, p: PageId, i: nat, x: LeafNode)
    requires t.span.Keys == t.pages.Keys && p in t.pages && t.pages[p].Leaf? && LeafOk(t, p, Whole)
    requires Sp(t, p).lo <= x.key < Sp(t, p).hi && FitsBefore(t.pages[p].entries, i, x.key)
    ensures LeafOk(WithInserted(t, p, i, x), p, Over(p))
  {
    var u := WithInserted(t, p, i, x);
    var e, e' := t.pages[p].entries, u.pages[p].entries;
    assert NextOk(t, p);
    assert Sorted(e') by {
      forall a, b | 0 <= a < b < |e'| ensures e'[a].key < e'[b].key {
        assert e'[a] == if a < i then e[a] else if a == i then x else e[a - 1];
        assert e'[b] == if b < i then e[b] else if b == i then x else e[b - 1];
      }
    }
    assert KeysIn(e', Sp(u, p).lo, Sp(u, p).hi) by {
      forall a | 0 <= a < |e'| ensures Sp(u, p).lo <= e'[a].key < Sp(u, p).hi {
        assert e'[a] == if a < i then e[a] else if a == i then x else e[a - 1];
      }
    }
    assert NextOk(u, p);
  }

  /** A leaf insert may fill the leaf to its maximum, and does nothing else to the shape. */
  lemma InsertKeepsInv(t: Tree, p: PageId, i: nat, x: LeafNode)
    requires Inv(t, Whole) && p in t.pages && t.pages[p].Leaf?
    requires Sp(t, p).lo <= x.key < Sp(t, p).hi && FitsBefore(t.pages[p].entries, i, x.key)
    ensures t.pages[p].tail != []
    ensures Inv(WithInserted(t, p, i, x), Over(p))
  {
    assert NodeOk(t, p, Whole);
    InsertKeepsLeaf(t, p, i, x);
    var u := WithInserted(t, p, i, x);
    forall q | q in u.pages ensures NodeOk(u, q, Over(p)) {
      assert NodeOk(t, q, Whole);
      if q != p {
        if t.pages[q].Leaf? {
          assert NextOk(t, q);
          assert NextOk(u, q);
        } else {
          forall j | 0 <= j < |t.pages[q].kids| ensures KidOk(u, q, j, Over(p)) {
            assert KidOk(t, q, j, Whole);
          }
        }
      }
      assert ParentOk(t, q, Whole);
      assert ParentOk(u, q, Over(p));
    }
  }

  /** A node that stayed within its maximum needs no further work. */
  lemma NotOver(t: Tree, p: PageId)
    requires Inv(t, Over(p)) && p in t.pages
    requires if t.pages[p].Leaf? then |t.pages[p].entries| < t.limits.leaf else |t.pages[p].kids| <= t.limits.internal
    ensures Inv(t, Whole)
  {
    forall q | q in t.pages ensures NodeOk(t, q, Whole) {
      assert NodeOk(t, q, Over(p));
      if t.pages[q].Internal? {
        forall j | 0 <= j < |t.pages[q].kids| ensures KidOk(t, q, j, Whole) {
          assert KidOk(t, q, j, Over(p));
        }
      }
    }
  }

  ghost function LeafSplit(t: Tree, p: PageId, s: PageId): Tree
    requires p in t.pages && t.pages[p].Leaf?
    requires |t.pages[p].entries| == t.limits.leaf && t.limits.Ok()
  {
    var page := t.pages[p];
    var m := t.limits.MinLeaf();
    var right := page.entries[m..];
    var at := right[0].key;
    t.(pages := t.pages[p := Leaf(page.parent, s, page.entries[..m], right + page.tail)]
                       [s := Leaf(page.parent, page.next, right, seq(m, _ => ZERO_LEAF_NODE))],
       span := t.span[p := Span(Sp(t, p).lo, at, 0)][s := Span(at, Sp(t, p).hi, 0)])
  }

  lemma LeafHalvesOk(t: Tree, p: PageId, s: PageId)
    requires Inv(t, Over(p)) && p in t.pages && t.pages[p].Leaf? && |t.pages[p].entries| == t.limits.leaf
    requires s !in t.pages && s != INVALID_PAGE_ID
    ensures var u := LeafSplit(t, p, s);
      && Sp(t, p).lo < Sp(u, s).lo < Sp(t, p).hi
      && LeafOk(u, p, Split(p, s)) && Filled(t.limits, u.pages[p])
      && LeafOk(u, s, Split(p, s))
  {
    var u := LeafSplit(t, p, s);
    assert NodeOk(t, p, Over(p));
    assert NextOk(t, p);
    var e, m := t.pages[p].entries, t.limits.MinLeaf();
    var at := e[m].key;
    assert Sp(t, p).lo <= e[0].key < at < Sp(t, p).hi;
    assert t.pages[p].tail == [];
    assert u.pages[p].entries == e[..m] && u.pages[p].tail == e[m..];
    assert u.pages[s].entries == e[m..];
    assert NextOk(u, p);
    assert NextOk(u, s);
    assert forall i :: 0 <= i < |e| - m ==> e[m..][i] == e[m + i] && at <= e[m + i].key;
    assert KeysIn(e[..m], Sp(u, p).lo, at);
    assert KeysIn(e[m..], at, Sp(u, s).hi);
    assert Sorted(e[m..]) && Sorted(e[..m]);
    assert Stale(e[m..], at);
    assert Stale(u.pages[s].tail, Sp(u, s).hi);
  }

  lemma LeafSplitKeepsOther(t: Tree, u: Tree, p: PageId, s: PageId, q: PageId)
    requires Inv(t, Over(p)) && p in t.pages && t.pages[p].Leaf?
    requires s !in t.pages && s in u.pages && q in t.pages && q != p
    requires u.limits == t.limits && u.root == t.root && t.pages.Keys <= u.pages.Keys && u.pages[p].Leaf?
    requires forall c :: c in t.pages && c != p ==> u.pages[c] == t.pages[c] && Sp(u, c) == Sp(t, c)
    requires u.pages[p].parent == t.pages[p].parent
    requires Sp(u, p).lo == Sp(t, p).lo && Sp(u, p).level == Sp(t, p).level && Sp(u, s).hi == Sp(t, p).hi
    ensures NodeOk(u, q, Split(p, s))
  {
    assert NodeOk(t, q, Over(p)) && NodeOk(t, p, Over(p));
    assert ParentOk(t, q, Over(p));
    assert ParentOk(u, q, Split(p, s));
    if t.pages[q].Leaf? {
      assert NextOk(t, q);
      assert NextOk(u, q);
    } else {
      forall j | 0 <= j < |t.pages[q].kids| ensures KidOk(u, q, j, Split(p, s)) {
        assert KidOk(t, q, j, Over(p));
      }
    }
  }

  lemma LeafSplitKeepsInv(t: Tree, p: PageId, s: PageId)
    requires Inv(t, Over(p)) && p in t.pages && t.pages[p].Leaf? && |t.pages[p].entries| == t.limits.leaf
    requires s !in t.pages && s != INVALID_PAGE_ID
    ensures Inv(LeafSplit(t, p, s), Split(p, s))
  {
    var u := LeafSplit(t, p, s);
    LeafHalvesOk(t, p, s);
    assert NodeOk(t, p, Over(p));
    assert ParentOk(t, p, Over(p));
    assert ParentOk(u, p, Split(p, s));
    forall q | q in u.pages ensures NodeOk(u, q, Split(p, s)) {
      if q != p && q != s { LeafSplitKeepsOther(t, u, p, s, q); }
    }
  }

  /** A new root above a split old root (the root's own page id is fresh). */
  ghost function RootGrown(t: Tree, l: PageId, s: PageId, r: PageId): Tree
    requires l in t.pages && s in t.pages && KEY_MIN <= Sp(t, s).lo < KEY_END
  {
    t.(pages := t.pages[r := Internal(INVALID_PAGE_ID, [InternalNode(0, l), InternalNode(Sp(t, s).lo, s)])]
                       [l := t.pages[l].(parent := r)][s := t.pages[s].(parent := r)],
       span := t.span[r := Span(KEY_MIN, KEY_END, Sp(t, l).level + 1)],
       root := r)
  }

  lemma RootGrownKeepsInv(t: Tree, l: PageId, s: PageId, r: PageId)
    requires Inv(t, Split(l, s)) && l == t.root
    requires r !in t.pages && r != INVALID_PAGE_ID
    ensures KEY_MIN < Sp(t, s).lo < KEY_END
    ensures Inv(RootGrown(t, l, s, r), Whole)
  {
    var pend := Split(l, s);
    assert NodeOk(t, l, pend) && NodeOk(t, s, pend);
    var u := RootGrown(t, l, s, r);
    forall q | q in u.pages ensures NodeOk(u, q, Whole) {
      if q == r {
        var kids := u.pages[r].kids;
        forall j | 0 <= j < |kids| ensures KidOk(u, r, j, Whole) {}
        assert SeparatorsOk(kids, KEY_MIN, KEY_END);
      } else {
        RootGrownKeepsOther(t, l, s, r, q);
      }
    }
  }

  lemma RootGrownKeepsOther(t: Tree, l: PageId, s: PageId, r: PageId, q: PageId)
    requires Inv(t, Split(l, s)) && l == t.root
    requires r !in t.pages && r != INVALID_PAGE_ID && q in t.pages
    requires KEY_MIN < Sp(t, s).lo < KEY_END
    ensures NodeOk(RootGrown(t, l, s, r), q, Whole)
  {
    var pend := Split(l, s);
    var u := RootGrown(t, l, s, r);
    assert NodeOk(t, l, pend) && NodeOk(t, s, pend) && NodeOk(t, q, pend);
    assert ParentOk(t, l, pend) && ParentOk(t, q, pend);
    assert Sp(u, q) == Sp(t, q);
    if q == l || q == s {
      assert u.pages[r].kids[if q == l then 0 else 1].child == q;
      assert Lists(u.pages[r], q);
    }
    assert ParentOk(u, q, Whole);
    if t.pages[q].Leaf? {
      assert NextOk(t, q);
      assert NextOk(u, q);
    } else {
      forall j | 0 <= j < |t.pages[q].kids| ensures KidOk(u, q, j, Whole) {
        assert KidOk(t, q, j, pend);
      }
    }
  }

  ghost function ParentInserted(t: Tree, l: PageId, s: PageId, i: nat): Tree
    requires l in t.pages && s in t.pages && KEY_MIN <= Sp(t, s).lo < KEY_END
    requires t.pages[l].parent in t.pages && t.pages[t.pages[l].parent].Internal?
    requires i < |t.pages[t.pages[l].parent].kids|
  {
    var p := t.pages[l].parent;
    var page := t.pages[p];
    t.(pages := t.pages[p := page.(kids := InsertAt(page.kids, i + 1, InternalNode(Sp(t, s).lo, s)))])
  }

  lemma ParentInsertKeepsLinks(t: Tree, l: PageId, s: PageId, i: nat, q: PageId)
    requires Inv(t, Split(l, s)) && l != t.root && q in t.pages
    requires t.pages[l].parent in t.pages && t.pages[t.pages[l].parent].Internal?
    requires i < |t.pages[t.pages[l].parent].kids|
    requires KEY_MIN <= Sp(t, s).lo < KEY_END
    ensures ParentOk(ParentInserted(t, l, s, i), q, Over(t.pages[l].parent))
  {
    var p := t.pages[l].parent;
    var u := ParentInserted(t, l, s, i);
    assert NodeOk(t, q, Split(l, s)) && NodeOk(t, l, Split(l, s));
    assert ParentOk(t, q, Split(l, s)) && ParentOk(t, l, Split(l, s));
    if q == s {
      assert u.pages[p].kids[i + 1].child == s;
    } else if q != t.root && t.pages[q].parent == p {
      var j :| 0 <= j < |t.pages[p].kids| && t.pages[p].kids[j].child == q;
      assert u.pages[p].kids[if j <= i then j else j + 1].child == q;
    }
  }

  /** Listing the right half directly after the left half completes the split. */
  lemma ParentInsertKeepsInv(t: Tree, l: PageId, s: PageId, i: nat)
    requires Inv(t, Split(l, s)) && l != t.root
    requires t.pages[l].parent in t.pages && t.pages[t.pages[l].parent].Internal?
    requires i < |t.pages[t.pages[l].parent].kids| && t.pages[t.pages[l].parent].kids[i].child == l
    requires |t.pages[t.pages[l].parent].kids| <= t.limits.internal
    ensures KEY_MIN <= Sp(t, s).lo < KEY_END
    ensures Inv(ParentInserted(t, l, s, i), Over(t.pages[l].parent))
  {
    ParentInsertSeparators(t, l, s, i);
    var p := t.pages[l].parent;
    var u := ParentInserted(t, l, s, i);
    ParentInsertKeepsParent(t, l, s, i);
    forall q | q in u.pages ensures NodeOk(u, q, Over(p)) {
      assert NodeOk(t, q, Split(l, s));
      ParentInsertKeepsLinks(t, l, s, i, q);
      if q != p {
        ParentInsertKeepsOther(t, l, s, i, q);
      }
    }
    assert NodeOk(t, t.root, Split(l, s));
  }

  lemma ParentInsertKeepsOther(t: Tree, l: PageId, s: PageId, i: nat, q: PageId)
    requires Inv(t, Split(l, s)) && l != t.root && q in t.pages && q != t.pages[l].parent
    requires t.pages[l].parent in t.pages && t.pages[t.pages[l].parent].Internal?
    requires i < |t.pages[t.pages[l].parent].kids|
    requires KEY_MIN <= Sp(t, s).lo < KEY_END
    ensures var u := ParentInserted(t, l, s, i);
      if t.pages[q].Leaf? then LeafOk(u, q, Over(t.pages[l].parent)) else InternalOk(u, q, Over(t.pages[l].parent))
  {
    var u := ParentInserted(t, l, s, i);
    assert NodeOk(t, q, Split(l, s));
    if t.pages[q].Leaf? {
      assert NextOk(t, q);
      assert NextOk(u, q);
    } else {
      forall j | 0 <= j < |t.pages[q].kids| ensures KidOk(u, q, j, Over(t.pages[l].parent)) {
        assert KidOk(t, q, j, Split(l, s));
      }
    }
  }

  lemma ParentInsertSeparators(t: Tree, l: PageId, s: PageId, i: nat)
    requires Inv(t, Split(l, s)) && l != t.root
    requires t.pages[l].parent in t.pages && t.pages[t.pages[l].parent].Internal?
    requires i < |t.pages[t.pages[l].parent].kids| && t.pages[t.pages[l].parent].kids[i].child == l
    ensures KEY_MIN <= Sp(t, s).lo < KEY_END
    ensures var p := t.pages[l].parent;
      SeparatorsOk(ParentInserted(t, l, s, i).pages[p].kids, Sp(t, p).lo, Sp(t, p).hi)
  {
    var pend := Split(l, s);
    var p := t.pages[l].parent;
    assert NodeOk(t, l, pend) && NodeOk(t, s, pend) && NodeOk(t, p, pend);
    assert KidOk(t, p, i, pend);
    SeparatorsInsert(t.pages[p].kids, i, InternalNode(Sp(t, s).lo, s), Sp(t, p).lo, Sp(t, p).hi);
  }

  lemma SeparatorsInsert(kids: seq<InternalNode>, i: nat, x: InternalNode, lo: int, hi: int)
    requires SeparatorsOk(kids, lo, hi) && i < |kids| && lo < x.key < hi
    requires i > 0 ==> kids[i].key < x.key
    requires i + 1 < |kids| ==> x.key < kids[i + 1].key
    ensures SeparatorsOk(InsertAt(kids, i + 1, x), lo, hi)
  {
    var after := InsertAt(kids, i + 1, x);
    forall j | 1 <= j < |after| ensures lo < after[j].key < hi {
      assert after[j] == if j <= i then kids[j] else if j == i + 1 then x else kids[j - 1];
    }
    forall a, b | 1 <= a < b < |after| ensures after[a].key < after[b].key {
      assert after[a] == if a <= i then kids[a] else if a == i + 1 then x else kids[a - 1];
      assert after[b] == if b <= i then kids[b] else if b == i + 1 then x else kids[b - 1];
    }
  }

  lemma ParentInsertKeepsParent(t: Tree, l: PageId, s: PageId, i: nat)
    requires Inv(t, Split(l, s)) && l != t.root
    requires t.pages[l].parent in t.pages && t.pages[t.pages[l].parent].Internal?
    requires i < |t.pages[t.pages[l].parent].kids| && t.pages[t.pages[l].parent].kids[i].child == l
    requires |t.pages[t.pages[l].parent].kids| <= t.limits.internal
    requires KEY_MIN <= Sp(t, s).lo < KEY_END
    ensures InternalOk(ParentInserted(t, l, s, i), t.pages[l].parent, Over(t.pages[l].parent))
  {
    var p := t.pages[l].parent;
    var u := ParentInserted(t, l, s, i);
    ParentInsertSeparators(t, l, s, i);
    assert NodeOk(t, p, Split(l, s));
    forall j | 0 <= j < |u.pages[p].kids| ensures KidOk(u, p, j, Over(p)) {
      ParentInsertKeepsKid(t, l, s, i, j);
    }
  }

  lemma KidsDistinct(t: Tree, p: PageId, i: int, j: int, pend: Pending)
    requires p in t.pages && t.pages[p].Internal? && InternalOk(t, p, pend)
    requires 0 <= i < |t.pages[p].kids| && 0 <= j < |t.pages[p].kids| && i != j
    ensures t.pages[p].kids[i].child != t.pages[p].kids[j].child
  {
    assert KidOk(t, p, i, pend) && KidOk(t, p, j, pend);
  }

  lemma ParentInsertKeepsKid(t: Tree, l: PageId, s: PageId, i: nat, j: nat)
    requires Inv(t, Split(l, s)) && l != t.root
    requires t.pages[l].parent in t.pages && t.pages[t.pages[l].parent].Internal?
    requires i < |t.pages[t.pages[l].parent].kids| && t.pages[t.pages[l].parent].kids[i].child == l
    requires j <= |t.pages[t.pages[l].parent].kids|
    requires KEY_MIN <= Sp(t, s).lo < KEY_END
    ensures KidOk(ParentInserted(t, l, s, i), t.pages[l].parent, j, Over(t.pages[l].parent))
  {
    var pend := Split(l, s);
    var p := t.pages[l].parent;
    assert NodeOk(t, p, pend) && NodeOk(t, l, pend) && NodeOk(t, s, pend);
    assert KidOk(t, p, i, pend);
    if j < i {
      assert KidOk(t, p, j, pend);
      KidsDistinct(t, p, i, j, pend);
    } else if j > i + 1 {
      assert KidOk(t, p, j - 1, pend);
      KidsDistinct(t, p, i, j - 1, pend);
    }
  }

  predicate ListedIn(kids: seq<InternalNode>, c: PageId) {
    exists i :: 0 <= i < |kids| && kids[i].child == c
  }

  /** The store after `parent` became the parent of every page listed in `kids`. */
  ghost function Reparented(pages: map<PageId, Page>, kids: seq<InternalNode>, parent: PageId): map<PageId, Page> {
    map p | p in pages :: if ListedIn(kids, p) then pages[p].(parent := parent) else pages[p]
  }

  /** The same, one child after the other as the program does it. */
  ghost function Adopted(pages: map<PageId, Page>, kids: seq<InternalNode>, n: nat, parent: PageId): map<PageId, Page>
    requires n <= |kids|
  {
    if n == 0 then pages
    else
      var before := Adopted(pages, kids, n - 1, parent);
      var c := kids[n - 1].child;
      if c in before then before[c := before[c].(parent := parent)] else before
  }

  lemma {:induction false} AdoptedIsReparented(pages: map<PageId, Page>, kids: seq<InternalNode>, n: nat,
    parent: PageId)
    requires n <= |kids|
    ensures Adopted(pages, kids, n, parent) == Reparented(pages, kids[..n], parent)
  {
    if n > 0 {
      AdoptedIsReparented(pages, kids, n - 1, parent);
      forall p ensures ListedIn(kids[..n], p) <==> ListedIn(kids[..n - 1], p) || p == kids[n - 1].child {
        if ListedIn(kids[..n - 1], p) {
          var j :| 0 <= j < n - 1 && kids[..n - 1][j].child == p;
          assert kids[..n][j].child == p;
        }
        if p == kids[n - 1].child { assert kids[..n][n - 1].child == p; }
        if ListedIn(kids[..n], p) && p != kids[n - 1].child {
          var j :| 0 <= j < n && kids[..n][j].child == p;
          assert kids[..n - 1][j].child == p;
        }
      }
    }
  }

  ghost function InternalSplit(t: Tree, p: PageId, s: PageId): Tree
    requires p in t.pages && t.pages[p].Internal? && |t.pages[p].kids| == t.limits.internal + 1 && t.limits.Ok()
  {
    var page := t.pages[p];
    var m := t.limits.MinInternal();
    var moved := page.kids[m..];
    t.(pages := Reparented(t.pages[p := page.(kids := page.kids[..m])][s := page.(kids := moved)], moved, s),
       span := t.span[p := Span(Sp(t, p).lo, moved[0].key, Sp(t, p).level)]
                     [s := Span(moved[0].key, Sp(t, p).hi, Sp(t, p).level)])
  }

  /** What splitting the internal page `p` into `p` and `s` changes, and what it leaves. */
  ghost predicate IsInternalSplit(t: Tree, u: Tree, p: PageId, s: PageId)
    requires p in t.pages && t.pages[p].Internal? && |t.pages[p].kids| == t.limits.internal + 1 && t.limits.Ok()
  {
    var kids, m := t.pages[p].kids, t.limits.MinInternal();
    && u.limits == t.limits && u.root == t.root
    && u.pages.Keys == t.pages.Keys + {s} && u.span.Keys == u.pages.Keys
    && u.pages[p] == t.pages[p].(kids := kids[..m])
    && u.pages[s] == t.pages[p].(kids := kids[m..])
    && (forall q :: q in t.pages && q != p && !ListedIn(kids[m..], q) ==> u.pages[q] == t.pages[q])
    && (forall q :: q in t.pages && q != p && ListedIn(kids[m..], q) ==> u.pages[q] == t.pages[q].(parent := s))
    && (forall q :: q in t.pages && q != p ==> Sp(u, q) == Sp(t, q))
    && Sp(u, p) == Span(Sp(t, p).lo, kids[m].key, Sp(t, p).level)
    && Sp(u, s) == Span(kids[m].key, Sp(t, p).hi, Sp(t, p).level)
  }

  ghost predicate CanSplitInternal(t: Tree, p: PageId, s: PageId) {
    && Inv(t, Over(p)) && p in t.pages && t.pages[p].Internal? && |t.pages[p].kids| == t.limits.internal + 1
    && s !in t.pages && s != INVALID_PAGE_ID
  }

  /** The moved children are exactly the pages below `p` at a moved index, and nothing else. */
  lemma MovedChildren(t: Tree, p: PageId, s: PageId)
    requires CanSplitInternal(t, p, s)
    ensures var kids, m := t.pages[p].kids, t.limits.MinInternal();
      && 2 <= m < |kids| - 1
      && NodeOk(t, p, Over(p))
      && (forall q :: ListedIn(kids[m..], q) ==> q in t.pages && q != p && q != t.root && t.pages[q].parent == p)
      && (forall i :: 0 <= i < m ==> !ListedIn(kids[m..], kids[i].child))
      && (forall i :: m <= i < |kids| ==> ListedIn(kids[m..], kids[i].child))
  {
    var kids, m := t.pages[p].kids, t.limits.MinInternal();
    assert NodeOk(t, p, Over(p));
    forall q | ListedIn(kids[m..], q) ensures q in t.pages && q != p && q != t.root && t.pages[q].parent == p {
      var i :| 0 <= i < |kids[m..]| && kids[m..][i].child == q;
      assert KidOk(t, p, m + i, Over(p));
      assert NodeOk(t, t.root, Over(p));
      assert ParentOk(t, t.root, Over(p));
    }
    forall i | 0 <= i < m ensures !ListedIn(kids[m..], kids[i].child) {
      if ListedIn(kids[m..], kids[i].child) {
        var j :| 0 <= j < |kids[m..]| && kids[m..][j].child == kids[i].child;
        KidsDistinct(t, p, i, m + j, Over(p));
      }
    }
    forall i | m <= i < |kids| ensures ListedIn(kids[m..], kids[i].child) {
      assert kids[m..][i - m].child == kids[i].child;
    }
  }

  lemma InternalSplitIsOne(t: Tree, p: PageId, s: PageId)
    requires p in t.pages && t.pages[p].Internal? && |t.pages[p].kids| == t.limits.internal + 1 && t.limits.Ok()
    requires s !in t.pages && t.span.Keys == t.pages.Keys
    requires forall q :: ListedIn(t.pages[p].kids[t.limits.MinInternal()..], q) ==> q in t.pages && q != p
    ensures IsInternalSplit(t, InternalSplit(t, p, s), p, s)
  {
    var u := InternalSplit(t, p, s);
    var kids, m := t.pages[p].kids, t.limits.MinInternal();
    assert !ListedIn(kids[m..], p) && !ListedIn(kids[m..], s);
    assert kids[m..][0] == kids[m];
    assert u.pages.Keys == t.pages.Keys + {s};
  }

  lemma InternalSplitKeepsInv(t: Tree, u: Tree, p: PageId, s: PageId)
    requires CanSplitInternal(t, p, s) && IsInternalSplit(t, u, p, s)
    ensures Inv(u, Split(p, s))
  {
    var pend := Split(p, s);
    MovedChildren(t, p, s);
    assert ParentOk(t, p, Over(p));
    InternalLeftOk(t, u, p, s);
    InternalRightOk(t, u, p, s);
    assert Sp(t, p).lo < t.pages[p].kids[t.limits.MinInternal()].key < Sp(t, p).hi;
    forall q | q in u.pages ensures NodeOk(u, q, pend) {
      if q in t.pages {
        assert NodeOk(t, q, Over(p));
        InternalSplitLinks(t, u, p, s, q);
        if q != p { InternalSplitKeepsOther(t, u, p, s, q); }
      }
    }
    assert NodeOk(t, t.root, Over(p));
  }

  lemma InternalLeftOk(t: Tree, u: Tree, p: PageId, s: PageId)
    requires CanSplitInternal(t, p, s) && IsInternalSplit(t, u, p, s)
    ensures InternalOk(u, p, Split(p, s)) && Filled(t.limits, u.pages[p])
  {
    MovedChildren(t, p, s);
    var kids, m := t.pages[p].kids, t.limits.MinInternal();
    forall j | 0 <= j < m ensures KidOk(u, p, j, Split(p, s)) {
      assert KidOk(t, p, j, Over(p));
    }
  }

  lemma InternalRightOk(t: Tree, u: Tree, p: PageId, s: PageId)
    requires CanSplitInternal(t, p, s) && IsInternalSplit(t, u, p, s)
    ensures InternalOk(u, s, Split(p, s)) && Filled(t.limits, u.pages[s])
  {
    MovedChildren(t, p, s);
    var kids, m := t.pages[p].kids, t.limits.MinInternal();
    forall j | 0 <= j < |kids| - m ensures KidOk(u, s, j, Split(p, s)) {
      InternalRightKidOk(t, u, p, s, j);
    }
    assert SeparatorsOk(kids, Sp(t, p).lo, Sp(t, p).hi);
    SeparatorsSuffix(kids, m, Sp(t, p).lo, Sp(t, p).hi);
  }

  lemma SeparatorsSuffix(kids: seq<InternalNode>, m: nat, lo: int, hi: int)
    requires 1 <= m < |kids| && SeparatorsOk(kids, lo, hi)
    ensures SeparatorsOk(kids[m..], kids[m].key, hi)
  {
    assert forall j :: 0 <= j < |kids| - m ==> kids[m..][j] == kids[m + j];
  }

  lemma InternalRightKidOk(t: Tree, u: Tree, p: PageId, s: PageId, j: nat)
    requires CanSplitInternal(t, p, s) && IsInternalSplit(t, u, p, s)
    requires t.limits.MinInternal() + j < |t.pages[p].kids|
    ensures KidOk(u, s, j, Split(p, s))
  {
    MovedChildren(t, p, s);
    var kids, m := t.pages[p].kids, t.limits.MinInternal();
    assert KidOk(t, p, m + j, Over(p));
    assert kids[m..][j] == kids[m + j];
    assert j + 1 < |kids| - m ==> kids[m..][j + 1] == kids[m + j + 1];
  }

  lemma InternalSplitLinks(t: Tree, u: Tree, p: PageId, s: PageId, q: PageId)
    requires CanSplitInternal(t, p, s) && IsInternalSplit(t, u, p, s) && q in t.pages
    ensures ParentOk(u, q, Split(p, s))
  {
    MovedChildren(t, p, s);
    assert NodeOk(t, q, Over(p));
    assert ParentOk(t, q, Over(p));
    var kids, m := t.pages[p].kids, t.limits.MinInternal();
    if q != t.root && t.pages[q].parent == p {
      var i :| 0 <= i < |kids| && kids[i].child == q;
      if i < m {
        assert u.pages[p].kids[i].child == q;
      } else {
        assert u.pages[s].kids[i - m].child == q;
      }
    }
  }

  lemma InternalSplitKeepsOther(t: Tree, u: Tree, p: PageId, s: PageId, q: PageId)
    requires CanSplitInternal(t, p, s) && IsInternalSplit(t, u, p, s) && q in t.pages && q != p
    ensures if u.pages[q].Leaf? then LeafOk(u, q, Split(p, s)) else InternalOk(u, q, Split(p, s))
  {
    MovedChildren(t, p, s);
    assert NodeOk(t, q, Over(p));
    if t.pages[q].Leaf? {
      assert NextOk(t, q);
      assert NextOk(u, q);
    } else {
      forall j | 0 <= j < |t.pages[q].kids| ensures KidOk(u, q, j, Split(p, s)) {
        assert KidOk(t, q, j, Over(p));
      }
    }
  }

  lemma InsertAddsKey(pages: map<PageId, Page>, m: map<Key, Rid>, p: PageId, i: nat, x: LeafNode, page: Page)
    requires Holds(pages, m) && p in pages && pages[p].Leaf? && i <= |pages[p].entries|
    requires page.Leaf? && page.entries == InsertAt(pages[p].entries, i, x) && x.key !in m
    ensures Holds(pages[p := page], m[x.key := x.rid])
  {
    var after := pages[p := page];
    var m' := m[x.key := x.rid];
    forall q, j, k | At(after, q, j, k) ensures k in m' && m'[k] == after[q].entries[j].rid {
      InsertedFrom(pages, p, i, x, page, q, j, k);
    }
    forall k | k in m' ensures exists q, j :: At(after, q, j, k) {
      if k == x.key {
        assert At(after, p, i, k);
      } else {
        var q, j :| At(pages, q, j, k);
        InsertedTo(pages, p, i, x, page, q, j, k);
      }
    }
  }

  /** Where an entry of the new leaf, or of another, came from. */
  lemma InsertedFrom(pages: map<PageId, Page>, p: PageId, i: nat, x: LeafNode, page: Page, q: PageId, j: int, k: Key)
    requires p in pages && pages[p].Leaf? && i <= |pages[p].entries|
    requires page.Leaf? && page.entries == InsertAt(pages[p].entries, i, x) && At(pages[p := page], q, j, k)
    ensures q == p && j == i ==> k == x.key && page.entries[j].rid == x.rid
    ensures q != p || j != i ==>
      var j' := if q == p && j > i then j - 1 else j;
      At(pages, q, j', k) && pages[q].entries[j'].rid == pages[p := page][q].entries[j].rid
  {}

  /** Where an old entry is now. */
  lemma InsertedTo(pages: map<PageId, Page>, p: PageId, i: nat, x: LeafNode, page: Page, q: PageId, j: int, k: Key)
    requires p in pages && pages[p].Leaf? && i <= |pages[p].entries|
    requires page.Leaf? && page.entries == InsertAt(pages[p].entries, i, x) && At(pages, q, j, k)
    ensures At(pages[p := page], q, if q == p && j >= i then j + 1 else j, k)
  {}

  /** Splitting a leaf moves entries between pages and loses none. */
  lemma LeafSplitHolds(t: Tree, p: PageId, s: PageId, m: map<Key, Rid>)
    requires Inv(t, Over(p)) && p in t.pages && t.pages[p].Leaf? && |t.pages[p].entries| == t.limits.leaf
    requires s !in t.pages && Holds(t.pages, m)
    ensures Holds(LeafSplit(t, p, s).pages, m)
  {
    var u := LeafSplit(t, p, s);
    var h := t.limits.MinLeaf();
    forall q, j, k | At(u.pages, q, j, k) ensures k in m && m[k] == u.pages[q].entries[j].rid {
      assert At(t.pages, if q == s then p else q, if q == s then h + j else j, k);
    }
    forall k | k in m ensures exists q, j :: At(u.pages, q, j, k) {
      var q, j :| At(t.pages, q, j, k);
      if q == p && j >= h {
        assert At(u.pages, s, j - h, k);
      } else {
        assert At(u.pages, q, j, k);
      }
    }
  }

  // ---------- searching ----------

  ghost predicate Covers(t: Tree, p: PageId, k: int) {
    p in t.pages && Sp(t, p).lo <= k < Sp(t, p).hi
  }

  /** `i` is the child of an internal node whose separators enclose `k`; slot 0 has no separator. */
  ghost predicate Routes(kids: seq<InternalNode>, k: int, i: int) {
    && 0 <= i < |kids|
    && (i > 0 ==> kids[i].key <= k)
    && (i + 1 < |kids| ==> k < kids[i + 1].key)
  }

  lemma ChildCovers(t: Tree, p: PageId, i: int, k: int)
    requires Inv(t, Whole) && Covers(t, p, k) && t.pages[p].Internal? && Routes(t.pages[p].kids, k, i)
    ensures var c := t.pages[p].kids[i].child;
      Covers(t, c, k) && Sp(t, c).level + 1 == Sp(t, p).level && t.pages[c].parent == p && c != t.root
  {
    assert NodeOk(t, p, Whole);
    assert KidOk(t, p, i, Whole);
    var c := t.pages[p].kids[i].child;
    assert NodeOk(t, t.root, Whole) && ParentOk(t, t.root, Whole);
  }

  lemma ParentCovers(t: Tree, p: PageId, k: int)
    requires Inv(t, Whole) && Covers(t, p, k) && p != t.root
    ensures var q := t.pages[p].parent;
      Covers(t, q, k) && t.pages[q].Internal? && Sp(t, q).level == Sp(t, p).level + 1
      && exists i :: Routes(t.pages[q].kids, k, i) && t.pages[q].kids[i].child == p
  {
    assert NodeOk(t, p, Whole) && ParentOk(t, p, Whole);
    var q := t.pages[p].parent;
    var i :| 0 <= i < |t.pages[q].kids| && t.pages[q].kids[i].child == p;
    assert NodeOk(t, q, Whole);
    assert KidOk(t, q, i, Whole);
    assert Routes(t.pages[q].kids, k, i);
  }

  /** On each level, at most one page is responsible for a key. */
  lemma {:induction false} OnePagePerLevel(t: Tree, p: PageId, q: PageId, k: int)
    requires Inv(t, Whole) && Covers(t, p, k) && Covers(t, q, k) && Sp(t, p).level == Sp(t, q).level
    ensures p == q
    decreases Sp(t, t.root).level - Sp(t, p).level
  {
    assert NodeOk(t, p, Whole) && NodeOk(t, q, Whole);
    assert ParentOk(t, p, Whole) && ParentOk(t, q, Whole);
    if p != t.root && q != t.root {
      ParentCovers(t, p, k);
      ParentCovers(t, q, k);
      OnePagePerLevel(t, t.pages[p].parent, t.pages[q].parent, k);
      var parent := t.pages[p].parent;
      assert NodeOk(t, parent, Whole);
      assert SeparatorsOk(t.pages[parent].kids, Sp(t, parent).lo, Sp(t, parent).hi);
    }
  }

  /** The one leaf covering `k` decides whether and where the whole tree holds `k`. */
  lemma LeafDecides(t: Tree, m: map<Key, Rid>, p: PageId, k: Key)
    requires Inv(t, Whole) && Holds(t.pages, m) && Covers(t, p, k) && t.pages[p].Leaf?
    ensures k in m <==> exists i :: At(t.pages, p, i, k)
  {
    if k in m {
      var q, i :| At(t.pages, q, i, k);
      assert NodeOk(t, q, Whole) && NodeOk(t, p, Whole);
      OnePagePerLevel(t, p, q, k);
    }
  }

  lemma RootCovers(t: Tree, k: Key)
    requires Inv(t, Whole)
    ensures Covers(t, t.root, k)
  {}

  /** Some child encloses the key. */
  lemma {:induction false} RouteExists(kids: seq<InternalNode>, k: int, n: nat) returns (i: nat)
    requires 0 < n <= |kids|
    requires forall a, b :: 1 <= a < b < |kids| ==> kids[a].key < kids[b].key
    requires n < |kids| ==> k < kids[n].key
    ensures Routes(kids, k, i)
    decreases n
  {
    if n == 1 || kids[n - 1].key <= k {
      i := n - 1;
    } else {
      i := RouteExists(kids, k, n - 1);
    }
  }

  lemma {:induction false} LeafExists(t: Tree, p: PageId, k: Key) returns (leaf: PageId)
    requires Inv(t, Whole) && Covers(t, p, k)
    ensures Covers(t, leaf, k) && t.pages[leaf].Leaf?
    decreases Sp(t, p).level
  {
    if t.pages[p].Leaf? {
      leaf := p;
    } else {
      assert NodeOk(t, p, Whole);
      var i := RouteExists(t.pages[p].kids, k, |t.pages[p].kids|);
      ChildCovers(t, p, i, k);
      leaf := LeafExists(t, t.pages[p].kids[i].child, k);
    }
  }

  lemma LeafIsUnique(t: Tree, p: PageId, q: PageId, k: Key)
    requires Inv(t, Whole)
    requires Covers(t, p, k) && t.pages[p].Leaf? && Covers(t, q, k) && t.pages[q].Leaf?
    ensures p == q
  {
    assert NodeOk(t, p, Whole) && NodeOk(t, q, Whole);
    OnePagePerLevel(t, p, q, k);
  }

  /** The leaf every search for `k` ends at. */
  ghost function LeafFor(t: Tree, k: Key): (p: PageId)
    requires Inv(t, Whole)
    ensures Covers(t, p, k) && t.pages[p].Leaf?
    ensures forall q :: Covers(t, q, k) && t.pages[q].Leaf? ==> q == p
  {
    assert exists p :: Covers(t, p, k) && t.pages[p].Leaf? by {
      var p := LeafExists(t, t.root, k);
    }
    var p :| Covers(t, p, k) && t.pages[p].Leaf?;
    assert forall q :: Covers(t, q, k) && t.pages[q].Leaf? ==> q == p by {
      forall q | Covers(t, q, k) && t.pages[q].Leaf? ensures q == p { LeafIsUnique(t, p, q, k); }
    }
    p
  }

  // ---------- what one insert does to a leaf ----------

  /** The slot past the used ones is compared too: a zeroed slot stops key 0 from following negative keys. */
  ghost predicate Drops(page: Page, k: int) {
    && page.Leaf? && k == 0
    && (forall i :: 0 <= i < |page.entries| ==> page.entries[i].key < 0)
    && page.tail != [] && page.tail[0].key == 0
  }

  /** Exactly a present key and a dropped key 0 are refused. */
  lemma RefusedExactly(t: Tree, m: map<Key, Rid>, p: PageId, k: Key, i: nat)
    requires Inv(t, Whole) && Holds(t.pages, m) && Covers(t, p, k) && t.pages[p].Leaf?
    requires i <= |t.pages[p].entries|
    requires forall j :: 0 <= j < i ==> t.pages[p].entries[j].key < k
    requires forall j :: i <= j < |t.pages[p].entries| ==> k <= t.pages[p].entries[j].key
    ensures var page := t.pages[p];
      && page.entries != [] && page.tail != []
      && ((page.entries + page.tail)[i].key == k <==> k in m || Drops(page, k))
      && (!((page.entries + page.tail)[i].key == k) ==> FitsBefore(page.entries, i, k))
  {
    assert NodeOk(t, p, Whole);
    LeafDecides(t, m, p, k);
    var page := t.pages[p];
    if i < |page.entries| && page.entries[i].key == k {
      assert At(t.pages, p, i, k);
    }
    if k in m {
      var j :| At(t.pages, p, j, k);
    }
  }

  /** The inserts that change nothing: the key is there, or it is the dropped key 0. */
  ghost predicate Refuses(t: Tree, m: map<Key, Rid>, k: Key)
    requires Inv(t, Whole)
  {
    k in m || Drops(t.pages[LeafFor(t, k)], k)
  }

  /** The inserts that split the leaf they end at. */
  ghost predicate SplitsLeaf(t: Tree, m: map<Key, Rid>, k: Key)
    requires Inv(t, Whole)
  {
    !Refuses(t, m, k) && IsFull(t.limits, t.pages[LeafFor(t, k)])
  }

  /** The tree of one entry. */
  lemma FirstTree(limits: Limits, r: PageId, x: LeafNode, tail: seq<LeafNode>)
    requires limits.Ok() && r != INVALID_PAGE_ID && |tail| == limits.leaf - 1
    requires forall i :: 0 <= i < |tail| ==> tail[i] == ZERO_LEAF_NODE
    ensures var leaf := Leaf(INVALID_PAGE_ID, INVALID_PAGE_ID, [x], tail);
      var t := Tree(limits, r, map[r := leaf], map[r := Span(KEY_MIN, KEY_END, 0)]);
      Inv(t, Whole) && Holds(t.pages, map[x.key := x.rid])
  {
    var leaf := Leaf(INVALID_PAGE_ID, INVALID_PAGE_ID, [x], tail);
    var t := Tree(limits, r, map[r := leaf], map[r := Span(KEY_MIN, KEY_END, 0)]);
    assert NodeOk(t, r, Whole);
    assert At(t.pages, r, 0, x.key);
  }

  // ---------- how far a split climbs ----------

  predicate IsFull(limits: Limits, page: Page) {
    if page.Leaf? then limits.leaf <= |page.entries| + 1 else limits.internal <= |page.kids|
  }

  ghost predicate Linked(t: Tree, pend: Pending) {
    && t.span.Keys == t.pages.Keys && t.root in t.pages
    && forall p :: p in t.pages ==>
         p == t.root || (pend.Split? && p == pend.right)
         || (t.pages[p].parent in t.pages && t.pages[t.pages[p].parent].Internal?
             && Sp(t, p).level < Sp(t, t.pages[p].parent).level <= Sp(t, t.root).level)
  }

  lemma InvLinked(t: Tree, pend: Pending)
    requires Inv(t, pend)
    ensures Linked(t, pend)
  {
    forall p | p in t.pages && p != t.root && !(pend.Split? && p == pend.right)
      ensures t.pages[p].parent in t.pages && t.pages[t.pages[p].parent].Internal?
        && Sp(t, p).level < Sp(t, t.pages[p].parent).level <= Sp(t, t.root).level
    {
      assert NodeOk(t, p, pend) && ParentOk(t, p, pend);
      var q := t.pages[p].parent;
      assert NodeOk(t, q, pend);
      var i :| 0 <= i < |t.pages[q].kids| && t.pages[q].kids[i].child == p;
      assert KidOk(t, q, i, pend);
    }
  }

  /** Splitting `p` splits every ancestor up to and including the root. */
  ghost predicate ReachesRoot(t: Tree, p: PageId)
    decreases Sp(t, t.root).level - Sp(t, p).level
  {
    p == t.root ||
    (p in t.pages && t.pages[p].parent in t.pages
     && Sp(t, p).level < Sp(t, t.pages[p].parent).level <= Sp(t, t.root).level
     && IsFull(t.limits, t.pages[t.pages[p].parent]) && ReachesRoot(t, t.pages[p].parent))
  }

  /** Every page a split of `p` has to change is held, and so is the header in front if the root splits. */
  ghost predicate Held(t: Tree, p: PageId, held: seq<PageId>, header: PageId)
    decreases Sp(t, t.root).level - Sp(t, p).level
  {
    if p == t.root then held != [] && held[0] == header
    else
      p in t.pages ==>
        var q := t.pages[p].parent;
        && q in held
        && (q in t.pages && Sp(t, p).level < Sp(t, q).level <= Sp(t, t.root).level && IsFull(t.limits, t.pages[q])
            ==> Held(t, q, held, header))
  }

  /** The pages a split of `p` changes above it: its parent, and as long as the parent is full the parent's parent. */
  ghost function Climb(t: Tree, p: PageId): set<PageId>
    decreases Sp(t, t.root).level - Sp(t, p).level
  {
    if p == t.root || p !in t.pages then {}
    else
      var q := t.pages[p].parent;
      {q} + if q in t.pages && Sp(t, p).level < Sp(t, q).level <= Sp(t, t.root).level && IsFull(t.limits, t.pages[q])
            then Climb(t, q) else {}
  }

  lemma {:induction false} ClimbIsAbove(t: Tree, p: PageId, pend: Pending)
    requires Linked(t, pend) && p in t.pages
    requires pend.Split? ==> p != pend.right && Sp(t, pend.right).level <= Sp(t, p).level
    ensures forall q :: q in Climb(t, p) ==> q in t.pages && Sp(t, q).level > Sp(t, p).level
    decreases Sp(t, t.root).level - Sp(t, p).level
  {
    if p != t.root {
      var q := t.pages[p].parent;
      if IsFull(t.limits, t.pages[q]) { ClimbIsAbove(t, q, pend); }
    }
  }

  /** What is held covers the climb. */
  lemma {:induction false} HeldCovers(t: Tree, p: PageId, held: seq<PageId>, header: PageId)
    requires Held(t, p, held, header)
    ensures forall q :: q in Climb(t, p) ==> q in held
    decreases Sp(t, t.root).level - Sp(t, p).level
  {
    if p != t.root && p in t.pages {
      var q := t.pages[p].parent;
      if q in t.pages && Sp(t, p).level < Sp(t, q).level <= Sp(t, t.root).level && IsFull(t.limits, t.pages[q]) {
        HeldCovers(t, q, held, header);
      }
    }
  }

  /** A held climb that ends at the root has the header in front. */
  lemma {:induction false} HeldToRoot(t: Tree, p: PageId, held: seq<PageId>, header: PageId)
    requires Held(t, p, held, header) && ReachesRoot(t, p)
    ensures held != [] && held[0] == header
    decreases Sp(t, t.root).level - Sp(t, p).level
  {
    if p != t.root {
      HeldToRoot(t, t.pages[p].parent, held, header);
    }
  }

  lemma {:induction false} HeldGrows(t: Tree, p: PageId, held: seq<PageId>, more: PageId, header: PageId)
    requires Held(t, p, held, header)
    ensures Held(t, p, held + [more], header)
    decreases Sp(t, t.root).level - Sp(t, p).level
  {
    if p != t.root && p in t.pages {
      var q := t.pages[p].parent;
      if q in t.pages && Sp(t, p).level < Sp(t, q).level <= Sp(t, t.root).level && IsFull(t.limits, t.pages[q]) {
        HeldGrows(t, q, held, more, header);
      }
    }
  }

  /** Two stores that agree on the ancestors of `p`. */
  ghost predicate SameAbove(t: Tree, u: Tree, level: int) {
    && t.root == u.root && t.limits == u.limits
    && (forall p :: p in t.pages ==> p in u.pages && Sp(u, p).level == Sp(t, p).level)
    && (forall p :: p in t.pages && Sp(t, p).level > level ==> u.pages[p] == t.pages[p])
  }

  lemma {:induction false} ClimbsAlike(t: Tree, u: Tree, p: PageId, held: seq<PageId>, header: PageId)
    requires p in t.pages && p in u.pages && u.pages[p].parent == t.pages[p].parent
    requires t.root in t.pages && SameAbove(t, u, Sp(t, p).level)
    requires p != t.root ==> t.pages[p].parent in t.pages && Sp(t, p).level < Sp(t, t.pages[p].parent).level
    requires forall q :: q in t.pages && Sp(t, q).level > Sp(t, p).level && q != t.root ==>
      t.pages[q].parent in t.pages && Sp(t, q).level < Sp(t, t.pages[q].parent).level
    ensures ReachesRoot(t, p) == ReachesRoot(u, p)
    ensures Held(t, p, held, header) == Held(u, p, held, header)
    ensures Climb(t, p) == Climb(u, p)
    decreases Sp(t, t.root).level - Sp(t, p).level
  {
    if p != t.root {
      var q := t.pages[p].parent;
      if Sp(t, p).level < Sp(t, q).level <= Sp(t, t.root).level {
        ClimbsAlike(t, u, q, held, header);
      }
    }
  }
}
