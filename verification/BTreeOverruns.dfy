/** How high an index gets, and at which insert the code as written goes wrong. */
module BTreeOverruns {
  import opened Bytes
  import opened Ids
  import opened BTreeModel
  import opened BTreeSteps
  import opened BTreeTheorems
  import opened BTreeIndexes
  import opened BTreeRuns
  import TableMetas

  /** The page sizes of the program: what fits a page behind its header. */
  const PROGRAM_LIMITS := Limits((PAGE_SIZE - 40) / 20, (PAGE_SIZE - 32) / 12)

  /** So many keys are too few for an overrun, whatever the tree. */
  function ServedSurely(limits: Limits): nat { limits.internal * limits.MinLeaf() }

  /** More keys than these do not fit the leaves under one internal page. */
  function ServedAtMost(limits: Limits): nat
    requires limits.Ok()
  {
    limits.internal * (limits.leaf - 1)
  }

  /** All leaves under one internal page half full but the last, which is full. */
  function ServedRising(limits: Limits): nat
    requires limits.Ok()
  {
    (limits.internal - 1) * limits.MinLeaf() + limits.leaf - 1
  }

  // ---------- as written, a split of an internal root overruns ----------

  /** At most one internal page above the leaves. */
  ghost predicate Low(st: State) {
    st.tree.root == INVALID_PAGE_ID || Sp(st.tree, st.tree.root).level <= 1
  }

  /** An insert overruns if and only if it makes a tree with an internal root higher. */
  lemma OverrunsExactly(st: State, x: LeafNode)
    requires Good(st) && st.tree.root != INVALID_PAGE_ID && st.tree.pages[st.tree.root].Internal?
    ensures var (t, u) := (st.tree, Insert(st, x).tree);
      Overruns(st, x.key) <==> Sp(u, u.root).level == Sp(t, t.root).level + 1
  {
    InsertHeight(st, x);
  }

  /** An index that does not overrun stays low. */
  lemma LowStays(st: State, x: LeafNode)
    requires Good(st) && Low(st) && !Overruns(st, x.key)
    ensures Low(Insert(st, x))
  {
    if st.tree.root != INVALID_PAGE_ID {
      InsertHeight(st, x);
      RootIsPage(st.tree);
      if st.tree.pages[st.tree.root].Leaf? { LeafIsLowest(st.tree, st.tree.root, Whole); }
      else { OverrunsExactly(st, x); }
    }
  }

  /** A tree with an internal root that holds all the keys its height allows overruns at the next new key. */
  lemma PackedOverruns(st: State, x: LeafNode)
    requires Good(st) && st.tree.root != INVALID_PAGE_ID && st.tree.pages[st.tree.root].Internal?
    requires !Refuses(st.tree, st.contents, x.key)
    requires |st.contents| >= MaxKeys(st.tree.limits, Sp(st.tree, st.tree.root).level)
    ensures Overruns(st, x.key)
  {
    var after := Insert(st, x);
    InsertChanges(st, x);
    HeightIsEnough(after.tree, after.contents);
    AddedCounts(st.contents, x.key, x.rid);
    InsertHeight(st, x);
  }

  lemma AddedCounts(m: map<Key, Rid>, k: Key, rid: Rid)
    ensures |m[k := rid]| == if k in m then |m| else |m| + 1
  {
    assert m[k := rid].Keys == m.Keys + {k};
  }

  lemma {:induction false} RunCounts(st: State, ops: seq<LeafNode>)
    requires Good(st)
    ensures |InsertRun(st, ops).contents| <= |st.contents| + |ops|
  {
    hide Insert, Good, Refuses;
    if ops != [] {
      var n := |ops| - 1;
      RunCounts(st, ops[..n]);
      var (before, x) := (InsertRun(st, ops[..n]), ops[n]);
      InsertChanges(before, x);
      AddedCounts(before.contents, x.key, x.rid);
    }
  }

  /** As written, no insert of a run overruns while the keys could not fill the leaves below a full root. */
  lemma ServedWhileSmall(st: State, ops: seq<LeafNode>, i: nat)
    requires Good(st) && i < |ops|
    requires |st.contents| + i < ServedSurely(st.tree.limits)
    ensures !Overruns(InsertRun(st, ops[..i]), ops[i].key)
  {
    RunCounts(st, ops[..i]);
    if Overruns(InsertRun(st, ops[..i]), ops[i].key) {
      OverrunNeedsKeys(InsertRun(st, ops[..i]), ops[i].key);
    }
  }

  ghost predicate Fresh(ops: seq<LeafNode>) {
    && (forall i :: 0 <= i < |ops| ==> ops[i].key >= 0)
    && (forall a, b :: 0 <= a < b < |ops| ==> ops[a].key != ops[b].key)
  }

  lemma {:induction false} FreshCounts(ops: seq<LeafNode>)
    requires Fresh(ops)
    ensures |InsertAll(map[], ops)| == |ops|
  {
    if ops != [] {
      var n := |ops| - 1;
      FreshCounts(ops[..n]);
      InsertAllKeys(map[], ops[..n]);
      assert forall i :: 0 <= i < n ==> ops[..n][i].key != ops[n].key;
      AddedCounts(InsertAll(map[], ops[..n]), ops[n].key, ops[n].rid);
    }
  }

  lemma {:induction false} RunStaysLow(st: State, ops: seq<LeafNode>)
    requires Good(st) && Low(st)
    requires forall i :: 0 <= i < |ops| ==> !Overruns(InsertRun(st, ops[..i]), ops[i].key)
    ensures Low(InsertRun(st, ops))
  {
    hide Overruns, Good, Insert, Low;
    if ops != [] {
      var n := |ops| - 1;
      forall i | 0 <= i < n ensures !Overruns(InsertRun(st, ops[..n][..i]), ops[..n][i].key) {
        assert ops[..n][..i] == ops[..i];
      }
      RunStaysLow(st, ops[..n]);
      LowStays(InsertRun(st, ops[..n]), ops[n]);
    }
  }

  /** As written, a new index never serves a run of more new keys than fit the leaves under one internal page. */
  lemma LongRunOverruns(st: State, ops: seq<LeafNode>)
    requires Good(st) && st.tree.root == INVALID_PAGE_ID && Fresh(ops)
    requires |ops| > ServedAtMost(st.tree.limits)
    ensures exists i :: 0 <= i < |ops| && Overruns(InsertRun(st, ops[..i]), ops[i].key)
  {
    hide Insert, InsertRun, InsertAll, Inv, Holds, Overruns, AgreeOffZero, Good, ServedAtMost;
    assert st.contents == map[] && st.tree.limits.Ok() by { RefusedIs(st, 0); LimitsOk(st); }
    if forall i :: 0 <= i < |ops| ==> !Overruns(InsertRun(st, ops[..i]), ops[i].key) {
      RunStaysLow(st, ops);
      RunIsInsertAll(st, ops);
      FreshCounts(ops);
      var after := InsertRun(st, ops);
      GoodIs(after);
      HeightIsEnough(after.tree, after.contents);
      LowHoldsAtMost(after.tree.limits, Sp(after.tree, after.tree.root).level);
    }
  }

  lemma LimitsOk(st: State)
    requires Good(st)
    ensures st.tree.limits.Ok()
  {}

  lemma LowHoldsAtMost(limits: Limits, level: nat)
    requires limits.Ok() && level <= 1
    ensures MaxKeys(limits, level) <= ServedAtMost(limits)
  {
    Scaled(limits.leaf - 1, 1, limits.internal);
    assert MaxKeys(limits, 0) == limits.leaf - 1;
  }

  // ---------- rising keys ----------

  ghost predicate Rising(ops: seq<LeafNode>) {
    && (forall i :: 0 <= i < |ops| ==> ops[i].key >= 0)
    && (forall a, b :: 0 <= a < b < |ops| ==> ops[a].key < ops[b].key)
  }

  /** The leaf all keys above the present ones go to. */
  ghost function LastLeaf(t: Tree): PageId
    requires Inv(t, Whole)
  {
    if t.pages[t.root].Leaf? then t.root
    else
      assert NodeOk(t, t.root, Whole);
      t.pages[t.root].kids[|t.pages[t.root].kids| - 1].child
  }

  ghost function Leaves(t: Tree): nat
    requires Inv(t, Whole)
  {
    if t.pages[t.root].Leaf? then 1 else |t.pages[t.root].kids|
  }

  /** A low tree in which every leaf but the last is half full, counted. */
  ghost predicate Lined(st: State) {
    && Good(st) && st.tree.root != INVALID_PAGE_ID && Low(st)
    && var last := LastLeaf(st.tree);
      && last in st.tree.pages && st.tree.pages[last].Leaf?
      && |st.contents| == (Leaves(st.tree) - 1) * st.tree.limits.MinLeaf() + |st.tree.pages[last].entries|
  }

  /** A key above all others goes to the last leaf, whose parent is the root unless it is the root. */
  lemma GoesLast(st: State, k: Key)
    requires Lined(st) && forall x :: x in st.contents ==> x < k
    ensures LeafFor(st.tree, k) == LastLeaf(st.tree)
    ensures LastLeaf(st.tree) != st.tree.root ==> st.tree.pages[LastLeaf(st.tree)].parent == st.tree.root
  {
    var (t, p) := (st.tree, LastLeaf(st.tree));
    assert NodeOk(t, t.root, Whole) && NodeOk(t, p, Whole);
    if t.pages[t.root].Internal? { assert KidOk(t, t.root, |t.pages[t.root].kids| - 1, Whole); }
    assert At(t.pages, p, 0, t.pages[p].entries[0].key);
    assert Covers(t, p, k);
  }

  /** With a key above all others, the overrun is exactly at a full last leaf under a full root. */
  lemma LastOverruns(st: State, k: Key)
    requires Lined(st) && (forall x :: x in st.contents ==> x < k) && !Refuses(st.tree, st.contents, k)
    ensures Overruns(st, k) <==> |st.contents| == ServedRising(st.tree.limits)
  {
    var (t, p) := (st.tree, LastLeaf(st.tree));
    GoesLast(st, k);
    assert NodeOk(t, t.root, Whole) && NodeOk(t, p, Whole);
    assert p != t.root ==> (ReachesRoot(t, p) <==> IsFull(t.limits, t.pages[t.root])) by {
      InvLinked(t, Whole);
      assert ReachesRoot(t, t.root);
    }
    CountDecides(t.limits, Leaves(t), |t.pages[p].entries|);
  }

  /** So many half full leaves and a last one: the count is largest with all leaves there and the last one full. */
  lemma CountDecides(limits: Limits, n: nat, e: nat)
    requires limits.Ok() && 1 <= n <= limits.internal && 1 <= e <= limits.leaf - 1
    ensures (n - 1) * limits.MinLeaf() + e == ServedRising(limits) <==> n == limits.internal && e == limits.leaf - 1
  {
    Scaled(limits.MinLeaf(), n - 1, limits.internal - 1);
  }

  /** Short of that the tree stays lined. */
  lemma StaysLined(st: State, x: LeafNode)
    requires Lined(st) && (forall k :: k in st.contents ==> k < x.key) && !Refuses(st.tree, st.contents, x.key)
    requires !Overruns(st, x.key)
    ensures Lined(Insert(st, x))
  {
    hide Inv, Holds, Refuses, Insert, LeafGrown, LeafBroken, Good, LastLeaf, Leaves, KidsChanged, LeavesBut;
    GoodIs(st);
    var (t, m, p, s) := (st.tree, st.contents, LastLeaf(st.tree), st.last + 1);
    GoesLast(st, x.key);
    LowStays(st, x);
    InsertChanges(st, x);
    InsertIs(st, x);
    AddedCounts(m, x.key, x.rid);
    GoodIs(Insert(st, x));
    if IsFull(t.limits, t.pages[p]) {
      RoomAtRoot(st, x.key);
      BreaksLast(t, m, x, p, s);
      OneMoreTime(Leaves(t), t.limits.MinLeaf());
    } else {
      GrowsLast(t, m, x, p);
    }
  }

  /** Without an overrun the root has room for what a full last leaf splits off. */
  lemma RoomAtRoot(st: State, k: Key)
    requires Lined(st) && (forall x :: x in st.contents ==> x < k) && !Refuses(st.tree, st.contents, k)
    requires !Overruns(st, k) && IsFull(st.tree.limits, st.tree.pages[LastLeaf(st.tree)])
    ensures var (t, p) := (st.tree, LastLeaf(st.tree));
      p != t.root ==> t.root in t.pages && t.pages[t.root].Internal? && |t.pages[t.root].kids| < t.limits.internal
  {
    var (t, p) := (st.tree, LastLeaf(st.tree));
    GoesLast(st, k);
    InvLinked(t, Whole);
    assert NodeOk(t, t.root, Whole);
    assert ReachesRoot(t, t.root);
  }

  lemma GrowsLast(t: Tree, m: map<Key, Rid>, x: LeafNode, p: PageId)
    requires Inv(t, Whole) && Holds(t.pages, m) && !Refuses(t, m, x.key) && LeafFor(t, x.key) == p == LastLeaf(t)
    requires Inv(LeafGrown(t, m, x), Whole)
    ensures var u := LeafGrown(t, m, x);
      && Leaves(u) == Leaves(t) && LastLeaf(u) == p && p in u.pages && u.pages[p].Leaf?
      && |u.pages[p].entries| == |t.pages[p].entries| + 1
  {
    LeafGrownIs(t, m, x);
  }

  /** The last leaf, full, is split below a root with room or becomes the left half below a new root. */
  lemma BreaksLast(t: Tree, m: map<Key, Rid>, x: LeafNode, p: PageId, s: PageId)
    requires Inv(t, Whole) && Holds(t.pages, m) && !Refuses(t, m, x.key) && LeafFor(t, x.key) == p == LastLeaf(t)
    requires IsFull(t.limits, t.pages[p]) && s > 0 && Numbered(t, s - 1)
    requires p != t.root ==> t.pages[p].parent == t.root && t.root in t.pages && t.pages[t.root].Internal?
    requires p != t.root ==> |t.pages[t.root].kids| < t.limits.internal
    ensures var u := LeafGrown(t, m, x);
      && Inv(u, Over(p)) && p in u.pages && u.pages[p].Leaf? && |u.pages[p].entries| == u.limits.leaf
      && Numbered(u, s - 1)
      && var v := LeafBroken(u, p, s).tree;
      && Inv(v, Whole) && Leaves(v) == Leaves(t) + 1 && LastLeaf(v) == s && s in v.pages && v.pages[s].Leaf?
      && |v.pages[s].entries| == t.limits.leaf - t.limits.MinLeaf()
  {
    var u := LeafGrown(t, m, x);
    LeafGrownIs(t, m, x);
    LeafBrokenIs(u, p, s, m[x.key := x.rid]);
    LeafSplitKeepsInv(u, p, s);
    var v := LeafSplit(u, p, s);
    if p != t.root {
      SplitHasParent(v, p, s);
      ListedKeepsInv(v, p, s);
      var kids := v.pages[t.root].kids;
      assert kids[|kids| - 1].child == p;
    }
  }

  lemma {:induction false} RisingLined(st: State, ops: seq<LeafNode>)
    requires Good(st) && st.tree.root == INVALID_PAGE_ID && Rising(ops) && ops != []
    requires |ops| <= ServedRising(st.tree.limits)
    ensures var after := InsertRun(st, ops);
      && Lined(after) && |after.contents| == |ops|
      && forall k :: k in after.contents ==> 0 <= k <= ops[|ops| - 1].key
  {
    hide Lined, Overruns, Good, Insert, ServedRising;
    var n := |ops| - 1;
    var (before, x) := (InsertRun(st, ops[..n]), ops[n]);
    if n == 0 {
      FirstIsLined(st, x);
    } else {
      RisingLined(st, ops[..n]);
      assert ops[..n][n - 1].key < x.key;
      RisingStep(before, x);
    }
  }

  lemma FirstIsLined(st: State, x: LeafNode)
    requires Good(st) && st.tree.root == INVALID_PAGE_ID
    ensures Lined(Insert(st, x)) && Insert(st, x).contents == map[x.key := x.rid]
  {
    InsertChanges(st, x);
    var t := Insert(st, x).tree;
    assert t.pages[t.root].Leaf? && LastLeaf(t) == t.root;
  }

  lemma RisingStep(st: State, x: LeafNode)
    requires Lined(st) && (forall k :: k in st.contents ==> 0 <= k < x.key)
    requires |st.contents| < ServedRising(st.tree.limits)
    ensures Lined(Insert(st, x)) && Insert(st, x).contents == st.contents[x.key := x.rid]
    ensures |Insert(st, x).contents| == |st.contents| + 1
  {
    NothingDroppedAmongNonNegative(st.tree, st.contents, x.key);
    LastOverruns(st, x.key);
    StaysLined(st, x);
    InsertChanges(st, x);
    AddedCounts(st.contents, x.key, x.rid);
  }

  /** Rising keys put into a new index, as written, overrun at exactly this insert and not before. */
  lemma RisingOverruns(st: State, ops: seq<LeafNode>, i: nat)
    requires Good(st) && st.tree.root == INVALID_PAGE_ID && Rising(ops) && i < |ops|
    requires i <= ServedRising(st.tree.limits)
    ensures Overruns(InsertRun(st, ops[..i]), ops[i].key) <==> i == ServedRising(st.tree.limits)
  {
    hide Inv, Holds, Overruns, Good, InsertRun, Insert, Lined, Refuses;
    LimitsOk(st);
    if i == 0 {
      EmptyServes(st, ops);
    } else {
      RisingLined(st, ops[..i]);
      var at := InsertRun(st, ops[..i]);
      assert ops[..i][i - 1].key < ops[i].key;
      LinedIs(at);
      NothingDroppedAmongNonNegative(at.tree, at.contents, ops[i].key);
      LastOverruns(at, ops[i].key);
    }
  }

  lemma EmptyServes(st: State, ops: seq<LeafNode>)
    requires Good(st) && st.tree.root == INVALID_PAGE_ID && ops != []
    ensures !Overruns(InsertRun(st, ops[..0]), ops[0].key) && ServedRising(st.tree.limits) > 0
  {
    Scaled(st.tree.limits.MinLeaf(), 0, st.tree.limits.internal - 1);
  }

  lemma LinedIs(st: State)
    requires Lined(st)
    ensures st.tree.root != INVALID_PAGE_ID && Inv(st.tree, Whole) && Holds(st.tree.pages, st.contents)
  {}

  // ---------- the index itself ----------

  /** A new index as written, of any page sizes: what it serves of a run of new keys, and exactly of rising ones. */
  method FillIndex(limits: Limits, meta: TableMetas.TableMeta, ops: seq<LeafNode>) returns (served: nat)
    requires limits.Ok() && INVALID_PAGE_ID <= meta.lastTableDataPageId && Fresh(ops)
    modifies meta`lastTableDataPageId
    ensures served <= |ops| && served <= ServedAtMost(limits) && (served < |ops| ==> ServedSurely(limits) <= served)
    ensures Rising(ops) ==> served == if |ops| <= ServedRising(limits) then |ops| else ServedRising(limits)
  {
    hide Overruns, Good, InsertRun, InsertAll, Inv, AgreeOffZero, ServedSurely, ServedAtMost, ServedRising;
    var index := new BTreeIndex(limits, meta, AsWritten);
    var txn := new Transaction();
    ghost var st := index.St();
    served := InsertMany(index, txn, ops);
    ServedIs(st, ops, served);
  }

  /** What the first overrun says about how far a run got. */
  lemma ServedIs(st: State, ops: seq<LeafNode>, served: nat)
    requires Good(st) && st.tree.root == INVALID_PAGE_ID && Fresh(ops) && served <= |ops|
    requires forall i :: 0 <= i < served ==> !Overruns(InsertRun(st, ops[..i]), ops[i].key)
    requires served < |ops| ==> Overruns(InsertRun(st, ops[..served]), ops[served].key)
    ensures st.tree.limits.Ok()
    ensures var limits := st.tree.limits;
      && (served < |ops| ==> ServedSurely(limits) <= served) && served <= ServedAtMost(limits)
      && (Rising(ops) ==> served == if |ops| <= ServedRising(limits) then |ops| else ServedRising(limits))
  {
    hide Overruns, InsertRun, Good, Inv, ServedSurely, ServedAtMost, ServedRising;
    LimitsOk(st);
    var limits := st.tree.limits;
    assert st.contents == map[] by { RefusedIs(st, 0); }
    if served < |ops| && served < ServedSurely(limits) {
      ServedWhileSmall(st, ops, served);
    }
    if served > ServedAtMost(limits) {
      forall i | 0 <= i < served ensures !Overruns(InsertRun(st, ops[..served][..i]), ops[..served][i].key) {
        assert ops[..served][..i] == ops[..i];
      }
      LongRunOverruns(st, ops[..served]);
    }
    if Rising(ops) {
      var first := ServedRising(limits);
      if served < |ops| && served <= first { RisingOverruns(st, ops, served); }
      if served > first { RisingOverruns(st, ops, first); }
    }
  }

  /** At the program's own page sizes: 34138 new keys are always served, 67939 never, and of rising keys 34238. */
  lemma AtProgramSizes()
    ensures PROGRAM_LIMITS == Limits(202, 338) && PROGRAM_LIMITS.Ok()
    ensures ServedSurely(PROGRAM_LIMITS) == 34138 && ServedAtMost(PROGRAM_LIMITS) == 67938
    ensures ServedRising(PROGRAM_LIMITS) == 34238
    ensures MinKeys(PROGRAM_LIMITS, 1) == 169 * 101 && MaxKeys(PROGRAM_LIMITS, 1) == 338 * 201
    ensures KEY_MIN == -0x8000_0000 && KEY_END == 0x8000_0000
  {}
}
