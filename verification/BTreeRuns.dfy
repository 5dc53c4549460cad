/** Runs of inserts and searches on one index, and the plain map they amount to. */
module BTreeRuns {
  import opened Bytes
  import opened Ids
  import opened BTreeModel
  import opened BTreeSteps
  import opened BTreeIndexes
  import TableMetas
  import opened BTreeTheorems

  /** The plain map: the first value given for a key stays. */
  function InsertAll(m: map<Key, Rid>, ops: seq<LeafNode>): map<Key, Rid> {
    if ops == [] then m
    else
      var before := InsertAll(m, ops[..|ops| - 1]);
      var last := ops[|ops| - 1];
      if last.key in before then before else before[last.key := last.rid]
  }

  ghost predicate NonNegative(m: map<Key, Rid>, ops: seq<LeafNode>) {
    && (forall k :: k in m ==> k >= 0)
    && (forall i :: 0 <= i < |ops| ==> ops[i].key >= 0)
  }

  /** The two maps agree on every key but 0. */
  ghost predicate AgreeOffZero(a: map<Key, Rid>, b: map<Key, Rid>) {
    forall k: Key :: k != 0 ==> (k in a <==> k in b) && (k in a ==> a[k] == b[k])
  }

  lemma {:induction false} InsertAllKeys(m: map<Key, Rid>, ops: seq<LeafNode>)
    ensures forall k :: k in InsertAll(m, ops) <==> k in m || exists i :: 0 <= i < |ops| && ops[i].key == k
  {
    if ops != [] {
      var n := |ops| - 1;
      InsertAllKeys(m, ops[..n]);
      forall k ensures k in InsertAll(m, ops) <==> k in m || exists i :: 0 <= i < |ops| && ops[i].key == k {
        if i :| 0 <= i < |ops| && ops[i].key == k {
          assert i < n ==> ops[..n][i].key == k;
        }
      }
    }
  }

  /** With distinct keys every pair of the run is found. */
  lemma {:induction false} InsertAllFinds(ops: seq<LeafNode>, i: int)
    requires forall a, b :: 0 <= a < b < |ops| ==> ops[a].key != ops[b].key
    requires 0 <= i < |ops|
    ensures ops[i].key in InsertAll(map[], ops) && InsertAll(map[], ops)[ops[i].key] == ops[i].rid
  {
    var n := |ops| - 1;
    InsertAllKeys(map[], ops[..n]);
    if i < n {
      InsertAllFinds(ops[..n], i);
      assert ops[..n][i] == ops[i];
    }
  }

  lemma OneMore(m: map<Key, Rid>, ops: seq<LeafNode>, i: nat, c: map<Key, Rid>, after: map<Key, Rid>)
    requires i < |ops| && AgreeOffZero(c, InsertAll(m, ops[..i]))
    requires after == c[ops[i].key := ops[i].rid] || after == c
    requires ops[i].key in c ==> after == c
    requires after == c ==> ops[i].key in c || ops[i].key == 0
    ensures AgreeOffZero(after, InsertAll(m, ops[..i + 1]))
    ensures c == InsertAll(m, ops[..i]) && (after == c ==> ops[i].key in c) ==> after == InsertAll(m, ops[..i + 1])
  {
    assert ops[..i + 1][..i] == ops[..i] && ops[..i + 1][i] == ops[i];
  }

  lemma AgreesWithItself(m: map<Key, Rid>)
    ensures AgreeOffZero(m, m)
  {}

  lemma RefusedIs(st: State, k: Key)
    requires Good(st)
    ensures st.tree.root == INVALID_PAGE_ID ==> st.contents == map[]
    ensures st.tree.root != INVALID_PAGE_ID && k in st.contents ==> Refuses(st.tree, st.contents, k)
    ensures st.tree.root != INVALID_PAGE_ID && Refuses(st.tree, st.contents, k) ==> k in st.contents || k == 0
  {}

  /** A run of inserts stands for the plain map; only key 0 among negative keys can be missing. */
  lemma {:induction false} RunIsInsertAll(st: State, ops: seq<LeafNode>)
    requires Good(st)
    ensures AgreeOffZero(InsertRun(st, ops).contents, InsertAll(st.contents, ops))
    ensures NonNegative(st.contents, ops) ==> InsertRun(st, ops).contents == InsertAll(st.contents, ops)
    ensures ops != [] ==> InsertRun(st, ops).tree.root != INVALID_PAGE_ID
  {
    hide Insert, Good, Inv, Holds, AgreeOffZero, KidsChanged, LeavesBut, Drops;
    if ops == [] {
      assert AgreeOffZero(st.contents, st.contents) by { AgreesWithItself(st.contents); }
    } else {
      var n := |ops| - 1;
      var (before, x) := (InsertRun(st, ops[..n]), ops[n]);
      RunIsInsertAll(st, ops[..n]);
      InsertChanges(before, x);
      RefusedIs(before, x.key);
      if NonNegative(st.contents, ops) {
        InsertAllKeys(st.contents, ops[..n]);
        if before.tree.root != INVALID_PAGE_ID {
          GoodIs(before);
          NothingDroppedAmongNonNegative(before.tree, before.contents, x.key);
        }
      }
      assert ops[..n + 1] == ops;
      OneMore(st.contents, ops, n, before.contents, Insert(before, x).contents);
    }
  }

  lemma RunStarts(st: State, ops: seq<LeafNode>)
    requires Good(st)
    ensures InsertRun(st, ops[..0]) == st
  {}

  lemma RunGoesOn(st: State, ops: seq<LeafNode>, i: nat)
    requires Good(st) && i < |ops|
    ensures InsertRun(st, ops[..i + 1]) == Insert(InsertRun(st, ops[..i]), ops[i])
  {
    assert ops[..i + 1][..i] == ops[..i] && ops[..i + 1][i] == ops[i];
  }

  /**
   * Any run of inserts.  With leaf safety as the comment words it the whole run is served; as written it stops exactly
   * at the first insert that overruns.  A served run leaves the index in the state of the inserts one after the other,
   * and all pins and latches given back.
   */
  method InsertMany(index: BTreeIndex, txn: Transaction, ops: seq<LeafNode>) returns (served: nat)
    requires index.Valid() && index.store.grip.writing == {} && txn.pageSet == []
    requires index.store.grip.reading == multiset{}
    modifies index`shadow, index.store, index.meta`lastTableDataPageId, txn
    ensures served <= |ops|
    ensures forall i :: 0 <= i < served && index.rule.AsWritten? ==>
      !Overruns(InsertRun(old(index.St()), ops[..i]), ops[i].key)
    ensures served < |ops| ==>
      index.rule.AsWritten? && Overruns(InsertRun(old(index.St()), ops[..served]), ops[served].key)
    ensures served == |ops| ==> index.Valid() && index.St() == InsertRun(old(index.St()), ops)
    ensures served == |ops| ==> txn.pageSet == [] && index.store.grip == old(index.store.grip)
    ensures served == |ops| ==> AgreeOffZero(index.shadow.contents, InsertAll(old(index.shadow).contents, ops))
    ensures served == |ops| && NonNegative(old(index.shadow).contents, ops) ==>
      index.shadow.contents == InsertAll(old(index.shadow).contents, ops)
    ensures served == |ops| && ops != [] ==> index.store.rootId != INVALID_PAGE_ID
  {
    hide Insert, InsertRun, Overruns, Good, AgreeOffZero, KidsChanged, LeavesBut, Latched, Refuses, ClimbFor, Inv;
    hide Holds;
    ghost var st := index.St();
    served := 0;
    RunStarts(st, ops);
    while served < |ops|
      invariant served <= |ops|
      invariant index.Valid() && txn.pageSet == [] && index.store.grip == old(index.store.grip)
      invariant Good(st) && index.St() == InsertRun(st, ops[..served])
      invariant forall i :: 0 <= i < served && index.rule.AsWritten? ==> !Overruns(InsertRun(st, ops[..i]), ops[i].key)
    {
      RunGoesOn(st, ops, served);
      var r, _ := index.InternalInsertRecord(txn, ops[served].key, ops[served].rid);
      if r == EmptyPageSet {
        return;
      }
      served := served + 1;
    }
    assert ops[..served] == ops;
    RunIsInsertAll(st, ops);
  }

  /** A new index, whatever its page sizes and rule, that is given a negative key first loses key 0. */
  method InsertZeroAfterNegative(limits: Limits, meta: TableMetas.TableMeta, rule: SafetyRule,
                                 first: LeafNode, rid: Rid)
    returns (kept: bool, index: BTreeIndex)
    requires limits.Ok() && INVALID_PAGE_ID <= meta.lastTableDataPageId && first.key < 0
    modifies meta`lastTableDataPageId
    ensures !kept && index.Valid() && index.shadow.contents == map[first.key := first.rid]
  {
    index := new BTreeIndex(limits, meta, rule);
    var txn := new Transaction();
    ghost var last := meta.lastTableDataPageId + 1;
    var r, _ := index.InternalInsertRecord(txn, first.key, first.rid);
    ZeroAfterNegativeIsLost(limits, last, first.key, first.rid);
    assert index.St() == State(FirstLeaf(limits, last, first), map[first.key := first.rid], last);
    var again, _ := index.InternalInsertRecord(txn, 0, rid);
    kept := again.inserted;
  }

  /** Closing an index and opening it again over the same pages changes nothing it stands for. */
  method Reopen(index: BTreeIndex) returns (again: BTreeIndex)
    requires index.Valid()
    ensures fresh(again) && again.Valid() && again.store == index.store && again.St() == index.St()
  {
    assert BTreeIndex.Seen(index.store, index.shadow, index.meta.lastTableDataPageId) == index.St();
    again := new BTreeIndex.Open(index.store, index.meta, index.rule);
    assert Good(BTreeIndex.Seen(again.store, index.shadow, again.meta.lastTableDataPageId));
  }

  /** Distinct keys that are not negative, inserted into a new index and then searched one by one: every
      search finds its own value. */
  method InsertThenScan(index: BTreeIndex, txn: Transaction, ops: seq<LeafNode>) returns (found: seq<Option<Rid>>)
    requires index.Valid() && index.rule.AsCommented? && index.store.grip.writing == {} && txn.pageSet == []
    requires index.store.grip.reading == multiset{}
    requires index.shadow.contents == map[] && NonNegative(map[], ops)
    requires forall a, b :: 0 <= a < b < |ops| ==> ops[a].key != ops[b].key
    modifies index`shadow, index.store, index.meta`lastTableDataPageId, txn
    ensures |found| == |ops| && forall i :: 0 <= i < |ops| ==> found[i] == Some(ops[i].rid)
  {
    var _ := InsertMany(index, txn, ops);
    found := [];
    while |found| < |ops|
      invariant index.Valid() && |found| <= |ops| && (ops != [] ==> index.store.rootId != INVALID_PAGE_ID)
      invariant index.shadow.contents == InsertAll(map[], ops)
      invariant forall i :: 0 <= i < |found| ==> found[i] == Some(ops[i].rid)
      invariant index.store.grip.writing == {}
    {
      InsertAllFinds(ops, |found|);
      var r := index.InternalScanKey(ops[|found|].key);
      found := found + [r];
    }
  }
}
