/** Scanning a table heap up to where it ended when the scan began. */
module TableIterators {
  import opened Ids
  import opened BufferPools
  import opened PageGuards
  import opened TableHeaps
  import P = TablePages

  const END := Rid(INVALID_PAGE_ID, 0)

  // ---------- one step, on values ----------

  /** The next slot of the page, or the first slot of the next page. */
  function Following(pages: Pages, t: int, rid: Rid): Rid
    requires PageOk(pages, t, rid.page)
  {
    if rid.slot + 1 < |RowsOf(pages, t, rid.page)| then Rid(rid.page, rid.slot + 1)
    else Rid(NextOf(pages, t, rid.page), 0)
  }

  /** One step of a scan that stops before `stop`. */
  function Successor(pages: Pages, t: int, rid: Rid, stop: Rid): Rid
    requires PageOk(pages, t, rid.page)
  {
    if Rid(rid.page, rid.slot + 1) == stop then END else Following(pages, t, rid)
  }

  ghost predicate Before(a: Rid, b: Rid) {
    a.page < b.page || (a.page == b.page && a.slot < b.slot)
  }

  /** Page `a` is not empty and names `b`, a later page. */
  ghost predicate Joined(pages: Pages, t: int, a: int, b: int) {
    && PageOk(pages, t, a) && PageOk(pages, t, b)
    && a < b && NextOf(pages, t, a) == b && RowsOf(pages, t, a) != []
  }

  ghost predicate Path(pages: Pages, t: int, chain: seq<int>) {
    && AllOk(pages, t, chain)
    && forall i, j {:trigger Joined(pages, t, chain[i], chain[j])} ::
         0 <= i < j == i + 1 < |chain| ==> Joined(pages, t, chain[i], chain[j])
  }

  lemma ChainIsPath(pages: Pages, t: int, chain: seq<int>)
    requires ChainOk(pages, t, chain)
    ensures Path(pages, t, chain)
  {
    forall i, j | 0 <= i < j == i + 1 < |chain| ensures Joined(pages, t, chain[i], chain[j]) {
      assert LinkOk(pages, t, chain, i) && PageOk(pages, t, chain[i]) && PageOk(pages, t, chain[j]);
    }
  }

  lemma FrontIsPath(pages: Pages, t: int, chain: seq<int>)
    requires Path(pages, t, chain) && chain != []
    ensures Path(pages, t, Front(chain))
  {
    forall i, j | 0 <= i < j == i + 1 < |Front(chain)| ensures Joined(pages, t, Front(chain)[i], Front(chain)[j]) {
      assert Joined(pages, t, chain[i], chain[j]);
    }
  }

  /** A row of the log can be read back by its id. */
  lemma {:induction false} LogReadsBack(pages: Pages, t: int, chain: seq<int>, k: nat)
    requires AllOk(pages, t, chain) && k < |Log(pages, t, chain)|
    ensures var e := Log(pages, t, chain)[k];
      && e.rid.page in chain && PageOk(pages, t, e.rid.page)
      && e.rid.slot < |RowsOf(pages, t, e.rid.page)| && RowsOf(pages, t, e.rid.page)[e.rid.slot] == e.row
  {
    assert PageOk(pages, t, Last(chain));
    if k < |Log(pages, t, Front(chain))| {
      LogReadsBack(pages, t, Front(chain), k);
    }
  }

  /** The log of a path ends with the last row of its last page, if that page has one. */
  lemma LogEnds(pages: Pages, t: int, chain: seq<int>)
    requires AllOk(pages, t, chain) && chain != []
    ensures PageOk(pages, t, Last(chain))
    ensures var rows := RowsOf(pages, t, Last(chain));
      rows != [] ==> var log := Log(pages, t, chain);
        log != [] && log[|log| - 1] == Entry(Rid(Last(chain), |rows| - 1), rows[|rows| - 1])
  {
    assert PageOk(pages, t, Last(chain));
  }

  /** Each row but the last is followed by the next one. */
  lemma {:induction false} FollowingIsNext(pages: Pages, t: int, chain: seq<int>, k: nat)
    requires Path(pages, t, chain) && k + 1 < |Log(pages, t, chain)|
    ensures var log := Log(pages, t, chain);
      && PageOk(pages, t, log[k].rid.page)
      && Following(pages, t, log[k].rid) == log[k + 1].rid && Before(log[k].rid, log[k + 1].rid)
  {
    var front := Front(chain);
    assert PageOk(pages, t, Last(chain));
    FrontIsPath(pages, t, chain);
    var f := Log(pages, t, front);
    if k + 1 < |f| {
      FollowingIsNext(pages, t, front, k);
    } else if k + 1 == |f| {
      LogEnds(pages, t, front);
      assert Joined(pages, t, chain[|chain| - 2], chain[|chain| - 1]);
    }
  }

  /** Ids come in increasing order, so no two rows share one. */
  lemma {:induction false} LogIncreases(pages: Pages, t: int, chain: seq<int>, i: nat, j: nat)
    requires Path(pages, t, chain) && i < j < |Log(pages, t, chain)|
    ensures Before(Log(pages, t, chain)[i].rid, Log(pages, t, chain)[j].rid)
  {
    FollowingIsNext(pages, t, chain, j - 1);
    if i + 1 < j {
      LogIncreases(pages, t, chain, i, j - 1);
    }
  }

  lemma {:induction false} LogBegins(pages: Pages, t: int, chain: seq<int>)
    requires Path(pages, t, chain) && Log(pages, t, chain) != []
    ensures Log(pages, t, chain)[0].rid == Rid(chain[0], 0)
  {
    assert PageOk(pages, t, Last(chain));
    FrontIsPath(pages, t, chain);
    if |chain| > 1 {
      FrontHasRows(pages, t, chain);
      LogBegins(pages, t, Front(chain));
    }
  }

  lemma FrontHasRows(pages: Pages, t: int, chain: seq<int>)
    requires Path(pages, t, chain) && |chain| > 1
    ensures AllOk(pages, t, Front(chain)) && Log(pages, t, Front(chain)) != []
  {
    hide Log, P.Valid, P.Rows;
    FrontIsPath(pages, t, chain);
    assert Joined(pages, t, chain[|chain| - 2], chain[|chain| - 1]);
    LogEnds(pages, t, Front(chain));
  }

  // ---------- when a scan is exact ----------

  /** Walking from `start` and stopping before `stop` visits exactly the rows of the log, once each, in order. */
  ghost predicate ScansExactly(pages: Pages, t: int, log: seq<Entry>, start: Rid, stop: Rid) {
    if log == [] then start.page == INVALID_PAGE_ID
    else
      && start == log[0].rid
      && forall k {:trigger NextIn(log, k)} :: 0 <= k < |log| ==> StepsTo(pages, t, log[k].rid, stop, NextIn(log, k))
  }

  ghost function NextIn(log: seq<Entry>, k: nat): Rid {
    if k + 1 < |log| then log[k + 1].rid else END
  }

  ghost predicate StepsTo(pages: Pages, t: int, rid: Rid, stop: Rid, next: Rid) {
    PageOk(pages, t, rid.page) && Successor(pages, t, rid, stop) == next
  }

  /** A scan whose stop lies right behind the last row of a prefix steps through that prefix and ends. */
  lemma StepWithinPrefix(pages: Pages, t: int, chain: seq<int>, n: nat, k: nat)
    requires Path(pages, t, chain) && k < n <= |Log(pages, t, chain)|
    ensures var log := Log(pages, t, chain);
      var stop := Rid(log[n - 1].rid.page, log[n - 1].rid.slot + 1);
      && StepsTo(pages, t, log[k].rid, stop, if k + 1 < n then log[k + 1].rid else END)
      && (log[k].rid.page < stop.page || (log[k].rid.page == stop.page && log[k].rid.slot + 1 <= stop.slot))
  {
    LogReadsBack(pages, t, chain, k);
    if k + 1 < n {
      LogIncreases(pages, t, chain, k, n - 1);
      FollowingIsNext(pages, t, chain, k);
    }
  }

  /**
   * The scan starts at page 1 and stops behind the last row of the last page. It is exact if and only if page 1 is
   * the first page of the heap and the last page is not empty.
   */
  lemma MakeIteratorIsExactIff(pages: Pages, t: int, chain: seq<int>)
    requires ChainOk(pages, t, chain)
    ensures PageOk(pages, t, Last(chain))
    ensures var rows := RowsOf(pages, t, Last(chain));
      ScansExactly(pages, t, Log(pages, t, chain), Rid(1, 0), Rid(Last(chain), |rows|)) <==> chain[0] == 1 && rows != []
  {
    ChainIsPath(pages, t, chain);
    LogEnds(pages, t, chain);
    var log, rows := Log(pages, t, chain), RowsOf(pages, t, Last(chain));
    var stop := Rid(Last(chain), |rows|);
    if log != [] {
      LogBegins(pages, t, chain);
    }
    if rows != [] {
      forall k | 0 <= k < |log| ensures StepsTo(pages, t, log[k].rid, stop, NextIn(log, k)) {
        StepWithinPrefix(pages, t, chain, |log|, k);
      }
    } else if log != [] {
      EmptyTailIsVisited(pages, t, chain);
      assert NextIn(log, |log| - 1) == END;
    }
  }

  /** With an empty last page, a scan runs on from the last row into that page. */
  lemma EmptyTailIsVisited(pages: Pages, t: int, chain: seq<int>)
    requires ChainOk(pages, t, chain) && Log(pages, t, chain) != []
    requires PageOk(pages, t, Last(chain)) && RowsOf(pages, t, Last(chain)) == []
    ensures var log := Log(pages, t, chain);
      StepsTo(pages, t, log[|log| - 1].rid, Rid(Last(chain), 0), Rid(Last(chain), 0)) && Last(chain) >= 0
  {
    ChainIsPath(pages, t, chain);
    FrontHasRows(pages, t, chain);
    assert Joined(pages, t, chain[|chain| - 2], chain[|chain| - 1]);
    LogEnds(pages, t, Front(chain));
    assert Log(pages, t, chain) == Log(pages, t, Front(chain));
  }

  // ---------- the iterator ----------

  /** Walks the rows the heap had when the scan began; rows appended since are not visited. */
  class TableIterator {
    const heap: TableHeap
    var rid: Rid
    const stop: Rid
    ghost const snapshot: seq<Entry>
    /** How many rows were passed. */
    ghost var at: nat

    constructor (heap: TableHeap, rid: Rid, stop: Rid)
      requires heap.Valid()
      ensures this.heap == heap && this.rid == rid && this.stop == stop && at == 0 && snapshot == heap.Rows()
    {
      this.heap, this.rid, this.stop := heap, rid, stop;
      at, snapshot := 0, heap.Rows();
    }

    ghost predicate Valid()
      reads this, heap, heap.bpm, heap.bpm.pool, heap.bpm.pool.replacer, heap.bpm.pool.disk, heap.meta
    {
      && heap.Valid() && OnCourse(snapshot, heap.Rows(), rid, stop, at)
    }

    method IsEnd() returns (r: bool)
      requires Valid()
      ensures r <==> at == |snapshot|
    {
      Whereabouts(heap.bpm.image, heap.oid, heap.chain, heap.meta.lastTableDataPageId, snapshot, rid, stop, at);
      r := rid.page == INVALID_PAGE_ID;
    }

    /** The increment; false stands for the exception that no frame was to be had. */
    method Advance() returns (ok: bool)
      requires Valid() && at < |snapshot| && Idle(heap.bpm.latches)
      modifies this`rid, this`at
      modifies heap.bpm`image, heap.bpm`latches, heap.bpm.pool`s, heap.bpm.pool.replacer, heap.bpm.pool.disk
      ensures Valid() && Idle(heap.bpm.latches) && SamePins(old(heap.bpm.image), heap.bpm.image)
      ensures heap.Rows() == old(heap.Rows())
      ensures at == if ok then old(at) + 1 else old(at)
      ensures !ok ==> old(heap.bpm.Spares()) == heap.bpm.Spares() == 0
      ensures old(Roomy(heap.bpm.image)) ==> Roomy(heap.bpm.image) && ok
    {
      hide Shows, Sound, Known, HeapOk, HeapLog, SamePins, OnCourse, Roomy;
      ghost var was, chain, last := heap.bpm.image, heap.chain, heap.meta.lastTableDataPageId;
      Whereabouts(was, heap.oid, chain, last, snapshot, rid, stop, at);
      RoomyServes(heap.bpm);
      var b := Peek(heap.bpm, Key(heap.oid, rid.page));
      PagesDecide(was, heap.bpm.image, heap.oid, chain, last);
      RoomyStays(was, heap.bpm.image);
      if b.None? {
        return false;
      }
      if stop.page != INVALID_PAGE_ID {
        assert rid.page < stop.page || (rid.page == stop.page && rid.slot + 1 <= stop.slot);
      }
      var next := rid.slot + 1;
      if Rid(rid.page, next) == stop {
        rid := END;
      } else if next < P.NumTuples(b.value) {
        rid := Rid(rid.page, next);
      } else {
        rid := Rid(P.NextPageId(b.value), 0);
      }
      at := at + 1;
      return true;
    }
  }

  /** The cursor is at row `at` of the snapshot, or at its end; the stop lies right behind the snapshot's last row. */
  ghost predicate OnCourse(snapshot: seq<Entry>, rows: seq<Entry>, rid: Rid, stop: Rid, at: nat) {
    && snapshot != [] && snapshot <= rows && at <= |snapshot|
    && stop == Rid(snapshot[|snapshot| - 1].rid.page, snapshot[|snapshot| - 1].rid.slot + 1)
    && rid == if at < |snapshot| then snapshot[at].rid else END
  }

  lemma Whereabouts(im: Image, t: int, chain: seq<int>, last: int, snapshot: seq<Entry>, rid: Rid, stop: Rid, at: nat)
    requires HeapOk(im, t, chain, last) && OnCourse(snapshot, HeapLog(im, t, chain), rid, stop, at)
    ensures rid.page == INVALID_PAGE_ID <==> at == |snapshot|
    ensures at < |snapshot| ==>
      && PageOk(im.pages, t, rid.page)
      && OnCourse(snapshot, HeapLog(im, t, chain), Successor(im.pages, t, rid, stop), stop, at + 1)
      && (rid.page < stop.page || (rid.page == stop.page && rid.slot + 1 <= stop.slot))
  {
    if at < |snapshot| {
      ChainIsPath(im.pages, t, chain);
      LogReadsBack(im.pages, t, chain, at);
      StepWithinPrefix(im.pages, t, chain, |snapshot|, at);
    }
  }

  lemma StartsOnCourse(im: Image, t: int, chain: seq<int>, last: int)
    requires HeapOk(im, t, chain, last)
    ensures var (log, rows) := (HeapLog(im, t, chain), PageRows(im, Key(t, Last(chain))));
      OnCourse(log, log, Rid(1, 0), Rid(Last(chain), |rows|), 0) <==> chain[0] == 1 && rows != []
  {
    ChainIsPath(im.pages, t, chain);
    LogEnds(im.pages, t, chain);
    if Log(im.pages, t, chain) != [] {
      LogBegins(im.pages, t, chain);
    }
  }

  /** Null stands for the exception. */
  method MakeIterator(heap: TableHeap) returns (it: TableIterator?)
    requires heap.Valid() && Idle(heap.bpm.latches)
    modifies heap.bpm`image, heap.bpm`latches, heap.bpm.pool`s, heap.bpm.pool.replacer, heap.bpm.pool.disk
    ensures heap.Valid() && Idle(heap.bpm.latches) && SamePins(old(heap.bpm.image), heap.bpm.image)
    ensures heap.Rows() == old(heap.Rows())
    ensures it != null ==> fresh(it) && it.heap == heap && it.snapshot == heap.Rows() && it.at == 0
    ensures it == null ==> old(heap.bpm.Spares()) == heap.bpm.Spares() == 0
    ensures old(Roomy(heap.bpm.image)) ==> Roomy(heap.bpm.image) && it != null
    ensures it != null ==> it.rid == Rid(1, 0)
    ensures it != null ==> it.stop == Rid(Last(heap.chain), |PageRows(heap.bpm.image, Key(heap.oid, Last(heap.chain)))|)
    ensures it != null ==>
      (it.Valid() <==> heap.chain[0] == 1 && PageRows(heap.bpm.image, Key(heap.oid, Last(heap.chain))) != [])
  {
    hide Shows, Sound, Known, HeapOk, HeapLog, SamePins, OnCourse, Roomy;
    ghost var was := heap.bpm.image;
    RoomyServes(heap.bpm);
    TailIsPage(was, heap.oid, heap.chain, heap.meta.lastTableDataPageId);
    var lastPage := heap.meta.lastTableHeapDataPageId;
    var b := Peek(heap.bpm, Key(heap.oid, lastPage));
    PagesDecide(was, heap.bpm.image, heap.oid, heap.chain, heap.meta.lastTableDataPageId);
    RoomyStays(was, heap.bpm.image);
    if b.None? {
      return null;
    }
    StartsOnCourse(heap.bpm.image, heap.oid, heap.chain, heap.meta.lastTableDataPageId);
    it := new TableIterator(heap, Rid(1, 0), Rid(lastPage, P.NumTuples(b.value)));
  }
}
