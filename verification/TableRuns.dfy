/** Whole runs on a table heap: inserts interleaved with index page allocation, and scans interleaved with inserts. */
module TableRuns {
  import opened Bytes
  import opened Ids
  import opened BufferPools
  import opened PageGuards
  import opened TableHeaps
  import opened TableIterators
  import opened TableMetas
  import P = TablePages
  import T = Tuples

  datatype Step = Insert(deleted: bool, tuple: seq<byte>) | IndexPage(bytes: Block)

  /** The heap is usable, nobody else is at it, and so many more pages can still be numbered. */
  ghost predicate Ready(heap: TableHeap, pagesLeft: nat)
    reads heap, heap.bpm, heap.bpm.pool, heap.bpm.pool.replacer, heap.bpm.pool.disk, heap.meta
  {
    heap.Valid() && Idle(heap.bpm.latches) && heap.meta.lastTableDataPageId + pagesLeft < 0x8000_0000
  }

  /** An index of the same table takes the next page of the file for itself; the heap does not notice. */
  method AllocateIndexPage(heap: TableHeap, bytes: Block) returns (ok: bool)
    requires Ready(heap, 1)
    modifies heap.bpm`image, heap.bpm`latches, heap.bpm.pool`s, heap.bpm.pool.replacer, heap.bpm.pool.disk
    modifies heap.meta`lastTableDataPageId
    ensures Ready(heap, 0) && SamePins(old(heap.bpm.image), heap.bpm.image) && heap.Rows() == old(heap.Rows())
    ensures heap.meta.lastTableDataPageId == old(heap.meta.lastTableDataPageId) + if ok then 1 else 0
    ensures !ok ==> heap.bpm.Spares() == 0
    ensures old(Roomy(heap.bpm.image)) ==> Roomy(heap.bpm.image) && ok
  {
    hide Shows, Sound, Known, HeapOk, HeapLog, SamePins, Bounded, Roomy;
    RoomyServes(heap.bpm);
    var q := Key(heap.oid, heap.meta.lastTableDataPageId + 1);
    ghost var im := heap.bpm.image;
    TailIsPage(im, heap.oid, heap.chain, heap.meta.lastTableDataPageId);
    ok := heap.bpm.NewPage(q);
    if ok {
      var id := heap.meta.IncrementTableDataPageId();
      WritePage(heap.bpm, q, bytes);
      ForeignPage(im, heap.oid, heap.chain, id - 1, bytes);
    } else {
      NothingChanged(im, heap.oid, heap.chain);
    }
    RoomyStays(im, heap.bpm.image);
  }

  method WritePage(bpm: GuardedPool, q: PageKey, bytes: Block)
    requires bpm.Valid() && Count(bpm.image.pins, q) == 1 && Count(bpm.image.owed, q) == 0
    modifies bpm`image, bpm`latches, bpm.pool`s, bpm.pool.replacer
    ensures bpm.Valid() && bpm.latches == old(bpm.latches)
    ensures bpm.image == Unpinned(Stored(old(bpm.image), q, true, bytes), q, true)
  {
    hide Shows, Sound, Known;
    var guard := new PageGuard(bpm, Some(q), NoLatch);
    var _ := guard.AsMut();
    guard.Put(bytes);
    guard.Drop();
  }

  lemma ForeignPage(im: Image, t: int, chain: seq<int>, last: int, bytes: Block)
    requires HeapOk(im, t, chain, last)
    requires var q := Key(t, last + 1); Count(im.pins, q) == Count(im.owed, q) == 0
    ensures var q := Key(t, last + 1);
      var im' := Unpinned(Stored(Created(im, q), q, true, bytes), q, true);
      && HeapOk(im', t, chain, last + 1) && HeapLog(im', t, chain) == HeapLog(im, t, chain) && SamePins(im, im')
  {
    var q := Key(t, last + 1);
    var im' := Unpinned(Stored(Created(im, q), q, true, bytes), q, true);
    assert PageOk(im.pages, t, Last(chain));
    forall n | n in chain && n != Last(chain) ensures Kept(im.pages, im'.pages, t, n) {
      assert PageOk(im.pages, t, n);
    }
    assert Kept(im.pages, im'.pages, t, Last(chain));
    FrontKept(im.pages, im'.pages, t, chain);
    assert LinkOk(im.pages, t, chain, |chain| - 1);
    LogDependsOnChain(im.pages, im'.pages, t, chain);
  }

  function Inserts(steps: seq<Step>): nat {
    if steps == [] then 0
    else Inserts(steps[..|steps| - 1]) + if steps[|steps| - 1].Insert? then 1 else 0
  }

  /** The rows the insert steps of a run add, under the ids they got. */
  ghost function Added(steps: seq<Step>, rids: seq<Rid>): seq<Entry>
  {
    if steps == [] || rids == [] then []
    else
      var s := steps[|steps| - 1];
      var front := steps[..|steps| - 1];
      if s.IndexPage? then Added(front, rids)
      else Added(front, rids[..|rids| - 1]) + [Entry(rids[|rids| - 1], P.Row(s.deleted, s.tuple))]
  }

  /**
   * A run of inserts and index page allocations in any order. Afterwards the heap holds what it held followed by the
   * rows inserted by the `ran` first steps in order, each under its returned id.  The run stops early only when fewer
   * than two frames are spare, and never in a roomy pool.
   */
  method RunSteps(heap: TableHeap, steps: seq<Step>) returns (ran: nat, rids: seq<Rid>)
    requires Ready(heap, |steps|)
    requires forall s :: s in steps && s.Insert? ==> 0 < |s.tuple| <= 4082
    modifies heap`chain, heap.bpm`image, heap.bpm`latches, heap.bpm.pool`s, heap.bpm.pool.replacer, heap.bpm.pool.disk
    modifies heap.meta`lastTableDataPageId, heap.meta`lastTableHeapDataPageId, heap.meta`tupleCount
    ensures Ready(heap, 0) && ran <= |steps|
    ensures |rids| == Inserts(steps[..ran]) && heap.Rows() == old(heap.Rows()) + Added(steps[..ran], rids)
    ensures ran < |steps| ==> heap.bpm.Spares() < 2
    ensures old(Roomy(heap.bpm.image)) ==> Roomy(heap.bpm.image) && ran == |steps|
  {
    hide Shows, Sound, Known, Spare, HeapOk, HeapLog, SamePins, OthersKept, Roomy, PageRows, P.BytesOf, Added, Inserts;
    ran, rids := 0, [];
    NothingRan(steps);
    while ran < |steps|
      invariant 0 <= ran <= |steps| && Ready(heap, |steps| - ran)
      invariant |rids| == Inserts(steps[..ran]) && heap.Rows() == old(heap.Rows()) + Added(steps[..ran], rids)
      invariant old(Roomy(heap.bpm.image)) ==> Roomy(heap.bpm.image)
    {
      if steps[ran].IndexPage? {
        var ok := AllocateIndexPage(heap, steps[ran].bytes);
        if !ok {
          return;
        }
        OneMoreStep(steps, ran, rids, Rid(0, 0));
      } else {
        var r := heap.InsertTuple(steps[ran].deleted, steps[ran].tuple);
        if !r.Inserted? {
          return;
        }
        OneMoreStep(steps, ran, rids, r.rid);
        rids := rids + [r.rid];
      }
      ran := ran + 1;
    }
  }

  lemma NothingRan(steps: seq<Step>)
    ensures Inserts(steps[..0]) == 0 && Added(steps[..0], []) == []
  {}

  lemma OneMoreStep(steps: seq<Step>, i: nat, rids: seq<Rid>, rid: Rid)
    requires i < |steps| && |rids| == Inserts(steps[..i])
    ensures steps[i].IndexPage? ==>
      Inserts(steps[..i + 1]) == |rids| && Added(steps[..i + 1], rids) == Added(steps[..i], rids)
    ensures steps[i].Insert? ==>
      && Inserts(steps[..i + 1]) == |rids| + 1
      && Added(steps[..i + 1], rids + [rid])
           == Added(steps[..i], rids) + [Entry(rid, P.Row(steps[i].deleted, steps[i].tuple))]
  {
    assert steps[..i + 1][..i] == steps[..i] && steps[..i + 1][i] == steps[i];
    assert (rids + [rid])[..|rids|] == rids;
    if rids == [] { NoneAdded(steps[..i]); }
  }

  lemma {:induction false} NoneAdded(steps: seq<Step>)
    ensures Added(steps, []) == []
  {}

  /** Every row of the heap is what reading its id returns. */
  lemma RowReadsBack(im: Image, t: int, chain: seq<int>, last: int, k: nat)
    requires HeapOk(im, t, chain, last) && k < |HeapLog(im, t, chain)|
    ensures var e := HeapLog(im, t, chain)[k];
      && e.rid.page in chain && PageOk(im.pages, t, e.rid.page)
      && e.rid.slot < |PageRows(im, Key(t, e.rid.page))| && PageRows(im, Key(t, e.rid.page))[e.rid.slot] == e.row
  {
    LogReadsBack(im.pages, t, chain, k);
  }

  /** From row `base` on, the heap holds the tuples under these ids. */
  ghost predicate Holds(rows: seq<Entry>, base: nat, rids: seq<Rid>, tuples: seq<seq<byte>>) {
    && base + |rids| == |rows| && |rids| <= |tuples|
    && forall i :: 0 <= i < |rids| ==> rows[base + i] == Entry(rids[i], P.Row(false, tuples[i]))
  }

  method InsertEach(heap: TableHeap, tuples: seq<seq<byte>>) returns (rids: seq<Rid>)
    requires Ready(heap, |tuples|) && forall x :: x in tuples ==> 0 < |x| <= 4082
    modifies heap`chain, heap.bpm`image, heap.bpm`latches, heap.bpm.pool`s, heap.bpm.pool.replacer, heap.bpm.pool.disk
    modifies heap.meta`lastTableDataPageId, heap.meta`lastTableHeapDataPageId, heap.meta`tupleCount
    ensures Ready(heap, 0) && Holds(heap.Rows(), old(|heap.Rows()|), rids, tuples)
    ensures |rids| < |tuples| ==> heap.bpm.Spares() < 2
    ensures old(Roomy(heap.bpm.image)) ==> Roomy(heap.bpm.image) && |rids| == |tuples|
  {
    hide Shows, Sound, Known, Spare, HeapOk, HeapLog, SamePins, OthersKept, Roomy, PageRows, P.BytesOf, Holds;
    rids := [];
    NoneYet(heap.Rows(), tuples);
    while |rids| < |tuples|
      invariant |rids| <= |tuples| && Ready(heap, |tuples| - |rids|)
      invariant Holds(heap.Rows(), old(|heap.Rows()|), rids, tuples)
      invariant old(Roomy(heap.bpm.image)) ==> Roomy(heap.bpm.image)
    {
      ghost var was := heap.Rows();
      var r := heap.InsertTuple(false, tuples[|rids|]);
      if !r.Inserted? {
        return;
      }
      HoldsOneMore(was, heap.Rows(), old(|heap.Rows()|), rids, tuples, r.rid);
      rids := rids + [r.rid];
    }
  }

  lemma NoneYet(rows: seq<Entry>, tuples: seq<seq<byte>>)
    ensures Holds(rows, |rows|, [], tuples)
  {}

  lemma HoldsOneMore(was: seq<Entry>, rows: seq<Entry>, base: nat, rids: seq<Rid>, tuples: seq<seq<byte>>, rid: Rid)
    requires Holds(was, base, rids, tuples) && |rids| < |tuples|
    requires rows == was + [Entry(rid, P.Row(false, tuples[|rids|]))]
    ensures Holds(rows, base, rids + [rid], tuples)
  {}

  method ReadRow(heap: TableHeap, rid: Rid, ghost k: nat) returns (r: ReadResult)
    requires Ready(heap, 0) && k < |heap.Rows()| && heap.Rows()[k].rid == rid
    modifies heap.bpm`image, heap.bpm`latches, heap.bpm.pool`s, heap.bpm.pool.replacer, heap.bpm.pool.disk
    ensures Ready(heap, 0) && heap.Rows() == old(heap.Rows())
    ensures r.Found? ==> r.row == heap.Rows()[k].row
    ensures !r.Found? ==> heap.bpm.Spares() == 0
    ensures old(Roomy(heap.bpm.image)) ==> Roomy(heap.bpm.image) && r.Found?
  {
    hide Shows, Sound, Known, Spare, HeapOk, HeapLog, SamePins, OthersKept, Roomy;
    RowReadsBack(heap.bpm.image, heap.oid, heap.chain, heap.meta.lastTableDataPageId, k);
    r := heap.GetTuple(rid);
    RowReadsBack(heap.bpm.image, heap.oid, heap.chain, heap.meta.lastTableDataPageId, k);
  }

  /** Inserting rows and then reading each by the id it got returns those rows; in a roomy pool always. */
  method InsertThenRead(heap: TableHeap, tuples: seq<seq<byte>>) returns (done: bool, got: seq<P.Row>)
    requires Ready(heap, |tuples|) && forall x :: x in tuples ==> 0 < |x| <= 4082
    modifies heap`chain, heap.bpm`image, heap.bpm`latches, heap.bpm.pool`s, heap.bpm.pool.replacer, heap.bpm.pool.disk
    modifies heap.meta`lastTableDataPageId, heap.meta`lastTableHeapDataPageId, heap.meta`tupleCount
    ensures Ready(heap, 0) && (!done ==> heap.bpm.Spares() < 2)
    ensures old(Roomy(heap.bpm.image)) ==> Roomy(heap.bpm.image) && done
    ensures done ==> |got| == |tuples| && forall i :: 0 <= i < |got| ==> got[i] == P.Row(false, tuples[i])
  {
    hide Shows, Sound, Known, Spare, HeapOk, HeapLog, SamePins, OthersKept, Roomy;
    ghost var base := |heap.Rows()|;
    var rids := InsertEach(heap, tuples);
    got := [];
    if |rids| < |tuples| {
      return false, got;
    }
    while |got| < |rids|
      invariant |got| <= |rids| && Ready(heap, 0) && Holds(heap.Rows(), base, rids, tuples)
      invariant old(Roomy(heap.bpm.image)) ==> Roomy(heap.bpm.image)
      invariant forall i :: 0 <= i < |got| ==> got[i] == P.Row(false, tuples[i])
    {
      var r := ReadRow(heap, rids[|got|], base + |got|);
      if !r.Found? {
        return false, got;
      }
      got := got + [r.row];
    }
    done := true;
  }

  /** From column values to a heap row and back: each column reads as it was written, up to what its type loses. */
  method StoreAndLoad(heap: TableHeap, values: seq<T.Value>, s: T.Schema) returns (got: Option<seq<Option<T.Value>>>)
    requires Ready(heap, 1)
    requires T.SchemaOk(s) && T.Fitting(values, s) && 0 < s.inlineSize && T.SizeOf(values, s) <= 4082
    modifies heap`chain, heap.bpm`image, heap.bpm`latches, heap.bpm.pool`s, heap.bpm.pool.replacer, heap.bpm.pool.disk
    modifies heap.meta`lastTableDataPageId, heap.meta`lastTableHeapDataPageId, heap.meta`tupleCount
    ensures Ready(heap, 0)
    ensures got.None? && T.TextsAllowed(values, s, |values|) ==> heap.bpm.Spares() < 2
    ensures old(Roomy(heap.bpm.image)) ==> Roomy(heap.bpm.image) && (got.Some? <==> T.TextsAllowed(values, s, |values|))
    ensures !T.TextsAllowed(values, s, |values|) ==> got.None? && heap.Rows() == old(heap.Rows())
    ensures got.Some? ==>
      |got.value| == |values| && forall i :: 0 <= i < |values| ==> got.value[i] == T.ReadBack(values[i])
  {
    hide Shows, Sound, Known, Spare, HeapOk, HeapLog, SamePins, OthersKept, Roomy;
    hide T.SchemaOk, T.Fitting, T.Written, T.GetValue;
    T.TailsTile(values, s.inlineSize, 0, |values|);
    var tuple := T.NewTuple(values, s);
    if tuple.TooLong? {
      return None;
    }
    var done, rows := InsertThenRead(heap, [tuple.data]);
    if !done {
      return None;
    }
    var row := rows[0].bytes;
    SameLength(values, s);
    var cells := seq(|values|, i requires 0 <= i < |values| => T.GetValue(row, s.columns[i]));
    forall i | 0 <= i < |values| ensures cells[i] == T.ReadBack(values[i]) {
      T.ReachedIfSmall(values, s, i);
      T.RoundTrip(values, s, row, i);
    }
    got := Some(cells);
  }

  lemma SameLength(values: seq<T.Value>, s: T.Schema)
    requires T.Fitting(values, s)
    ensures |values| == |s.columns|
  {}

  ghost function RidsOf(rows: seq<Entry>): (r: seq<Rid>)
    ensures |r| == |rows|
  {
    seq(|rows|, i requires 0 <= i < |rows| => rows[i].rid)
  }

  function Min(a: nat, b: nat): nat { if a < b then a else b }

  lemma OnCourseIs(snapshot: seq<Entry>, rows: seq<Entry>, rid: Rid, stop: Rid, at: nat)
    requires OnCourse(snapshot, rows, rid, stop, at)
    ensures at <= |snapshot| && (at < |snapshot| ==> rid == snapshot[at].rid)
  {}

  /** Rows appended to the heap leave a scan on course. */
  lemma OnCourseGrows(snapshot: seq<Entry>, rows: seq<Entry>, more: seq<Entry>, rid: Rid, stop: Rid, at: nat)
    requires OnCourse(snapshot, rows, rid, stop, at) && rows <= more
    ensures OnCourse(snapshot, more, rid, stop, at)
  {}

  method InsertDuring(heap: TableHeap, it: TableIterator, tuple: seq<byte>, ghost left: nat) returns (ok: bool)
    requires Ready(heap, left + 1) && it.heap == heap && it.Valid() && 0 < |tuple| <= 4082
    modifies heap`chain, heap.bpm`image, heap.bpm`latches, heap.bpm.pool`s, heap.bpm.pool.replacer, heap.bpm.pool.disk
    modifies heap.meta`lastTableDataPageId, heap.meta`lastTableHeapDataPageId, heap.meta`tupleCount
    ensures Ready(heap, left) && it.Valid() && old(heap.Rows()) <= heap.Rows()
    ensures if ok then |heap.Rows()| == |old(heap.Rows())| + 1 else heap.bpm.Spares() < 2
    ensures old(Roomy(heap.bpm.image)) ==> Roomy(heap.bpm.image) && ok
  {
    hide Shows, Sound, Known, Spare, HeapOk, HeapLog, SamePins, OthersKept, OnCourse, Roomy;
    ghost var rows := heap.Rows();
    var r := heap.InsertTuple(false, tuple);
    OnCourseGrows(it.snapshot, rows, heap.Rows(), it.rid, it.stop, it.at);
    ok := r.Inserted?;
  }

  /**
   * A scan that appends one of `more` after each row it visits. It visits exactly the rows that were there when it
   * began, and ends; the appended rows are in the heap but were not visited.
   */
  method ScanWhileInserting(heap: TableHeap, it: TableIterator, more: seq<seq<byte>>)
    returns (done: bool, rids: seq<Rid>)
    requires Ready(heap, |more|) && it.heap == heap && it.Valid() && it.at == 0
    requires forall x :: x in more ==> 0 < |x| <= 4082
    modifies it`rid, it`at
    modifies heap`chain, heap.bpm`image, heap.bpm`latches, heap.bpm.pool`s, heap.bpm.pool.replacer, heap.bpm.pool.disk
    modifies heap.meta`lastTableDataPageId, heap.meta`lastTableHeapDataPageId, heap.meta`tupleCount
    ensures Ready(heap, 0) && it.Valid() && old(heap.Rows()) <= heap.Rows()
    ensures done ==> rids == RidsOf(it.snapshot)
    ensures done ==> |heap.Rows()| == |old(heap.Rows())| + Min(|more|, |it.snapshot|)
    ensures !done ==> heap.bpm.Spares() < 2
    ensures old(Roomy(heap.bpm.image)) ==> Roomy(heap.bpm.image) && done
  {
    hide Shows, Sound, Known, Spare, HeapOk, HeapLog, SamePins, OthersKept, OnCourse, Roomy;
    rids := [];
    var left := |more|;
    var end := it.IsEnd();
    OnCourseIs(it.snapshot, heap.Rows(), it.rid, it.stop, it.at);
    while !end
      invariant 0 <= left <= |more| && Ready(heap, left) && it.Valid() && old(heap.Rows()) <= heap.Rows()
      invariant end <==> it.at == |it.snapshot|
      invariant |heap.Rows()| == |old(heap.Rows())| + Min(|more|, it.at) && left == |more| - Min(|more|, it.at)
      invariant it.at <= |it.snapshot| && rids == RidsOf(it.snapshot)[..it.at]
      invariant old(Roomy(heap.bpm.image)) ==> Roomy(heap.bpm.image)
      decreases |it.snapshot| - it.at
    {
      OnCourseIs(it.snapshot, heap.Rows(), it.rid, it.stop, it.at);
      rids := rids + [it.rid];
      var ok := InsertAndAdvance(heap, it, more, left);
      if !ok {
        return false, rids;
      }
      left := if left > 0 then left - 1 else 0;
      OnCourseIs(it.snapshot, heap.Rows(), it.rid, it.stop, it.at);
      end := it.IsEnd();
    }
    done := true;
  }

  /** The body of a loop over the heap that appends a row, as long as there are some, before the increment. */
  method InsertAndAdvance(heap: TableHeap, it: TableIterator, more: seq<seq<byte>>, left: nat) returns (ok: bool)
    requires Ready(heap, left) && it.heap == heap && it.Valid() && it.at < |it.snapshot| && left <= |more|
    requires forall x :: x in more ==> 0 < |x| <= 4082
    modifies it`rid, it`at
    modifies heap`chain, heap.bpm`image, heap.bpm`latches, heap.bpm.pool`s, heap.bpm.pool.replacer, heap.bpm.pool.disk
    modifies heap.meta`lastTableDataPageId, heap.meta`lastTableHeapDataPageId, heap.meta`tupleCount
    ensures Ready(heap, if left > 0 then left - 1 else 0) && it.Valid() && old(heap.Rows()) <= heap.Rows()
    ensures ok ==> it.at == old(it.at) + 1 && |heap.Rows()| == |old(heap.Rows())| + if left > 0 then 1 else 0
    ensures !ok ==> heap.bpm.Spares() < 2
    ensures old(Roomy(heap.bpm.image)) ==> Roomy(heap.bpm.image) && ok
  {
    hide Shows, Sound, Known, Spare, HeapOk, HeapLog, SamePins, OthersKept, OnCourse, Roomy;
    if left > 0 {
      ok := InsertDuring(heap, it, more[left - 1], left - 1);
      if !ok {
        return;
      }
    }
    ok := it.Advance();
  }

  // ---------- from an empty disk, and back from a full one ----------

  method NewPool(frames: nat, disk: DiskManager) returns (bpm: GuardedPool)
    ensures fresh(bpm) && fresh(bpm.pool) && fresh(bpm.pool.replacer) && bpm.pool.disk == disk
    ensures bpm.Valid() && Idle(bpm.latches)
    ensures bpm.image == Image(disk.blocks, map[], map[], Room(frames, disk.blocks == map[]))
  {
    var replacer := new RandomBogoReplacer();
    var pool := new BufferPool(frames, replacer, disk);
    bpm := new GuardedPool(pool);
  }

  /** Over an empty disk two frames are enough for any number of rows: all are stored, and all read back. */
  method StoreRows(frames: nat, disk: DiskManager, meta: TableMeta, oid: int, tuples: seq<seq<byte>>)
    returns (got: seq<P.Row>)
    requires frames >= 2 && disk.blocks == map[] && forall x :: x in tuples ==> 0 < |x| <= 4082
    requires meta.lastTableDataPageId == meta.lastTableHeapDataPageId == INVALID_PAGE_ID
    requires |tuples| < 0x7FFF_FFFF
    modifies disk, meta
    ensures |got| == |tuples| && forall i :: 0 <= i < |got| ==> got[i] == P.Row(false, tuples[i])
  {
    hide Shows, Sound, Known, Spare, HeapOk, HeapLog, SamePins, OthersKept;
    var bpm := NewPool(frames, disk);
    assert Roomy(bpm.image);
    var heap := new TableHeap(bpm, meta, oid, []);
    var done;
    done, got := InsertThenRead(heap, tuples);
  }

  lemma FirstRow(im: Image, t: int, chain: seq<int>, last: int)
    requires HeapOk(im, t, chain, last)
    ensures HeapLog(im, t, chain) != [] ==> HeapLog(im, t, chain)[0].rid == Rid(chain[0], 0)
  {
    ChainIsPath(im.pages, t, chain);
    if HeapLog(im, t, chain) != [] { LogBegins(im.pages, t, chain); }
  }

  /**
   * A new table without an index gets page 0 as its first heap page; a scan starts at page 1 all the same, and is off
   * course although a row is there.
   */
  method ScanOfNewTable(frames: nat, disk: DiskManager, meta: TableMeta, oid: int, tuple: seq<byte>)
    returns (heap: TableHeap, it: TableIterator?)
    requires frames >= 2 && disk.blocks == map[] && 0 < |tuple| <= 4082
    requires meta.lastTableDataPageId == meta.lastTableHeapDataPageId == INVALID_PAGE_ID
    modifies disk, meta
    ensures heap.Valid() && heap.Rows() == [Entry(Rid(0, 0), P.Row(false, tuple))]
    ensures it != null && it.heap == heap && it.rid == Rid(1, 0) && !it.Valid()
  {
    hide Shows, Sound, Known, Spare, HeapOk, HeapLog, SamePins, OthersKept, PageRows, OnCourse;
    var bpm := NewPool(frames, disk);
    assert Roomy(bpm.image);
    heap := new TableHeap(bpm, meta, oid, []);
    var r := heap.InsertTuple(false, tuple);
    FirstRow(heap.bpm.image, heap.oid, heap.chain, heap.meta.lastTableDataPageId);
    it := MakeIterator(heap);
  }

  /** A page that reads as a table page with rows, or that ends a chain, was written to the disk. */
  lemma ChainIsStored(pages: Pages, pages': Pages, t: int, chain: seq<int>)
    requires ChainOk(pages, t, chain) && forall p :: OnDisk(pages', p) == OnDisk(pages, p)
    ensures ChainOk(pages', t, chain) && Log(pages', t, chain) == Log(pages, t, chain)
  {
    forall n | n in chain ensures Kept(pages, pages', t, n) {
      assert PageOk(pages, t, n);
      var i :| 0 <= i < |chain| && chain[i] == n;
      assert LinkOk(pages, t, chain, i);
      BlankPage();
      assert OnDisk(pages', Key(t, n)) == OnDisk(pages, Key(t, n));
    }
    LogDependsOnChain(pages, pages', t, chain);
    forall i | 0 <= i < |chain| ensures LinkOk(pages', t, chain, i) {
      assert LinkOk(pages, t, chain, i);
      assert PageOk(pages, t, chain[i]) && Kept(pages, pages', t, chain[i]);
    }
  }

  lemma BlankPage()
    ensures P.NumTuples(Zeros()) == 0 && P.NextPageId(Zeros()) != INVALID_PAGE_ID
    ensures P.Valid(Zeros()) ==> P.Rows(Zeros()) == []
  {
  }

  /** Everything flushed, a new pool over the same disk shows the same rows under the same ids. */
  method Reopen(heap: TableHeap, frames: nat) returns (again: TableHeap)
    requires heap.Valid()
    modifies heap.bpm.pool`s, heap.bpm.pool.disk, heap.meta`lastTableDataPageId, heap.meta`lastTableHeapDataPageId
    ensures fresh(again) && again.bpm.pool.disk == heap.bpm.pool.disk && again.meta == heap.meta
    ensures again.oid == heap.oid
    ensures again.Valid() && Idle(again.bpm.latches) && again.chain == heap.chain
    ensures again.Rows() == old(heap.Rows()) && again.meta.lastTableDataPageId == old(heap.meta.lastTableDataPageId)
  {
    hide Shows, Sound, Known, HeapOk, HeapLog, Bounded;
    ghost var im, chain, last := heap.bpm.image, heap.chain, heap.meta.lastTableDataPageId;
    heap.bpm.FlushAllPages();
    var bpm := NewPool(frames, heap.bpm.pool.disk);
    HeapIsStored(im, bpm.image, heap.oid, chain, last);
    again := new TableHeap(bpm, heap.meta, heap.oid, chain);
  }

  lemma HeapIsStored(im: Image, im': Image, t: int, chain: seq<int>, last: int)
    requires HeapOk(im, t, chain, last) && im'.pages.Keys <= im.pages.Keys
    requires forall p :: OnDisk(im'.pages, p) == OnDisk(im.pages, p)
    ensures HeapOk(im', t, chain, last) && HeapLog(im', t, chain) == HeapLog(im, t, chain)
    ensures Bounded(im'.pages, t, last)
    ensures -1 <= last && Last(chain) >= 0
  {
    ChainIsStored(im.pages, im'.pages, t, chain);
    assert PageOk(im.pages, t, Last(chain));
  }
}
