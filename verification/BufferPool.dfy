/** The buffer pool: a bounded cache of disk pages with pins, dirty bits, a free list and eviction. */
module BufferPools {
  import opened Bytes
  import opened Ids

  datatype PageKey = PageKey(table: int, number: int)
  const NO_PAGE := PageKey(-1, INVALID_PAGE_ID)

  datatype Frame = Frame(pageId: PageKey, dirty: bool, pins: nat, data: Block)

  /** Files of pages; what was never written reads as zeros. */
  class DiskManager {
    var blocks: map<PageKey, Block>

    method WritePage(p: PageKey, data: Block)
      modifies this
      ensures blocks == old(blocks)[p := data]
    {
      blocks := blocks[p := data];
    }

    method ReadPage(p: PageKey) returns (data: Block)
      ensures data == OnDisk(blocks, p)
    {
      data := if p in blocks then blocks[p] else Zeros();
    }
  }

  lemma SomeElement(s: set<int>)
    requires s != {}
    ensures exists f :: f in s
  {
    if forall f :: f !in s {
      assert false;
    }
  }

  /** Remembers, for every frame it was told about, whether the frame may be evicted. */
  class RandomBogoReplacer {
    var store: map<int, bool>

    constructor ()
      ensures store == map[]
    {
      store := map[];
    }

    /** Any evictable frame may be chosen: the map is walked in an order nobody fixes. */
    method Evict() returns (r: Option<int>)
      modifies this
      ensures r.None? ==> store == old(store) && forall f :: f in store ==> !store[f]
      ensures r.Some? ==> r.value in old(store) && old(store)[r.value] && store == old(store)[r.value := false]
    {
      var todo := store.Keys;
      while todo != {}
        invariant todo <= store.Keys && store == old(store)
        invariant forall f :: f in store && f !in todo ==> !store[f]
        decreases todo
      {
        SomeElement(todo);
        var f :| f in todo;
        if store[f] {
          store := store[f := false];
          return Some(f);
        }
        todo := todo - {f};
      }
      return None;
    }

    method Pin(f: int)
      modifies this
      ensures store == old(store)[f := false]
    {
      store := store[f := false];
    }

    /** A frame the replacer was never told about stays unknown. */
    method Unpin(f: int)
      modifies this
      ensures store == if f in old(store) then old(store)[f := true] else old(store)
    {
      if f in store {
        store := store[f := true];
      }
    }
  }

  /** The frames, the list of unused frames and the page table. */
  datatype State = State(frames: seq<Frame>, free: seq<int>, table: map<PageKey, int>)

  // ---------- the invariant, on values ----------

  ghost predicate FreeOk(s: State) {
    && (forall i :: 0 <= i < |s.free| ==> 0 <= s.free[i] < |s.frames|)
    && (forall i, j :: 0 <= i < j < |s.free| ==> s.free[i] != s.free[j])
    && (forall f :: f in s.free ==> s.frames[f].pins == 0 && s.frames[f].pageId.number == INVALID_PAGE_ID)
  }

  ghost predicate TableOk(s: State) {
    forall p :: p in s.table ==>
      && p.number != INVALID_PAGE_ID
      && 0 <= s.table[p] < |s.frames| && s.frames[s.table[p]].pageId == p
      && s.table[p] !in s.free
  }

  /** Frame `f` holds a page. */
  predicate Mapped(s: State, f: int) {
    0 <= f < |s.frames| && s.frames[f].pageId in s.table && s.table[s.frames[f].pageId] == f
  }

  /** Every frame is free or holds a page, not both. */
  ghost predicate Partition(s: State) {
    forall f :: 0 <= f < |s.frames| ==> (f in s.free <==> !Mapped(s, f))
  }

  /** A frame may be evicted exactly if it holds an unpinned page and the replacer knows it. */
  ghost predicate ReplacerOk(s: State, store: map<int, bool>) {
    && (forall f :: f in store ==> Mapped(s, f))
    && (forall f :: f in store ==> (store[f] <==> s.frames[f].pins == 0))
  }

  ghost predicate Invariant(s: State, store: map<int, bool>) {
    FreeOk(s) && TableOk(s) && Partition(s) && ReplacerOk(s, store)
  }

  /** What a page means: the cached copy if there is one, the disk otherwise. */
  function Logical(s: State, disk: map<PageKey, Block>, p: PageKey): Block
    requires p in s.table ==> 0 <= s.table[p] < |s.frames|
  {
    if p in s.table then s.frames[s.table[p]].data else OnDisk(disk, p)
  }

  function OnDisk(disk: map<PageKey, Block>, p: PageKey): Block {
    if p in disk then disk[p] else Zeros()
  }

  /** Evicting the frame would lose nothing: it is marked dirty or the disk has the same bytes. */
  predicate Covered(s: State, disk: map<PageKey, Block>, f: int)
    requires 0 <= f < |s.frames|
  {
    s.frames[f].dirty || s.frames[f].data == OnDisk(disk, s.frames[f].pageId)
  }

  predicate CanAllocate(s: State, store: map<int, bool>) {
    s.free != [] || exists f :: f in store && store[f]
  }

  /** Frame `f` taken out of use: off the free list, or evicted. */
  ghost function Taken(s: State, f: int): State
    requires 0 <= f < |s.frames|
  {
    if s.free != [] && s.free[0] == f then s.(free := s.free[1..])
    else State(s.frames[f := Frame(s.frames[f].pageId, s.frames[f].dirty, s.frames[f].pins, Zeros())], s.free, s.table)
  }

  /** Frame `f` given to page `p`. */
  function Given(s: State, f: int, p: PageKey, pins: nat, data: Block): State
    requires 0 <= f < |s.frames|
  {
    State(s.frames[f := Frame(p, false, pins, data)], s.free, (s.table - {s.frames[f].pageId})[p := f])
  }

  ghost predicate Choosable(s: State, store: map<int, bool>, f: int) {
    if s.free != [] then f == s.free[0] else f in store && store[f]
  }

  /** The replacer once the frame was taken, and once it was pinned. */
  ghost function StoreTaken(s: State, store: map<int, bool>, f: int): map<int, bool> {
    if s.free != [] then store else store[f := false]
  }

  /** Giving a chosen frame to a page that is not cached keeps the invariant. */
  lemma GivenKeepsInvariant(s: State, store: map<int, bool>, f: int, p: PageKey, data: Block, store': map<int, bool>)
    requires Invariant(s, store) && Choosable(s, store, f) && p !in s.table && p.number != INVALID_PAGE_ID
    requires 0 <= f < |s.frames|
    requires store' == StoreTaken(s, store, f) || store' == StoreTaken(s, store, f)[f := false]
    ensures Invariant(Given(Taken(s, f), f, p, 1, data), store')
  {
    var u := Given(Taken(s, f), f, p, 1, data);
    GivenFrees(s, store, f, p, data);
    GivenMaps(s, store, f, p, data);
    forall g | g in store' ensures Mapped(u, g) && (store'[g] <==> u.frames[g].pins == 0) {
      assert g != f ==> g in store && Mapped(s, g);
    }
  }

  lemma GivenMaps(s: State, store: map<int, bool>, f: int, p: PageKey, data: Block)
    requires Invariant(s, store) && Choosable(s, store, f) && p !in s.table && p.number != INVALID_PAGE_ID
    requires 0 <= f < |s.frames|
    ensures var u := Given(Taken(s, f), f, p, 1, data);
      && TableOk(u) && Partition(u) && Mapped(u, f)
      && forall g :: 0 <= g < |u.frames| && g != f ==> Mapped(u, g) == Mapped(s, g) && u.frames[g] == s.frames[g]
  {
    var u := Given(Taken(s, f), f, p, 1, data);
    GivenFrees(s, store, f, p, data);
    forall q | q in u.table
      ensures 0 <= u.table[q] < |u.frames| && u.frames[u.table[q]].pageId == q && u.table[q] !in u.free
    {
      if q != p {
        assert q in s.table && q != s.frames[f].pageId && s.table[q] != f;
      }
    }
    forall g | 0 <= g < |u.frames| && g != f ensures Mapped(u, g) == Mapped(s, g) {
      assert s.free != [] ==> f in s.free;
      assert f in s.free <==> !Mapped(s, f);
    }
  }

  lemma GivenFrees(s: State, store: map<int, bool>, f: int, p: PageKey, data: Block)
    requires Invariant(s, store) && Choosable(s, store, f) && p !in s.table && p.number != INVALID_PAGE_ID
    requires 0 <= f < |s.frames|
    ensures var u := Given(Taken(s, f), f, p, 1, data);
      FreeOk(u) && forall g :: g in u.free <==> g in s.free && g != f
  {
    var u := Given(Taken(s, f), f, p, 1, data);
    if s.free != [] {
      assert s.free[0] in s.free;
      assert forall i :: 0 <= i < |u.free| ==> u.free[i] == s.free[i + 1];
      assert forall g :: g in s.free ==> g == s.free[0] || g in s.free[1..];
    } else {
      assert Mapped(s, f);
    }
  }

  /** It changes what no other page means, except that an evicted page falls back to the disk. */
  lemma GivenKeepsMeaning(s: State, store: map<int, bool>, disk: map<PageKey, Block>, f: int, p: PageKey, data: Block,
                          disk': map<PageKey, Block>, q: PageKey)
    requires Invariant(s, store) && Choosable(s, store, f) && p !in s.table && p.number != INVALID_PAGE_ID
    requires 0 <= f < |s.frames|
    requires disk' == if s.free == [] && s.frames[f].dirty then disk[s.frames[f].pageId := s.frames[f].data] else disk
    ensures var u := Given(Taken(s, f), f, p, 1, data);
      && (q in u.table ==> 0 <= u.table[q] < |u.frames|)
      && (q in s.table ==> 0 <= s.table[q] < |s.frames|)
      && Logical(u, disk', q) ==
           if q == p then data
           else if s.free == [] && q == s.frames[f].pageId && !s.frames[f].dirty then OnDisk(disk, q)
           else Logical(s, disk, q)
  {
    var u := Given(Taken(s, f), f, p, 1, data);
    if s.free != [] {
      assert s.free[0] in s.free;
      assert s.frames[f].pageId !in s.table;
    } else {
      assert Mapped(s, f);
    }
    if q in u.table && q != p {
      assert q in s.table && s.table[q] != f;
    }
  }

  // ---------- one step of the pool ----------

  /** The pool, its replacer and the disk together. */
  datatype World = World(s: State, store: map<int, bool>, disk: map<PageKey, Block>)

  datatype Action =
    | New(p: PageKey)
    | Fetch(p: PageKey)
    | Unpin(p: PageKey, dirty: bool, wrote: bool)
    | Write(p: PageKey, first: bool, data: Block)
    | Flush(p: PageKey)

  ghost predicate Sound(w: World) { Invariant(w.s, w.store) }

  function Meaning(w: World, p: PageKey): Block
    requires p in w.s.table ==> 0 <= w.s.table[p] < |w.s.frames|
  {
    Logical(w.s, w.disk, p)
  }

  /** The disk after frame `f` was taken: a dirty victim is written back. */
  ghost function WrittenBack(s: State, disk: map<PageKey, Block>, f: int): map<PageKey, Block>
    requires 0 <= f < |s.frames|
  {
    if s.free == [] && s.frames[f].dirty then disk[s.frames[f].pageId := s.frames[f].data] else disk
  }

  /** Frame `f` now holds page `p`, pinned once; only `NewPage` tells the replacer about it. */
  ghost function Placed(w: World, f: int, p: PageKey, data: Block, told: bool): World
    requires 0 <= f < |w.s.frames|
  {
    World(Given(Taken(w.s, f), f, p, 1, data),
          if told then StoreTaken(w.s, w.store, f)[f := false] else StoreTaken(w.s, w.store, f),
          WrittenBack(w.s, w.disk, f))
  }

  ghost function WithFrame(w: World, f: int, frame: Frame): World
    requires 0 <= f < |w.s.frames|
  {
    World(State(w.s.frames[f := frame], w.s.free, w.s.table), w.store, w.disk)
  }

  ghost predicate Takes(w: World, f: int) {
    0 <= f < |w.s.frames| && Choosable(w.s, w.store, f)
  }

  ghost predicate Next(u: World, a: Action, v: World)
    requires Sound(u)
  {
    if a.New? then
      && a.p !in u.s.table && a.p.number != INVALID_PAGE_ID
      && if CanAllocate(u.s, u.store) then exists f :: Takes(u, f) && v == Placed(u, f, a.p, Zeros(), true) else v == u
    else if a.Fetch? then
      && a.p.number != INVALID_PAGE_ID
      && if a.p in u.s.table then
           var f := u.s.table[a.p];
           var g := u.s.frames[f];
           v == WithFrame(u, f, g.(pins := g.pins + 1)).(store := u.store[f := false])
         else if CanAllocate(u.s, u.store) then
           exists f :: Takes(u, f) && v == Placed(u, f, a.p, OnDisk(u.disk, a.p), false)
         else v == u
    else if a.p !in u.s.table then
      !a.Write? && v == u
    else
      var f := u.s.table[a.p];
      var g := u.s.frames[f];
      match a
      case Unpin(p, dirty, _) =>
        var last := g.pins == 1 && f in u.store;
        v == WithFrame(u, f, g.(dirty := g.dirty || dirty, pins := if g.pins == 0 then 0 else g.pins - 1))
               .(store := if last then u.store[f := true] else u.store)
      case Write(p, first, data) =>
        g.pins > 0 && v == WithFrame(u, f, g.(data := data))
      case Flush(p) =>
        v == WithFrame(u, f, g.(dirty := false)).(disk := u.disk[p := g.data])
  }

  /** What each request does to the frame of its page, in plain numbers; every other frame is left as it was. */
  lemma StepIs(u: World, a: Action, v: World)
    requires Sound(u) && Sound(v) && Next(u, a, v) && a.p in u.s.table
    ensures var f := u.s.table[a.p]; var (g, h) := (u.s.frames[f], v.s.frames[f]);
      && |v.s.frames| == |u.s.frames| && v.s.table == u.s.table && v.s.free == u.s.free && h.pageId == g.pageId
      && (forall q :: 0 <= q < |u.s.frames| && q != f ==> v.s.frames[q] == u.s.frames[q])
      && h.pins == (if a.Fetch? then g.pins + 1 else if a.Unpin? && g.pins > 0 then g.pins - 1 else g.pins)
      && h.dirty == (if a.Flush? then false else g.dirty || (a.Unpin? && a.dirty))
      && h.data == (if a.Write? then a.data else g.data)
      && v.disk == (if a.Flush? then u.disk[a.p := g.data] else u.disk)
      && (a.Fetch? ==> f in v.store && !v.store[f])
      && (a.Unpin? && g.pins == 1 && f in u.store ==> f in v.store && v.store[f])
  {}

  /** And where the page takes a frame: the first free one or an evictable one, whose dirty page goes to the disk. */
  lemma PlacedIs(u: World, a: Action, v: World) returns (f: int)
    requires Sound(u) && Next(u, a, v) && (a.New? || a.Fetch?) && a.p !in u.s.table && CanAllocate(u.s, u.store)
    ensures 0 <= f < |u.s.frames| && |v.s.frames| == |u.s.frames|
    ensures if u.s.free != [] then f == u.s.free[0] && v.s.free == u.s.free[1..] else f in u.store && u.store[f]
    ensures var h := v.s.frames[f];
      && h.pageId == a.p && h.pins == 1 && !h.dirty && h.data == (if a.New? then Zeros() else OnDisk(u.disk, a.p))
    ensures a.p in v.s.table && v.s.table[a.p] == f && (a.New? ==> f in v.store && !v.store[f])
    ensures v.disk == if u.s.free == [] && u.s.frames[f].dirty then u.disk[u.s.frames[f].pageId := u.s.frames[f].data]
                      else u.disk
    ensures forall q :: 0 <= q < |u.s.frames| && q != f ==> v.s.frames[q] == u.s.frames[q]
  {
    hide Partition, ReplacerOk, TableOk;
    var data := if a.New? then Zeros() else OnDisk(u.disk, a.p);
    f :| Takes(u, f) && v == Placed(u, f, a.p, data, a.New?);
    TakenWasUnpinned(u, f);
  }

  lemma TakenWasUnpinned(u: World, f: int)
    requires Sound(u) && Takes(u, f)
    ensures u.s.frames[f].pins == 0 && (u.s.free != [] ==> u.s.free[0] in u.s.free)
  {
    assert u.s.free != [] ==> u.s.free[0] in u.s.free;
  }

  /** The plain memory the pool stands for; a page never touched reads as zeros. */
  ghost function Apply(u: World, m: map<PageKey, Block>, a: Action): map<PageKey, Block> {
    match a
    case New(p) => if CanAllocate(u.s, u.store) then m[p := Zeros()] else m
    case Write(p, _, data) => m[p := data]
    case _ => m
  }

  ghost predicate Agrees(w: World, m: map<PageKey, Block>)
    requires Sound(w)
  {
    forall p :: Meaning(w, p) == OnDisk(m, p)
  }

  // ---------- what clients must do ----------

  function Count(owed: map<PageKey, nat>, p: PageKey): nat { if p in owed then owed[p] else 0 }

  /** How many pins on each page have written through it and must still be given back as dirty. */
  function Owing(owed: map<PageKey, nat>, a: Action): map<PageKey, nat> {
    match a
    case Write(p, true, _) => owed[p := Count(owed, p) + 1]
    case Unpin(p, _, true) => owed[p := if Count(owed, p) == 0 then 0 else Count(owed, p) - 1]
    case _ => owed
  }

  /** Write only while pinned, unpin as dirty after writing; new pages are ones no disk file holds. */
  ghost predicate Polite(u: World, owed: map<PageKey, nat>, a: Action)
    requires Sound(u)
  {
    match a
    case New(p) => OnDisk(u.disk, p) == Zeros()
    case Write(p, first, _) =>
      p in u.s.table && (if first then Count(owed, p) < u.s.frames[u.s.table[p]].pins else Count(owed, p) > 0)
    case Unpin(p, dirty, wrote) =>
      && p in u.s.table
      && (if wrote then dirty && Count(owed, p) > 0 else Count(owed, p) < u.s.frames[u.s.table[p]].pins)
    case _ => true
  }

  /** Frame `f` is safe: what the disk lacks is marked dirty or still owed by a client. */
  ghost predicate FrameSafe(w: World, owed: map<PageKey, nat>, f: int)
    requires 0 <= f < |w.s.frames|
  {
    var c := Count(owed, w.s.frames[f].pageId);
    c <= w.s.frames[f].pins && (c == 0 ==> Covered(w.s, w.disk, f))
  }

  ghost predicate Safe(w: World, owed: map<PageKey, nat>) {
    && Sound(w)
    && (forall f :: Mapped(w.s, f) ==> FrameSafe(w, owed, f))
    && (forall p :: Count(owed, p) > 0 ==> p in w.s.table)
  }

  // ---------- the pool refines the plain memory ----------

  /** Handing a frame to another page keeps every other page, unless the victim was clean with bytes the disk lacks. */
  lemma PlacedKeepsMeaning(u: World, f: int, p: PageKey, data: Block, told: bool, q: PageKey)
    requires Sound(u) && Takes(u, f) && p !in u.s.table && p.number != INVALID_PAGE_ID
    ensures var v := Placed(u, f, p, data, told);
      && Sound(v) && Meaning(v, p) == data
      && (q != p ==> (Meaning(v, q) == Meaning(u, q)
           <==> !(u.s.free == [] && q == u.s.frames[f].pageId && !Covered(u.s, u.disk, f))))
  {
    var v := Placed(u, f, p, data, told);
    GivenKeepsInvariant(u.s, u.store, f, p, data, v.store);
    GivenKeepsMeaning(u.s, u.store, u.disk, f, p, data, v.disk, q);
    GivenKeepsMeaning(u.s, u.store, u.disk, f, p, data, v.disk, p);
    if u.s.free == [] {
      assert Mapped(u.s, f);
    }
  }

  /** Changing a mapped frame in place, but not the page it holds, keeps the invariant. */
  lemma ChangedKeepsInvariant(u: World, f: int, frame: Frame, store': map<int, bool>)
    requires Sound(u) && Mapped(u.s, f) && frame.pageId == u.s.frames[f].pageId
    requires forall g :: g in store' ==> g == f || (g in u.store && store'[g] == u.store[g])
    requires f in store' ==> (store'[f] <==> frame.pins == 0)
    ensures var v := WithFrame(u, f, frame).(store := store');
      Sound(v) && (forall g :: Mapped(v.s, g) == Mapped(u.s, g))
  {
    var v := WithFrame(u, f, frame).(store := store');
    assert u.s.frames[f].pageId in u.s.table && f !in u.s.free;
    forall g ensures Mapped(v.s, g) == Mapped(u.s, g) {}
    assert TableOk(v.s);
  }

  /** The whole pool invariant survives every step. */
  lemma StepKeepsSound(u: World, a: Action, v: World)
    requires Sound(u) && Next(u, a, v)
    ensures Sound(v)
  {
    if a.p in u.s.table {
      var f := u.s.table[a.p];
      assert Mapped(u.s, f);
      ChangedKeepsInvariant(u, f, v.s.frames[f], v.store);
    } else if (a.New? || a.Fetch?) && CanAllocate(u.s, u.store) {
      var data := if a.New? then Zeros() else OnDisk(u.disk, a.p);
      var f :| Takes(u, f) && v == Placed(u, f, a.p, data, a.New?);
      PlacedKeepsMeaning(u, f, a.p, data, a.New?, a.p);
    }
  }

  /** No step evicts a pinned page, and a frame is refused only if none is free and none is unpinned and registered. */
  lemma OnlyUnpinnedFramesAreTaken(w: World)
    requires Sound(w)
    ensures forall f :: Takes(w, f) ==> w.s.frames[f].pins == 0
    ensures CanAllocate(w.s, w.store) <==> w.s.free != [] || exists f :: f in w.store && w.s.frames[f].pins == 0
    ensures CanAllocate(w.s, w.store) <==> exists f :: Takes(w, f)
  {
    if w.s.free != [] {
      assert w.s.free[0] in w.s.free && Takes(w, w.s.free[0]);
    } else if f :| f in w.store && w.store[f] {
      assert Mapped(w.s, f) && Takes(w, f);
    }
  }

  /** The frames that can be had: free ones, and unpinned ones the replacer knows. */
  ghost function Spare(w: World): set<int> {
    set f | 0 <= f < |w.s.frames| && (f in w.s.free || (f in w.store && w.store[f]))
  }

  lemma SpareMeansAllocatable(w: World)
    requires Sound(w)
    ensures CanAllocate(w.s, w.store) <==> Spare(w) != {}
  {
    if w.s.free != [] {
      assert w.s.free[0] in w.s.free && w.s.free[0] in Spare(w);
    } else if f :| f in w.store && w.store[f] {
      assert Mapped(w.s, f) && f in Spare(w);
    }
  }

  /** A new page or a fetch uses up at most one spare frame. */
  lemma SpareAfter(u: World, a: Action, v: World)
    requires Sound(u) && Next(u, a, v) && (a.New? || a.Fetch?)
    ensures |Spare(v)| >= |Spare(u)| - 1
  {
    if a.p in u.s.table {
      LosesOne(Spare(u), Spare(v), u.s.table[a.p]);
    } else if CanAllocate(u.s, u.store) {
      var data := if a.New? then Zeros() else OnDisk(u.disk, a.p);
      var f :| Takes(u, f) && v == Placed(u, f, a.p, data, a.New?);
      PlacedSpares(u, f, a.p, data, a.New?);
    }
  }

  lemma PlacedSpares(u: World, f: int, p: PageKey, data: Block, told: bool)
    requires Sound(u) && Takes(u, f) && p !in u.s.table && p.number != INVALID_PAGE_ID
    ensures |Spare(Placed(u, f, p, data, told))| >= |Spare(u)| - 1
  {
    GivenFrees(u.s, u.store, f, p, data);
    hide Invariant, FreeOk, Sound;
    var v := Placed(u, f, p, data, told);
    assert Spare(u) - {f} <= Spare(v) by {
      forall g | g in Spare(u) && g != f ensures g in Spare(v) {}
    }
    LosesOne(Spare(u), Spare(v), f);
  }

  /** Giving a pin back yields at most one more. */
  lemma UnpinSpares(u: World, a: Action, v: World)
    requires Sound(u) && Next(u, a, v) && a.Unpin?
    ensures |Spare(v)| <= |Spare(u)| + 1
  {
    var f := if a.p in u.s.table then u.s.table[a.p] else 0;
    LosesOne(Spare(v), Spare(u), f);
  }

  // ---------- when no frame is lost ----------

  /** The replacer knows every frame that holds a page, so each can be evicted once its pins are given back. */
  ghost predicate Tracked(w: World) { forall f :: Mapped(w.s, f) ==> f in w.store }

  /** A frame is lost exactly by a fetch that misses while a frame is free. */
  lemma LostExactly(u: World, a: Action, v: World)
    requires Sound(u) && Sound(v) && Next(u, a, v) && Tracked(u)
    ensures Tracked(v) <==> !(a.Fetch? && a.p !in u.s.table && u.s.free != [])
  {
    hide Partition, ReplacerOk;
    if (a.New? || a.Fetch?) && a.p !in u.s.table && CanAllocate(u.s, u.store) {
      var data := if a.New? then Zeros() else OnDisk(u.disk, a.p);
      var f :| Takes(u, f) && v == Placed(u, f, a.p, data, a.New?);
      PlacedTracked(u, f, a.p, data, a.New?);
    }
  }

  lemma PlacedTracked(u: World, f: int, p: PageKey, data: Block, told: bool)
    requires Sound(u) && Takes(u, f) && p !in u.s.table && p.number != INVALID_PAGE_ID && Tracked(u)
    ensures Tracked(Placed(u, f, p, data, told)) <==> told || u.s.free == []
  {
    GivenMaps(u.s, u.store, f, p, data);
    var v := Placed(u, f, p, data, told);
    assert u.s.free != [] ==> u.s.free[0] in u.s.free && f == u.s.free[0];
    assert f in u.store ==> Mapped(u.s, f);
    hide Sound, Invariant, TableOk, Partition;
    assert Mapped(v.s, f);
  }

  /** While a frame is free every page is cached, so no fetch misses. */
  ghost predicate Lossless(w: World, pages: map<PageKey, Block>) {
    Tracked(w) && (w.s.free != [] ==> forall p :: p in pages ==> p in w.s.table)
  }

  lemma FramesStay(u: World, a: Action, v: World)
    requires Sound(u) && Next(u, a, v)
    ensures |v.s.frames| == |u.s.frames|
  {}

  /** A pool that starts over an empty disk stays lossless. */
  lemma LosslessAfter(u: World, a: Action, v: World, pages: map<PageKey, Block>, after: map<PageKey, Block>)
    requires Sound(u) && Sound(v) && Next(u, a, v) && Lossless(u, pages) && (a.New? || a.p in pages)
    requires after.Keys <= pages.Keys + if a.New? && CanAllocate(u.s, u.store) then {a.p} else {}
    ensures Lossless(v, after) && |v.s.frames| == |u.s.frames|
  {
    LostExactly(u, a, v);
    if (a.New? || a.Fetch?) && a.p !in u.s.table && CanAllocate(u.s, u.store) {
      var data := if a.New? then Zeros() else OnDisk(u.disk, a.p);
      var f :| Takes(u, f) && v == Placed(u, f, a.p, data, a.New?);
      PlacedCaches(u, f, a.p, data, a.New?);
    }
  }

  lemma PlacedCaches(u: World, f: int, p: PageKey, data: Block, told: bool)
    requires Sound(u) && Takes(u, f)
    ensures var v := Placed(u, f, p, data, told);
      && |v.s.frames| == |u.s.frames| && p in v.s.table && (u.s.free == [] ==> v.s.free == [])
      && (u.s.free != [] ==> u.s.table.Keys <= v.s.table.Keys)
  {
    assert u.s.free != [] ==> u.s.free[0] in u.s.free;
  }

  /** Without pins every frame of a lossless pool can be had. */
  lemma LosslessSpares(w: World)
    requires Sound(w) && Tracked(w) && forall f :: Mapped(w.s, f) ==> w.s.frames[f].pins == 0
    ensures |Spare(w)| == |w.s.frames|
  {
    forall f | 0 <= f < |w.s.frames| ensures f in Spare(w) { assert f in w.s.free <==> !Mapped(w.s, f); }
    CountBelow(Spare(w), |w.s.frames|);
  }

  lemma {:induction false} CountBelow(s: set<int>, n: nat)
    requires forall f :: f in s <==> 0 <= f < n
    ensures |s| == n
  {
    if n == 0 {
      forall f ensures f !in s {}
      assert s == {};
    } else {
      CountBelow(s - {n - 1}, n - 1);
    }
  }

  lemma LosesOne(s: set<int>, r: set<int>, f: int)
    requires s - {f} <= r
    ensures |r| >= |s| - 1
  {
    SubsetIsSmaller(s - {f}, r);
    if f in s {
      assert |s - {f}| == |s| - 1;
    } else {
      assert s - {f} == s;
    }
  }

  lemma {:induction false} SubsetIsSmaller(s: set<int>, r: set<int>)
    requires s <= r
    ensures |s| <= |r|
    decreases r
  {
    if s != {} {
      SomeElement(s);
      var f :| f in s;
      SubsetIsSmaller(s - {f}, r - {f});
      assert |s - {f}| == |s| - 1 && |r - {f}| == |r| - 1;
    }
  }

  /** One step by a polite client: the pool still means the plain memory. */
  lemma StepRefinesMap(u: World, a: Action, v: World, owed: map<PageKey, nat>, m: map<PageKey, Block>)
    requires Safe(u, owed) && Agrees(u, m) && Next(u, a, v) && Polite(u, owed, a)
    ensures Safe(v, Owing(owed, a)) && Agrees(v, Apply(u, m, a))
    ensures a.Fetch? && a.p in v.s.table ==> v.s.frames[v.s.table[a.p]].data == OnDisk(m, a.p)
  {
    StepKeepsSound(u, a, v);
    if a.p in u.s.table {
      HitRefinesMap(u, a, v, owed, m);
    } else if (a.New? || a.Fetch?) && CanAllocate(u.s, u.store) {
      MissRefinesMap(u, a, v, owed, m);
    }
    assert Meaning(v, a.p) == OnDisk(Apply(u, m, a), a.p);
  }

  lemma HitRefinesMap(u: World, a: Action, v: World, owed: map<PageKey, nat>, m: map<PageKey, Block>)
    requires Safe(u, owed) && Agrees(u, m) && Next(u, a, v) && Polite(u, owed, a) && a.p in u.s.table && Sound(v)
    ensures Safe(v, Owing(owed, a)) && Agrees(v, Apply(u, m, a))
  {
    hide Agrees, ReplacerOk, FreeOk, Partition, FrameSafe, Apply;
    HitKeepsMeaning(u, a, v, m);
    forall g | Mapped(v.s, g) ensures FrameSafe(v, Owing(owed, a), g) {
      HitKeepsFrame(u, a, v, owed, g);
    }
  }

  lemma HitKeepsFrame(u: World, a: Action, v: World, owed: map<PageKey, nat>, g: int)
    requires Safe(u, owed) && Next(u, a, v) && Polite(u, owed, a) && a.p in u.s.table && Sound(v) && Mapped(v.s, g)
    ensures FrameSafe(v, Owing(owed, a), g)
  {
    hide ReplacerOk, FreeOk, Partition;
    assert Mapped(u.s, g) && FrameSafe(u, owed, g);
    assert g != u.s.table[a.p] ==> u.s.frames[g].pageId != a.p;
  }

  lemma HitKeepsMeaning(u: World, a: Action, v: World, m: map<PageKey, Block>)
    requires Sound(u) && Agrees(u, m) && Next(u, a, v) && a.p in u.s.table && Sound(v)
    ensures Agrees(v, Apply(u, m, a))
  {
    forall q ensures Meaning(v, q) == OnDisk(Apply(u, m, a), q) {
      assert Meaning(u, q) == OnDisk(m, q);
      assert q in u.s.table && q != a.p ==> u.s.table[q] != u.s.table[a.p];
    }
  }

  lemma MissRefinesMap(u: World, a: Action, v: World, owed: map<PageKey, nat>, m: map<PageKey, Block>)
    requires Safe(u, owed) && Agrees(u, m) && Next(u, a, v) && Polite(u, owed, a) && Sound(v)
    requires a.p !in u.s.table && (a.New? || a.Fetch?) && CanAllocate(u.s, u.store)
    ensures Safe(v, Owing(owed, a)) && Agrees(v, Apply(u, m, a))
  {
    var data := if a.New? then Zeros() else OnDisk(u.disk, a.p);
    var f :| Takes(u, f) && v == Placed(u, f, a.p, data, a.New?);
    PlacedStaysSafe(u, f, a.p, data, a.New?, owed);
    forall q ensures Meaning(v, q) == OnDisk(Apply(u, m, a), q) {
      PlacedKeepsMeaning(u, f, a.p, data, a.New?, q);
      assert Meaning(u, q) == OnDisk(m, q) && Meaning(u, a.p) == OnDisk(m, a.p);
    }
  }

  lemma OthersStaySafe(u: World, v: World, f: int, p: PageKey, owed: map<PageKey, nat>)
    requires (forall g :: Mapped(u.s, g) ==> FrameSafe(u, owed, g)) && |v.s.frames| == |u.s.frames|
    requires forall g :: 0 <= g < |v.s.frames| && g != f ==>
      Mapped(v.s, g) == Mapped(u.s, g) && v.s.frames[g] == u.s.frames[g]
    requires Mapped(u.s, f) ==> u.s.frames[f].pageId in u.s.table
    requires v.disk == u.disk || (Mapped(u.s, f) && v.disk == u.disk[u.s.frames[f].pageId := u.s.frames[f].data])
    ensures forall g :: Mapped(v.s, g) && g != f ==> FrameSafe(v, owed, g)
  {
    forall g | Mapped(v.s, g) && g != f ensures FrameSafe(v, owed, g) {
      assert Mapped(u.s, g) && FrameSafe(u, owed, g);
      assert Mapped(u.s, f) ==> u.s.frames[g].pageId != u.s.frames[f].pageId;
    }
  }

  /** A victim is unpinned, so nothing is owed on it and it is covered. */
  lemma PlacedStaysSafe(u: World, f: int, p: PageKey, data: Block, told: bool, owed: map<PageKey, nat>)
    requires Safe(u, owed) && Takes(u, f) && p !in u.s.table && p.number != INVALID_PAGE_ID
    requires data == OnDisk(u.disk, p)
    ensures Safe(Placed(u, f, p, data, told), owed)
    ensures u.s.free == [] ==> Covered(u.s, u.disk, f)
  {
    var v := Placed(u, f, p, data, told);
    OnlyUnpinnedFramesAreTaken(u);
    GivenMaps(u.s, u.store, f, p, data);
    GivenKeepsInvariant(u.s, u.store, f, p, data, v.store);
    if u.s.free == [] {
      assert Mapped(u.s, f) && FrameSafe(u, owed, f);
    }
    OthersStaySafe(u, v, f, p, owed);
    assert FrameSafe(v, owed, f);
  }

  // ---------- runs ----------

  /** A run: `ws[i]` becomes `ws[i + 1]` by action `acts[i]`, and every action is polite. */
  ghost predicate PoliteRun(ws: seq<World>, acts: seq<Action>, owed: map<PageKey, nat>) {
    && |ws| == |acts| + 1 && Sound(ws[0])
    && (acts == [] || (Next(ws[0], acts[0], ws[1]) && Polite(ws[0], owed, acts[0])
                       && PoliteRun(ws[1..], acts[1..], Owing(owed, acts[0]))))
  }

  ghost function ApplyAll(ws: seq<World>, acts: seq<Action>, m: map<PageKey, Block>): map<PageKey, Block>
    requires |ws| == |acts| + 1
  {
    if acts == [] then m else ApplyAll(ws[1..], acts[1..], Apply(ws[0], m, acts[0]))
  }

  /** Over every polite run, whichever frames were evicted, the pool means the plain memory, and no byte is lost. */
  lemma {:induction false} RunRefinesMap(ws: seq<World>, acts: seq<Action>, owed: map<PageKey, nat>,
                                         m: map<PageKey, Block>)
    requires PoliteRun(ws, acts, owed) && Safe(ws[0], owed) && Agrees(ws[0], m)
    ensures Sound(ws[|acts|]) && Agrees(ws[|acts|], ApplyAll(ws, acts, m))
  {
    if acts != [] {
      StepRefinesMap(ws[0], acts[0], ws[1], owed, m);
      RunRefinesMap(ws[1..], acts[1..], Owing(owed, acts[0]), Apply(ws[0], m, acts[0]));
    }
  }

  // ---------- the pool itself ----------

  function Unused(n: nat): seq<Frame> { seq(n, _ => Frame(NO_PAGE, false, 0, Zeros())) }

  class BufferPool {
    var s: State
    const replacer: RandomBogoReplacer
    const disk: DiskManager

    ghost function W(): World
      reads this, replacer, disk
    {
      World(s, replacer.store, disk.blocks)
    }

    ghost predicate Valid()
      reads this, replacer, disk
    {
      Sound(W())
    }

    constructor (size: nat, replacer: RandomBogoReplacer, disk: DiskManager)
      requires replacer.store == map[]
      ensures Valid() && this.replacer == replacer && this.disk == disk
      ensures s.frames == Unused(size) && s.table == map[] && |s.free| == size
    {
      this.replacer := replacer;
      this.disk := disk;
      s := State(Unused(size), seq(size, i => i), map[]);
      new;
      forall f | 0 <= f < size ensures f in s.free {
        assert s.free[f] == f;
      }
    }

    method AllocateFrame() returns (r: Option<int>)
      requires Valid()
      modifies `s, replacer, disk
      ensures r.None? <==> !old(CanAllocate(s, replacer.store))
      ensures r.None? ==> W() == old(W())
      ensures r.Some? ==> old(Takes(W(), r.value)) && s == Taken(old(s), r.value)
                          && replacer.store == StoreTaken(old(s), old(replacer.store), r.value)
                          && disk.blocks == WrittenBack(old(s), old(disk.blocks), r.value)
    {
      if s.free == [] {
        r := replacer.Evict();
        if r.None? {
          return;
        }
        var f := r.value;
        assert Mapped(s, f) && s.frames[f].pins == 0;
        var g := s.frames[f];
        if g.dirty {
          disk.WritePage(g.pageId, g.data);
        }
        s := State(s.frames[f := Frame(g.pageId, g.dirty, g.pins, Zeros())], s.free, s.table);
        return;
      }
      var f := s.free[0];
      assert f in s.free;
      s := State(s.frames, s.free[1..], s.table);
      return Some(f);
    }

    /** `p` is the id the page allocator hands out. */
    method NewPage(p: PageKey) returns (r: Option<int>)
      requires Valid() && p !in s.table && p.number != INVALID_PAGE_ID
      modifies `s, replacer, disk
      ensures Valid() && Next(old(W()), New(p), W())
      ensures r.None? <==> !old(CanAllocate(s, replacer.store))
      ensures r.Some? ==> p in s.table && s.table[p] == r.value
    {
      ghost var u := W();
      r := AllocateFrame();
      if r.Some? {
        var f := r.value;
        replacer.Pin(f);
        s := State(s.frames, s.free, s.table - {s.frames[f].pageId});
        s := State(s.frames[f := Frame(p, false, 1, Zeros())], s.free, s.table[p := f]);
        assert Takes(u, f) && W() == Placed(u, f, p, Zeros(), true);
        StepKeepsSound(u, New(p), W());
      }
    }

    method FetchPage(p: PageKey) returns (r: Option<int>)
      requires Valid() && p.number != INVALID_PAGE_ID
      modifies `s, replacer, disk
      ensures Valid() && Next(old(W()), Fetch(p), W())
      ensures r.None? <==> p !in old(s).table && !old(CanAllocate(s, replacer.store))
      ensures r.Some? ==> p in s.table && s.table[p] == r.value && s.frames[r.value].data == old(Meaning(W(), p))
    {
      ghost var u := W();
      if p in s.table {
        var f := s.table[p];
        var g := s.frames[f];
        s := State(s.frames[f := Frame(g.pageId, g.dirty, g.pins + 1, g.data)], s.free, s.table);
        replacer.Pin(f);
        StepKeepsSound(u, Fetch(p), W());
        return Some(f);
      }
      r := FetchMissed(p);
    }

    /** The page takes over a frame and is read into it; the replacer is not told. */
    method FetchMissed(p: PageKey) returns (r: Option<int>)
      requires Valid() && p.number != INVALID_PAGE_ID && p !in s.table
      modifies `s, replacer, disk
      ensures Valid() && Next(old(W()), Fetch(p), W())
      ensures r.None? <==> !old(CanAllocate(s, replacer.store))
      ensures r.Some? ==> p in s.table && s.table[p] == r.value && s.frames[r.value].data == old(Meaning(W(), p))
    {
      ghost var u := W();
      r := AllocateFrame();
      if r.Some? {
        var f := r.value;
        s := State(s.frames, s.free, (s.table - {s.frames[f].pageId})[p := f]);
        var data := disk.ReadPage(p);
        s := State(s.frames[f := Frame(p, false, s.frames[f].pins + 1, data)], s.free, s.table);
        TakenHoldsNothing(u, f);
        assert Takes(u, f) && W() == Placed(u, f, p, OnDisk(u.disk, p), false);
        StepKeepsSound(u, Fetch(p), W());
      }
    }

    static lemma TakenHoldsNothing(u: World, f: int)
      requires Sound(u) && Takes(u, f)
      ensures u.s.frames[f].pins == 0
      ensures u.s.free == [] ==> u.s.frames[f].pageId in u.s.table
    {
      OnlyUnpinnedFramesAreTaken(u);
      if u.s.free == [] {
        assert Mapped(u.s, f);
      }
    }

    method UnpinPage(p: PageKey, isDirty: bool, ghost wrote: bool := false) returns (ok: bool)
      requires Valid()
      modifies `s, replacer
      ensures Valid() && Next(old(W()), Unpin(p, isDirty, wrote), W())
      ensures ok <==> p in old(s).table && old(s).frames[old(s).table[p]].pins > 0
    {
      ghost var u := W();
      if p !in s.table {
        return false;
      }
      var f := s.table[p];
      var g := s.frames[f];
      if isDirty {
        g := g.(dirty := true);
      }
      s := State(s.frames[f := g], s.free, s.table);
      if g.pins == 0 {
        StepKeepsSound(u, Unpin(p, isDirty, wrote), W());
        return false;
      }
      g := g.(pins := g.pins - 1);
      s := State(s.frames[f := g], s.free, s.table);
      if g.pins == 0 {
        replacer.Unpin(f);
      }
      StepKeepsSound(u, Unpin(p, isDirty, wrote), W());
      return true;
    }

    /** A client stores through the page it holds pinned. */
    method WriteThrough(p: PageKey, data: Block, ghost first: bool)
      requires Valid() && p in s.table && s.frames[s.table[p]].pins > 0
      modifies `s
      ensures Valid() && Next(old(W()), Write(p, first, data), W())
    {
      ghost var u := W();
      var f := s.table[p];
      s := State(s.frames[f := s.frames[f].(data := data)], s.free, s.table);
      StepKeepsSound(u, Write(p, first, data), W());
    }

    method FlushPage(p: PageKey) returns (ok: bool)
      requires Valid()
      modifies `s, disk
      ensures Valid() && Next(old(W()), Flush(p), W())
      ensures ok <==> p in old(s).table
    {
      ghost var u := W();
      if p !in s.table {
        return false;
      }
      var f := s.table[p];
      disk.WritePage(p, s.frames[f].data);
      s := State(s.frames[f := s.frames[f].(dirty := false)], s.free, s.table);
      StepKeepsSound(u, Flush(p), W());
      return true;
    }

    /** Afterwards the disk alone means what the pool meant, so nothing is lost by stopping here. */
    method FlushAllPages()
      requires Valid()
      modifies `s, disk
      ensures Valid() && s.free == old(s).free && s.table == old(s).table && |s.frames| == old(|s.frames|)
      ensures forall p :: OnDisk(disk.blocks, p) == Meaning(W(), p) == old(Meaning(W(), p))
      ensures disk.blocks.Keys <= old(disk.blocks).Keys + s.table.Keys
      ensures forall f :: Mapped(s, f) ==> s.frames[f] == old(s).frames[f].(dirty := false)
    {
      hide Sound, FlushedTo, Next;
      ghost var u := W();
      NoneFlushed(u);
      var i := 0;
      while i < |s.frames|
        invariant Valid() && 0 <= i <= |s.frames| == |u.s.frames| && FlushedTo(u, W(), i)
        invariant s.table == u.s.table && disk.blocks.Keys <= u.disk.Keys + u.s.table.Keys
      {
        ghost var w := W();
        var p := s.frames[i].pageId;
        var _ := FlushPage(p);
        FlushedOneMore(u, w, i, W());
        i := i + 1;
      }
      AllFlushed(u, W());
    }

    static lemma AllFlushed(u: World, w: World)
      requires Sound(u) && Sound(w) && FlushedTo(u, w, |u.s.frames|)
      ensures w.s.free == u.s.free && w.s.table == u.s.table && |w.s.frames| == |u.s.frames|
      ensures forall f :: Mapped(w.s, f) ==> Mapped(u.s, f) && w.s.frames[f] == u.s.frames[f].(dirty := false)
      ensures forall p :: OnDisk(w.disk, p) == Meaning(w, p) == Meaning(u, p)
    {
      hide FreeOk, ReplacerOk, Partition;
      forall p ensures OnDisk(w.disk, p) == Meaning(w, p) == Meaning(u, p) {
        assert p in u.s.table ==> Mapped(u.s, u.s.table[p]);
      }
    }
  }

  /** `w` is `u` with the pages of the first `i` frames written out. */
  ghost predicate FlushedTo(u: World, w: World, i: nat)
    requires Sound(u)
  {
    && w.s.free == u.s.free && w.s.table == u.s.table && w.store == u.store && |w.s.frames| == |u.s.frames|
    && (forall f :: 0 <= f < |u.s.frames| ==>
         w.s.frames[f] == if f < i && Mapped(u.s, f) then u.s.frames[f].(dirty := false) else u.s.frames[f])
    && (forall p :: OnDisk(w.disk, p) ==
         if p in u.s.table && u.s.table[p] < i then u.s.frames[u.s.table[p]].data else OnDisk(u.disk, p))
  }

  lemma NoneFlushed(u: World)
    requires Sound(u)
    ensures FlushedTo(u, u, 0)
  {}

  lemma FrameIsMapped(s: State, store: map<int, bool>, f: int)
    requires Invariant(s, store) && 0 <= f < |s.frames|
    ensures s.frames[f].pageId in s.table <==> Mapped(s, f)
  {
    assert f in s.free <==> !Mapped(s, f);
  }

  lemma FlushedOneMore(u: World, w: World, i: nat, v: World)
    requires Sound(u) && Sound(w) && FlushedTo(u, w, i) && i < |u.s.frames|
    requires Next(w, Flush(w.s.frames[i].pageId), v)
    ensures FlushedTo(u, v, i + 1) && |v.s.frames| == |w.s.frames| && v.s.table == w.s.table
    ensures v.disk.Keys <= w.disk.Keys + w.s.table.Keys
  {
    hide Partition, FreeOk, ReplacerOk;
    FrameIsMapped(u.s, u.store, i);
    FrameIsMapped(w.s, w.store, i);
  }

  /** Page `p` is cached clean in frame `f`, pinned once and known to the replacer, and no frame is free. */
  ghost predicate HeldClean(u: World, p: PageKey, f: int) {
    && Sound(u) && p in u.s.table && u.s.table[p] == f && u.s.free == []
    && f in u.store && u.s.frames[f].pins == 1 && !u.s.frames[f].dirty
  }

  /**
   * The index and its header, in any world: the header is fetched clean, written, and unpinned. Unpinned as dirty the
   * next new page may take its frame and the write stays; unpinned as clean, as the index does after making its first
   * root, the header reads afterwards as it did before the write.
   */
  lemma HeaderUnpin(u: World, header: PageKey, f: int, root: Block, dirty: bool, q: PageKey)
    requires HeldClean(u, header, f) && q !in u.s.table && q.number != INVALID_PAGE_ID
    ensures var w1 := WithFrame(u, f, u.s.frames[f].(data := root));
      var w2 := WithFrame(w1, f, w1.s.frames[f].(pins := 0, dirty := dirty)).(store := u.store[f := true]);
      var w3 := Placed(w2, f, q, Zeros(), true);
      && Next(u, Write(header, true, root), w1)
      && Sound(w1) && Next(w1, Unpin(header, dirty, true), w2)
      && Sound(w2) && Meaning(w2, header) == root && Next(w2, New(q), w3)
      && Sound(w3) && Meaning(w3, header) == if dirty then root else OnDisk(u.disk, header)
    ensures var w1 := WithFrame(u, f, u.s.frames[f].(data := root));
      Sound(w1) && (Polite(w1, map[header := 1], Unpin(header, dirty, true)) <==> dirty)
  {
    var w1 := WithFrame(u, f, u.s.frames[f].(data := root));
    StepKeepsSound(u, Write(header, true, root), w1);
    hide Invariant;
    var w2 := WithFrame(w1, f, w1.s.frames[f].(pins := 0, dirty := dirty)).(store := u.store[f := true]);
    assert Next(w1, Unpin(header, dirty, true), w2);
    StepKeepsSound(w1, Unpin(header, dirty, true), w2);
    var w3 := Placed(w2, f, q, Zeros(), true);
    assert Takes(w2, f);
    StepKeepsSound(w2, New(q), w3);
  }

  /** What politeness is for: unpinned as clean after a write, a page comes back without that write once evicted. */
  lemma CleanUnpinLosesWrites(p: PageKey, q: PageKey, data: Block)
    requires p != q && p.number != INVALID_PAGE_ID && q.number != INVALID_PAGE_ID && data != Zeros()
    ensures var w0 := World(State(Unused(1), [0], map[]), map[], map[]);
      var w1 := Placed(w0, 0, p, Zeros(), true);
      var w2 := WithFrame(w1, 0, w1.s.frames[0].(data := data));
      var w3 := WithFrame(w2, 0, w2.s.frames[0].(pins := 0)).(store := map[0 := true]);
      var w4 := Placed(w3, 0, q, Zeros(), true);
      && Sound(w0) && Sound(w1) && Sound(w2) && Sound(w3) && Sound(w4)
      && Next(w0, New(p), w1) && Next(w1, Write(p, true, data), w2)
      && Next(w2, Unpin(p, false, true), w3) && Next(w3, New(q), w4)
      && Meaning(w2, p) == Meaning(w3, p) == data && Meaning(w4, p) == Zeros()
  {
    var w0 := World(State(Unused(1), [0], map[]), map[], map[]);
    OneFrameIsSound(w0);
    hide Sound, Invariant;
    var w1 := Placed(w0, 0, p, Zeros(), true);
    assert Next(w0, New(p), w1);
    StepKeepsSound(w0, New(p), w1);
    var w2 := WithFrame(w1, 0, w1.s.frames[0].(data := data));
    StepKeepsSound(w1, Write(p, true, data), w2);
    var w3 := WithFrame(w2, 0, w2.s.frames[0].(pins := 0)).(store := map[0 := true]);
    assert w3.store == w2.store[0 := true];
    StepKeepsSound(w2, Unpin(p, false, true), w3);
    assert Takes(w3, 0);
    var w4 := Placed(w3, 0, q, Zeros(), true);
    assert Next(w3, New(q), w4);
    StepKeepsSound(w3, New(q), w4);
  }

  lemma OneFrameIsSound(w: World)
    requires w == World(State(Unused(1), [0], map[]), map[], map[])
    ensures Sound(w) && Takes(w, 0)
  {
    assert w.s.free[0] == 0;
  }

  /**
   * A missed fetch does not register its frame. So a fresh pool whose frames were each filled by one fetch refuses
   * the next page although nothing is pinned.
   */
  method FetchEachOnce(pool: BufferPool, pages: seq<PageKey>)
    requires pool.Valid() && pool.s.table == map[] && pool.replacer.store == map[]
    requires |pages| == |pool.s.frames| == |pool.s.free|
    requires forall i :: 0 <= i < |pages| ==> pages[i].number != INVALID_PAGE_ID
    requires forall i, j :: 0 <= i < j < |pages| ==> pages[i] != pages[j]
    modifies pool, pool.replacer, pool.disk
    ensures pool.Valid() && !CanAllocate(pool.s, pool.replacer.store)
    ensures forall i :: 0 <= i < |pages| ==> pages[i] in pool.s.table
    ensures forall f :: 0 <= f < |pool.s.frames| ==> pool.s.frames[f].pins == 0
  {
    var i := 0;
    while i < |pages|
      invariant 0 <= i <= |pages| && pool.Valid() && pool.replacer.store == map[]
      invariant |pool.s.frames| == |pages| && |pool.s.free| == |pages| - i
      invariant forall p :: p in pool.s.table <==> p in pages[..i]
      invariant forall f :: 0 <= f < |pool.s.frames| ==> pool.s.frames[f].pins == 0
    {
      ghost var u := pool.W();
      var _ := pool.FetchPage(pages[i]);
      ghost var v := pool.W();
      FetchedFromFree(u, pages[i], v);
      var _ := pool.UnpinPage(pages[i], false);
      i := i + 1;
    }
  }

  lemma FetchedFromFree(u: World, p: PageKey, v: World)
    requires Sound(u) && Next(u, Fetch(p), v) && p !in u.s.table && u.s.free != []
    requires forall f :: 0 <= f < |u.s.frames| ==> u.s.frames[f].pins == 0
    ensures v.store == u.store && |v.s.frames| == |u.s.frames| && |v.s.free| == |u.s.free| - 1
    ensures forall q :: q in v.s.table <==> q in u.s.table || q == p
    ensures v.s.frames[v.s.table[p]].pins == 1
    ensures forall f :: 0 <= f < |v.s.frames| && f != v.s.table[p] ==> v.s.frames[f].pins == 0
  {
    var f :| Takes(u, f) && v == Placed(u, f, p, OnDisk(u.disk, p), false);
    assert f in u.s.free && u.s.frames[f].pageId !in u.s.table;
  }
}
