/** Page guards over the buffer pool: who holds a pin and a latch on which page, through moves, drops and upgrades. */
module PageGuards {
  import opened Bytes
  import opened Ids
  import opened BufferPools

  /**
   * What the pool looks like to its clients: the bytes of every page ever allocated, the pins on each page, and how
   * many of those pins wrote and still owe an unpin as dirty. Which frame holds what, evictions and the disk do not
   * show; how many frames there are does, and whether none of them can be lost.
   */
  datatype Image = Image(pages: map<PageKey, Block>, pins: map<PageKey, nat>, owed: map<PageKey, nat>, room: Room)

  datatype Room = Room(frames: nat, lossless: bool)

  ghost predicate RoomShows(w: World, pages: map<PageKey, Block>, room: Room) {
    |w.s.frames| == room.frames && (room.lossless ==> Lossless(w, pages))
  }

  ghost function PinsOf(w: World, p: PageKey): nat
    requires Sound(w)
  {
    if p in w.s.table then w.s.frames[w.s.table[p]].pins else 0
  }

  ghost predicate Known(w: World, pages: map<PageKey, Block>) {
    forall p :: p in w.s.table || p in w.disk ==> p in pages
  }

  ghost predicate PinsShow(w: World, pins: map<PageKey, nat>)
    requires Sound(w)
  {
    forall p :: Count(pins, p) == PinsOf(w, p)
  }

  ghost predicate Shows(w: World, im: Image) {
    && Safe(w, im.owed) && Agrees(w, im.pages) && PinsShow(w, im.pins) && Known(w, im.pages)
    && RoomShows(w, im.pages, im.room)
  }

  function Pinned(im: Image, p: PageKey): Image { im.(pins := im.pins[p := Count(im.pins, p) + 1]) }

  function Created(im: Image, p: PageKey): Image { im.(pages := im.pages[p := Zeros()], pins := im.pins[p := 1]) }

  function Unpinned(im: Image, p: PageKey, wrote: bool): Image
    requires Count(im.pins, p) > 0
  {
    im.(pins := im.pins[p := Count(im.pins, p) - 1], owed := Owing(im.owed, Unpin(p, true, wrote)))
  }

  function Stored(im: Image, p: PageKey, first: bool, data: Block): Image {
    im.(pages := im.pages[p := data], owed := Owing(im.owed, Write(p, first, data)))
  }

  /** The pool serves the request rather than refusing it. */
  ghost predicate Served(u: World, a: Action) {
    match a
    case New(_) => CanAllocate(u.s, u.store)
    case Fetch(p) => p in u.s.table || CanAllocate(u.s, u.store)
    case _ => a.p in u.s.table
  }

  ghost function After(u: World, im: Image, a: Action): Image {
    if !Served(u, a) then im
    else match a
      case New(p) => Created(im, p)
      case Fetch(p) => Pinned(im, p)
      case Unpin(p, _, wrote) => if Count(im.pins, p) > 0 then Unpinned(im, p, wrote) else im
      case Write(p, first, data) => Stored(im, p, first, data)
      case Flush(_) => im
  }

  lemma PinsAfter(u: World, a: Action, v: World)
    requires Sound(u) && Next(u, a, v) && Sound(v)
    ensures forall q :: q != a.p ==> PinsOf(v, q) == PinsOf(u, q)
  {
    if (a.New? || a.Fetch?) && a.p !in u.s.table && CanAllocate(u.s, u.store) {
      var data := if a.New? then Zeros() else OnDisk(u.disk, a.p);
      var f :| Takes(u, f) && v == Placed(u, f, a.p, data, a.New?);
      PlacedPins(u, f, a.p, data, a.New?);
    }
  }

  lemma PlacedPins(u: World, f: int, p: PageKey, data: Block, told: bool)
    requires Sound(u) && Takes(u, f) && p !in u.s.table && p.number != INVALID_PAGE_ID
    requires Sound(Placed(u, f, p, data, told))
    ensures forall q :: q != p ==> PinsOf(Placed(u, f, p, data, told), q) == PinsOf(u, q)
  {
    OnlyUnpinnedFramesAreTaken(u);
    assert u.s.free == [] ==> Mapped(u.s, f);
  }

  lemma KnownAfter(u: World, a: Action, v: World, pages: map<PageKey, Block>)
    requires Sound(u) && Next(u, a, v) && Known(u, pages) && (a.p in pages || a.New?)
    ensures Known(v, if Served(u, a) then pages[a.p := Zeros()] else pages)
  {
    if (a.New? || a.Fetch?) && a.p !in u.s.table && CanAllocate(u.s, u.store) {
      var data := if a.New? then Zeros() else OnDisk(u.disk, a.p);
      var f :| Takes(u, f) && v == Placed(u, f, a.p, data, a.New?);
      assert u.s.free == [] ==> Mapped(u.s, f);
    }
  }

  /** One request by a polite client takes what the pool shows to the image after it, evictions or not. */
  lemma StepShows(u: World, a: Action, v: World, im: Image)
    requires Shows(u, im) && Next(u, a, v) && Polite(u, im.owed, a) && (a.p in im.pages || a.New?)
    ensures Shows(v, After(u, im, a))
  {
    hide Sound, Agrees, FrameSafe, Next, Polite, Apply, Owing, After, Served, Lossless;
    StepRefinesMap(u, a, v, im.owed, im.pages);
    PinsAfter(u, a, v);
    KnownAfter(u, a, v, im.pages);
    PinAfter(u, a, v, im);
    AfterParts(u, a, v, im);
    RoomAfter(u, a, v, im);
  }

  lemma RoomAfter(u: World, a: Action, v: World, im: Image)
    requires Shows(u, im) && Next(u, a, v) && Sound(v) && (a.p in im.pages || a.New?)
    requires After(u, im, a).pages.Keys == if Served(u, a) then im.pages.Keys + {a.p} else im.pages.Keys
    ensures RoomShows(v, After(u, im, a).pages, im.room) && After(u, im, a).room == im.room
  {
    hide Agrees, Known, FrameSafe, Lossless;
    FramesStay(u, a, v);
    if im.room.lossless { LosslessAfter(u, a, v, im.pages, After(u, im, a).pages); }
  }

  lemma AfterParts(u: World, a: Action, v: World, im: Image)
    requires Shows(u, im) && Next(u, a, v) && Polite(u, im.owed, a) && (a.p in im.pages || a.New?)
    ensures var w := After(u, im, a);
      && w.owed == Owing(im.owed, a) && w.pages == Apply(u, im.pages, a)
      && w.pages.Keys == (if Served(u, a) then im.pages.Keys + {a.p} else im.pages.Keys)
      && forall q :: q != a.p ==> Count(w.pins, q) == Count(im.pins, q)
  {
    hide Agrees, Known, ReplacerOk, Partition, FreeOk, Covered;
    assert Count(im.pins, a.p) == PinsOf(u, a.p);
    assert a.p in u.s.table ==> Mapped(u.s, u.s.table[a.p]) && FrameSafe(u, im.owed, u.s.table[a.p]);
  }

  lemma FlushedShows(u: World, v: World, im: Image)
    requires Shows(u, im) && Sound(v) && v.s.free == u.s.free && v.s.table == u.s.table && v.store == u.store
    requires |v.s.frames| == |u.s.frames| && v.disk.Keys <= u.disk.Keys + u.s.table.Keys
    requires forall p :: OnDisk(v.disk, p) == Meaning(v, p) == Meaning(u, p)
    requires forall f :: Mapped(v.s, f) ==> v.s.frames[f] == u.s.frames[f].(dirty := false)
    ensures Shows(v, im) && v.disk.Keys <= im.pages.Keys
    ensures forall p :: OnDisk(v.disk, p) == OnDisk(im.pages, p)
  {
    hide FreeOk, ReplacerOk, Partition;
    assert forall p :: Meaning(u, p) == OnDisk(im.pages, p);
    forall f | Mapped(v.s, f) ensures FrameSafe(v, im.owed, f) {
      assert Mapped(u.s, f) && FrameSafe(u, im.owed, f);
      assert OnDisk(v.disk, v.s.frames[f].pageId) == Meaning(v, v.s.frames[f].pageId);
    }
    forall p ensures PinsOf(v, p) == PinsOf(u, p) {
      assert p in v.s.table ==> Mapped(v.s, v.s.table[p]);
    }
    assert forall p :: Count(im.pins, p) == PinsOf(u, p);
  }

  lemma PinAfter(u: World, a: Action, v: World, im: Image)
    requires Shows(u, im) && Next(u, a, v) && Sound(v)
    ensures Count(After(u, im, a).pins, a.p) == PinsOf(v, a.p)
  {
    assert Count(im.pins, a.p) == PinsOf(u, a.p);
  }

  /** Only holders of pins owe. */
  lemma OwedIsPinned(w: World, im: Image, p: PageKey)
    requires Shows(w, im)
    ensures Count(im.owed, p) <= Count(im.pins, p)
  {
    assert Count(im.pins, p) == PinsOf(w, p);
    if p in w.s.table {
      assert Mapped(w.s, w.s.table[p]) && FrameSafe(w, im.owed, w.s.table[p]);
    }
  }

  /** Reader-writer latches of pages. */
  datatype Latches = Latches(reading: map<PageKey, nat>, writing: set<PageKey>)

  datatype Latch = NoLatch | ReadLatch | WriteLatch

  function Latched(l: Latches, p: PageKey, k: Latch): Latches {
    match k
    case NoLatch => l
    case ReadLatch => l.(reading := l.reading[p := Count(l.reading, p) + 1])
    case WriteLatch => l.(writing := l.writing + {p})
  }

  function Unlatched(l: Latches, p: PageKey, k: Latch): Latches {
    match k
    case NoLatch => l
    case ReadLatch => l.(reading := l.reading[p := if Count(l.reading, p) == 0 then 0 else Count(l.reading, p) - 1])
    case WriteLatch => l.(writing := l.writing - {p})
  }

  /** The latch can be taken without waiting. */
  predicate Grantable(l: Latches, p: PageKey, k: Latch) {
    (k.ReadLatch? ==> p !in l.writing) && (k.WriteLatch? ==> p !in l.writing && Count(l.reading, p) == 0)
  }

  /** The buffer pool as the guards use it. */
  class GuardedPool {
    const pool: BufferPool
    ghost var image: Image
    var latches: Latches

    ghost predicate Valid()
      reads this`image, pool, pool.replacer, pool.disk
    {
      pool.Valid() && Shows(pool.W(), image)
    }

    /** Over a disk that holds nothing no frame is ever lost; over an existing database a miss may lose one. */
    constructor (pool: BufferPool)
      requires pool.Valid() && pool.s.table == map[]
      ensures Valid() && this.pool == pool && latches == Latches(map[], {})
      ensures image == Image(pool.disk.blocks, map[], map[], Room(|pool.s.frames|, pool.disk.blocks == map[]))
    {
      this.pool := pool;
      image := Image(pool.disk.blocks, map[], map[], Room(|pool.s.frames|, pool.disk.blocks == map[]));
      latches := Latches(map[], {});
    }

    /** How many frames can be had for pages not cached. */
    ghost function Spares(): nat
      reads this, pool, pool.replacer, pool.disk
    {
      |Spare(pool.W())|
    }

    /** Without pins every frame of a lossless pool is to be had. */
    lemma SparesAre()
      requires Valid() && image.room.lossless && forall p :: Count(image.pins, p) == 0
      ensures Spares() == image.room.frames
    {
      var w := pool.W();
      forall f | Mapped(w.s, f) ensures w.s.frames[f].pins == 0 {
        assert Count(image.pins, w.s.frames[f].pageId) == PinsOf(w, w.s.frames[f].pageId);
      }
      LosslessSpares(w);
    }

    /** False when no frame is to be had; then nothing changed. */
    method FetchPage(p: PageKey) returns (ok: bool)
      requires Valid() && p in image.pages && p.number != INVALID_PAGE_ID
      modifies this`image, pool`s, pool.replacer, pool.disk
      ensures ok <==> old(Served(pool.W(), Fetch(p)))
      ensures Valid() && image == if ok then Pinned(old(image), p) else old(image)
      ensures Count(old(image).owed, p) <= Count(old(image).pins, p)
      ensures (!ok ==> old(Spares()) == Spares() == 0) && Spares() >= old(Spares()) - 1
    {
      ghost var u := pool.W();
      SpareMeansAllocatable(u);
      OwedIsPinned(u, image, p);
      var r := pool.FetchPage(p);
      StepShows(u, Fetch(p), pool.W(), image);
      SpareAfter(u, Fetch(p), pool.W());
      ok := r.Some?;
      image := After(u, image, Fetch(p));
    }

    method NewPage(p: PageKey) returns (ok: bool)
      requires Valid() && p !in image.pages && p.number != INVALID_PAGE_ID
      modifies this`image, pool`s, pool.replacer, pool.disk
      ensures ok <==> old(Served(pool.W(), New(p)))
      ensures Valid() && image == if ok then Created(old(image), p) else old(image)
      ensures Count(old(image).pins, p) == Count(old(image).owed, p) == 0
      ensures (!ok <==> old(Spares()) == 0) && (!ok ==> Spares() == 0)
    {
      ghost var u := pool.W();
      SpareMeansAllocatable(u);
      var r := pool.NewPage(p);
      assert Polite(u, image.owed, New(p));
      StepShows(u, New(p), pool.W(), image);
      ok := r.Some?;
      assert Count(image.pins, p) == PinsOf(u, p);
      image := After(u, image, New(p));
    }

    method UnpinPage(p: PageKey, isDirty: bool, ghost wrote: bool)
      requires Valid() && Count(image.pins, p) > 0
      requires if wrote then isDirty && Count(image.owed, p) > 0 else Count(image.owed, p) < Count(image.pins, p)
      modifies this`image, pool`s, pool.replacer
      ensures Valid() && image == Unpinned(old(image), p, wrote) && Spares() <= old(Spares()) + 1
    {
      ghost var u := pool.W();
      assert Count(image.pins, p) == PinsOf(u, p);
      var _ := pool.UnpinPage(p, isDirty, wrote);
      StepShows(u, Unpin(p, isDirty, wrote), pool.W(), image);
      UnpinSpares(u, Unpin(p, isDirty, wrote), pool.W());
      image := Unpinned(image, p, wrote);
    }

    /** The bytes of a pinned page. */
    method Read(p: PageKey) returns (b: Block)
      requires Valid() && Count(image.pins, p) > 0
      ensures p in image.pages && b == image.pages[p]
    {
      assert Count(image.pins, p) == PinsOf(pool.W(), p);
      b := pool.s.frames[pool.s.table[p]].data;
      assert Meaning(pool.W(), p) == OnDisk(image.pages, p);
    }

    method Store(p: PageKey, b: Block, ghost first: bool)
      requires Valid() && Count(image.pins, p) > 0
      requires if first then Count(image.owed, p) < Count(image.pins, p) else Count(image.owed, p) > 0
      modifies this`image, pool`s
      ensures Valid() && image == Stored(old(image), p, first, b)
    {
      ghost var u := pool.W();
      assert Count(image.pins, p) == PinsOf(u, p);
      pool.WriteThrough(p, b, first);
      StepShows(u, Write(p, first, b), pool.W(), image);
      image := Stored(image, p, first, b);
    }

    /** Everything written out: the disk alone holds the pages, and the clients see no difference. */
    method FlushAllPages()
      requires Valid()
      modifies pool`s, pool.disk
      ensures Valid()
      ensures forall p :: OnDisk(pool.disk.blocks, p) == OnDisk(image.pages, p)
      ensures pool.disk.blocks.Keys <= image.pages.Keys
    {
      ghost var u := pool.W();
      pool.FlushAllPages();
      FlushedShows(u, pool.W(), image);
    }

    method Lock(p: PageKey, k: Latch)
      requires Grantable(latches, p, k)
      modifies this`latches
      ensures latches == Latched(old(latches), p, k)
      ensures forall q ::
        Count(latches.reading, q) == Count(old(latches).reading, q) + if q == p && k == ReadLatch then 1 else 0
      ensures latches.writing == old(latches).writing + if k == WriteLatch then {p} else {}
    {
      latches := Latched(latches, p, k);
    }

    method Unlock(p: PageKey, k: Latch)
      modifies this`latches
      ensures latches == Unlatched(old(latches), p, k)
      ensures forall q ::
        var was := Count(old(latches).reading, q);
        Count(latches.reading, q) == if q == p && k == ReadLatch && was > 0 then was - 1 else was
      ensures latches.writing == old(latches).writing - if k == WriteLatch then {p} else {}
    {
      latches := Unlatched(latches, p, k);
    }
  }

  /** A basic, read or write guard, told apart by the latch it holds. */
  class PageGuard {
    const bpm: GuardedPool
    var page: Option<PageKey>
    var latch: Latch
    var dirty: bool
    /** The page was written through this guard, or through the one it was moved or upgraded from. */
    ghost var wrote: bool

    constructor (bpm: GuardedPool, page: Option<PageKey>, latch: Latch)
      ensures this.bpm == bpm && this.page == page && this.latch == latch && !dirty && !wrote
    {
      this.bpm, this.page, this.latch, dirty, wrote := bpm, page, latch, false, false;
    }

    /** The guard's pin is one of the page's pins, and it owes a dirty unpin exactly if it wrote. */
    ghost predicate Holds()
      reads this, bpm`image
    {
      page.Some? ==>
        var p := page.value;
        && Count(bpm.image.pins, p) > 0
        && if wrote then Count(bpm.image.owed, p) > 0 else Count(bpm.image.owed, p) < Count(bpm.image.pins, p)
    }

    /** Gives the latch and the pin back. A guard that wrote must be dirty by then, or the write could be lost. */
    method Drop()
      requires bpm.Valid() && Holds() && (page.Some? && wrote ==> dirty)
      modifies this`page, bpm`image, bpm`latches, bpm.pool`s, bpm.pool.replacer
      ensures bpm.Valid() && page.None? && bpm.Spares() <= old(bpm.Spares()) + 1
      ensures bpm.image == if old(page).Some? then Unpinned(old(bpm.image), old(page).value, wrote) else old(bpm.image)
      ensures bpm.latches == if old(page).Some? then Unlatched(old(bpm.latches), old(page).value, latch)
                             else old(bpm.latches)
    {
      if page.None? {
        return;
      }
      bpm.Unlock(page.value, latch);
      bpm.UnpinPage(page.value, dirty, wrote);
      page := None;
    }

    /** Move assignment: what this guard held is given back, what the other held is now held here. */
    method MoveFrom(that: PageGuard)
      requires bpm.Valid() && that.bpm == bpm
      requires this != that ==> Holds() && (page.Some? && wrote ==> dirty)
      modifies this, that`page, bpm`image, bpm`latches, bpm.pool`s, bpm.pool.replacer
      ensures bpm.Valid() && page == old(that.page) && latch == old(that.latch)
      ensures dirty == old(that.dirty) && wrote == old(that.wrote)
      ensures this != that ==> that.page.None?
      ensures bpm.image == if this != that && old(page).Some? then Unpinned(old(bpm.image), old(page).value, old(wrote))
                           else old(bpm.image)
      ensures bpm.latches == if this != that && old(page).Some?
                             then Unlatched(old(bpm.latches), old(page).value, old(latch)) else old(bpm.latches)
    {
      if this == that {
        return;
      }
      Drop();
      page, latch, dirty, wrote := that.page, that.latch, that.dirty, that.wrote;
      that.page := None;
    }

    /** The new guard starts out clean even if this one wrote: it must be written through again before it is dropped. */
    method UpgradeWrite() returns (g: PageGuard)
      requires page.Some? && latch == NoLatch && Grantable(bpm.latches, page.value, WriteLatch)
      modifies this`page, bpm`latches
      ensures fresh(g) && g.bpm == bpm && g.page == old(page) && g.latch == WriteLatch
      ensures !g.dirty && g.wrote == wrote && page.None?
      ensures bpm.latches == Latched(old(bpm.latches), old(page).value, WriteLatch)
    {
      bpm.Lock(page.value, WriteLatch);
      g := new PageGuard(bpm, page, WriteLatch);
      g.wrote := wrote;
      page := None;
    }

    /** Writable access: marks the guard dirty. */
    method AsMut() returns (b: Block)
      requires bpm.Valid() && Holds() && page.Some?
      modifies this`dirty
      ensures dirty && page.value in bpm.image.pages && b == bpm.image.pages[page.value]
    {
      dirty := true;
      b := bpm.Read(page.value);
    }

    /** Read access leaves the guard as clean as it was. */
    method As() returns (b: Block)
      requires bpm.Valid() && Holds() && page.Some?
      ensures page.value in bpm.image.pages && b == bpm.image.pages[page.value]
    {
      b := bpm.Read(page.value);
    }

    /** Stores into the page go through the reference `AsMut` gave out. */
    method Put(b: Block)
      requires bpm.Valid() && Holds() && page.Some? && dirty
      modifies this`wrote, bpm`image, bpm.pool`s
      ensures bpm.Valid() && Holds() && wrote && bpm.image == Stored(old(bpm.image), page.value, !old(wrote), b)
    {
      bpm.Store(page.value, b, !wrote);
      wrote := true;
    }
  }
}
