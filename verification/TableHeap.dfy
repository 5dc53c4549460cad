/** The table heap: a chain of slotted pages that only grows at its end. */
module TableHeaps {
  import opened Bytes
  import opened Ids
  import opened BufferPools
  import opened PageGuards
  import opened TableMetas
  import P = TablePages

  type Pages = map<PageKey, Block>

  /** A row with the id it can be read back by. */
  datatype Entry = Entry(rid: Rid, row: P.Row)

  function Key(t: int, number: int): PageKey { PageKey(t, number) }

  // ---------- the chain, on values ----------

  ghost predicate PageOk(pages: Pages, t: int, number: int) {
    number >= 0 && Key(t, number) in pages && P.Valid(pages[Key(t, number)])
  }

  ghost predicate AllOk(pages: Pages, t: int, chain: seq<int>) {
    forall n {:trigger PageOk(pages, t, n)} :: n in chain ==> PageOk(pages, t, n)
  }

  function RowsOf(pages: Pages, t: int, number: int): seq<P.Row>
    requires PageOk(pages, t, number)
  {
    P.Rows(pages[Key(t, number)])
  }

  function NextOf(pages: Pages, t: int, number: int): int
    requires PageOk(pages, t, number)
  {
    P.NextPageId(pages[Key(t, number)])
  }

  /** Page `chain[i]` names the next one and is not empty; the last one names none. */
  ghost predicate LinkOk(pages: Pages, t: int, chain: seq<int>, i: nat)
    requires i < |chain| && AllOk(pages, t, chain)
  {
    assert PageOk(pages, t, chain[i]);
    if i + 1 < |chain| then
      chain[i] < chain[i + 1] && NextOf(pages, t, chain[i]) == chain[i + 1] && RowsOf(pages, t, chain[i]) != []
    else NextOf(pages, t, chain[i]) == INVALID_PAGE_ID
  }

  /** Page numbers increase along the links, the last page ends the chain, and only the last page may be empty. */
  ghost predicate ChainOk(pages: Pages, t: int, chain: seq<int>) {
    && |chain| > 0 && AllOk(pages, t, chain)
    && forall i {:trigger LinkOk(pages, t, chain, i)} :: 0 <= i < |chain| ==> LinkOk(pages, t, chain, i)
  }

  lemma {:induction false} ChainIncreases(pages: Pages, t: int, chain: seq<int>, i: nat, j: nat)
    requires ChainOk(pages, t, chain) && i < j < |chain|
    ensures chain[i] < chain[j]
  {
    assert LinkOk(pages, t, chain, j - 1);
    if i + 1 < j {
      ChainIncreases(pages, t, chain, i, j - 1);
    }
  }

  function Entries(rows: seq<P.Row>, number: int): (r: seq<Entry>)
    ensures |r| == |rows|
  {
    seq(|rows|, i requires 0 <= i < |rows| => Entry(Rid(number, i), rows[i]))
  }

  /** Everything ever inserted, in insertion order. */
  ghost function Log(pages: Pages, t: int, chain: seq<int>): seq<Entry>
    requires AllOk(pages, t, chain)
  {
    if chain == [] then []
    else
      var last := chain[|chain| - 1];
      assert PageOk(pages, t, last);
      Log(pages, t, Front(chain)) + Entries(RowsOf(pages, t, last), last)
  }

  function Front(chain: seq<int>): (r: seq<int>)
    requires chain != []
    ensures forall n :: n in r ==> n in chain
  {
    chain[..|chain| - 1]
  }

  function Last(chain: seq<int>): (n: int)
    requires chain != []
    ensures n in chain
  {
    chain[|chain| - 1]
  }

  /** Page `number` reads the same in both. */
  ghost predicate Kept(pages: Pages, pages': Pages, t: int, number: int) {
    Key(t, number) in pages && Key(t, number) in pages' && pages'[Key(t, number)] == pages[Key(t, number)]
  }

  /** Only the pages of the chain show in the log. */
  lemma {:induction false} LogDependsOnChain(pages: Pages, pages': Pages, t: int, chain: seq<int>)
    requires AllOk(pages, t, chain)
    requires forall n {:trigger Kept(pages, pages', t, n)} :: n in chain ==> Kept(pages, pages', t, n)
    ensures AllOk(pages', t, chain) && Log(pages', t, chain) == Log(pages, t, chain)
  {
    forall n | n in chain ensures PageOk(pages', t, n) {
      assert Kept(pages, pages', t, n) && PageOk(pages, t, n);
    }
    if chain != [] {
      LogDependsOnChain(pages, pages', t, Front(chain));
      assert Kept(pages, pages', t, Last(chain));
    }
  }

  /** Every page of the chain but the last reads the same in both. */
  ghost predicate KeepsFront(pages: Pages, pages': Pages, t: int, chain: seq<int>)
    requires chain != []
  {
    forall n {:trigger Kept(pages, pages', t, n)} :: n in chain && n != Last(chain) ==> Kept(pages, pages', t, n)
  }

  lemma FrontKept(pages: Pages, pages': Pages, t: int, chain: seq<int>)
    requires ChainOk(pages, t, chain) && KeepsFront(pages, pages', t, chain) && PageOk(pages', t, Last(chain))
    ensures AllOk(pages', t, chain) && AllOk(pages', t, Front(chain))
    ensures Log(pages', t, Front(chain)) == Log(pages, t, Front(chain))
    ensures forall i :: 0 <= i < |chain| - 1 ==> LinkOk(pages', t, chain, i)
  {
    var front := Front(chain);
    forall n | n in front ensures Kept(pages, pages', t, n) {
      var i :| 0 <= i < |front| && front[i] == n;
      ChainIncreases(pages, t, chain, i, |chain| - 1);
    }
    LogDependsOnChain(pages, pages', t, front);
    forall n | n in chain ensures PageOk(pages', t, n) {
      assert n != Last(chain) ==> Kept(pages, pages', t, n) && PageOk(pages, t, n);
    }
    forall i | 0 <= i < |chain| - 1 ensures LinkOk(pages', t, chain, i) {
      assert LinkOk(pages, t, chain, i) && chain[i] == front[i] && Kept(pages, pages', t, chain[i]);
    }
  }

  /** Adding a row to the last page adds it at the end of the log. */
  lemma AppendedRow(pages: Pages, pages': Pages, t: int, chain: seq<int>, row: P.Row)
    requires ChainOk(pages, t, chain) && KeepsFront(pages, pages', t, chain)
    requires var n := Last(chain);
      && PageOk(pages, t, n) && PageOk(pages', t, n)
      && RowsOf(pages', t, n) == RowsOf(pages, t, n) + [row] && NextOf(pages', t, n) == NextOf(pages, t, n)
    ensures ChainOk(pages', t, chain)
    ensures Log(pages', t, chain) ==
      Log(pages, t, chain) + [Entry(Rid(Last(chain), |RowsOf(pages, t, Last(chain))|), row)]
  {
    var n := Last(chain);
    FrontKept(pages, pages', t, chain);
    assert LinkOk(pages, t, chain, |chain| - 1);
    assert LinkOk(pages', t, chain, |chain| - 1);
    var rows := RowsOf(pages, t, n);
    assert Entries(rows + [row], n) == Entries(rows, n) + [Entry(Rid(n, |rows|), row)];
  }

  /** Linking a new empty page behind the last one changes the chain, not the log. */
  lemma GrownChain(pages: Pages, pages': Pages, t: int, chain: seq<int>, next: int)
    requires ChainOk(pages, t, chain) && KeepsFront(pages, pages', t, chain) && Last(chain) < next
    requires var n := Last(chain);
      && PageOk(pages, t, n) && PageOk(pages', t, n) && PageOk(pages', t, next)
      && RowsOf(pages', t, n) == RowsOf(pages, t, n) != [] && NextOf(pages', t, n) == next
      && RowsOf(pages', t, next) == [] && NextOf(pages', t, next) == INVALID_PAGE_ID
    ensures ChainOk(pages', t, chain + [next])
    ensures Log(pages', t, chain + [next]) == Log(pages, t, chain)
  {
    var n := Last(chain);
    var longer := chain + [next];
    FrontKept(pages, pages', t, chain);
    forall m | m in longer ensures PageOk(pages', t, m) {
      assert m != next ==> m in chain;
    }
    forall i | 0 <= i < |longer| ensures LinkOk(pages', t, longer, i) {
      assert i < |chain| - 1 ==> LinkOk(pages', t, chain, i);
    }
    assert Front(longer) == chain && Last(longer) == next;
    assert Log(pages', t, chain) == Log(pages, t, chain);
    assert Entries([], next) == [];
  }

  /** No page of the table lies beyond its last page. */
  ghost predicate Bounded(pages: Pages, t: int, last: int) {
    forall k :: k in pages && k.table == t ==> k.number <= last
  }

  lemma FirstPage(pages: Pages, t: int, number: int)
    requires PageOk(pages, t, number) && RowsOf(pages, t, number) == []
    requires NextOf(pages, t, number) == INVALID_PAGE_ID
    ensures ChainOk(pages, t, [number]) && Log(pages, t, [number]) == []
  {
    assert LinkOk(pages, t, [number], 0);
    assert Log(pages, t, Front([number])) == [] && Entries([], number) == [];
  }

  // ---------- the heap within what the pool shows ----------

  /** The chain is in order, and no page of the table lies beyond the last page allocated. */
  ghost predicate HeapOk(im: Image, t: int, chain: seq<int>, last: int) {
    ChainOk(im.pages, t, chain) && Last(chain) <= last && Bounded(im.pages, t, last)
  }

  ghost function HeapLog(im: Image, t: int, chain: seq<int>): seq<Entry> {
    if AllOk(im.pages, t, chain) then Log(im.pages, t, chain) else []
  }

  /** The rows of the page `k`, if it is one. */
  ghost function PageRows(im: Image, k: PageKey): seq<P.Row> {
    if k in im.pages && P.Valid(im.pages[k]) then P.Rows(im.pages[k]) else []
  }

  ghost predicate IsTablePage(im: Image, k: PageKey) {
    k in im.pages && P.Valid(im.pages[k])
  }

  /** Pages outside the chain read as before. */
  ghost predicate OthersKept(was: Image, im: Image, t: int, chain: seq<int>) {
    forall k :: k in was.pages && !(k.table == t && k.number in chain) ==> k in im.pages && im.pages[k] == was.pages[k]
  }

  /** Compared to `was`, one more pin on `p`, which owes a dirty unpin if it wrote. */
  ghost predicate OneMorePin(was: Image, im: Image, p: PageKey, wrote: bool) {
    && im.room == was.room
    && forall q :: Count(im.pins, q) == Count(was.pins, q) + (if q == p then 1 else 0)
                && Count(im.owed, q) == Count(was.owed, q) + (if q == p && wrote then 1 else 0)
  }

  ghost predicate SamePins(was: Image, im: Image) {
    && im.room == was.room
    && forall q :: Count(im.pins, q) == Count(was.pins, q) && Count(im.owed, q) == Count(was.owed, q)
  }

  /** Nobody holds a pin, there are two frames or more, and none of them can be lost: enough for every operation. */
  ghost predicate Roomy(im: Image) {
    im.room.lossless && im.room.frames >= 2 && forall p :: Count(im.pins, p) == 0
  }

  lemma RoomyStays(was: Image, im: Image)
    ensures Roomy(was) && SamePins(was, im) ==> Roomy(im)
  {}

  lemma RoomyServes(bpm: GuardedPool)
    requires bpm.Valid()
    ensures Roomy(bpm.image) ==> bpm.Spares() >= 2
  {
    if Roomy(bpm.image) { bpm.SparesAre(); }
  }

  /** Only `p` is write-latched and nothing is read-latched. */
  ghost predicate OnlyLatched(l: Latches, p: PageKey) {
    l.writing == {p} && forall q :: Count(l.reading, q) == 0
  }

  ghost predicate Idle(l: Latches) {
    l.writing == {} && forall q :: Count(l.reading, q) == 0
  }

  ghost predicate IsEmptyPage(b: Block) {
    P.Valid(b) && P.Rows(b) == [] && P.NextPageId(b) == INVALID_PAGE_ID
  }

  ghost predicate IsLinked(im: Image, k: PageKey, b: Block, next: int) {
    IsTablePage(im, k) && P.Valid(b) && P.Rows(b) == P.Rows(im.pages[k]) && P.NextPageId(b) == next
  }

  function TailImage(im: Image, p: PageKey, q: PageKey, wrote: bool, linked: Block, empty: Block): Image {
    Stored(Stored(Created(im, q), p, !wrote, linked), q, true, empty)
  }

  /** Page `q` was created and initialised, and page `p` linked to it; both guards still hold. */
  ghost predicate TailAdded(im: Image, im': Image, p: PageKey, q: PageKey, wrote: bool, b: Block, e: Block) {
    && Count(im.pins, q) == Count(im.owed, q) == 0
    && IsLinked(im, p, b, q.number) && IsEmptyPage(e) && im' == TailImage(im, p, q, wrote, b, e)
  }

  /** The heap after the old last page was let go. */
  lemma TailAddedIs(was: Image, im: Image, im': Image, t: int, chain: seq<int>, last: int, wrote: bool, b: Block,
    e: Block)
    requires HeapOk(im, t, chain, last) && PageRows(im, Key(t, Last(chain))) != []
    requires OneMorePin(was, im, Key(t, Last(chain)), wrote)
    requires TailAdded(im, im', Key(t, Last(chain)), Key(t, last + 1), wrote, b, e)
    ensures Count(im'.pins, Key(t, Last(chain))) > 0
    ensures var (c, q) := (chain + [last + 1], Key(t, last + 1));
      var im'' := Unpinned(im', Key(t, Last(chain)), true);
      && HeapOk(im'', t, c, last + 1) && HeapLog(im'', t, c) == HeapLog(im, t, chain) && PageRows(im'', q) == []
      && OneMorePin(was, im'', q, true) && OthersKept(im, im'', t, chain)
  {
    PinsMoved(was, im, im', Key(t, Last(chain)), Key(t, last + 1), wrote, b, e);
    hide OneMorePin, IsLinked, IsEmptyPage, OthersKept, HeapLog, ChainOk, Bounded;
    TailGrowsChain(im, Unpinned(im', Key(t, Last(chain)), true), t, chain, last, wrote, b, e);
  }

  lemma PinsMoved(was: Image, im: Image, im': Image, p: PageKey, q: PageKey, wrote: bool, b: Block, e: Block)
    requires OneMorePin(was, im, p, wrote) && TailAdded(im, im', p, q, wrote, b, e) && p != q
    ensures Count(im'.pins, p) > 0 && OneMorePin(was, Unpinned(im', p, true), q, true)
  {
    hide IsLinked, IsEmptyPage;
  }

  lemma TailGrowsChain(im: Image, im': Image, t: int, chain: seq<int>, last: int, wrote: bool, b: Block, e: Block)
    requires HeapOk(im, t, chain, last) && PageRows(im, Key(t, Last(chain))) != []
    requires IsLinked(im, Key(t, Last(chain)), b, last + 1) && IsEmptyPage(e)
    requires im'.pages == im.pages[Key(t, last + 1) := Zeros()][Key(t, Last(chain)) := b][Key(t, last + 1) := e]
    ensures HeapOk(im', t, chain + [last + 1], last + 1)
    ensures HeapLog(im', t, chain + [last + 1]) == HeapLog(im, t, chain) && PageRows(im', Key(t, last + 1)) == []
    ensures OthersKept(im, im', t, chain)
  {
    assert PageOk(im.pages, t, Last(chain));
    forall m | m in chain && m != Last(chain) ensures Kept(im.pages, im'.pages, t, m) {
      assert PageOk(im.pages, t, m);
    }
    GrownChain(im.pages, im'.pages, t, chain, last + 1);
  }

  /** A first page, created, initialised and let go. */
  lemma FirstImageIs(im: Image, t: int, last: int, empty: Block)
    requires last >= -1 && Bounded(im.pages, t, last) && IsEmptyPage(empty)
    requires Count(im.pins, Key(t, last + 1)) == Count(im.owed, Key(t, last + 1)) == 0
    ensures var q := Key(t, last + 1);
      var im' := Unpinned(Stored(Created(im, q), q, true, empty), q, true);
      && HeapOk(im', t, [last + 1], last + 1) && HeapLog(im', t, [last + 1]) == []
      && SamePins(im, im') && OthersKept(im, im', t, [last + 1])
  {
    var q := Key(t, last + 1);
    var im' := Unpinned(Stored(Created(im, q), q, true, empty), q, true);
    FirstPage(im'.pages, t, last + 1);
  }

  lemma CreatedKeeps(im: Image, q: PageKey, p: PageKey)
    requires IsTablePage(im, p) && q !in im.pages
    ensures IsTablePage(Created(im, q), p)
    ensures forall b, next :: IsLinked(Created(im, q), p, b, next) == IsLinked(im, p, b, next)
  {
    assert Created(im, q).pages[p] == im.pages[p];
  }

  // ---------- page writes through a guard ----------

  method InitPage(g: PageGuard) returns (ghost b: Block)
    requires g.bpm.Valid() && g.Holds() && g.page.Some?
    modifies g`dirty, g`wrote, g.bpm`image, g.bpm.pool`s
    ensures g.bpm.Valid() && g.Holds() && g.dirty && g.wrote && IsEmptyPage(b)
    ensures g.bpm.image == Stored(old(g.bpm.image), g.page.value, !old(g.wrote), b)
  {
    hide Shows, Sound;
    var was := g.AsMut();
    var page := new P.TablePage(was);
    page.Init();
    b := page.B();
    g.Put(page.B());
  }

  method InitAndDrop(g: PageGuard) returns (ghost b: Block)
    requires g.bpm.Valid() && g.Holds() && g.page.Some? && g.latch == NoLatch && !g.wrote
    modifies g, g.bpm`image, g.bpm`latches, g.bpm.pool`s, g.bpm.pool.replacer
    ensures g.bpm.Valid() && g.bpm.latches == old(g.bpm.latches) && IsEmptyPage(b)
    ensures Count(Stored(old(g.bpm.image), old(g.page).value, true, b).pins, old(g.page).value) > 0
    ensures g.bpm.image == Unpinned(Stored(old(g.bpm.image), old(g.page).value, true, b), old(g.page).value, true)
  {
    hide Shows, Sound, IsEmptyPage;
    b := InitPage(g);
    g.Drop();
  }

  method LinkPage(g: PageGuard, next: int) returns (ghost b: Block)
    requires g.bpm.Valid() && g.Holds() && g.page.Some? && IsTablePage(g.bpm.image, g.page.value)
    requires 0 <= next < 0x8000_0000
    modifies g`dirty, g`wrote, g.bpm`image, g.bpm.pool`s
    ensures g.bpm.Valid() && g.Holds() && g.dirty && g.wrote && IsLinked(old(g.bpm.image), g.page.value, b, next)
    ensures g.bpm.image == Stored(old(g.bpm.image), g.page.value, !old(g.wrote), b)
  {
    hide Shows, Sound;
    var was := g.AsMut();
    var page := new P.TablePage(was);
    page.SetNextPageId(next);
    b := page.B();
    g.Put(page.B());
  }

  /** Links the new page `npg` holds behind the page `g` holds, and initialises it. */
  method LinkTail(g: PageGuard, npg: PageGuard, ghost im: Image) returns (ghost b: Block, ghost e: Block)
    requires g.bpm.Valid() && npg.bpm == g.bpm && g != npg && g.Holds() && npg.Holds() && !npg.wrote
    requires g.page.Some? && npg.page.Some? && g.page != npg.page
    requires IsTablePage(im, g.page.value) && npg.page.value !in im.pages
    requires g.bpm.image == Created(im, npg.page.value) && 0 <= npg.page.value.number < 0x8000_0000
    modifies g`dirty, g`wrote, npg`dirty, npg`wrote, g.bpm`image, g.bpm.pool`s
    ensures g.bpm.Valid() && g.Holds() && g.dirty && g.wrote && npg.Holds() && npg.dirty && npg.wrote
    ensures IsLinked(im, g.page.value, b, npg.page.value.number) && IsEmptyPage(e)
    ensures g.bpm.image == TailImage(im, g.page.value, npg.page.value, old(g.wrote), b, e)
  {
    hide Shows, Sound, IsTablePage, IsEmptyPage, IsLinked;
    CreatedKeeps(im, npg.page.value, g.page.value);
    b := LinkPage(g, npg.page.value.number);
    e := InitPage(npg);
  }

  lemma TailIsPage(im: Image, t: int, chain: seq<int>, last: int)
    requires HeapOk(im, t, chain, last)
    ensures 0 <= Last(chain) <= last && IsTablePage(im, Key(t, Last(chain))) && Bounded(im.pages, t, last)
    ensures Key(t, last + 1) !in im.pages
  {
    assert PageOk(im.pages, t, Last(chain));
  }

  /** Lets the current page go and takes the next one under a write latch. */
  method HandOver(g: PageGuard, npg: PageGuard)
    requires g != npg && g.bpm == npg.bpm && g.bpm.Valid() && g.Holds() && npg.Holds() && npg.latch == NoLatch
    requires g.page.Some? && npg.page.Some? && g.page != npg.page && g.dirty && g.latch == WriteLatch
    requires OnlyLatched(g.bpm.latches, g.page.value)
    modifies g, npg`page, g.bpm`image, g.bpm`latches, g.bpm.pool`s, g.bpm.pool.replacer
    ensures g.bpm.Valid() && g.bpm.image == Unpinned(old(g.bpm.image), old(g.page).value, old(g.wrote))
    ensures g.page == old(npg.page) && g.latch == WriteLatch && g.wrote == old(npg.wrote) && !g.dirty && g.Holds()
    ensures OnlyLatched(g.bpm.latches, g.page.value)
  {
    hide Shows, Sound;
    g.Drop();
    var h := npg.UpgradeWrite();
    g.MoveFrom(h);
  }

  /** Both: the new page is linked, and the guard moves onto it. */
  method MoveOn(g: PageGuard, npg: PageGuard, ghost was: Image, ghost im: Image, ghost chain: seq<int>)
    requires g.bpm.Valid() && npg.bpm == g.bpm && g != npg && g.Holds() && npg.Holds() && !npg.wrote
    requires npg.latch == NoLatch && g.latch == WriteLatch && g.page.Some? && npg.page.Some?
    requires OnlyLatched(g.bpm.latches, g.page.value)
    requires var (t, q) := (g.page.value.table, npg.page.value);
      && g.bpm.image == Created(im, q) && HeapOk(im, t, chain, q.number - 1) && q.table == t
      && g.page.value == Key(t, Last(chain)) && PageRows(im, g.page.value) != [] && q.number < 0x8000_0000
      && OneMorePin(was, im, g.page.value, g.wrote) && Count(im.pins, q) == Count(im.owed, q) == 0
    modifies g, npg, g.bpm`image, g.bpm`latches, g.bpm.pool`s, g.bpm.pool.replacer
    ensures g.bpm.Valid() && g.page == old(npg.page) && g.latch == WriteLatch && g.wrote && !g.dirty && g.Holds()
    ensures OnlyLatched(g.bpm.latches, g.page.value)
    ensures var (t, c) := (old(g.page).value.table, chain + [old(npg.page).value.number]);
      && HeapOk(g.bpm.image, t, c, Last(c)) && HeapLog(g.bpm.image, t, c) == HeapLog(im, t, chain)
      && PageRows(g.bpm.image, g.page.value) == [] && OneMorePin(was, g.bpm.image, g.page.value, true)
      && OthersKept(im, g.bpm.image, t, chain)
  {
    hide Shows, Sound, HeapOk, HeapLog, OneMorePin, OthersKept, PageRows, IsTablePage, IsEmptyPage, IsLinked, Bounded;
    ghost var wrote, t, last := g.wrote, g.page.value.table, npg.page.value.number - 1;
    TailIsPage(im, t, chain, last);
    ghost var b, e := LinkTail(g, npg, im);
    ghost var im' := g.bpm.image;
    HandOver(g, npg);
    TailAddedIs(was, im, im', t, chain, last, wrote, b, e);
  }

  /** `FetchPageWrite`, `FetchPageRead`; null stands for the exception. */
  method FetchGuard(bpm: GuardedPool, k: PageKey, latch: Latch) returns (g: PageGuard?)
    requires bpm.Valid() && k in bpm.image.pages && k.number != INVALID_PAGE_ID
    requires Grantable(bpm.latches, k, latch)
    modifies bpm`image, bpm`latches, bpm.pool`s, bpm.pool.replacer, bpm.pool.disk
    ensures bpm.Valid() && (g == null ==> bpm.image == old(bpm.image) && bpm.latches == old(bpm.latches))
    ensures g != null ==> fresh(g) && g.bpm == bpm && g.page == Some(k) && g.latch == latch && !g.dirty && !g.wrote
    ensures g != null ==> bpm.image == Pinned(old(bpm.image), k) && bpm.latches == Latched(old(bpm.latches), k, latch)
    ensures g != null ==> Count(bpm.image.owed, k) < Count(bpm.image.pins, k)
    ensures (g == null ==> old(bpm.Spares()) == bpm.Spares() == 0) && bpm.Spares() >= old(bpm.Spares()) - 1
  {
    hide Shows, Sound;
    var ok := bpm.FetchPage(k);
    if !ok {
      return null;
    }
    bpm.Lock(k, latch);
    g := new PageGuard(bpm, Some(k), latch);
  }

  lemma NothingChanged(im: Image, t: int, chain: seq<int>)
    ensures SamePins(im, im) && OthersKept(im, im, t, chain)
  {}

  /** The heap depends on nothing but the pages. */
  lemma PagesDecide(im: Image, im': Image, t: int, chain: seq<int>, last: int)
    requires im'.pages == im.pages
    ensures HeapOk(im', t, chain, last) == HeapOk(im, t, chain, last) && HeapLog(im', t, chain) == HeapLog(im, t, chain)
    ensures forall x :: OthersKept(x, im', t, chain) == OthersKept(x, im, t, chain)
    ensures forall x, c :: OthersKept(im', x, t, c) == OthersKept(im, x, t, c)
  {}

  lemma TookPin(im: Image, p: PageKey)
    ensures OneMorePin(im, Pinned(im, p), p, false)
  {}

  /** Giving the pin back leaves the pins as they were, and the pages alone. */
  lemma LetGo(was: Image, im: Image, p: PageKey, wrote: bool)
    requires OneMorePin(was, im, p, wrote)
    ensures Count(im.pins, p) > 0 && SamePins(was, Unpinned(im, p, wrote))
  {}

  ghost predicate Fits(im: Image, k: PageKey, size: nat) {
    IsTablePage(im, k) && P.Fits(im.pages[k], size)
  }

  /** In plain numbers: a header of eight bytes, six for each row, and the bytes of all rows. */
  lemma FitsExactly(im: Image, k: PageKey, size: nat)
    requires IsTablePage(im, k)
    ensures var rows := PageRows(im, k);
      Fits(im, k, size) <==> 8 + 6 * (|rows| + 1) + P.BytesOf(rows) + size <= 4096
  {
    P.DataIsRows(im.pages[k]);
  }

  /** Whether the guard's page takes the tuple, and whether it is empty. */
  method HasRoom(g: PageGuard, tuple: seq<byte>) returns (room: bool, empty: bool)
    requires g.bpm.Valid() && g.Holds() && g.page.Some? && IsTablePage(g.bpm.image, g.page.value)
    requires 0 < |tuple| <= PAGE_SIZE - P.TABLE_PAGE_HEADER_SIZE
    modifies g`dirty
    ensures g.dirty && room == Fits(g.bpm.image, g.page.value, |tuple|)
    ensures empty == (PageRows(g.bpm.image, g.page.value) == [])
    ensures |tuple| > P.MAX_TUPLE_SIZE ==> !room
    ensures empty && |tuple| <= P.MAX_TUPLE_SIZE ==> room
  {
    hide Shows, Sound;
    var b := g.AsMut();
    var page := new P.TablePage(b);
    var offset := page.GetNextTupleOffset(tuple);
    room := offset.Some?;
    empty := P.NumTuples(b) == 0;
  }

  /** Block `b` is page `k` with one more row, in slot `slot`. */
  ghost predicate IsAppended(im: Image, k: PageKey, b: Block, slot: nat, row: P.Row) {
    && IsTablePage(im, k) && P.Valid(b) && P.NextPageId(b) == P.NextPageId(im.pages[k])
    && P.Rows(b) == P.Rows(im.pages[k]) + [row] && slot == |P.Rows(im.pages[k])|
  }

  lemma SamePagesFit(im: Image, im': Image, k: PageKey, size: nat)
    requires im'.pages == im.pages
    ensures Fits(im', k, size) == Fits(im, k, size) && PageRows(im', k) == PageRows(im, k)
  {}

  lemma AppendedSlot(im: Image, k: PageKey, b: Block, slot: nat, row: P.Row)
    requires IsAppended(im, k, b, slot, row)
    ensures slot == |PageRows(im, k)|
  {}

  method PutTuple(g: PageGuard, deleted: bool, tuple: seq<byte>) returns (slot: nat, ghost b: Block)
    requires g.bpm.Valid() && g.Holds() && g.page.Some? && Fits(g.bpm.image, g.page.value, |tuple|)
    requires 0 < |tuple| <= PAGE_SIZE - P.TABLE_PAGE_HEADER_SIZE
    modifies g`dirty, g`wrote, g.bpm`image, g.bpm.pool`s
    ensures g.bpm.Valid() && g.Holds() && g.dirty && g.wrote
    ensures IsAppended(old(g.bpm.image), g.page.value, b, slot, P.Row(deleted, tuple))
    ensures g.bpm.image == Stored(old(g.bpm.image), g.page.value, !old(g.wrote), b)
  {
    hide Shows, Sound;
    var was := g.AsMut();
    var page := new P.TablePage(was);
    var r := page.InsertTuple(deleted, tuple);
    slot := r.value;
    b := page.B();
    g.Put(page.B());
  }

  lemma TupleAddedIs(was: Image, im0: Image, im: Image, t: int, chain: seq<int>, last: int, wrote: bool, b: Block,
                     slot: nat, row: P.Row)
    requires HeapOk(im, t, chain, last) && OneMorePin(was, im, Key(t, Last(chain)), wrote)
    requires IsAppended(im, Key(t, Last(chain)), b, slot, row) && OthersKept(im0, im, t, chain)
    ensures var p := Key(t, Last(chain));
      var im1 := Stored(im, p, !wrote, b);
      && Count(im1.pins, p) > 0
      && var im' := Unpinned(im1, p, true);
      && SamePins(was, im') && HeapOk(im', t, chain, last) && OthersKept(im0, im', t, chain)
      && HeapLog(im', t, chain) == HeapLog(im, t, chain) + [Entry(Rid(Last(chain), slot), row)]
  {
    var p := Key(t, Last(chain));
    var im' := Unpinned(Stored(im, p, !wrote, b), p, true);
    assert PageOk(im.pages, t, Last(chain));
    forall m | m in chain && m != Last(chain) ensures Kept(im.pages, im'.pages, t, m) {
      assert PageOk(im.pages, t, m);
    }
    AppendedRow(im.pages, im'.pages, t, chain, row);
  }

  datatype InsertResult =
    | Inserted(rid: Rid)
    /** The pool had no frame: the exception. */
    | NoFrame
    /** The assertion that an empty page takes the tuple. */
    | TooLarge

  class TableHeap {
    const bpm: GuardedPool
    const meta: TableMeta
    const oid: int
    ghost var chain: seq<int>
    /** False when the first page could not be had: the constructor's exception. */
    const ready: bool

    ghost predicate Valid()
      reads this, bpm, bpm.pool, bpm.pool.replacer, bpm.pool.disk, meta
    {
      && bpm.Valid() && HeapOk(bpm.image, oid, chain, meta.lastTableDataPageId)
      && meta.lastTableHeapDataPageId == Last(chain)
    }

    /** All rows with their ids, in insertion order. */
    ghost function Rows(): seq<Entry>
      reads this`chain, bpm`image
    {
      HeapLog(bpm.image, oid, chain)
    }

    /**
     * Opens the heap of the table, whose pages are `chain`; a table without a heap page gets its first one, the next
     * page of the table file.
     */
    constructor (bpm: GuardedPool, meta: TableMeta, oid: int, ghost chain: seq<int>)
      requires bpm.Valid() && -1 <= meta.lastTableDataPageId && Bounded(bpm.image.pages, oid, meta.lastTableDataPageId)
      requires meta.lastTableHeapDataPageId != INVALID_PAGE_ID ==>
        HeapOk(bpm.image, oid, chain, meta.lastTableDataPageId) && meta.lastTableHeapDataPageId == Last(chain)
      modifies bpm`image, bpm`latches, bpm.pool`s, bpm.pool.replacer, bpm.pool.disk
      modifies meta`lastTableDataPageId, meta`lastTableHeapDataPageId
      ensures this.bpm == bpm && this.meta == meta && this.oid == oid && bpm.latches == old(bpm.latches)
      ensures SamePins(old(bpm.image), bpm.image) && OthersKept(old(bpm.image), bpm.image, oid, this.chain)
      ensures ready ==> Valid()
      ensures !ready ==> bpm.image == old(bpm.image) && meta.lastTableDataPageId == old(meta.lastTableDataPageId)
      ensures !ready ==> meta.lastTableHeapDataPageId == INVALID_PAGE_ID
      ensures old(Roomy(bpm.image)) ==> ready && Roomy(bpm.image)
      ensures old(meta.lastTableHeapDataPageId) != INVALID_PAGE_ID ==>
        && ready && this.chain == chain && bpm.image == old(bpm.image)
        && meta.lastTableDataPageId == old(meta.lastTableDataPageId)
      ensures ready && old(meta.lastTableHeapDataPageId) == INVALID_PAGE_ID ==>
        this.chain == [meta.lastTableDataPageId] == [old(meta.lastTableDataPageId) + 1] && Rows() == []
    {
      this.bpm, this.meta, this.oid, this.chain := bpm, meta, oid, chain;
      RoomyServes(bpm);
      var ok := true;
      if meta.lastTableHeapDataPageId == INVALID_PAGE_ID {
        this.chain := [meta.lastTableDataPageId + 1];
        ok := CreateFirstPage(bpm, meta, oid);
      }
      RoomyStays(old(bpm.image), bpm.image);
      ready := ok;
    }

    /** A new page from the table's own allocator: the next page of the file, which becomes the last heap page. */
    static method NewPageGuarded(bpm: GuardedPool, meta: TableMeta, oid: int) returns (npg: PageGuard?)
      requires bpm.Valid() && -1 <= meta.lastTableDataPageId && Bounded(bpm.image.pages, oid, meta.lastTableDataPageId)
      modifies bpm`image, bpm.pool`s, bpm.pool.replacer, bpm.pool.disk
      modifies meta`lastTableDataPageId, meta`lastTableHeapDataPageId
      ensures bpm.Valid() && (npg == null ==> bpm.image == old(bpm.image) && old(bpm.Spares()) == bpm.Spares() == 0)
      ensures npg == null ==> meta.lastTableDataPageId == old(meta.lastTableDataPageId)
      ensures npg == null ==> meta.lastTableHeapDataPageId == old(meta.lastTableHeapDataPageId)
      ensures npg != null ==>
        var q := Key(oid, old(meta.lastTableDataPageId) + 1);
        && fresh(npg) && npg.bpm == bpm && npg.page == Some(q) && npg.latch == NoLatch && !npg.dirty && !npg.wrote
        && meta.lastTableDataPageId == meta.lastTableHeapDataPageId == q.number
        && bpm.image == Created(old(bpm.image), q)
        && Count(old(bpm.image).pins, q) == Count(old(bpm.image).owed, q) == 0
    {
      var q := Key(oid, meta.lastTableDataPageId + 1);
      assert q !in bpm.image.pages;
      hide Shows, Sound, Bounded;
      var ok := bpm.NewPage(q);
      if !ok {
        return null;
      }
      var id := meta.IncrementTableDataPageId();
      meta.lastTableHeapDataPageId := id;
      npg := new PageGuard(bpm, Some(q), NoLatch);
    }

    static method CreateFirstPage(bpm: GuardedPool, meta: TableMeta, oid: int) returns (ok: bool)
      requires bpm.Valid() && -1 <= meta.lastTableDataPageId && Bounded(bpm.image.pages, oid, meta.lastTableDataPageId)
      modifies bpm`image, bpm`latches, bpm.pool`s, bpm.pool.replacer, bpm.pool.disk
      modifies meta`lastTableDataPageId, meta`lastTableHeapDataPageId
      ensures bpm.Valid() && bpm.latches == old(bpm.latches)
      ensures !ok ==> bpm.image == old(bpm.image) && meta.lastTableDataPageId == old(meta.lastTableDataPageId)
      ensures !ok ==> meta.lastTableHeapDataPageId == old(meta.lastTableHeapDataPageId) && old(bpm.Spares()) == 0
      ensures ok ==>
        var first := old(meta.lastTableDataPageId) + 1;
        && meta.lastTableDataPageId == meta.lastTableHeapDataPageId == first
        && HeapOk(bpm.image, oid, [first], first) && HeapLog(bpm.image, oid, [first]) == []
        && SamePins(old(bpm.image), bpm.image) && OthersKept(old(bpm.image), bpm.image, oid, [first])
    {
      hide Shows, Sound, HeapOk, HeapLog, SamePins, OthersKept, IsEmptyPage;
      var guard := NewPageGuarded(bpm, meta, oid);
      ok := guard != null;
      if ok {
        ghost var b := InitAndDrop(guard);
        FirstImageIs(old(bpm.image), oid, old(meta.lastTableDataPageId), b);
      }
    }

    /** One turn of the loop: a new last page, linked behind the current one, and the guard moved onto it. */
    method Grow(g: PageGuard, ghost was: Image) returns (ok: bool)
      requires Valid() && g.bpm == bpm && g.Holds() && g.latch == WriteLatch && g.dirty
      requires g.page == Some(Key(oid, Last(chain))) && OnlyLatched(bpm.latches, g.page.value)
      requires meta.lastTableDataPageId < 0x7FFF_FFFF && PageRows(bpm.image, g.page.value) != []
      requires OneMorePin(was, bpm.image, g.page.value, g.wrote)
      modifies this`chain, g, bpm`image, bpm`latches, bpm.pool`s, bpm.pool.replacer, bpm.pool.disk
      modifies meta`lastTableDataPageId, meta`lastTableHeapDataPageId
      ensures Valid() && Rows() == old(Rows()) && g.Holds() && g.latch == WriteLatch && g.page.Some?
      ensures g.page.value == Key(oid, Last(chain)) && OnlyLatched(bpm.latches, g.page.value)
      ensures OneMorePin(was, bpm.image, g.page.value, g.wrote)
      ensures !ok ==>
        g.dirty && bpm.image == old(bpm.image) && chain == old(chain) && old(bpm.Spares()) == bpm.Spares() == 0
      ensures !ok ==> meta.lastTableDataPageId == old(meta.lastTableDataPageId)
      ensures ok ==> g.wrote && !g.dirty && PageRows(bpm.image, g.page.value) == []
      ensures ok ==> OthersKept(old(bpm.image), bpm.image, oid, old(chain))
      ensures ok ==> meta.lastTableDataPageId == old(meta.lastTableDataPageId) + 1
      ensures ok ==> chain == old(chain) + [meta.lastTableDataPageId]
    {
      hide Shows, Sound, Known, HeapOk, HeapLog, OneMorePin, OthersKept, PageRows, IsTablePage, Bounded, OnlyLatched;
      ghost var im, last := bpm.image, meta.lastTableDataPageId;
      TailIsPage(im, oid, chain, last);
      var npg := NewPageGuarded(bpm, meta, oid);
      ok := npg != null;
      if ok {
        MoveOn(g, npg, was, im, chain);
        chain := chain + [last + 1];
      }
    }

    /**
     * Appends a row and returns the id it can be read back by. Whatever happens, every pin and latch is given back
     * and no other page changes. A tuple is refused as too large exactly if an empty page could not take it.
     */
    method InsertTuple(deleted: bool, tuple: seq<byte>) returns (r: InsertResult)
      requires Valid() && Idle(bpm.latches) && 0 < |tuple| <= PAGE_SIZE - P.TABLE_PAGE_HEADER_SIZE
      requires meta.lastTableDataPageId < 0x7FFF_FFFF
      modifies this`chain, bpm`image, bpm`latches, bpm.pool`s, bpm.pool.replacer, bpm.pool.disk
      modifies meta`lastTableDataPageId, meta`lastTableHeapDataPageId, meta`tupleCount
      ensures Valid() && Idle(bpm.latches) && SamePins(old(bpm.image), bpm.image)
      ensures OthersKept(old(bpm.image), bpm.image, oid, chain)
      ensures old(chain) <= chain && |chain| <= old(|chain|) + 1
      ensures meta.lastTableDataPageId == old(meta.lastTableDataPageId) + (|chain| - old(|chain|))
      ensures r.TooLarge? ==> |tuple| > P.MAX_TUPLE_SIZE
      ensures |tuple| > P.MAX_TUPLE_SIZE ==> !r.Inserted?
      ensures r.Inserted? ==> Rows() == old(Rows()) + [Entry(r.rid, P.Row(deleted, tuple))]
      ensures r.Inserted? ==> r.rid.page == Last(chain) && meta.tupleCount == old(meta.tupleCount) + 1
      ensures !r.Inserted? ==> Rows() == old(Rows()) && meta.tupleCount == old(meta.tupleCount)
      ensures r.NoFrame? ==> bpm.image.pages == old(bpm.image.pages) && chain == old(chain)
      ensures r.NoFrame? ==> old(bpm.Spares()) < 2 && bpm.Spares() < 2
      ensures r.TooLarge? ==> |tuple| > 4082
      ensures var rows := old(PageRows(bpm.image, Key(oid, Last(chain))));
        r.Inserted? ==>
          && (|chain| == old(|chain|) <==> 8 + 6 * (|rows| + 1) + P.BytesOf(rows) + |tuple| <= 4096)
          && r.rid.slot == if |chain| == old(|chain|) then |rows| else 0
      ensures old(Roomy(bpm.image)) ==> (r.Inserted? <==> |tuple| <= 4082)
      ensures old(Roomy(bpm.image)) ==> Roomy(bpm.image) && (r.Inserted? <==> |tuple| <= P.MAX_TUPLE_SIZE)
    {
      hide Shows, Sound, Known, HeapOk, HeapLog, OneMorePin, OthersKept, PageRows, IsTablePage, Bounded, SamePins;
      hide Roomy;
      ghost var was := bpm.image;
      RoomyServes(bpm);
      TailIsPage(was, oid, chain, meta.lastTableDataPageId);
      NothingChanged(was, oid, chain);
      var g := FetchGuard(bpm, Key(oid, meta.lastTableHeapDataPageId), WriteLatch);
      if g == null {
        RoomyStays(was, bpm.image);
        return NoFrame;
      }
      FitsExactly(was, g.page.value, |tuple|);
      SamePagesFit(was, bpm.image, g.page.value, |tuple|);
      TookPin(was, g.page.value);
      PagesDecide(was, bpm.image, oid, chain, meta.lastTableDataPageId);
      r := InsertUnder(g, deleted, tuple, was);
      RoomyStays(was, bpm.image);
    }

    /** The loop of the insertion: at most one page is added, until the last page takes the tuple. */
    method MakeRoom(g: PageGuard, tuple: seq<byte>, ghost was: Image) returns (room: bool, tooLarge: bool)
      requires Valid() && g.bpm == bpm && g.Holds() && g.latch == WriteLatch && g.page == Some(Key(oid, Last(chain)))
      requires OnlyLatched(bpm.latches, g.page.value) && OneMorePin(was, bpm.image, g.page.value, g.wrote)
      requires 0 < |tuple| <= PAGE_SIZE - P.TABLE_PAGE_HEADER_SIZE && meta.lastTableDataPageId < 0x7FFF_FFFF
      modifies this`chain, g, bpm`image, bpm`latches, bpm.pool`s, bpm.pool.replacer, bpm.pool.disk
      modifies meta`lastTableDataPageId, meta`lastTableHeapDataPageId
      ensures Valid() && g.Holds() && g.latch == WriteLatch && g.page == Some(Key(oid, Last(chain))) && g.dirty
      ensures OnlyLatched(bpm.latches, g.page.value) && OneMorePin(was, bpm.image, g.page.value, g.wrote)
      ensures OthersKept(old(bpm.image), bpm.image, oid, chain) && Rows() == old(Rows())
      ensures old(chain) <= chain && |chain| <= old(|chain|) + 1
      ensures meta.lastTableDataPageId == old(meta.lastTableDataPageId) + (|chain| - old(|chain|))
      ensures room ==> Fits(bpm.image, g.page.value, |tuple|)
      ensures room ==> (|chain| == old(|chain|) <==> old(Fits(bpm.image, g.page.value, |tuple|)))
      ensures |chain| == old(|chain|) ==> PageRows(bpm.image, g.page.value) == old(PageRows(bpm.image, g.page.value))
      ensures |chain| > old(|chain|) ==> PageRows(bpm.image, g.page.value) == []
      ensures |tuple| > P.MAX_TUPLE_SIZE ==> !room
      ensures tooLarge ==> !room && |tuple| > P.MAX_TUPLE_SIZE
      ensures !room && !tooLarge ==>
        bpm.image == old(bpm.image) && chain == old(chain) && old(bpm.Spares()) == bpm.Spares() == 0
    {
      hide Shows, Sound, Known, HeapOk, HeapLog, OneMorePin, OthersKept, PageRows, IsTablePage, Bounded, OnlyLatched;
      hide Fits;
      ghost var im := bpm.image;
      NothingChanged(im, oid, chain);
      tooLarge := false;
      while true
        invariant Valid() && g.Holds() && g.latch == WriteLatch && g.page == Some(Key(oid, Last(chain)))
        invariant OnlyLatched(bpm.latches, g.page.value) && OneMorePin(was, bpm.image, g.page.value, g.wrote)
        invariant OthersKept(im, bpm.image, oid, chain) && Rows() == old(Rows())
        invariant old(chain) <= chain && |chain| <= old(|chain|) + 1
        invariant meta.lastTableDataPageId == old(meta.lastTableDataPageId) + (|chain| - old(|chain|))
        invariant (chain == old(chain) && bpm.image == im && bpm.Spares() == old(bpm.Spares()))
               || (PageRows(bpm.image, g.page.value) == [] && |chain| > old(|chain|)
                   && !old(Fits(bpm.image, g.page.value, |tuple|)))
        decreases PageRows(bpm.image, g.page.value) != []
      {
        TailIsPage(bpm.image, oid, chain, meta.lastTableDataPageId);
        var empty;
        room, empty := HasRoom(g, tuple);
        if room {
          return;
        }
        if empty {
          tooLarge := true;
          return;
        }
        ghost var c := chain;
        var ok := Grow(g, was);
        if !ok {
          return;
        }
        KeptInLonger(im, bpm.image, oid, c, chain);
      }
    }

    method InsertUnder(g: PageGuard, deleted: bool, tuple: seq<byte>, ghost was: Image) returns (r: InsertResult)
      requires Valid() && g.bpm == bpm && g.Holds() && g.latch == WriteLatch && g.page == Some(Key(oid, Last(chain)))
      requires OnlyLatched(bpm.latches, g.page.value) && OneMorePin(was, bpm.image, g.page.value, g.wrote)
      requires 0 < |tuple| <= PAGE_SIZE - P.TABLE_PAGE_HEADER_SIZE && meta.lastTableDataPageId < 0x7FFF_FFFF
      modifies this`chain, g, bpm`image, bpm`latches, bpm.pool`s, bpm.pool.replacer, bpm.pool.disk
      modifies meta`lastTableDataPageId, meta`lastTableHeapDataPageId, meta`tupleCount
      ensures Valid() && Idle(bpm.latches) && SamePins(was, bpm.image)
      ensures OthersKept(old(bpm.image), bpm.image, oid, chain)
      ensures old(chain) <= chain && |chain| <= old(|chain|) + 1
      ensures meta.lastTableDataPageId == old(meta.lastTableDataPageId) + (|chain| - old(|chain|))
      ensures r.TooLarge? ==> |tuple| > P.MAX_TUPLE_SIZE
      ensures |tuple| > P.MAX_TUPLE_SIZE ==> !r.Inserted?
      ensures r.Inserted? ==> Rows() == old(Rows()) + [Entry(r.rid, P.Row(deleted, tuple))]
      ensures r.Inserted? ==> r.rid.page == Last(chain) && meta.tupleCount == old(meta.tupleCount) + 1
      ensures !r.Inserted? ==> Rows() == old(Rows()) && meta.tupleCount == old(meta.tupleCount)
      ensures r.NoFrame? ==> bpm.image.pages == old(bpm.image.pages) && chain == old(chain)
      ensures r.NoFrame? ==> old(bpm.Spares()) == 0 && bpm.Spares() < 2
      ensures r.Inserted? ==> (|chain| == old(|chain|) <==> old(Fits(bpm.image, Key(oid, Last(chain)), |tuple|)))
      ensures r.Inserted? ==>
        r.rid.slot == if |chain| == old(|chain|) then |old(PageRows(bpm.image, Key(oid, Last(chain))))| else 0
    {
      hide Shows, Sound, Known, HeapOk, HeapLog, OneMorePin, OthersKept, PageRows, IsTablePage, Bounded, Fits, SamePins;
      var room, tooLarge := MakeRoom(g, tuple, was);
      if !room {
        ghost var im := bpm.image;
        LetGo(was, im, g.page.value, g.wrote);
        g.Drop();
        PagesDecide(im, bpm.image, oid, chain, meta.lastTableDataPageId);
        return if tooLarge then TooLarge else NoFrame;
      }
      var slot := PutAndDrop(g, deleted, tuple, was, old(bpm.image));
      return Inserted(Rid(meta.lastTableHeapDataPageId, slot));
    }

    /** The row goes into the last page, and the guard is dropped. */
    method PutAndDrop(g: PageGuard, deleted: bool, tuple: seq<byte>, ghost was: Image, ghost im0: Image)
      returns (slot: nat)
      requires Valid() && g.bpm == bpm && g.Holds() && g.latch == WriteLatch && g.page == Some(Key(oid, Last(chain)))
      requires OnlyLatched(bpm.latches, g.page.value) && OneMorePin(was, bpm.image, g.page.value, g.wrote)
      requires 0 < |tuple| <= PAGE_SIZE - P.TABLE_PAGE_HEADER_SIZE && Fits(bpm.image, g.page.value, |tuple|)
      requires OthersKept(im0, bpm.image, oid, chain)
      modifies g, bpm`image, bpm`latches, bpm.pool`s, bpm.pool.replacer, meta`tupleCount
      ensures Valid() && Idle(bpm.latches) && SamePins(was, bpm.image) && OthersKept(im0, bpm.image, oid, chain)
      ensures Rows() == old(Rows()) + [Entry(Rid(Last(chain), slot), P.Row(deleted, tuple))]
      ensures slot == |old(PageRows(bpm.image, Key(oid, Last(chain))))|
      ensures meta.tupleCount == old(meta.tupleCount) + 1
    {
      hide Shows, Sound, Known, HeapOk, HeapLog, OneMorePin, OthersKept, PageRows, IsTablePage, Bounded, Fits, SamePins;
      hide IsAppended, Idle, OnlyLatched, Stored, Unpinned;
      ghost var wrote, im := g.wrote, bpm.image;
      ghost var b;
      OneLatchFreed(bpm.latches, g.page.value);
      slot, b := PutTuple(g, deleted, tuple);
      AppendedSlot(im, Key(oid, Last(chain)), b, slot, P.Row(deleted, tuple));
      TupleAddedIs(was, im0, im, oid, chain, meta.lastTableDataPageId, wrote, b, slot, P.Row(deleted, tuple));
      g.Drop();
      meta.tupleCount := meta.tupleCount + 1;
    }

    /** Reads a row back. */
    method GetTuple(rid: Rid) returns (r: ReadResult)
      requires Valid() && Idle(bpm.latches) && PageOk(bpm.image.pages, oid, rid.page)
      modifies bpm`image, bpm`latches, bpm.pool`s, bpm.pool.replacer, bpm.pool.disk
      ensures Valid() && Idle(bpm.latches) && SamePins(old(bpm.image), bpm.image)
      ensures bpm.image.pages == old(bpm.image.pages) && Rows() == old(Rows())
      ensures r.Found? ==> rid.slot < |PageRows(bpm.image, Key(oid, rid.page))|
                           && r.row == PageRows(bpm.image, Key(oid, rid.page))[rid.slot]
      ensures r.OutOfRange? ==> rid.slot >= |PageRows(bpm.image, Key(oid, rid.page))|
      ensures r.Unread? ==> old(bpm.Spares()) == bpm.Spares() == 0
      ensures old(Roomy(bpm.image)) ==> Roomy(bpm.image) && !r.Unread?
    {
      hide Shows, Sound, Known, HeapOk, HeapLog, Bounded, SamePins, Roomy;
      ghost var was := bpm.image;
      RoomyServes(bpm);
      var b := Peek(bpm, Key(oid, rid.page));
      RoomyStays(was, bpm.image);
      PagesDecide(was, bpm.image, oid, chain, meta.lastTableDataPageId);
      if b.None? {
        return Unread;
      }
      var page := new P.TablePage(b.value);
      var row := page.GetTuple(rid.slot);
      return if row.Some? then Found(row.value) else OutOfRange;
    }
  }

  lemma OneLatchFreed(l: Latches, k: PageKey)
    requires OnlyLatched(l, k)
    ensures Idle(Unlatched(l, k, WriteLatch))
  {}

  lemma LatchGivenBack(l: Latches, k: PageKey)
    requires Idle(l)
    ensures Idle(Unlatched(Latched(l, k, ReadLatch), k, ReadLatch))
  {
    var m := Unlatched(Latched(l, k, ReadLatch), k, ReadLatch);
    forall q ensures Count(m.reading, q) == 0 {
      assert Count(l.reading, q) == 0 && Count(l.reading, k) == 0;
    }
  }

  datatype ReadResult =
    | Found(row: P.Row)
    /** The exception: no such slot. */
    | OutOfRange
    /** The exception: no frame to be had. */
    | Unread

  /** Fetches a page under a read guard, reads it and drops the guard. */
  method Peek(bpm: GuardedPool, k: PageKey) returns (b: Option<Block>)
    requires bpm.Valid() && Idle(bpm.latches) && k in bpm.image.pages && k.number != INVALID_PAGE_ID
    modifies bpm`image, bpm`latches, bpm.pool`s, bpm.pool.replacer, bpm.pool.disk
    ensures bpm.Valid() && Idle(bpm.latches) && SamePins(old(bpm.image), bpm.image)
    ensures bpm.image.pages == old(bpm.image.pages)
    ensures b.Some? ==> b.value == bpm.image.pages[k]
    ensures b.None? ==> old(bpm.Spares()) == bpm.Spares() == 0
  {
    hide Shows, Sound, Known;
    var g := FetchGuard(bpm, k, ReadLatch);
    if g == null {
      return None;
    }
    var data := g.As();
    g.Drop();
    LatchGivenBack(old(bpm.latches), k);
    return Some(data);
  }

  lemma KeptInLonger(was: Image, im: Image, t: int, c: seq<int>, chain: seq<int>)
    requires OthersKept(was, im, t, c) && c <= chain
    ensures OthersKept(was, im, t, chain)
  {}
}
