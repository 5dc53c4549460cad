/** The slotted page: a slot directory growing from the front, tuples packed from the end. */
module TablePages {
  import opened Bytes
  import opened Ids

  const TABLE_PAGE_HEADER_SIZE: nat := 8
  const TUPLE_INFO_SIZE: nat := 6

  /** The largest tuple an empty page takes. */
  const MAX_TUPLE_SIZE: nat := PAGE_SIZE - TABLE_PAGE_HEADER_SIZE - TUPLE_INFO_SIZE

  /** One slot: where the tuple is, how long it is, whether it was marked deleted. */
  datatype Slot = Slot(offset: nat, size: nat, deleted: bool)

  /** What a slot holds. */
  datatype Row = Row(deleted: bool, bytes: seq<byte>)

  // ---------- reading the bytes ----------

  function NumAt(b: seq<byte>, o: nat, w: nat): nat
    requires o + w <= |b|
  {
    UnLe(b[o..o + w])
  }

  function NumTuples(b: Block): nat { NumAt(b, 4, 2) }

  function NumDeleted(b: Block): nat { NumAt(b, 6, 2) }

  function NextPageId(b: Block): int {
    LeOfUnLe(b[0..4]);
    Unsigned(NumAt(b, 0, 4), 4)
  }

  function SlotPos(i: nat): nat { TABLE_PAGE_HEADER_SIZE + TUPLE_INFO_SIZE * i }

  function SlotAt(b: Block, i: nat): Slot
    requires SlotPos(i + 1) <= PAGE_SIZE
  {
    Slot(NumAt(b, SlotPos(i), 2), NumAt(b, SlotPos(i) + 2, 2), b[SlotPos(i) + 4] != 0)
  }

  function Slots(b: Block): (s: seq<Slot>)
    requires SlotPos(NumTuples(b)) <= PAGE_SIZE
    ensures |s| == NumTuples(b)
  {
    seq(NumTuples(b), i requires 0 <= i < NumTuples(b) => SlotAt(b, i))
  }

  // ---------- the shape of the directory ----------

  /** Where the tuple area begins once the first `i` tuples are in. */
  function EndOf(s: seq<Slot>, i: nat): nat
    requires i <= |s|
  {
    if i == 0 then PAGE_SIZE else s[i - 1].offset
  }

  /** Each tuple ends exactly where the one before it begins, the first one at the end of the page. */
  ghost predicate Packed(s: seq<Slot>) {
    forall i {:trigger PackedAt(s, i)} :: 0 <= i < |s| ==> PackedAt(s, i)
  }

  ghost predicate PackedAt(s: seq<Slot>, i: nat)
    requires i < |s|
  {
    s[i].size > 0 && s[i].offset + s[i].size == EndOf(s, i)
  }

  ghost predicate Valid(b: Block) {
    && SlotPos(NumTuples(b)) <= PAGE_SIZE
    && SlotPos(NumTuples(b)) <= EndOf(Slots(b), NumTuples(b))
    && Packed(Slots(b))
  }

  /** The bytes the first `n` tuples take together. */
  ghost function DataSize(s: seq<Slot>): nat {
    if s == [] then 0 else DataSize(s[..|s| - 1]) + s[|s| - 1].size
  }

  /** Tuple extents descend: a later tuple lies wholly before an earlier one, so no two overlap. */
  lemma {:induction false} ExtentsDescend(s: seq<Slot>, i: nat, j: nat)
    requires Packed(s) && i < j < |s|
    ensures s[j].offset + s[j].size <= s[i].offset
  {
    assert PackedAt(s, j);
    if i + 1 < j {
      ExtentsDescend(s, i, j - 1);
      assert PackedAt(s, j - 1);
    }
  }

  /** The tuple area is exactly the tuples: no gap anywhere. */
  lemma {:induction false} DataFillsTheEnd(s: seq<Slot>)
    requires Packed(s)
    ensures EndOf(s, |s|) == PAGE_SIZE - DataSize(s)
  {
    if s != [] {
      var t := s[..|s| - 1];
      assert PackedAt(s, |s| - 1);
      forall i | 0 <= i < |t| ensures PackedAt(t, i) {
        assert PackedAt(s, i);
      }
      DataFillsTheEnd(t);
    }
  }

  /** Every tuple lies inside the page, behind everything added after it. */
  lemma ExtentInside(s: seq<Slot>, i: nat)
    requires Packed(s) && i < |s|
    ensures EndOf(s, |s|) <= s[i].offset && s[i].offset + s[i].size <= PAGE_SIZE
  {
    assert PackedAt(s, i) && PackedAt(s, |s| - 1) && PackedAt(s, 0);
    if i + 1 < |s| {
      ExtentsDescend(s, i, |s| - 1);
    }
    if i > 0 {
      ExtentsDescend(s, 0, i);
    }
  }

  function RowAt(b: Block, i: nat): Row
    requires Valid(b) && i < NumTuples(b)
  {
    var t := Slots(b)[i];
    ExtentInside(Slots(b), i);
    Row(t.deleted, b[t.offset..t.offset + t.size])
  }

  function Rows(b: Block): (r: seq<Row>)
    requires Valid(b)
    ensures |r| == NumTuples(b)
  {
    seq(NumTuples(b), i requires 0 <= i < NumTuples(b) => RowAt(b, i))
  }

  /** The bytes of all rows together. */
  function BytesOf(rows: seq<Row>): nat {
    if rows == [] then 0 else BytesOf(rows[..|rows| - 1]) + |rows[|rows| - 1].bytes|
  }

  lemma {:induction false} SumsAgree(s: seq<Slot>, rows: seq<Row>)
    requires |s| == |rows| && forall i :: 0 <= i < |s| ==> s[i].size == |rows[i].bytes|
    ensures DataSize(s) == BytesOf(rows)
  {
    if s != [] { SumsAgree(s[..|s| - 1], rows[..|rows| - 1]); }
  }

  lemma DataIsRows(b: Block)
    requires Valid(b)
    ensures DataSize(Slots(b)) == BytesOf(Rows(b))
  {
    forall i | 0 <= i < NumTuples(b) ensures Slots(b)[i].size == |Rows(b)[i].bytes| {
      ExtentInside(Slots(b), i);
    }
    SumsAgree(Slots(b), Rows(b));
  }

  /** Rows of one size. */
  lemma {:induction false} BytesOfSame(rows: seq<Row>, size: nat)
    requires forall i :: 0 <= i < |rows| ==> |rows[i].bytes| == size
    ensures BytesOf(rows) == |rows| * size
  {
    if rows != [] {
      BytesOfSame(rows[..|rows| - 1], size);
      assert |rows| * size == (|rows| - 1) * size + size;
    }
  }

  /** The page in plain numbers: the id of the next page in four bytes, two for the number of rows and two for those
      deleted, and six for each row: where its bytes are, how many, and whether it was deleted. */
  lemma PageLayout(b: Block, k: nat)
    requires Valid(b) && k < |Rows(b)|
    ensures var next := b[0] as nat + 0x100 * b[1] as nat + 0x1_0000 * b[2] as nat + 0x100_0000 * b[3] as nat;
      NextPageId(b) == if next < 0x8000_0000 then next else next - 0x1_0000_0000
    ensures |Rows(b)| == b[4] as nat + 0x100 * b[5] as nat && NumDeleted(b) == b[6] as nat + 0x100 * b[7] as nat
    ensures 8 + 6 * (k + 1) <= 4096
    ensures var (p, row) := (8 + 6 * k, Rows(b)[k]);
      var (o, n) := (b[p] as nat + 0x100 * b[p + 1] as nat, b[p + 2] as nat + 0x100 * b[p + 3] as nat);
      && o + n <= 4096 && row.bytes == b[o..o + n] && (row.deleted <==> b[p + 4] != 0)
  {
    hide UnLe;
    Widths();
    ReadLowFirst(b[0..4]);
    ReadLowFirst(b[4..6]);
    ReadLowFirst(b[6..8]);
    var p := SlotPos(k);
    assert SlotPos(k + 1) <= SlotPos(NumTuples(b)) by { assert k + 1 <= NumTuples(b); }
    ReadLowFirst(b[p..p + 2]);
    ReadLowFirst(b[p + 2..p + 4]);
    ExtentInside(Slots(b), k);
  }

  // ---------- how writes show ----------

  lemma HeaderIs(b: Block, c: Block)
    requires forall p, q {:trigger c[p..q]} :: 4 <= p <= q <= PAGE_SIZE ==> c[p..q] == b[p..q]
    requires forall p :: 4 <= p < PAGE_SIZE ==> c[p] == b[p]
    requires Valid(b)
    ensures Valid(c) && Rows(c) == Rows(b) && NumDeleted(c) == NumDeleted(b)
  {
    hide UnLe, Packed;
    assert NumTuples(c) == NumTuples(b);
    assert Slots(c) == Slots(b) by {
      forall i | 0 <= i < NumTuples(b) ensures SlotAt(c, i) == SlotAt(b, i) {}
    }
    forall i | 0 <= i < NumTuples(b) ensures RowAt(c, i) == RowAt(b, i) {
      ExtentInside(Slots(b), i);
    }
  }

  /** The directory entry as bytes; the sixth byte of a slot is padding. */
  function SlotBytes(offset: nat, size: nat, deleted: bool): (s: seq<byte>)
    ensures |s| == 5
  {
    Le(offset, 2) + Le(size, 2) + [if deleted then 1 else 0]
  }

  lemma SlotBytesRead(c: Block, i: nat, offset: nat, size: nat, deleted: bool)
    requires SlotPos(i + 1) <= PAGE_SIZE && offset < PAGE_SIZE && size <= PAGE_SIZE
    requires c[SlotPos(i)..SlotPos(i) + 5] == SlotBytes(offset, size, deleted)
    ensures SlotAt(c, i) == Slot(offset, size, deleted)
  {
    hide Le, UnLe;
    Widths();
    UnLeOfLe(offset, 2);
    UnLeOfLe(size, 2);
    var p, e := SlotPos(i), SlotBytes(offset, size, deleted);
    var (a, b) := (Le(offset, 2), Le(size, 2));
    assert e == a + b + [if deleted then 1 else 0];
    assert forall j :: 0 <= j < 5 ==> c[p + j] == c[p..p + 5][j] == e[j];
    assert c[p..p + 2] == [e[0], e[1]] == a;
    assert c[p + 2..p + 4] == [e[2], e[3]] == b;
  }

  /** The bytes after a tuple was pushed: slot, count, tuple. */
  function Pushed(b: Block, offset: nat, deleted: bool, tuple: seq<byte>): Block
    requires Valid(b) && SlotPos(NumTuples(b) + 1) <= offset && offset + |tuple| <= PAGE_SIZE
  {
    var n := NumTuples(b);
    Splice(Splice(Splice(b, SlotPos(n), SlotBytes(offset, |tuple|, deleted)), 4, Le(n + 1, 2)), offset, tuple)
  }

  lemma PushedBytes(b: Block, offset: nat, deleted: bool, tuple: seq<byte>)
    requires Valid(b) && SlotPos(NumTuples(b) + 1) <= offset && offset + |tuple| <= PAGE_SIZE && |tuple| > 0
    ensures var (c, n) := (Pushed(b, offset, deleted, tuple), NumTuples(b));
      && NumTuples(c) == n + 1 && NextPageId(c) == NextPageId(b) && NumDeleted(c) == NumDeleted(b)
      && SlotAt(c, n) == Slot(offset, |tuple|, deleted)
      && c[offset..offset + |tuple|] == tuple
      && (forall p, q {:trigger c[p..q]} :: 8 <= p <= q <= SlotPos(n) || offset + |tuple| <= p <= q <= PAGE_SIZE
           ==> c[p..q] == b[p..q])
  {
    hide Packed, UnLe, Le, SlotBytes;
    var n := NumTuples(b);
    Widths();
    UnLeOfLe(n + 1, 2);
    var c1 := Splice(b, SlotPos(n), SlotBytes(offset, |tuple|, deleted));
    var c2 := Splice(c1, 4, Le(n + 1, 2));
    var c := Splice(c2, offset, tuple);
    assert c[4..6] == c2[4..6];
    assert c[0..4] == c2[0..4] == c1[0..4];
    assert c[6..8] == c2[6..8] == c1[6..8];
    var m := SlotPos(n);
    assert c[m..m + 5] == c2[m..m + 5] == c1[m..m + 5];
    SlotBytesRead(c, n, offset, |tuple|, deleted);
    forall p, q {:trigger c[p..q]} | 8 <= p <= q <= SlotPos(n) || offset + |tuple| <= p <= q <= PAGE_SIZE
      ensures c[p..q] == b[p..q]
    {
      assert c[p..q] == c2[p..q] == c1[p..q];
    }
  }

  lemma PushedFlag(b: Block, offset: nat, deleted: bool, tuple: seq<byte>)
    requires Valid(b) && SlotPos(NumTuples(b) + 1) <= offset && offset + |tuple| <= PAGE_SIZE
    ensures FlagShown(Pushed(b, offset, deleted, tuple), NumTuples(b), deleted)
  {
    hide Valid, Le;
    var m := SlotPos(NumTuples(b));
    var e := SlotBytes(offset, |tuple|, deleted);
    var c1 := Splice(b, m, e);
    var c2 := Splice(c1, 4, Le(NumTuples(b) + 1, 2));
    var c := Splice(c2, offset, tuple);
    assert c[m..m + 5] == c2[m..m + 5] == c1[m..m + 5] == e;
    assert c[m..m + 5][4] == e[4];
  }

  lemma PackedPush(s: seq<Slot>, t: Slot)
    requires Packed(s) && t.size > 0 && t.offset + t.size == EndOf(s, |s|)
    ensures Packed(s + [t])
  {
    forall i | 0 <= i <= |s| ensures PackedAt(s + [t], i) {
      assert i < |s| ==> PackedAt(s, i);
    }
  }

  /** The slots of `b` show unchanged in `c`. */
  ghost predicate KeepsSlots(b: Block, c: Block)
    requires Valid(b)
  {
    forall i :: 0 <= i < NumTuples(b) ==> SlotAt(c, i) == SlotAt(b, i)
  }

  /** A pushed tuple is the one new row; the rest of the page reads as before. */
  lemma PushedIs(b: Block, offset: nat, deleted: bool, tuple: seq<byte>)
    requires Valid(b) && SlotPos(NumTuples(b) + 1) <= offset == EndOf(Slots(b), NumTuples(b)) - |tuple| && |tuple| > 0
    requires offset + |tuple| <= PAGE_SIZE
    ensures var c := Pushed(b, offset, deleted, tuple);
      && Valid(c) && Slots(c) == Slots(b) + [Slot(offset, |tuple|, deleted)]
      && Rows(c) == Rows(b) + [Row(deleted, tuple)]
      && NextPageId(c) == NextPageId(b) && NumDeleted(c) == NumDeleted(b)
  {
    hide UnLe, Le, SlotBytes, Pushed, Packed;
    var (c, n) := (Pushed(b, offset, deleted, tuple), NumTuples(b));
    PushedBytes(b, offset, deleted, tuple);
    assert KeepsSlots(b, c) by {
      forall i | 0 <= i < n ensures SlotAt(c, i) == SlotAt(b, i) {
        assert c[SlotPos(i) + 4..SlotPos(i) + 5][0] == b[SlotPos(i) + 4..SlotPos(i) + 5][0];
      }
    }
    assert Slots(c) == Slots(b) + [Slot(offset, |tuple|, deleted)];
    PackedPush(Slots(b), Slot(offset, |tuple|, deleted));
    RowsPushed(b, c, offset, deleted, tuple);
  }

  lemma RowsPushed(b: Block, c: Block, offset: nat, deleted: bool, tuple: seq<byte>)
    requires Valid(b) && Valid(c) && Slots(c) == Slots(b) + [Slot(offset, |tuple|, deleted)]
    requires offset + |tuple| == EndOf(Slots(b), NumTuples(b)) <= PAGE_SIZE && c[offset..offset + |tuple|] == tuple
    requires forall p, q {:trigger c[p..q]} :: offset + |tuple| <= p <= q <= PAGE_SIZE ==> c[p..q] == b[p..q]
    ensures Rows(c) == Rows(b) + [Row(deleted, tuple)]
  {
    hide UnLe, Packed, NumTuples;
    forall i | 0 <= i < NumTuples(b) ensures RowAt(c, i) == RowAt(b, i) {
      ExtentInside(Slots(b), i);
      assert Slots(c)[i] == Slots(b)[i];
    }
  }

  /** The flag of a slot is the fifth of its six bytes, a one or a zero. */
  ghost predicate FlagShown(b: Block, k: nat, deleted: bool) {
    8 + 6 * (k + 1) <= 4096 && b[8 + 6 * k + 4] == if deleted then 1 else 0
  }

  /** `c` reads as `b` outside the counter of deleted tuples and the flag of slot `k`. */
  ghost predicate OnlyFlag(b: Block, c: Block, k: nat)
    requires SlotPos(k + 1) <= PAGE_SIZE
  {
    forall p, q {:trigger c[p..q]} ::
      (0 <= p <= q <= 6 || 8 <= p <= q <= SlotPos(k) + 4 || SlotPos(k) + 5 <= p <= q <= PAGE_SIZE) ==>
        c[p..q] == b[p..q]
  }

  /** Changing one deleted flag changes that row's flag and nothing else. */
  lemma FlagIs(b: Block, c: Block, k: nat, deleted: bool)
    requires Valid(b) && k < NumTuples(b) && c[SlotPos(k) + 4..SlotPos(k) + 5] == [if deleted then 1 else 0]
    requires OnlyFlag(b, c, k)
    ensures Valid(c) && Rows(c) == Rows(b)[k := Row(deleted, Rows(b)[k].bytes)]
    ensures NextPageId(c) == NextPageId(b) && DataSize(Slots(c)) == DataSize(Slots(b))
  {
    hide UnLe, Packed;
    var n := NumTuples(b);
    assert NumTuples(c) == n;
    FlagShows(b, c, k, deleted);
    FlagKeepsPacked(Slots(b), Slots(c));
    forall i | 0 <= i < n ensures RowAt(c, i) == Row(Slots(c)[i].deleted, RowAt(b, i).bytes) {
      FlagKeepsBytes(b, c, k, i);
    }
  }

  lemma FlagKeepsBytes(b: Block, c: Block, k: nat, i: nat)
    requires Valid(b) && Valid(c) && k < NumTuples(b) == NumTuples(c) && i < NumTuples(b) && OnlyFlag(b, c, k)
    requires Slots(c)[i].offset == Slots(b)[i].offset && Slots(c)[i].size == Slots(b)[i].size
    ensures RowAt(c, i).bytes == RowAt(b, i).bytes
  {
    hide UnLe, Packed;
    ExtentInside(Slots(b), i);
    EndsBehind(b);
  }

  lemma FlagShows(b: Block, c: Block, k: nat, deleted: bool)
    requires k < NumTuples(b) == NumTuples(c) && SlotPos(NumTuples(b)) <= PAGE_SIZE && OnlyFlag(b, c, k)
    requires c[SlotPos(k) + 4..SlotPos(k) + 5] == [if deleted then 1 else 0]
    ensures forall i :: 0 <= i < NumTuples(b) ==>
      SlotAt(c, i) == if i == k then SlotAt(b, i).(deleted := deleted) else SlotAt(b, i)
  {
    hide UnLe;
    forall i | 0 <= i < NumTuples(b)
      ensures SlotAt(c, i) == if i == k then SlotAt(b, i).(deleted := deleted) else SlotAt(b, i)
    {
      var m := SlotPos(i) + 4;
      assert i != k ==> c[m..m + 1][0] == b[m..m + 1][0];
      assert i == k ==> c[m..m + 1][0] == if deleted then 1 else 0;
      assert c[SlotPos(i)..SlotPos(i) + 2] == b[SlotPos(i)..SlotPos(i) + 2];
      assert c[SlotPos(i) + 2..m] == b[SlotPos(i) + 2..m];
    }
  }

  /** Counting, if it is a first deletion, and then setting the flag. */
  lemma UpdatedIs(b: Block, c: Block, d: Block, k: nat, deleted: bool)
    requires Valid(b) && k < NumTuples(b)
    requires c == if deleted && !SlotAt(b, k).deleted then Splice(b, 6, Le(NumDeleted(b) + 1, 2)) else b
    requires d == Splice(c, SlotPos(k) + 4, [if deleted then 1 else 0])
    ensures Valid(d) && Rows(d) == Rows(b)[k := Row(deleted, Rows(b)[k].bytes)] && NextPageId(d) == NextPageId(b)
    ensures NumDeleted(d) == (NumDeleted(b) + if deleted && !Rows(b)[k].deleted then 1 else 0) % 0x1_0000
  {
    hide UnLe, Packed;
    CountShows(b, c, k, deleted);
    assert d[6..8] == c[6..8];
    assert OnlyFlag(b, d, k) by {
      forall p, q {:trigger d[p..q]} | 0 <= p <= q <= 6 || 8 <= p <= q <= SlotPos(k) + 4
                                         || SlotPos(k) + 5 <= p <= q <= PAGE_SIZE
        ensures d[p..q] == b[p..q]
      {
        assert d[p..q] == c[p..q] == b[p..q];
      }
    }
    FlagIs(b, d, k, deleted);
  }

  lemma FlagByte(c: Block, d: Block, k: nat, deleted: bool)
    requires SlotPos(k + 1) <= PAGE_SIZE && d == Splice(c, SlotPos(k) + 4, [if deleted then 1 else 0])
    ensures FlagShown(d, k, deleted)
  {
    assert d[SlotPos(k) + 4..SlotPos(k) + 5][0] == d[SlotPos(k) + 4];
  }

  lemma CountShows(b: Block, c: Block, k: nat, deleted: bool)
    requires SlotPos(k + 1) <= PAGE_SIZE
    requires c == if deleted && !SlotAt(b, k).deleted then Splice(b, 6, Le(NumDeleted(b) + 1, 2)) else b
    ensures NumDeleted(c) == (NumDeleted(b) + if deleted && !SlotAt(b, k).deleted then 1 else 0) % 0x1_0000
    ensures forall p, q {:trigger c[p..q]} :: 0 <= p <= q <= 6 || 8 <= p <= q <= PAGE_SIZE ==> c[p..q] == b[p..q]
  {
    hide UnLe;
    LeOfUnLe(b[6..8]);
    Widths();
    LeTruncates(NumDeleted(b) + 1, 2);
  }

  lemma EndsBehind(b: Block)
    requires Valid(b)
    ensures SlotPos(NumTuples(b)) <= EndOf(Slots(b), NumTuples(b))
  {}

  lemma FlagKeepsPacked(s: seq<Slot>, t: seq<Slot>)
    requires |s| == |t| && Packed(s)
    requires forall i :: 0 <= i < |s| ==> t[i].offset == s[i].offset && t[i].size == s[i].size
    ensures Packed(t) && EndOf(t, |t|) == EndOf(s, |s|) && DataSize(t) == DataSize(s)
  {
    forall i | 0 <= i < |t| ensures PackedAt(t, i) {
      assert PackedAt(s, i);
    }
    DataFillsTheEnd(s);
    DataFillsTheEnd(t);
  }

  // ---------- the page, changed in place ----------

  class TablePage {
    const data: array<byte>

    constructor (b: Block)
      ensures fresh(data) && Sized() && B() == b
    {
      data := new byte[PAGE_SIZE](i requires 0 <= i < PAGE_SIZE => b[i]);
      new;
      assert data[..] == b;
    }

    predicate Sized() { data.Length == PAGE_SIZE }

    function B(): Block
      requires Sized()
      reads data
    {
      data[..]
    }

    /** Whatever the page held before. */
    method Init()
      requires Sized()
      modifies data
      ensures Valid(B()) && Rows(B()) == [] && NextPageId(B()) == INVALID_PAGE_ID == -1 && NumDeleted(B()) == 0
    {
      Widths();
      UnLeOfLe(Signed(INVALID_PAGE_ID, 4), 4);
      UnLeOfLe(0, 2);
      CopyInto(data, 0, Le(Signed(INVALID_PAGE_ID, 4), 4));
      ghost var c1 := B();
      CopyInto(data, 4, Le(0, 2));
      ghost var c2 := B();
      CopyInto(data, 6, Le(0, 2));
      assert B()[0..4] == c2[0..4] == c1[0..4];
      assert B()[4..6] == c2[4..6];
    }

    method SetNextPageId(id: int)
      requires Sized() && Valid(B()) && -0x8000_0000 <= id < 0x8000_0000
      modifies data
      ensures Valid(B()) && Rows(B()) == old(Rows(B())) && NextPageId(B()) == id
      ensures NumDeleted(B()) == old(NumDeleted(B()))
    {
      Widths();
      UnLeOfLe(Signed(id, 4), 4);
      ghost var b := B();
      CopyInto(data, 0, Le(Signed(id, 4), 4));
      HeaderIs(b, B());
    }

    /** Refused exactly if the directory and the data, each with this tuple, would not fit the page together. */
    method GetNextTupleOffset(tuple: seq<byte>) returns (r: Option<nat>)
      requires Sized() && Valid(B()) && 0 < |tuple| <= PAGE_SIZE - TABLE_PAGE_HEADER_SIZE
      ensures r.None? <==> !Fits(B(), |tuple|)
      ensures r.None? <==> 8 + 6 * (|Rows(B())| + 1) + BytesOf(Rows(B())) + |tuple| > 4096
      ensures r.Some? ==> r.value == 4096 - BytesOf(Rows(B())) - |tuple|
      ensures r.Some? ==> SlotPos(NumTuples(B()) + 1) <= r.value == EndOf(Slots(B()), NumTuples(B())) - |tuple|
    {
      DataIsRows(B());
      var n := NumTuples(B());
      DataFillsTheEnd(Slots(B()));
      var end := if n > 0 then SlotAt(B(), n - 1).offset else PAGE_SIZE;
      assert end >= TABLE_PAGE_HEADER_SIZE;
      if |tuple| > end {
        return None;
      }
      var offset := end - |tuple|;
      if offset < TABLE_PAGE_HEADER_SIZE + TUPLE_INFO_SIZE * (n + 1) {
        return None;
      }
      assert TABLE_PAGE_HEADER_SIZE <= offset < PAGE_SIZE;
      return Some(offset);
    }

    method InsertTuple(deleted: bool, tuple: seq<byte>) returns (r: Option<nat>)
      requires Sized() && Valid(B()) && 0 < |tuple| <= PAGE_SIZE - TABLE_PAGE_HEADER_SIZE
      modifies data
      ensures Valid(B()) && NextPageId(B()) == old(NextPageId(B())) && NumDeleted(B()) == old(NumDeleted(B()))
      ensures r.None? <==> !old(Fits(B(), |tuple|))
      ensures r.None? <==> 8 + 6 * (old(|Rows(B())|) + 1) + BytesOf(old(Rows(B()))) + |tuple| > 4096
      ensures r.None? ==> B() == old(B())
      ensures r.Some? ==> r.value == old(NumTuples(B())) && Rows(B()) == old(Rows(B())) + [Row(deleted, tuple)]
      ensures r.Some? ==> FlagShown(B(), r.value, deleted)
    {
      hide UnLe, Packed, DataSize, FlagShown;
      ghost var b := B();
      var offset := GetNextTupleOffset(tuple);
      if offset.None? {
        return None;
      }
      var n := NumTuples(B());
      ExtentEnds(b);
      CopyInto(data, SlotPos(n), SlotBytes(offset.value, |tuple|, deleted));
      CopyInto(data, 4, Le(n + 1, 2));
      CopyInto(data, offset.value, tuple);
      assert B() == Pushed(b, offset.value, deleted, tuple);
      PushedIs(b, offset.value, deleted, tuple);
      PushedFlag(b, offset.value, deleted, tuple);
      return Some(n);
    }

    /** None stands for the exception. */
    method GetTuple(slot: nat) returns (r: Option<Row>)
      requires Sized() && Valid(B())
      ensures r == if slot < NumTuples(B()) then Some(Rows(B())[slot]) else None
    {
      if slot >= NumTuples(B()) {
        return None;
      }
      ExtentInside(Slots(B()), slot);
      var t := SlotAt(B(), slot);
      return Some(Row(t.deleted, data[t.offset..t.offset + t.size]));
    }

    /** False stands for the exception. The counter of deleted tuples only ever goes up, modulo its sixteen bits. */
    method UpdateTupleMeta(slot: nat, deleted: bool) returns (ok: bool)
      requires Sized() && Valid(B())
      modifies data
      ensures Valid(B()) && NextPageId(B()) == old(NextPageId(B()))
      ensures ok <==> slot < old(NumTuples(B()))
      ensures !ok ==> B() == old(B())
      ensures ok ==> Rows(B()) == old(Rows(B()))[slot := Row(deleted, old(Rows(B()))[slot].bytes)]
      ensures ok ==> FlagShown(B(), slot, deleted)
      ensures ok ==>
        NumDeleted(B()) == (old(NumDeleted(B())) + if deleted && !old(Rows(B()))[slot].deleted then 1 else 0) % 0x1_0000
    {
      hide UnLe, Packed, FlagShown;
      if slot >= NumTuples(B()) {
        return false;
      }
      ghost var b := B();
      if deleted && !SlotAt(B(), slot).deleted {
        CopyInto(data, 6, Le(NumDeleted(B()) + 1, 2));
      }
      ghost var c := B();
      CopyInto(data, SlotPos(slot) + 4, [if deleted then 1 else 0]);
      UpdatedIs(b, c, B(), slot, deleted);
      FlagByte(c, B(), slot, deleted);
      return true;
    }
  }

  /** A page takes so many tuples of one size and no more: each costs its bytes and six, behind a header of eight. */
  method FillPage(page: TablePage, tuple: seq<byte>) returns (n: nat)
    requires page.Sized() && Valid(page.B()) && Rows(page.B()) == [] && 0 < |tuple| <= 4088
    modifies page.data
    ensures Valid(page.B()) && Rows(page.B()) == seq(n, _ => Row(false, tuple))
    ensures n == 4088 / (6 + |tuple|)
  {
    hide Valid, Fits, BytesOf;
    n := 0;
    while true
      invariant page.Sized() && Valid(page.B()) && Rows(page.B()) == seq(n, _ => Row(false, tuple))
      invariant n * (6 + |tuple|) <= 4088
      decreases 4088 - n
    {
      BytesOfSame(Rows(page.B()), |tuple|);
      CostOf(n, |tuple|);
      var r := page.InsertTuple(false, tuple);
      if r.None? {
        CountIs(n, 6 + |tuple|);
        return;
      }
      assert seq(n, _ => Row(false, tuple)) + [Row(false, tuple)] == seq(n + 1, _ => Row(false, tuple));
      n := n + 1;
      CostOf(n, |tuple|);
    }
  }

  lemma CountIs(n: nat, cost: nat)
    requires cost > 0 && n * cost <= 4088 < (n + 1) * cost
    ensures n == 4088 / cost
  {
    var q, m := 4088 / cost, 4088 % cost;
    assert 4088 == q * cost + m;
    Times(n + 1, q, cost);
    Times(q + 1, n, cost);
  }

  lemma Times(a: nat, b: nat, c: nat)
    ensures a <= b ==> a * c <= b * c
  {}

  lemma CostOf(n: nat, size: nat)
    ensures n * (6 + size) == 6 * n + n * size && (n + 1) * (6 + size) == 6 * (n + 1) + n * size + size
    ensures n <= n * (6 + size)
  {}

  /** A tuple of `size` bytes fits: directory and data, each with it, stay within the page. */
  ghost predicate Fits(b: Block, size: nat)
    requires Valid(b)
  {
    SlotPos(NumTuples(b) + 1) + DataSize(Slots(b)) + size <= PAGE_SIZE
  }

  lemma ExtentEnds(b: Block)
    requires Valid(b)
    ensures EndOf(Slots(b), NumTuples(b)) <= PAGE_SIZE
  {
    if NumTuples(b) > 0 {
      ExtentInside(Slots(b), NumTuples(b) - 1);
    }
  }
}
