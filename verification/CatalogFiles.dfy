/** The files of the catalog byte by byte, and what loading them gives back. */
module CatalogFiles {
  import opened Bytes
  import opened Serialization
  import opened Serializers
  import opened Catalogs

  datatype ColumnInfo = ColumnInfo(name: seq<byte>, typeId: nat, length: nat, offset: nat)

  datatype SchemaInfo = SchemaInfo(columns: seq<ColumnInfo>, strings: seq<nat>, inlineSize: nat)

  datatype TableInfo =
    TableInfo(name: seq<byte>, oid: int, schema: SchemaInfo, lastPage: int, lastHeapPage: int, tuples: nat)

  datatype IndexInfo = IndexInfo(name: seq<byte>, tableId: int, key: ColumnInfo, id: int, constraint: nat,
                                 headerPage: int, kind: int)

  /** Entries of the catalog's maps, in the order they are walked. */
  datatype Numbered<T> = Numbered(id: int, what: T)

  datatype Named<T> = Named(name: seq<byte>, what: T)

  datatype CatalogInfo = CatalogInfo(tables: seq<Numbered<TableInfo>>, tableNames: seq<Named<int>>,
                                     indexes: seq<Numbered<IndexInfo>>, indexNames: seq<Named<seq<Named<int>>>>,
                                     magic: seq<byte>)

  // ---------- ranges ----------

  predicate IsInt(n: int) { -0x8000_0000 <= n < 0x8000_0000 }

  predicate IsWord(n: int) { 0 <= n < 0x1_0000_0000 }

  predicate IsText(s: seq<byte>) { |s| < 0x1_0000_0000 }

  predicate ColumnFine(c: ColumnInfo) { IsText(c.name) && c.typeId < 0x100 && IsWord(c.length) && IsWord(c.offset) }

  predicate SchemaFine(s: SchemaInfo) {
    && |s.columns| < 0x1_0000_0000_0000_0000 && (forall c :: c in s.columns ==> ColumnFine(c))
    && |s.strings| < 0x1_0000_0000_0000_0000 && (forall n :: n in s.strings ==> IsWord(n))
    && IsWord(s.inlineSize)
  }

  predicate TableFine(t: TableInfo) {
    && IsText(t.name) && IsInt(t.oid) && SchemaFine(t.schema) && IsInt(t.lastPage) && IsInt(t.lastHeapPage)
    && t.tuples < 0x1_0000_0000_0000_0000
  }

  predicate IndexFine(x: IndexInfo) {
    && IsText(x.name) && IsInt(x.tableId) && ColumnFine(x.key) && IsInt(x.id) && x.constraint < 0x100
    && IsInt(x.headerPage) && IsInt(x.kind)
  }

  predicate FitsCount(n: nat) { n < 0x1_0000_0000_0000_0000 }

  ghost predicate NamesFine(ns: seq<Named<int>>) {
    && FitsCount(|ns|) && (forall n :: n in ns ==> IsText(n.name) && IsInt(n.what))
    && forall i, j :: 0 <= i < j < |ns| ==> ns[i].name != ns[j].name
  }

  ghost predicate CatalogFine(c: CatalogInfo) {
    && FitsCount(|c.tables|) && (forall t :: t in c.tables ==> IsInt(t.id) && TableFine(t.what))
    && (forall i, j :: 0 <= i < j < |c.tables| ==> c.tables[i].id != c.tables[j].id)
    && NamesFine(c.tableNames)
    && FitsCount(|c.indexes|) && (forall x :: x in c.indexes ==> IsInt(x.id) && IndexFine(x.what))
    && (forall i, j :: 0 <= i < j < |c.indexes| ==> c.indexes[i].id != c.indexes[j].id)
    && FitsCount(|c.indexNames|) && (forall n :: n in c.indexNames ==> IsText(n.name) && NamesFine(n.what))
    && (forall i, j :: 0 <= i < j < |c.indexNames| ==> c.indexNames[i].name != c.indexNames[j].name)
    && IsText(c.magic)
  }

  // ---------- the bytes ----------

  /** Four bytes, low byte first; a negative number as its distance below 2^32. */
  function Word(n: int): (s: seq<byte>)
    requires -0x8000_0000 <= n < 0x1_0000_0000
    ensures |s| == 4
  {
    var u: nat := if n < 0 then n + 0x1_0000_0000 else n;
    [(u % 256) as byte, (u / 256 % 256) as byte, (u / 256 / 256 % 256) as byte, (u / 256 / 256 / 256 % 256) as byte]
  }

  /** Eight bytes, low byte first. */
  function Long(n: nat): (s: seq<byte>)
    requires n < 0x1_0000_0000_0000_0000
    ensures |s| == 8
  {
    Word(n % 0x1_0000_0000) + Word(n / 0x1_0000_0000)
  }

  function Chars(s: seq<byte>): seq<byte>
    requires IsText(s)
  {
    Word(|s|) + s
  }

  function ColumnBytes(c: ColumnInfo): seq<byte>
    requires ColumnFine(c)
  {
    ([100, 0] + Chars(c.name)
     + ([101, 0] + [c.typeId as byte]
        + ([102, 0] + Word(c.length)
           + ([103, 0] + Word(c.offset))))) + [0xFF, 0xFF]
  }

  function ColumnsBytes(cs: seq<ColumnInfo>): seq<byte>
    requires forall c :: c in cs ==> ColumnFine(c)
  {
    if cs == [] then [] else ColumnBytes(cs[0]) + ColumnsBytes(cs[1..])
  }

  function WordsBytes(ns: seq<nat>): seq<byte>
    requires forall n :: n in ns ==> IsWord(n)
  {
    if ns == [] then []
    else
      assert IsWord(ns[0]);
      Word(ns[0]) + WordsBytes(ns[1..])
  }

  function SchemaBytes(s: SchemaInfo): seq<byte>
    requires SchemaFine(s)
  {
    ([100, 0] + (Long(|s.columns|) + ColumnsBytes(s.columns))
     + ([101, 0] + (Long(|s.strings|) + WordsBytes(s.strings))
        + ([102, 0] + Word(s.inlineSize)))) + [0xFF, 0xFF]
  }

  /** A table's properties; its own file is these and nothing else. */
  function TableBytes(t: TableInfo): seq<byte>
    requires TableFine(t)
  {
    [100, 0] + Chars(t.name)
    + ([101, 0] + Word(t.oid)
       + ([102, 0] + SchemaBytes(t.schema)
          + ([103, 0] + Word(t.lastPage)
             + ([104, 0] + Word(t.lastHeapPage)
                + ([105, 0] + Long(t.tuples))))))
  }

  function IndexBytes(x: IndexInfo): seq<byte>
    requires IndexFine(x)
  {
    ([100, 0] + Chars(x.name)
     + ([101, 0] + Word(x.tableId)
        + ([102, 0] + ColumnBytes(x.key)
           + ([103, 0] + Word(x.id)
              + ([104, 0] + [x.constraint as byte]
                 + ([105, 0] + Word(x.headerPage)
                    + ([106, 0] + Word(x.kind)))))))) + [0xFF, 0xFF]
  }

  /** Map entries are objects of the key under 0 and the value under 1; the catalog points to its tables. */
  ghost function TablesBytes(ts: seq<Numbered<TableInfo>>): seq<byte>
    requires forall t :: t in ts ==> IsInt(t.id) && TableFine(t.what)
  {
    if ts == [] then []
    else
      assert IsInt(ts[0].id) && TableFine(ts[0].what);
      (([0, 0] + Word(ts[0].id)) + ([1, 0] + ([1] + (TableBytes(ts[0].what) + [0xFF, 0xFF]))) + [0xFF, 0xFF])
      + TablesBytes(ts[1..])
  }

  ghost function NamesBytes(ns: seq<Named<int>>): seq<byte>
    requires forall n :: n in ns ==> IsText(n.name) && IsInt(n.what)
  {
    if ns == [] then []
    else
      assert IsText(ns[0].name) && IsInt(ns[0].what);
      (([0, 0] + Chars(ns[0].name)) + ([1, 0] + Word(ns[0].what)) + [0xFF, 0xFF]) + NamesBytes(ns[1..])
  }

  ghost function IndexesBytes(xs: seq<Numbered<IndexInfo>>): seq<byte>
    requires forall x :: x in xs ==> IsInt(x.id) && IndexFine(x.what)
  {
    if xs == [] then []
    else
      assert IsInt(xs[0].id) && IndexFine(xs[0].what);
      (([0, 0] + Word(xs[0].id)) + ([1, 0] + ([1] + IndexBytes(xs[0].what))) + [0xFF, 0xFF]) + IndexesBytes(xs[1..])
  }

  ghost function IndexNamesBytes(ns: seq<Named<seq<Named<int>>>>): seq<byte>
    requires forall n :: n in ns ==> IsText(n.name) && NamesFine(n.what)
  {
    if ns == [] then []
    else
      assert IsText(ns[0].name) && NamesFine(ns[0].what);
      (([0, 0] + Chars(ns[0].name)) + ([1, 0] + (Long(|ns[0].what|) + NamesBytes(ns[0].what))) + [0xFF, 0xFF])
      + IndexNamesBytes(ns[1..])
  }

  /** The catalog's file: an empty map is left out, the magic bytes never are, and no terminator follows. */
  ghost function CatalogBytes(c: CatalogInfo): seq<byte>
    requires CatalogFine(c)
  {
    (if c.tables == [] then [] else [100, 0] + (Long(|c.tables|) + TablesBytes(c.tables)))
    + ((if c.tableNames == [] then [] else [101, 0] + (Long(|c.tableNames|) + NamesBytes(c.tableNames)))
       + ((if c.indexes == [] then [] else [102, 0] + (Long(|c.indexes|) + IndexesBytes(c.indexes)))
          + ((if c.indexNames == [] then [] else [103, 0] + (Long(|c.indexNames|) + IndexNamesBytes(c.indexNames)))
             + ([104, 0] + Chars(c.magic)))))
  }

  // ---------- the same as messages ----------

  function ColumnData(c: ColumnInfo): Data {
    Record([Text(c.name), Num(c.typeId), Num(c.length), Num(c.offset)])
  }

  function ColumnsData(cs: seq<ColumnInfo>): (r: seq<Data>)
    ensures |r| == |cs|
  {
    if cs == [] then [] else [ColumnData(cs[0])] + ColumnsData(cs[1..])
  }

  function NumsData(ns: seq<nat>): (r: seq<Data>)
    ensures |r| == |ns|
  {
    if ns == [] then [] else [Num(ns[0])] + NumsData(ns[1..])
  }

  function SchemaData(s: SchemaInfo): Data {
    Record([Items(ColumnsData(s.columns)), Items(NumsData(s.strings)), Num(s.inlineSize)])
  }

  function TableValues(t: TableInfo): seq<Data> {
    [Text(t.name), Num(t.oid), SchemaData(t.schema), Num(t.lastPage), Num(t.lastHeapPage), Num(t.tuples)]
  }

  function IndexData(x: IndexInfo): Data {
    Record([Text(x.name), Num(x.tableId), ColumnData(x.key), Num(x.id), Num(x.constraint),
            Num(x.headerPage), Num(x.kind)])
  }

  function TablesData(ts: seq<Numbered<TableInfo>>): (r: seq<Pair>)
    ensures |r| == |ts|
  {
    if ts == [] then [] else [Pair(Num(ts[0].id), To(Record(TableValues(ts[0].what))))] + TablesData(ts[1..])
  }

  function NamesData(ns: seq<Named<int>>): (r: seq<Pair>)
    ensures |r| == |ns|
  {
    if ns == [] then [] else [Pair(Text(ns[0].name), Num(ns[0].what))] + NamesData(ns[1..])
  }

  function IndexesData(xs: seq<Numbered<IndexInfo>>): (r: seq<Pair>)
    ensures |r| == |xs|
  {
    if xs == [] then [] else [Pair(Num(xs[0].id), To(IndexData(xs[0].what)))] + IndexesData(xs[1..])
  }

  function IndexNamesData(ns: seq<Named<seq<Named<int>>>>): (r: seq<Pair>)
    ensures |r| == |ns|
  {
    if ns == [] then [] else [Pair(Text(ns[0].name), Pairs(NamesData(ns[0].what)))] + IndexNamesData(ns[1..])
  }

  function CatalogValues(c: CatalogInfo): seq<Data> {
    [Pairs(TablesData(c.tables)), Pairs(NamesData(c.tableNames)), Pairs(IndexesData(c.indexes)),
     Pairs(IndexNamesData(c.indexNames)), Text(c.magic)]
  }

  // ---------- one property, one value ----------

  lemma MustBytes(id: nat, t: Type, rest: Fields, v: Data, vs: seq<Data>)
    requires id < 0x100 && HasType(t, v) && FieldsHaveTypes(rest, vs)
    ensures FieldsHaveTypes(Must(id, t, rest), [v] + vs)
    ensures EncodeFields(Must(id, t, rest), [v] + vs) == [id as byte, 0] + Encode(t, v) + EncodeFields(rest, vs)
  {
    assert ([v] + vs)[1..] == vs;
    TwoBytes(id);
    ObjectBytes(Must(id, t, rest), [v] + vs);
  }

  lemma LastBytes(id: nat, t: Type, v: Data)
    requires id < 0x100 && HasType(t, v)
    ensures FieldsHaveTypes(Must(id, t, End), [v])
    ensures EncodeFields(Must(id, t, End), [v]) == [id as byte, 0] + Encode(t, v)
  {
    MustBytes(id, t, End, v, []);
    assert [v] + [] == [v] && EncodeFields(End, []) == [];
  }

  lemma IntBytes(n: int)
    requires IsInt(n)
    ensures HasType(INT32, Num(n)) && Encode(INT32, Num(n)) == Word(n)
  {
    Widths();
    LowFirst(if n < 0 then n + 0x1_0000_0000 else n);
  }

  lemma WordBytes(n: nat)
    requires IsWord(n)
    ensures HasType(UINT32, Num(n)) && Encode(UINT32, Num(n)) == Word(n)
  {
    Widths();
    LowFirst(n);
  }

  lemma ByteBytes(n: nat)
    requires n < 0x100
    ensures HasType(Number(1, false), Num(n)) && Encode(Number(1, false), Num(n)) == [n as byte]
  {
    Widths();
    LowFirst(n);
  }

  lemma EightBytes(n: nat)
    requires n < 0x1_0000_0000_0000_0000
    ensures Le(n, 8) == Long(n)
    ensures HasType(Number(8, false), Num(n)) && Encode(Number(8, false), Num(n)) == Long(n)
  {
    Widths();
    LowFirst(n);
    var (lo, hi) := (n % 0x1_0000_0000, n / 0x1_0000_0000);
    LowFirst(lo);
    LowFirst(hi);
    LowHalf(n);
    assert hi == n / 256 / 256 / 256 / 256;
  }

  lemma LowHalf(n: nat)
    ensures Le(n, 4) == Le(n % 0x1_0000_0000, 4)
  {
    LeTruncates(n, 4);
    LeOfUnLe(Le(n, 4));
    Widths();
  }

  lemma CharsBytes(s: seq<byte>)
    requires IsText(s)
    ensures HasType(Str, Text(s)) && Encode(Str, Text(s)) == Chars(s)
  {
    Widths();
    LowFirst(|s|);
  }

  // ---------- each message has these bytes ----------

  lemma ColumnIs(c: ColumnInfo)
    requires ColumnFine(c)
    ensures HasType(COLUMN, ColumnData(c)) && Encode(COLUMN, ColumnData(c)) == ColumnBytes(c)
  {
    hide Encode, HasType, EncodeFields, FieldsHaveTypes, Word, Must;
    CharsBytes(c.name);
    ByteBytes(c.typeId);
    WordBytes(c.length);
    WordBytes(c.offset);
    var f3 := Must(103, UINT32, End);
    var f2 := Must(102, UINT32, f3);
    var f1 := Must(101, Number(1, false), f2);
    var f0 := Must(100, Str, f1);
    var v3 := [Num(c.offset)];
    var v2 := [Num(c.length)] + v3;
    var v1 := [Num(c.typeId)] + v2;
    var v0 := [Text(c.name)] + v1;
    LastBytes(103, UINT32, Num(c.offset));
    MustBytes(102, UINT32, f3, Num(c.length), v3);
    MustBytes(101, Number(1, false), f2, Num(c.typeId), v2);
    MustBytes(100, Str, f1, Text(c.name), v1);
    RecordIs(f0, v0);
    assert v0 == [Text(c.name), Num(c.typeId), Num(c.length), Num(c.offset)];
  }

  lemma RecordIs(fs: Fields, vs: seq<Data>)
    requires FieldsHaveTypes(fs, vs)
    ensures HasType(Object(fs), Record(vs)) && Encode(Object(fs), Record(vs)) == EncodeFields(fs, vs) + [0xFF, 0xFF]
  {
    TwoBytes(0);
  }

  lemma ListIs(e: Type, xs: seq<Data>)
    requires |xs| < 0x1_0000_0000_0000_0000 && forall x :: x in xs ==> HasType(e, x)
    ensures HasType(List(e), Items(xs)) && Encode(List(e), Items(xs)) == Long(|xs|) + EncodeItems(e, xs)
  {
    Widths();
    EightBytes(|xs|);
  }

  lemma {:induction false} ColumnsAre(cs: seq<ColumnInfo>)
    requires forall c :: c in cs ==> ColumnFine(c)
    ensures forall x :: x in ColumnsData(cs) ==> HasType(COLUMN, x)
    ensures EncodeItems(COLUMN, ColumnsData(cs)) == ColumnsBytes(cs)
  {
    hide HasType, Encode, ColumnBytes, ColumnData;
    if cs != [] {
      ColumnIs(cs[0]);
      ColumnsAre(cs[1..]);
      ItemsStep(COLUMN, ColumnData(cs[0]), ColumnsData(cs[1..]));
    }
  }

  lemma ItemsStep(e: Type, x: Data, xs: seq<Data>)
    requires HasType(e, x) && forall y :: y in xs ==> HasType(e, y)
    ensures forall y :: y in [x] + xs ==> HasType(e, y)
    ensures EncodeItems(e, [x] + xs) == Encode(e, x) + EncodeItems(e, xs)
  {
    assert ([x] + xs)[1..] == xs;
  }

  lemma {:induction false} WordsAre(ns: seq<nat>)
    requires forall n :: n in ns ==> IsWord(n)
    ensures forall x :: x in NumsData(ns) ==> HasType(UINT32, x)
    ensures EncodeItems(UINT32, NumsData(ns)) == WordsBytes(ns)
  {
    hide HasType, Encode, Word;
    if ns != [] {
      assert IsWord(ns[0]);
      WordBytes(ns[0]);
      WordsAre(ns[1..]);
      ItemsStep(UINT32, Num(ns[0]), NumsData(ns[1..]));
    }
  }

  lemma SchemaIs(s: SchemaInfo)
    requires SchemaFine(s)
    ensures HasType(SCHEMA, SchemaData(s)) && Encode(SCHEMA, SchemaData(s)) == SchemaBytes(s)
  {
    hide Encode, HasType, EncodeFields, FieldsHaveTypes, Word, Must, EncodeItems, ColumnsBytes, WordsBytes;
    ColumnsAre(s.columns);
    WordsAre(s.strings);
    ListIs(COLUMN, ColumnsData(s.columns));
    ListIs(UINT32, NumsData(s.strings));
    WordBytes(s.inlineSize);
    var f2 := Must(102, UINT32, End);
    var f1 := Must(101, List(UINT32), f2);
    var v2 := [Num(s.inlineSize)];
    var v1 := [Items(NumsData(s.strings))] + v2;
    var v0 := [Items(ColumnsData(s.columns))] + v1;
    LastBytes(102, UINT32, Num(s.inlineSize));
    MustBytes(101, List(UINT32), f2, Items(NumsData(s.strings)), v2);
    MustBytes(100, List(COLUMN), f1, Items(ColumnsData(s.columns)), v1);
    RecordIs(Must(100, List(COLUMN), f1), v0);
    assert v0 == [Items(ColumnsData(s.columns)), Items(NumsData(s.strings)), Num(s.inlineSize)];
  }

  /** What a table's file holds, property by property. */
  lemma TableIs(t: TableInfo)
    requires TableFine(t)
    ensures FieldsHaveTypes(TABLE_META.fields, TableValues(t))
    ensures EncodeFields(TABLE_META.fields, TableValues(t)) == TableBytes(t)
  {
    hide Encode, HasType, EncodeFields, FieldsHaveTypes, Word, Long, Must, SchemaBytes, SchemaData;
    CharsBytes(t.name);
    IntBytes(t.oid);
    SchemaIs(t.schema);
    IntBytes(t.lastPage);
    IntBytes(t.lastHeapPage);
    EightBytes(t.tuples);
    var f5 := Must(105, Number(8, false), End);
    var f4 := Must(104, INT32, f5);
    var f3 := Must(103, INT32, f4);
    var f2 := Must(102, SCHEMA, f3);
    var f1 := Must(101, INT32, f2);
    var v5 := [Num(t.tuples)];
    var v4 := [Num(t.lastHeapPage)] + v5;
    var v3 := [Num(t.lastPage)] + v4;
    var v2 := [SchemaData(t.schema)] + v3;
    var v1 := [Num(t.oid)] + v2;
    LastBytes(105, Number(8, false), Num(t.tuples));
    MustBytes(104, INT32, f5, Num(t.lastHeapPage), v5);
    MustBytes(103, INT32, f4, Num(t.lastPage), v4);
    MustBytes(102, SCHEMA, f3, SchemaData(t.schema), v3);
    MustBytes(101, INT32, f2, Num(t.oid), v2);
    MustBytes(100, Str, f1, Text(t.name), v1);
    assert [Text(t.name)] + v1 == TableValues(t);
  }

  lemma IndexIs(x: IndexInfo)
    requires IndexFine(x)
    ensures HasType(INDEX_META, IndexData(x)) && Encode(INDEX_META, IndexData(x)) == IndexBytes(x)
  {
    hide Encode, HasType, EncodeFields, FieldsHaveTypes, Word, Must, ColumnBytes, ColumnData;
    CharsBytes(x.name);
    IntBytes(x.tableId);
    ColumnIs(x.key);
    IntBytes(x.id);
    ByteBytes(x.constraint);
    IntBytes(x.headerPage);
    IntBytes(x.kind);
    var f6 := Must(106, INT32, End);
    var f5 := Must(105, INT32, f6);
    var f4 := Must(104, Number(1, false), f5);
    var f3 := Must(103, INT32, f4);
    var f2 := Must(102, COLUMN, f3);
    var f1 := Must(101, INT32, f2);
    var v6 := [Num(x.kind)];
    var v5 := [Num(x.headerPage)] + v6;
    var v4 := [Num(x.constraint)] + v5;
    var v3 := [Num(x.id)] + v4;
    var v2 := [ColumnData(x.key)] + v3;
    var v1 := [Num(x.tableId)] + v2;
    LastBytes(106, INT32, Num(x.kind));
    MustBytes(105, INT32, f6, Num(x.headerPage), v6);
    MustBytes(104, Number(1, false), f5, Num(x.constraint), v5);
    MustBytes(103, INT32, f4, Num(x.id), v4);
    MustBytes(102, COLUMN, f3, ColumnData(x.key), v3);
    MustBytes(101, INT32, f2, Num(x.tableId), v2);
    MustBytes(100, Str, f1, Text(x.name), v1);
    RecordIs(Must(100, Str, f1), [Text(x.name)] + v1);
    assert IndexData(x) == Record([Text(x.name)] + v1);
  }

  // ---------- the catalog ----------

  lemma PairsStep(k: Type, v: Type, p: Pair, ps: seq<Pair>)
    requires HasType(k, p.key) && HasType(v, p.value)
    requires forall q :: q in ps ==> HasType(k, q.key) && HasType(v, q.value)
    ensures forall q :: q in [p] + ps ==> HasType(k, q.key) && HasType(v, q.value)
    ensures EncodePairs(k, v, [p] + ps)
      == (([0, 0] + Encode(k, p.key)) + ([1, 0] + Encode(v, p.value)) + [0xFF, 0xFF]) + EncodePairs(k, v, ps)
  {
    hide Encode, HasType;
    assert ([p] + ps)[1..] == ps;
    TwoBytes(0);
  }

  lemma MapOf(k: Type, v: Type, ps: seq<Pair>)
    requires FitsCount(|ps|) && DistinctKeys(ps) && forall p :: p in ps ==> HasType(k, p.key) && HasType(v, p.value)
    ensures HasType(Map(k, v), Pairs(ps)) && Encode(Map(k, v), Pairs(ps)) == Long(|ps|) + EncodePairs(k, v, ps)
  {
    Widths();
    EightBytes(|ps|);
  }

  lemma DefaultBytes(id: nat, t: Type, rest: Fields, ps: seq<Pair>, vs: seq<Data>)
    requires id < 0x100 && HasType(t, Pairs(ps)) && FieldsHaveTypes(rest, vs)
    ensures FieldsHaveTypes(Default(id, t, rest), [Pairs(ps)] + vs)
    ensures EncodeFields(Default(id, t, rest), [Pairs(ps)] + vs)
      == (if ps == [] then [] else [id as byte, 0] + Encode(t, Pairs(ps))) + EncodeFields(rest, vs)
  {
    assert ([Pairs(ps)] + vs)[1..] == vs;
    TwoBytes(id);
    ObjectBytes(Default(id, t, rest), [Pairs(ps)] + vs);
  }

  lemma PointerIs(e: Type, d: Data)
    requires HasType(e, d)
    ensures HasType(Pointer(e), To(d)) && Encode(Pointer(e), To(d)) == [1] + Encode(e, d)
  {}

  lemma {:induction false} TablesAre(ts: seq<Numbered<TableInfo>>)
    requires forall t :: t in ts ==> IsInt(t.id) && TableFine(t.what)
    ensures TablesThere(TablesData(ts))
    ensures forall p :: p in TablesData(ts) ==> HasType(INT32, p.key) && HasType(Pointer(TABLE_META), p.value)
    ensures EncodePairs(INT32, Pointer(TABLE_META), TablesData(ts)) == TablesBytes(ts)
  {
    hide Encode, HasType, EncodeFields, FieldsHaveTypes, Word, TableBytes, TableValues, Must;
    if ts != [] {
      var t := ts[0];
      assert IsInt(t.id) && TableFine(t.what);
      TablesAre(ts[1..]);
      IntBytes(t.id);
      TableIs(t.what);
      RecordIs(TABLE_META.fields, TableValues(t.what));
      PointerIs(TABLE_META, Record(TableValues(t.what)));
      PairsStep(INT32, Pointer(TABLE_META), Pair(Num(t.id), To(Record(TableValues(t.what)))), TablesData(ts[1..]));
    }
  }

  lemma {:induction false} NamesAre(ns: seq<Named<int>>)
    requires forall n :: n in ns ==> IsText(n.name) && IsInt(n.what)
    ensures forall p :: p in NamesData(ns) ==> HasType(Str, p.key) && HasType(INT32, p.value)
    ensures EncodePairs(Str, INT32, NamesData(ns)) == NamesBytes(ns)
  {
    hide Encode, HasType, Word, Chars;
    if ns != [] {
      assert IsText(ns[0].name) && IsInt(ns[0].what);
      NamesAre(ns[1..]);
      CharsBytes(ns[0].name);
      IntBytes(ns[0].what);
      PairsStep(Str, INT32, Pair(Text(ns[0].name), Num(ns[0].what)), NamesData(ns[1..]));
    }
  }

  lemma {:induction false} IndexesAre(xs: seq<Numbered<IndexInfo>>)
    requires forall x :: x in xs ==> IsInt(x.id) && IndexFine(x.what)
    ensures forall p :: p in IndexesData(xs) ==> HasType(INT32, p.key) && HasType(Pointer(INDEX_META), p.value)
    ensures EncodePairs(INT32, Pointer(INDEX_META), IndexesData(xs)) == IndexesBytes(xs)
  {
    hide Encode, HasType, Word, IndexBytes, IndexData, Must;
    if xs != [] {
      assert IsInt(xs[0].id) && IndexFine(xs[0].what);
      IndexesAre(xs[1..]);
      IntBytes(xs[0].id);
      IndexIs(xs[0].what);
      PointerIs(INDEX_META, IndexData(xs[0].what));
      PairsStep(INT32, Pointer(INDEX_META), Pair(Num(xs[0].id), To(IndexData(xs[0].what))), IndexesData(xs[1..]));
    }
  }

  lemma {:induction false} NamesDistinct(ns: seq<Named<int>>, i: nat)
    requires i < |ns|
    ensures NamesData(ns)[i] == Pair(Text(ns[i].name), Num(ns[i].what))
  {
    if i > 0 { NamesDistinct(ns[1..], i - 1); }
  }

  lemma NamesMap(ns: seq<Named<int>>)
    requires NamesFine(ns)
    ensures HasType(Map(Str, INT32), Pairs(NamesData(ns)))
    ensures Encode(Map(Str, INT32), Pairs(NamesData(ns))) == Long(|ns|) + NamesBytes(ns)
  {
    hide Encode, HasType, NamesBytes;
    NamesAre(ns);
    forall i, j | 0 <= i < j < |ns| ensures NamesData(ns)[i].key != NamesData(ns)[j].key {
      NamesDistinct(ns, i);
      NamesDistinct(ns, j);
    }
    MapOf(Str, INT32, NamesData(ns));
  }

  lemma {:induction false} IndexNamesAre(ns: seq<Named<seq<Named<int>>>>)
    requires forall n :: n in ns ==> IsText(n.name) && NamesFine(n.what)
    ensures forall p :: p in IndexNamesData(ns) ==> HasType(Str, p.key) && HasType(Map(Str, INT32), p.value)
    ensures EncodePairs(Str, Map(Str, INT32), IndexNamesData(ns)) == IndexNamesBytes(ns)
  {
    hide Encode, HasType, Long, Chars, NamesBytes, NamesData;
    if ns != [] {
      assert IsText(ns[0].name) && NamesFine(ns[0].what);
      IndexNamesAre(ns[1..]);
      CharsBytes(ns[0].name);
      NamesMap(ns[0].what);
      PairsStep(Str, Map(Str, INT32), Pair(Text(ns[0].name), Pairs(NamesData(ns[0].what))), IndexNamesData(ns[1..]));
    }
  }

  lemma {:induction false} KeysAre(c: CatalogInfo, i: nat)
    ensures i < |c.tables| ==> TablesData(c.tables)[i].key == Num(c.tables[i].id)
    ensures i < |c.indexes| ==> IndexesData(c.indexes)[i].key == Num(c.indexes[i].id)
    ensures i < |c.indexNames| ==> IndexNamesData(c.indexNames)[i].key == Text(c.indexNames[i].name)
    decreases i
  {
    if i > 0 {
      var front := CatalogInfo(if c.tables == [] then [] else c.tables[1..], [],
                               if c.indexes == [] then [] else c.indexes[1..],
                               if c.indexNames == [] then [] else c.indexNames[1..], []);
      KeysAre(front, i - 1);
    }
  }

  lemma KeysDiffer(c: CatalogInfo)
    requires CatalogFine(c)
    ensures DistinctKeys(TablesData(c.tables)) && DistinctKeys(IndexesData(c.indexes))
    ensures DistinctKeys(IndexNamesData(c.indexNames))
  {
    forall i, j | 0 <= i < j < |c.tables| ensures TablesData(c.tables)[i].key != TablesData(c.tables)[j].key {
      KeysAre(c, i);
      KeysAre(c, j);
    }
    forall i, j | 0 <= i < j < |c.indexes| ensures IndexesData(c.indexes)[i].key != IndexesData(c.indexes)[j].key {
      KeysAre(c, i);
      KeysAre(c, j);
    }
    forall i, j | 0 <= i < j < |c.indexNames|
      ensures IndexNamesData(c.indexNames)[i].key != IndexNamesData(c.indexNames)[j].key
    {
      KeysAre(c, i);
      KeysAre(c, j);
    }
  }

  /** The three other maps of the catalog. */
  lemma CatalogMaps(c: CatalogInfo)
    requires CatalogFine(c)
    ensures TablesThere(TablesData(c.tables))
    ensures var t := Map(INT32, Pointer(TABLE_META));
      && HasType(t, Pairs(TablesData(c.tables)))
      && Encode(t, Pairs(TablesData(c.tables))) == Long(|c.tables|) + TablesBytes(c.tables)
    ensures var t := Map(INT32, Pointer(INDEX_META));
      && HasType(t, Pairs(IndexesData(c.indexes)))
      && Encode(t, Pairs(IndexesData(c.indexes))) == Long(|c.indexes|) + IndexesBytes(c.indexes)
    ensures var t := Map(Str, Map(Str, INT32));
      && HasType(t, Pairs(IndexNamesData(c.indexNames)))
      && Encode(t, Pairs(IndexNamesData(c.indexNames))) == Long(|c.indexNames|) + IndexNamesBytes(c.indexNames)
  {
    hide Encode, HasType, Long, EncodePairs, TablesBytes, IndexesBytes, IndexNamesBytes, DistinctKeys;
    hide TablesData, IndexesData, IndexNamesData, Must;
    KeysDiffer(c);
    TablesAre(c.tables);
    MapOf(INT32, Pointer(TABLE_META), TablesData(c.tables));
    IndexesAre(c.indexes);
    MapOf(INT32, Pointer(INDEX_META), IndexesData(c.indexes));
    IndexNamesAre(c.indexNames);
    MapOf(Str, Map(Str, INT32), IndexNamesData(c.indexNames));
  }

  /** What the catalog's file holds. */
  lemma CatalogIs(c: CatalogInfo)
    requires CatalogFine(c)
    ensures FieldsHaveTypes(CATALOG, CatalogValues(c)) && EncodeFields(CATALOG, CatalogValues(c)) == CatalogBytes(c)
    ensures TablesThere(TablesData(c.tables))
  {
    hide Encode, HasType, EncodeFields, FieldsHaveTypes, Long, Chars, Must, Default;
    hide TablesBytes, NamesBytes, IndexesBytes, IndexNamesBytes, EncodePairs;
    hide TablesData, NamesData, IndexesData, IndexNamesData;
    CatalogMaps(c);
    NamesMap(c.tableNames);
    CharsBytes(c.magic);
    var f4 := Must(104, Str, End);
    var f3 := Default(103, Map(Str, Map(Str, INT32)), f4);
    var f2 := Default(102, Map(INT32, Pointer(INDEX_META)), f3);
    var f1 := Default(101, Map(Str, INT32), f2);
    var v4 := [Text(c.magic)];
    var v3 := [Pairs(IndexNamesData(c.indexNames))] + v4;
    var v2 := [Pairs(IndexesData(c.indexes))] + v3;
    var v1 := [Pairs(NamesData(c.tableNames))] + v2;
    LastBytes(104, Str, Text(c.magic));
    DefaultBytes(103, Map(Str, Map(Str, INT32)), f4, IndexNamesData(c.indexNames), v4);
    DefaultBytes(102, Map(INT32, Pointer(INDEX_META)), f3, IndexesData(c.indexes), v3);
    DefaultBytes(101, Map(Str, INT32), f2, NamesData(c.tableNames), v2);
    DefaultBytes(100, Map(INT32, Pointer(TABLE_META)), f1, TablesData(c.tables), v1);
    assert [Pairs(TablesData(c.tables))] + v1 == CatalogValues(c);
  }

  // ---------- from messages back ----------

  function At(vs: seq<Data>, i: nat): Data { if i < |vs| then vs[i] else Null }

  function TextOf(d: Data): seq<byte> { if d.Text? then d.s else [] }

  function IntOf(d: Data): int { if d.Num? then d.n else 0 }

  function NatOf(d: Data): nat { if d.Num? && d.n >= 0 then d.n else 0 }

  function ValuesOf(d: Data): seq<Data> { if d.Record? then d.values else if d.Items? then d.items else [] }

  function PairsOf(d: Data): seq<Pair> { if d.Pairs? then d.pairs else [] }

  function TargetOf(d: Data): Data { if d.To? then d.target else Null }

  function ColumnOf(d: Data): ColumnInfo {
    var vs := ValuesOf(d);
    ColumnInfo(TextOf(At(vs, 0)), NatOf(At(vs, 1)), NatOf(At(vs, 2)), NatOf(At(vs, 3)))
  }

  function ColumnsOf(xs: seq<Data>): seq<ColumnInfo> {
    if xs == [] then [] else [ColumnOf(xs[0])] + ColumnsOf(xs[1..])
  }

  function NatsOf(xs: seq<Data>): seq<nat> {
    if xs == [] then [] else [NatOf(xs[0])] + NatsOf(xs[1..])
  }

  function SchemaOf(d: Data): SchemaInfo {
    var vs := ValuesOf(d);
    SchemaInfo(ColumnsOf(ValuesOf(At(vs, 0))), NatsOf(ValuesOf(At(vs, 1))), NatOf(At(vs, 2)))
  }

  function TableOf(vs: seq<Data>): TableInfo {
    TableInfo(TextOf(At(vs, 0)), IntOf(At(vs, 1)), SchemaOf(At(vs, 2)), IntOf(At(vs, 3)), IntOf(At(vs, 4)),
              NatOf(At(vs, 5)))
  }

  function IndexOf(d: Data): IndexInfo {
    var vs := ValuesOf(d);
    IndexInfo(TextOf(At(vs, 0)), IntOf(At(vs, 1)), ColumnOf(At(vs, 2)), IntOf(At(vs, 3)), NatOf(At(vs, 4)),
              IntOf(At(vs, 5)), IntOf(At(vs, 6)))
  }

  function TablesOf(ps: seq<Pair>): seq<Numbered<TableInfo>> {
    if ps == [] then []
    else [Numbered(IntOf(ps[0].key), TableOf(ValuesOf(TargetOf(ps[0].value))))] + TablesOf(ps[1..])
  }

  function NamesOf(ps: seq<Pair>): seq<Named<int>> {
    if ps == [] then [] else [Named(TextOf(ps[0].key), IntOf(ps[0].value))] + NamesOf(ps[1..])
  }

  function IndexesOf(ps: seq<Pair>): seq<Numbered<IndexInfo>> {
    if ps == [] then [] else [Numbered(IntOf(ps[0].key), IndexOf(TargetOf(ps[0].value)))] + IndexesOf(ps[1..])
  }

  function IndexNamesOf(ps: seq<Pair>): seq<Named<seq<Named<int>>>> {
    if ps == [] then []
    else [Named(TextOf(ps[0].key), NamesOf(PairsOf(ps[0].value)))] + IndexNamesOf(ps[1..])
  }

  function CatalogOf(vs: seq<Data>): CatalogInfo {
    CatalogInfo(TablesOf(PairsOf(At(vs, 0))), NamesOf(PairsOf(At(vs, 1))), IndexesOf(PairsOf(At(vs, 2))),
                IndexNamesOf(PairsOf(At(vs, 3))), TextOf(At(vs, 4)))
  }

  lemma {:induction false} ColumnsBack(cs: seq<ColumnInfo>)
    ensures ColumnsOf(ColumnsData(cs)) == cs
  {
    if cs != [] {
      ColumnsBack(cs[1..]);
      assert ColumnsData(cs)[1..] == ColumnsData(cs[1..]) && ColumnOf(ColumnData(cs[0])) == cs[0];
    }
  }

  lemma {:induction false} NatsBack(ns: seq<nat>)
    ensures NatsOf(NumsData(ns)) == ns
  {
    if ns != [] {
      NatsBack(ns[1..]);
      assert NumsData(ns)[1..] == NumsData(ns[1..]);
    }
  }

  lemma TableBack(t: TableInfo)
    ensures TableOf(TableValues(t)) == t
  {
    ColumnsBack(t.schema.columns);
    NatsBack(t.schema.strings);
    assert SchemaOf(SchemaData(t.schema)) == t.schema;
  }

  lemma {:induction false} TablesBack(ts: seq<Numbered<TableInfo>>)
    ensures TablesOf(TablesData(ts)) == ts
  {
    hide TableOf, TableValues;
    if ts != [] {
      TableBack(ts[0].what);
      TablesBack(ts[1..]);
      assert TablesData(ts)[1..] == TablesData(ts[1..]);
    }
  }

  lemma {:induction false} NamesBack(ns: seq<Named<int>>)
    ensures NamesOf(NamesData(ns)) == ns
  {
    if ns != [] {
      NamesBack(ns[1..]);
      assert NamesData(ns)[1..] == NamesData(ns[1..]);
    }
  }

  lemma {:induction false} IndexesBack(xs: seq<Numbered<IndexInfo>>)
    ensures IndexesOf(IndexesData(xs)) == xs
  {
    if xs != [] {
      IndexesBack(xs[1..]);
      assert IndexesData(xs)[1..] == IndexesData(xs[1..]) && IndexOf(IndexData(xs[0].what)) == xs[0].what;
    }
  }

  lemma {:induction false} IndexNamesBack(ns: seq<Named<seq<Named<int>>>>)
    ensures IndexNamesOf(IndexNamesData(ns)) == ns
  {
    if ns != [] {
      NamesBack(ns[0].what);
      IndexNamesBack(ns[1..]);
      assert IndexNamesData(ns)[1..] == IndexNamesData(ns[1..]);
    }
  }

  lemma CatalogBack(c: CatalogInfo)
    ensures CatalogOf(CatalogValues(c)) == c
  {
    TablesBack(c.tables);
    NamesBack(c.tableNames);
    IndexesBack(c.indexes);
    IndexNamesBack(c.indexNames);
  }

  // ---------- saving and loading ----------

  method Save(fs: Fields, vs: seq<Data>) returns (file: seq<byte>)
    requires FieldsHaveTypes(fs, vs)
    ensures file == EncodeFields(fs, vs)
  {
    var stream := new MemoryStream(1);
    var serializer := new BinarySerializer(stream);
    serializer.WriteFields(fs, vs);
    file := stream.data[..stream.position];
  }

  method Load(fs: Fields, file: seq<byte>) returns (r: Option<seq<Data>>)
    ensures var x := DecodeFields(fs, Reader(file, None, 0)); r == if x.Got? then Some(x.value) else None
  {
    var buffer := new byte[|file|](i requires 0 <= i < |file| => file[i]);
    var stream := new MemoryStream.OnBuffer(buffer);
    var deserializer := new BinaryDeserializer(stream);
    assert buffer[..] == file;
    assert stream.Unread() == file;
    r := deserializer.ReadFields(fs);
  }

  /** The file of a table. */
  method SaveTable(t: TableInfo) returns (file: seq<byte>)
    requires TableFine(t)
    ensures file == TableBytes(t)
  {
    TableIs(t);
    file := Save(TABLE_META.fields, TableValues(t));
  }

  /** What was saved of a table comes back, each property in its own place, whatever follows it in the file. */
  method LoadTable(file: seq<byte>) returns (r: Option<TableInfo>)
    ensures forall t, behind :: TableFine(t) && file == TableBytes(t) + behind ==> r == Some(t)
  {
    hide TableBytes, TableFine, TableOf, TableValues, DecodeFields, EncodeFields, FieldsHaveTypes;
    var x := Load(TABLE_META.fields, file);
    r := if x.None? then None else Some(TableOf(x.value));
    forall t, behind | TableFine(t) && file == TableBytes(t) + behind ensures r == Some(t) {
      TableIs(t);
      TableMetaEnds();
      UnterminatedRoundTrip(TABLE_META.fields, TableValues(t), Reader(file, None, 0), behind);
      TableBack(t);
    }
  }

  /** The file of the catalog, and one for each of its tables. */
  method SaveCatalog(c: CatalogInfo) returns (file: seq<byte>, files: seq<seq<byte>>)
    requires CatalogFine(c)
    ensures file == CatalogBytes(c)
    ensures |files| == |c.tables|
    ensures forall i :: 0 <= i < |files| ==> TableFine(c.tables[i].what) && files[i] == TableBytes(c.tables[i].what)
  {
    hide TableBytes, TableFine, CatalogBytes, CatalogValues, EncodeFields, FieldsHaveTypes;
    CatalogIs(c);
    file := Save(CATALOG, CatalogValues(c));
    files := [];
    while |files| < |c.tables|
      invariant |files| <= |c.tables|
      invariant forall i :: 0 <= i < |files| ==> TableFine(c.tables[i].what) && files[i] == TableBytes(c.tables[i].what)
    {
      var t := c.tables[|files|];
      assert TableFine(t.what);
      var f := SaveTable(t.what);
      files := files + [f];
    }
  }

  /** A saved catalog comes back with everything in its own place, or fails exactly if its magic bytes are others. */
  method LoadCatalog(file: seq<byte>, magic: seq<byte>) returns (r: Option<CatalogInfo>)
    ensures forall c, behind :: CatalogFine(c) && file == CatalogBytes(c) + behind ==>
      r == if c.magic == magic then Some(c) else None
  {
    hide CatalogBytes, CatalogFine, CatalogValues, DecodeFields, EncodeFields, FieldsHaveTypes;
    var x := Load(CATALOG, file);
    r := if x.None? || CatalogOf(x.value).magic != magic then None else Some(CatalogOf(x.value));
    forall c, behind | CatalogFine(c) && file == CatalogBytes(c) + behind
      ensures r == if c.magic == magic then Some(c) else None
    {
      CatalogIs(c);
      CatalogRoundTrip(CatalogValues(c), behind);
      CatalogBack(c);
    }
  }
}
