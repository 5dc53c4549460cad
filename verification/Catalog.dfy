/** The catalog and what it holds, as messages of the binary format. */
module Catalogs {
  import opened Bytes
  import opened Serialization
  import opened Serializers

  const INT32 := Number(4, true)
  const UINT32 := Number(4, false)

  /** Name, type, length, offset. */
  const COLUMN := Object(Must(100, Str, Must(101, Number(1, false), Must(102, UINT32, Must(103, UINT32, End)))))

  /** Columns, which of them are strings, size of the inline part. */
  const SCHEMA := Object(Must(100, List(COLUMN), Must(101, List(UINT32), Must(102, UINT32, End))))

  /** Name, id, schema, last page, last heap page, number of tuples. */
  const TABLE_META := Object(
    Must(100, Str, Must(101, INT32, Must(102, SCHEMA, Must(103, INT32,
    Must(104, INT32, Must(105, Number(8, false), End)))))))

  /** Name, table, key column, id, constraint, header page, kind. */
  const INDEX_META := Object(
    Must(100, Str, Must(101, INT32, Must(102, COLUMN, Must(103, INT32,
    Must(104, Number(1, false), Must(105, INT32, Must(106, INT32, End))))))))

  /** Tables, table names, indexes, index names by table, magic bytes. */
  const CATALOG :=
    Default(100, Map(INT32, Pointer(TABLE_META)), Default(101, Map(Str, INT32),
    Default(102, Map(INT32, Pointer(INDEX_META)), Default(103, Map(Str, Map(Str, INT32)), Must(104, Str, End)))))

  function Must(id: nat, t: Type, rest: Fields): Fields { Field(id, t, false, Null, rest) }

  /** Written unless the map is empty. */
  function Default(id: nat, t: Type, rest: Fields): Fields { Field(id, t, true, Pairs([]), rest) }

  /** One more field in front. */
  lemma MustOk(id: nat, t: Type, rest: Fields)
    requires id < TERMINATOR && id !in Ids(rest) && TypeOk(t) && FieldsOk(rest)
    ensures FieldsOk(Must(id, t, rest)) && Ids(Must(id, t, rest)) == {id} + Ids(rest)
    ensures TypeOk(Object(Must(id, t, rest)))
    ensures rest.End? || EndsMandatory(rest) ==> EndsMandatory(Must(id, t, rest))
  {}

  lemma DefaultOk(id: nat, k: Type, v: Type, rest: Fields)
    requires id < TERMINATOR && id !in Ids(rest) && TypeOk(k) && TypeOk(v) && FieldsOk(rest)
    ensures FieldsOk(Default(id, Map(k, v), rest)) && Ids(Default(id, Map(k, v), rest)) == {id} + Ids(rest)
    ensures EndsMandatory(rest) ==> EndsMandatory(Default(id, Map(k, v), rest))
  {
    assert HasType(Map(k, v), Pairs([]));
  }

  lemma ColumnOk()
    ensures TypeOk(COLUMN)
  {
    MustOk(103, UINT32, End);
    MustOk(102, UINT32, Must(103, UINT32, End));
    MustOk(101, Number(1, false), Must(102, UINT32, Must(103, UINT32, End)));
    MustOk(100, Str, Must(101, Number(1, false), Must(102, UINT32, Must(103, UINT32, End))));
  }

  lemma SchemaTypeOk()
    ensures TypeOk(SCHEMA)
  {
    ColumnOk();
    MustOk(102, UINT32, End);
    var f1 := Must(102, UINT32, End);
    MustOk(101, List(UINT32), f1);
    MustOk(100, List(COLUMN), Must(101, List(UINT32), f1));
  }

  lemma TableMetaOk()
    ensures TypeOk(TABLE_META)
  {
    SchemaTypeOk();
    var f5 := Must(105, Number(8, false), End);
    var f4 := Must(104, INT32, f5);
    var f3 := Must(103, INT32, f4);
    var f2 := Must(102, SCHEMA, f3);
    var f1 := Must(101, INT32, f2);
    MustOk(105, Number(8, false), End);
    MustOk(104, INT32, f5);
    MustOk(103, INT32, f4);
    MustOk(102, SCHEMA, f3);
    MustOk(101, INT32, f2);
    MustOk(100, Str, f1);
  }

  lemma IndexMetaOk()
    ensures TypeOk(INDEX_META)
  {
    ColumnOk();
    var f6 := Must(106, INT32, End);
    var f5 := Must(105, INT32, f6);
    var f4 := Must(104, Number(1, false), f5);
    var f3 := Must(103, INT32, f4);
    var f2 := Must(102, COLUMN, f3);
    var f1 := Must(101, INT32, f2);
    MustOk(106, INT32, End);
    MustOk(105, INT32, f6);
    MustOk(104, Number(1, false), f5);
    MustOk(103, INT32, f4);
    MustOk(102, COLUMN, f3);
    MustOk(101, INT32, f2);
    MustOk(100, Str, f1);
  }

  /** The format can carry the catalog, and its last field is always written. */
  lemma CatalogOk()
    ensures FieldsOk(CATALOG) && EndsMandatory(CATALOG)
  {
    TableMetaOk();
    IndexMetaOk();
    assert TABLE_META.Object? && INDEX_META.Object?;
    hide FieldsOk, Ids, Must, Default, EndsMandatory, HasType;
    var f4 := Must(104, Str, End);
    var f3 := Default(103, Map(Str, Map(Str, INT32)), f4);
    var f2 := Default(102, Map(INT32, Pointer(INDEX_META)), f3);
    var f1 := Default(101, Map(Str, INT32), f2);
    MustOk(104, Str, End);
    DefaultOk(103, Str, Map(Str, INT32), f4);
    DefaultOk(102, INT32, Pointer(INDEX_META), f3);
    DefaultOk(101, Str, INT32, f2);
    DefaultOk(100, INT32, Pointer(TABLE_META), f1);
  }

  /** The catalog has no closing terminator; it is read back all the same, whatever the file holds behind it. */
  lemma CatalogRoundTrip(vs: seq<Data>, behind: seq<byte>)
    requires FieldsHaveTypes(CATALOG, vs)
    ensures DecodeFields(CATALOG, Reader(EncodeFields(CATALOG, vs) + behind, None, 0)) ==
      Got(vs, Reader(behind, None, 0))
  {
    CatalogOk();
    UnterminatedRoundTrip(CATALOG, vs, Reader(EncodeFields(CATALOG, vs) + behind, None, 0), behind);
  }

  lemma CatalogHasFive(vs: seq<Data>)
    requires FieldsHaveTypes(CATALOG, vs)
    ensures |vs| == 5
  {}

  // ---------- the meta file of each table ----------

  /** The tables of a catalog; the program dereferences each of them. */
  ghost predicate TablesThere(tables: seq<Pair>) {
    forall p :: p in tables ==> p.value.To? && HasType(TABLE_META, p.value.target)
  }

  lemma CatalogTables(vs: seq<Data>)
    requires FieldsHaveTypes(CATALOG, vs)
    ensures vs != [] && vs[0].Pairs?
    ensures forall p :: p in vs[0].pairs && p.value != Null ==> p.value.To? && HasType(TABLE_META, p.value.target)
  {
    assert HasType(Map(INT32, Pointer(TABLE_META)), vs[0]);
    PairsTyped(INT32, Pointer(TABLE_META), vs[0]);
    hide FieldsHaveTypes;
  }

  lemma PairsTyped(k: Type, v: Type, d: Data)
    requires HasType(Map(k, v), d)
    ensures d.Pairs? && forall p :: p in d.pairs ==> HasType(v, p.value)
  {}

  lemma MetaFields(d: Data)
    requires HasType(TABLE_META, d)
    ensures d.Record? && FieldsHaveTypes(TABLE_META.fields, d.values)
  {}

  /** One file for each table, with its properties. */
  ghost predicate FilesHold(tables: seq<Pair>, files: seq<seq<byte>>)
    requires TablesThere(tables)
  {
    && |files| == |tables|
    && forall i :: 0 <= i < |files| ==>
         var d := tables[i].value.target;
         MetaFields(d); files[i] == EncodeFields(TABLE_META.fields, d.values)
  }

  /** The file of a table, which has no closing terminator either, reads back whatever follows it. */
  lemma TableFileReadsBack(tables: seq<Pair>, files: seq<seq<byte>>, i: nat, behind: seq<byte>)
    requires TablesThere(tables) && FilesHold(tables, files) && i < |files|
    ensures tables[i].value.target.Record?
    ensures DecodeFields(TABLE_META.fields, Reader(files[i] + behind, None, 0))
      == Got(tables[i].value.target.values, Reader(behind, None, 0))
  {
    var d := tables[i].value.target;
    MetaFields(d);
    TableMetaOk();
    TableMetaEnds();
    UnterminatedRoundTrip(TABLE_META.fields, d.values, Reader(files[i] + behind, None, 0), behind);
  }

  lemma TableMetaEnds()
    ensures FieldsOk(TABLE_META.fields) && EndsMandatory(TABLE_META.fields)
  {
    TableMetaOk();
    var f5 := Must(105, Number(8, false), End);
    var f4 := Must(104, INT32, f5);
    var f3 := Must(103, INT32, f4);
    var f2 := Must(102, SCHEMA, f3);
    assert EndsMandatory(f5) && EndsMandatory(f4) && EndsMandatory(f3) && EndsMandatory(f2);
  }

  method PersistTables(tables: seq<Pair>) returns (files: seq<seq<byte>>)
    requires TablesThere(tables)
    ensures FilesHold(tables, files)
  {
    hide HasType, EncodeFields;
    files := [];
    while |files| < |tables|
      invariant |files| <= |tables| && FilesHold(tables[..|files|], files)
    {
      ghost var before := tables[..|files|];
      var table := tables[|files|];
      assert table in tables && tables[..|files| + 1] == before + [table];
      MetaFields(table.value.target);
      var stream := new MemoryStream(1);
      var serializer := new BinarySerializer(stream);
      serializer.WriteFields(TABLE_META.fields, table.value.target.values);
      files := files + [stream.data[..stream.position]];
    }
    assert tables[..|files|] == tables;
  }

  /** Persisting the catalog and every table's meta, and loading the catalog again; None stands for the exception that
      the magic bytes differ. */
  method PersistThenLoad(vs: seq<Data>, magic: seq<byte>, stream: MemoryStream)
    returns (r: Option<seq<Data>>, files: seq<seq<byte>>)
    requires FieldsHaveTypes(CATALOG, vs) && vs != [] && vs[0].Pairs? && TablesThere(vs[0].pairs)
    requires stream.Valid() && stream.position == 0 && stream.ownsData && stream.data.Length > 0
    modifies stream, stream.data
    ensures stream.Valid() && stream.position == |EncodeFields(CATALOG, vs)|
    ensures |vs| == 5 && r == if vs[4] == Text(magic) then Some(vs) else None
    ensures FilesHold(vs[0].pairs, files)
  {
    CatalogOk();
    CatalogHasFive(vs);
    files := PersistTables(vs[0].pairs);
    r := WriteThenRead(CATALOG, vs, stream);
    if r.value[4] != Text(magic) {
      r := None;
    }
  }

  /** An unterminated object that ends in a mandatory field, written to a stream and read back from its beginning. */
  method WriteThenRead(fs: Fields, vs: seq<Data>, stream: MemoryStream) returns (r: Option<seq<Data>>)
    requires FieldsOk(fs) && FieldsHaveTypes(fs, vs) && EndsMandatory(fs)
    requires stream.Valid() && stream.position == 0 && stream.ownsData && stream.data.Length > 0
    modifies stream, stream.data
    ensures stream.Valid() && stream.position == |EncodeFields(fs, vs)| && r == Some(vs)
  {
    hide FieldsOk, FieldsHaveTypes, EndsMandatory, EncodeFields, DecodeFields;
    var serializer := new BinarySerializer(stream);
    serializer.WriteFields(fs, vs);
    ghost var written := stream.Written();
    ghost var behind := stream.data[stream.position..];
    stream.Rewind();
    var deserializer := new BinaryDeserializer(stream);
    assert stream.Unread() == written + behind;
    UnterminatedRoundTrip(fs, vs, deserializer.Now(), behind);
    r := deserializer.ReadFields(fs);
    assert stream.Unread() == behind;
  }

  /** Any object written to a stream, and read back from its beginning. */
  method SerializeThenDeserialize(fs: Fields, d: Data, stream: MemoryStream) returns (r: Option<Data>)
    requires FieldsOk(fs) && HasType(Object(fs), d)
    requires stream.Valid() && stream.position == 0 && stream.ownsData && stream.data.Length > 0
    modifies stream, stream.data
    ensures stream.Valid() && r == Some(d) && stream.position == |Encode(Object(fs), d)|
  {
    var serializer := new BinarySerializer(stream);
    serializer.WriteValue(Object(fs), d);
    ghost var written := stream.Written();
    ghost var behind := stream.data[stream.position..];
    stream.Rewind();
    var deserializer := new BinaryDeserializer(stream);
    assert stream.Unread() == written + behind;
    RoundTrip(Object(fs), d, deserializer.Now(), behind);
    r := deserializer.ReadValue(Object(fs));
    assert stream.Unread() == behind;
  }
}
