/** Rows as bytes: an inline part with one field per column, then the strings, each behind its length. */
module Tuples {
  import opened Bytes

  datatype TypeId = INTEGER | TIMESTAMP | VARCHAR

  datatype Value = Int(i: int) | Time(t: nat) | Text(s: seq<byte>)

  /** `length` is the field's size, for VARCHAR the longest string allowed. */
  datatype Column = Column(typeId: TypeId, length: nat, offset: nat) {
    predicate IsInlined() { typeId != VARCHAR }
  }

  datatype Schema = Schema(columns: seq<Column>, uninlined: seq<nat>, inlineSize: nat)

  /** The ranges of the machine types. */
  predicate InRange(v: Value) {
    match v
    case Int(i) => -0x8000_0000 <= i < 0x8000_0000
    case Time(t) => t < 0x1_0000_0000_0000_0000
    case Text(s) => |s| < 0x1_0000_0000
  }

  function TypeOf(v: Value): TypeId {
    match v
    case Int(_) => INTEGER
    case Time(_) => TIMESTAMP
    case Text(_) => VARCHAR
  }

  /** What a column takes of the inline part; a string takes the room of the offset to it. */
  function Width(t: TypeId): (w: nat)
    ensures w > 0
  {
    match t
    case INTEGER => 4
    case TIMESTAMP => 8
    case VARCHAR => 4
  }

  /** The bytes of a value, wherever they are put. */
  function Encoded(v: Value): seq<byte>
    requires InRange(v)
  {
    Widths();
    match v
    case Int(i) => Le(Signed(i, 4), 4)
    case Time(t) => Le(t, 8)
    case Text(s) => Le(|s|, 4) + s
  }

  // ---------- the schema ----------

  /** Where the inline field of column `i` begins: right behind the one before it. */
  ghost function FieldAt(columns: seq<Column>, i: nat): nat
    requires i <= |columns|
  {
    if i == 0 then 0 else FieldAt(columns, i - 1) + Width(columns[i - 1].typeId)
  }

  ghost predicate SchemaOk(s: Schema) {
    && (forall i :: 0 <= i < |s.columns| ==> s.columns[i].offset == FieldAt(s.columns, i))
    && s.inlineSize == FieldAt(s.columns, |s.columns|)
    && s.uninlined == Uninlined(s.columns, |s.columns|)
  }

  /** The string columns among the first `n`, in order. */
  ghost function Uninlined(columns: seq<Column>, n: nat): seq<nat>
    requires n <= |columns|
  {
    if n == 0 then []
    else Uninlined(columns, n - 1) + if columns[n - 1].IsInlined() then [] else [n - 1]
  }

  /** Field positions depend on the types of the columns before, nothing else. */
  lemma {:induction false} FieldDependsOnTypes(a: seq<Column>, b: seq<Column>, i: nat)
    requires i <= |a| && i <= |b| && forall j :: 0 <= j < i ==> a[j].typeId == b[j].typeId
    ensures FieldAt(a, i) == FieldAt(b, i) && Uninlined(a, i) == Uninlined(b, i)
  {
    if i > 0 {
      FieldDependsOnTypes(a, b, i - 1);
    }
  }

  /** The first `n` columns with their offsets. */
  ghost function Laid(columns: seq<Column>, n: nat): (r: seq<Column>)
    requires n <= |columns|
    ensures |r| == n
  {
    if n == 0 then [] else Laid(columns, n - 1) + [columns[n - 1].(offset := FieldAt(columns, n - 1))]
  }

  lemma {:induction false} LaidIs(columns: seq<Column>, n: nat, i: nat)
    requires i < n <= |columns|
    ensures Laid(columns, n)[i] == columns[i].(offset := FieldAt(columns, i))
  {
    if i < n - 1 {
      LaidIs(columns, n - 1, i);
    }
  }

  lemma LaidIsOk(columns: seq<Column>, s: Schema)
    requires s == Schema(Laid(columns, |columns|), Uninlined(columns, |columns|), FieldAt(columns, |columns|))
    ensures SchemaOk(s)
    ensures forall i :: 0 <= i < |columns| ==>
      s.columns[i].typeId == columns[i].typeId && s.columns[i].length == columns[i].length
  {
    forall i | 0 <= i < |columns| ensures s.columns[i] == columns[i].(offset := FieldAt(columns, i)) {
      LaidIs(columns, |columns|, i);
    }
    forall i | 0 <= i <= |columns|
      ensures FieldAt(s.columns, i) == FieldAt(columns, i) && Uninlined(s.columns, i) == Uninlined(columns, i)
    {
      FieldDependsOnTypes(s.columns, columns, i);
    }
  }

  /** The fields follow each other without a gap, four bytes for an integer or a string's offset and eight for a
      timestamp, and the inline part ends with the last one; the strings are listed in order. */
  ghost predicate FieldsFollow(s: Schema) {
    && (if s.columns == [] then s.inlineSize == 0 else s.columns[0].offset == 0)
    && (forall i :: 0 <= i < |s.columns| ==> FieldEnds(s, i))
    && (forall i :: i in s.uninlined <==> 0 <= i < |s.columns| && s.columns[i].typeId == VARCHAR)
    && Increasing(s.uninlined)
  }

  ghost predicate FieldEnds(s: Schema, i: nat)
    requires i < |s.columns|
  {
    var behind := if i + 1 < |s.columns| then s.columns[i + 1].offset else s.inlineSize;
    behind == s.columns[i].offset + match s.columns[i].typeId case INTEGER => 4 case TIMESTAMP => 8 case VARCHAR => 4
  }

  ghost predicate Increasing(s: seq<nat>) { forall j, k :: 0 <= j < k < |s| ==> s[j] < s[k] }

  lemma LaidOutFollows(s: Schema)
    requires SchemaOk(s)
    ensures FieldsFollow(s)
  {
    hide FieldAt, Uninlined;
    var n := |s.columns|;
    UninlinedAre(s.columns, n);
    FirstField(s.columns);
    if n > 0 { assert s.columns[0].offset == FieldAt(s.columns, 0); } else { assert s.columns == []; }
    forall i | 0 <= i < n ensures FieldEnds(s, i) {
      NextField(s.columns, i);
    }
  }

  lemma FirstField(columns: seq<Column>)
    ensures FieldAt(columns, 0) == 0
  {}

  lemma NextField(columns: seq<Column>, i: nat)
    requires i < |columns|
    ensures FieldAt(columns, i + 1)
      == FieldAt(columns, i) + match columns[i].typeId case INTEGER => 4 case TIMESTAMP => 8 case VARCHAR => 4
  {}

  lemma {:induction false} UninlinedAre(columns: seq<Column>, n: nat)
    requires n <= |columns|
    ensures forall i :: i in Uninlined(columns, n) <==> 0 <= i < n && columns[i].typeId == VARCHAR
    ensures Increasing(Uninlined(columns, n))
  {
    if n > 0 {
      UninlinedAre(columns, n - 1);
      var (r, front) := (Uninlined(columns, n), Uninlined(columns, n - 1));
      forall j, k | 0 <= j < k < |r| ensures r[j] < r[k] {
        assert r[j] == front[j] && front[j] in front;
        if k < |front| {
          assert r[k] == front[k] && front[j] < front[k];
        } else {
          assert r[k] == n - 1 && 0 <= front[j] < n - 1;
        }
      }
      forall i ensures i in r <==> 0 <= i < n && columns[i].typeId == VARCHAR {
        assert i in front <==> 0 <= i < n - 1 && columns[i].typeId == VARCHAR;
      }
    }
  }

  /** Lays out the inline part. */
  method NewSchema(columns: seq<Column>) returns (s: Schema)
    requires forall i :: 0 <= i < |columns| ==> columns[i].length > 0
    requires forall i :: 0 <= i < |columns| ==>
      && (columns[i].typeId == INTEGER ==> columns[i].length == 4)
      && (columns[i].typeId == TIMESTAMP ==> columns[i].length == 8)
    ensures SchemaOk(s) && FieldsFollow(s) && |s.columns| == |columns|
    ensures forall i :: 0 <= i < |columns| ==>
      s.columns[i].typeId == columns[i].typeId && s.columns[i].length == columns[i].length
  {
    var offset, placed, uninlined := 0, [], [];
    for index := 0 to |columns|
      invariant placed == Laid(columns, index) && offset == FieldAt(columns, index)
      invariant uninlined == Uninlined(columns, index)
    {
      var column := columns[index];
      if !column.IsInlined() {
        uninlined := uninlined + [index];
      }
      column := column.(offset := offset);
      offset := offset + if column.IsInlined() then column.length else 4;
      placed := placed + [column];
    }
    s := Schema(placed, uninlined, offset);
    LaidIsOk(columns, s);
    LaidOutFollows(s);
  }

  // ---------- where everything goes ----------

  ghost predicate Fitting(values: seq<Value>, s: Schema) {
    && |values| == |s.columns|
    && forall i :: 0 <= i < |values| ==> InRange(values[i]) && TypeOf(values[i]) == s.columns[i].typeId
  }

  /** What a value adds behind the inline part. */
  function TailSize(v: Value): nat {
    if v.Text? then 4 + |v.s| else 0
  }

  /** Where the string of column `i` begins, if it is one: right behind the one before it. */
  ghost function TailAt(values: seq<Value>, inlineSize: nat, i: nat): nat
    requires i <= |values|
  {
    if i == 0 then inlineSize else TailAt(values, inlineSize, i - 1) + TailSize(values[i - 1])
  }

  /** The whole tuple. */
  ghost function SizeOf(values: seq<Value>, s: Schema): nat {
    TailAt(values, s.inlineSize, |values|)
  }

  /** Fields do not overlap, and end within the inline part. */
  lemma {:induction false} FieldsTile(columns: seq<Column>, i: nat, j: nat)
    requires i < j <= |columns|
    ensures FieldAt(columns, i) + Width(columns[i].typeId) <= FieldAt(columns, j)
  {
    if i + 1 < j {
      FieldsTile(columns, i, j - 1);
    }
  }

  /** Strings lie behind the inline part and do not overlap. */
  lemma {:induction false} TailsTile(values: seq<Value>, inlineSize: nat, i: nat, j: nat)
    requires i <= j <= |values|
    ensures inlineSize <= TailAt(values, inlineSize, i)
    ensures TailAt(values, inlineSize, i) + (if i < j then TailSize(values[i]) else 0) <= TailAt(values, inlineSize, j)
  {
    if i + 1 < j {
      TailsTile(values, inlineSize, i, j - 1);
    } else if i > 0 {
      TailsTile(values, inlineSize, 0, i - 1);
    }
  }

  // ---------- the bytes ----------

  /** Column `i` is written in `d`: its field, and for a string what the field points to. */
  ghost predicate Written(d: seq<byte>, values: seq<Value>, s: Schema, i: nat)
    requires i < |values| == |s.columns| && InRange(values[i])
  {
    var (o, t, v) := (FieldAt(s.columns, i), TailAt(values, s.inlineSize, i), values[i]);
    if v.Text? then
      && o + 4 <= |d| && t + 4 + |v.s| <= |d| && t < Range(4)
      && d[o..o + 4] == Le(t, 4) && d[t..t + 4 + |v.s|] == Encoded(v)
    else
      var w := Width(TypeOf(v));
      o + w <= |d| && d[o..o + w] == Encoded(v)
  }

  /** Value `v` as it must stand in a tuple, byte by byte: its field is at `o`, a string's length and characters at
      `at`.  All eight bytes of a timestamp count, and every string of any length. */
  ghost predicate Stored(d: seq<byte>, v: Value, o: nat, at: nat) {
    match v
    case Int(i) =>
      && o + 4 <= |d|
      && var n := UnLe(d[o..o + 4]); i == if n < 0x8000_0000 then n else n - 0x1_0000_0000
    case Time(t) => o + 8 <= |d| && UnLe(d[o..o + 8]) == t
    case Text(s) =>
      && o + 4 <= |d| && UnLe(d[o..o + 4]) == at
      && at + 4 + |s| <= |d| && UnLe(d[at..at + 4]) == |s| && d[at + 4..at + 4 + |s|] == s
  }

  lemma WrittenIsStored(d: seq<byte>, values: seq<Value>, s: Schema, i: nat)
    requires SchemaOk(s) && Fitting(values, s) && i < |values| && Written(d, values, s, i)
    ensures Stored(d, values[i], s.columns[i].offset, TailAt(values, s.inlineSize, i))
  {
    hide Le, UnLe, Range, FieldAt, TailAt;
    Widths();
    var (o, t, v) := (FieldAt(s.columns, i), TailAt(values, s.inlineSize, i), values[i]);
    match v
    case Int(n) => UnLeOfLe(Signed(n, 4), 4);
    case Time(n) => UnLeOfLe(n, 8);
    case Text(x) =>
      UnLeOfLe(t, 4);
      UnLeOfLe(|x|, 4);
      RecordParts(d, t, Le(|x|, 4), x);
  }

  lemma RecordParts(d: seq<byte>, t: nat, a: seq<byte>, x: seq<byte>)
    requires |a| == 4 && t + 4 + |x| <= |d| && d[t..t + 4 + |x|] == a + x
    ensures d[t..t + 4] == a && d[t + 4..t + 4 + |x|] == x
  {
    var e := d[t..t + 4 + |x|];
    assert d[t..t + 4] == e[..4] && d[t + 4..t + 4 + |x|] == e[4..];
  }

  /** The strings begin right behind the inline part, each with four bytes of length in front, and end the tuple. */
  lemma StringsFollow(values: seq<Value>, s: Schema, i: nat)
    requires i < |values|
    ensures TailAt(values, s.inlineSize, 0) == s.inlineSize
    ensures TailAt(values, s.inlineSize, i + 1)
      == TailAt(values, s.inlineSize, i) + match values[i] case Text(x) => 4 + |x| case _ => 0
    ensures SizeOf(values, s) == TailAt(values, s.inlineSize, |values|)
  {}

  // ---------- building a tuple ----------

  /** Between one listed column and the next there are only columns that add nothing to the tail. */
  lemma {:induction false} ListedGap(values: seq<Value>, s: Schema, n: nat, k: nat)
    requires Fitting(values, s) && n <= |values| && k <= |Uninlined(s.columns, n)|
    ensures var listed := Uninlined(s.columns, n);
      var lo := if k == 0 then 0 else listed[k - 1] + 1;
      var hi := if k < |listed| then listed[k] else n;
      && lo <= hi <= n && (k < |listed| ==> hi < n && values[hi].Text?)
      && TailAt(values, s.inlineSize, lo) == TailAt(values, s.inlineSize, hi)
      && forall i :: lo <= i < hi ==> !values[i].Text?
  {
    if n > 0 {
      var rest := Uninlined(s.columns, n - 1);
      if k <= |rest| {
        ListedGap(values, s, n - 1, k);
      }
    }
  }

  datatype Size = Fits(size: nat) | Exceeds(column: nat)

  ghost predicate TextsAllowed(values: seq<Value>, s: Schema, n: nat)
    requires n <= |values| == |s.columns|
  {
    forall i :: 0 <= i < n && values[i].Text? ==> |values[i].s| <= s.columns[i].length
  }

  /** The first loop: measures the tuple and checks the strings. */
  method Measure(values: seq<Value>, s: Schema) returns (r: Size)
    requires SchemaOk(s) && Fitting(values, s)
    ensures r.Fits? ==> r.size == SizeOf(values, s)
    ensures r.Fits? <==> TextsAllowed(values, s, |values|)
    ensures r.Exceeds? ==> r.column < |values| && values[r.column].Text?
                           && |values[r.column].s| > s.columns[r.column].length
  {
    hide TailAt, Uninlined, FieldAt;
    var size := s.inlineSize;
    ghost var m := 0;
    TailStarts(values, s.inlineSize);
    for k := 0 to |s.uninlined|
      invariant m == (if k == 0 then 0 else s.uninlined[k - 1] + 1) && m <= |values|
      invariant size == TailAt(values, s.inlineSize, m) && TextsAllowed(values, s, m)
    {
      ListedGap(values, s, |values|, k);
      var c := s.uninlined[k];
      var len := |values[c].s|;
      if len > s.columns[c].length {
        return Exceeds(c);
      }
      size := size + 4 + len;
      TailGrows(values, s.inlineSize, c);
      m := c + 1;
    }
    ListedGap(values, s, |values|, |s.uninlined|);
    r := Fits(size);
  }

  lemma TailStarts(values: seq<Value>, inlineSize: nat)
    ensures TailAt(values, inlineSize, 0) == inlineSize
  {}

  lemma TailGrows(values: seq<Value>, inlineSize: nat, i: nat)
    requires i < |values|
    ensures TailAt(values, inlineSize, i + 1) == TailAt(values, inlineSize, i) + TailSize(values[i])
  {}

  /** The array after column `i` was written into it. */
  ghost function Put(d: seq<byte>, values: seq<Value>, s: Schema, i: nat): seq<byte>
    requires SchemaOk(s) && Fitting(values, s) && i < |values| && |d| == SizeOf(values, s)
    requires TailAt(values, s.inlineSize, i) < Range(4)
  {
    Room(values, s, i);
    var (o, t) := (FieldAt(s.columns, i), TailAt(values, s.inlineSize, i));
    if values[i].Text? then Splice(Splice(d, o, Le(t, 4)), t, Encoded(values[i]))
    else Splice(d, o, Encoded(values[i]))
  }

  /** Field and tail of column `i` fit the tuple, and do not meet. */
  lemma Room(values: seq<Value>, s: Schema, i: nat)
    requires SchemaOk(s) && Fitting(values, s) && i < |values|
    ensures |s.columns| == |values| && InRange(values[i]) && TypeOf(values[i]) == s.columns[i].typeId
    ensures s.columns[i].offset == FieldAt(s.columns, i)
    ensures FieldAt(s.columns, i) + Width(s.columns[i].typeId) <= s.inlineSize <= TailAt(values, s.inlineSize, i)
    ensures TailAt(values, s.inlineSize, i) + TailSize(values[i]) <= SizeOf(values, s)
    ensures |Encoded(values[i])| == if values[i].Text? then TailSize(values[i]) else Width(s.columns[i].typeId)
  {
    FieldsTile(s.columns, i, |values|);
    TailsTile(values, s.inlineSize, i, |values|);
  }

  /** Writing column `i` writes it and keeps the columns before it. */
  lemma PutWrites(d: seq<byte>, values: seq<Value>, s: Schema, i: nat, j: nat)
    requires SchemaOk(s) && Fitting(values, s) && j <= i < |values| && |d| == SizeOf(values, s)
    requires TailAt(values, s.inlineSize, i) < Range(4) && (j < i ==> Written(d, values, s, j))
    ensures Written(Put(d, values, s, i), values, s, j)
  {
    hide Encoded, FieldAt, TailAt, SchemaOk, Fitting;
    Room(values, s, i);
    Room(values, s, j);
    if j < i {
      FieldsTile(s.columns, j, i);
      TailsTile(values, s.inlineSize, j, i);
    }
  }

  method WriteColumn(data: array<byte>, values: seq<Value>, s: Schema, i: nat, offset: nat) returns (next: nat)
    requires SchemaOk(s) && Fitting(values, s) && i < |values| && SizeOf(values, s) < 0x1_0000_0000
    requires data.Length == SizeOf(values, s) && offset == TailAt(values, s.inlineSize, i)
    requires forall j :: 0 <= j < i ==> Written(data[..], values, s, j)
    modifies data
    ensures next == TailAt(values, s.inlineSize, i + 1)
    ensures forall j :: 0 <= j <= i ==> Written(data[..], values, s, j)
  {
    assert forall j :: 0 <= j < |values| ==> InRange(values[j]);
    hide Written, Encoded, TailAt, FieldAt, SchemaOk, Fitting, Le;
    Room(values, s, i);
    Widths();
    ghost var d := data[..];
    var col := s.columns[i];
    next := offset;
    if !col.IsInlined() {
      CopyInto(data, col.offset, Le(offset, 4));
      CopyInto(data, offset, Encoded(values[i]));
      next := offset + |values[i].s| + 4;
    } else {
      CopyInto(data, col.offset, Encoded(values[i]));
    }
    TailGrows(values, s.inlineSize, i);
    assert data[..] == Put(d, values, s, i);
    forall j | 0 <= j <= i ensures Written(data[..], values, s, j) {
      PutWrites(d, values, s, i, j);
    }
  }

  datatype Result = Ok(data: seq<byte>) | TooLong(column: nat)

  /**
   * The tuple of the values: as long as its parts together, with every column written. It is refused exactly if a
   * string is longer than its column allows.
   */
  method NewTuple(values: seq<Value>, s: Schema) returns (r: Result)
    requires SchemaOk(s) && Fitting(values, s) && 0 < s.inlineSize < PAGE_SIZE && SizeOf(values, s) < 0x1_0000_0000
    ensures r.Ok? <==> TextsAllowed(values, s, |values|)
    ensures r.Ok? <==> forall i :: 0 <= i < |values| && values[i].Text? ==> |values[i].s| <= s.columns[i].length
    ensures r.Ok? ==> |r.data| == SizeOf(values, s) && forall i :: 0 <= i < |values| ==> Written(r.data, values, s, i)
    ensures r.Ok? ==> forall i :: 0 <= i < |values| ==>
      Stored(r.data, values[i], s.columns[i].offset, TailAt(values, s.inlineSize, i))
  {
    hide Written, Encoded, FieldAt, Le, TailSize;
    var m := Measure(values, s);
    if m.Exceeds? {
      return TooLong(m.column);
    }
    var data := new byte[m.size](_ => 0);
    var offset := s.inlineSize;
    for i := 0 to |s.columns|
      invariant offset == TailAt(values, s.inlineSize, i)
      invariant forall j :: 0 <= j < i ==> Written(data[..], values, s, j)
    {
      offset := WriteColumn(data, values, s, i, offset);
    }
    r := Ok(data[..]);
    forall i | 0 <= i < |values|
      ensures Stored(r.data, values[i], s.columns[i].offset, TailAt(values, s.inlineSize, i))
    {
      WrittenIsStored(r.data, values, s, i);
    }
  }

  // ---------- reading a tuple ----------

  /** Reads a value where it is stored; a length of a page or more fails the assertion, here as None. */
  function DeserializeFrom(d: seq<byte>, at: nat, t: TypeId): (r: Option<Value>)
  {
    match t
    case INTEGER =>
      if at + 4 > |d| then None
      else
        LeOfUnLe(d[at..at + 4]);
        Some(Int(Unsigned(UnLe(d[at..at + 4]), 4)))
    case TIMESTAMP =>
      // four of the eight bytes
      if at + 4 > |d| then None else Some(Time(UnLe(d[at..at + 4])))
    case VARCHAR =>
      if at + 4 > |d| then None
      else
        var len := UnLe(d[at..at + 4]);
        if len >= PAGE_SIZE || at + 4 + len > |d| then None else Some(Text(d[at + 4..at + 4 + len]))
  }

  /** The value of a column; for a string the inline field holds the offset to it, read as a signed number. */
  function GetValue(d: seq<byte>, col: Column): Option<Value> {
    if col.IsInlined() then DeserializeFrom(d, col.offset, col.typeId)
    else if col.offset + 4 > |d| then None
    else
      LeOfUnLe(d[col.offset..col.offset + 4]);
      var at := Unsigned(UnLe(d[col.offset..col.offset + 4]), 4);
      if at < 0 then None else DeserializeFrom(d, at, col.typeId)
  }

  /** The values that come back as they went in: timestamps of 32 bits, strings shorter than a page. */
  predicate Survives(v: Value) {
    match v
    case Int(_) => true
    case Time(t) => t < 0x1_0000_0000
    case Text(s) => |s| < PAGE_SIZE
  }

  /** What reading a written value gives. */
  function ReadBack(v: Value): Option<Value> {
    match v
    case Int(_) => Some(v)
    case Time(t) => Some(Time(t % 0x1_0000_0000))
    case Text(s) => if |s| < PAGE_SIZE then Some(v) else None
  }

  lemma ReadsBackEncoded(d: seq<byte>, at: nat, v: Value)
    requires InRange(v) && at + |Encoded(v)| <= |d| && d[at..at + |Encoded(v)|] == Encoded(v)
    ensures DeserializeFrom(d, at, TypeOf(v)) == ReadBack(v)
  {
    Widths();
    var e := Encoded(v);
    assert d[at..at + 4] == e[..4];
    match v
    case Int(i) =>
      UnLeOfLe(Signed(i, 4), 4);
      assert e[..4] == e;
    case Time(t) =>
      LePrefix(t, 8, 4);
      LeTruncates(t, 4);
    case Text(s) =>
      UnLeOfLe(|s|, 4);
      assert e[..4] == Le(|s|, 4);
      assert d[at + 4..at + 4 + |s|] == e[4..] == s;
  }

  /** The column's string starts where a signed offset still reaches. */
  ghost predicate Reached(values: seq<Value>, s: Schema, i: nat)
    requires i < |values|
  {
    values[i].Text? ==> TailAt(values, s.inlineSize, i) < 0x8000_0000
  }

  /** Reading column `i` of a built tuple returns the original value if and only if the value survives and is
      reached. */
  lemma RoundTrip(values: seq<Value>, s: Schema, d: seq<byte>, i: nat)
    requires SchemaOk(s) && Fitting(values, s) && i < |values| && Written(d, values, s, i)
    ensures GetValue(d, s.columns[i]) == if Reached(values, s, i) then ReadBack(values[i]) else None
    ensures GetValue(d, s.columns[i]) == Some(values[i]) <==> Survives(values[i]) && Reached(values, s, i)
    ensures GetValue(d, s.columns[i]) == match values[i]
      case Int(n) => Some(Int(n))
      case Time(t) => Some(Time(t % 0x1_0000_0000))
      case Text(x) => if |x| < 4096 && TailAt(values, s.inlineSize, i) < 0x8000_0000 then Some(Text(x)) else None
  {
    Widths();
    hide Encoded, FieldAt, TailAt, SchemaOk, Fitting, DeserializeFrom, UnLe, Le, Range;
    Room(values, s, i);
    if values[i].Text? {
      UnLeOfLe(TailAt(values, s.inlineSize, i), 4);
      ReadsBackEncoded(d, TailAt(values, s.inlineSize, i), values[i]);
    } else {
      ReadsBackEncoded(d, FieldAt(s.columns, i), values[i]);
    }
  }

  lemma ReachedIfSmall(values: seq<Value>, s: Schema, i: nat)
    requires SchemaOk(s) && Fitting(values, s) && i < |values| && SizeOf(values, s) < 0x8000_0000
    ensures Reached(values, s, i)
  {
    Room(values, s, i);
  }

  /** The inline fields tile the inline part, the strings tile the rest, and the last one ends where the tuple ends. */
  lemma {:induction false} PartsTile(values: seq<Value>, s: Schema, k: nat)
    requires SchemaOk(s) && Fitting(values, s) && k < SizeOf(values, s)
    ensures k < s.inlineSize ==> exists i :: InField(s, i, k)
    ensures k >= s.inlineSize ==> exists i :: InTail(values, s, i, k)
  {
    if k < s.inlineSize {
      FieldsCover(s.columns, |s.columns|, k);
      var i :| 0 <= i < |s.columns| && FieldAt(s.columns, i) <= k < FieldAt(s.columns, i) + Width(s.columns[i].typeId);
      assert InField(s, i, k);
    } else {
      TailsCover(values, s, |values|, k);
    }
  }

  ghost predicate InField(s: Schema, i: nat, k: nat) {
    i < |s.columns| && s.columns[i].offset <= k < s.columns[i].offset + Width(s.columns[i].typeId)
  }

  ghost predicate InTail(values: seq<Value>, s: Schema, i: nat, k: nat) {
    i < |values| && TailAt(values, s.inlineSize, i) <= k < TailAt(values, s.inlineSize, i) + TailSize(values[i])
  }

  lemma {:induction false} FieldsCover(columns: seq<Column>, n: nat, k: nat)
    requires n <= |columns| && k < FieldAt(columns, n)
    ensures exists i :: 0 <= i < n && FieldAt(columns, i) <= k < FieldAt(columns, i) + Width(columns[i].typeId)
  {
    if n > 0 && k < FieldAt(columns, n - 1) {
      FieldsCover(columns, n - 1, k);
    } else {
      assert FieldAt(columns, n - 1) <= k;
    }
  }

  lemma {:induction false} TailsCover(values: seq<Value>, s: Schema, n: nat, k: nat)
    requires n <= |values| && s.inlineSize <= k < TailAt(values, s.inlineSize, n)
    ensures exists i :: InTail(values, s, i, k)
  {
    if n > 0 && k < TailAt(values, s.inlineSize, n - 1) {
      TailsCover(values, s, n - 1, k);
    } else {
      assert InTail(values, s, n - 1, k);
    }
  }
}
