/** The tagged binary format: what each value is written as, and how it is read back with one field of lookahead. */
module Serialization {
  import opened Bytes

  const TERMINATOR: nat := 0xFFFF

  /** The types the format knows. A map is written as a list of key-value objects, a pointer as a presence byte. */
  datatype Type =
    | Bool
    | Number(width: nat, signed: bool)
    | Str
    | List(elem: Type)
    | Map(key: Type, value: Type)
    | Pointer(elem: Type)
    | Object(fields: Fields)

  /** The fields of an object in order; an optional one is left out when it holds its default. */
  datatype Fields =
    | End
    | Field(id: nat, typ: Type, optional: bool, default: Data, rest: Fields)

  /** A map is the list of its pairs in the order they are walked. */
  datatype Data =
    | Flag(b: bool)
    | Num(n: int)
    | Text(s: seq<byte>)
    | Items(items: seq<Data>)
    | Pairs(pairs: seq<Pair>)
    | Null
    | To(target: Data)
    | Record(values: seq<Data>)

  datatype Pair = Pair(key: Data, value: Data)

  // ---------- types and values ----------

  /** Field ids fit sixteen bits, are not the terminator and are distinct; pointers point to objects. */
  ghost predicate TypeOk(t: Type)
    decreases t, 0
  {
    match t
    case Bool => true
    case Number(w, _) => w == 1 || w == 2 || w == 4 || w == 8
    case Str => true
    case List(e) => TypeOk(e)
    case Map(k, v) => TypeOk(k) && TypeOk(v)
    case Pointer(e) => e.Object? && TypeOk(e)
    case Object(fs) => FieldsOk(fs)
  }

  ghost predicate FieldsOk(fs: Fields)
    decreases fs, 0
  {
    fs.Field? ==>
      && fs.id < TERMINATOR && fs.id !in Ids(fs.rest) && TypeOk(fs.typ)
      && (fs.optional ==> HasType(fs.typ, fs.default)) && FieldsOk(fs.rest)
  }

  ghost function Ids(fs: Fields): set<nat> {
    if fs.End? then {} else {fs.id} + Ids(fs.rest)
  }

  ghost predicate DistinctKeys(ps: seq<Pair>) {
    forall i, j :: 0 <= i < j < |ps| ==> ps[i].key != ps[j].key
  }

  /** The value is one of the type, within the machine's ranges. */
  ghost predicate HasType(t: Type, d: Data)
    decreases t, 0
  {
    match t
    case Bool => d.Flag?
    case Number(w, signed) =>
      d.Num? && w > 0 && if signed then -(Range(w) as int) <= 2 * d.n < Range(w) else 0 <= d.n < Range(w)
    case Str => d.Text? && |d.s| < Range(4)
    case List(e) => d.Items? && |d.items| < Range(8) && forall x :: x in d.items ==> HasType(e, x)
    case Map(k, v) =>
      && d.Pairs? && |d.pairs| < Range(8)
      && (forall p :: p in d.pairs ==> HasType(k, p.key) && HasType(v, p.value))
      && DistinctKeys(d.pairs)
    case Pointer(e) => d.Null? || (d.To? && HasType(e, d.target))
    case Object(fs) => d.Record? && FieldsHaveTypes(fs, d.values)
  }

  ghost predicate FieldsHaveTypes(fs: Fields, vs: seq<Data>)
    decreases fs, 0
  {
    if fs.End? then vs == [] else vs != [] && HasType(fs.typ, vs[0]) && FieldsHaveTypes(fs.rest, vs[1..])
  }

  // ---------- writing ----------

  function Encode(t: Type, d: Data): seq<byte>
    requires HasType(t, d)
    decreases t, 3
  {
    match t
    case Bool => [if d.b then 1 else 0]
    case Number(w, signed) => Le(if signed then Signed(d.n, w) else d.n, w)
    case Str => Le(|d.s|, 4) + d.s
    case List(e) => Le(|d.items|, 8) + EncodeItems(e, d.items)
    case Map(k, v) => Le(|d.pairs|, 8) + EncodePairs(k, v, d.pairs)
    case Pointer(e) => if d.Null? then [0] else [1] + Encode(e, d.target)
    case Object(fs) => EncodeFields(fs, d.values) + Le(TERMINATOR, 2)
  }

  function EncodeItems(e: Type, xs: seq<Data>): seq<byte>
    requires forall x :: x in xs ==> HasType(e, x)
    decreases e, |xs| + 4
  {
    if xs == [] then [] else Encode(e, xs[0]) + EncodeItems(e, xs[1..])
  }

  function EncodePairs(k: Type, v: Type, ps: seq<Pair>): seq<byte>
    requires forall p :: p in ps ==> HasType(k, p.key) && HasType(v, p.value)
    decreases Map(k, v), 1, |ps|
  {
    if ps == [] then []
    else EncodePair(k, v, ps[0]) + EncodePairs(k, v, ps[1..])
  }

  function EncodePair(k: Type, v: Type, p: Pair): seq<byte>
    requires HasType(k, p.key) && HasType(v, p.value)
    decreases Map(k, v), 0
  {
    (Le(0, 2) + Encode(k, p.key)) + (Le(1, 2) + Encode(v, p.value)) + Le(TERMINATOR, 2)
  }

  function EncodeFields(fs: Fields, vs: seq<Data>): seq<byte>
    requires FieldsHaveTypes(fs, vs)
    decreases fs, 0
  {
    if fs.End? then [] else EncodeField(fs, vs[0]) + EncodeFields(fs.rest, vs[1..])
  }

  function EncodeField(f: Fields, d: Data): seq<byte>
    requires f.Field? && HasType(f.typ, d)
    decreases f.typ, 4
  {
    if f.optional && d == f.default then [] else Le(f.id, 2) + Encode(f.typ, d)
  }

  /** What each kind of value is made of, one level deep. */
  lemma Parts(t: Type, d: Data)
    requires HasType(t, d)
    ensures t.List? ==> d.Items? && (forall x :: x in d.items ==> HasType(t.elem, x))
                        && Encode(t, d) == Le(|d.items|, 8) + EncodeItems(t.elem, d.items)
    ensures t.Map? ==> d.Pairs? && (forall p :: p in d.pairs ==> HasType(t.key, p.key) && HasType(t.value, p.value))
                       && Encode(t, d) == Le(|d.pairs|, 8) + EncodePairs(t.key, t.value, d.pairs)
    ensures t.Pointer? && !d.Null? ==> d.To? && HasType(t.elem, d.target)
                                       && Encode(t, d) == [1] + Encode(t.elem, d.target)
    ensures t.Pointer? && d.Null? ==> Encode(t, d) == [0]
  {}

  // ---------- the bytes in plain numbers ----------

  /** The two bytes of a field id or of the terminator. */
  lemma TwoBytes(n: nat)
    requires n < 0x1_0000
    ensures Le(n, 2) == [(n % 256) as byte, (n / 256) as byte]
    ensures Le(0, 2) == [0, 0] && Le(1, 2) == [1, 0] && Le(TERMINATOR, 2) == [0xFF, 0xFF]
  {
    LowFirst(n);
    LowFirst(0);
    LowFirst(1);
    LowFirst(TERMINATOR);
  }

  /** A flag and a pointer's presence are one byte; a number is its width in bytes, low byte first, a negative one as
      its distance below the next power of 256. */
  lemma ScalarBytes(w: nat, signed: bool, n: int, b: bool)
    requires (w == 1 || w == 2 || w == 4 || w == 8) && HasType(Number(w, signed), Num(n))
    ensures Encode(Bool, Flag(b)) == [if b then 1 else 0]
    ensures var bytes := Encode(Number(w, signed), Num(n));
      && |bytes| == w
      && UnLe(bytes) == n + if n >= 0 then 0 else if w == 1 then 0x100 else if w == 2 then 0x1_0000
                            else if w == 4 then 0x1_0000_0000 else 0x1_0000_0000_0000_0000
  {
    Widths();
    UnLeOfLe(if signed then Signed(n, w) else n, w);
  }

  /** The numbers a width can carry. */
  lemma NumbersFit(n: int)
    ensures HasType(Number(1, false), Num(n)) <==> 0 <= n < 0x100
    ensures HasType(Number(4, false), Num(n)) <==> 0 <= n < 0x1_0000_0000
    ensures HasType(Number(8, false), Num(n)) <==> 0 <= n < 0x1_0000_0000_0000_0000
    ensures HasType(Number(4, true), Num(n)) <==> -0x8000_0000 <= n < 0x8000_0000
    ensures HasType(Number(8, true), Num(n)) <==> -0x8000_0000_0000_0000 <= n < 0x8000_0000_0000_0000
  {
    Widths();
  }

  /** A string is its length in four bytes and its characters. */
  lemma TextBytes(x: seq<byte>)
    requires |x| < 0x1_0000_0000
    ensures HasType(Str, Text(x))
    ensures var bytes := Encode(Str, Text(x)); |bytes| == 4 + |x| && UnLe(bytes[..4]) == |x| && bytes[4..] == x
  {
    Widths();
    UnLeOfLe(|x|, 4);
    assert Encode(Str, Text(x))[..4] == Le(|x|, 4);
  }

  /** A list is its length in eight bytes and its items one after the other. */
  lemma ListBytes(e: Type, xs: seq<Data>)
    requires HasType(List(e), Items(xs))
    ensures var bytes := Encode(List(e), Items(xs));
      |bytes| >= 8 && UnLe(bytes[..8]) == |xs| && bytes[8..] == EncodeItems(e, xs)
    ensures EncodeItems(e, []) == []
    ensures xs != [] ==> EncodeItems(e, xs) == Encode(e, xs[0]) + EncodeItems(e, xs[1..])
  {
    UnLeOfLe(|xs|, 8);
    assert Encode(List(e), Items(xs))[..8] == Le(|xs|, 8);
  }

  /** A map is its length in eight bytes and its pairs one after the other. */
  lemma MapBytes(k: Type, v: Type, ps: seq<Pair>)
    requires HasType(Map(k, v), Pairs(ps))
    ensures var bytes := Encode(Map(k, v), Pairs(ps));
      |bytes| >= 8 && UnLe(bytes[..8]) == |ps| && bytes[8..] == EncodePairs(k, v, ps)
    ensures EncodePairs(k, v, []) == []
    ensures ps != [] ==> EncodePairs(k, v, ps) == EncodePair(k, v, ps[0]) + EncodePairs(k, v, ps[1..])
  {
    UnLeOfLe(|ps|, 8);
    MapIs(k, v, Pairs(ps));
    hide Encode, EncodePair, HasType;
    assert Encode(Map(k, v), Pairs(ps))[..8] == Le(|ps|, 8);
  }

  /** A pair is an object of the key under 0 and the value under 1. */
  lemma PairBytes(k: Type, v: Type, p: Pair)
    requires HasType(k, p.key) && HasType(v, p.value)
    ensures EncodePair(k, v, p) == [0, 0] + Encode(k, p.key) + [1, 0] + Encode(v, p.value) + [0xFF, 0xFF]
  {
    hide Encode, HasType;
    TwoBytes(0);
  }

  /** A pointer is a zero, or a one and its target. */
  lemma PointerBytes(e: Type, x: Data)
    requires HasType(e, x)
    ensures Encode(Pointer(e), Null) == [0] && Encode(Pointer(e), To(x)) == [1] + Encode(e, x)
  {}

  /** An object is its properties and FF FF; a property is its id, low byte first, and its value, and an optional one is
      left out when it holds its default. */
  lemma ObjectBytes(fs: Fields, vs: seq<Data>)
    requires FieldsHaveTypes(fs, vs)
    ensures Encode(Object(fs), Record(vs)) == EncodeFields(fs, vs) + [0xFF, 0xFF]
    ensures fs.End? ==> EncodeFields(fs, vs) == []
    ensures fs.Field? && fs.id < 0x1_0000 ==>
      var first := if fs.optional && vs[0] == fs.default then []
                   else [(fs.id % 256) as byte, (fs.id / 256) as byte] + Encode(fs.typ, vs[0]);
      EncodeFields(fs, vs) == first + EncodeFields(fs.rest, vs[1..])
  {
    TwoBytes(0);
    if fs.Field? && fs.id < 0x1_0000 { TwoBytes(fs.id); }
  }

  // ---------- reading ----------

  /** What is left of the stream, the field id looked ahead at, and how many objects are open. */
  datatype Reader = Reader(rest: seq<byte>, ahead: Option<nat>, level: int)

  datatype Read<T> = Got(value: T, reader: Reader) | Failed

  function Raw(r: Reader, n: nat): (x: Read<seq<byte>>)
    ensures x.Got? ==> |x.value| == n
  {
    if n > |r.rest| then Failed else Got(r.rest[..n], r.(rest := r.rest[n..]))
  }

  function ReadNat(r: Reader, w: nat): (x: Read<nat>)
    ensures x.Got? ==> x.value < Range(w)
  {
    var x := Raw(r, w);
    if x.Failed? then Failed
    else
      LeOfUnLe(x.value);
      Got(UnLe(x.value), x.reader)
  }

  /** The next field id stays pending. */
  function PeekField(r: Reader): Read<nat> {
    if r.ahead.Some? then Got(r.ahead.value, r)
    else
      var x := ReadNat(r, 2);
      if x.Failed? then Failed else Got(x.value, x.reader.(ahead := Some(x.value)))
  }

  function NextField(r: Reader): Read<nat> {
    if r.ahead.Some? then Got(r.ahead.value, r.(ahead := None)) else ReadNat(r, 2)
  }

  /** The next field must be this one. */
  function Expect(r: Reader, id: nat): Read<()> {
    var x := NextField(r);
    if x.Got? && x.value == id then Got((), x.reader) else Failed
  }

  function Decode(t: Type, r: Reader): Read<Data>
    decreases t, 3
  {
    match t
    case Bool =>
      var x := ReadNat(r, 1);
      if x.Failed? then Failed else Got(Flag(x.value != 0), x.reader)
    case Number(w, signed) =>
      var x := ReadNat(r, w);
      if x.Failed? then Failed else Got(Num(if signed && w > 0 then Unsigned(x.value, w) else x.value), x.reader)
    case Str =>
      var n := ReadNat(r, 4);
      if n.Failed? then Failed
      else if n.value == 0 then Got(Text([]), n.reader)
      else
        var x := Raw(n.reader, n.value);
        if x.Failed? then Failed else Got(Text(x.value), x.reader)
    case List(e) =>
      var n := ReadNat(r, 8);
      if n.Failed? then Failed
      else
        var x := DecodeItems(e, n.value, [], n.reader);
        if x.Failed? then Failed else Got(Items(x.value), x.reader)
    case Map(k, v) =>
      var n := ReadNat(r, 8);
      if n.Failed? then Failed
      else
        var x := DecodePairs(k, v, n.value, [], n.reader);
        if x.Failed? then Failed else Got(Pairs(x.value), x.reader)
    case Pointer(e) =>
      var p := ReadNat(r, 1);
      if p.Failed? then Failed
      else if p.value == 0 then Got(Null, p.reader)
      else if e.Object? then
        var x := Decode(e, p.reader);
        if x.Failed? then Failed else Got(To(x.value), x.reader)
      else
        // the reader treats the target as an object of its own
        var x := Decode(e, Opened(p.reader));
        if x.Failed? then Failed
        else
          var y := Closed(x.reader);
          if y.Failed? then Failed else Got(To(x.value), y.reader)
    case Object(fs) =>
      var x := DecodeFields(fs, Opened(r));
      if x.Failed? then Failed
      else
        var y := Closed(x.reader);
        if y.Failed? then Failed else Got(Record(x.value), y.reader)
  }

  function Opened(r: Reader): Reader { r.(level := r.level + 1) }

  function Closed(r: Reader): Read<()> {
    var x := Expect(r, TERMINATOR);
    if x.Failed? then Failed else Got((), x.reader.(level := x.reader.level - 1))
  }

  /** An object ends where FF FF is next, looked ahead at or not. */
  lemma ClosedAt(r: Reader)
    ensures var ended := if r.ahead.Some? then r.ahead.value == 0xFFFF
                         else |r.rest| >= 2 && r.rest[..2] == [0xFF, 0xFF];
      Closed(r) == if !ended then Failed
                   else Got((), Reader(if r.ahead.Some? then r.rest else r.rest[2..], None, r.level - 1))
  {
    if r.ahead.None? && |r.rest| >= 2 { ReadTwo(r.rest[..2]); }
  }

  /** The next field id is the one looked at, or two bytes, low byte first. */
  lemma NextFieldIs(r: Reader)
    ensures NextField(r) ==
      if r.ahead.Some? then Got(r.ahead.value, r.(ahead := None))
      else if |r.rest| < 2 then Failed
      else Got(r.rest[0] as nat + 0x100 * r.rest[1] as nat, r.(rest := r.rest[2..]))
  {
    if r.ahead.None? && |r.rest| >= 2 { ReadTwo(r.rest[..2]); }
  }

  /** Any byte but zero reads as true and as a pointer that is there. */
  lemma AnyByteButZero(e: Type, r: Reader)
    ensures Decode(Bool, r) == if r.rest == [] then Failed else Got(Flag(r.rest[0] != 0), r.(rest := r.rest[1..]))
    ensures r.rest == [] ==> Decode(Pointer(e), r).Failed?
    ensures r.rest != [] ==> (Decode(Pointer(e), r) == Got(Null, r.(rest := r.rest[1..])) <==> r.rest[0] == 0)
  {
    if r.rest != [] {
      ReadLowFirst(r.rest[..1]);
    }
  }

  function DecodeItems(e: Type, n: nat, done: seq<Data>, r: Reader): Read<seq<Data>>
    decreases e, n + 4
  {
    if n == 0 then Got(done, r)
    else
      var x := Decode(e, r);
      if x.Failed? then Failed else DecodeItems(e, n - 1, done + [x.value], x.reader)
  }

  /** A later pair with the same key replaces the value of the earlier one. */
  function Inserted(ps: seq<Pair>, p: Pair): seq<Pair> {
    if ps == [] then [p]
    else if ps[0].key == p.key then [p] + ps[1..]
    else [ps[0]] + Inserted(ps[1..], p)
  }

  lemma {:induction false} LaterPairWins(ps: seq<Pair>, p: Pair)
    requires DistinctKeys(ps)
    ensures DistinctKeys(Inserted(ps, p))
    ensures forall q :: q in Inserted(ps, p) <==> q == p || (q in ps && q.key != p.key)
  {
    if ps != [] {
      var rest := ps[1..];
      assert forall q :: q in ps <==> q == ps[0] || q in rest;
      assert forall q :: q in rest ==> q.key != ps[0].key;
      if ps[0].key != p.key {
        LaterPairWins(rest, p);
        var after := Inserted(rest, p);
        assert forall q :: q in after ==> q.key != ps[0].key;
        forall i, j | 0 <= i < j < |Inserted(ps, p)| ensures Inserted(ps, p)[i].key != Inserted(ps, p)[j].key {
          assert i > 0 ==> after[i - 1].key != after[j - 1].key;
          assert after[j - 1] in after;
        }
      } else {
        forall i, j | 0 <= i < j < |Inserted(ps, p)| ensures Inserted(ps, p)[i].key != Inserted(ps, p)[j].key {
          assert i > 0 ==> ps[i].key != ps[j].key;
          assert ps[j] in rest;
        }
      }
    }
  }

  function DecodeProperty(id: nat, t: Type, r: Reader): Read<Data>
    decreases t, 4
  {
    var x := Expect(r, id);
    if x.Failed? then Failed else Decode(t, x.reader)
  }

  function DecodePair(k: Type, v: Type, r: Reader): Read<Pair>
    decreases Map(k, v), 0
  {
    var key := DecodeProperty(0, k, Opened(r));
    if key.Failed? then Failed else
    var value := DecodeProperty(1, v, key.reader);
    if value.Failed? then Failed else
    var z := Closed(value.reader);
    if z.Failed? then Failed else Got(Pair(key.value, value.value), z.reader)
  }

  function DecodePairs(k: Type, v: Type, n: nat, done: seq<Pair>, r: Reader): Read<seq<Pair>>
    decreases Map(k, v), 1, n
  {
    if n == 0 then Got(done, r)
    else
      var p := DecodePair(k, v, r);
      if p.Failed? then Failed else DecodePairs(k, v, n - 1, Inserted(done, p.value), p.reader)
  }

  function DecodeFields(fs: Fields, r: Reader): Read<seq<Data>>
    decreases fs, 0
  {
    if fs.End? then Got([], r)
    else
      var x := DecodeField(fs, r);
      if x.Failed? then Failed
      else
        var y := DecodeFields(fs.rest, x.reader);
        if y.Failed? then Failed else Got([x.value] + y.value, y.reader)
  }

  function DecodeField(f: Fields, r: Reader): Read<Data>
    requires f.Field?
    decreases f.typ, 5
  {
    if f.optional then
      var x := PeekField(r);
      if x.Failed? then Failed
      else if x.value != f.id then Got(f.default, x.reader)
      else Decode(f.typ, x.reader.(ahead := None))
    else DecodeProperty(f.id, f.typ, r)
  }

  // ---------- reading undoes writing ----------

  /** The bytes still to be read, with a field id looked ahead at put back in front. */
  function Pending(r: Reader): seq<byte> {
    if r.ahead.Some? then Le(r.ahead.value, 2) + r.rest else r.rest
  }

  ghost predicate ReaderOk(r: Reader) { r.ahead.Some? ==> r.ahead.value < Range(2) }

  lemma RawReads(r: Reader, s: seq<byte>, rest: seq<byte>)
    requires r.rest == s + rest
    ensures Raw(r, |s|) == Got(s, r.(rest := rest))
  {
    assert r.rest[..|s|] == s && r.rest[|s|..] == rest;
  }

  lemma NatReads(r: Reader, n: nat, w: nat, rest: seq<byte>)
    requires n < Range(w) && r.rest == Le(n, w) + rest
    ensures ReadNat(r, w) == Got(n, r.(rest := rest))
  {
    RawReads(r, Le(n, w), rest);
    UnLeOfLe(n, w);
  }

  /** Whether or not it was looked at before, the next field id comes off the front of what is pending. */
  lemma NextReads(r: Reader, id: nat, rest: seq<byte>)
    requires ReaderOk(r) && id < Range(2) && Pending(r) == Le(id, 2) + rest
    ensures NextField(r) == Got(id, Reader(rest, None, r.level))
  {
    if r.ahead.Some? {
      SplitAt2(Le(r.ahead.value, 2), r.rest, Le(id, 2), rest);
      UnLeOfLe(id, 2);
      UnLeOfLe(r.ahead.value, 2);
    } else {
      NatReads(r, id, 2, rest);
    }
  }

  lemma SplitAt2(a: seq<byte>, b: seq<byte>, c: seq<byte>, d: seq<byte>)
    requires |a| == |c| == 2 && a + b == c + d
    ensures a == c && b == d
  {
    assert a == (a + b)[..2] && c == (c + d)[..2];
    assert b == (a + b)[2..] && d == (c + d)[2..];
  }

  /** Looking ahead changes nothing that is pending. */
  lemma PeekReads(r: Reader)
    requires ReaderOk(r) && |Pending(r)| >= 2
    ensures var x := PeekField(r);
      x.Got? && x.value == UnLe(Pending(r)[..2]) && Pending(x.reader) == Pending(r) && ReaderOk(x.reader)
      && x.reader.ahead == Some(x.value) && x.reader.level == r.level
      && x.reader.rest == Pending(r)[2..]
  {
    if r.ahead.Some? {
      assert Pending(r)[..2] == Le(r.ahead.value, 2) && Pending(r)[2..] == r.rest;
      UnLeOfLe(r.ahead.value, 2);
    } else {
      LeOfUnLe(r.rest[..2]);
      assert r.rest == r.rest[..2] + r.rest[2..];
    }
  }

  /** Reading a value written gives that value back and leaves exactly what followed it; no field id is pending. */
  lemma {:induction false} RoundTrip(t: Type, d: Data, r: Reader, rest: seq<byte>)
    requires TypeOk(t) && HasType(t, d) && r.ahead.None? && r.rest == Encode(t, d) + rest
    ensures Decode(t, r) == Got(d, r.(rest := rest))
    decreases t, 3
  {
    match t
    case Bool =>
      OneByte(if d.b then 1 else 0);
      Widths();
      NatReads(r, if d.b then 1 else 0, 1, rest);
    case Number(w, signed) =>
      NatReads(r, if signed then Signed(d.n, w) else d.n, w, rest);
    case Str =>
      assert r.rest == Le(|d.s|, 4) + (d.s + rest);
      NatReads(r, |d.s|, 4, d.s + rest);
      RawReads(r.(rest := d.s + rest), d.s, rest);
      assert d.s == [] ==> d.s + rest == rest;
    case List(e) => ListRoundTrip(e, d, r, rest);
    case Map(k, v) => MapRoundTrip(k, v, d, r, rest);
    case Pointer(e) => PointerRoundTrip(e, d, r, rest);
    case Object(fs) => ObjectRoundTrip(fs, d, r, rest);
  }

  lemma ListRoundTrip(e: Type, d: Data, r: Reader, rest: seq<byte>)
    requires TypeOk(e) && HasType(List(e), d) && r.ahead.None? && r.rest == Encode(List(e), d) + rest
    ensures Decode(List(e), r) == Got(d, r.(rest := rest))
    decreases List(e), 2
  {
    hide Le, UnLe, ReadNat;
    var more := EncodeItems(e, d.items) + rest;
    assert r.rest == Le(|d.items|, 8) + more;
    NatReads(r, |d.items|, 8, more);
    ItemsRoundTrip(e, d.items, [], r.(rest := more), rest);
    assert [] + d.items == d.items;
  }

  lemma MapIs(k: Type, v: Type, d: Data)
    requires HasType(Map(k, v), d)
    ensures d.Pairs? && |d.pairs| < Range(8) && DistinctKeys(d.pairs)
    ensures forall p :: p in d.pairs ==> HasType(k, p.key) && HasType(v, p.value)
    ensures Encode(Map(k, v), d) == Le(|d.pairs|, 8) + EncodePairs(k, v, d.pairs)
  {}

  lemma MapRoundTrip(k: Type, v: Type, d: Data, r: Reader, rest: seq<byte>)
    requires TypeOk(k) && TypeOk(v) && HasType(Map(k, v), d) && r.ahead.None? && r.rest == Encode(Map(k, v), d) + rest
    ensures Decode(Map(k, v), r) == Got(d, r.(rest := rest))
    decreases Map(k, v), 2
  {
    hide Encode, EncodePairs, HasType, TypeOk, Le, UnLe, ReadNat;
    MapIs(k, v, d);
    var more := EncodePairs(k, v, d.pairs) + rest;
    assert r.rest == Le(|d.pairs|, 8) + more;
    NatReads(r, |d.pairs|, 8, more);
    PairsRoundTrip(k, v, d.pairs, [], r.(rest := more), rest);
    assert [] + d.pairs == d.pairs;
  }

  lemma PointerRoundTrip(e: Type, d: Data, r: Reader, rest: seq<byte>)
    requires TypeOk(Pointer(e)) && HasType(Pointer(e), d) && r.ahead.None? && r.rest == Encode(Pointer(e), d) + rest
    ensures Decode(Pointer(e), r) == Got(d, r.(rest := rest))
    decreases Pointer(e), 2
  {
    Widths();
    OneByte(if d.Null? then 0 else 1);
    if d.Null? {
      NatReads(r, 0, 1, rest);
    } else {
      assert r.rest == Le(1, 1) + (Encode(e, d.target) + rest);
      NatReads(r, 1, 1, Encode(e, d.target) + rest);
      RoundTrip(e, d.target, r.(rest := Encode(e, d.target) + rest), rest);
    }
  }

  lemma ObjectRoundTrip(fs: Fields, d: Data, r: Reader, rest: seq<byte>)
    requires FieldsOk(fs) && HasType(Object(fs), d) && r.ahead.None? && r.rest == Encode(Object(fs), d) + rest
    ensures Decode(Object(fs), r) == Got(d, r.(rest := rest))
    decreases Object(fs), 2
  {
    var tail := Le(TERMINATOR, 2) + rest;
    assert r.rest == EncodeFields(fs, d.values) + tail;
    TerminatorFollows(fs, rest);
    FieldsRoundTrip(fs, d.values, Opened(r), tail);
    Widths();
    NextReads(DecodeFields(fs, Opened(r)).reader, TERMINATOR, rest);
  }

  lemma OneByte(n: nat)
    requires n < 256
    ensures Le(n, 1) == [n as byte]
  {
    assert Le(n / 256, 0) == [];
  }

  lemma {:induction false} ItemsRoundTrip(e: Type, xs: seq<Data>, done: seq<Data>, r: Reader, rest: seq<byte>)
    requires TypeOk(e) && (forall x :: x in xs ==> HasType(e, x))
    requires r.ahead.None? && r.rest == EncodeItems(e, xs) + rest
    ensures DecodeItems(e, |xs|, done, r) == Got(done + xs, r.(rest := rest))
    decreases e, |xs| + 4
  {
    hide Encode, Decode, HasType, TypeOk, Le, UnLe, Range;
    if xs == [] {
      assert r.rest == rest && done + xs == done;
    } else {
      assert r.rest == Encode(e, xs[0]) + (EncodeItems(e, xs[1..]) + rest);
      RoundTrip(e, xs[0], r, EncodeItems(e, xs[1..]) + rest);
      ItemsRoundTrip(e, xs[1..], done + [xs[0]], r.(rest := EncodeItems(e, xs[1..]) + rest), rest);
      assert done + [xs[0]] + xs[1..] == done + xs;
    }
  }

  lemma {:induction false} InsertedNew(ps: seq<Pair>, p: Pair, more: seq<Pair>)
    requires DistinctKeys(ps + ([p] + more))
    ensures Inserted(ps, p) == ps + [p]
  {
    if ps != [] {
      var all := ps + ([p] + more);
      assert ps[1..] + ([p] + more) == all[1..];
      assert all[0] == ps[0] && all[|ps|] == p;
      InsertedNew(ps[1..], p, more);
    }
  }

  lemma {:induction false} PairsRoundTrip(k: Type, v: Type, ps: seq<Pair>, done: seq<Pair>, r: Reader, rest: seq<byte>)
    requires TypeOk(k) && TypeOk(v) && (forall p :: p in ps ==> HasType(k, p.key) && HasType(v, p.value))
    requires DistinctKeys(done + ps) && r.ahead.None? && r.rest == EncodePairs(k, v, ps) + rest
    ensures DecodePairs(k, v, |ps|, done, r) == Got(done + ps, r.(rest := rest))
    decreases Map(k, v), 1, |ps|
  {
    hide Encode, EncodePair, Decode, DecodePair, Le, UnLe, Range, HasType, TypeOk, DistinctKeys, Inserted;
    if ps == [] {
      assert r.rest == rest && done + ps == done;
    } else {
      var more := EncodePairs(k, v, ps[1..]) + rest;
      assert r.rest == EncodePair(k, v, ps[0]) + more;
      PairRoundTrip(k, v, ps[0], r, more);
      assert ps == [ps[0]] + ps[1..];
      InsertedNew(done, ps[0], ps[1..]);
      assert done + ps == done + [ps[0]] + ps[1..];
      PairsRoundTrip(k, v, ps[1..], done + [ps[0]], r.(rest := more), rest);
      assert done + [ps[0]] + ps[1..] == done + ps;
    }
  }

  lemma PairRoundTrip(k: Type, v: Type, p: Pair, r: Reader, rest: seq<byte>)
    requires TypeOk(k) && TypeOk(v) && HasType(k, p.key) && HasType(v, p.value) && r.ahead.None?
    requires r.rest == EncodePair(k, v, p) + rest
    ensures DecodePair(k, v, r) == Got(p, r.(rest := rest))
    decreases Map(k, v), 0
  {
    hide Encode, Decode, Le, UnLe, HasType, TypeOk, NextField, Range;
    Widths();
    var r4 := Le(TERMINATOR, 2) + rest;
    var r3 := Encode(v, p.value) + r4;
    var r2 := Le(1, 2) + r3;
    var r1 := Encode(k, p.key) + r2;
    assert r.rest == Le(0, 2) + r1;
    var o := Opened(r);
    NextReads(o, 0, r1);
    RoundTrip(k, p.key, o.(rest := r1), r2);
    NextReads(o.(rest := r2), 1, r3);
    RoundTrip(v, p.value, o.(rest := r3), r4);
    NextReads(o.(rest := r4), TERMINATOR, rest);
  }

  // ---------- fields and lookahead ----------

  ghost predicate EndsMandatory(fs: Fields) {
    fs.Field? && if fs.rest.End? then !fs.optional else EndsMandatory(fs.rest)
  }

  /** Some field is always written. */
  ghost predicate HasMandatory(fs: Fields) { fs.Field? && (!fs.optional || HasMandatory(fs.rest)) }

  /**
   * What follows the fields must be telling: if nothing after an optional field is sure to be written, two bytes that
   * are not its id must follow. A closing terminator will do for any object; an object that ends in a mandatory field
   * needs nothing.
   */
  ghost predicate Followed(fs: Fields, tail: seq<byte>) {
    fs.Field? ==>
      && (fs.optional && !HasMandatory(fs.rest) ==> |tail| >= 2 && UnLe(tail[..2]) != fs.id)
      && Followed(fs.rest, tail)
  }

  lemma {:induction false} TerminatorFollows(fs: Fields, rest: seq<byte>)
    requires FieldsOk(fs)
    ensures Followed(fs, Le(TERMINATOR, 2) + rest)
  {
    if fs.Field? {
      Widths();
      UnLeOfLe(TERMINATOR, 2);
      assert (Le(TERMINATOR, 2) + rest)[..2] == Le(TERMINATOR, 2);
      TerminatorFollows(fs.rest, rest);
    }
  }

  /** What comes after an absent optional field does not begin with its id. */
  lemma {:induction false} NextIdDiffers(id: nat, fs: Fields, vs: seq<Data>, tail: seq<byte>)
    requires FieldsOk(fs) && FieldsHaveTypes(fs, vs) && id !in Ids(fs)
    requires HasMandatory(fs) || (|tail| >= 2 && UnLe(tail[..2]) != id)
    ensures var s := EncodeFields(fs, vs) + tail; |s| >= 2 && UnLe(s[..2]) != id
  {
    hide Encode, HasType, TypeOk, Range;
    var s := EncodeFields(fs, vs) + tail;
    if fs.End? {
      assert s == tail;
    } else if EncodeField(fs, vs[0]) == [] {
      assert s == EncodeFields(fs.rest, vs[1..]) + tail;
      NextIdDiffers(id, fs.rest, vs[1..], tail);
    } else {
      Widths();
      UnLeOfLe(fs.id, 2);
      assert s[..2] == Le(fs.id, 2);
    }
  }

  /** Reading the fields gives their values back, absent ones as their defaults, and what followed is still pending. */
  lemma {:induction false} FieldsRoundTrip(fs: Fields, vs: seq<Data>, r: Reader, tail: seq<byte>)
    requires FieldsOk(fs) && FieldsHaveTypes(fs, vs) && Followed(fs, tail)
    requires ReaderOk(r) && Pending(r) == EncodeFields(fs, vs) + tail
    ensures var x := DecodeFields(fs, r);
      && x.Got? && x.value == vs && Pending(x.reader) == tail && ReaderOk(x.reader) && x.reader.level == r.level
      && (EndsMandatory(fs) ==> x.reader.ahead.None?) && (fs.End? ==> x.reader == r)
    decreases fs, 0
  {
    hide Encode, Decode, Le, UnLe, HasType, TypeOk, PeekField;
    if fs.End? {
      assert Pending(r) == tail;
    } else {
      var more := EncodeFields(fs.rest, vs[1..]) + tail;
      assert Pending(r) == EncodeField(fs, vs[0]) + more;
      if fs.optional && vs[0] == fs.default {
        assert Pending(r) == more;
        NextIdDiffers(fs.id, fs.rest, vs[1..], tail);
        PeekReads(r);
        FieldsRoundTrip(fs.rest, vs[1..], PeekField(r).reader, tail);
      } else {
        FieldRoundTrip(fs, vs[0], r, more);
        FieldsRoundTrip(fs.rest, vs[1..], Reader(more, None, r.level), tail);
      }
      assert [vs[0]] + vs[1..] == vs;
    }
  }

  /** A field that was written. */
  lemma FieldRoundTrip(f: Fields, d: Data, r: Reader, rest: seq<byte>)
    requires FieldsOk(f) && f.Field? && HasType(f.typ, d) && !(f.optional && d == f.default)
    requires ReaderOk(r) && Pending(r) == EncodeField(f, d) + rest
    ensures DecodeField(f, r) == Got(d, Reader(rest, None, r.level))
    decreases f.typ, 4
  {
    Widths();
    var more := Encode(f.typ, d) + rest;
    assert Pending(r) == Le(f.id, 2) + more;
    RoundTrip(f.typ, d, Reader(more, None, r.level), rest);
    if f.optional {
      PeekReads(r);
      UnLeOfLe(f.id, 2);
      assert Pending(r)[..2] == Le(f.id, 2) && Pending(r)[2..] == more;
    } else {
      NextReads(r, f.id, more);
    }
  }

  lemma {:induction false} MandatoryEndFollows(fs: Fields, tail: seq<byte>)
    requires EndsMandatory(fs)
    ensures HasMandatory(fs) && Followed(fs, tail)
  {
    if fs.rest.Field? {
      MandatoryEndFollows(fs.rest, tail);
    }
  }

  /**
   * An object that ends in a mandatory field needs no terminator: it is read back whatever follows, exactly its bytes
   * are consumed and no field id is pending.
   */
  lemma UnterminatedRoundTrip(fs: Fields, vs: seq<Data>, r: Reader, tail: seq<byte>)
    requires FieldsOk(fs) && FieldsHaveTypes(fs, vs) && EndsMandatory(fs)
    requires r.ahead.None? && r.rest == EncodeFields(fs, vs) + tail
    ensures DecodeFields(fs, r) == Got(vs, r.(rest := tail))
  {
    MandatoryEndFollows(fs, tail);
    FieldsRoundTrip(fs, vs, r, tail);
  }

  // ---------- where it does not ----------

  /**
   * A pointer to something that is not an object: the reader expects a terminator the writer never wrote. So reading
   * works if and only if a terminator happens to follow, and then swallows it.
   */
  lemma PointerToValue(e: Type, x: Data, r: Reader, rest: seq<byte>)
    requires TypeOk(e) && !e.Object? && HasType(e, x) && r.ahead.None? && r.rest == Encode(Pointer(e), To(x)) + rest
    ensures Decode(Pointer(e), r) ==
      if |rest| >= 2 && UnLe(rest[..2]) == TERMINATOR then Got(To(x), r.(rest := rest[2..])) else Failed
  {
    hide EncodeFields, HasType, TypeOk, Le, UnLe, ReadNat, Range;
    PointerIs(e, x);
    var s := Opened(r.(rest := Encode(e, x) + rest));
    RoundTrip(e, x, s, rest);
    assert r.rest == [1] + (Encode(e, x) + rest);
    PresenceReads(r, Encode(e, x) + rest);
    ClosedReads(s.(rest := rest));
  }

  lemma PointerIs(e: Type, x: Data)
    requires HasType(e, x)
    ensures HasType(Pointer(e), To(x)) && Encode(Pointer(e), To(x)) == [1] + Encode(e, x)
  {
    OneByte(1);
  }

  lemma PresenceReads(r: Reader, rest: seq<byte>)
    requires r.rest == [1] + rest
    ensures ReadNat(r, 1) == Got(1, r.(rest := rest))
  {
    OneByte(1);
    Widths();
    NatReads(r, 1, 1, rest);
  }

  lemma ClosedReads(r: Reader)
    requires r.ahead.None?
    ensures Closed(r) == if |r.rest| >= 2 && UnLe(r.rest[..2]) == TERMINATOR
                         then Got((), r.(rest := r.rest[2..], level := r.level - 1)) else Failed
  {}

  /** Reading only ever takes bytes away. */
  ghost predicate Shrinks(r: Reader, s: Reader) { |Pending(s)| <= |Pending(r)| }

  lemma {:induction false} DecodeShrinks(t: Type, r: Reader)
    ensures Decode(t, r).Got? ==> Shrinks(r, Decode(t, r).reader)
    decreases t, 3
  {
    match t
    case Bool =>
    case Number(w, signed) =>
    case Str =>
    case List(e) =>
      var n := ReadNat(r, 8);
      if n.Got? {
        ItemsShrink(e, n.value, [], n.reader);
      }
    case Map(k, v) =>
      var n := ReadNat(r, 8);
      if n.Got? {
        PairsShrink(k, v, n.value, [], n.reader);
      }
    case Pointer(e) =>
      var p := ReadNat(r, 1);
      if p.Got? {
        DecodeShrinks(e, p.reader);
        DecodeShrinks(e, Opened(p.reader));
      }
    case Object(fs) =>
      FieldsShrink(fs, Opened(r));
  }

  lemma {:induction false} ItemsShrink(e: Type, n: nat, done: seq<Data>, r: Reader)
    ensures DecodeItems(e, n, done, r).Got? ==> Shrinks(r, DecodeItems(e, n, done, r).reader)
    decreases e, n + 4
  {
    if n > 0 {
      var x := Decode(e, r);
      DecodeShrinks(e, r);
      if x.Got? {
        ItemsShrink(e, n - 1, done + [x.value], x.reader);
      }
    }
  }

  lemma {:induction false} PairsShrink(k: Type, v: Type, n: nat, done: seq<Pair>, r: Reader)
    ensures DecodePairs(k, v, n, done, r).Got? ==> Shrinks(r, DecodePairs(k, v, n, done, r).reader)
    decreases Map(k, v), 1, n
  {
    if n > 0 {
      PairShrinks(k, v, r);
      var p := DecodePair(k, v, r);
      if p.Got? {
        PairsShrink(k, v, n - 1, Inserted(done, p.value), p.reader);
      }
    }
  }

  lemma PairShrinks(k: Type, v: Type, r: Reader)
    ensures DecodePair(k, v, r).Got? ==> Shrinks(r, DecodePair(k, v, r).reader)
    decreases Map(k, v), 0
  {
    hide Decode, Expect, Pending;
    var a := Expect(Opened(r), 0);
    ExpectShrinks(Opened(r), 0);
    if a.Got? {
      DecodeShrinks(k, a.reader);
      var key := Decode(k, a.reader);
      if key.Got? {
        ExpectShrinks(key.reader, 1);
        var b := Expect(key.reader, 1);
        if b.Got? {
          DecodeShrinks(v, b.reader);
          var value := Decode(v, b.reader);
          if value.Got? {
            ExpectShrinks(value.reader, TERMINATOR);
          }
        }
      }
    }
    LevelsDoNotShow(r);
  }

  lemma ExpectShrinks(r: Reader, id: nat)
    ensures Expect(r, id).Got? ==> Shrinks(r, Expect(r, id).reader)
  {}

  lemma LevelsDoNotShow(r: Reader)
    ensures forall s: Reader, l: int :: Pending(s.(level := l)) == Pending(s)
  {}

  lemma {:induction false} FieldsShrink(fs: Fields, r: Reader)
    ensures DecodeFields(fs, r).Got? ==> Shrinks(r, DecodeFields(fs, r).reader)
    decreases fs, 0
  {
    if fs.Field? {
      FieldShrinks(fs, r);
      var x := DecodeField(fs, r);
      if x.Got? {
        FieldsShrink(fs.rest, x.reader);
      }
    }
  }

  lemma FieldShrinks(f: Fields, r: Reader)
    requires f.Field?
    ensures DecodeField(f, r).Got? ==> Shrinks(r, DecodeField(f, r).reader)
    decreases f.typ, 4
  {
    if f.optional {
      var x := PeekField(r);
      if x.Got? {
        DecodeShrinks(f.typ, x.reader.(ahead := None));
      }
    } else {
      var x := Expect(r, f.id);
      if x.Got? {
        DecodeShrinks(f.typ, x.reader);
      }
    }
  }

  /** A last optional field that was left out is recognised if and only if two bytes follow that are not its id. */
  lemma OptionalEndIff(f: Fields, r: Reader)
    requires f.Field? && f.optional && f.rest.End? && r.ahead.None?
    ensures var x := DecodeFields(f, r);
      (x.Got? && x.value == [f.default] && Pending(x.reader) == Pending(r))
      <==> |r.rest| >= 2 && UnLe(r.rest[..2]) != f.id
  {
    if |r.rest| >= 2 {
      PeekReads(r);
      DecodeShrinks(f.typ, PeekField(r).reader.(ahead := None));
    }
  }
}
