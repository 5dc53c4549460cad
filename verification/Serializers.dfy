/** The growing memory stream, and the serializer and deserializer that work on it. */
module Serializers {
  import opened Bytes
  import opened Serialization

  /** Doubled until it is enough. */
  function Doubled(have: nat, need: nat): (r: nat)
    requires have > 0
    ensures need <= r && have <= r && (have < need ==> r < 2 * need)
    decreases need - have
  {
    if need <= have then have else Doubled(2 * have, need)
  }

  class MemoryStream {
    var data: array<byte>
    var position: nat
    const ownsData: bool

    ghost predicate Valid()
      reads this
    {
      position <= data.Length
    }

    /** What was written so far. */
    ghost function Written(): seq<byte>
      requires Valid()
      reads this, data
    {
      data[..position]
    }

    /** What is still to be read, which includes whatever the buffer happens to hold behind the last write. */
    function Unread(): seq<byte>
      requires Valid()
      reads this, data
    {
      data[position..]
    }

    constructor (capacity: nat)
      ensures Valid() && fresh(data) && ownsData && position == 0 && data.Length == capacity
    {
      data, position, ownsData := new byte[capacity], 0, true;
    }

    constructor OnBuffer(buffer: array<byte>)
      ensures Valid() && data == buffer && !ownsData && position == 0
    {
      data, position, ownsData := buffer, 0, false;
    }

    /** A buffer of twice the size with the same bytes in front. */
    method Double()
      requires Valid()
      modifies this`data
      ensures Valid() && fresh(data) && data.Length == 2 * old(data.Length)
      ensures data[..old(data.Length)] == old(data[..])
    {
      var longer := new byte[2 * data.Length];
      CopyInto(longer, 0, data[..]);
      assert longer[0..data.Length] == data[..];
      data := longer;
    }

    /**
     * Doubles the buffer until the bytes fit, and appends them. False stands for the exception: a buffer the stream
     * does not own is too small. Doubling an empty buffer would never end.
     */
    method WriteData(bytes: seq<byte>) returns (ok: bool)
      requires Valid() && (ownsData && bytes != [] ==> data.Length > 0)
      modifies this, data
      ensures Valid() && (data == old(data) || fresh(data)) && data.Length >= old(data.Length)
      ensures ok <==> ownsData || old(position) + |bytes| <= old(data.Length)
      ensures ok ==> position == old(position) + |bytes| && Written() == old(Written()) + bytes
      ensures ok && old(data.Length) > 0 ==> data.Length == Doubled(old(data.Length), old(position) + |bytes|)
      ensures !ok ==> position == old(position) && data == old(data) && data[..] == old(data[..])
    {
      ghost var before := data[..position];
      while position + |bytes| > data.Length
        invariant Valid() && position == old(position) && data[..position] == before && data.Length >= old(data.Length)
        invariant (data == old(data) && data[..] == old(data[..])) || (fresh(data) && ownsData)
        invariant old(data.Length) > 0 ==>
          Doubled(data.Length, position + |bytes|) == Doubled(old(data.Length), position + |bytes|)
        decreases position + |bytes| - data.Length
      {
        if !ownsData {
          return false;
        }
        ghost var was := data[..];
        Double();
        assert data[..position] == data[..|was|][..position];
      }
      CopyInto(data, position, bytes);
      assert data[0..position] == before && data[position..position + |bytes|] == bytes;
      position := position + |bytes|;
      return true;
    }

    /** None stands for the exception: fewer bytes are left in the buffer. */
    method ReadData(n: nat) returns (r: Option<seq<byte>>)
      requires Valid()
      modifies this`position
      ensures Valid()
      ensures r.None? <==> n > |old(Unread())|
      ensures r.Some? ==>
        r.value == old(Unread())[..n] && Unread() == old(Unread())[n..] && position == old(position) + n
      ensures r.None? ==> position == old(position)
    {
      if position + n > data.Length {
        return None;
      }
      r := Some(data[position..position + n]);
      position := position + n;
    }

    method Rewind()
      modifies this`position
      ensures Valid() && position == 0
    {
      position := 0;
    }
  }

  /** Writes values to a stream that grows as needed. */
  class BinarySerializer {
    const stream: MemoryStream

    constructor (stream: MemoryStream)
      ensures this.stream == stream
    {
      this.stream := stream;
    }

    ghost predicate Ready()
      reads stream
    {
      stream.Valid() && stream.ownsData && stream.data.Length > 0
    }

    method Write(bytes: seq<byte>)
      requires Ready()
      modifies stream, stream.data
      ensures Ready() && (stream.data == old(stream.data) || fresh(stream.data))
      ensures stream.Written() == old(stream.Written()) + bytes
    {
      var _ := stream.WriteData(bytes);
    }

    method WriteNumber(n: nat, w: nat)
      requires Ready()
      modifies stream, stream.data
      ensures Ready() && (stream.data == old(stream.data) || fresh(stream.data))
      ensures stream.Written() == old(stream.Written()) + Le(n, w)
    {
      Write(Le(n, w));
    }

    method WriteValue(t: Type, d: Data)
      requires Ready() && HasType(t, d)
      modifies stream, stream.data
      ensures Ready() && (stream.data == old(stream.data) || fresh(stream.data))
      ensures stream.Written() == old(stream.Written()) + Encode(t, d)
      ensures t.Bool? ==> stream.Written() == old(stream.Written()) + [if d.b then 1 else 0]
      ensures t.Pointer? && d.Null? ==> stream.Written() == old(stream.Written()) + [0]
      ensures t.Object? ==> stream.Written() == old(stream.Written()) + EncodeFields(t.fields, d.values) + [0xFF, 0xFF]
      decreases t, 3
    {
      match t
      case Bool => Write([if d.b then 1 else 0]);
      case Number(w, signed) => WriteNumber(if signed then Signed(d.n, w) else d.n, w);
      case Str => WriteString(d);
      case List(e) => WriteList(e, d);
      case Map(k, v) => WriteMap(k, v, d);
      case Pointer(e) => WritePointer(e, d);
      case Object(fs) => WriteObject(fs, d);
    }

    method WriteString(d: Data)
      requires Ready() && HasType(Str, d)
      modifies stream, stream.data
      ensures Ready() && (stream.data == old(stream.data) || fresh(stream.data))
      ensures stream.Written() == old(stream.Written()) + Encode(Str, d)
      decreases Str, 2
    {
      WriteNumber(|d.s|, 4);
      Write(d.s);
    }

    method WriteList(e: Type, d: Data)
      requires Ready() && HasType(List(e), d)
      modifies stream, stream.data
      ensures Ready() && (stream.data == old(stream.data) || fresh(stream.data))
      ensures stream.Written() == old(stream.Written()) + Encode(List(e), d)
      decreases List(e), 2
    {
      hide Encode, EncodeItems, EncodePairs, HasType, Le;
      Parts(List(e), d);
      WriteNumber(|d.items|, 8);
      WriteItems(e, d.items);
    }

    method WriteMap(k: Type, v: Type, d: Data)
      requires Ready() && HasType(Map(k, v), d)
      modifies stream, stream.data
      ensures Ready() && (stream.data == old(stream.data) || fresh(stream.data))
      ensures stream.Written() == old(stream.Written()) + Encode(Map(k, v), d)
      decreases Map(k, v), 2
    {
      hide Encode, EncodeItems, EncodePairs, HasType, Le;
      Parts(Map(k, v), d);
      WriteNumber(|d.pairs|, 8);
      WritePairs(k, v, d.pairs);
    }

    method WriteObject(fs: Fields, d: Data)
      requires Ready() && HasType(Object(fs), d)
      modifies stream, stream.data
      ensures Ready() && (stream.data == old(stream.data) || fresh(stream.data))
      ensures stream.Written() == old(stream.Written()) + Encode(Object(fs), d)
      ensures stream.Written() == old(stream.Written()) + EncodeFields(fs, d.values) + [0xFF, 0xFF]
      decreases Object(fs), 2
    {
      TwoBytes(0);
      WriteFields(fs, d.values);
      WriteNumber(TERMINATOR, 2);
    }

    method WritePointer(e: Type, d: Data)
      requires Ready() && HasType(Pointer(e), d)
      modifies stream, stream.data
      ensures Ready() && (stream.data == old(stream.data) || fresh(stream.data))
      ensures stream.Written() == old(stream.Written()) + Encode(Pointer(e), d)
      decreases Pointer(e), 2
    {
      hide Encode, EncodeItems, EncodePairs, HasType, Le;
      Parts(Pointer(e), d);
      if d.Null? {
        Write([0]);
      } else {
        Write([1]);
        WriteValue(e, d.target);
      }
    }

    method WriteItems(e: Type, xs: seq<Data>)
      requires Ready() && forall x :: x in xs ==> HasType(e, x)
      modifies stream, stream.data
      ensures Ready() && (stream.data == old(stream.data) || fresh(stream.data))
      ensures stream.Written() == old(stream.Written()) + EncodeItems(e, xs)
      decreases e, |xs| + 4
    {
      hide Encode, HasType, Le;
      for i := 0 to |xs|
        invariant Ready() && (stream.data == old(stream.data) || fresh(stream.data))
        invariant stream.Written() + EncodeItems(e, xs[i..]) == old(stream.Written()) + EncodeItems(e, xs)
      {
        ghost var before := stream.Written();
        assert xs[i..][0] == xs[i] && xs[i..][1..] == xs[i + 1..];
        WriteValue(e, xs[i]);
        assert before + EncodeItems(e, xs[i..]) == stream.Written() + EncodeItems(e, xs[i + 1..]);
      }
    }

    method WritePairs(k: Type, v: Type, ps: seq<Pair>)
      requires Ready() && forall p :: p in ps ==> HasType(k, p.key) && HasType(v, p.value)
      modifies stream, stream.data
      ensures Ready() && (stream.data == old(stream.data) || fresh(stream.data))
      ensures stream.Written() == old(stream.Written()) + EncodePairs(k, v, ps)
      decreases Map(k, v), 1, |ps|
    {
      hide Encode, EncodePair, EncodePairs, HasType, Le;
      ghost var was := stream.Written();
      PairsLeft(k, v, ps, |ps|, was, was);
      for i := 0 to |ps|
        invariant Ready() && (stream.data == old(stream.data) || fresh(stream.data))
        invariant stream.Written() + EncodePairs(k, v, ps[i..]) == was + EncodePairs(k, v, ps)
      {
        PairsLeft(k, v, ps, i, stream.Written(), was);
        WritePair(k, v, ps[i]);
      }
    }

    static lemma PairsLeft(k: Type, v: Type, ps: seq<Pair>, i: nat, written: seq<byte>, was: seq<byte>)
      requires i <= |ps| && forall p :: p in ps ==> HasType(k, p.key) && HasType(v, p.value)
      ensures ps[0..] == ps && written + EncodePairs(k, v, []) == written
      ensures ps[|ps|..] == []
      ensures i < |ps| ==>
        written + EncodePairs(k, v, ps[i..]) == written + EncodePair(k, v, ps[i]) + EncodePairs(k, v, ps[i + 1..])
    {
      if i < |ps| {
        assert ps[i..][0] == ps[i] && ps[i..][1..] == ps[i + 1..];
      }
    }

    method WritePair(k: Type, v: Type, p: Pair)
      requires Ready() && HasType(k, p.key) && HasType(v, p.value)
      modifies stream, stream.data
      ensures Ready() && (stream.data == old(stream.data) || fresh(stream.data))
      ensures stream.Written() == old(stream.Written()) + EncodePair(k, v, p)
      ensures stream.Written()
        == old(stream.Written()) + [0, 0] + Encode(k, p.key) + [1, 0] + Encode(v, p.value) + [0xFF, 0xFF]
      decreases Map(k, v), 0
    {
      hide Encode, HasType, Le, Range;
      PairBytes(k, v, p);
      WriteProperty(0, k, p.key);
      WriteProperty(1, v, p.value);
      WriteNumber(TERMINATOR, 2);
    }

    method WriteProperty(id: nat, t: Type, d: Data)
      requires Ready() && HasType(t, d)
      modifies stream, stream.data
      ensures Ready() && (stream.data == old(stream.data) || fresh(stream.data))
      ensures stream.Written() == old(stream.Written()) + (Le(id, 2) + Encode(t, d))
      ensures id < 0x1_0000 ==>
        stream.Written() == old(stream.Written()) + [(id % 256) as byte, (id / 256) as byte] + Encode(t, d)
      decreases t, 4
    {
      hide Encode, HasType, Le;
      if id < 0x1_0000 { TwoBytes(id); }
      WriteNumber(id, 2);
      WriteValue(t, d);
    }

    /** The properties of an object, one after the other. */
    method WriteFields(fs: Fields, vs: seq<Data>)
      requires Ready() && FieldsHaveTypes(fs, vs)
      modifies stream, stream.data
      ensures Ready() && (stream.data == old(stream.data) || fresh(stream.data))
      ensures stream.Written() == old(stream.Written()) + EncodeFields(fs, vs)
      decreases fs, 0
    {
      if fs.Field? {
        WriteField(fs, vs[0]);
        WriteFields(fs.rest, vs[1..]);
      }
    }

    method WriteField(f: Fields, d: Data)
      requires Ready() && f.Field? && HasType(f.typ, d)
      modifies stream, stream.data
      ensures Ready() && (stream.data == old(stream.data) || fresh(stream.data))
      ensures stream.Written() == old(stream.Written()) + EncodeField(f, d)
      decreases f.typ, 5
    {
      if f.optional && d == f.default {
        return;
      }
      WriteProperty(f.id, f.typ, d);
    }
  }

  /** Reads values back; None stands for an exception. */
  class BinaryDeserializer {
    const stream: MemoryStream
    var nestingLevel: int
    var hasBufferedField: bool
    var bufferedField: nat

    constructor (stream: MemoryStream)
      ensures this.stream == stream && nestingLevel == 0 && !hasBufferedField
    {
      this.stream, nestingLevel, hasBufferedField, bufferedField := stream, 0, false, 0;
    }

    function Now(): Reader
      requires stream.Valid()
      reads this, stream, stream.data
    {
      Reader(stream.Unread(), if hasBufferedField then Some(bufferedField) else None, nestingLevel)
    }

    method ReadData(n: nat) returns (r: Option<seq<byte>>)
      requires stream.Valid()
      modifies stream`position
      ensures stream.Valid() && Agrees(r, Raw(old(Now()), n), Now())
    {
      r := stream.ReadData(n);
    }

    method ReadNumber(w: nat) returns (r: Option<nat>)
      requires stream.Valid()
      modifies stream`position
      ensures stream.Valid() && Agrees(r, ReadNat(old(Now()), w), Now())
    {
      var bytes := ReadData(w);
      r := if bytes.None? then None else Some(UnLe(bytes.value));
    }

    method PeekField() returns (r: Option<nat>)
      requires stream.Valid()
      modifies stream`position, this`hasBufferedField, this`bufferedField
      ensures stream.Valid() && Agrees(r, Serialization.PeekField(old(Now())), Now())
    {
      if !hasBufferedField {
        var x := ReadNumber(2);
        if x.None? {
          return None;
        }
        bufferedField, hasBufferedField := x.value, true;
      }
      r := Some(bufferedField);
    }

    /** Only called after the field was looked at. */
    method ConsumeField()
      requires stream.Valid() && hasBufferedField
      modifies this`hasBufferedField
      ensures stream.Valid() && Now() == old(Now()).(ahead := None)
    {
      hasBufferedField := false;
    }

    method NextField() returns (r: Option<nat>)
      requires stream.Valid()
      modifies stream`position, this`hasBufferedField
      ensures stream.Valid() && Agrees(r, Serialization.NextField(old(Now())), Now())
      ensures !old(hasBufferedField) && |old(stream.Unread())| >= 2 ==>
        r == Some(old(stream.Unread())[0] as nat + 0x100 * old(stream.Unread())[1] as nat)
    {
      NextFieldIs(Now());
      if hasBufferedField {
        hasBufferedField := false;
        return Some(bufferedField);
      }
      r := ReadNumber(2);
    }

    /** The next field must be this one. */
    method OnPropertyBegin(id: nat) returns (ok: bool)
      requires stream.Valid()
      modifies stream`position, this`hasBufferedField
      ensures stream.Valid() && Agrees(if ok then Some(()) else None, Expect(old(Now()), id), Now())
    {
      var x := NextField();
      ok := x == Some(id);
    }

    method OnOptionalPropertyBegin(id: nat) returns (present: Option<bool>)
      requires stream.Valid()
      modifies stream`position, this`hasBufferedField, this`bufferedField
      ensures stream.Valid()
      ensures var x := Serialization.PeekField(old(Now()));
        if x.Failed? then present.None?
        else present == Some(x.value == id) && Now() == if x.value == id then x.reader.(ahead := None) else x.reader
    {
      var x := PeekField();
      if x.None? {
        return None;
      }
      if x.value == id {
        ConsumeField();
      }
      present := Some(x.value == id);
    }

    method OnObjectBegin()
      requires stream.Valid()
      modifies this`nestingLevel
      ensures stream.Valid() && Now() == Opened(old(Now()))
    {
      nestingLevel := nestingLevel + 1;
    }

    method OnObjectEnd() returns (ok: bool)
      requires stream.Valid()
      modifies stream`position, this`hasBufferedField, this`nestingLevel
      ensures stream.Valid() && Agrees(if ok then Some(()) else None, Closed(old(Now())), Now())
      ensures ok <==> if old(hasBufferedField) then old(bufferedField) == 0xFFFF
                      else |old(stream.Unread())| >= 2 && old(stream.Unread())[..2] == [0xFF, 0xFF]
      ensures ok ==> nestingLevel == old(nestingLevel) - 1 && !hasBufferedField
      ensures ok ==> stream.Unread() == old(stream.Unread())[if old(hasBufferedField) then 0 else 2..]
    {
      ClosedAt(Now());
      var x := NextField();
      ok := x == Some(TERMINATOR);
      if ok {
        nestingLevel := nestingLevel - 1;
      }
    }

    /** Reads exactly what the format says the bytes mean. */
    method ReadValue(t: Type) returns (r: Option<Data>)
      requires stream.Valid()
      modifies stream`position, this
      ensures stream.Valid() && Agrees(r, Decode(t, old(Now())), Now())
      decreases t, 3
    {
      match t
      case Bool =>
        var x := ReadNumber(1);
        r := if x.None? then None else Some(Flag(x.value != 0));
      case Number(w, signed) =>
        var x := ReadNumber(w);
        r := if x.None? then None else Some(Num(if signed && w > 0 then Unsigned(x.value, w) else x.value));
      case Str => r := ReadString();
      case List(e) => r := ReadList(e);
      case Map(k, v) => r := ReadMap(k, v);
      case Pointer(e) => r := ReadPointer(e);
      case Object(fs) =>
        OnObjectBegin();
        var x := ReadFields(fs);
        if x.None? {
          return None;
        }
        var ok := OnObjectEnd();
        r := if ok then Some(Record(x.value)) else None;
    }

    method ReadString() returns (r: Option<Data>)
      requires stream.Valid()
      modifies stream`position
      ensures stream.Valid() && Agrees(r, Decode(Str, old(Now())), Now())
    {
      var n := ReadNumber(4);
      if n.None? {
        return None;
      }
      if n.value == 0 {
        return Some(Text([]));
      }
      var x := ReadData(n.value);
      r := if x.None? then None else Some(Text(x.value));
    }

    method ReadList(e: Type) returns (r: Option<Data>)
      requires stream.Valid()
      modifies stream`position, this
      ensures stream.Valid() && Agrees(r, Decode(List(e), old(Now())), Now())
      decreases List(e), 2
    {
      hide ReadNat, Le;
      var size := ReadNumber(8);
      if size.None? {
        return None;
      }
      ghost var first := Now();
      var vec := [];
      for i := 0 to size.value
        invariant stream.Valid()
        invariant DecodeItems(e, size.value - i, vec, Now()) == DecodeItems(e, size.value, [], first)
      {
        var x := ReadValue(e);
        if x.None? {
          return None;
        }
        vec := vec + [x.value];
      }
      r := Some(Items(vec));
    }

    method ReadMap(k: Type, v: Type) returns (r: Option<Data>)
      requires stream.Valid()
      modifies stream`position, this
      ensures stream.Valid() && Agrees(r, Decode(Map(k, v), old(Now())), Now())
      decreases Map(k, v), 2
    {
      hide ReadNat, DecodePair, Inserted, Le;
      var size := ReadNumber(8);
      if size.None? {
        return None;
      }
      ghost var first := Now();
      var pairs := [];
      for i := 0 to size.value
        invariant stream.Valid()
        invariant DecodePairs(k, v, size.value - i, pairs, Now()) == DecodePairs(k, v, size.value, [], first)
      {
        var p := ReadPair(k, v);
        if p.None? {
          return None;
        }
        pairs := Inserted(pairs, p.value);
      }
      r := Some(Pairs(pairs));
    }

    method ReadPair(k: Type, v: Type) returns (r: Option<Pair>)
      requires stream.Valid()
      modifies stream`position, this
      ensures stream.Valid() && Agrees(r, DecodePair(k, v, old(Now())), Now())
      decreases Map(k, v), 0
    {
      OnObjectBegin();
      var key := ReadProperty(0, k);
      if key.None? {
        return None;
      }
      var value := ReadProperty(1, v);
      if value.None? {
        return None;
      }
      var ok := OnObjectEnd();
      r := if ok then Some(Pair(key.value, value.value)) else None;
    }

    method ReadProperty(id: nat, t: Type) returns (r: Option<Data>)
      requires stream.Valid()
      modifies stream`position, this
      ensures stream.Valid() && Agrees(r, DecodeProperty(id, t, old(Now())), Now())
      decreases t, 4
    {
      var ok := OnPropertyBegin(id);
      if !ok {
        return None;
      }
      r := ReadValue(t);
    }

    method ReadPointer(e: Type) returns (r: Option<Data>)
      requires stream.Valid()
      modifies stream`position, this
      ensures stream.Valid() && Agrees(r, Decode(Pointer(e), old(Now())), Now())
      decreases Pointer(e), 2
    {
      var present := ReadNumber(1);
      if present.None? {
        return None;
      }
      if present.value == 0 {
        return Some(Null);
      }
      if !e.Object? {
        OnObjectBegin();
      }
      var x := ReadValue(e);
      if x.None? {
        return None;
      }
      var ok := true;
      if !e.Object? {
        ok := OnObjectEnd();
      }
      r := if ok then Some(To(x.value)) else None;
    }

    method ReadFields(fs: Fields) returns (r: Option<seq<Data>>)
      requires stream.Valid()
      modifies stream`position, this
      ensures stream.Valid() && Agrees(r, DecodeFields(fs, old(Now())), Now())
      decreases fs, 0
    {
      if fs.End? {
        return Some([]);
      }
      var x := ReadField(fs);
      if x.None? {
        return None;
      }
      var y := ReadFields(fs.rest);
      r := if y.None? then None else Some([x.value] + y.value);
    }

    method ReadField(f: Fields) returns (r: Option<Data>)
      requires stream.Valid() && f.Field?
      modifies stream`position, this
      ensures stream.Valid() && Agrees(r, DecodeField(f, old(Now())), Now())
      decreases f.typ, 5
    {
      if f.optional {
        var present := OnOptionalPropertyBegin(f.id);
        if present.None? {
          return None;
        }
        if !present.value {
          return Some(f.default);
        }
        r := ReadValue(f.typ);
      } else {
        r := ReadProperty(f.id, f.typ);
      }
    }
  }

  /** The method returned what the format says, and left the reader where it says. */
  ghost predicate Agrees<T>(r: Option<T>, x: Read<T>, now: Reader) {
    if x.Failed? then r.None? else r == Some(x.value) && now == x.reader
  }
}
