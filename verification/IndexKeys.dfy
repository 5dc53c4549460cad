/** Integer index keys: eight bytes, compared through the first four. */
module IndexKeys {
  import opened Bytes

  const INDEX_KEY_SIZE: nat := 8

  type IndexKey = k: seq<byte> | |k| == INDEX_KEY_SIZE witness seq(INDEX_KEY_SIZE, _ => 0)

  predicate IsInt32(i: int) { -0x8000_0000 <= i < 0x8000_0000 }

  /** The key of an INTEGER value: its bytes, then zeros. */
  function ConvertToIndexKey(i: int): IndexKey
    requires IsInt32(i)
  {
    Widths();
    Le(Signed(i, 4), 4) + [0, 0, 0, 0]
  }

  /** The key in plain numbers: the integer's four bytes, low byte first, a negative one as its distance below 2^32,
      and four zeros. */
  lemma KeyBytes(i: int)
    requires IsInt32(i)
    ensures var (k, u) := (ConvertToIndexKey(i), if i < 0 then i + 0x1_0000_0000 else i);
      && |k| == 8 && k[4..] == [0, 0, 0, 0]
      && u == k[0] as nat + 0x100 * k[1] as nat + 0x1_0000 * k[2] as nat + 0x100_0000 * k[3] as nat
  {
    var k := ConvertToIndexKey(i);
    TwosComplement(i, 0);
    UnLeOfLe(Signed(i, 4), 4);
    assert k[..4] == Le(Signed(i, 4), 4);
    ReadFour(k[..4]);
  }

  /** What the comparator of INTEGER keys sees. */
  function IntOf(k: IndexKey): (i: int)
    ensures IsInt32(i)
  {
    LeOfUnLe(k[..4]);
    Widths();
    Unsigned(UnLe(k[..4]), 4)
  }

  function Compare(a: IndexKey, b: IndexKey): int {
    if IntOf(a) < IntOf(b) then -1 else if IntOf(a) > IntOf(b) then 1 else 0
  }

  lemma IntOfKey(i: int)
    requires IsInt32(i)
    ensures IntOf(ConvertToIndexKey(i)) == i
  {
    Widths();
    UnLeOfLe(Signed(i, 4), 4);
    assert ConvertToIndexKey(i)[..4] == Le(Signed(i, 4), 4);
  }

  /** The comparator orders keys as the integers are ordered. */
  lemma CompareIsOrder(i: int, j: int)
    requires IsInt32(i) && IsInt32(j)
    ensures Compare(ConvertToIndexKey(i), ConvertToIndexKey(j)) < 0 <==> i < j
    ensures Compare(ConvertToIndexKey(i), ConvertToIndexKey(j)) == 0 <==> i == j
  {
    IntOfKey(i);
    IntOfKey(j);
  }

  /**
   * A leaf finds duplicates on insertion by the comparator but looks keys up by their bytes. The two agree on a pair
   * of keys if the bytes the comparator does not see agree, as they do for all integer keys.
   */
  lemma ComparatorEqualityIsByteEquality(a: IndexKey, b: IndexKey)
    ensures Compare(a, b) == 0 <==> a[..4] == b[..4]
    ensures a[4..] == b[4..] ==> (Compare(a, b) == 0 <==> a == b)
  {
    Widths();
    LeOfUnLe(a[..4]);
    LeOfUnLe(b[..4]);
    assert a == a[..4] + a[4..] && b == b[..4] + b[4..];
  }

  /** Zeroed memory reads as the key of the integer zero, and of no other. */
  lemma ZeroedIsKeyZero(i: int)
    requires IsInt32(i)
    ensures ConvertToIndexKey(i) == seq(INDEX_KEY_SIZE, _ => 0) <==> i == 0
  {
    IntOfKey(i);
    IntOfKey(0);
    assert Le(0, 4) == [0, 0, 0, 0] by {
      assert Le(0, 0) == [] && Le(0, 1) == [0] && Le(0, 2) == [0, 0] && Le(0, 3) == [0, 0, 0];
    }
    assert ConvertToIndexKey(0) == seq(INDEX_KEY_SIZE, _ => 0);
  }
}
