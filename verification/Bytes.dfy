/** Bytes, pages and little-endian numbers, as every on-disk structure uses them. */
module Bytes {

  newtype byte = x: int | 0 <= x < 256

  const PAGE_SIZE: nat := 4096

  /** The contents of one page. */
  type Block = s: seq<byte> | |s| == PAGE_SIZE witness seq(PAGE_SIZE, _ => 0)

  function Zeros(): Block { seq(PAGE_SIZE, _ => 0) }

  datatype Option<T> = None | Some(value: T)

  /** How many numbers fit in `w` bytes. */
  function Range(w: nat): (r: nat)
    ensures r > 0
  {
    if w == 0 then 1 else 256 * Range(w - 1)
  }

  /** The low `w` bytes of `n`, least significant first. */
  function Le(n: nat, w: nat): (s: seq<byte>)
    ensures |s| == w
  {
    if w == 0 then [] else [(n % 256) as byte] + Le(n / 256, w - 1)
  }

  function UnLe(s: seq<byte>): nat {
    if s == [] then 0 else s[0] as nat + 256 * UnLe(s[1..])
  }

  lemma {:induction false} UnLeOfLe(n: nat, w: nat)
    requires n < Range(w)
    ensures UnLe(Le(n, w)) == n
  {
    if w > 0 {
      assert Le(n, w)[1..] == Le(n / 256, w - 1);
      UnLeOfLe(n / 256, w - 1);
    }
  }

  lemma LowDigit(d: nat, n: nat)
    requires d < 256
    ensures (d + 256 * n) % 256 == d && (d + 256 * n) / 256 == n
  {}

  lemma {:induction false} LeOfUnLe(s: seq<byte>)
    ensures UnLe(s) < Range(|s|) && Le(UnLe(s), |s|) == s
  {
    if s != [] {
      LeOfUnLe(s[1..]);
      LowDigit(s[0] as nat, UnLe(s[1..]));
      assert s == [s[0]] + s[1..];
    }
  }

  /** Writing a number in fewer bytes keeps it modulo their range: the truncating cast. */
  lemma {:induction false} LeTruncates(n: nat, w: nat)
    ensures UnLe(Le(n, w)) == n % Range(w)
  {
    if w > 0 {
      assert Le(n, w)[1..] == Le(n / 256, w - 1);
      LeTruncates(n / 256, w - 1);
      DigitsOf(n, Range(w - 1));
    }
  }

  lemma {:induction false} LePrefix(n: nat, w: nat, k: nat)
    requires k <= w
    ensures Le(n, w)[..k] == Le(n, k)
  {
    if k > 0 {
      LePrefix(n / 256, w - 1, k - 1);
    }
  }

  lemma DigitsOf(n: nat, r: nat)
    requires r > 0
    ensures n % (256 * r) == n % 256 + 256 * ((n / 256) % r)
  {
    var q, m := n / 256, n % 256;
    var k, l := q / r, q % r;
    assert q == k * r + l;
    assert n == 256 * (k * r + l) + m == k * (256 * r) + (256 * l + m);
    assert 256 * l + m < 256 * r;
    ModOf(n, 256 * r, k, 256 * l + m);
  }

  lemma ModOf(n: nat, d: nat, k: nat, r: nat)
    requires r < d && n == k * d + r
    ensures n % d == r
  {
    var e := n / d - k;
    assert e * d == r - n % d by {
      assert n == (n / d) * d + n % d;
    }
    assert e >= 1 ==> e * d >= d;
    assert e <= -1 ==> e * d <= -(d as int);
  }

  /** Two's complement in `w` bytes. */
  function Signed(v: int, w: nat): nat
    requires w > 0 && -(Range(w) as int) <= 2 * v < Range(w)
  {
    if v < 0 then v + Range(w) else v
  }

  function Unsigned(n: nat, w: nat): int
    requires w > 0 && n < Range(w)
  {
    if 2 * n >= Range(w) then n - Range(w) else n
  }

  lemma Widths()
    ensures Range(1) == 0x100 && Range(2) == 0x1_0000 && Range(4) == 0x1_0000_0000
    ensures Range(8) == 0x1_0000_0000_0000_0000
  {
    assert Range(3) == 256 * Range(2);
    assert Range(5) == 256 * Range(4);
    assert Range(6) == 256 * Range(5);
    assert Range(7) == 256 * Range(6);
  }

  // ---------- the same in plain numbers ----------

  /** Numbers are written low byte first. */
  lemma LowFirst(n: nat)
    ensures Le(n, 1) == [(n % 256) as byte]
    ensures Le(n, 2) == [(n % 256) as byte, (n / 256 % 256) as byte]
    ensures Le(n, 4) == [(n % 256) as byte, (n / 256 % 256) as byte, (n / 256 / 256 % 256) as byte,
                         (n / 256 / 256 / 256 % 256) as byte]
    ensures Le(n, 8) == Le(n, 4) + Le(n / 256 / 256 / 256 / 256, 4)
  {
    assert Le(n, 1) == [(n % 256) as byte] + Le(n / 256, 0);
    assert Le(n, 2) == [(n % 256) as byte] + Le(n / 256, 1);
    assert Le(n / 256, 1) == [(n / 256 % 256) as byte] + Le(n / 256 / 256, 0);
    FourThen(n, 4);
    FourThen(n, 8);
  }

  lemma FourThen(n: nat, w: nat)
    requires w >= 4
    ensures Le(n, w) == [(n % 256) as byte, (n / 256 % 256) as byte, (n / 256 / 256 % 256) as byte,
                         (n / 256 / 256 / 256 % 256) as byte] + Le(n / 256 / 256 / 256 / 256, w - 4)
  {
    assert Le(n, w) == [(n % 256) as byte] + Le(n / 256, w - 1);
    assert Le(n / 256, w - 1) == [(n / 256 % 256) as byte] + Le(n / 256 / 256, w - 2);
    assert Le(n / 256 / 256, w - 2) == [(n / 256 / 256 % 256) as byte] + Le(n / 256 / 256 / 256, w - 3);
  }

  /** And read low byte first. */
  lemma ReadLowFirst(s: seq<byte>)
    ensures |s| == 1 ==> UnLe(s) == s[0] as nat
    ensures |s| == 2 ==> UnLe(s) == s[0] as nat + 0x100 * s[1] as nat
    ensures |s| == 4 ==>
      UnLe(s) == s[0] as nat + 0x100 * s[1] as nat + 0x1_0000 * s[2] as nat + 0x100_0000 * s[3] as nat
    ensures |s| == 8 ==> UnLe(s) == UnLe(s[..4]) + 0x1_0000_0000 * UnLe(s[4..])
  {
    if |s| == 1 { assert s[1..] == []; }
    if |s| == 2 { ReadTwo(s); }
    if |s| == 4 { ReadFour(s); }
    if |s| == 8 {
      assert s == s[..4] + s[4..];
      ReadInParts(s[..4], s[4..]);
      Widths();
    }
  }

  lemma ReadTwo(s: seq<byte>)
    requires |s| == 2
    ensures UnLe(s) == s[0] as nat + 0x100 * s[1] as nat
  {
    assert s[1..][1..] == [] && s[1..][0] == s[1];
    assert UnLe(s[1..]) == s[1] as nat + 256 * UnLe([]);
  }

  lemma ReadFour(s: seq<byte>)
    requires |s| == 4
    ensures UnLe(s) == s[0] as nat + 0x100 * s[1] as nat + 0x1_0000 * s[2] as nat + 0x100_0000 * s[3] as nat
  {
    assert s == s[..2] + s[2..];
    ReadInParts(s[..2], s[2..]);
    ReadTwo(s[..2]);
    ReadTwo(s[2..]);
    Widths();
  }

  lemma {:induction false} ReadInParts(a: seq<byte>, b: seq<byte>)
    ensures UnLe(a + b) == UnLe(a) + Range(|a|) * UnLe(b)
  {
    if a == [] {
      assert a + b == b;
    } else {
      ReadInParts(a[1..], b);
      assert (a + b)[1..] == a[1..] + b;
      assert 256 * (Range(|a| - 1) * UnLe(b)) == (256 * Range(|a| - 1)) * UnLe(b);
    }
  }

  /** A negative number is its distance below 2^32, and the upper half of the numbers reads as negative. */
  lemma TwosComplement(v: int, n: nat)
    requires -0x8000_0000 <= v < 0x8000_0000 && n < 0x1_0000_0000
    ensures Range(4) == 0x1_0000_0000 && Signed(v, 4) == if v < 0 then v + 0x1_0000_0000 else v
    ensures Unsigned(n, 4) == if n < 0x8000_0000 then n else n - 0x1_0000_0000
  {
    Widths();
  }

  /** `b` with `s` written over it from position `o` on. */
  function Splice(b: seq<byte>, o: nat, s: seq<byte>): (r: seq<byte>)
    requires o + |s| <= |b|
    ensures |r| == |b| && r[o..o + |s|] == s
    ensures forall p, q {:trigger r[p..q]} :: 0 <= p <= q <= o || o + |s| <= p <= q <= |b| ==> r[p..q] == b[p..q]
  {
    var r := b[..o] + s + b[o + |s|..];
    assert forall p, q {:trigger r[p..q]} :: o + |s| <= p <= q <= |b| ==>
      |r[p..q]| == |b[p..q]| && forall i :: 0 <= i < q - p ==> r[p..q][i] == b[p..q][i];
    r
  }

  /** Copies `s` into the array from position `o` on. */
  method CopyInto(a: array<byte>, o: nat, s: seq<byte>)
    requires o + |s| <= a.Length
    modifies a
    ensures a[..] == Splice(old(a[..]), o, s)
  {
    var i := 0;
    while i < |s|
      invariant 0 <= i <= |s|
      invariant forall j :: 0 <= j < a.Length ==> a[j] == if o <= j < o + i then s[j - o] else old(a[j])
    {
      a[o + i] := s[i];
      i := i + 1;
    }
    assert a[..] == Splice(old(a[..]), o, s);
  }
}
