/** Byte strings, little-endian integers and in-place slice writes. */
module ByteStrings {

  type Byte = b: int | 0 <= b < 256
  type Bytes = seq<Byte>
  type U16 = n: nat | n < 0x1_0000
  type U32 = n: nat | n < 0x1_0000_0000
  type U64 = n: nat | n < 0x1_0000_0000_0000_0000

  function Zeros(n: nat): (r: Bytes)
    ensures |r| == n && forall i | 0 <= i < n :: r[i] == 0
  {
    seq(n, i => 0 as Byte)
  }

  function Pow256(k: nat): (r: nat)
    ensures r >= 1
  {
    if k == 0 then 1 else 256 * Pow256(k - 1)
  }

  /** The `k` low-order bytes of `n`, least significant first (`to_le_bytes`). */
  function ToLE(n: nat, k: nat): (r: Bytes)
    ensures |r| == k
  {
    if k == 0 then [] else [n % 256] + ToLE(n / 256, k - 1)
  }

  /** The integer a little-endian string denotes (`from_le_bytes`). */
  function FromLE(s: Bytes): (r: nat)
  {
    if s == [] then 0 else s[0] + 256 * FromLE(s[1..])
  }

  lemma {:induction false} FromLEBound(s: Bytes)
    ensures FromLE(s) < Pow256(|s|)
  {
    if s != [] {
      FromLEBound(s[1..]);
      assert FromLE(s) == s[0] + 256 * FromLE(s[1..]);
      assert FromLE(s[1..]) + 1 <= Pow256(|s| - 1);
    }
  }

  lemma {:induction false} DecodeEncode(n: nat, k: nat)
    requires n < Pow256(k)
    ensures FromLE(ToLE(n, k)) == n
  {
    if k > 0 {
      assert n / 256 < Pow256(k - 1);
      DecodeEncode(n / 256, k - 1);
      assert ToLE(n, k)[1..] == ToLE(n / 256, k - 1);
    }
  }

  lemma {:induction false} EncodeDecode(s: Bytes)
    ensures ToLE(FromLE(s), |s|) == s
  {
    if s != [] {
      var v := FromLE(s[1..]);
      assert FromLE(s) == s[0] + 256 * v;
      assert FromLE(s) % 256 == s[0] && FromLE(s) / 256 == v;
      EncodeDecode(s[1..]);
      assert s == [s[0]] + s[1..];
    }
  }

  lemma QuotientIs(n: nat, d: nat, q: nat, r: nat)
    requires n == d * q + r && r < d
    ensures n / d == q
  {
    var p := n / d;
    assert n == d * p + n % d;
    assert d * (p - q) == d * p - d * q;
    OnlyMultiple(d, p - q);
  }

  lemma OnlyMultiple(d: int, k: int)
    ensures -d < d * k < d ==> k == 0
  {
    assert k >= 1 && d > 0 ==> d * k >= d;
    assert k <= -1 && d > 0 ==> d * k <= -d;
  }

  lemma DivideTwice(n: nat, d: nat)
    requires d > 0
    ensures n / 256 / d == n / (256 * d)
  {
    var m := n / 256;
    var q := m / d;
    assert m == d * q + m % d;
    assert n == 256 * (d * q + m % d) + n % 256;
    assert 256 * (d * q) == (256 * d) * q;
    QuotientIs(n, 256 * d, q, 256 * (m % d) + n % 256);
  }

  /** Byte `j` has weight 256^j: the low-order byte comes first. */
  lemma {:induction false} ByteOfLE(n: nat, k: nat, j: nat)
    requires j < k
    ensures ToLE(n, k)[j] == n / Pow256(j) % 256
  {
    if j > 0 {
      ByteOfLE(n / 256, k - 1, j - 1);
      DivideTwice(n, Pow256(j - 1));
    }
  }

  /** The bytes of an ASCII string. */
  function Ascii(s: string): (r: Bytes)
    ensures |r| == |s|
  {
    seq(|s|, i requires 0 <= i < |s| => (s[i] as int) % 256)
  }

  lemma Pow256Values()
    ensures Pow256(1) == 0x100 && Pow256(2) == 0x1_0000
    ensures Pow256(4) == 0x1_0000_0000 && Pow256(8) == 0x1_0000_0000_0000_0000
  {
    assert Pow256(3) == 0x100_0000;
    assert Pow256(5) == 0x100_0000_0000;
    assert Pow256(6) == 0x1_0000_0000_0000;
    assert Pow256(7) == 0x100_0000_0000_0000;
  }

  /** `buf[off..off + part.len()].copy_from_slice(part)`. */
  method CopyInto(buf: Bytes, off: nat, part: Bytes) returns (r: Bytes)
    requires off + |part| <= |buf|
    ensures |r| == |buf|
    ensures r[off..off + |part|] == part
    ensures forall a, b {:trigger r[a..b]} :: 0 <= a <= b <= off ==> r[a..b] == buf[a..b]
    ensures forall a, b {:trigger r[a..b]} :: off + |part| <= a <= b <= |buf| ==> r[a..b] == buf[a..b]
  {
    r := buf[..off] + part + buf[off + |part|..];
    assert forall i {:trigger r[i]} | 0 <= i < |buf| && !(off <= i < off + |part|) :: r[i] == buf[i];
  }

  /** Agreement on a range carries over to its sub-ranges. */
  lemma SubSlice(a: Bytes, b: Bytes, lo: nat, hi: nat, x: nat, y: nat)
    requires lo <= x <= y <= hi <= |a| && hi <= |b|
    requires a[lo..hi] == b[lo..hi]
    ensures a[x..y] == b[x..y]
  {
    forall i | x <= i < y
      ensures a[i] == b[i]
    {
      assert a[lo..hi][i - lo] == a[i];
      assert b[lo..hi][i - lo] == b[i];
    }
  }
}
