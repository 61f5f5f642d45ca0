/**
 * Byte-level encodings used by the hash layouts: fixed-width little-endian
 * integers, the decimal rendering of a length (Go's `fmt.Sprintf("%d", n)`),
 * and ASCII strings as bytes.
 */
module Bytes {
  import opened Common

  function Pow256(k: nat): (r: nat)
    ensures r > 0
  {
    if k == 0 then 1 else 256 * Pow256(k - 1)
  }

  /** The `width` low-order bytes of `n`, least significant first. */
  function LittleEndian(n: nat, width: nat): (r: seq<byte>)
    ensures |r| == width
  {
    if width == 0 then [] else [n % 256] + LittleEndian(n / 256, width - 1)
  }

  /** Reads a little-endian unsigned integer back from its bytes. */
  function FromLittleEndian(s: seq<byte>): (n: nat)
    ensures n < Pow256(|s|)
  {
    if s == [] then 0
    else
      var rest := FromLittleEndian(s[1..]);
      assert 256 * rest <= 256 * (Pow256(|s| - 1) - 1);
      s[0] + 256 * rest
  }

  lemma MulMonotone(d: nat, x: int, y: int)
    requires x <= y
    ensures d * x <= d * y
  {
    assert d * y - d * x == d * (y - x);
  }

  lemma DivUnique(a: int, d: int, q: int, r: int)
    requires d > 0 && 0 <= r < d && a == d * q + r
    ensures a / d == q && a % d == r
  {
    var q', r' := a / d, a % d;
    if q > q' {
      MulMonotone(d, q' + 1, q);
      assert false;
    } else if q < q' {
      MulMonotone(d, q + 1, q');
      assert false;
    }
  }

  lemma MulDistributes(x: int, y: int, z: int)
    ensures x * (y + z) == x * y + x * z
  {
  }

  lemma MulAssociates(x: int, y: int, z: int)
    ensures x * (y * z) == (x * y) * z
  {
  }

  lemma DivDiv(a: nat, b: nat, c: nat)
    requires b > 0 && c > 0
    ensures (a / b) / c == a / (b * c)
  {
    var q, r := a / b, a % b;
    var q2, r2 := q / c, q % c;
    MulDistributes(b, c * q2, r2);
    MulAssociates(b, c, q2);
    assert a == (b * c) * q2 + (b * r2 + r);
    MulMonotone(b, r2, c - 1);
    MulDistributes(b, c, -1);
    assert b * r2 + r < b * c;
    DivUnique(a, b * c, q2, b * r2 + r);
  }

  /** Byte `k` of the encoding is `n >> 8k` truncated to a byte. */
  lemma {:induction false} LittleEndianAt(n: nat, width: nat, k: nat)
    requires k < width
    ensures LittleEndian(n, width)[k] == (n / Pow256(k)) % 256
  {
    if k > 0 {
      LittleEndianAt(n / 256, width - 1, k - 1);
      DivDiv(n, 256, Pow256(k - 1));
    }
  }

  /** Decoding undoes encoding for every value that fits the width. */
  lemma {:induction false} LittleEndianRoundTrip(n: nat, width: nat)
    requires n < Pow256(width)
    ensures FromLittleEndian(LittleEndian(n, width)) == n
  {
    if width > 0 {
      var s := LittleEndian(n, width);
      assert s[1..] == LittleEndian(n / 256, width - 1);
      LittleEndianRoundTrip(n / 256, width - 1);
    }
  }

  /** Encoding undoes decoding, so the encoding of a width is a bijection. */
  lemma {:induction false} FromLittleEndianRoundTrip(s: seq<byte>)
    ensures LittleEndian(FromLittleEndian(s), |s|) == s
  {
    if s != [] {
      var n := FromLittleEndian(s);
      var rest := FromLittleEndian(s[1..]);
      DivUnique(n, 256, rest, s[0]);
      FromLittleEndianRoundTrip(s[1..]);
    }
  }

  lemma LittleEndianInjective(m: nat, n: nat, width: nat)
    requires m < Pow256(width) && n < Pow256(width)
    requires LittleEndian(m, width) == LittleEndian(n, width)
    ensures m == n
  {
    LittleEndianRoundTrip(m, width);
    LittleEndianRoundTrip(n, width);
  }

  /**
   * The eight bytes written one shift at a time (`byte(l)`, `byte(l >> 8)`,
   * ..., `byte(l >> 56)`) are the 8-byte little-endian encoding of `l`.
   */
  lemma LittleEndian64Bytes(l: nat)
    ensures LittleEndian(l, 8) == [
      l % 0x100,
      (l / 0x100) % 0x100,
      (l / 0x1_0000) % 0x100,
      (l / 0x100_0000) % 0x100,
      (l / 0x1_0000_0000) % 0x100,
      (l / 0x100_0000_0000) % 0x100,
      (l / 0x1_0000_0000_0000) % 0x100,
      (l / 0x100_0000_0000_0000) % 0x100]
  {
    assert Pow256(1) == 0x100;
    assert Pow256(2) == 0x1_0000;
    assert Pow256(3) == 0x100_0000;
    assert Pow256(4) == 0x1_0000_0000;
    assert Pow256(5) == 0x100_0000_0000;
    assert Pow256(6) == 0x1_0000_0000_0000;
    assert Pow256(7) == 0x100_0000_0000_0000;
    forall k | 0 <= k < 8
      ensures LittleEndian(l, 8)[k] == (l / Pow256(k)) % 256
    {
      LittleEndianAt(l, 8, k);
    }
  }

  predicate IsDigit(b: byte) {
    '0' as int <= b <= '9' as int
  }

  /** The ASCII decimal digits of `n`, without sign or leading zeros. */
  function Decimal(n: nat): (r: seq<byte>)
    ensures 1 <= |r|
    ensures forall i :: 0 <= i < |r| ==> IsDigit(r[i])
    ensures 1 < |r| ==> r[0] != '0' as int
  {
    if n < 10 then ['0' as int + n] else Decimal(n / 10) + ['0' as int + n % 10]
  }

  /** The value written by a string of decimal digits. */
  function DecimalValue(s: seq<byte>): nat
    requires forall i :: 0 <= i < |s| ==> IsDigit(s[i])
  {
    if s == [] then 0
    else
      assert IsDigit(s[|s| - 1]);
      10 * DecimalValue(s[..|s| - 1]) + (s[|s| - 1] - '0' as int)
  }

  lemma {:induction false} DecimalRoundTrip(n: nat)
    ensures DecimalValue(Decimal(n)) == n
  {
    if n >= 10 {
      var d := Decimal(n);
      assert d[..|d| - 1] == Decimal(n / 10);
      DecimalRoundTrip(n / 10);
    }
  }

  /** A larger number never has fewer digits. */
  lemma {:induction false} DecimalLengthMonotone(m: nat, n: nat)
    requires m <= n
    ensures |Decimal(m)| <= |Decimal(n)|
  {
    if m >= 10 {
      DecimalLengthMonotone(m / 10, n / 10);
    }
  }

  predicate IsAscii(s: string) {
    forall i :: 0 <= i < |s| ==> s[i] as int < 128
  }

  /** The bytes of an ASCII string, as Go's `[]byte(s)` gives them. */
  function Ascii(s: string): (r: seq<byte>)
    requires IsAscii(s)
    ensures |r| == |s|
    ensures forall i :: 0 <= i < |s| ==> r[i] == s[i] as int
  {
    seq(|s|, i requires 0 <= i < |s| => s[i] as int)
  }
}
