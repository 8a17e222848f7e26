/** Little-endian bytes and 512-byte sectors, as ff.c reads and writes them. */
module Bytes {
  type Byte = x: int | 0 <= x < 256

  const DWORD: nat := 0x1_0000_0000

  type Sector = seq<Byte>

  /** A difference in unsigned 32-bit arithmetic. */
  function Unsigned(x: int): (r: nat)
    requires 0 <= x < DWORD || 0 < -x < DWORD
    ensures r == if x < 0 then x + DWORD else x
  {
    x % DWORD
  }

  lemma MulStep(n: nat, a: int, b: int)
    requires a < b
    ensures n * a + n <= n * b
  {
    assert n * b == n * a + n * (b - a);
    MulAtLeast(n, b - a);
  }

  lemma MulAtLeast(n: nat, d: int)
    requires d >= 1
    ensures n * d >= n
  {
    assert n * d == n * (d - 1) + n;
  }

  lemma DivUnique(k: nat, n: nat, q: nat, r: nat)
    requires r < n && k == n * q + r
    ensures k / n == q && k % n == r
  {
    var p := k / n;
    assert k == n * p + k % n;
    if p < q {
      MulStep(n, p, q);
    } else if q < p {
      MulStep(n, q, p);
    }
  }

  function LdWord(s: seq<Byte>, k: nat): nat
    requires k + 1 < |s|
  {
    s[k] as int + 256 * (s[k + 1] as int)
  }

  function LdDword(s: seq<Byte>, k: nat): nat
    requires k + 3 < |s|
  {
    LdWord(s, k) + 0x1_0000 * LdWord(s, k + 2)
  }

  function StWord(s: seq<Byte>, k: nat, v: nat): (r: seq<Byte>)
    requires k + 1 < |s|
    ensures |r| == |s|
  {
    s[k := v % 256][k + 1 := v / 256 % 256]
  }

  function StDword(s: seq<Byte>, k: nat, v: nat): (r: seq<Byte>)
    requires k + 3 < |s|
    ensures |r| == |s|
  {
    StWord(StWord(s, k, v), k + 2, v / 0x1_0000)
  }

  lemma WordRoundTrip(s: seq<Byte>, k: nat, v: nat)
    requires k + 1 < |s|
    ensures LdWord(StWord(s, k, v), k) == v % 0x1_0000
  {
    TwoBytes(v);
  }

  lemma TwoBytes(v: nat)
    ensures v % 256 + 256 * (v / 256 % 256) == v % 0x1_0000
  {
    var a := v / 256;
    assert v == 256 * a + v % 256 && a == 256 * (a / 256) + a % 256;
    DivUnique(v, 0x1_0000, a / 256, v % 256 + 256 * (a % 256));
  }

  lemma DwordRoundTrip(s: seq<Byte>, k: nat, v: nat)
    requires k + 3 < |s| && v < DWORD
    ensures LdDword(StDword(s, k, v), k) == v
  {
    var lo := StWord(s, k, v);
    var r := StWord(lo, k + 2, v / 0x1_0000);
    WordRoundTrip(s, k, v);
    WordRoundTrip(lo, k + 2, v / 0x1_0000);
    assert LdWord(r, k) == LdWord(lo, k);
  }
}
