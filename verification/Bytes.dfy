/** Bytes and fixed-width integers written as bytes. */
module Bytes {
  import opened Arithmetic

  type byte = x: int | 0 <= x < 0x100
  type u16 = x: int | 0 <= x < 0x1_0000
  type u32 = x: int | 0 <= x < 0x1_0000_0000

  /** Four bytes, most significant first (network order). */
  function BigEndian(n: u32): (b: seq<byte>)
    ensures |b| == 4
  {
    [n / 0x100_0000, n / 0x1_0000 % 0x100, n / 0x100 % 0x100, n % 0x100]
  }

  function FromBigEndian(b: seq<byte>): (n: u32)
    requires |b| == 4
  {
    b[0] as int * 0x100_0000 + b[1] as int * 0x1_0000 + b[2] as int * 0x100 + b[3] as int
  }

  lemma BigEndianRoundTrip(n: u32)
    ensures FromBigEndian(BigEndian(n)) == n
  {
    assert n / 0x100 == n / 0x1_0000 * 0x100 + n / 0x100 % 0x100;
    assert n / 0x1_0000 == n / 0x100_0000 * 0x100 + n / 0x1_0000 % 0x100;
  }

  lemma FromBigEndianInverse(b: seq<byte>)
    requires |b| == 4
    ensures BigEndian(FromBigEndian(b)) == b
  {
    hide FromBigEndian;
    var n, k := FromBigEndian(b), b[0] as int * 0x100 + b[1] as int;
    var m := k * 0x100 + b[2] as int;
    assert n == m * 0x100 + b[3] as int by { Digits(b); }
    Shifts(n);
    LastDigit(m, b[3]);
    LastDigit(k, b[2]);
    LastDigit(b[0], b[1]);
  }

  lemma Digits(b: seq<byte>)
    requires |b| == 4
    ensures var k := b[0] as int * 0x100 + b[1] as int;
      FromBigEndian(b) == (k * 0x100 + b[2] as int) * 0x100 + b[3] as int
  {
  }

  lemma Shifts(n: nat)
    ensures n / 0x1_0000 == n / 0x100 / 0x100 && n / 0x100_0000 == n / 0x1_0000 / 0x100
  {
  }

  lemma LastDigit(m: nat, d: byte)
    ensures (m * 0x100 + d as int) / 0x100 == m && (m * 0x100 + d as int) % 0x100 == d
  {
  }

  /** k bytes, least significant first (host order), of a number below 256^k. */
  function LittleEndian(n: nat, k: nat): (b: seq<byte>)
    ensures |b| == k
  {
    if k == 0 then [] else [n % 0x100] + LittleEndian(n / 0x100, k - 1)
  }

  function FromLittleEndian(b: seq<byte>): (n: nat) {
    if b == [] then 0 else b[0] + 0x100 * FromLittleEndian(b[1..])
  }

  function Pow256(k: nat): (p: nat)
    ensures p > 0
  {
    if k == 0 then 1 else 0x100 * Pow256(k - 1)
  }

  lemma {:induction false} LittleEndianBound(b: seq<byte>)
    ensures FromLittleEndian(b) < Pow256(|b|)
  {
    if b != [] { LittleEndianBound(b[1..]); }
  }

  lemma {:induction false} LittleEndianRoundTrip(n: nat, k: nat)
    requires n < Pow256(k)
    ensures FromLittleEndian(LittleEndian(n, k)) == n
  {
    if k > 0 {
      LittleEndianRoundTrip(n / 0x100, k - 1);
      assert LittleEndian(n, k)[1..] == LittleEndian(n / 0x100, k - 1);
    }
  }

  /** Byte i of the host order is the one of weight 256^i. */
  lemma {:induction false} LittleEndianAt(n: nat, k: nat, i: nat)
    requires i < k
    ensures LittleEndian(n, k)[i] == n / Pow256(i) % 0x100
  {
    if i > 0 {
      LittleEndianAt(n / 0x100, k - 1, i - 1);
      DivDiv(n, 0x100, Pow256(i - 1));
    }
  }

  /** Network order starts with the most significant byte, byte i having weight 256^(3 - i), and is
      host order read backwards. */
  lemma ByteOrder(n: u32, i: nat)
    requires i < 4
    ensures BigEndian(n)[0] as int * 0x100_0000 <= n < (BigEndian(n)[0] as int + 1) * 0x100_0000
    ensures BigEndian(n)[i] == n / Pow256(3 - i) % 0x100
    ensures BigEndian(n)[i] == LittleEndian(n, 4)[3 - i]
  {
    assert Pow256(0) == 1 && Pow256(1) == 0x100 && Pow256(2) == 0x1_0000 && Pow256(3) == 0x100_0000;
    LittleEndianAt(n, 4, 3 - i);
  }

  lemma Regroup<T>(a: seq<T>, b: seq<T>, c: seq<T>)
    ensures a + (b + c) == (a + b) + c
    ensures b == [] && c == [] ==> a + (b + c) == a
  {
  }

  lemma SliceOfPrefix<T>(s: seq<T>, n: nat, i: nat, j: nat)
    requires i <= j <= n <= |s|
    ensures s[..n][i..j] == s[i..j]
  {
  }

  lemma SliceOfSlice<T>(s: seq<T>, i: nat, j: nat, k: nat, l: nat)
    requires i <= j <= |s| && k <= l <= j - i
    ensures s[i..j][k..l] == s[i + k..i + l]
  {
    forall m | 0 <= m < l - k ensures s[i..j][k..l][m] == s[i + k..i + l][m] {
      assert s[i..j][k..l][m] == s[i..j][k + m];
    }
  }

  /** s repeated n times. */
  function Repeat<T>(s: seq<T>, n: nat): (r: seq<T>) {
    if n == 0 then [] else s + Repeat(s, n - 1)
  }
}
