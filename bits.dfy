/**
 * Bit strings and bytes as the codecs handle them.  A bit string is a sequence of
 * the characters '0' and '1' (the codecs build their output as such strings before
 * packing it into bytes); a byte is an integer in 0..255.  A right shift `x >> r`
 * is written `x / Pow2(r)` and `& 1` is written `% 2` (all operands are non-negative).
 */
module Bits {

  type Byte = b: int | 0 <= b < 256
  type BitChar = c: char | c == '0' || c == '1' witness '0'
  type BitString = seq<BitChar>

  function Pow2(n: nat): (p: nat)
    ensures p >= 1
  {
    if n == 0 then 1 else 2 * Pow2(n - 1)
  }

  lemma Pow2Eight()
    ensures Pow2(8) == 256
  {
    assert Pow2(2) == 4;
    assert Pow2(4) == 16;
    assert Pow2(6) == 64;
  }

  lemma {:induction false} Pow2Add(a: nat, b: nat)
    ensures Pow2(a + b) == Pow2(a) * Pow2(b)
  {
    if a > 0 {
      Pow2Add(a - 1, b);
    }
  }

  lemma {:induction false} Pow2Monotone(a: nat, b: nat)
    requires a <= b
    ensures Pow2(a) <= Pow2(b)
  {
    if a < b {
      Pow2Monotone(a, b - 1);
    }
  }

  lemma MulAtLeast(x: int, d: int)
    requires x >= 1 && d > 0
    ensures x * d >= d
  {
    var y := x - 1;
    assert x * d == y * d + d;
    assert y * d >= 0;
  }

  /** Quotient and remainder are determined by the division equation. */
  lemma DivModUnique(v: int, d: int, q: int, m: int)
    requires d > 0 && 0 <= m < d && v == q * d + m
    ensures v / d == q && v % d == m
  {
    var q' := v / d;
    var m' := v % d;
    assert v == q' * d + m';
    if q' > q {
      assert (q' - q) * d == m - m';
      MulAtLeast(q' - q, d);
    } else if q' < q {
      assert (q - q') * d == m' - m;
      MulAtLeast(q - q', d);
    }
  }

  lemma DivDiv(v: nat, a: nat, b: nat)
    requires a > 0 && b > 0
    ensures (v / a) / b == v / (a * b)
  {
    var q := v / a;
    var m := v % a;
    var q2 := q / b;
    var m2 := q % b;
    assert v == q2 * (a * b) + (m2 * a + m) by {
      assert v == q * a + m;
      assert q == q2 * b + m2;
    }
    assert m2 * a + m < a * b by {
      assert m2 <= b - 1;
      assert m2 * a <= (b - 1) * a;
    }
    DivModUnique(v, a * b, q2, m2 * a + m);
  }

  function BitOf(b: int): BitChar
    requires 0 <= b < 2
  {
    if b == 1 then '1' else '0'
  }

  function BitValue(c: BitChar): nat
  {
    if c == '1' then 1 else 0
  }

  function Zeros(n: nat): (s: BitString)
    ensures |s| == n
    ensures forall i :: 0 <= i < n ==> s[i] == '0'
  {
    if n == 0 then [] else Zeros(n - 1) + ['0']
  }

  /** int(s, 2): the value of s read most significant bit first (0 for the empty string). */
  function Value(s: BitString): (v: nat)
    ensures v < Pow2(|s|)
  {
    if s == [] then 0 else 2 * Value(s[..|s| - 1]) + BitValue(s[|s| - 1])
  }

  /** The n-bit binary form of v, most significant bit first. */
  function Binary(v: nat, n: nat): (s: BitString)
    requires v < Pow2(n)
    ensures |s| == n
  {
    if n == 0 then [] else Binary(v / 2, n - 1) + [BitOf(v % 2)]
  }

  lemma {:induction false} ValueOfBinary(v: nat, n: nat)
    requires v < Pow2(n)
    ensures Value(Binary(v, n)) == v
  {
    if n > 0 {
      ValueOfBinary(v / 2, n - 1);
      var s := Binary(v, n);
      assert s[..n - 1] == Binary(v / 2, n - 1);
    }
  }

  lemma {:induction false} BinaryOfValue(s: BitString)
    ensures Binary(Value(s), |s|) == s
  {
    if s != [] {
      var init := s[..|s| - 1];
      BinaryOfValue(init);
      DivModUnique(Value(s), 2, Value(init), BitValue(s[|s| - 1]));
      assert s == init + [s[|s| - 1]];
    }
  }

  lemma {:induction false} BinaryZero(n: nat)
    ensures Binary(0, n) == Zeros(n)
  {
    if n > 0 {
      BinaryZero(n - 1);
    }
  }

  /** Bit r (counted from the least significant end) of v sits at index n-1-r of its n-bit form. */
  lemma {:induction false} BinaryBit(v: nat, n: nat, r: nat)
    requires v < Pow2(n) && r < n
    ensures Binary(v, n)[n - 1 - r] == BitOf((v / Pow2(r)) % 2)
  {
    if r > 0 {
      BinaryBit(v / 2, n - 1, r - 1);
      DivDiv(v, 2, Pow2(r - 1));
    }
  }

  /** The eight bits of a byte, most significant first. */
  function ByteBits(b: Byte): (s: BitString)
    ensures |s| == 8
  {
    Pow2Eight();
    Binary(b, 8)
  }

  /** The bits of a byte buffer, each byte most significant bit first. */
  function BytesBits(bs: seq<Byte>): (s: BitString)
    ensures |s| == 8 * |bs|
  {
    if bs == [] then [] else BytesBits(bs[..|bs| - 1]) + ByteBits(bs[|bs| - 1])
  }

  lemma BytesBitsAppend(bs: seq<Byte>, b: Byte)
    ensures BytesBits(bs + [b]) == BytesBits(bs) + ByteBits(b)
  {
    assert (bs + [b])[..|bs|] == bs;
  }

  lemma {:induction false} BytesBitsAt(bs: seq<Byte>, i: nat, j: nat)
    requires i < |bs| && j < 8
    ensures BytesBits(bs)[8 * i + j] == ByteBits(bs[i])[j]
  {
    if i < |bs| - 1 {
      BytesBitsAt(bs[..|bs| - 1], i, j);
    }
  }

  /** Bit r of byte idx, counted from its least significant end, in the buffer's bit string. */
  lemma BitAtPosition(bs: seq<Byte>, idx: nat, r: nat)
    requires idx < |bs| && r < 8
    ensures BytesBits(bs)[8 * idx + 7 - r] == BitOf((bs[idx] / Pow2(r)) % 2)
  {
    BytesBitsAt(bs, idx, 7 - r);
    ByteBitAt(bs[idx], r);
  }

  /** Bit r of a byte, counted from its least significant end, is character 7 - r of its bits. */
  lemma ByteBitAt(b: Byte, r: nat)
    requires r < 8
    ensures ByteBits(b)[7 - r] == BitOf((b / Pow2(r)) % 2)
  {
    Pow2Eight();
    BinaryBit(b, 8, r);
  }

  /** bin(v)[2:]: the shortest binary form of v ("0" for zero). */
  function Bin(v: nat): (s: BitString)
    ensures 1 <= |s|
    ensures Value(s) == v
    ensures s[|s| - 1] == BitOf(v % 2)
  {
    if v < 2 then [BitOf(v)]
    else
      var s := Bin(v / 2) + [BitOf(v % 2)];
      assert s[..|s| - 1] == Bin(v / 2);
      s
  }

  /** s.zfill(n): s left-padded with '0' up to length n; a longer s is kept whole. */
  function ZFill(s: BitString, n: nat): (r: BitString)
    ensures |r| == if |s| >= n then |s| else n
  {
    if |s| >= n then s else Zeros(n - |s|) + s
  }

  lemma {:induction false} BinLength(v: nat, n: nat)
    requires 1 <= n && v < Pow2(n)
    ensures |Bin(v)| <= n
  {
    if v >= 2 {
      assert n >= 2;
      BinLength(v / 2, n - 1);
    }
  }

  /** bin(v)[2:].zfill(n) is the n-bit binary form of v whenever v fits in n >= 1 bits. */
  lemma {:induction false} ZFillBin(v: nat, n: nat)
    requires 1 <= n && v < Pow2(n)
    ensures ZFill(Bin(v), n) == Binary(v, n)
  {
    if v < 2 {
      BinaryZero(n - 1);
      assert Binary(v, n) == Binary(0, n - 1) + [BitOf(v % 2)];
    } else {
      BinLength(v, n);
      ZFillBin(v / 2, n - 1);
      var t := Bin(v / 2);
      var c := BitOf(v % 2);
      assert ZFill(t + [c], n) == ZFill(t, n - 1) + [c];
    }
  }

  /** The last k characters of bin(v)[2:] are the k-bit form of v mod 2^k. */
  lemma {:induction false} BinSuffix(v: nat, k: nat)
    requires 1 <= k <= |Bin(v)|
    ensures Bin(v)[|Bin(v)| - k..] == Binary(Remainder(v, k), k)
  {
    var s := Bin(v);
    var c := BitOf(v % 2);
    BinaryOfRemainder(v, k);
    if v < 2 {
      assert k == 1;
      assert s[|s| - 1..] == [c];
    } else {
      var t := Bin(v / 2);
      assert s == t + [c];
      SuffixOfAppend(t, c, k);
      if k > 1 {
        BinSuffix(v / 2, k - 1);
      }
    }
  }

  lemma SuffixOfAppend(t: BitString, c: BitChar, k: nat)
    requires 1 <= k <= |t| + 1
    ensures (t + [c])[|t| + 1 - k..] == t[|t| - (k - 1)..] + [c]
  {
  }

  /** The k-bit form of j mod 2^k ends in j's low bit, after the (k-1)-bit form of (j / 2) mod 2^(k-1). */
  lemma BinaryOfRemainder(j: nat, k: nat)
    requires k >= 1
    ensures Binary(Remainder(j, k), k) == Binary(Remainder(j / 2, k - 1), k - 1) + [BitOf(j % 2)]
  {
    RemainderHalves(j, k);
  }

  /** Halving j mod 2^k gives (j / 2) mod 2^(k-1), and its low bit is j's. */
  lemma RemainderHalves(j: nat, k: nat)
    requires k >= 1
    ensures Remainder(j, k) / 2 == Remainder(j / 2, k - 1) && Remainder(j, k) % 2 == j % 2
  {
    DivModUnique(Remainder(j, k), 2, Remainder(j / 2, k - 1), j % 2);
  }

  /** floor(j / 2^k), by k halvings. */
  function Quotient(j: nat, k: nat): nat
  {
    if k == 0 then j else Quotient(j / 2, k - 1)
  }

  /** j mod 2^k, by k halvings: the value of the k least significant bits of j. */
  function Remainder(j: nat, k: nat): (m: nat)
    ensures m < Pow2(k)
  {
    if k == 0 then 0 else 2 * Remainder(j / 2, k - 1) + j % 2
  }

  /** Quotient and Remainder are floor division and modulus by 2^k. */
  lemma {:induction false} QuotientRemainder(j: nat, k: nat)
    ensures j == Quotient(j, k) * Pow2(k) + Remainder(j, k)
    ensures Quotient(j, k) == j / Pow2(k) && Remainder(j, k) == j % Pow2(k)
  {
    if k > 0 {
      QuotientRemainder(j / 2, k - 1);
      var q := Quotient(j / 2, k - 1);
      var m := Remainder(j / 2, k - 1);
      var p := Pow2(k - 1);
      assert j / 2 == q * p + m;
      assert j == q * (2 * p) + (2 * m + j % 2);
    }
    DivModUnique(j, Pow2(k), Quotient(j, k), Remainder(j, k));
  }

  /**
   * The k least significant bits of j as the GPO2 coder cuts them out of bin(j)[2:]:
   * nothing when k = 0, the last k characters when bin(j) is long enough, otherwise
   * bin(j) zero-filled to k characters.  Either way, the k-bit form of j mod 2^k.
   */
  function LowBits(j: nat, k: nat): (s: BitString)
    ensures s == Binary(Remainder(j, k), k)
  {
    var b := Bin(j);
    LowBitsCases(j, k);
    if k == 0 then []
    else if |b| >= k then b[|b| - k..]
    else ZFill(b, k)
  }

  lemma LowBitsCases(j: nat, k: nat)
    ensures k >= 1 && |Bin(j)| >= k ==> Bin(j)[|Bin(j)| - k..] == Binary(Remainder(j, k), k)
    ensures k >= 1 && |Bin(j)| < k ==> ZFill(Bin(j), k) == Binary(Remainder(j, k), k)
  {
    var b := Bin(j);
    QuotientRemainder(j, k);
    if k >= 1 && |b| >= k {
      BinSuffix(j, k);
    } else if k >= 1 {
      Pow2Monotone(|b|, k);
      assert j < Pow2(k);
      ZFillBin(j, k);
      DivModUnique(j, Pow2(k), 0, j);
    }
  }
}
