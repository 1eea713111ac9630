/**
 * The Golomb-Rice code of a vector of non-negative integers, as bit strings.  The
 * parameter M (the integer mean of the vector, at least 1) is written first in
 * dynamicRange bits; each value v is then written as v / M in unary (that many ones,
 * then a zero) followed by the remainder v % M in truncated binary: with b the number
 * of binary digits of M and difference = 2^b - M, a remainder below difference takes
 * b - 1 bits and any other remainder r is written as r + difference in b bits.  The
 * stream is closed with zeros up to the next byte, then one more zero byte if the
 * number of bytes is odd.  The decoder reads the same fields forward from bit 0.
 */
module GolombRiceSpec {
  import opened Wrappers
  import opened Bits
  import opened ReverseReads

  /** Decoding fails when a read passes the end of the buffer, or when M is read as 0 (log2 of 0). */
  datatype GolombError = Underrun | LogOfZero

  /** A value read and the bit position after it. */
  datatype Read = Read(value: int, pos: nat)

  /** The values read and the bit position after the last of them. */
  datatype Reads = Reads(values: seq<int>, pos: nat)

  /** int(floor(log2(M))) + 1: the number of binary digits of M. */
  function BitLength(M: nat): (b: nat)
    requires M >= 1
    ensures b >= 1 && Pow2(b - 1) <= M < Pow2(b)
  {
    if M == 1 then 1 else 1 + BitLength(M / 2)
  }

  /** 2^b - M, the number of remainders coded in b - 1 bits. */
  function Difference(M: nat): (d: nat)
    requires M >= 1
    ensures 1 <= d <= M && d <= Pow2(BitLength(M) - 1)
  {
    Pow2(BitLength(M)) - M
  }

  function Sum(vs: seq<nat>): nat
  {
    if vs == [] then 0 else Sum(vs[..|vs| - 1]) + vs[|vs| - 1]
  }

  /** int(numpy.mean(vector)), raised to 1 when it is 0. */
  function MeanParameter(vs: seq<nat>): (M: nat)
    requires |vs| > 0
    ensures M >= 1
  {
    var mean := Sum(vs) / |vs|;
    if mean < 1 then 1 else mean
  }

  /** writeIntToUnary(q): q ones, then a zero. */
  function Unary(q: nat): (s: BitString)
    ensures |s| == q + 1
  {
    Repeat('1', q) + ['0']
  }

  /** The truncated-binary code of a remainder r < M. */
  function RemainderCode(r: nat, M: nat): (s: BitString)
    requires 1 <= r + 1 <= M
  {
    var b, d := BitLength(M), Difference(M);
    if r < d then Binary(r, b - 1) else Binary(r + d, b)
  }

  function ValueCode(v: nat, M: nat): BitString
    requires M >= 1
  {
    Unary(v / M) + RemainderCode(v % M, M)
  }

  /** The codes of the values, in vector order. */
  function ValuesCode(vs: seq<nat>, M: nat): BitString
    requires M >= 1
  {
    if vs == [] then [] else ValuesCode(vs[..|vs| - 1], M) + ValueCode(vs[|vs| - 1], M)
  }

  /**
   * paddingByte after n bits: zeros up to the next byte boundary (a whole byte of zeros
   * when n is already a multiple of 8), then a zero byte more if the byte count is odd.
   */
  function PaddingBits(n: nat): BitString
  {
    var fill := 8 - n % 8;
    Zeros(fill) + if ((n + fill) / 8) % 2 != 0 then Zeros(8) else []
  }

  /** The header: the dynamicRange low bits of M. */
  function HeaderBits(M: nat, D: nat): BitString
  {
    Binary(M % Pow2(D), D)
  }

  /** What code() writes for a vector: the header, every value's code, then the padding. */
  function Encoded(vs: seq<nat>, D: nat): BitString
    requires |vs| > 0
  {
    var M := MeanParameter(vs);
    var body := HeaderBits(M, D) + ValuesCode(vs, M);
    body + PaddingBits(|body|)
  }

  /** readIntFromUnary at bit p: the ones before the next zero, and the position after that zero. */
  function UnaryAt(S: BitString, p: nat): (res: Result<Read, GolombError>)
    decreases |S| - p
  {
    if p >= |S| then Failure(Underrun)
    else if S[p] == '0' then Success(Read(0, p + 1))
    else
      var rest := UnaryAt(S, p + 1);
      if rest.Failure? then rest else Success(Read(rest.value.value + 1, rest.value.pos))
  }

  /** readIntFromBinary at bit p: the value of the next n bits. */
  function BinaryAt(S: BitString, p: nat, n: nat): (res: Result<Read, GolombError>)
  {
    if p + n <= |S| then Success(Read(Value(S[p .. p + n]), p + n)) else Failure(Underrun)
  }

  /** The remainder at bit p: peek b - 1 bits; below difference they are r, otherwise read b bits less difference. */
  function RemainderAt(S: BitString, p: nat, b: nat, d: nat): (res: Result<Read, GolombError>)
    requires b >= 1
  {
    var peek := BinaryAt(S, p, b - 1);
    if peek.Failure? then peek
    else if peek.value.value < d then peek
    else
      var full := BinaryAt(S, p, b);
      if full.Failure? then full else Success(Read(full.value.value - d, full.value.pos))
  }

  /** One value at bit p: q * M + r, with b and difference derived from M. */
  function ValueAt(S: BitString, p: nat, M: nat, b: nat, d: nat): (res: Result<Read, GolombError>)
    requires b >= 1
  {
    var q := UnaryAt(S, p);
    if q.Failure? then q
    else
      var r := RemainderAt(S, q.value.pos, b, d);
      if r.Failure? then r else Success(Read(q.value.value * M + r.value.value, r.value.pos))
  }

  /** n values from bit p. */
  function ValuesAt(S: BitString, p: nat, M: nat, b: nat, d: nat, n: nat): (res: Result<Reads, GolombError>)
    requires b >= 1
    ensures res.Success? ==> |res.value.values| == n
    decreases n
  {
    if n == 0 then Success(Reads([], p))
    else
      var v := ValueAt(S, p, M, b, d);
      if v.Failure? then Failure(v.error)
      else
        var rest := ValuesAt(S, v.value.pos, M, b, d, n - 1);
        if rest.Failure? then rest else Success(Reads([v.value.value] + rest.value.values, rest.value.pos))
  }

  /** decodeBitstream: M in the first dynamicRange bits, then nElements values. */
  function Decoded(bytes: seq<Byte>, nElements: nat, D: nat): (res: Result<seq<int>, GolombError>)
    ensures res.Success? ==> |res.value| == nElements
  {
    var S := BytesBits(bytes);
    var header := BinaryAt(S, 0, D);
    if header.Failure? then Failure(header.error)
    else if header.value.value == 0 then Failure(LogOfZero)
    else
      var M := header.value.value;
      var vs := ValuesAt(S, D, M, BitLength(M), Difference(M), nElements);
      if vs.Failure? then Failure(vs.error) else Success(vs.value.values)
  }

  // ----- Properties -----

  /** A remainder below difference fits in b - 1 bits; any other, plus difference, fits in b bits and peeks at least difference. */
  lemma RemainderFits(r: nat, M: nat)
    requires r < M
    ensures var b, d := BitLength(M), Difference(M);
      && (r < d ==> r < Pow2(b - 1))
      && (r >= d ==> r + d < Pow2(b) && (r + d) / 2 >= d)
  {
  }

  /** The truncated-binary code has b - 1 bits below difference and b bits otherwise. */
  lemma RemainderCodeLength(r: nat, M: nat)
    requires r < M
    ensures |RemainderCode(r, M)| == if r < Difference(M) then BitLength(M) - 1 else BitLength(M)
  {
    RemainderFits(r, M);
  }

  /** The stream S holds the bits C at position p, bit by bit. */
  ghost predicate HasAt(S: BitString, p: nat, C: BitString)
    decreases |C|
  {
    if C == [] then p <= |S| else p < |S| && S[p] == C[0] && HasAt(S, p + 1, C[1..])
  }

  /** Holding C at p is having C as the slice of S from p. */
  lemma {:induction false} HasAtSlice(S: BitString, p: nat, C: BitString)
    ensures HasAt(S, p, C) <==> p + |C| <= |S| && S[p .. p + |C|] == C
    decreases |C|
  {
    if C != [] {
      HasAtSlice(S, p + 1, C[1..]);
      if p + |C| <= |S| {
        assert S[p .. p + |C|] == [S[p]] + S[p + 1 .. p + 1 + |C[1..]|];
        assert C == [C[0]] + C[1..];
      }
    }
  }

  /** A stream holding A + B at p holds A at p and B right after it. */
  lemma SplitAt(S: BitString, p: nat, A: BitString, B: BitString)
    requires HasAt(S, p, A + B)
    ensures HasAt(S, p, A) && HasAt(S, p + |A|, B)
  {
    HasAtSlice(S, p, A + B);
    HasAtSlice(S, p, A);
    HasAtSlice(S, p + |A|, B);
    assert S[p .. p + |A|] == (A + B)[..|A|];
    assert S[p + |A| .. p + |A| + |B|] == (A + B)[|A|..];
  }

  /** Reading q ones and a zero in unary gives q. */
  lemma {:induction false} UnaryAtOnes(S: BitString, p: nat, q: nat)
    requires p + q < |S| && S[p + q] == '0'
    requires forall i :: p <= i < p + q ==> S[i] == '1'
    ensures UnaryAt(S, p) == Success(Read(q, p + q + 1))
    decreases q
  {
    if q > 0 {
      UnaryAtOnes(S, p + 1, q - 1);
    }
  }

  /** The unary code of q read back is q. */
  lemma UnaryAtCode(S: BitString, p: nat, q: nat)
    requires HasAt(S, p, Unary(q))
    ensures UnaryAt(S, p) == Success(Read(q, p + q + 1))
  {
    HasAtSlice(S, p, Unary(q));
    assert forall i :: p <= i <= p + q ==> S[i] == Unary(q)[i - p];
    UnaryAtOnes(S, p, q);
  }

  /** The remainder read back from its truncated-binary code is the remainder. */
  lemma RemainderAtCode(S: BitString, p: nat, r: nat, M: nat)
    requires r < M && HasAt(S, p, RemainderCode(r, M))
    ensures RemainderAt(S, p, BitLength(M), Difference(M)) == Success(Read(r, p + |RemainderCode(r, M)|))
  {
    RemainderFits(r, M);
    if r < Difference(M) {
      ShortRemainderAt(S, p, r, BitLength(M), Difference(M));
    } else {
      LongRemainderAt(S, p, r, BitLength(M), Difference(M));
    }
  }

  /** A remainder below difference is read back by the peek of b - 1 bits. */
  lemma ShortRemainderAt(S: BitString, p: nat, r: nat, b: nat, d: nat)
    requires 1 <= b && r < d && r < Pow2(b - 1)
    requires HasAt(S, p, Binary(r, b - 1))
    ensures RemainderAt(S, p, b, d) == Success(Read(r, p + |Binary(r, b - 1)|))
  {
    HasAtSlice(S, p, Binary(r, b - 1));
    ValueOfBinary(r, b - 1);
  }

  /** Any other remainder peeks as (r + difference) / 2 >= difference, then reads as r + difference in b bits. */
  lemma LongRemainderAt(S: BitString, p: nat, r: nat, b: nat, d: nat)
    requires 1 <= b && d <= r && r + d < Pow2(b) && (r + d) / 2 >= d
    requires HasAt(S, p, Binary(r + d, b))
    ensures RemainderAt(S, p, b, d) == Success(Read(r, p + |Binary(r + d, b)|))
  {
    var v := r + d;
    assert Binary(v, b) == Binary(v / 2, b - 1) + [BitOf(v % 2)];
    SplitAt(S, p, Binary(v / 2, b - 1), [BitOf(v % 2)]);
    HasAtSlice(S, p, Binary(v, b));
    HasAtSlice(S, p, Binary(v / 2, b - 1));
    ValueOfBinary(v, b);
    ValueOfBinary(v / 2, b - 1);
  }

  /** One value read back from its code, a unary quotient then a remainder, is the value. */
  lemma ValueAtCode(S: BitString, p: nat, v: nat, M: nat)
    requires M >= 1 && HasAt(S, p, Unary(v / M))
    requires HasAt(S, p + v / M + 1, RemainderCode(v % M, M))
    ensures ValueAt(S, p, M, BitLength(M), Difference(M)) == Success(Read(v, p + v / M + 1 + |RemainderCode(v % M, M)|))
  {
    var q, r := v / M, v % M;
    var mid := p + q + 1;
    UnaryAtCode(S, p, q);
    RemainderAtCode(S, mid, r, M);
    QuotientTimes(v, M);
    ValueAtParts(S, p, M, BitLength(M), Difference(M), q, mid, r, mid + |RemainderCode(r, M)|);
  }

  /** A unary q at p followed by a remainder r gives q * M + r. */
  lemma ValueAtParts(S: BitString, p: nat, M: nat, b: nat, d: nat, q: nat, mid: nat, r: nat, end: nat)
    requires b >= 1
    requires UnaryAt(S, p) == Success(Read(q, mid))
    requires RemainderAt(S, mid, b, d) == Success(Read(r, end))
    ensures ValueAt(S, p, M, b, d) == Success(Read(q * M + r, end))
  {
  }

  lemma QuotientTimes(v: nat, M: nat)
    requires M >= 1
    ensures (v / M) * M + v % M == v
  {
  }

  /** The codes of a vector start with the first value's code. */
  lemma {:induction false} ValuesCodeFront(vs: seq<nat>, M: nat)
    requires M >= 1 && vs != []
    ensures ValuesCode(vs, M) == ValueCode(vs[0], M) + ValuesCode(vs[1..], M)
    decreases |vs|
  {
    if |vs| > 1 {
      var init := vs[..|vs| - 1];
      ValuesCodeFront(init, M);
      assert init[1..] == vs[1..][..|vs[1..]| - 1];
      assert init[0] == vs[0];
    } else {
      assert vs[1..] == [];
      assert vs[..0] == [];
    }
  }

  /** The values read back from their codes are the values, ending where the codes end. */
  lemma {:induction false} ValuesAtCode(S: BitString, p: nat, vs: seq<nat>, M: nat, b: nat, d: nat, end: nat)
    requires M >= 1 && b == BitLength(M) && d == Difference(M)
    requires HasAt(S, p, ValuesCode(vs, M)) && end == p + |ValuesCode(vs, M)|
    ensures ValuesAt(S, p, M, b, d, |vs|) == Success(Reads(vs, end))
    decreases |vs|
  {
    if vs != [] {
      var next, restEnd := FirstValueAt(S, p, vs, M, b, d);
      ValuesAtCode(S, next, vs[1..], M, b, d, restEnd);
      ValuesAtStep(S, p, M, b, d, vs, next, restEnd, end);
    }
  }

  /** The first value's code is read back, and the codes of the others follow it. */
  lemma FirstValueAt(S: BitString, p: nat, vs: seq<nat>, M: nat, b: nat, d: nat) returns (next: nat, restEnd: nat)
    requires M >= 1 && b == BitLength(M) && d == Difference(M) && vs != [] && HasAt(S, p, ValuesCode(vs, M))
    ensures ValueAt(S, p, M, b, d) == Success(Read(vs[0], next))
    ensures HasAt(S, next, ValuesCode(vs[1..], M))
    ensures restEnd == next + |ValuesCode(vs[1..], M)| && restEnd == p + |ValuesCode(vs, M)|
  {
    ValuesCodeFront(vs, M);
    next := p + |ValueCode(vs[0], M)|;
    restEnd := next + |ValuesCode(vs[1..], M)|;
    ValueAtHead(S, p, vs[0], M, ValuesCode(vs[1..], M));
  }

  /** A value code at the head of a stream is read back, and the stream holds the rest after it. */
  lemma ValueAtHead(S: BitString, p: nat, v: nat, M: nat, rest: BitString)
    requires M >= 1 && HasAt(S, p, ValueCode(v, M) + rest)
    ensures ValueAt(S, p, M, BitLength(M), Difference(M)) == Success(Read(v, p + |ValueCode(v, M)|))
    ensures HasAt(S, p + |ValueCode(v, M)|, rest)
  {
    var C := ValueCode(v, M);
    SplitAt(S, p, C, rest);
    SplitAt(S, p, Unary(v / M), RemainderCode(v % M, M));
    ValueAtCode(S, p, v, M);
  }

  /** The first value read at p followed by the others read after it gives them all. */
  lemma ValuesAtStep(S: BitString, p: nat, M: nat, b: nat, d: nat, vs: seq<nat>, next: nat, restEnd: nat, end: nat)
    requires b >= 1 && vs != [] && restEnd == end
    requires ValueAt(S, p, M, b, d) == Success(Read(vs[0], next))
    requires ValuesAt(S, next, M, b, d, |vs[1..]|) == Success(Reads(vs[1..], restEnd))
    ensures ValuesAt(S, p, M, b, d, |vs|) == Success(Reads(vs, end))
  {
    assert [vs[0]] + vs[1..] == vs;
  }

  /** The padding completes an even number of bytes. */
  lemma PaddingAligns(n: nat)
    ensures var total := n + |PaddingBits(n)|; total % 8 == 0 && (total / 8) % 2 == 0
    ensures 1 <= |PaddingBits(n)| <= 16
  {
    var fill := 8 - n % 8;
    DivModUnique(n + fill, 8, n / 8 + 1, 0);
    if ((n + fill) / 8) % 2 != 0 {
      DivModUnique(n + fill + 8, 8, n / 8 + 2, 0);
    }
  }

  /** A sum of values at most bound is at most the count times bound. */
  lemma {:induction false} SumAtMost(vs: seq<nat>, bound: nat)
    requires forall i :: 0 <= i < |vs| ==> vs[i] <= bound
    ensures Sum(vs) <= |vs| * bound
    decreases |vs|
  {
    if vs != [] {
      SumAtMost(vs[..|vs| - 1], bound);
    }
  }

  /** s <= n * c gives s / n <= c. */
  lemma QuotientAtMost(s: nat, n: nat, c: nat)
    requires n > 0 && s <= n * c
    ensures s / n <= c
  {
    var q := s / n;
    assert q * n <= s;
    ProductCancel(q, c, n);
  }

  /** A positive factor cancels from both sides of a product inequality. */
  lemma ProductCancel(a: int, c: int, n: int)
    requires n > 0 && a * n <= c * n
    ensures a <= c
  {
  }

  /** The mean parameter of values below 2^D is below 2^D when D >= 1. */
  lemma MeanBelow(vs: seq<nat>, D: nat)
    requires |vs| > 0 && D >= 1
    requires forall i :: 0 <= i < |vs| ==> vs[i] < Pow2(D)
    ensures MeanParameter(vs) < Pow2(D)
  {
    SumAtMost(vs, Pow2(D) - 1);
    QuotientAtMost(Sum(vs), |vs|, Pow2(D) - 1);
    assert Pow2(D) == 2 * Pow2(D - 1);
  }

  /**
   * The round trip: decoding the bytes of a coded vector of values below 2^D (D >= 1)
   * gives back the vector.
   */
  lemma RoundTrip(vs: seq<nat>, D: nat, bytes: seq<Byte>)
    requires |vs| > 0 && D >= 1
    requires forall i :: 0 <= i < |vs| ==> vs[i] < Pow2(D)
    requires BytesBits(bytes) == Encoded(vs, D)
    ensures Decoded(bytes, |vs|, D) == Success(vs)
  {
    var M := MeanParameter(vs);
    MeanBelow(vs, D);
    DivModUnique(M, Pow2(D), 0, M);
    var H := HeaderBits(M, D);
    var body := H + ValuesCode(vs, M);
    var S := BytesBits(bytes);
    HasAtSlice(S, 0, body);
    SplitAt(S, 0, H, ValuesCode(vs, M));
    HasAtSlice(S, 0, H);
    ValueOfBinary(M, D);
    assert BinaryAt(S, 0, D) == Success(Read(M, D));
    ValuesAtCode(S, D, vs, M, BitLength(M), Difference(M), D + |ValuesCode(vs, M)|);
  }
}
