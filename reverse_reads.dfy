/**
 * What the hybrid decoder's reverse reads do to the bits B that lie before its cursor.
 * Reading n bits takes the last n bits of B (in stream order) and leaves B without
 * them; every read the decoder performs is one of the functions below, and each
 * returns a Failure where the source would run its cursor off the front of the buffer.
 */
module ReverseReads {
  import opened Wrappers
  import opened Bits

  /**
   * Why decoding stopped: the cursor ran off the front of the buffer, a codeword
   * is in no table (a failed dictionary lookup), or a list was indexed out of range.
   */
  datatype DecodeError = BitstreamUnderrun | InvalidCodeword | IndexOutOfRange

  /** A value read from the end of the bits before the cursor, and the bits that remain. */
  datatype Cut<+T> = Cut(value: T, rest: BitString)

  /** readBinaryStringFromBitStream(n) in reverse mode. */
  function ReadBits(B: BitString, n: nat): (res: Result<Cut<BitString>, DecodeError>)
    ensures res.Success? <==> n <= |B|
    ensures res.Success? ==> |res.value.value| == n && res.value.rest + res.value.value == B
  {
    if n <= |B| then Success(Cut(B[|B| - n..], B[..|B| - n])) else Failure(BitstreamUnderrun)
  }

  /** Reading back the last |s| bits of P + s gives s and leaves P. */
  lemma ReadBitsOfAppend(P: BitString, s: BitString)
    ensures ReadBits(P + s, |s|) == Success(Cut(s, P))
  {
    assert (P + s)[|P|..] == s;
    assert (P + s)[..|P|] == P;
  }

  /** Dropping the last |s| bits of P + s leaves P. */
  lemma DropAppended(P: BitString, s: BitString)
    ensures (P + s)[..|P|] == P
  {
  }

  /** The number of copies of c at the end of s. */
  function TrailingCount(s: BitString, c: BitChar): (n: nat)
    ensures n <= |s|
    ensures forall j :: |s| - n <= j < |s| ==> s[j] == c
    ensures n < |s| ==> s[|s| - 1 - n] != c
  {
    if s == [] || s[|s| - 1] != c then 0 else 1 + TrailingCount(s[..|s| - 1], c)
  }

  /** A count that ends at a different bit, or at the start of s, is the trailing count. */
  lemma TrailingCountExact(s: BitString, c: BitChar, n: nat)
    requires n <= |s|
    requires forall j :: |s| - n <= j < |s| ==> s[j] == c
    requires n < |s| ==> s[|s| - 1 - n] != c
    ensures TrailingCount(s, c) == n
  {
  }

  /**
   * The bits getNumberOfBitsEqualToTargetValue peeks at: the last maxBits bits before
   * the cursor, or all of them when fewer are left.
   */
  function Window(B: BitString, maxBits: nat): (w: BitString)
    ensures |w| == (if maxBits <= |B| then maxBits else |B|)
  {
    if maxBits <= |B| then B[|B| - maxBits..] else B
  }

  /**
   * getNumberOfBitsEqualToTargetValue: count how many bits at the end of the window
   * equal c, and consume exactly that many.
   */
  function CountTrailing(B: BitString, c: BitChar, maxBits: nat): (cut: Cut<nat>)
    ensures cut.value <= maxBits && cut.value <= |B| && |cut.rest| == |B| - cut.value
  {
    var n := TrailingCount(Window(B, maxBits), c);
    Cut(n, B[..|B| - n])
  }

  /**
   * The count splits B into what remains and a run of c, and a count that stops
   * short of both maxBits and the start of B stops at a bit that differs from c.
   */
  lemma CountTrailingSplits(B: BitString, c: BitChar, maxBits: nat)
    ensures var cut := CountTrailing(B, c, maxBits);
      && cut.rest + Repeat(c, cut.value) == B
      && (cut.value < maxBits && cut.value < |B| ==> B[|B| - 1 - cut.value] != c)
  {
    var W := Window(B, maxBits);
    var n := TrailingCount(W, c);
    forall j | |B| - n <= j < |B|
      ensures B[j] == c
    {
      assert B[j] == W[j - (|B| - |W|)];
    }
    assert B[..|B| - n] + Repeat(c, n) == B;
    if n < maxBits && n < |B| {
      assert B[|B| - 1 - n] == W[|W| - 1 - n];
    }
  }

  function Repeat(c: BitChar, n: nat): (s: BitString)
    ensures |s| == n && forall j :: 0 <= j < n ==> s[j] == c
  {
    seq(n, _ => c)
  }

  /** inversePadding: consume trailing zeros and the one that precedes them. */
  function InversePadding(B: BitString): (res: Result<BitString, DecodeError>)
    ensures res.Success? ==> |res.value| < |B|
  {
    if B == [] then Failure(BitstreamUnderrun)
    else if B[|B| - 1] == '0' then InversePadding(B[..|B| - 1])
    else Success(B[..|B| - 1])
  }

  /** inversePadding succeeds exactly when a one is present, and removes it with the zeros after it. */
  lemma {:induction false} InversePaddingSplits(B: BitString)
    ensures InversePadding(B).Success? <==> '1' in B
    ensures var res := InversePadding(B);
      res.Success? ==> B == res.value + ['1'] + Zeros(|B| - |res.value| - 1)
  {
    if B != [] {
      var init := B[..|B| - 1];
      assert B == init + [B[|B| - 1]];
      if B[|B| - 1] == '0' {
        InversePaddingSplits(init);
        var res := InversePadding(init);
        if res.Success? {
          assert Zeros(|init| - |res.value| - 1) + ['0'] == Zeros(|B| - |res.value| - 1);
        }
      }
    }
  }

  /** The padding the coder appends is removed exactly. */
  lemma {:induction false} InversePaddingOfPadded(P: BitString, n: nat)
    ensures InversePadding(P + ['1'] + Zeros(n)) == Success(P)
  {
    var B := P + ['1'] + Zeros(n);
    if n > 0 {
      assert B[..|B| - 1] == P + ['1'] + Zeros(n - 1);
      InversePaddingOfPadded(P, n - 1);
    } else {
      assert B[..|B| - 1] == P;
    }
  }

  /**
   * getOutputCodeWordFromBitstream: prepend bits one at a time, starting from the
   * empty string, until the candidate is a key of m.
   */
  function ReadCodeword<V>(B: BitString, m: map<BitString, V>): (res: Result<Cut<BitString>, DecodeError>)
    ensures res.Success? ==> res.value.value in m && res.value.rest + res.value.value == B
  {
    SuffixScan(B, m, 0)
  }

  function SuffixScan<V>(B: BitString, m: map<BitString, V>, n: nat): (res: Result<Cut<BitString>, DecodeError>)
    requires n <= |B|
    ensures res.Success? ==> res.value.value in m && res.value.rest + res.value.value == B
    decreases |B| - n
  {
    if B[|B| - n..] in m then
      assert B[..|B| - n] + B[|B| - n..] == B;
      Success(Cut(B[|B| - n..], B[..|B| - n]))
    else if n == |B| then Failure(BitstreamUnderrun)
    else SuffixScan(B, m, n + 1)
  }

  predicate IsSuffix(u: BitString, v: BitString)
  {
    |u| <= |v| && v[|v| - |u|..] == u
  }

  /** No key of m ends another key. */
  ghost predicate SuffixFree<V>(m: map<BitString, V>)
  {
    forall u, v :: u in m && v in m && IsSuffix(u, v) ==> u == v
  }

  /** In a suffix-free map, the codeword the coder wrote last is the one read back. */
  lemma ReadCodewordOfAppend<V>(P: BitString, c: BitString, m: map<BitString, V>)
    requires c in m && SuffixFree(m)
    ensures ReadCodeword(P + c, m) == Success(Cut(c, P))
  {
    SuffixScanReaches(P, c, m, 0);
  }

  lemma {:induction false} SuffixScanReaches<V>(P: BitString, c: BitString, m: map<BitString, V>, n: nat)
    requires c in m && SuffixFree(m) && n <= |c|
    ensures SuffixScan(P + c, m, n) == Success(Cut(c, P))
    decreases |c| - n
  {
    var B := P + c;
    var u := B[|B| - n..];
    assert u == c[|c| - n..];
    if n == |c| {
      assert u == c;
      assert B[..|B| - n] == P;
    } else {
      assert IsSuffix(u, c);
      assert u in m ==> u == c;
      assert u != c;
      SuffixScanReaches(P, c, m, n + 1);
    }
  }
}
