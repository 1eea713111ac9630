/**
 * The GPO2 code R_k(j) of the high-entropy processing (CCSDS 123.0-B-2, section
 * 5.4.3.3.3) and its inverse.  With q = floor(j / 2^k) below the unary length limit
 * Umax, j is written as its k low bits, a one and q zeros (mode A); otherwise as its
 * D-bit binary form followed by Umax zeros (mode B).  The decoder reads the code
 * backwards: it counts up to Umax trailing zeros and tells the modes apart by that
 * count.  A code is read back after any bits P, however few: its own bits stop the count.
 */
module Gpo2 {
  import opened Wrappers
  import opened Bits
  import opened ReverseReads

  /** GPO2_coding(j, k): mode A below the unary limit, mode B (plain D bits, Umax zeros) above it. */
  function Gpo2Code(j: nat, k: nat, Umax: nat, D: nat): BitString
  {
    if Quotient(j, k) < Umax then
      LowBits(j, k) + ['1'] + Zeros(Quotient(j, k))
    else
      ZFill(Bin(j), D) + Zeros(Umax)
  }

  /** The two shapes of a GPO2 code, in terms of the value's binary digits. */
  lemma Gpo2CodeModes(j: nat, k: nat, Umax: nat, D: nat)
    ensures var s := Gpo2Code(j, k, Umax, D);
      && (Quotient(j, k) < Umax ==> s == Binary(Remainder(j, k), k) + ['1'] + Zeros(Quotient(j, k)))
      && (Quotient(j, k) < Umax ==> |s| == k + 1 + Quotient(j, k))
      && (Quotient(j, k) >= Umax && 1 <= D && j < Pow2(D) ==> s == Binary(j, D) + Zeros(Umax))
  {
    PlainWhenFits(j, D);
  }

  lemma PlainWhenFits(j: nat, D: nat)
    ensures 1 <= D && j < Pow2(D) ==> ZFill(Bin(j), D) == Binary(j, D)
  {
    if 1 <= D && j < Pow2(D) {
      ZFillBin(j, D);
    }
  }

  /** GPO2_decoding(k) on the bits B before the cursor. */
  function Gpo2Decode(B: BitString, k: nat, Umax: nat, D: nat): Result<Cut<nat>, DecodeError>
  {
    var zeros := CountTrailing(B, '0', Umax);
    if zeros.value < Umax then
      // the bit before the zeros is the terminating one; it is dropped
      if zeros.rest == [] then Failure(BitstreamUnderrun) else
      var beforeOne := zeros.rest[..|zeros.rest| - 1];
      if k > 0 then
        var read := ReadBits(beforeOne, k);
        if read.Failure? then Failure(read.error) else
        var low := read.value;
        Success(Cut(zeros.value * Pow2(k) + Value(low.value), low.rest))
      else
        Success(Cut(zeros.value * Pow2(k), beforeOne))
    else
      var read := ReadBits(zeros.rest, D);
      if read.Failure? then Failure(read.error) else
      var plain := read.value;
      Success(Cut(Value(plain.value), plain.rest))
  }

  /** A successful decode whose zero run stops below Umax reads the one, then k low bits. */
  lemma Gpo2DecodeModeA(B: BitString, k: nat, Umax: nat, D: nat) returns (zeros: Cut<nat>, beforeOne: BitString)
    requires Gpo2Decode(B, k, Umax, D).Success? && CountTrailing(B, '0', Umax).value < Umax
    ensures zeros == CountTrailing(B, '0', Umax) && 1 <= |zeros.rest|
    ensures beforeOne == ReadBits(zeros.rest, 1).value.rest
    ensures k > 0 ==> ReadBits(beforeOne, k).Success?
    ensures k > 0 ==> var low := ReadBits(beforeOne, k).value;
      Gpo2Decode(B, k, Umax, D).value == Cut(zeros.value * Pow2(k) + Value(low.value), low.rest)
    ensures k == 0 ==> Gpo2Decode(B, k, Umax, D).value == Cut(zeros.value * Pow2(k), beforeOne)
  {
    zeros := CountTrailing(B, '0', Umax);
    beforeOne := zeros.rest[..|zeros.rest| - 1];
  }

  /** A successful decode that counts Umax zeros reads D plain bits before them. */
  lemma Gpo2DecodeModeB(B: BitString, k: nat, Umax: nat, D: nat) returns (zeros: Cut<nat>)
    requires Gpo2Decode(B, k, Umax, D).Success? && CountTrailing(B, '0', Umax).value >= Umax
    ensures zeros == CountTrailing(B, '0', Umax) && ReadBits(zeros.rest, D).Success?
    ensures var plain := ReadBits(zeros.rest, D).value;
      Gpo2Decode(B, k, Umax, D).value == Cut(Value(plain.value), plain.rest)
  {
    zeros := CountTrailing(B, '0', Umax);
  }

  /**
   * Reading back what GPO2_coding(j, k) appended after P gives j and leaves P, in
   * mode A always and in mode B when j fits in D >= 1 bits.
   */
  lemma Gpo2RoundTrip(P: BitString, j: nat, k: nat, Umax: nat, D: nat)
    requires Quotient(j, k) >= Umax ==> 1 <= D && j < Pow2(D)
    ensures Gpo2Decode(P + Gpo2Code(j, k, Umax, D), k, Umax, D) == Success(Cut(j, P))
  {
    if Quotient(j, k) < Umax {
      ModeARoundTrip(P, j, k, Umax, D);
    } else {
      ModeBRoundTrip(P, j, k, Umax, D);
    }
  }

  lemma ModeARoundTrip(P: BitString, j: nat, k: nat, Umax: nat, D: nat)
    requires Quotient(j, k) < Umax
    ensures Gpo2Decode(P + Gpo2Code(j, k, Umax, D), k, Umax, D) == Success(Cut(j, P))
  {
    Gpo2CodeModes(j, k, Umax, D);
    var q := Quotient(j, k);
    var m := Remainder(j, k);
    var low := Binary(m, k);
    var B := P + Gpo2Code(j, k, Umax, D);
    OneBetween(P, low, Zeros(q));
    Reassemble(j, k);
    DecodeModeAShape(B, P, low, q, k, Umax, D, j);
  }

  lemma OneBetween(P: BitString, low: BitString, zeros: BitString)
    ensures P + (low + ['1'] + zeros) == P + low + ['1'] + zeros
  {
  }

  /** The unary count and the k low bits together give back j. */
  lemma Reassemble(j: nat, k: nat)
    ensures Quotient(j, k) * Pow2(k) + Value(Binary(Remainder(j, k), k)) == j
  {
    ValueOfBinary(Remainder(j, k), k);
    QuotientRemainder(j, k);
  }

  /** Mode A read back: q zeros after a one, and k low bits before it. */
  lemma DecodeModeAShape(B: BitString, P: BitString, low: BitString, q: nat, k: nat, Umax: nat, D: nat, j: nat)
    requires |low| == k && q < Umax
    requires B == P + low + ['1'] + Zeros(q) && j == q * Pow2(k) + Value(low)
    ensures Gpo2Decode(B, k, Umax, D) == Success(Cut(j, P))
  {
    var X := P + low;
    assert B == X + ['1'] + Zeros(q);
    CountZerosAfterOne(X, q, Umax);
    var Y := X + ['1'];
    assert CountTrailing(B, '0', Umax) == Cut(q, Y);
    assert Y[..|Y| - 1] == X;
    if k > 0 {
      ModeALowBits(B, P, low, q, k, Umax, D);
    } else {
      assert X == P;
    }
  }

  lemma ModeALowBits(B: BitString, P: BitString, low: BitString, q: nat, k: nat, Umax: nat, D: nat)
    requires |low| == k > 0 && q < Umax
    requires CountTrailing(B, '0', Umax) == Cut(q, P + low + ['1'])
    ensures Gpo2Decode(B, k, Umax, D) == Success(Cut(q * Pow2(k) + Value(low), P))
  {
    DropAppended(P + low, ['1']);
    ReadBitsOfAppend(P, low);
  }

  /** Peeking up to Umax bits at a one followed by q < Umax zeros counts exactly q zeros. */
  lemma CountZerosAfterOne(X: BitString, q: nat, Umax: nat)
    requires q < Umax
    ensures CountTrailing(X + ['1'] + Zeros(q), '0', Umax) == Cut(q, X + ['1'])
  {
    var Y := X + ['1'];
    var B := Y + Zeros(q);
    WindowAfterOne(Y, q, Umax);
    DropAppended(Y, Zeros(q));
  }

  /** The window of Y + q zeros, with Y ending in a one, ends in exactly q zeros. */
  lemma WindowAfterOne(Y: BitString, q: nat, Umax: nat)
    requires |Y| >= 1 && Y[|Y| - 1] == '1' && q < Umax
    ensures var B := Y + Zeros(q); TrailingCount(Window(B, Umax), '0') == q
  {
    var B := Y + Zeros(q);
    var W := Window(B, Umax);
    assert W[|W| - 1 - q] == '1';
    TrailingCountExact(W, '0', q);
  }

  lemma ModeBRoundTrip(P: BitString, j: nat, k: nat, Umax: nat, D: nat)
    requires Quotient(j, k) >= Umax && 1 <= D && j < Pow2(D)
    ensures Gpo2Decode(P + Gpo2Code(j, k, Umax, D), k, Umax, D) == Success(Cut(j, P))
  {
    Gpo2CodeModes(j, k, Umax, D);
    var plain := Binary(j, D);
    var Y := P + plain;
    var B := P + Gpo2Code(j, k, Umax, D);
    ThreeParts(P, plain, Zeros(Umax));
    assert B == Y + Zeros(Umax);
    AllZerosWindow(Y, Umax);
    DropAppended(Y, Zeros(Umax));
    ReadBitsOfAppend(P, plain);
    ValueOfBinary(j, D);
  }

  lemma ThreeParts(a: BitString, b: BitString, c: BitString)
    ensures a + (b + c) == a + b + c
  {
  }

  /** Peeking Umax bits at Umax appended zeros counts all of them. */
  lemma AllZerosWindow(Y: BitString, Umax: nat)
    ensures var B := Y + Zeros(Umax); TrailingCount(Window(B, Umax), '0') == Umax
  {
    var B := Y + Zeros(Umax);
    var W := Window(B, Umax);
    assert W == Zeros(Umax);
    TrailingCountExact(W, '0', Umax);
  }
}
