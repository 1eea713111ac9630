/**
 * The Golomb-Rice coder as the object it is: the bytes written to the output file
 * (fileOut) and their count (writtenBytes).  The byte being filled (currentByte) and the
 * number of its bits already written (writtenBits) travel through the writers as
 * parameters and results, as in the original; each bit is ORed into currentByte at
 * position 7 - writtenBits, so the bits written so far are the high writtenBits bits of
 * currentByte and the low bits are still zero.  The encoding methods are proved against
 * GolombRiceSpec.Encoded, the decoding methods against GolombRiceSpec.Decoded.
 */
module GolombRiceCoderClass {
  import opened Wrappers
  import opened Bits
  import opened ReverseReads
  import opened GolombRiceSpec

  /** currentByte | (bit << position), for a single bit. */
  function SetBit(byte: nat, bit: nat, position: nat): nat
    requires bit < 2
  {
    if bit == 1 && (byte / Pow2(position)) % 2 == 0 then byte + Pow2(position) else byte
  }

  /**
   * A byte being filled holds the bits pending, most significant first, followed by
   * 8 - writtenBits zero bits: currentByte is their value shifted up to the top of the byte.
   */
  ghost predicate Holds(currentByte: int, writtenBits: int, pending: BitString)
  {
    0 <= writtenBits < 8 && |pending| == writtenBits && currentByte == Value(pending) * Pow2(8 - writtenBits)
  }

  /** ORing a bit at position 7 - writtenBits shifts it in after the pending bits. */
  lemma PushBit(currentByte: nat, writtenBits: nat, pending: BitString, bit: nat)
    requires Holds(currentByte, writtenBits, pending) && bit < 2
    ensures var next, s := SetBit(currentByte, bit, 7 - writtenBits), pending + [BitOf(bit)];
      next < 256 && next == Value(s) * Pow2(7 - writtenBits)
  {
    var P := Pow2(7 - writtenBits);
    var h := Value(pending);
    var s := pending + [BitOf(bit)];
    UnitHalves(writtenBits);
    Regroup(h, P);
    OrBitAt(currentByte, h, bit, 7 - writtenBits);
    assert s[..|s| - 1] == pending;
    assert Value(s) == 2 * h + bit;
    ByteSplit(writtenBits);
    BelowProduct(2 * h + bit, 2 * Pow2(writtenBits), P);
  }

  /** The eighth bit completes the byte, whose eight bits are then the ones written. */
  lemma CompleteByte(next: nat, s: BitString)
    requires |s| == 8 && next == Value(s) * Pow2(0)
    ensures next < 256 && ByteBits(next) == s
  {
    Pow2Eight();
    BinaryOfValue(s);
  }

  /** ORing a bit at a position whose own bit and all lower bits are zero adds it there. */
  lemma OrBitAt(byte: nat, h: nat, bit: nat, position: nat)
    requires byte == (2 * h) * Pow2(position) && bit < 2
    ensures SetBit(byte, bit, position) == (2 * h + bit) * Pow2(position)
  {
    var P := Pow2(position);
    DivModUnique(byte, P, 2 * h, 0);
    var hi := 2 * h + bit;
    assert hi * P == (2 * h) * P + bit * P;
  }

  lemma BelowProduct(a: nat, b: nat, c: nat)
    requires a < b
    ensures a * c + c <= c * b
  {
    MulMonotone(a + 1, b, c);
    DistributeOne(a, c);
  }

  lemma UnitHalves(k: nat)
    requires k < 8
    ensures Pow2(8 - k) == 2 * Pow2(7 - k)
  {
    assert 8 - k == (7 - k) + 1;
  }

  lemma ByteSplit(k: nat)
    requires k < 8
    ensures Pow2(7 - k) * (2 * Pow2(k)) == 256
  {
    Pow2Add(7 - k, k + 1);
    assert Pow2(k + 1) == 2 * Pow2(k);
    Pow2Eight();
    assert 7 - k + (k + 1) == 8;
  }

  lemma Regroup(h: nat, P: nat)
    ensures h * (2 * P) == (2 * h) * P
  {
  }

  lemma DistributeOne(a: int, b: int)
    ensures (a + 1) * b == a * b + b
  {
  }

  lemma MulMonotone(a: int, b: int, c: int)
    requires a <= b && c >= 0
    ensures a * c <= b * c
  {
  }

  class GolombRiceCoder {
    var fileOut: seq<Byte>
    var writtenBytes: nat

    ghost predicate Valid()
      reads this`fileOut, this`writtenBytes
    {
      writtenBytes == |fileOut|
    }

    /** No file is open yet: modelled as an empty output. */
    constructor()
      ensures Valid() && fileOut == []
    {
      fileOut := [];
      writtenBytes := 0;
    }

    method IncreaseWrittenBytes()
      modifies this`writtenBytes
      ensures writtenBytes == old(writtenBytes) + 1
    {
      writtenBytes := writtenBytes + 1;
    }

    /**
     * The step writeIntToUnary and writeIntToBinary repeat for every bit: OR it into
     * currentByte at position 7 - writtenBits, and write the byte out once it holds eight.
     */
    method WriteBit(currentByte0: nat, writtenBits0: nat, bit: nat, ghost pending0: BitString)
      returns (currentByte: nat, writtenBits: nat, ghost pending: BitString)
      requires Valid() && Holds(currentByte0, writtenBits0, pending0) && bit < 2
      modifies this`fileOut, this`writtenBytes
      ensures Valid() && Holds(currentByte, writtenBits, pending)
      ensures BytesBits(fileOut) + pending == BytesBits(old(fileOut)) + pending0 + [BitOf(bit)]
    {
      PushBit(currentByte0, writtenBits0, pending0, bit);
      currentByte := SetBit(currentByte0, bit, 7 - writtenBits0);
      writtenBits := writtenBits0 + 1;
      pending := pending0 + [BitOf(bit)];
      if writtenBits >= 8 {
        CompleteByte(currentByte, pending);
        BytesBitsAppend(fileOut, currentByte);
        fileOut := fileOut + [currentByte];
        currentByte := 0;
        writtenBits := 0;
        pending := [];
        IncreaseWrittenBytes();
      }
    }

    /**
     * writeIntToUnary: integerNumber ones, then a zero.  The ghost pending names the bits
     * held in currentByte, before and after.
     */
    method WriteIntToUnary(currentByte0: nat, writtenBits0: nat, integerNumber: nat, ghost pending0: BitString)
      returns (currentByte: nat, writtenBits: nat, ghost pending: BitString)
      requires Valid() && Holds(currentByte0, writtenBits0, pending0)
      modifies this`fileOut, this`writtenBytes
      ensures Valid() && Holds(currentByte, writtenBits, pending)
      ensures BytesBits(fileOut) + pending == BytesBits(old(fileOut)) + pending0 + Unary(integerNumber)
    {
      ghost var W0 := BytesBits(fileOut) + pending0;
      currentByte, writtenBits, pending := currentByte0, writtenBits0, pending0;
      var i: nat := integerNumber;
      while i > 0
        invariant Valid() && Holds(currentByte, writtenBits, pending)
        invariant BytesBits(fileOut) + pending == W0 + Repeat('1', integerNumber - i)
      {
        assert Repeat('1', integerNumber - i) + ['1'] == Repeat('1', integerNumber - i + 1);
        currentByte, writtenBits, pending := WriteBit(currentByte, writtenBits, 1, pending);
        i := i - 1;
      }
      currentByte, writtenBits, pending := WriteBit(currentByte, writtenBits, 0, pending);
    }

    /** writeIntToBinary: the numberOfBitsToBeUsed low bits of integerNumber, most significant first. */
    method WriteIntToBinary(currentByte0: nat, writtenBits0: nat, integerNumber: nat, numberOfBitsToBeUsed: nat, ghost pending0: BitString)
      returns (currentByte: nat, writtenBits: nat, ghost pending: BitString)
      requires Valid() && Holds(currentByte0, writtenBits0, pending0)
      modifies this`fileOut, this`writtenBytes
      ensures Valid() && Holds(currentByte, writtenBits, pending)
      ensures BytesBits(fileOut) + pending
        == BytesBits(old(fileOut)) + pending0 + Binary(integerNumber % Pow2(numberOfBitsToBeUsed), numberOfBitsToBeUsed)
    {
      ghost var W0 := BytesBits(fileOut) + pending0;
      currentByte, writtenBits, pending := currentByte0, writtenBits0, pending0;
      var n := numberOfBitsToBeUsed;
      var i: nat := n;
      while i > 0
        invariant i <= n
        invariant Valid() && Holds(currentByte, writtenBits, pending)
        invariant BytesBits(fileOut) + pending == W0 + HighBits(integerNumber, n, i)
      {
        var bitToWrite := Quotient(integerNumber, i - 1) % 2;
        HighBitsStep(integerNumber, n, i);
        currentByte, writtenBits, pending := WriteBit(currentByte, writtenBits, bitToWrite, pending);
        i := i - 1;
      }
      QuotientRemainder(integerNumber, n);
    }

    /**
     * paddingByte: zeros up to the end of the byte (a whole zero byte when none is
     * pending), then a zero byte more when the byte count is odd.
     */
    method PaddingByte(currentByte0: nat, writtenBits0: nat, ghost pending0: BitString) returns (currentByte: nat, writtenBits: nat)
      requires Valid() && Holds(currentByte0, writtenBits0, pending0)
      modifies this`fileOut, this`writtenBytes
      ensures Valid() && currentByte == 0 && writtenBits == 0
      ensures var W0 := BytesBits(old(fileOut)) + pending0; BytesBits(fileOut) == W0 + PaddingBits(|W0|)
    {
      ghost var W0 := BytesBits(fileOut) + pending0;
      var integerNumber := 0;
      var numberOfBitsToBeUsed := 8 - writtenBits0;
      ghost var pending;
      currentByte, writtenBits, pending := WriteIntToBinary(currentByte0, writtenBits0, integerNumber, numberOfBitsToBeUsed, pending0);
      ghost var W1 := BytesBits(fileOut) + pending;
      FullByteWritten(|fileOut|, writtenBits, |old(fileOut)|);
      var remainder := writtenBytes % 2;
      if remainder != 0 {
        integerNumber := 0;
        numberOfBitsToBeUsed := 8;
        currentByte, writtenBits, pending := WriteIntToBinary(currentByte, writtenBits, integerNumber, numberOfBitsToBeUsed, pending);
        FullByteWritten(|fileOut|, writtenBits, |old(fileOut)| + 1);
      }
      PaddingAssembled(W0, W1, BytesBits(fileOut) + pending, writtenBits0, |old(fileOut)|);
    }

    /** One pass of the loop of code(): q = v // M in unary, then r = v % M as rCode in rBits bits. */
    method CodeValue(currentByte0: nat, writtenBits0: nat, v: nat, M: nat, b: nat, difference: nat, ghost pending0: BitString)
      returns (currentByte: nat, writtenBits: nat, ghost pending: BitString)
      requires Valid() && Holds(currentByte0, writtenBits0, pending0)
      requires M >= 1 && b == BitLength(M) && difference == Difference(M)
      modifies this`fileOut, this`writtenBytes
      ensures Valid() && Holds(currentByte, writtenBits, pending)
      ensures BytesBits(fileOut) + pending == BytesBits(old(fileOut)) + pending0 + ValueCode(v, M)
    {
      ghost var W := BytesBits(fileOut) + pending0;
      DivisionBounds(v, M);
      var q := v / M;
      var r := v % M;
      var rBits, rCode;
      if r < difference {
        rBits := b - 1;
        rCode := r;
      } else {
        rBits := b;
        rCode := r + difference;
      }
      RemainderCodeOf(r, M, rCode, rBits);
      ghost var pending1;
      currentByte, writtenBits, pending1 := WriteIntToUnary(currentByte0, writtenBits0, q, pending0);
      ghost var W1 := BytesBits(fileOut) + pending1;
      currentByte, writtenBits, pending := WriteIntToBinary(currentByte, writtenBits, rCode, rBits, pending1);
      assert BytesBits(fileOut) + pending == W + Unary(q) + RemainderCode(r, M);
    }

    /** The loop of code() over the vector. */
    method CodeValues(currentByte0: nat, writtenBits0: nat, vector: seq<nat>, M: nat, b: nat, difference: nat, ghost pending0: BitString)
      returns (currentByte: nat, writtenBits: nat, ghost pending: BitString)
      requires Valid() && Holds(currentByte0, writtenBits0, pending0)
      requires M >= 1 && b == BitLength(M) && difference == Difference(M)
      modifies this`fileOut, this`writtenBytes
      ensures Valid() && Holds(currentByte, writtenBits, pending)
      ensures BytesBits(fileOut) + pending == BytesBits(old(fileOut)) + pending0 + ValuesCode(vector, M)
    {
      ghost var W0 := BytesBits(fileOut) + pending0;
      ghost var done: BitString := [];
      currentByte, writtenBits, pending := currentByte0, writtenBits0, pending0;
      for index := 0 to |vector|
        invariant Valid() && Holds(currentByte, writtenBits, pending)
        invariant done == ValuesCode(vector[..index], M)
        invariant BytesBits(fileOut) + pending == W0 + done
      {
        ghost var W := BytesBits(fileOut) + pending;
        currentByte, writtenBits, pending := CodeValue(currentByte, writtenBits, vector[index], M, b, difference, pending);
        ValuesCodeStep(vector, index, M);
        Extend(W0, done, ValueCode(vector[index], M));
        done := done + ValueCode(vector[index], M);
      }
      assert vector[..|vector|] == vector;
    }

    /** The header of code() and its loop over the vector, from an empty output. */
    method CodeBody(vector: seq<nat>, M: nat, dynamicRange: nat)
      returns (currentByte: nat, writtenBits: nat, ghost pending: BitString)
      requires Valid() && fileOut == [] && M >= 1
      modifies this`fileOut, this`writtenBytes
      ensures Valid() && Holds(currentByte, writtenBits, pending)
      ensures BytesBits(fileOut) + pending == HeaderBits(M, dynamicRange) + ValuesCode(vector, M)
    {
      EmptyStart();
      currentByte, writtenBits, pending := WriteIntToBinary(0, 0, M, dynamicRange, []);
      ghost var header := BytesBits(fileOut) + pending;
      assert header == HeaderBits(M, dynamicRange);
      var b := BitLength(M);
      var difference := Pow2(b) - M;
      currentByte, writtenBits, pending := CodeValues(currentByte, writtenBits, vector, M, b, difference, pending);
    }

    /**
     * code: M, the integer mean of the vector raised to at least 1, in dynamicRange bits;
     * then each value as its quotient by M in unary and its remainder in truncated
     * binary; then the padding.  The file opened holds exactly Encoded(vector, dynamicRange)
     * in an even number of bytes.
     */
    method Code(vector: seq<nat>, dynamicRange: nat)
      requires |vector| > 0
      modifies this`fileOut, this`writtenBytes
      ensures Valid() && BytesBits(fileOut) == Encoded(vector, dynamicRange)
      ensures |fileOut| % 2 == 0
    {
      fileOut := [];
      writtenBytes := 0;
      var M := MeanParameter(vector);
      var currentByte, writtenBits, pending := CodeBody(vector, M, dynamicRange);
      ghost var body := BytesBits(fileOut) + pending;
      currentByte, writtenBits := PaddingByte(currentByte, writtenBits, pending);
      EncodedOf(vector, dynamicRange, body);
      EvenByteCount(|fileOut|, |body|);
    }

    // ----- Decoder: positions are (readBytes, readBits), bit 8 * readBytes + readBits of the stream -----

    /** checkCurrentBit: bit 7 - readBits of byte readBytes is the stream's bit at that position. */
    static method CheckCurrentBit(byteList: seq<Byte>, readBytes: nat, readBits: nat) returns (currentBitValue: nat)
      requires readBytes < |byteList| && readBits < 8
      ensures currentBitValue < 2
      ensures BitOf(currentBitValue) == BytesBits(byteList)[8 * readBytes + readBits]
    {
      currentBitValue := (byteList[readBytes] / Pow2(7 - readBits)) % 2;
      BitAtPosition(byteList, readBytes, 7 - readBits);
    }

    /** The step every reader repeats: one bit on, and on to the next byte after the eighth. */
    static method NextBit(readBytes0: nat, readBits0: nat) returns (readBytes: nat, readBits: nat)
      requires readBits0 < 8
      ensures readBits < 8 && 8 * readBytes + readBits == 8 * readBytes0 + readBits0 + 1
    {
      readBytes, readBits := readBytes0, readBits0 + 1;
      if readBits >= 8 {
        readBytes := readBytes + 1;
        readBits := 0;
      }
    }

    /** readIntFromUnary: counts the ones up to the next zero and moves past that zero. */
    static method ReadIntFromUnary(byteList: seq<Byte>, readBytes0: nat, readBits0: nat)
      returns (readBytes: nat, readBits: nat, readValue: nat)
      requires readBits0 < 8 && UnaryAt(BytesBits(byteList), 8 * readBytes0 + readBits0).Success?
      ensures readBits < 8
      ensures UnaryAt(BytesBits(byteList), 8 * readBytes0 + readBits0) == Success(Read(readValue, 8 * readBytes + readBits))
    {
      ghost var S := BytesBits(byteList);
      ghost var p0 := 8 * readBytes0 + readBits0;
      readBytes, readBits, readValue := readBytes0, readBits0, 0;
      var bit := CheckCurrentBit(byteList, readBytes, readBits);
      while bit == 1
        invariant readBits < 8 && UnaryAt(S, 8 * readBytes + readBits).Success?
        invariant bit < 2 && BitOf(bit) == S[8 * readBytes + readBits]
        invariant var rest := UnaryAt(S, 8 * readBytes + readBits).value;
          UnaryAt(S, p0) == Success(Read(readValue + rest.value, rest.pos))
        decreases |S| - (8 * readBytes + readBits)
      {
        readValue := readValue + 1;
        readBytes, readBits := NextBit(readBytes, readBits);
        bit := CheckCurrentBit(byteList, readBytes, readBits);
      }
      readBytes, readBits := NextBit(readBytes, readBits);
    }

    /**
     * checkIntFromBinary: the value of the next numberOfBitsToBeUsed bits, most significant
     * first, without moving the reading position.
     */
    static method CheckIntFromBinary(byteList: seq<Byte>, readBytes: nat, readBits: nat, numberOfBitsToBeUsed: nat)
      returns (readValue: nat)
      requires readBits < 8 && 8 * readBytes + readBits + numberOfBitsToBeUsed <= 8 * |byteList|
      ensures var p := 8 * readBytes + readBits;
        BinaryAt(BytesBits(byteList), p, numberOfBitsToBeUsed) == Success(Read(readValue, p + numberOfBitsToBeUsed))
    {
      ghost var S := BytesBits(byteList);
      ghost var p := 8 * readBytes + readBits;
      var n := numberOfBitsToBeUsed;
      var checkedBits, checkedBytes := readBits, readBytes;
      readValue := 0;
      for i := 0 to n
        invariant checkedBits < 8 && 8 * checkedBytes + checkedBits == p + i
        invariant readValue == Shifted(S, p, i, n)
      {
        var bitToRead := CheckCurrentBit(byteList, checkedBytes, checkedBits);
        var position := n - 1 - i;
        ShiftInBit(S, p, i, n);
        readValue := readValue + bitToRead * Pow2(position);
        checkedBytes, checkedBits := NextBit(checkedBytes, checkedBits);
      }
      ShiftedAll(S, p, n);
    }

    /** readIntFromBinary: the value of the next numberOfBitsToBeUsed bits, and the position after them. */
    static method ReadIntFromBinary(byteList: seq<Byte>, readBytes0: nat, readBits0: nat, numberOfBitsToBeUsed: nat)
      returns (readBytes: nat, readBits: nat, readValue: nat)
      requires readBits0 < 8 && 8 * readBytes0 + readBits0 + numberOfBitsToBeUsed <= 8 * |byteList|
      ensures readBits < 8
      ensures BinaryAt(BytesBits(byteList), 8 * readBytes0 + readBits0, numberOfBitsToBeUsed)
        == Success(Read(readValue, 8 * readBytes + readBits))
    {
      ghost var S := BytesBits(byteList);
      ghost var p := 8 * readBytes0 + readBits0;
      var n := numberOfBitsToBeUsed;
      readBytes, readBits := readBytes0, readBits0;
      readValue := 0;
      for i := 0 to n
        invariant readBits < 8 && 8 * readBytes + readBits == p + i
        invariant readValue == Shifted(S, p, i, n)
      {
        var bitToRead := CheckCurrentBit(byteList, readBytes, readBits);
        var position := n - 1 - i;
        ShiftInBit(S, p, i, n);
        readValue := readValue + bitToRead * Pow2(position);
        readBytes, readBits := NextBit(readBytes, readBits);
      }
      ShiftedAll(S, p, n);
    }

    /** incrementReadBits: the position numberOfBitsToBeIncremented bits further on. */
    static method IncrementReadBits(readBytes0: nat, readBits0: nat, numberOfBitsToBeIncremented: nat)
      returns (readBytes: nat, readBits: nat)
      requires readBits0 < 8
      ensures readBits < 8 && 8 * readBytes + readBits == 8 * readBytes0 + readBits0 + numberOfBitsToBeIncremented
    {
      readBytes, readBits := readBytes0, readBits0;
      for i := 0 to numberOfBitsToBeIncremented
        invariant readBits < 8 && 8 * readBytes + readBits == 8 * readBytes0 + readBits0 + i
      {
        readBytes, readBits := NextBit(readBytes, readBits);
      }
    }

    /**
     * One pass of the loop of decodeBitstream: q in unary; then b - 1 bits peeked, taken as
     * r when below difference, otherwise b bits read less difference; the value is q * M + r.
     */
    static method DecodeValue(byteList: seq<Byte>, readBytes0: nat, readBits0: nat, M: nat, b: nat, difference: nat)
      returns (readBytes: nat, readBits: nat, value: int)
      requires readBits0 < 8 && b >= 1
      requires ValueAt(BytesBits(byteList), 8 * readBytes0 + readBits0, M, b, difference).Success?
      ensures readBits < 8
      ensures ValueAt(BytesBits(byteList), 8 * readBytes0 + readBits0, M, b, difference)
        == Success(Read(value, 8 * readBytes + readBits))
    {
      var q;
      readBytes, readBits, q := ReadIntFromUnary(byteList, readBytes0, readBits0);
      var rCode := CheckIntFromBinary(byteList, readBytes, readBits, b - 1);
      var r;
      if rCode < difference {
        r := rCode;
        readBytes, readBits := IncrementReadBits(readBytes, readBits, b - 1);
      } else {
        readBytes, readBits, rCode := ReadIntFromBinary(byteList, readBytes, readBits, b);
        r := rCode - difference;
      }
      value := q * M + r;
    }

    /** The loop of decodeBitstream: nElements values into a vector of zeros, index by index. */
    static method DecodeValues(byteList: seq<Byte>, readBytes0: nat, readBits0: nat, M: nat, b: nat, difference: nat, nElements: nat)
      returns (vector: seq<int>)
      requires readBits0 < 8 && b >= 1
      requires ValuesAt(BytesBits(byteList), 8 * readBytes0 + readBits0, M, b, difference, nElements).Success?
      ensures vector == ValuesAt(BytesBits(byteList), 8 * readBytes0 + readBits0, M, b, difference, nElements).value.values
    {
      ghost var S := BytesBits(byteList);
      ghost var pos := 8 * readBytes0 + readBits0;
      ghost var result := ValuesAt(S, pos, M, b, difference, nElements).value;
      ghost var all, end := result.values, result.pos;
      ghost var rest := all;
      var readBytes, readBits := readBytes0, readBits0;
      vector := seq(nElements, _ => 0);
      for index := 0 to nElements
        invariant |vector| == nElements && readBits < 8 && pos == 8 * readBytes + readBits
        invariant |rest| == nElements - index && all == vector[..index] + rest
        invariant ValuesAt(S, pos, M, b, difference, |rest|) == Success(Reads(rest, end))
      {
        var next := ValuesAtFront(S, pos, M, b, difference, rest, end);
        var value;
        readBytes, readBits, value := DecodeValue(byteList, readBytes, readBits, M, b, difference);
        PlaceValue(all, vector, index, value, rest[1..]);
        vector := vector[index := value];
        pos, rest := next, rest[1..];
      }
      assert vector[..nElements] == vector;
    }

    /**
     * decodeBitstream: M from the first dynamicRange bits, b and difference from M, then
     * the nElements values.  The vector is the one Decoded gives whenever Decoded
     * succeeds; the cases where it fails are the ones where the original raises (an index
     * past the end, or the logarithm of zero).
     */
    static method DecodeBitstream(byteList: seq<Byte>, nElements: nat, dynamicRange: nat) returns (vector: seq<int>)
      requires Decoded(byteList, nElements, dynamicRange).Success?
      ensures vector == Decoded(byteList, nElements, dynamicRange).value
    {
      ghost var header := BinaryAt(BytesBits(byteList), 0, dynamicRange);
      assert header.Success? && header.value.value != 0;
      var readBytes, readBits, readValue := ReadIntFromBinary(byteList, 0, 0, dynamicRange);
      assert readValue == header.value.value && 8 * readBytes + readBits == dynamicRange;
      var M := readValue;
      var b := BitLength(M);
      var difference := Pow2(b) - M;
      assert difference == Difference(M);
      vector := DecodeValues(byteList, readBytes, readBits, M, b, difference, nElements);
    }

    /**
     * decode: decodeBitstream over the bytes of the file, then numpy's cast to uint16,
     * which keeps the low 16 bits of each value.
     */
    static method Decode(fileBytes: seq<Byte>, dynamicRange: nat, nElements: nat) returns (decodedVector: seq<nat>)
      requires Decoded(fileBytes, nElements, dynamicRange).Success?
      ensures |decodedVector| == nElements
      ensures forall i :: 0 <= i < nElements ==> decodedVector[i] == Decoded(fileBytes, nElements, dynamicRange).value[i] % 65536
    {
      var vector := DecodeBitstream(fileBytes, nElements, dynamicRange);
      decodedVector := seq(nElements, i requires 0 <= i < nElements => vector[i] % 65536);
    }
  }

  /** The value of the i bits at p, shifted into the top of an n-bit number. */
  ghost function Shifted(S: BitString, p: nat, i: nat, n: nat): nat
    requires i <= n && p + i <= |S|
  {
    Value(S[p .. p + i]) * Pow2(n - i)
  }

  /** Adding bit i at position n - 1 - i extends the shifted value by one bit. */
  lemma ShiftInBit(S: BitString, p: nat, i: nat, n: nat)
    requires i < n && p + i < |S|
    ensures Shifted(S, p, i + 1, n) == Shifted(S, p, i, n) + BitValue(S[p + i]) * Pow2(n - 1 - i)
  {
    var s := S[p .. p + i + 1];
    assert s[..|s| - 1] == S[p .. p + i];
    var V, c, P := Value(S[p .. p + i]), BitValue(S[p + i]), Pow2(n - 1 - i);
    assert Value(s) == 2 * V + c;
    assert Pow2(n - i) == 2 * P;
    Regroup2(V, c, P);
  }

  lemma Regroup2(V: int, c: int, P: int)
    ensures (2 * V + c) * P == V * (2 * P) + c * P
  {
  }

  /** Once all n bits are in, the shifted value is the value of the n bits. */
  lemma ShiftedAll(S: BitString, p: nat, n: nat)
    requires p + n <= |S|
    ensures Shifted(S, p, n, n) == Value(S[p .. p + n])
  {
  }

  /** Values read at p are the value at p followed by the others, read from where it ends. */
  lemma {:induction false} ValuesAtFront(S: BitString, p: nat, M: nat, b: nat, d: nat, vs: seq<int>, end: nat) returns (next: nat)
    requires b >= 1 && vs != [] && ValuesAt(S, p, M, b, d, |vs|) == Success(Reads(vs, end))
    ensures ValueAt(S, p, M, b, d) == Success(Read(vs[0], next))
    ensures ValuesAt(S, next, M, b, d, |vs[1..]|) == Success(Reads(vs[1..], end))
  {
    var v := ValueAt(S, p, M, b, d);
    next := v.value.pos;
    var rest := ValuesAt(S, next, M, b, d, |vs| - 1);
    assert [v.value.value] + rest.value.values == vs;
    assert rest.value.values == vs[1..];
  }

  /** Writing the value at index extends the decoded prefix by it. */
  lemma PlaceValue(all: seq<int>, vector: seq<int>, index: nat, value: int, rest: seq<int>)
    requires index < |vector| && all == vector[..index] + ([value] + rest)
    ensures all == vector[index := value][..index + 1] + rest
  {
    assert vector[index := value][..index + 1] == vector[..index] + [value];
  }

  /**
   * The coder's promise: decoding the file code() writes, with the same dynamic range
   * and element count, gives the vector back, for values of dynamicRange bits up to 16.
   */
  method CodeThenDecode(vector: seq<nat>, dynamicRange: nat) returns (decodedVector: seq<nat>)
    requires |vector| > 0 && 1 <= dynamicRange <= 16
    requires forall i :: 0 <= i < |vector| ==> vector[i] < Pow2(dynamicRange)
    ensures decodedVector == vector
  {
    var coder := new GolombRiceCoder();
    coder.Code(vector, dynamicRange);
    RoundTrip(vector, dynamicRange, coder.fileOut);
    decodedVector := GolombRiceCoder.Decode(coder.fileOut, dynamicRange, |vector|);
    CastKeeps(vector, dynamicRange);
  }

  /** Values of at most 16 bits pass the cast to uint16 unchanged. */
  lemma CastKeeps(vector: seq<nat>, dynamicRange: nat)
    requires dynamicRange <= 16
    requires forall i :: 0 <= i < |vector| ==> vector[i] < Pow2(dynamicRange)
    ensures forall i :: 0 <= i < |vector| ==> vector[i] % 65536 == vector[i]
  {
    Pow2Monotone(dynamicRange, 16);
    Pow2Eight();
    Pow2Add(8, 8);
  }

  /** An empty output and an empty byte hold no bits. */
  lemma EmptyStart()
    ensures Holds(0, 0, []) && BytesBits([]) == []
  {
  }

  /** Appending in two steps appends the concatenation. */
  lemma Extend(W: BitString, A: BitString, B: BitString)
    ensures (W + A) + B == W + (A + B)
  {
  }

  /** The bits of v at positions n - 1 down to i, most significant first. */
  ghost function HighBits(v: nat, n: nat, i: nat): BitString
    requires i <= n
  {
    Binary(Remainder(Quotient(v, i), n - i), n - i)
  }

  /** Writing bit i - 1 of v extends the high bits down to position i - 1. */
  lemma HighBitsStep(v: nat, n: nat, i: nat)
    requires 1 <= i <= n
    ensures HighBits(v, n, i - 1) == HighBits(v, n, i) + [BitOf(Quotient(v, i - 1) % 2)]
  {
    BinaryOfRemainder(Quotient(v, i - 1), n - i + 1);
    QuotientHalf(v, i - 1);
  }

  lemma {:induction false} QuotientHalf(v: nat, k: nat)
    ensures Quotient(v, k) / 2 == Quotient(v, k + 1)
  {
    if k > 0 {
      QuotientHalf(v / 2, k - 1);
    }
  }

  /** Encoded is the header and the codes, then their padding. */
  lemma EncodedOf(vector: seq<nat>, D: nat, body: BitString)
    requires |vector| > 0
    requires body == HeaderBits(MeanParameter(vector), D) + ValuesCode(vector, MeanParameter(vector))
    ensures Encoded(vector, D) == body + PaddingBits(|body|)
  {
  }

  lemma EvenByteCount(nBytes: nat, n: nat)
    requires 8 * nBytes == n + |PaddingBits(n)|
    ensures nBytes % 2 == 0
  {
    PaddingAligns(n);
    DivModUnique(8 * nBytes, 8, nBytes, 0);
  }

  lemma DivisionBounds(v: nat, M: nat)
    requires M >= 1
    ensures v / M >= 0 && 0 <= v % M < M
  {
  }

  /** The remainder written by code() as rCode in rBits bits is its truncated-binary code. */
  lemma {:induction false} RemainderCodeOf(r: nat, M: nat, rCode: nat, rBits: nat)
    requires r < M
    requires var b, d := BitLength(M), Difference(M);
      if r < d then rBits == b - 1 && rCode == r else rBits == b && rCode == r + d
    ensures Binary(rCode % Pow2(rBits), rBits) == RemainderCode(r, M)
  {
    RemainderFits(r, M);
    DivModUnique(rCode, Pow2(rBits), 0, rCode);
  }

  lemma ValuesCodeStep(vector: seq<nat>, index: nat, M: nat)
    requires index < |vector| && M >= 1
    ensures ValuesCode(vector[..index + 1], M) == ValuesCode(vector[..index], M) + ValueCode(vector[index], M)
  {
    assert vector[..index + 1][..index] == vector[..index];
  }

  /** The zeros written by paddingByte, the second byte only when the byte count is odd, are PaddingBits. */
  lemma PaddingAssembled(W0: BitString, W1: BitString, W2: BitString, w: nat, nBytes: nat)
    requires w < 8 && |W0| == 8 * nBytes + w
    requires W1 == W0 + Binary(0 % Pow2(8 - w), 8 - w)
    requires (nBytes + 1) % 2 != 0 ==> W2 == W1 + Binary(0 % Pow2(8), 8)
    requires (nBytes + 1) % 2 == 0 ==> W2 == W1
    ensures W2 == W0 + PaddingBits(|W0|)
  {
    var fill := 8 - w;
    DivModUnique(|W0|, 8, nBytes, w);
    DivModUnique(|W0| + fill, 8, nBytes + 1, 0);
    assert PaddingBits(|W0|) == Zeros(fill) + if (nBytes + 1) % 2 != 0 then Zeros(8) else [];
    ZeroBits(fill);
    if (nBytes + 1) % 2 != 0 {
      ZeroBits(8);
      assert W2 == W0 + (Zeros(fill) + Zeros(8));
    } else {
      assert W2 == W0 + (Zeros(fill) + []);
    }
  }

  lemma ZeroBits(n: nat)
    ensures Binary(0 % Pow2(n), n) == Zeros(n)
  {
    BinaryZero(n);
  }

  /** Bits that complete the byte being filled leave nothing pending: the buffer has one byte more. */
  lemma FullByteWritten(nBytes: nat, writtenBits: nat, nBytes0: nat)
    requires writtenBits < 8
    requires 8 * nBytes + writtenBits == 8 * nBytes0 + 8
    ensures writtenBits == 0 && nBytes == nBytes0 + 1
  {
    DivModUnique(8 * nBytes + writtenBits, 8, nBytes, writtenBits);
    DivModUnique(8 * nBytes0 + 8, 8, nBytes0 + 1, 0);
  }
}
