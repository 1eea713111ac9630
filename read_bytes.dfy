/**
 * The byte-to-string reader (class convertHexaFileToBinFile): a byte buffer, the read
 * cursor into it (currentByteIndex, readBits), and the unused writer fields.  Reading a
 * whole file front to back yields the file's bits, eight per byte, most significant first.
 */
module ReadBytesAsString {
  import opened Bits
  import opened BitCursor

  class ConvertHexaFileToBinFile {
    var currentByte: int
    var writtenBits: int
    var bitStream: seq<Byte>
    var readBits: int
    var currentByteIndex: int

    /** The original sets every field to None; the model starts them at the values initializeParameters gives. */
    constructor()
      ensures currentByte == 0 && writtenBits == 0 && bitStream == [] && readBits == 0 && currentByteIndex == 0
    {
      currentByte, writtenBits, bitStream := 0, 0, [];
      readBits, currentByteIndex := 0, 0;
    }

    /** initializeParameters: an empty buffer with the cursor at its first byte. */
    method InitializeParameters()
      modifies this
      ensures currentByte == 0 && writtenBits == 0 && bitStream == [] && readBits == 0 && currentByteIndex == 0
    {
      currentByte := 0;
      writtenBits := 0;
      bitStream := [];
      readBits := 0;
      currentByteIndex := 0;
    }

    /** readBitStreamFromBinaryFile: the buffer becomes the file's bytes, given here as a parameter. */
    method ReadBitStreamFromBinaryFile(fileBytes: seq<Byte>)
      modifies this`bitStream
      ensures bitStream == fileBytes
    {
      bitStream := fileBytes;
    }

    /**
     * readBinaryStringFromBitStream: nBits bits from the cursor.  Forward reading returns
     * the bits after the cursor, reverse reading the bits before it, both in buffer order;
     * the cursor moves past them only when updateCounters holds.  The byte under the
     * cursor is read before the loop, so that byte must exist.
     */
    method ReadBinaryStringFromBitStream(nBits: nat, updateCounters: bool, reverseReading: bool) returns (binaryString: BitString)
      requires 0 <= readBits < 8
      requires reverseReading ==> 0 <= currentByteIndex < |bitStream| && nBits <= ReversePosition(currentByteIndex, readBits)
      requires !reverseReading ==> 0 <= currentByteIndex < |bitStream| && ForwardPosition(currentByteIndex, readBits) + nBits <= 8 * |bitStream|
      modifies this`currentByteIndex, this`readBits
      ensures 0 <= readBits < 8 && |binaryString| == nBits
      ensures reverseReading ==>
        var p := ReversePosition(old(currentByteIndex), old(readBits));
        binaryString == BytesBits(bitStream)[p - nBits .. p]
        && ReversePosition(currentByteIndex, readBits) == (if updateCounters then p - nBits else p)
      ensures !reverseReading ==>
        var q := ForwardPosition(old(currentByteIndex), old(readBits));
        binaryString == BytesBits(bitStream)[q .. q + nBits]
        && ForwardPosition(currentByteIndex, readBits) == (if updateCounters then q + nBits else q)
      ensures !updateCounters ==> currentByteIndex == old(currentByteIndex) && readBits == old(readBits)
    {
      var currentByteIndexLocal, readBitsLocal;
      binaryString, currentByteIndexLocal, readBitsLocal := ReadBinaryString(bitStream, currentByteIndex, readBits, nBits, reverseReading);
      if updateCounters {
        currentByteIndex := currentByteIndexLocal;
        readBits := readBitsLocal;
      }
    }

    /**
     * readBinaryFileAsString: a fresh reader over the file's bytes reads eight bits
     * forward per byte; the string is the file's bits, most significant first in each byte.
     */
    method ReadBinaryFileAsString(fileBytes: seq<Byte>) returns (entireBinaryString: BitString)
      ensures entireBinaryString == BytesBits(fileBytes)
    {
      var conversionObject := new ConvertHexaFileToBinFile();
      conversionObject.InitializeParameters();
      conversionObject.ReadBitStreamFromBinaryFile(fileBytes);
      entireBinaryString := [];
      var nBits := 8;
      for hexa := 0 to |conversionObject.bitStream|
        invariant conversionObject.bitStream == fileBytes
        invariant conversionObject.currentByteIndex == hexa && conversionObject.readBits == 0
        invariant entireBinaryString == BytesBits(fileBytes)[..8 * hexa]
      {
        var binaryString := conversionObject.ReadBinaryStringFromBitStream(nBits, true, false);
        SliceJoin(BytesBits(fileBytes), 8 * hexa, 8 * hexa + 8);
        entireBinaryString := entireBinaryString + binaryString;
      }
    }
  }

  lemma SliceJoin(s: BitString, i: nat, j: nat)
    requires i <= j <= |s|
    ensures s[..j] == s[..i] + s[i .. j]
  {
  }

  /**
   * The string read back gives every byte: its length is eight bits per byte, and the
   * eight characters of byte i, read as a binary number, are that byte.
   */
  lemma StringGivesBytes(fileBytes: seq<Byte>, i: nat)
    requires i < |fileBytes|
    ensures |BytesBits(fileBytes)| == 8 * |fileBytes|
    ensures Value(BytesBits(fileBytes)[8 * i .. 8 * i + 8]) == fileBytes[i]
  {
    var s := BytesBits(fileBytes);
    var block := s[8 * i .. 8 * i + 8];
    forall j | 0 <= j < 8
      ensures block[j] == ByteBits(fileBytes[i])[j]
    {
      BytesBitsAt(fileBytes, i, j);
    }
    assert block == ByteBits(fileBytes[i]);
    Pow2Eight();
    ValueOfBinary(fileBytes[i], 8);
  }
}
