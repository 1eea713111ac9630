/**
 * The byte-buffer read cursor shared by the hybrid decoder and the byte-to-string
 * reader: a byte index and a count `readBits` of bits already taken from that byte.
 * Forward reading takes bit 7 - readBits of the byte (most significant first) and
 * moves to the next byte after eight bits; reverse reading takes bit readBits (least
 * significant first), prepends it, and moves to the previous byte after eight bits,
 * so that it walks the buffer's bit string backwards from the end.
 */
module BitCursor {
  import opened Bits

  /** How many bits of the buffer lie before a reverse cursor. */
  function ReversePosition(index: int, readBits: int): int
  {
    8 * index + 8 - readBits
  }

  /** How many bits of the buffer lie before a forward cursor. */
  function ForwardPosition(index: int, readBits: int): int
  {
    8 * index + readBits
  }

  /** One reverse step: the bit before the cursor is bit rb of byte idx. */
  lemma PrependStep(bytes: seq<Byte>, idx: int, rb: int, pos: int, end: int)
    requires 0 <= rb < 8 && idx < |bytes| && pos == ReversePosition(idx, rb) && 1 <= pos <= end <= 8 * |bytes|
    ensures 0 <= idx
    ensures BytesBits(bytes)[pos - 1 .. end] == [BitOf((bytes[idx] / Pow2(rb)) % 2)] + BytesBits(bytes)[pos .. end]
  {
    BitAtPosition(bytes, idx, rb);
    assert 8 * idx + 7 - rb == pos - 1;
    SlicePrepend(BytesBits(bytes), pos - 1, end);
  }

  lemma SlicePrepend(s: BitString, p: nat, end: nat)
    requires p < end <= |s|
    ensures s[p .. end] == [s[p]] + s[p + 1 .. end]
  {
  }

  /** One forward step: the bit after the cursor is bit 7 - rb of byte idx. */
  lemma AppendStep(bytes: seq<Byte>, idx: int, rb: int, start: int, pos: int)
    requires 0 <= rb < 8 && 0 <= idx && 0 <= start <= pos && pos == ForwardPosition(idx, rb) && pos < 8 * |bytes|
    ensures idx < |bytes|
    ensures BytesBits(bytes)[start .. pos + 1] == BytesBits(bytes)[start .. pos] + [BitOf((bytes[idx] / Pow2(7 - rb)) % 2)]
  {
    BitAtPosition(bytes, idx, 7 - rb);
    assert 8 * idx + 7 - (7 - rb) == pos;
    SliceExtend(BytesBits(bytes), start, pos);
  }

  lemma SliceExtend(s: BitString, start: nat, pos: nat)
    requires start <= pos < |s|
    ensures s[start .. pos + 1] == s[start .. pos] + [s[pos]]
  {
  }

  /**
   * Read nBits from the cursor (index, readBits) and return them with the cursor the
   * read leaves behind.  Reverse reading returns the nBits that precede the cursor, in
   * buffer order; forward reading returns the nBits that follow it.  Either way the
   * byte index moves by one for every 8 bits and readBits stays in 0..7.
   */
  method ReadBinaryString(bytes: seq<Byte>, index: int, readBits: int, nBits: nat, reverseReading: bool)
    returns (s: BitString, newIndex: int, newReadBits: int)
    requires 0 <= readBits < 8
    requires reverseReading ==> -1 <= index < |bytes| && nBits <= ReversePosition(index, readBits)
    requires !reverseReading ==> 0 <= index < |bytes| && ForwardPosition(index, readBits) + nBits <= 8 * |bytes|
    ensures |s| == nBits
    ensures 0 <= newReadBits < 8 && newReadBits == (readBits + nBits) % 8
    ensures reverseReading ==> newIndex == index - (readBits + nBits) / 8
    ensures !reverseReading ==> newIndex == index + (readBits + nBits) / 8
    ensures reverseReading ==>
      var p := ReversePosition(index, readBits);
      s == BytesBits(bytes)[p - nBits .. p] && ReversePosition(newIndex, newReadBits) == p - nBits
    ensures !reverseReading ==>
      var q := ForwardPosition(index, readBits);
      s == BytesBits(bytes)[q .. q + nBits] && ForwardPosition(newIndex, newReadBits) == q + nBits
  {
    if reverseReading {
      s, newIndex, newReadBits := ReadBackward(bytes, index, readBits, nBits);
    } else {
      s, newIndex, newReadBits := ReadForward(bytes, index, readBits, nBits);
    }
  }

  /** The reverse-reading loop of ReadBinaryString: each bit is prepended. */
  method ReadBackward(bytes: seq<Byte>, index: int, readBits: int, nBits: nat)
    returns (s: BitString, newIndex: int, newReadBits: int)
    requires 0 <= readBits < 8 && -1 <= index < |bytes| && nBits <= ReversePosition(index, readBits)
    ensures 0 <= newReadBits < 8 && newReadBits == (readBits + nBits) % 8
    ensures newIndex == index - (readBits + nBits) / 8
    ensures var p := ReversePosition(index, readBits);
      s == BytesBits(bytes)[p - nBits .. p] && ReversePosition(newIndex, newReadBits) == p - nBits
  {
    ghost var w := BytesBits(bytes);
    ghost var p := ReversePosition(index, readBits);
    var idx, rb := index, readBits;
    s := [];
    var n := 0;
    while n < nBits
      invariant 0 <= n <= nBits && 0 <= rb < 8
      invariant ReversePosition(idx, rb) == p - n && s == w[p - n .. p]
    {
      PrependStep(bytes, idx, rb, p - n, p);
      var bit := (bytes[idx] / Pow2(rb)) % 2;
      s := [BitOf(bit)] + s;
      rb := rb + 1;
      if rb >= 8 {
        rb := 0;
        idx := idx - 1;
      }
      n := n + 1;
    }
    newIndex, newReadBits := idx, rb;
    DivModUnique(readBits + nBits, 8, index - newIndex, newReadBits);
  }

  /** The forward-reading loop of ReadBinaryString: each bit is appended. */
  method ReadForward(bytes: seq<Byte>, index: int, readBits: int, nBits: nat)
    returns (s: BitString, newIndex: int, newReadBits: int)
    requires 0 <= readBits < 8 && 0 <= index < |bytes| && ForwardPosition(index, readBits) + nBits <= 8 * |bytes|
    ensures 0 <= newReadBits < 8 && newReadBits == (readBits + nBits) % 8
    ensures newIndex == index + (readBits + nBits) / 8
    ensures var q := ForwardPosition(index, readBits);
      s == BytesBits(bytes)[q .. q + nBits] && ForwardPosition(newIndex, newReadBits) == q + nBits
  {
    ghost var w := BytesBits(bytes);
    ghost var q := ForwardPosition(index, readBits);
    var idx, rb := index, readBits;
    s := [];
    var n := 0;
    while n < nBits
      invariant 0 <= n <= nBits && 0 <= rb < 8 && 0 <= idx
      invariant ForwardPosition(idx, rb) == q + n && s == w[q .. q + n]
    {
      AppendStep(bytes, idx, rb, q, q + n);
      var bit := (bytes[idx] / Pow2(7 - rb)) % 2;
      s := s + [BitOf(bit)];
      rb := rb + 1;
      if rb >= 8 {
        rb := 0;
        idx := idx + 1;
      }
      n := n + 1;
    }
    newIndex, newReadBits := idx, rb;
    DivModUnique(readBits + nBits, 8, newIndex - index, newReadBits);
  }
}
