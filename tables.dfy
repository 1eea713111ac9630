/**
 * The three coding tables of the low-entropy sub-coder, as immutable inputs: the
 * 16-row table of code index i, input symbol limit L(i) and threshold T(i); for each
 * code index a map from complete input prefixes (strings of hexadecimal digits and the
 * escape symbol 'X') to output codewords; and for each code index a flush map that
 * codes whatever partial prefix is left at the end of the image.  The decoder loads the
 * inverse maps, from output codewords back to input prefixes.
 */
module CodingTables {
  import opened Wrappers
  import opened Bits
  import opened ReverseReads

  /** One row (i, L(i), T(i)) of the input-symbol-limit-and-threshold table. */
  datatype LimitAndThreshold = LimitAndThreshold(index: int, limit: int, threshold: int)

  const Escape: char := 'X'

  /** hex(r).split('x')[-1].upper() for a residual r below 16: one upper-case digit. */
  function HexDigit(r: nat): (c: char)
    requires r < 16
    ensures c != Escape
    ensures HexValue(c) == Some(r)
  {
    if r < 10 then ('0' as int + r) as char else ('A' as int + r - 10) as char
  }

  /** int(c, 16) for a one-character string c; None where Python raises ValueError. */
  function HexValue(c: char): Option<nat>
  {
    if '0' <= c <= '9' then Some(c as int - '0' as int)
    else if 'A' <= c <= 'F' then Some(c as int - 'A' as int + 10)
    else if 'a' <= c <= 'f' then Some(c as int - 'a' as int + 10)
    else None
  }

  /** The symbols the coder appends under a code index whose input symbol limit is limit. */
  predicate IsSymbol(c: char, limit: int)
  {
    c == Escape
    || ('0' <= c <= '9' && c as int - '0' as int <= limit)
    || ('A' <= c <= 'F' && c as int - 'A' as int + 10 <= limit)
  }

  predicate OverAlphabet(s: string, limit: int)
  {
    forall j :: 0 <= j < |s| ==> IsSymbol(s[j], limit)
  }

  /** No non-empty prefix of s is a complete input prefix of code: an active prefix may hold s. */
  predicate Reachable(code: map<string, BitString>, s: string)
  {
    forall n :: 1 <= n <= |s| ==> s[..n] !in code
  }

  datatype CoderTables = CoderTables(
    limits: seq<LimitAndThreshold>,
    codes: seq<map<string, BitString>>,
    flush: seq<map<string, BitString>>)

  /**
   * What the coder relies on: 16 rows and 16 maps of each kind, limits that are single
   * hexadecimal digits, and a flush codeword for every prefix an active prefix can hold.
   */
  ghost predicate ValidCoderTables(t: CoderTables)
  {
    && |t.limits| == 16 && |t.codes| == 16 && |t.flush| == 16
    && (forall i :: 0 <= i < 16 ==> 0 <= t.limits[i].limit <= 15)
    && (forall i, s :: 0 <= i < 16 && OverAlphabet(s, t.limits[i].limit) && Reachable(t.codes[i], s) ==> s in t.flush[i])
  }

  datatype DecoderTables = DecoderTables(
    limits: seq<LimitAndThreshold>,
    codes: seq<map<BitString, string>>,
    flush: seq<map<BitString, string>>)

  predicate ValidDecoderTables(t: DecoderTables)
  {
    |t.limits| == 16 && |t.codes| == 16 && |t.flush| == 16
  }

  ghost predicate Inverts(enc: map<string, BitString>, dec: map<BitString, string>)
  {
    forall s :: s in enc ==> enc[s] in dec && dec[enc[s]] == s
  }

  /** The decoder's tables undo the coder's, and their codewords can be told apart from the end. */
  ghost predicate MatchingTables(c: CoderTables, d: DecoderTables)
  {
    && ValidCoderTables(c) && ValidDecoderTables(d)
    && d.limits == c.limits
    && (forall i :: 0 <= i < 16 ==> Inverts(c.codes[i], d.codes[i]) && SuffixFree(d.codes[i]))
    && (forall i :: 0 <= i < 16 ==> Inverts(c.flush[i], d.flush[i]) && SuffixFree(d.flush[i]))
  }
}
