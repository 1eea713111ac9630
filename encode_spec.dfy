/**
 * The bits the hybrid coder writes, as functions of its inputs.  One coding step for
 * sample t appends, after the first sample, the rescaling bit (if any) and then either
 * the GPO2 code of the residual (high entropy) or the low-entropy output (escape code
 * and completed codeword).  The image tail appends the 16 flush codewords, Sigma in
 * 2 + D + gamma bits and a one; padding then fills the last byte and whole zero bytes
 * fill the last output word.
 */
module HybridEncodeSpec {
  import opened Wrappers
  import opened Bits
  import opened CodingTables
  import opened Accumulator
  import opened Gpo2

  /** D and the clipped parameters the coder runs with. */
  datatype CoderConfig = CoderConfig(D: nat, Umax: nat, gamma0: nat, gamma: nat, Sigma0: int)

  /** The coder's statistics between samples: Sigma, Gamma and the 16 active prefixes. */
  datatype CoderState = CoderState(Sigma: nat, Gamma: int, prefixes: seq<string>)

  function EmptyPrefixes(): (ps: seq<string>)
    ensures |ps| == 16 && forall i :: 0 <= i < 16 ==> ps[i] == ""
  {
    seq(16, _ => "")
  }

  /** initializeCodingVariables: Gamma = 2^gamma_0, Sigma = clip(Sigma_0, 0, 2^(D+gamma_0) - 1), empty prefixes. */
  function InitialState(cfg: CoderConfig): CoderState
  {
    CoderState(Clip(cfg.Sigma0, 0, Pow2(cfg.D + cfg.gamma0) - 1), Pow2(cfg.gamma0), EmptyPrefixes())
  }

  /** The low-entropy input symbol for r under limit L: its hex digit, or the escape 'X'. */
  function InputSymbol(r: nat, L: int): (c: char)
    requires L <= 15
    ensures IsSymbol(c, L)
    ensures r <= L ==> c != Escape && HexValue(c) == Some(r)
    ensures r > L ==> c == Escape
  {
    if r <= L then HexDigit(r) else Escape
  }

  /** The escape value GPO2(r - L - 1, 0) written before an out-of-alphabet residual. */
  function EscapeBits(cfg: CoderConfig, r: nat, L: int): BitString
  {
    if r <= L then [] else Gpo2Code(r - L - 1, 0, cfg.Umax, cfg.D)
  }

  /** The prefix LowEntropyProcess extends: prefix i followed by the input symbol of r. */
  function Extended(tables: CoderTables, st: CoderState, r: nat): string
    requires ValidCoderTables(tables) && |st.prefixes| == 16
  {
    var i := SelectIndex(st.Sigma, st.Gamma, tables.limits);
    st.prefixes[i] + [InputSymbol(r, tables.limits[i].limit)]
  }

  /**
   * The state LowEntropyProcess leaves: with i the selected code index, prefix i is
   * extended by the input symbol and emptied once that completes a codeword of table i.
   */
  function LowEntropyState(tables: CoderTables, st: CoderState, r: nat): (st': CoderState)
    requires ValidCoderTables(tables) && |st.prefixes| == 16
    ensures st'.Sigma == st.Sigma && st'.Gamma == st.Gamma && |st'.prefixes| == 16
    ensures var i := SelectIndex(st.Sigma, st.Gamma, tables.limits);
      && (forall i' :: 0 <= i' < 16 && i' != i ==> st'.prefixes[i'] == st.prefixes[i'])
      && (st'.prefixes[i] == "" <==> Extended(tables, st, r) in tables.codes[i])
      && (st'.prefixes[i] != "" ==> st'.prefixes[i] == Extended(tables, st, r))
  {
    var i := SelectIndex(st.Sigma, st.Gamma, tables.limits);
    var p := Extended(tables, st, r);
    if p in tables.codes[i] then st.(prefixes := st.prefixes[i := ""])
    else st.(prefixes := st.prefixes[i := p])
  }

  /**
   * The bits LowEntropyProcess writes: the escape value GPO2(r - L(i) - 1, 0) when
   * r > L(i), then the codeword of the extended prefix if it completes one.
   */
  function LowEntropyBits(cfg: CoderConfig, tables: CoderTables, st: CoderState, r: nat): BitString
    requires ValidCoderTables(tables) && |st.prefixes| == 16
  {
    var i := SelectIndex(st.Sigma, st.Gamma, tables.limits);
    var escape := EscapeBits(cfg, r, tables.limits[i].limit);
    var p := Extended(tables, st, r);
    if p in tables.codes[i] then escape + tables.codes[i][p] else escape
  }

  /** HighEntropyProcess on the updated state: the GPO2 code of r with the selected k. */
  function HighEntropyBits(cfg: CoderConfig, st: CoderState, r: nat): BitString
  {
    Gpo2Code(r, SelectK(st.Sigma, st.Gamma, cfg.D), cfg.Umax, cfg.D)
  }

  /** The state after UpdateHighResolutionAccumulatorAndCounter(r). */
  function Updated(cfg: CoderConfig, st: CoderState, r: nat): CoderState
  {
    CoderState(UpdatedSigma(st.Sigma, st.Gamma, r, cfg.gamma), UpdatedGamma(st.Gamma, cfg.gamma), st.prefixes)
  }

  /** The state the mode the updated accumulator selects leaves: only low entropy touches the prefixes. */
  function ModeState(tables: CoderTables, st1: CoderState, r: nat): (st': CoderState)
    requires ValidCoderTables(tables) && |st1.prefixes| == 16
    ensures st'.Sigma == st1.Sigma && st'.Gamma == st1.Gamma && |st'.prefixes| == 16
  {
    if HighEntropy(st1.Sigma, st1.Gamma, tables.limits[0].threshold) then st1
    else LowEntropyState(tables, st1, r)
  }

  /** The code of r in the mode the updated accumulator selects. */
  function ModeBits(cfg: CoderConfig, tables: CoderTables, st1: CoderState, r: nat): BitString
    requires ValidCoderTables(tables) && |st1.prefixes| == 16
  {
    if HighEntropy(st1.Sigma, st1.Gamma, tables.limits[0].threshold) then HighEntropyBits(cfg, st1, r)
    else LowEntropyBits(cfg, tables, st1, r)
  }

  /** The state codeTargetMappedResidual leaves after sample t: unchanged by the first sample. */
  function NextState(cfg: CoderConfig, tables: CoderTables, st: CoderState, t: nat, r: nat): (st': CoderState)
    requires ValidCoderTables(tables) && |st.prefixes| == 16
    ensures |st'.prefixes| == 16
  {
    if t == 0 then st else ModeState(tables, Updated(cfg, st, r), r)
  }

  /**
   * The bits codeTargetMappedResidual writes for sample t: the first sample in plain
   * binary, every other one as the rescaling bit followed by its code.
   */
  function ResidualBits(cfg: CoderConfig, tables: CoderTables, st: CoderState, t: nat, r: nat): (s: BitString)
    requires ValidCoderTables(tables) && |st.prefixes| == 16
    ensures t == 0 && 1 <= cfg.D && r < Pow2(cfg.D) ==> s == Binary(r, cfg.D)
  {
    if t == 0 then
      PlainWhenFits(r, cfg.D);
      ZFill(Bin(r), cfg.D)
    else
      RescaleBits(st.Sigma, st.Gamma, cfg.gamma) + ModeBits(cfg, tables, Updated(cfg, st, r), r)
  }

  /** The coder's state after samples 0..n-1. */
  function RunState(cfg: CoderConfig, tables: CoderTables, rs: seq<nat>, n: nat): (st: CoderState)
    requires ValidCoderTables(tables) && n <= |rs|
    ensures |st.prefixes| == 16
  {
    if n == 0 then InitialState(cfg) else NextState(cfg, tables, RunState(cfg, tables, rs, n - 1), n - 1, rs[n - 1])
  }

  /** The bits written for samples 0..n-1, after the header. */
  function RunBits(cfg: CoderConfig, tables: CoderTables, rs: seq<nat>, n: nat): BitString
    requires ValidCoderTables(tables) && n <= |rs|
  {
    if n == 0 then []
    else RunBits(cfg, tables, rs, n - 1) + ResidualBits(cfg, tables, RunState(cfg, tables, rs, n - 1), n - 1, rs[n - 1])
  }

  /** Every active prefix is a string over its code's alphabet that no codeword key starts. */
  ghost predicate PrefixesPending(tables: CoderTables, prefixes: seq<string>)
    requires ValidCoderTables(tables)
  {
    |prefixes| == 16
    && forall i :: 0 <= i < 16 ==> OverAlphabet(prefixes[i], tables.limits[i].limit) && Reachable(tables.codes[i], prefixes[i])
  }

  /** A coding step keeps every active prefix pending, so each has a flush codeword. */
  lemma NextStateKeepsPrefixesPending(cfg: CoderConfig, tables: CoderTables, st: CoderState, t: nat, r: nat)
    requires ValidCoderTables(tables) && PrefixesPending(tables, st.prefixes)
    ensures PrefixesPending(tables, NextState(cfg, tables, st, t, r).prefixes)
  {
    if t > 0 {
      var st1 := Updated(cfg, st, r);
      if !HighEntropy(st1.Sigma, st1.Gamma, tables.limits[0].threshold) {
        LowEntropyKeepsPrefixesPending(tables, st1, r);
      }
    }
  }

  lemma LowEntropyKeepsPrefixesPending(tables: CoderTables, st: CoderState, r: nat)
    requires ValidCoderTables(tables) && PrefixesPending(tables, st.prefixes)
    ensures PrefixesPending(tables, LowEntropyState(tables, st, r).prefixes)
  {
    var i := SelectIndex(st.Sigma, st.Gamma, tables.limits);
    var L := tables.limits[i].limit;
    var after := LowEntropyState(tables, st, r).prefixes;
    if after[i] != "" {
      ExtendKeepsPending(tables.codes[i], st.prefixes[i], InputSymbol(r, L), L);
    }
    assert OverAlphabet(after[i], L) && Reachable(tables.codes[i], after[i]);
  }

  /** Appending a symbol that does not complete a codeword leaves a pending prefix. */
  lemma ExtendKeepsPending(code: map<string, BitString>, s: string, c: char, L: int)
    requires OverAlphabet(s, L) && Reachable(code, s) && IsSymbol(c, L)
    requires s + [c] !in code
    ensures OverAlphabet(s + [c], L) && Reachable(code, s + [c])
  {
    var p := s + [c];
    forall n | 1 <= n <= |p|
      ensures p[..n] !in code
    {
      if n < |p| {
        assert p[..n] == s[..n];
      } else {
        assert p[..n] == p;
      }
    }
  }

  /** The coder's invariants after n samples, for residuals below 2^D and gamma_0 < gamma. */
  lemma RunInvariants(cfg: CoderConfig, tables: CoderTables, rs: seq<nat>, n: nat)
    requires ValidCoderTables(tables) && n <= |rs|
    requires cfg.gamma0 < cfg.gamma
    requires forall i :: 0 <= i < |rs| ==> rs[i] < Pow2(cfg.D)
    ensures var st := RunState(cfg, tables, rs, n);
      && PrefixesPending(tables, st.prefixes)
      && AccumulatorInvariant(st.Sigma, st.Gamma, cfg.D, cfg.gamma)
      && st.Gamma == (if n == 0 then Pow2(cfg.gamma0) else GammaAt(cfg.gamma0, cfg.gamma, n - 1))
  {
    RunPrefixesPending(cfg, tables, rs, n);
    RunAccumulator(cfg, tables, rs, n);
    RunGamma(cfg, tables, rs, n);
  }

  /** After n samples the counter is Gamma(n - 1), the initial 2^gamma_0 before any. */
  lemma {:induction false} RunGamma(cfg: CoderConfig, tables: CoderTables, rs: seq<nat>, n: nat)
    requires ValidCoderTables(tables) && n <= |rs|
    ensures RunState(cfg, tables, rs, n).Gamma == (if n == 0 then Pow2(cfg.gamma0) else GammaAt(cfg.gamma0, cfg.gamma, n - 1))
  {
    if n > 0 {
      RunGamma(cfg, tables, rs, n - 1);
    }
  }

  /** Every active prefix stays pending sample after sample. */
  lemma {:induction false} RunPrefixesPending(cfg: CoderConfig, tables: CoderTables, rs: seq<nat>, n: nat)
    requires ValidCoderTables(tables) && n <= |rs|
    ensures PrefixesPending(tables, RunState(cfg, tables, rs, n).prefixes)
  {
    if n == 0 {
      var ps := EmptyPrefixes();
      assert forall i :: 0 <= i < 16 ==> OverAlphabet(ps[i], tables.limits[i].limit) && Reachable(tables.codes[i], ps[i]);
    } else {
      RunPrefixesPending(cfg, tables, rs, n - 1);
      NextStateKeepsPrefixesPending(cfg, tables, RunState(cfg, tables, rs, n - 1), n - 1, rs[n - 1]);
    }
  }

  /** The accumulator and counter stay within their bounds sample after sample. */
  lemma {:induction false} RunAccumulator(cfg: CoderConfig, tables: CoderTables, rs: seq<nat>, n: nat)
    requires ValidCoderTables(tables) && n <= |rs|
    requires cfg.gamma0 < cfg.gamma
    requires forall i :: 0 <= i < |rs| ==> rs[i] < Pow2(cfg.D)
    ensures var st := RunState(cfg, tables, rs, n);
      AccumulatorInvariant(st.Sigma, st.Gamma, cfg.D, cfg.gamma)
  {
    if n == 0 {
      InitialAccumulator(cfg.Sigma0, cfg.D, cfg.gamma0, cfg.gamma);
    } else {
      RunAccumulator(cfg, tables, rs, n - 1);
      var st := RunState(cfg, tables, rs, n - 1);
      if n - 1 > 0 {
        UpdatePreservesAccumulator(st.Sigma, st.Gamma, rs[n - 1], cfg.D, cfg.gamma);
      }
    }
  }

  /** codeImageTail's flush codewords for prefixes 0..n-1, in index order. */
  function FlushBits(tables: CoderTables, prefixes: seq<string>, n: nat): BitString
    requires ValidCoderTables(tables) && PrefixesPending(tables, prefixes) && n <= 16
  {
    if n == 0 then [] else FlushBits(tables, prefixes, n - 1) + tables.flush[n - 1][prefixes[n - 1]]
  }

  /** The tail before padding: flush codewords, Sigma in 2 + D + gamma bits, then a one. */
  function TailBits(cfg: CoderConfig, tables: CoderTables, st: CoderState): BitString
    requires ValidCoderTables(tables) && PrefixesPending(tables, st.prefixes)
  {
    FlushBits(tables, st.prefixes, 16) + ZFill(Bin(st.Sigma), 2 + cfg.D + cfg.gamma) + ['1']
  }

  /** The zero bits padding('0') adds to complete the last byte. */
  function PadLength(n: nat): (p: nat)
    ensures p < 8 && (n + p) % 8 == 0
  {
    (8 - n % 8) % 8
  }

  /** The zero bytes added until the byte count is a multiple of the output word size. */
  function WordFill(nBytes: nat, wordSize: nat): (e: nat)
    requires wordSize >= 1
    ensures e < wordSize && (nBytes + e) % wordSize == 0
  {
    var m := nBytes % wordSize;
    if m == 0 then 0
    else
      DivModUnique(nBytes + (wordSize - m), wordSize, nBytes / wordSize + 1, 0);
      wordSize - m
  }

  /**
   * padding('0') and the word-size loop applied to the bits written so far: zeros up to
   * the next byte boundary, then zero bytes up to the next whole output word.
   */
  function Framed(body: BitString, wordSize: nat): (s: BitString)
    requires wordSize >= 1
    ensures |s| % 8 == 0 && (|s| / 8) % wordSize == 0
    ensures |body| <= |s| < |body| + 8 + 8 * wordSize
    ensures s == body + Zeros(|s| - |body|)
  {
    var pad := PadLength(|body|);
    var nBytes := (|body| + pad) / 8;
    var extra := WordFill(nBytes, wordSize);
    DivModUnique(|body| + pad + 8 * extra, 8, nBytes + extra, 0);
    assert Zeros(pad) + Zeros(8 * extra) == Zeros(pad + 8 * extra);
    body + Zeros(pad) + Zeros(8 * extra)
  }

  /** The bits of the whole output of code(): header, samples, tail and padding. */
  function EncodedBits(cfg: CoderConfig, tables: CoderTables, header: BitString, rs: seq<nat>, wordSize: nat): BitString
    requires ValidCoderTables(tables) && wordSize >= 1
  {
    RunPrefixesPending(cfg, tables, rs, |rs|);
    Framed(header + RunBits(cfg, tables, rs, |rs|) + TailBits(cfg, tables, RunState(cfg, tables, rs, |rs|)), wordSize)
  }
}
